/** The checkpoint arithmetic of shared/src/install_progress.c and shared/src/backup_progress.c. */
module Progress {
  import opened Bytes
  import opened BootMetadata

  /** InstallProgress_Validate: checkpoints are page boundaries, or the exact end of the image. */
  predicate InstallValid(imageSize: nat, copyOffset: nat) {
    && 8 <= imageSize <= APPLICATION_MAX_SIZE
    && copyOffset <= imageSize
    && (copyOffset == imageSize || copyOffset % INTERNAL_FLASH_PAGE_SIZE == 0)
  }

  function PageLength(imageSize: nat, copyOffset: nat): nat {
    if !InstallValid(imageSize, copyOffset) || copyOffset == imageSize then 0
    else Min(imageSize - copyOffset, INTERNAL_FLASH_PAGE_SIZE)
  }

  function NextPage(imageSize: nat, copyOffset: nat): nat {
    copyOffset + PageLength(imageSize, copyOffset)
  }

  /** BackupProgress_Validate: checkpoints are sector boundaries, or the end of the region. */
  predicate BackupValid(copyOffset: nat) {
    && copyOffset <= APPLICATION_MAX_SIZE
    && (copyOffset == APPLICATION_MAX_SIZE || copyOffset % EXT_FLASH_SECTOR_SIZE == 0)
  }

  function ChunkLength(copyOffset: nat): nat {
    if !BackupValid(copyOffset) || copyOffset == APPLICATION_MAX_SIZE then 0
    else Min(APPLICATION_MAX_SIZE - copyOffset, EXT_FLASH_SECTOR_SIZE)
  }

  function NextChunk(copyOffset: nat): nat { copyOffset + ChunkLength(copyOffset) }

  /** Each checkpoint is valid again and strictly further on, until it is the end. */
  lemma InstallAdvances(imageSize: nat, copyOffset: nat)
    requires InstallValid(imageSize, copyOffset)
    ensures InstallValid(imageSize, NextPage(imageSize, copyOffset))
    ensures copyOffset < imageSize ==> copyOffset < NextPage(imageSize, copyOffset) <= imageSize
    ensures copyOffset < imageSize ==> copyOffset % INTERNAL_FLASH_PAGE_SIZE == 0 &&
                                       copyOffset + INTERNAL_FLASH_PAGE_SIZE <= APPLICATION_MAX_SIZE
  {
  }

  lemma BackupAdvances(copyOffset: nat)
    requires BackupValid(copyOffset)
    ensures BackupValid(NextChunk(copyOffset))
    ensures copyOffset < APPLICATION_MAX_SIZE ==> copyOffset < NextChunk(copyOffset) <= APPLICATION_MAX_SIZE
  {
  }

  /** How many checkpoints are left: an install takes at most 38, a backup at most 10. */
  function PagesLeft(imageSize: nat, copyOffset: nat): nat
    requires copyOffset <= imageSize
  {
    (imageSize - copyOffset + INTERNAL_FLASH_PAGE_SIZE - 1) / INTERNAL_FLASH_PAGE_SIZE
  }

  lemma PagesCountDown(imageSize: nat, copyOffset: nat)
    requires InstallValid(imageSize, copyOffset)
    ensures PagesLeft(imageSize, copyOffset) <= 38
    ensures copyOffset < imageSize ==>
              PagesLeft(imageSize, NextPage(imageSize, copyOffset)) == PagesLeft(imageSize, copyOffset) - 1
  {
  }
}
