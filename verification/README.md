# Verified model of the over-the-air update path

A Dafny model of a delta update system: an STM32 bootloader and application, the ESP32 gateway that feeds them, and
the tool that makes the patches. It follows the provisioned, signed-only build.

* **Boot machine** (`Lifecycle`, `BootManager`, `ImageInstaller`, `SecureContainer`, `BackupStorage`,
  `MetadataStorage`, `Application`, `BootSafety`). A `Device` holds the two metadata pages, the application region
  and the external partitions. Every erase and program operation spends a unit of power, and when none is left the
  code stops there, so a contract for every budget is a contract for a cut between any two operations.
  `BootSafety.Safe` is the invariant; `Update` describes one update from outside: the confirmed image and version,
  the candidate the artifact leads to, the attempts on record, the jumps made, and whether the candidate has
  confirmed itself.
* **Delta codec** (`JojoDiff`, `Janpatch`). The generator and reference applier of the tool as functions read from
  the front of a patch, their loops as methods, and the streaming applier of the bootloader as a class with its
  cursors and 128-byte buffer, proved equal to the reference.
* **Transfer** (`Receiver`, `Client`, `SharedSectors`, `Packet`, `Cobs`). The receiver's session and flash, the
  sender's plan and retry loops over a link whose every attempt may lose, duplicate, delay or cut, the two record
  kinds that share sectors, and the framing.
* **Cryptography** (`Limbs`, `Modular`, `Fermat`, `Curve`, `PointArithmetic`, `Ecdsa`, `P256`, `Sha256`, `Crc32`).
  Limb arithmetic in place, the point formulas with the proof that they stay on the curve, the scalar loop and the
  verifier for any domain parameters of the right kind and any group they represent, the tables of P-256, streaming
  SHA-256 against the padded fold, and what the checksum detects.

Four properties turned out to hold only under a condition, and each has its exact one. A metadata commit is atomic
unless an incomplete body happens to have the checksum 0xFFFFFFFF (`CommitIsAtomic`, with a concrete record in
`TornExample`); the statements about runs end where this happens, and say what the memory is then (`Spoilt`). An
INSTALL request made while an application runs is safe exactly when the record is idle or the trial changes nothing
(`HandoffSafeIff`, with trials where it is not in `HandoffInTrial`); the receiver does not check this, so
`Lifecycle` takes such a request only while the confirmed image runs. A cut commit of one record kind can lose the
other kind's copy in the same sector (`HandoffSurvivesIff`, `CheckpointSurvivesIff`, `HandoffLost`). Requests with
sequence number zero are not told apart by their replies (`PassesFor`): a transfer without resets succeeds unless
its first DATA packet gets a late answer to START or RESUME (`Transfer`, `LateStartFails`), an acknowledged ABORT
may have changed nothing (`LateStartSparesSession`), and an old report taken for the answer to a query can have a
complete artifact aborted (`OldReportAborts`), so `Round` and `Persist` promise success for prompt reports.

A boot needs at most three decisions, so the limit of eight transitions is never what stops it.

Clocks, timeouts and the network are parameters: power budgets, the fate of each link attempt, the trust anchor
(which contents of Incoming carry a valid signature) and the build's version number. Flash follows the contract of
the drivers: erasing gives 0xFF, programming only clears bits, and success means that the range reads back. The
read-back comparisons of the code therefore never fail here and are not separate branches.

## Model

| member | source | states |
|---|---|---|
| `Lifecycle.Live` | node-stm32f103/bootloader/src/boot_manager.c:157-398 | every sequence of boots, downloads, install requests and confirmations, each cut after any number of flash operations, of a node in use or a new one without metadata: up to the end of the run, or up to an event at which a cut leaves a torn record that passes its checksum, the memory before and after every event is described by an update that follows from the one before, no commit is refused, no boot ends in a fatal loop, every boot whose power lasts jumps to an application, a candidate is jumped to at most three times running, the confirmed version never falls, and, unless a confirmation was on record at the start, the confirmed image changes only to a candidate that confirmed itself on trial; where the run ends early, what is loaded is that torn page and the record being written was safe for the images |
| `Lifecycle.ChangeIsConfirmed` | node-stm32f103/bootloader/src/trial_boot.c:58-88 | in the history of every such run, whenever the confirmed image or version changes, the new image is the candidate that the application region held, and an earlier confirmation in the run, under the pending version and after an attempt on record, had committed CONFIRMED for that update |
| `Lifecycle.ChangesAreConfirmed` | node-stm32f103/bootloader/src/trial_boot.c:58-88 | the same for every change in a history |
| `Lifecycle.ApprovedEarlier` | node-stm32f103/application/src/trial_confirmation.c:51-88 | an approved update owes its approval to a confirmation carried out earlier in the run |
| `Lifecycle.Recoverable` | node-stm32f103/bootloader/src/image_installer.c:718-915 | in every safe memory the application region is the confirmed image until INSTALLING is on record; from then until the confirmation the backup header and checksum are valid and the backup is that image byte for byte |
| `Lifecycle.CrashTransparent` | node-stm32f103/bootloader/src/boot_manager.c:211-397 | an update interrupted by any number of cut or completed boots and then given a complete one, against one complete boot of the same update: unless the trial's attempts were used up in between, both end in the same state, and wherever they do the application region and the record (generation, checksum and attempts aside, and when idle the last error) agree, and on trial the backup header and image too; the exception is a boot cut by a tear that is loaded as another record, up to which the update was intact |
| `Lifecycle.Reboot` | node-stm32f103/bootloader/src/image_installer.c:582-915 | any number of boots, each cut anywhere, leave the same update described after each of them: the confirmed image, the candidate and its identity, with at most one more attempt per boot; up to a cut that leaves a torn record which passes its checksum |
| `Lifecycle.LandAlike` | node-stm32f103/bootloader/src/image_installer.c:977-1005 | two complete boots of the same update end alike unless its attempts are spent |
| `Lifecycle.PowerOn` | node-stm32f103/bootloader/src/boot_manager.c:350-374 | one power cycle, also of a new node, keeps the update, or makes the approved candidate the confirmed image; it jumps to a candidate only while fewer than three jumps were made, and records at most one attempt; after a cut the memory is described or one torn page away from it |
| `Lifecycle.AppEvent` | node-stm32f103/application/src/ota_receiver.c:991-1157 | a download leaves the update alone, an install request opens a new one for the same confirmed image, and a confirmation approves the candidate on trial; the invariant between events is kept |
| `BootManager.BootOnce` | node-stm32f103/bootloader/src/boot_manager.c:177-398 | from any memory at most three decisions and a jump only with valid vectors and record; from a safe memory the invariant holds at every cut, the boot ends in a jump, a first jump goes to the candidate exactly when the artifact is acceptable and finds exactly that image installed, and a device without metadata becomes safe |
| `BootManager.Turn` | node-stm32f103/bootloader/src/boot_manager.c:215-394 | each pass strictly lowers the number of decisions left or ends the boot; under the invariant it changes the update only by one recorded attempt, one jump or the confirmation |
| `BootManager.Repair` | node-stm32f103/bootloader/src/boot_manager.c:215-348 | container processing, installation and rollback always move on under the invariant and keep it at every cut |
| `BootManager.LoadOrInit` | node-stm32f103/bootloader/src/boot_manager.c:182-205 | the record on flash, or the committed defaults of a device without one |
| `BootDecision.JumpsOnlyWhenValid` | node-stm32f103/bootloader/src/boot_decision.c:3-99 | no jump without a valid record and valid vectors, a trial only below the limit, a rollback of a jumpable image only at it |
| `TrialBoot.PrepareAttempt` | node-stm32f103/bootloader/src/trial_boot.c:29-56 | the attempt is on record before the jump; at every cut the update is described with or without it |
| `TrialBoot.FinalizeConfirmation` | node-stm32f103/bootloader/src/trial_boot.c:58-88 | the pending version becomes the active one and everything else of the update is cleared; at every cut either the old or the new confirmed image is the one described |
| `BootSafety.Publish` | node-stm32f103/bootloader/src/image_installer.c:216-228 | a commit is refused exactly when the record fails its own validation; otherwise the record is loaded, or at a cut the old one, the new one, or the torn page of the new one that passes its checksum, and safety carries over |
| `BootSafety.Advance` | node-stm32f103/bootloader/src/trial_boot.c:10-27 | a commit that moves the update on leaves, at every cut, a memory described by the update before or after it |
| `MetadataStorage.AcceptableIsValid` | node-stm32f103/bootloader/storage/metadata_storage.c:215-225 | what Finalize makes of a request passes Validate exactly when its fields do |
| `BootSafety.SafeSame` | shared/src/boot_metadata.c:147-157 | safety does not depend on the fields a commit fills in |
| `Acceptance.AcceptedRecord` | node-stm32f103/bootloader/src/secure_container.c:317-350 | the verdict on an artifact depends only on the identity and sizes in the record, so a restart reaches the same verdict |
| `SecureContainer.Process` | node-stm32f103/bootloader/src/secure_container.c:549-704 | under the invariant the candidate is published exactly when the artifact is acceptable and rejected otherwise, the application region is never written, and the invariant holds at every cut |
| `SecureContainer.Finish` | node-stm32f103/bootloader/src/secure_container.c:640-704 | PATCHING restarts reconstruction from an erased partition and publishes only a verified target |
| `SecureContainer.Reconstruct` | node-stm32f103/bootloader/src/secure_container.c:375-457 | the partition ends up holding the payload or what the reference applier makes of it, and fails exactly when that does not apply |
| `SecureContainer.ApplyDelta` | node-stm32f103/bootloader/src/secure_container.c:434-457 | running the streaming applier into the partition succeeds exactly when the reference does and leaves its output there |
| `SecureContainer.WriteReconstructed` | node-stm32f103/bootloader/src/secure_container.c:395-432 | bytes written in order into an erased partition read back as the image |
| `SecureContainer.EraseReconstructed` | node-stm32f103/bootloader/src/secure_container.c:375-393 | all sectors that the target needs are erased, and nothing else changes |
| `SecureContainer.Reject` | node-stm32f103/bootloader/src/secure_container.c:90-114 | back to IDLE with every field of the update cleared and the images untouched; the commit is never refused |
| `SecureContainer.Transition` | node-stm32f103/bootloader/src/secure_container.c:116-128 | only the state moves; the verdict on the artifact does not |
| `SecureContainer.VerifiedIsReady` | node-stm32f103/bootloader/src/secure_container.c:499-547 | the checks on the reconstructed image imply everything the installer later relies on, including that its record is acceptable |
| `ImageInstaller.Install` | node-stm32f103/bootloader/src/image_installer.c:1252-1423 | from every state between IMAGE_READY and VERIFYING_INSTALL a safe memory reaches TRIAL_BOOT with no attempts, safe at every cut; in any memory the outcome is a fresh trial of a jumpable image, IDLE, or a failure |
| `ImageInstaller.CopyAndVerify` | node-stm32f103/bootloader/src/image_installer.c:1364-1423 | from INSTALLING to TRIAL_BOOT, safe at every cut |
| `ImageInstaller.BackUpThenCopy` | node-stm32f103/bootloader/src/image_installer.c:1316-1350 | from IMAGE_READY or BACKING_UP to TRIAL_BOOT, safe at every cut |
| `ImageInstaller.ResumeBackup` | node-stm32f103/bootloader/src/image_installer.c:787-873 | sector after sector from the last checkpoint; nothing but the backup partition changes and INSTALLING is published only over a committed header |
| `ImageInstaller.BackUpChunk` | node-stm32f103/bootloader/src/image_installer.c:738-785 | one sector copied and the checkpoint moved past it, safe at every cut |
| `ImageInstaller.FinishBackup` | node-stm32f103/bootloader/src/image_installer.c:838-873 | when INSTALLING is published the header carries the active version and the checksum that backup and application share; safe at every cut |
| `ImageInstaller.BeginBackup` | node-stm32f103/bootloader/src/image_installer.c:718-736 | when BACKING_UP is published at offset zero the old header no longer validates; safe if power fails in between |
| `ImageInstaller.ResumeCopy` | node-stm32f103/bootloader/src/image_installer.c:875-915 | pages installed from the last checkpoint until the checkpoint reaches the image size, with the region before it equal to the goal |
| `ImageInstaller.CopyPage` | node-stm32f103/bootloader/src/image_installer.c:675-697 | one page and its checkpoint: whatever the interrupted page holds, the memory is safe |
| `ImageInstaller.ProgramPage` | node-stm32f103/bootloader/src/image_installer.c:582-673 | only that page changes, and on success it is the data padded with erased bytes |
| `ImageInstaller.PageInstalled` | node-stm32f103/bootloader/src/image_installer.c:896-911 | a programmed page carries the agreement with the goal one checkpoint on, and the last page completes it |
| `ImageInstaller.GoalVerifies` | node-stm32f103/bootloader/src/image_installer.c:917-946 | with the goal in place the checksum and both vector checks pass |
| `ImageInstaller.ReadySource` | node-stm32f103/bootloader/src/image_installer.c:83-214 | every recovery boot accepts the candidate again |
| `ImageInstaller.BeginVerify` | node-stm32f103/bootloader/src/image_installer.c:948-962 | VERIFYING_INSTALL is published with the checkpoint at the image size, safe at every cut |
| `ImageInstaller.BeginTrial` | node-stm32f103/bootloader/src/image_installer.c:977-1005 | TRIAL_BOOT with no attempts, published after the download checkpoint is cleared, safe at every cut |
| `ImageInstaller.ProcessRollback` | node-stm32f103/bootloader/src/image_installer.c:1172-1233 | a due rollback from a safe memory always ends in IDLE with the confirmed image restored, safe at every cut |
| `ImageInstaller.ResumeRollback` | node-stm32f103/bootloader/src/image_installer.c:1055-1110 | all pages from the backup, from the last checkpoint, with the region before it equal to the confirmed image |
| `ImageInstaller.RestorePage` | node-stm32f103/bootloader/src/image_installer.c:699-716 | one page restored and its checkpoint moved on, safe at every cut |
| `ImageInstaller.BeginRollback` | node-stm32f103/bootloader/src/image_installer.c:1040-1053 | ROLLBACK from page zero, safe at every cut when the rollback is due |
| `ImageInstaller.FinalizeRollback` | node-stm32f103/bootloader/src/image_installer.c:1140-1170 | IDLE with the version in the backup header, everything else cleared and the diagnostic kept; safety makes that version the one already active |
| `ImageInstaller.BackedValidates` | node-stm32f103/bootloader/src/image_installer.c:447-470 | a backup made under the invariant passes validation, and the restored region passes the rollback check |
| `ImageInstaller.Revert` | node-stm32f103/bootloader/src/image_installer.c:267-295 | back to IDLE with every field of the update cleared, the reason kept and the images untouched |
| `ImageInstaller.RollBackAfter` | node-stm32f103/bootloader/src/image_installer.c:1235-1250 | outside the invariant a failed install still ends in IDLE or a failure, touching only the application region |
| `ImageInstaller.MarkFailed` | node-stm32f103/bootloader/src/image_installer.c:297-303 | FAILED is recorded with the reason if the validator accepts that record, and nothing changes otherwise |
| `BackupStorage.CopyChunk` | node-stm32f103/common/storage/backup_image_storage.c:148-191 | one chunk of the application follows what was copied before, which no cut changes |
| `BackupStorage.CommitHeader` | node-stm32f103/common/storage/backup_image_storage.c:62-121 | the header is the record for that version and checksum, or is refused |
| `BackupStorage.InvalidateHeader` | node-stm32f103/common/storage/backup_image_storage.c:50-60 | only the header changes and it no longer validates |
| `Progress.InstallAdvances` | shared/src/install_progress.c:5-65 | from every valid checkpoint below the size the next one is valid and strictly larger |
| `Progress.BackupAdvances` | shared/src/backup_progress.c:5-47 | from every valid checkpoint below the region the next one is valid and strictly larger |
| `Progress.PagesCountDown` | shared/src/install_progress.c:53-65 | each checkpoint commit takes exactly one page off the work that is left |
| `Application.RequestInstall` | node-stm32f103/application/src/ota_receiver.c:991-1033 | made from IDLE the request opens a new update whose candidate is fixed by the artifact and the confirmed image; at every cut the old or the new update is described |
| `Application.HandoffIsSafe` | node-stm32f103/application/src/ota_receiver.c:1009-1016 | the handoff record over an idle record is acceptable and safe |
| `Application.HandoffSafeIff` | node-stm32f103/application/src/ota_receiver.c:1035-1072 | the request does not look at the record it replaces: over any safe record it is safe for the confirmed image if and only if installation had not begun or the application region equals the backup; while an application runs, if and only if the record is idle or the trial changes nothing |
| `Application.HandoffInTrial` | node-stm32f103/application/src/ota_receiver.c:991-1033 | safe trials, one for every fill byte of the confirmed image but zero, over which no request is safe for that image |
| `Application.HandedOver` | node-stm32f103/application/src/ota_receiver.c:1009-1016 | a session that the receiver lets INSTALL pass with is one the handoff accepts |
| `Application.ConfirmTrial` | node-stm32f103/application/src/trial_confirmation.c:18-88 | CONFIRMED is committed exactly for a trial with at least one attempt on record and the image's own version pending; at every cut the update is described with or without the approval |
| `Application.Download` | node-stm32f103/application/src/ota_receiver.c:665-678 | rewriting Incoming while the application runs leaves the boot invariant alone |
| `MetadataStorage.Commit` | node-stm32f103/bootloader/storage/metadata_storage.c:187-254 | on success the candidate is loaded; at a cut the old or the new record is, unless the tear collides; refused exactly when it fails validation |
| `MetadataStorage.CommitIsAtomic` | node-stm32f103/bootloader/storage/metadata_storage.c:130-185 | after any number of half-words Load returns exactly the old or exactly the new record if and only if the tear does not collide |
| `MetadataStorage.CollisionIsLoaded` | node-stm32f103/bootloader/storage/metadata_storage.c:88-128 | a colliding tear is loaded as a record that is neither |
| `MetadataStorage.WrittenIsNewest` | shared/src/boot_metadata.c:227-258 | once written the candidate is the record selected, also across 32-bit wrap-around, and two valid slots are one generation step apart |
| `MetadataStorage.RejectedKeepsOld` | shared/src/boot_metadata.c:227-273 | while the target page holds no acceptable record the old one stays selected and the slots stay one step apart |
| `MetadataStorage.RunIsChained` | node-stm32f103/bootloader/storage/metadata_storage.c:187-254 | every run of commits from erased pages, cut anywhere without a colliding tear: two valid slots are one generation step apart, and what is loaded is a request no older than the last completed one |
| `MetadataStorage.SelectedNeverErased` | shared/src/boot_metadata.c:260-273 | the slot a commit erases is never the one selected |
| `BootMetadata.TornVerdict` | shared/src/boot_metadata.c:159-205 | exactly which torn pages validate as something other than the record being written |
| `BootMetadata.TornEarly` | shared/src/boot_metadata.c:159-205 | a tear before the attempts word is rejected by the field checks alone |
| `BootMetadata.NextIsNewer` | shared/src/boot_metadata.c:207-225 | a next generation is never zero, newer than its predecessor, and never the other way round |
| `TornExample.TornRecordAccepted` | node-stm32f103/bootloader/storage/metadata_storage.c:130-185 | a concrete valid record and cut whose torn page is accepted as a different record |
| `JojoDiff.RoundTrip` | tools/jojodiff_patch.py:105-193 | for every source, target and list of matching blocks, applying the generated patch to the source gives the target, and the statistics account for every byte of both |
| `JojoDiff.ApplyEmitted` | tools/jojodiff_patch.py:80-104 | reading the bytes of any list of edits back performs exactly those edits |
| `JojoDiff.LiteralRoundTrip` | tools/jojodiff_patch.py:80-84 | an escaped literal is read back as itself, whatever escapes it contains and whatever operation follows |
| `JojoDiff.LengthRoundTrip` | tools/jojodiff_patch.py:38-77 | a length is encodable exactly from 1 to 2^32 - 1 and is read back with the bytes it took |
| `JojoDiff.EditsApply` | tools/jojodiff_patch.py:144-193 | the edits of the blocks turn the source into the target |
| `JojoDiff.EditsAccount` | tools/jojodiff_patch.py:144-193 | equal, modified and deleted bytes add up to the source, equal, modified and inserted ones to the target |
| `JojoDiff.EditsEncodable` | tools/jojodiff_patch.py:91-102 | every edit of a source below 2^32 bytes can be written |
| `JojoDiff.GeneratePatch` | tools/jojodiff_patch.py:144-193 | the generator's loop writes exactly the bytes and the statistics of those edits, or fails exactly when one is too long |
| `JojoDiff.EmitGap` | tools/jojodiff_patch.py:105-141 | the gap between two blocks is written as modify, insert and delete |
| `JojoDiff.CopyLiteralLoop` | tools/jojodiff_patch.py:196-224 | the escaping loop reads the literal of the specification and stops where it does |
| `JojoDiff.ApplyPatchLoop` | tools/jojodiff_patch.py:227-282 | the applier's loop computes the specification, errors included |
| `JojoDiff.InspectPatchLoop` | tools/jojodiff_patch.py:285-332 | the inspector's loop computes the specification of its report |
| `JojoDiff.InspectAgrees` | tools/jojodiff_patch.py:285-332 | the inspector accepts exactly the patches the applier accepts, with the same target size |
| `Janpatch.Context.ApplyStream` | node-stm32f103/bootloader/patch/janpatch_port.c:469-626 | on an erased target the streaming applier succeeds exactly on the streams the reference accepts with this target size and without a zero-valued long length, and then the target is exactly the reference output, with all counters accounted for |
| `Janpatch.Context.Step` | node-stm32f103/bootloader/patch/janpatch_port.c:500-610 | one operation is performed exactly when the reference parses and accepts it; the patch cursor grows |
| `Janpatch.Context.ConsumeLiteral` | node-stm32f103/bootloader/patch/janpatch_port.c:308-467 | the 128-byte buffer is never overrun and the literal of the reference is written in order |
| `Janpatch.Context.CopyEqual` | node-stm32f103/bootloader/patch/janpatch_port.c:262-306 | source bytes reach the target in chunks exactly when both ranges allow it |
| `Janpatch.Context.ReadLength` | node-stm32f103/bootloader/patch/janpatch_port.c:143-228 | the length field of the reference, with zero-valued long forms refused |
| `Janpatch.Context.TargetWrite` | node-stm32f103/bootloader/patch/janpatch_port.c:230-260 | bytes are written once, in order, inside the target |
| `Crc32.BurstDetected` | shared/src/crc32.c:7-41 | two messages of any equal length that differ only inside one window of four consecutive bytes never have the same checksum |
| `Crc32.ChunksAgree` | shared/src/crc32.c:7-33 | updating over any split equals one pass |
| `Crc32.UpdateLoop` | shared/src/crc32.c:7-33 | the masked bit loop computes the register of conditional exclusive-or |
| `Crc32.GatewayCrc32` | gateway-esp32/components/uart_ota/uart_ota_protocol.c:33-55 | the gateway's loops compute the same checksum |
| `Crc32.MaskStep` | shared/src/crc32.c:24-30 | the mask form of a step equals the conditional one |
| `Crc32.UpdateInjective` | shared/src/crc32.c:7-33 | the register after a fixed suffix determines the register before it |
| `Receiver.Receiver.Handle` | node-stm32f103/application/src/ota_receiver.c:1199-1292 | any packet in any session: the session stays sound, and with a sender that has one artifact per update id Incoming up to the next offset is that artifact's prefix, after completion and after a cut alike; every packet the session owes an answer is acknowledged; only ABORT takes a complete artifact back; INSTALL passes only for a session that the handoff accepts |
| `Receiver.Receiver.ProcessBoot` | node-stm32f103/application/src/ota_receiver.c:1035-1157 | INSTALL and CONFIRM are acknowledged exactly when the session allows them and the boot metadata takes the commit; nothing of the transfer is lost |
| `Receiver.Receiver.ProcessData` | node-stm32f103/application/src/ota_receiver.c:605-712 | the expected packet is stored and acknowledged; re-delivery of the last stored packet is acknowledged and changes nothing; a refused packet changes nothing |
| `Receiver.Receiver.StoreData` | node-stm32f103/application/src/ota_receiver.c:668-711 | storing a packet extends the prefix and persists a boundary it meets |
| `Receiver.Receiver.EnsureErased` | node-stm32f103/application/src/ota_receiver.c:265-292 | every touched sector is erased once and no received byte is |
| `Receiver.Receiver.WriteData` | node-stm32f103/common/drivers/spi_flash.c:407-449 | page by page programming of erased bytes stores the payload and touches nothing before it |
| `Receiver.Receiver.PersistBoundary` | node-stm32f103/application/src/ota_receiver.c:207-218 | a sector boundary is committed once, and a commit is never refused |
| `Receiver.Receiver.ProcessStart` | node-stm32f103/application/src/ota_receiver.c:453-603 | accepted exactly when the state and every declared field allow it; the new checkpoint is on record before anything is erased |
| `Receiver.Receiver.ProcessFinish` | node-stm32f103/application/src/ota_receiver.c:714-778 | acknowledged only when the stored bytes have the declared checksum and that is on record; a faithful complete transfer is always acknowledged, and so is a repetition |
| `Receiver.Receiver.ArtifactCrc` | node-stm32f103/application/src/ota_receiver.c:314-338 | the chunked checksum of the stored artifact |
| `Receiver.Receiver.ProcessAbort` | node-stm32f103/application/src/ota_receiver.c:1237-1256 | checkpoint and session are cleared, in any state |
| `Receiver.Receiver.Restart` | node-stm32f103/application/src/ota_receiver.c:1159-1192 | a reset rebuilds the session of the last committed checkpoint; a paced transfer resumes at the last sector boundary it had passed |
| `Receiver.CompletedSectors` | node-stm32f103/application/src/ota_receiver.c:126-139 | exactly the sectors wholly below the checkpoint |
| `Receiver.MatchesAgain` | node-stm32f103/application/src/ota_receiver.c:294-312 | what an honest sender stored is what the same packet carries again |
| `Client.Persist` | gateway-esp32/components/uart_ota/uart_ota_client.c:675-844 | rounds until one succeeds, with the replies of all rounds still about: as long as no old report is taken for the answer to a query, success means that the artifact is ready; and after any rounds spoilt by resets, losses, duplicates or late replies, the first round in which packets are only lost or duplicated succeeds, for every artifact the node takes |
| `Client.Round` | gateway-esp32/components/uart_ota/uart_ota_client.c:683-830 | the plan loop: from every session that is not a trial, including a foreign, a failed and an interrupted one, a round with only losses and duplicates ends with the artifact ready; success means that it is, whatever is late but the reports |
| `Client.Transfer` | gateway-esp32/components/uart_ota/uart_ota_client.c:755-814 | whatever is lost, duplicated, late or cut by resets at any flash operation, success means that the node holds the artifact, checked and on record; without resets, and with no reply of an earlier transfer of this update about, it succeeds if and only if no late answer to START or RESUME is taken for that of the first DATA packet, so a transfer resumed further on always does |
| `Client.Open` | gateway-esp32/components/uart_ota/uart_ota_client.c:377-444 | START or RESUME yields an offset at a page boundary inside the artifact; with prompt replies, or without resets on a wire that holds no reply of this update, the receiver stands there |
| `Client.Query` | gateway-esp32/components/uart_ota/uart_ota_client.c:330-352 | with prompt replies the report is that of the session at that moment |
| `Client.Abort` | gateway-esp32/components/uart_ota/uart_ota_client.c:354-375 | with prompt replies success means that no session is left; replies that say the artifact is ready stay true if it was not ready before |
| `Client.SendData` | gateway-esp32/components/uart_ota/uart_ota_client.c:446-512 | with prompt replies success means that every byte was accepted in order; without resets it succeeds if and only if the first DATA packet does not get an answer to START or RESUME |
| `Client.SendChunk` | gateway-esp32/components/uart_ota/uart_ota_client.c:453-500 | one DATA packet is answered by its own acknowledgement unless it is the first and a late answer to START or RESUME comes in its place |
| `Client.FinishTransfer` | gateway-esp32/components/uart_ota/uart_ota_client.c:514-565 | success means the artifact is ready, also on the repeated request |
| `Client.Call` | gateway-esp32/components/uart_ota/uart_ota_client.c:123-191 | whatever arrives, frames of other requests included, a reply that says the artifact is ready is true of the receiver now; a prompt acknowledgement describes the session; without resets an owed request is answered before its retries run out, by its own acknowledgement or, exactly when the fates say so, by an older frame |
| `Client.PassesFor` | gateway-esp32/components/uart_ota/uart_ota_client.c:165-182 | a late reply to one request of an update is taken for the answer to another if and only if both are among START, RESUME, ABORT, INSTALL and the first DATA packet, which share sequence number zero |
| `Client.LateStartFails` | gateway-esp32/components/uart_ota/uart_ota_client.c:377-512 | a second acknowledgement of START is taken for that of the first DATA packet, and its offset ends the transfer |
| `Client.LateStartSparesSession` | gateway-esp32/components/uart_ota/uart_ota_client.c:354-375 | an acknowledgement of START is taken for that of ABORT although the session is still there |
| `Client.OldReportAborts` | gateway-esp32/components/uart_ota/uart_ota_client.c:230-256 | an old report of another update is taken for the answer to a query and leads to an abort |
| `Client.Serve` | node-stm32f103/application/src/ota_receiver.c:1199-1292 | any honest packets in any order and number, of any updates and chunk sizes, INSTALL and CONFIRM included, with a reset at any flash operation, keep the receiver sound and faithful |
| `Client.PlanFits` | gateway-esp32/components/uart_ota/uart_ota_plan.c:3-60 | a plan made from a query fits the receiver: resuming finds this transfer at a page boundary, installing finds the whole artifact stored, starting finds no session |
| `Client.StartFields` | gateway-esp32/components/uart_ota/uart_ota_protocol.c:397-414 | the receiver reads from the start payload what the gateway put there |
| `SharedSectors.LastCommitLoaded` | node-stm32f103/common/storage/download_checkpoint_storage.c:47-205 | over every sequence of completed commits of both kinds, loading either kind returns the last accepted request of that kind |
| `SharedSectors.CheckpointCommit` | node-stm32f103/common/storage/download_checkpoint_storage.c:85-205 | a completed checkpoint commit is what the next load returns and leaves the handoff alone |
| `SharedSectors.HandoffCommit` | node-stm32f103/common/storage/update_handoff_storage.c:83-203 | a completed handoff commit is what the next load returns and leaves the checkpoint alone |
| `SharedSectors.CheckpointCut` | node-stm32f103/common/storage/download_checkpoint_storage.c:154-172 | a cut checkpoint commit leaves the old or the new checkpoint |
| `SharedSectors.HandoffSurvivesIff` | node-stm32f103/common/storage/download_checkpoint_storage.c:138-185 | after a cut between erase and rewrite the handoff is loaded as before if and only if its newest copy was in the other sector or had an identical one |
| `SharedSectors.CheckpointSurvivesIff` | node-stm32f103/common/storage/update_handoff_storage.c:140-180 | the same condition for the checkpoint when a handoff commit is cut |
| `SharedSectors.HandoffCut` | node-stm32f103/common/storage/update_handoff_storage.c:151-170 | a cut handoff commit leaves the old or the new handoff |
| `SharedSectors.HandoffLost` | node-stm32f103/common/storage/download_checkpoint_storage.c:138-185 | a handoff with a single copy, in the sector the next checkpoint commit erases, is lost by a cut |
| `SharedSectors.ExternalFlash.CommitCheckpoint` | node-stm32f103/common/storage/download_checkpoint_storage.c:85-205 | the erase, write and rewrite sequence performs the commit, or at a cut leaves the old or the new checkpoint; refused exactly when the fields are not acceptable |
| `SharedSectors.ExternalFlash.CommitHandoff` | node-stm32f103/common/storage/update_handoff_storage.c:83-203 | the erase, write and rewrite sequence performs the commit, or at a cut leaves the old or the new handoff; refused exactly when the fields are not acceptable |
| `Cobs.RoundTrip` | node-stm32f103/application/protocol/cobs.c:3-90 | decoding undoes encoding |
| `Cobs.EncodedShape` | node-stm32f103/application/protocol/cobs.c:3-50 | an encoding holds no zero byte and at most n + n/254 + 1 bytes |
| `Cobs.EncodeInto` | node-stm32f103/application/protocol/cobs.c:3-50 | the in-place encoder succeeds exactly when the encoding fits and then writes it |
| `Cobs.DecodeInto` | node-stm32f103/application/protocol/cobs.c:52-90 | the in-place decoder succeeds exactly when the frame decodes and fits and then writes it |
| `Packet.SerializeRoundTrip` | node-stm32f103/application/protocol/ota_packet.c:31-126 | a serialized packet is read back as itself exactly when it is legal |
| `Packet.DeserializeRoundTrip` | node-stm32f103/application/protocol/ota_packet.c:72-126 | an accepted frame is the serialization of the packet it yields |
| `Packet.EndsAgree` | gateway-esp32/components/uart_ota/uart_ota_protocol.c:216-275 | gateway and node accept the same packets and read the same fields |
| `Packet.SerializeInto` | node-stm32f103/application/protocol/ota_packet.c:31-70 | the in-place serializer writes the serialization exactly when payload and buffer allow it |
| `Parser.FrameDelivered` | node-stm32f103/application/protocol/ota_parser.c:17-69 | after any bytes whatever and a zero, one encoded frame makes the parser emit exactly that packet and return to its start |
| `Parser.FrameFits` | shared/include/ota_protocol.h:8-18 | every legal packet fits the 320-byte frame buffer |
| `Parser.Parser.PushByte` | node-stm32f103/application/protocol/ota_parser.c:17-69 | the parser object takes the step of the specification |
| `Parser.Parser.PushAll` | node-stm32f103/application/src/ota_agent.c:47-85 | a stream fed byte by byte yields the events of the specification |
| `Limbs.SubRaw` | node-stm32f103/bootloader/crypto/ecdsa_p256.c:135-153 | exact difference with no lost borrow, also when the destination is an operand |
| `Limbs.AddRaw` | node-stm32f103/bootloader/crypto/ecdsa_p256.c:156-174 | exact sum with no lost carry, also when the destination is an operand |
| `Limbs.Compare` | node-stm32f103/bootloader/crypto/ecdsa_p256.c:97-112 | the sign of the difference of the numbers |
| `Limbs.IsZero` | node-stm32f103/bootloader/crypto/ecdsa_p256.c:85-95 | zero exactly when the number is |
| `Modular.ModAdd` | node-stm32f103/bootloader/crypto/ecdsa_p256.c:200-217 | the exact residue of the sum, also in place |
| `Modular.ModSub` | node-stm32f103/bootloader/crypto/ecdsa_p256.c:219-235 | the exact residue of the difference, also in place |
| `Modular.ModMul` | node-stm32f103/bootloader/crypto/ecdsa_p256.c:237-266 | the exact residue of the product, also in place |
| `Modular.ModInverse` | node-stm32f103/bootloader/crypto/ecdsa_p256.c:309-345 | fails exactly on zero; otherwise value^(m-2) modulo m |
| `Modular.SubSmall` | node-stm32f103/bootloader/crypto/ecdsa_p256.c:176-194 | exact difference, with the borrow carried as far as it goes |
| `Modular.GetBitIs` | node-stm32f103/bootloader/crypto/ecdsa_p256.c:128-132 | the bit of a limb is the bit of the number |
| `Fermat.InverseModPrime` | node-stm32f103/bootloader/crypto/ecdsa_p256.c:309-345 | for a prime modulus that power is the inverse |
| `Fermat.LittleTheorem` | node-stm32f103/bootloader/crypto/ecdsa_p256.c:309-345 | a^(p-1) is 1 modulo a prime p that does not divide a |
| `Curve.DoubleDefect` | node-stm32f103/bootloader/crypto/ecdsa_p256.c:369-417 | the doubled point misses the curve equation by 64 y^6 times what the point misses it by |
| `Curve.AddDefect` | node-stm32f103/bootloader/crypto/ecdsa_p256.c:420-491 | the sum misses the curve equation by a combination of what the two points miss it by |
| `PointArithmetic.PointDouble` | node-stm32f103/bootloader/crypto/ecdsa_p256.c:369-417 | the limb code computes the residues of the doubling formulas, infinity included |
| `PointArithmetic.PointAddAffine` | node-stm32f103/bootloader/crypto/ecdsa_p256.c:420-491 | the limb code computes the residues of the mixed addition, with its three special cases |
| `PointArithmetic.DoubleOnCurve` | node-stm32f103/bootloader/crypto/ecdsa_p256.c:369-417 | doubling keeps the Jacobian curve equation |
| `PointArithmetic.AddOnCurve` | node-stm32f103/bootloader/crypto/ecdsa_p256.c:420-491 | mixed addition keeps the Jacobian curve equation |
| `P256.FieldIsSpelled` | node-stm32f103/bootloader/crypto/ecdsa_p256.c:27-52 | the limb tables spell the field prime and the coefficient of P-256 |
| `P256.TablesSpell` | node-stm32f103/bootloader/crypto/ecdsa_p256.c:36-67 | the limb tables spell the generator and the order of P-256 |
| `P256.TablesAreValid` | node-stm32f103/bootloader/crypto/ecdsa_p256.c:27-67 | they are domain parameters of the kind the verifier is proved for: the generator is on the curve and 2^256 is below twice the order |
| `Ecdsa.LinearCombination` | node-stm32f103/bootloader/crypto/ecdsa_p256.c:543-567 | with doubling and mixed addition taken as the group law on points that satisfy the equation, u1 G + u2 Q for all 256-bit scalars |
| `Ecdsa.ReduceOnce` | node-stm32f103/bootloader/crypto/ecdsa_p256.c:615-643 | one subtraction reduces any 256-bit number modulo the order |
| `Ecdsa.IsOnCurve` | node-stm32f103/bootloader/crypto/ecdsa_p256.c:493-521 | accepted exactly when both coordinates are reduced, not both zero, and satisfy the equation |
| `Ecdsa.AffineX` | node-stm32f103/bootloader/crypto/ecdsa_p256.c:523-537 | none exactly at infinity; otherwise, for a prime field, the abscissa x / z^2 |
| `Ecdsa.FromBytes` | node-stm32f103/bootloader/crypto/ecdsa_p256.c:114-126 | the limbs spell the big-endian number |
| `Ecdsa.VerifyDigest` | node-stm32f103/bootloader/crypto/ecdsa_p256.c:569-648 | for valid domain parameters with a prime field and order, valid exactly when the key is acceptable and the equation of section 6.4.2 of FIPS 186-5 holds for the digest and the signature |
| `Groups.CombinationStep` | node-stm32f103/bootloader/crypto/ecdsa_p256.c:550-566 | one pass of simultaneous double-and-add |
| `Sha256.Context.Final` | shared/src/sha256.c:184-230 | the digest of everything absorbed: pad, then fold the compression function |
| `Sha256.Context.Update` | shared/src/sha256.c:143-182 | absorbing more bytes appends them to the message, whatever the buffer held |
| `Sha256.DigestOfChunks` | shared/src/sha256.c:124-230 | any split of a message into chunks gives the digest of the whole |
| `Sha256.Transform` | shared/src/sha256.c:46-122 | the schedule array and the eight rotating variables compute the compression function |
| `Sha256.LengthFieldExact` | shared/src/sha256.c:196-220 | below 2^61 bytes the length field is the bit length that section 5.1.1 of FIPS 180-4 asks for |
| `Sha256.HashAndCrcPayload` | node-stm32f103/bootloader/src/secure_container.c:156-207 | the digest of header and payload together, the digest of the payload, and its checksum, in one chunked pass |

## Left out

- Hardware access: SPI, GPIO, interrupts, watchdog and the assembly jump; half-finished erases and flash faults.
- The unsigned legacy artifacts, the fault-injection and self-test builds, and the LED patterns.
- Signature hardness: the boot machine takes authentication as a function of Incoming.
- Byte layout of the container header: the boot machine sees the parsed fields and the constraints the parser enforces.
- Error detail words of replies and the diagnostic codes of rollbacks, beyond the record that a rejection commits.
- The choice of matching blocks by the diff tool: any increasing list of matching blocks is taken.
- Wi-Fi, MQTT, HTTPS, the release server and the release tools.
- Lifecycle.Live: takes an INSTALL request only while the confirmed image runs; `Application.HandoffSafeIff` says exactly when another one is safe.
- Ecdsa.LinearCombination: that the two formulas compute the law of an abelian group is a hypothesis; that they stay on the curve is proved.
- Ecdsa.VerifyDigest: the group law and the primality of the P-256 field and order are hypotheses.
- Client.Attempt: one frame is read per attempt; frames that do not match are skipped by the code within the same attempt.
- Client.Round: ends where INSTALL is sent; the wait for the final state only repeats queries.
- Receiver.Receiver.ProcessBoot: whether the boot metadata takes the commit is a parameter; the commits themselves are in `Application`.
- SecureContainer.ClearCheckpoint: counts the flash operations of clearing the download checkpoint but not its record, which the boot machine never reads.
- SecureContainer.ApplyDelta: what the stream writes reaches the partition page by page after the stream has run, so power cuts fall between pages of 256 bytes instead of between the stream's own writes of at most 128.
- Sha256.Transform: the hash state is one value rather than an array updated word by word.
- PointArithmetic.PointDouble: points are values; only the limb routines below them work in place.
