/**
 * The persistent memories of the node and its power supply.  Unless the supply is steady, every flash
 * operation takes one unit of `power`; when none is left the operation does not happen and the code stops
 * there.  A contract that holds for every initial `power` therefore holds for a power cut before every
 * single operation.
 */
module Device {
  import opened Bytes
  import opened BootMetadata
  import opened Container

  /** The outcome of code that runs on the supply. */
  datatype Run<+T> = Done(value: T) | PowerCut {
    predicate IsFailure() { PowerCut? }
    function PropagateFailure<U>(): Run<U> requires PowerCut? { PowerCut }
    function Extract(): T requires Done? { value }
  }

  const RECONSTRUCTED_SIZE := 0x2_0000
  const BACKUP_DATA_SIZE := 0x1_F000
  const HEADER_WORDS := 7

  /** The application region and the partitions of the external flash. */
  datatype Images = Images(
    app: seq<byte>,
    incoming: seq<byte>,
    reconstructed: seq<byte>,
    backupHeader: seq<word>,
    backupData: seq<byte>)

  datatype Flash = Flash(metaA: Page, metaB: Page, images: Images)

  predicate WellSized(i: Images) {
    && |i.app| == APPLICATION_MAX_SIZE
    && |i.incoming| == EXT_INCOMING_SIZE
    && |i.reconstructed| == RECONSTRUCTED_SIZE
    && |i.backupHeader| == HEADER_WORDS
    && |i.backupData| == BACKUP_DATA_SIZE
  }

  const BLANK_FLASH := Flash(Blank(PAGE_HALVES), Blank(PAGE_HALVES),
                             Images(Fill(ERASED, APPLICATION_MAX_SIZE), Fill(ERASED, EXT_INCOMING_SIZE),
                                    Fill(ERASED, RECONSTRUCTED_SIZE), [0, 0, 0, 0, 0, 0, 0],
                                    Fill(ERASED, BACKUP_DATA_SIZE)))

  type Memory = f: Flash | WellSized(f.images) witness BLANK_FLASH

  class Device {
    const trust: Trust

    /** The supply holds for the whole run. */
    const steady: bool

    var flash: Memory
    var power: nat

    /** The torn metadata record, if a power cut has left one, that passes its checksum by accident. */
    ghost var torn: Accident

    /** A metadata commit has been refused because the record failed its own validation. */
    ghost var refused: bool

    /** Power is applied: with a budget of operations, or for good. */
    constructor (trust: Trust, flash: Memory, budget: Option<nat>)
      ensures this.trust == trust && this.flash == flash && torn == None && !refused
      ensures steady == budget.None? && (budget.Some? ==> power == budget.value)
    {
      this.trust, this.flash, torn, refused := trust, flash, None, false;
      steady, power := budget.None?, if budget.Some? then budget.value else 0;
    }

    /** One erase or program operation on the images. */
    method OperateOn(next: Images) returns (r: Run<()>)
      requires WellSized(next)
      modifies this`flash, this`power
      ensures r.Done? ==> flash == old(flash).(images := next)
      ensures r.PowerCut? ==> flash == old(flash)
      ensures steady ==> r.Done?
    {
      r := Operate(flash.(images := next));
    }

    /** One erase or program operation, taking the memory to `next`. */
    method Operate(next: Memory) returns (r: Run<()>)
      modifies this`flash, this`power
      ensures r.Done? <==> steady || old(power) > 0
      ensures r.Done? ==> flash == next && (steady || power == old(power) - 1)
      ensures r.PowerCut? ==> flash == old(flash)
    {
      if !steady {
        if power == 0 { return PowerCut; }
        power := power - 1;
      }
      flash := next;
      return Done(());
    }
  }
}
