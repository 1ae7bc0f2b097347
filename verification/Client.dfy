/** gateway-esp32/components/uart_ota: the gateway's end of a transfer, over a link that may fail. */
module Client {
  import opened Bytes
  import opened BootMetadata
  import opened Device
  import opened SharedSectors
  import Container
  import R = Receiver
  import P = Packet
  import Crc32

  // ----- the plan --------------------------------------------------------------------------

  datatype Target = Target(application: word, state: word, id: word, next: word, size: word)

  datatype Plan = AlreadyTarget | StartNew | ResumeAt | InstallReady | AbortForeign | WaitTarget | PlanError

  /** UartOta_SelectPlan */
  function SelectPlan(t: Target, id: word, size: word, version: word): Plan {
    if id == 0 || size == 0 || version == 0 then PlanError
    else if t.application == version && t.state == IDLE then AlreadyTarget
    else if t.state == IDLE then StartNew
    else if t.state == RECEIVING then
      if t.id == id && t.size == size && t.next <= size && t.next % R.PAGE == 0 then ResumeAt else AbortForeign
    else if t.state == ARTIFACT_READY then (if t.id == id && t.size == size then InstallReady else AbortForeign)
    else if BACKING_UP <= t.state <= ROLLBACK then WaitTarget
    else if t.state == FAILED then AbortForeign
    else PlanError
  }

  /** What a query reports. */
  function Reported(r: R.Reply, application: word): Target { Target(application, r.state, r.id, r.next, r.size) }

  /** A plan made from a query fits the receiver it was made for. */
  lemma PlanFits(art: word -> seq<byte>, s: R.Session, incoming: seq<byte>, c: Option<Checkpoint>, own: word,
                 a: Artifact)
    requires R.SessionSound(s, incoming, c) && R.SessionFaithful(art, s, incoming) && art(a.id) == a.bytes
    requires |a.bytes| <= 0xFFFF_FFFF
    ensures var plan := SelectPlan(Reported(R.ReplyFor(s, R.STATUS_OK, 0), own), a.id, |a.bytes|, a.version);
            && (plan == ResumeAt ==> s.state == RECEIVING && s.id == a.id && s.next % R.PAGE == 0)
            && (plan == InstallReady ==> |a.bytes| <= |incoming| && incoming[..|a.bytes|] == a.bytes)
            && (plan == StartNew ==> s.state == IDLE && own != a.version)
  {
    hide R.StoredSound, R.Clean, Crc32.Checksum;
    if s.state == ARTIFACT_READY && s.id == a.id { ReadyHolds(art, s, incoming, c, a); }
  }

  // ----- the link --------------------------------------------------------------------------

  /**
   * What becomes of one attempt.  The reply may be held back while an older one, the `index`th of all that
   * were sent, arrives instead.  A reset happens while the receiver works, after some flash operations.
   */
  datatype Fate = Delivered | RequestLost | ReplyLost | Duplicated | Late(index: nat) | Reset(budget: nat)

  /** A reply on the wire, with the fields by which the sender matches it to a request and tells reports apart. */
  datatype Frame = Frame(sequence: half, id: word, report: bool, reply: R.Reply)

  datatype Artifact = Artifact(id: word, version: word, base: word, kind: byte, bytes: seq<byte>)

  function Chunk(a: Artifact, offset: nat): seq<byte>
    requires offset <= |a.bytes|
  {
    a.bytes[offset..offset + Min(R.PAGE, |a.bytes| - offset)]
  }

  function Request(a: Artifact, command: byte, offset: word, sequence: half, payload: seq<byte>): P.Packet {
    P.Packet(P.MAGIC, P.PROTOCOL_VERSION, command, a.id, offset, sequence, payload)
  }

  function DataPacket(a: Artifact, offset: word): P.Packet
    requires offset <= |a.bytes|
  {
    Request(a, R.CMD_DATA, offset, offset / R.PAGE % 0x1_0000, Chunk(a, offset))
  }

  /** No trial is going on: the receiver is free for a transfer or in one. */
  predicate Free(s: R.Session) { s.state in {IDLE, RECEIVING, ARTIFACT_READY, FAILED} }

  /** The receiver at rest, serving this sender. */
  ghost predicate Serving(rx: R.Receiver, art: word -> seq<byte>)
    reads rx, rx.flash
  {
    rx.Sound() && rx.Faithful(art) && R.Paced(rx.session) && Free(rx.session)
  }

  /** The receiver loses power or is reset, and comes back. */
  method PowerCycle(rx: R.Receiver, ghost art: word -> seq<byte>)
    requires rx.Durable(art, true)
    modifies rx`session, rx.flash`steady
    ensures Serving(rx, art) && rx.flash.steady
    ensures rx.Stored().Some? && rx.Stored().value.state == DOWNLOAD_READY ==>
              rx.session.state == ARTIFACT_READY && rx.session.id == rx.Stored().value.id
  {
    hide R.SessionSound, R.SessionFaithful, R.StoredFaithful, R.Paced, LoadCheckpoint;
    rx.flash.steady := true;
    rx.Restart(None, art);
  }

  const TRANSFER: set<byte> := {R.CMD_START, R.CMD_DATA, R.CMD_FINISH, R.CMD_RESUME}

  /** A packet as this sender makes them: true to the artifact and 256 bytes at a time. */
  ghost predicate FromSender(art: word -> seq<byte>, p: P.Packet) {
    && R.Honest(art, p) && (p.command in TRANSFER || p.command == R.CMD_ABORT || p.command in R.QUERIES)
    && (p.command == R.CMD_DATA ==> p.offset <= |art(p.id)| && |p.payload| == Min(R.PAGE, |art(p.id)| - p.offset))
  }

  /** OtaResponse: sequence number and id are those of the request; queries are answered by a report. */
  function FrameFor(p: P.Packet, reply: R.Reply): Frame {
    Frame(p.sequence, p.id, p.command in R.QUERIES && reply.status == R.STATUS_OK, reply)
  }

  /** The sender takes a frame for the answer to its request; a request without an id takes any. */
  predicate Matches(f: Frame, p: P.Packet) { f.sequence == p.sequence && (p.id == 0 || f.id == p.id) }

  lemma SenderPace(art: word -> seq<byte>, s: R.Session, incoming: seq<byte>, p: P.Packet)
    requires FromSender(art, p) && R.SessionFaithful(art, s, incoming)
    ensures R.FullChunk(s, p)
  {
  }

  /** The receiver holds the complete artifact of this update. */
  predicate Holding(s: R.Session, id: word) { s.state == ARTIFACT_READY && s.id == id }

  /** Sending the packet again finds the session as the packet left it. */
  lemma Resendable(own: word, s: R.Session, t: R.Session, p: P.Packet, reply: R.Reply)
    requires R.Answer(own, s, t, p, reply)
    requires p.command in TRANSFER || p.command == R.CMD_ABORT || p.command in R.QUERIES
    ensures R.Owed(own, s, p) && reply.status == R.STATUS_OK ==> R.Owed(own, t, p)
    ensures reply.status == R.STATUS_OK ==> Acknowledged(t, p, reply)
    ensures p.command == R.CMD_RESUME || p.command in R.QUERIES ==> t == s
    ensures Free(s) ==> Free(t)
    ensures p.command == R.CMD_ABORT && !Holding(s, t.id) ==> t.state != ARTIFACT_READY
    ensures ReadyTruly(t, FrameFor(p, reply))
    ensures forall r: R.Reply :: reply.status == R.STATUS_OK && Acknowledged(s, p, r) ==> Acknowledged(t, p, r)
  {
    hide R.StartProblem;
  }

  /** A reply, not a report, that says the artifact of its request is ready is true of the session. */
  predicate ReadyTruly(s: R.Session, f: Frame) {
    !f.report && f.reply.status == R.STATUS_OK && f.reply.state == ARTIFACT_READY ==> Holding(s, f.id)
  }

  /** Every such reply of this update, whenever it arrives, is true of the session now. */
  ghost predicate Trusted(s: R.Session, wire: seq<Frame>, id: word) {
    forall f :: f in wire && f.id == id ==> ReadyTruly(s, f)
  }

  lemma TrustedExtends(s: R.Session, t: R.Session, wire: seq<Frame>, f: Frame, id: word)
    requires Trusted(s, wire, id) && (Holding(s, id) ==> Holding(t, id)) && ReadyTruly(t, f)
    ensures Trusted(t, wire, id) && Trusted(t, wire + [f], id)
  {
  }

  lemma StillTrusted(s: R.Session, t: R.Session, wire: seq<Frame>, id: word)
    requires Trusted(s, wire, id) && (Holding(s, id) ==> Holding(t, id))
    ensures Trusted(t, wire, id)
  {
  }

  /** The packet does not take a complete artifact of this update back. */
  predicate Spares(s: R.Session, p: P.Packet, id: word) { p.command == R.CMD_ABORT ==> !Holding(s, id) }

  /** A request that reaches a receiver whose power lasts. */
  method Deliver(rx: R.Receiver, p: P.Packet, ghost art: word -> seq<byte>) returns (reply: R.Reply)
    requires Serving(rx, art) && rx.flash.steady && FromSender(art, p)
    modifies rx`session, rx.flash
    ensures Serving(rx, art) && rx.flash.steady
    ensures reply.status == R.STATUS_OK ==> Acknowledged(rx.session, p, reply)
    ensures ReadyTruly(rx.session, FrameFor(p, reply))
    ensures old(R.Owed(rx.own, rx.session, p)) ==> R.Owed(rx.own, rx.session, p) && reply.status == R.STATUS_OK
    ensures reply.status == R.STATUS_OK ==>
              forall q: R.Reply :: old(Acknowledged(rx.session, p, q)) ==> Acknowledged(rx.session, p, q)
    ensures p.command == R.CMD_RESUME || p.command in R.QUERIES ==> rx.session == old(rx.session)
    ensures forall id: word :: old(Spares(rx.session, p, id)) ==>
              (old(Holding(rx.session, id)) ==> Holding(rx.session, id)) && Spares(rx.session, p, id)
  {
    hide R.SessionSound, R.SessionFaithful, R.StoredFaithful, R.StoredSound, R.Paced, R.Honest, R.Answer, R.Owed,
         R.FullChunk,
         Acknowledged, LoadCheckpoint, ReadyTruly;
    ghost var s := rx.session;
    SenderPace(art, s, rx.flash.incoming, p);
    var r := rx.Handle(p, false, art);
    Resendable(rx.own, s, rx.session, p, r.value);
    return r.value;
  }

  /** A request during which the receiver is reset. */
  method Interrupt(rx: R.Receiver, p: P.Packet, budget: nat, ghost art: word -> seq<byte>)
    requires Serving(rx, art) && rx.flash.steady && FromSender(art, p)
    modifies rx`session, rx.flash
    ensures Serving(rx, art) && rx.flash.steady
    ensures forall id: word :: old(Spares(rx.session, p, id)) ==>
              (old(Holding(rx.session, id)) ==> Holding(rx.session, id)) && Spares(rx.session, p, id)
  {
    hide R.SessionFaithful, R.StoredFaithful, R.StoredSound, R.Paced, R.Honest, R.Answer, R.Owed, R.FullChunk, R.Clean,
         LoadCheckpoint;
    SenderPace(art, rx.session, rx.flash.incoming, p);
    rx.flash.steady, rx.flash.power := false, budget;
    var r := rx.Handle(p, false, art);
    PowerCycle(rx, art);
  }

  /** The frames after the first `n` answer this request, which was acknowledged as the session stands. */
  ghost predicate OwnFrames(s: R.Session, p: P.Packet, sent: seq<Frame>, n: nat) {
    n <= |sent| && forall i :: n <= i < |sent| ==>
      && sent[i] == FrameFor(p, sent[i].reply) && sent[i].reply.status == R.STATUS_OK
      && Acknowledged(s, p, sent[i].reply)
  }

  lemma OwnFramesExtend(s: R.Session, t: R.Session, p: P.Packet, sent: seq<Frame>, n: nat, reply: R.Reply)
    requires OwnFrames(s, p, sent, n) && reply.status == R.STATUS_OK && Acknowledged(t, p, reply)
    requires forall r: R.Reply :: Acknowledged(s, p, r) ==> Acknowledged(t, p, r)
    ensures OwnFrames(t, p, sent + [FrameFor(p, reply)], n)
  {
    hide Acknowledged;
  }

  /** The frame that arrives late, if there is one and it matches. */
  function Received(p: P.Packet, wire: seq<Frame>, index: nat): Option<Frame> {
    if index < |wire| && Matches(wire[index], p) then Some(wire[index]) else None
  }

  /** A delivery whose reply goes onto the wire. */
  method Post(rx: R.Receiver, p: P.Packet, wire: seq<Frame>, ghost n: nat, ghost id: word, ghost art: word -> seq<byte>)
    returns (f: Frame, sent: seq<Frame>)
    requires Serving(rx, art) && rx.flash.steady && FromSender(art, p)
    modifies rx`session, rx.flash
    ensures Serving(rx, art) && rx.flash.steady && sent == wire + [f] && f == FrameFor(p, f.reply)
    ensures f.reply.status == R.STATUS_OK ==> Acknowledged(rx.session, p, f.reply)
    ensures old(Spares(rx.session, p, id)) ==> Spares(rx.session, p, id)
    ensures old(Trusted(rx.session, wire, id) && Spares(rx.session, p, id)) ==> Trusted(rx.session, sent, id)
    ensures old(R.Owed(rx.own, rx.session, p)) ==> R.Owed(rx.own, rx.session, p) && f.reply.status == R.STATUS_OK
    ensures old(R.Owed(rx.own, rx.session, p) && OwnFrames(rx.session, p, wire, n)) ==>
              OwnFrames(rx.session, p, sent, n)
    ensures p.command == R.CMD_RESUME || p.command in R.QUERIES ==> rx.session == old(rx.session)
  {
    hide Serving, R.Owed, FromSender, Acknowledged, Trusted, OwnFrames, ReadyTruly;
    ghost var s := rx.session;
    var reply := Deliver(rx, p, art);
    f := FrameFor(p, reply);
    sent := wire + [f];
    if Trusted(s, wire, id) && Spares(s, p, id) { TrustedExtends(s, rx.session, wire, f, id); }
    if old(R.Owed(rx.own, rx.session, p)) && OwnFrames(s, p, wire, n) {
      OwnFramesExtend(s, rx.session, p, wire, n, reply);
    }
  }

  /** One attempt of a request; `wire` holds every reply sent so far, and the first `n` are not answers to it. */
  method Attempt(rx: R.Receiver, p: P.Packet, fate: Fate, wire: seq<Frame>, ghost n: nat, ghost id: word,
                 ghost art: word -> seq<byte>)
    returns (answer: Option<Frame>, sent: seq<Frame>)
    requires Serving(rx, art) && rx.flash.steady && FromSender(art, p)
    modifies rx`session, rx.flash
    ensures Serving(rx, art) && rx.flash.steady && wire <= sent && |sent| == |wire| + Posts(fate)
    ensures old(Spares(rx.session, p, id)) ==> Spares(rx.session, p, id)
    ensures old(Trusted(rx.session, wire, id) && Spares(rx.session, p, id)) ==> Trusted(rx.session, sent, id)
    ensures answer.Some? ==> answer.value in sent && Matches(answer.value, p)
    ensures !fate.Late? ==> (answer.Some? <==> fate == Delivered || fate == Duplicated)
    ensures answer.Some? && !fate.Late? ==>
              answer.value == FrameFor(p, answer.value.reply) &&
              (answer.value.reply.status == R.STATUS_OK ==> Acknowledged(rx.session, p, answer.value.reply))
    ensures fate.Late? ==> answer == Received(p, sent, fate.index)
    ensures !fate.Reset? && old(R.Owed(rx.own, rx.session, p)) ==>
              R.Owed(rx.own, rx.session, p) &&
                  (answer.Some? && !fate.Late? ==> answer.value.reply.status == R.STATUS_OK)
    ensures !fate.Reset? && old(R.Owed(rx.own, rx.session, p) && OwnFrames(rx.session, p, wire, n)) ==>
              OwnFrames(rx.session, p, sent, n)
    ensures !fate.Reset? && (p.command == R.CMD_RESUME || p.command in R.QUERIES) ==> rx.session == old(rx.session)
  {
    hide Serving, R.Owed, FromSender, Acknowledged, Trusted, OwnFrames;
    answer, sent := None, wire;
    if fate == RequestLost { return; }
    if fate.Reset? {
      ghost var s := rx.session;
      Interrupt(rx, p, fate.budget, art);
      if Trusted(s, wire, id) && Spares(s, p, id) { StillTrusted(s, rx.session, wire, id); }
      return;
    }
    var f;
    f, sent := Post(rx, p, sent, n, id, art);
    if fate == Duplicated { f, sent := Post(rx, p, sent, n, id, art); }
    answer := match fate case Late(index) => Received(p, sent, index) case ReplyLost => None case _ => Some(f);
  }

  /** How many replies an attempt puts on the wire. */
  function Posts(fate: Fate): nat {
    match fate case RequestLost => 0 case Reset(_) => 0 case Duplicated => 2 case _ => 1
  }

  /** What an acknowledgement tells the sender about the receiver. */
  ghost predicate Acknowledged(s: R.Session, p: P.Packet, reply: R.Reply) {
    && reply.next == s.next && reply.state == s.state && reply.size == s.size && reply.id == s.id
    && (p.command == R.CMD_START ==> |p.payload| == R.START_PAYLOAD_SIZE && s == R.StartSession(p))
    && (p.command == R.CMD_DATA ==> s.state == RECEIVING && s.id == p.id && s.next == p.offset + |p.payload|)
    && (p.command == R.CMD_FINISH ==> s.state == ARTIFACT_READY && s.id == p.id)
    && (p.command == R.CMD_RESUME ==> s.state == RECEIVING && s.id == p.id)
    && (p.command == R.CMD_ABORT ==> s == R.NO_SESSION)
  }

  // ----- the sender ------------------------------------------------------------------------

  ghost predicate Answered(fates: nat -> Fate, from: nat, retries: nat) {
    exists k :: from <= k < from + retries && fates(k) == Delivered
  }

  /** A reply arrives while its request waits, or not at all. */
  ghost predicate Prompt(fates: nat -> Fate) { forall k :: !fates(k).Late? }

  /** Losses, duplicates and delays, but no resets, and every request gets through before its retries run out. */
  ghost predicate Lively(fates: nat -> Fate, retries: nat) {
    (forall k :: !fates(k).Reset?) && (forall n :: Answered(fates, n, retries))
  }

  /** Only losses and duplicates. */
  ghost predicate Calm(fates: nat -> Fate, retries: nat) { Lively(fates, retries) && Prompt(fates) }

  /** Whether an older frame of the wire is taken for the answer, `own` replies after the first attempt. */
  function Mistaken(p: P.Packet, retries: nat, fates: nat -> Fate, clock: nat, wire: seq<Frame>, own: nat): bool
    decreases retries
  {
    if retries == 0 then false
    else
      match fates(clock)
      case Delivered => false
      case Duplicated => false
      case Late(index) =>
        if index < |wire| then Matches(wire[index], p) || Mistaken(p, retries - 1, fates, clock + 1, wire, own + 1)
        else |wire| + own < index && Mistaken(p, retries - 1, fates, clock + 1, wire, own + 1)
      case fate => Mistaken(p, retries - 1, fates, clock + 1, wire, own + Posts(fate))
  }

  lemma {:induction false} PromptIsNotMistaken(p: P.Packet, retries: nat, fates: nat -> Fate, clock: nat,
                                               wire: seq<Frame>, own: nat)
    requires Prompt(fates)
    ensures !Mistaken(p, retries, fates, clock, wire, own)
    decreases retries
  {
    if retries > 0 {
      var fate := fates(clock);
      PromptIsNotMistaken(p, retries - 1, fates, clock + 1, wire, own + Posts(fate));
    }
  }

  lemma {:induction false} UnmatchedIsNotMistaken(p: P.Packet, retries: nat, fates: nat -> Fate, clock: nat,
                                                  wire: seq<Frame>,
                                                  own: nat)
    requires forall f :: f in wire ==> !Matches(f, p)
    ensures !Mistaken(p, retries, fates, clock, wire, own)
    decreases retries
  {
    if retries > 0 {
      UnmatchedIsNotMistaken(p, retries - 1, fates, clock + 1, wire, own + Posts(fates(clock)));
    }
  }

  /** What a request comes to when nothing is reset and no older frame is taken for its answer. */
  ghost predicate Own(s: R.Session, p: P.Packet, answer: Option<Frame>) {
    && answer.Some? && answer.value == FrameFor(p, answer.value.reply) && answer.value.reply.status == R.STATUS_OK
    && Acknowledged(s, p, answer.value.reply)
  }

  /** Request: send, wait, and send again. */
  method Call(rx: R.Receiver, p: P.Packet, retries: nat, fates: nat -> Fate, clock: nat, wire: seq<Frame>,
              ghost id: word,
              ghost art: word -> seq<byte>)
    returns (answer: Option<Frame>, later: nat, sent: seq<Frame>)
    requires Serving(rx, art) && rx.flash.steady && FromSender(art, p)
    modifies rx`session, rx.flash
    ensures Serving(rx, art) && rx.flash.steady && wire <= sent
    ensures old(Trusted(rx.session, wire, id) && Spares(rx.session, p, id)) ==> Trusted(rx.session, sent, id)
    ensures answer.Some? ==> answer.value in sent && Matches(answer.value, p)
    ensures Prompt(fates) && answer.Some? ==>
              answer.value == FrameFor(p, answer.value.reply) &&
              (answer.value.reply.status == R.STATUS_OK ==> Acknowledged(rx.session, p, answer.value.reply))
    ensures Lively(fates, retries) && old(R.Owed(rx.own, rx.session, p)) ==>
              && OwnFrames(rx.session, p, sent, |wire|)
              && (if Mistaken(p, retries, fates, clock, wire, 0) then answer.Some? && answer.value in wire
                  else Own(rx.session, p, answer))
    ensures Lively(fates, retries) && (p.command == R.CMD_RESUME || p.command in R.QUERIES) ==>
              rx.session == old(rx.session)
  {
    hide Serving, FromSender, Acknowledged, R.Owed, Trusted, OwnFrames, Answered;
    answer, sent := None, wire;
    ghost var n := |wire|;
    ghost var owed := Lively(fates, retries) && R.Owed(rx.own, rx.session, p);
    NoFrames(rx.session, p, wire);
    for attempt := 0 to retries
      invariant Serving(rx, art) && rx.flash.steady && wire <= sent
      invariant old(Spares(rx.session, p, id)) ==> Spares(rx.session, p, id)
      invariant old(Trusted(rx.session, wire, id) && Spares(rx.session, p, id)) ==> Trusted(rx.session, sent, id)
      invariant owed ==> R.Owed(rx.own, rx.session, p) && OwnFrames(rx.session, p, sent, n)
      invariant owed ==> Mistaken(p, retries, fates, clock, wire, 0) ==
                         Mistaken(p, retries - attempt, fates, clock + attempt, wire, |sent| - n)
      invariant Lively(fates, retries) && (p.command == R.CMD_RESUME || p.command in R.QUERIES) ==>
                rx.session == old(rx.session)
      invariant forall k :: clock <= k < clock + attempt ==> fates(k) != Delivered
    {
      ghost var before := sent;
      answer, sent := Attempt(rx, p, fates(clock + attempt), sent, n, id, art);
      if owed { Decides(rx.session, p, retries - attempt, fates, clock + attempt, wire, before, sent, answer); }
      if answer.Some? { return answer, clock + attempt + 1, sent; }
    }
    NotAnswered(fates, clock, retries);
    return None, clock + retries, sent;
  }

  lemma NoFrames(s: R.Session, p: P.Packet, wire: seq<Frame>)
    ensures OwnFrames(s, p, wire, |wire|)
  {
  }

  lemma NotAnswered(fates: nat -> Fate, clock: nat, retries: nat)
    requires forall k :: clock <= k < clock + retries ==> fates(k) != Delivered
    ensures !Lively(fates, retries)
  {
    assert !Answered(fates, clock, retries);
  }

  /** What an attempt of an owed request without a reset says about the whole call. */
  lemma Decides(s: R.Session, p: P.Packet, retries: nat, fates: nat -> Fate, clock: nat, wire: seq<Frame>,
                before: seq<Frame>,
                sent: seq<Frame>, answer: Option<Frame>)
    requires retries > 0 && !fates(clock).Reset? && wire <= before <= sent && |sent| == |before| + Posts(fates(clock))
    requires OwnFrames(s, p, sent, |wire|)
    requires !fates(clock).Late? ==>
               && (answer.Some? <==> fates(clock) == Delivered || fates(clock) == Duplicated)
               && (answer.Some? ==> Own(s, p, answer))
    requires fates(clock).Late? ==> answer == Received(p, sent, fates(clock).index)
    ensures var m := Mistaken(p, retries, fates, clock, wire, |before| - |wire|);
            if answer.Some? then if m then answer.value in wire else Own(s, p, answer)
            else m == Mistaken(p, retries - 1, fates, clock + 1, wire, |sent| - |wire|)
  {
    hide Acknowledged;
    if fates(clock).Late? {
      var i := fates(clock).index;
      if i < |wire| {
        assert sent[i] == wire[i];
      } else if i < |sent| {
        assert sent[i] == FrameFor(p, sent[i].reply);
      }
    }
  }

  /** The receiver holds the first `offset` bytes of this artifact and waits for the next. */
  ghost predicate At(rx: R.Receiver, a: Artifact, offset: nat)
    reads rx
  {
    rx.session.state == RECEIVING && rx.session.id == a.id && rx.session.next == offset
  }

  lemma DataIsOwed(art: word -> seq<byte>, s: R.Session, incoming: seq<byte>, c: Option<Checkpoint>, own: word,
                   a: Artifact)
    requires R.SessionSound(s, incoming, c) && R.SessionFaithful(art, s, incoming) && R.Paced(s)
    requires s.state == RECEIVING && s.id == a.id && art(a.id) == a.bytes && s.next < |a.bytes| && s.next % R.PAGE == 0
    ensures s.size == |a.bytes| <= EXT_INCOMING_SIZE
    ensures FromSender(art, DataPacket(a, s.next)) && R.Owed(own, s, DataPacket(a, s.next))
  {
    hide R.Clean, R.StoredSound, Crc32.Checksum;
    assert (s.next + R.PAGE - 1) / R.PAGE == s.next / R.PAGE;
  }

  lemma SizeIs(art: word -> seq<byte>, s: R.Session, incoming: seq<byte>, a: Artifact)
    requires R.SessionFaithful(art, s, incoming) && (s.state == RECEIVING || s.state == ARTIFACT_READY)
    requires s.id == a.id && art(a.id) == a.bytes
    ensures s.size == |a.bytes| && s.next <= |a.bytes| <= 0xFFFF_FFFF
    ensures s.next <= |incoming| && incoming[..s.next] == a.bytes[..s.next]
  {
  }

  lemma DataIsHonest(art: word -> seq<byte>, a: Artifact, offset: word, sequence: half)
    requires art(a.id) == a.bytes && offset <= |a.bytes|
    ensures FromSender(art, Request(a, R.CMD_DATA, offset, sequence, Chunk(a, offset)))
  {
  }

  /** The frames of this update on the wire answer START or RESUME, at offset zero or not. */
  ghost predicate Opened(wire: seq<Frame>, id: word, start: nat) {
    forall f :: f in wire && f.id == id ==> f.sequence == 0 && f.reply.next == start
  }

  /** Every frame of this update with a sequence number from `sequence` on is still to come. */
  ghost predicate Ahead(wire: seq<Frame>, id: word, sequence: nat) {
    forall f :: f in wire && f.id == id ==> f.sequence < sequence
  }

  lemma AheadExtends(s: R.Session, p: P.Packet, wire: seq<Frame>, sent: seq<Frame>)
    requires Ahead(wire, p.id, p.sequence) || (p.sequence == 0 && Ahead(wire, p.id, 1))
    requires wire <= sent && OwnFrames(s, p, sent, |wire|)
    ensures Ahead(sent, p.id, p.sequence as int + 1)
  {
    hide Acknowledged;
    forall f | f in sent && f.id == p.id ensures f.sequence < p.sequence as int + 1 {
      var i :| 0 <= i < |sent| && sent[i] == f;
      if i < |wire| { assert wire[i] == f; }
    }
  }

  /** A frame that answers START or RESUME is taken for the answer to the first DATA packet. */
  predicate FirstMistaken(a: Artifact, start: nat, retries: nat, fates: nat -> Fate, clock: nat, wire: seq<Frame>) {
    start == 0 && a.bytes != [] && Mistaken(DataPacket(a, 0), retries, fates, clock, wire, 0)
  }

  /** The wire when the chunk at `offset` is sent: nothing of this update with its number or a later one. */
  ghost predicate Expecting(wire: seq<Frame>, a: Artifact, offset: nat) {
    if offset == 0 then Opened(wire, a.id, 0) else Ahead(wire, a.id, offset / R.PAGE)
  }

  /**
   * One DATA packet.  On a lively link its answer is its own unless it is the first and an answer to START or
   * RESUME arrives in its place.
   */
  method SendChunk(rx: R.Receiver, a: Artifact, offset: word, sequence: half, retries: nat, fates: nat -> Fate,
                   clock: nat,
                   wire: seq<Frame>, ghost art: word -> seq<byte>)
    returns (ok: bool, later: nat, sent: seq<Frame>)
    requires Serving(rx, art) && rx.flash.steady && art(a.id) == a.bytes && a.id != 0 &&
             offset < |a.bytes| <= 0xFFFF_FFFF
    requires offset % R.PAGE == 0 && sequence == offset / R.PAGE % 0x1_0000
    modifies rx`session, rx.flash
    ensures Serving(rx, art) && rx.flash.steady && wire <= sent
    ensures old(Trusted(rx.session, wire, a.id)) ==> Trusted(rx.session, sent, a.id)
    ensures Prompt(fates) && old(At(rx, a, offset)) && ok ==> At(rx, a, offset + |Chunk(a, offset)|)
    ensures Calm(fates, retries) && old(At(rx, a, offset)) ==> ok
    ensures Lively(fates, retries) && old(At(rx, a, offset)) && Expecting(wire, a, offset) ==>
              && (ok <==> !FirstMistaken(a, offset, retries, fates, clock, wire))
              && (ok ==> At(rx, a, offset + |Chunk(a, offset)|) && Ahead(sent, a.id, offset / R.PAGE + 1))
  {
    hide R.SessionSound, R.SessionFaithful, R.StoredFaithful, R.Paced, FromSender, R.Owed, LoadCheckpoint, Lively,
         Prompt, Trusted,
         Free, OwnFrames, Mistaken;
    var p := Request(a, R.CMD_DATA, offset, sequence, Chunk(a, offset));
    DataIsHonest(art, a, offset, sequence);
    ghost var there := At(rx, a, offset);
    if there {
      DataIsOwed(art, rx.session, rx.flash.incoming, rx.Stored(), rx.own, a);
      PageNumber(offset);
    }
    var answer;
    answer, later, sent := Call(rx, p, retries, fates, clock, wire, a.id, art);
    ok := answer.Some? && !answer.value.report && answer.value.reply.status == R.STATUS_OK &&
          answer.value.reply.next == offset + |Chunk(a, offset)|;
    if Prompt(fates) { PromptIsNotMistaken(p, retries, fates, clock, wire, 0); }
    if there && offset > 0 && Ahead(wire, a.id, offset / R.PAGE) {
      UnmatchedIsNotMistaken(p, retries, fates, clock, wire, 0);
    }
    if there && Lively(fates, retries) && Expecting(wire, a, offset) { AheadExtends(rx.session, p, wire, sent); }
  }

  lemma PageNumber(offset: nat)
    requires offset % R.PAGE == 0 && offset < EXT_INCOMING_SIZE
    ensures offset / R.PAGE % 0x1_0000 == offset / R.PAGE < 0x1_0000
  {
  }

  function Pages(n: nat): nat { (n + R.PAGE - 1) / R.PAGE }

  /** SendData */
  method SendData(rx: R.Receiver, a: Artifact, start: word, retries: nat, fates: nat -> Fate, clock: nat,
                  wire: seq<Frame>,
                  ghost art: word -> seq<byte>)
    returns (ok: bool, later: nat, sent: seq<Frame>)
    requires Serving(rx, art) && rx.flash.steady && art(a.id) == a.bytes && a.id != 0
    requires start <= |a.bytes| <= 0xFFFF_FFFF && start % R.PAGE == 0
    modifies rx`session, rx.flash
    ensures Serving(rx, art) && rx.flash.steady && wire <= sent
    ensures old(Trusted(rx.session, wire, a.id)) ==> Trusted(rx.session, sent, a.id)
    ensures Prompt(fates) && old(At(rx, a, start)) && ok ==> At(rx, a, |a.bytes|)
    ensures Calm(fates, retries) && old(At(rx, a, start)) ==> ok
    ensures Lively(fates, retries) && old(At(rx, a, start)) && Opened(wire, a.id, start) ==>
              && (ok <==> !FirstMistaken(a, start, retries, fates, clock, wire))
              && (ok ==> At(rx, a, |a.bytes|) && Ahead(sent, a.id, Pages(|a.bytes|)))
  {
    hide Serving, At, Lively, Prompt, Trusted, Opened, Ahead, FirstMistaken, Chunk, Expecting;
    var offset: nat, sequence: half := start, start / R.PAGE % 0x1_0000;
    ghost var at := At(rx, a, start);
    ghost var fresh' := Lively(fates, retries) && at && Opened(wire, a.id, start);
    later, sent := clock, wire;
    OpenedIsAhead(wire, a, start);
    if at { NotEmpty(rx, a, start, art); }
    while offset < |a.bytes|
      invariant Serving(rx, art) && rx.flash.steady && wire <= sent && start <= offset <= |a.bytes|
      invariant old(Trusted(rx.session, wire, a.id)) ==> Trusted(rx.session, sent, a.id)
      invariant offset == start ==> sent == wire && later == clock && (at ==> At(rx, a, offset))
      invariant Prompt(fates) && at ==> At(rx, a, offset)
      invariant offset % R.PAGE == 0 || offset == |a.bytes|
      invariant offset < |a.bytes| ==> sequence == offset / R.PAGE % 0x1_0000
      invariant fresh' ==> At(rx, a, offset)
      invariant fresh' && (offset > start || start > 0) ==> !FirstMistaken(a, start, retries, fates, clock, wire)
      invariant fresh' && offset < |a.bytes| ==> Expecting(sent, a, offset)
      invariant fresh' && offset > 0 ==> Ahead(sent, a.id, Pages(offset))
    {
      Onward(a, offset, sequence);
      if offset > 0 { NotFirst(a, offset, retries, fates, later, sent); }
      ok, later, sent := SendChunk(rx, a, offset, sequence, retries, fates, later, sent, art);
      if !ok { return false, later, sent; }
      offset, sequence := offset + Min(|a.bytes| - offset, R.PAGE), (sequence + 1) % 0x1_0000;
      ExpectingNext(sent, a, offset);
    }
    return true, later, sent;
  }

  lemma OpenedIsAhead(wire: seq<Frame>, a: Artifact, start: nat)
    requires start % R.PAGE == 0
    ensures Opened(wire, a.id, start) ==> Expecting(wire, a, start) && (start > 0 ==> Ahead(wire, a.id, Pages(start)))
    ensures start > 0 ==>
              forall retries: nat, fates: nat -> Fate, clock: nat ::
                !FirstMistaken(a, start, retries, fates, clock, wire)
  {
    hide Mistaken;
    assert start > 0 ==> start / R.PAGE >= 1 && Pages(start) >= 1;
  }

  lemma NotEmpty(rx: R.Receiver, a: Artifact, offset: nat, art: word -> seq<byte>)
    requires Serving(rx, art) && art(a.id) == a.bytes && At(rx, a, offset)
    ensures a.bytes != []
  {
    hide LoadCheckpoint, R.Clean, R.StoredSound, R.StoredFaithful, Crc32.Checksum;
  }

  lemma NotFirst(a: Artifact, offset: nat, retries: nat, fates: nat -> Fate, clock: nat, wire: seq<Frame>)
    requires offset > 0
    ensures !FirstMistaken(a, offset, retries, fates, clock, wire)
  {
    hide Mistaken;
  }

  /** One chunk on. */
  lemma Onward(a: Artifact, offset: nat, sequence: half)
    requires offset < |a.bytes| && offset % R.PAGE == 0 && sequence == offset / R.PAGE % 0x1_0000
    ensures |Chunk(a, offset)| == Min(|a.bytes| - offset, R.PAGE)
    ensures var next := offset + |Chunk(a, offset)|;
            && (next % R.PAGE == 0 || next == |a.bytes|) && Pages(next) == offset / R.PAGE + 1
            && (next < |a.bytes| ==> next % R.PAGE == 0 && next / R.PAGE == offset / R.PAGE + 1 &&
                                     (sequence + 1) % 0x1_0000 == next / R.PAGE % 0x1_0000)
  {
    if offset + R.PAGE <= |a.bytes| { NextSequence(offset, sequence); }
    var k := offset / R.PAGE;
    assert offset == k * R.PAGE;
  }

  lemma ExpectingNext(sent: seq<Frame>, a: Artifact, offset: nat)
    ensures offset > 0 && offset % R.PAGE == 0 && Ahead(sent, a.id, Pages(offset)) ==> Expecting(sent, a, offset)
  {
    if offset % R.PAGE == 0 { assert offset == offset / R.PAGE * R.PAGE && Pages(offset) == offset / R.PAGE; }
  }

  lemma NextSequence(offset: nat, sequence: half)
    requires offset % R.PAGE == 0 && sequence == offset / R.PAGE % 0x1_0000
    ensures (offset + R.PAGE) % R.PAGE == 0 && (sequence + 1) % 0x1_0000 == (offset + R.PAGE) / R.PAGE % 0x1_0000
  {
    assert (offset + R.PAGE) / R.PAGE == offset / R.PAGE + 1;
  }

  lemma FinishIsOwed(art: word -> seq<byte>, s: R.Session, incoming: seq<byte>, own: word, a: Artifact, sequence: half)
    requires R.SessionFaithful(art, s, incoming) && art(a.id) == a.bytes && |a.bytes| <= 0xFFFF_FFFF && s.id == a.id
    requires s.state == ARTIFACT_READY || (s.state == RECEIVING && s.next == |a.bytes|)
    ensures var p := Request(a, R.CMD_FINISH, |a.bytes|, sequence, []); FromSender(art, p) && R.Owed(own, s, p)
  {
    hide Crc32.Checksum;
  }

  /** The whole artifact is in Incoming, checked, and on record as ready. */
  ghost predicate Ready(rx: R.Receiver, a: Artifact)
    reads rx, rx.flash
  {
    && rx.session.state == ARTIFACT_READY && rx.session.id == a.id
    && |a.bytes| <= |rx.flash.incoming| && rx.flash.incoming[..|a.bytes|] == a.bytes
  }

  /** FinishTransfer: FINISH is sent twice and must be acknowledged as ready both times. */
  method FinishTransfer(rx: R.Receiver, a: Artifact, retries: nat, fates: nat -> Fate, clock: nat, wire: seq<Frame>,
                        ghost art: word -> seq<byte>)
    returns (ok: bool, later: nat, sent: seq<Frame>)
    requires Serving(rx, art) && rx.flash.steady && art(a.id) == a.bytes && a.id != 0 && |a.bytes| <= 0xFFFF_FFFF
    modifies rx`session, rx.flash
    ensures Serving(rx, art) && rx.flash.steady && wire <= sent
    ensures old(Trusted(rx.session, wire, a.id)) ==> Trusted(rx.session, sent, a.id) && (ok ==> Ready(rx, a))
    ensures Calm(fates, retries) && old(At(rx, a, |a.bytes|)) ==> ok
    ensures Lively(fates, retries) && old(At(rx, a, |a.bytes|)) && Ahead(wire, a.id, Pages(|a.bytes|)) ==> ok
  {
    hide R.SessionSound, R.SessionFaithful, R.StoredFaithful, R.Paced, R.Owed, R.Honest, LoadCheckpoint, Lively,
         Prompt, Free,
         OwnFrames, Mistaken, Ahead, AllReady;
    var sequence: half := Pages(|a.bytes|) % 0x1_0000;
    var p := Request(a, R.CMD_FINISH, |a.bytes|, sequence, []);
    FinishIsHonest(art, p);
    ghost var at := Lively(fates, retries) && At(rx, a, |a.bytes|);
    ghost var clean := at && Ahead(wire, a.id, Pages(|a.bytes|));
    if at {
      FinishIsOwed(art, rx.session, rx.flash.incoming, rx.own, a, sequence);
      SizeIs(art, rx.session, rx.flash.incoming, a);
      if clean { NoneMatches(rx.session, rx.flash.incoming, rx.Stored(), a, p, wire, retries, fates, clock); }
    }
    if Prompt(fates) { PromptIsNotMistaken(p, retries, fates, clock, wire, 0); }
    var answer;
    answer, later, sent := Call(rx, p, retries, fates, clock, wire, a.id, art);
    ghost var middle := sent;
    if !SaysReady(answer) { return false, later, sent; }
    if clean { OwnAreReady(rx.session, p, wire, sent); }
    if Trusted(rx.session, sent, a.id) || clean || (at && Prompt(fates)) {
      FinishIsOwed(art, rx.session, rx.flash.incoming, rx.own, a, sequence);
    }
    if Prompt(fates) { PromptIsNotMistaken(p, retries, fates, later, sent, 0); }
    answer, later, sent := Call(rx, p, retries, fates, later, sent, a.id, art);
    if clean {
      OwnAreReady(rx.session, p, middle, sent);
      ReadyAnswer(p, wire, middle, sent, answer);
    }
    if !SaysReady(answer) { return false, later, sent; }
    if Trusted(rx.session, sent, a.id) { ReadyHolds(art, rx.session, rx.flash.incoming, rx.Stored(), a); }
    return true, later, sent;
  }

  /** Every frame after the first ones answers this request with READY. */
  ghost predicate AllReady(p: P.Packet, sent: seq<Frame>, n: nat) {
    n <= |sent| && forall i :: n <= i < |sent| ==> sent[i] == FrameFor(p, sent[i].reply) && SaysReady(Some(sent[i]))
  }

  lemma OwnAreReady(s: R.Session, p: P.Packet, wire: seq<Frame>, sent: seq<Frame>)
    requires p.command == R.CMD_FINISH && OwnFrames(s, p, sent, |wire|)
    ensures AllReady(p, sent, |wire|)
  {
  }

  lemma ReadyAnswer(p: P.Packet, wire: seq<Frame>, middle: seq<Frame>, sent: seq<Frame>, answer: Option<Frame>)
    requires wire <= middle <= sent && AllReady(p, middle, |wire|) && AllReady(p, sent, |middle|)
    requires forall f :: f in wire ==> !Matches(f, p)
    requires answer.Some? && answer.value in sent && Matches(answer.value, p)
    ensures SaysReady(answer)
  {
    var i :| 0 <= i < |sent| && sent[i] == answer.value;
    assert forall j :: 0 <= j < |wire| ==> sent[j] == wire[j];
    if |wire| <= i < |middle| { assert sent[i] == middle[i]; }
  }

  lemma NoneMatches(s: R.Session, incoming: seq<byte>, c: Option<Checkpoint>, a: Artifact, p: P.Packet,
                    wire: seq<Frame>,
                    retries: nat, fates: nat -> Fate, clock: nat)
    requires R.SessionSound(s, incoming, c) && s.state == RECEIVING && s.size == |a.bytes| && a.id != 0
    requires p.id == a.id && p.sequence == Pages(|a.bytes|) % 0x1_0000 && Ahead(wire, a.id, Pages(|a.bytes|))
    ensures forall f :: f in wire ==> !Matches(f, p)
    ensures !Mistaken(p, retries, fates, clock, wire, 0)
  {
    hide Mistaken, R.Clean, R.StoredSound, Crc32.Checksum;
    assert Pages(|a.bytes|) < 0x1_0000;
    UnmatchedIsNotMistaken(p, retries, fates, clock, wire, 0);
  }

  /** RequireAck and the check of the state. */
  predicate SaysReady(answer: Option<Frame>) {
    && answer.Some? && !answer.value.report && answer.value.reply.status == R.STATUS_OK
    && answer.value.reply.state == ARTIFACT_READY
  }

  lemma FinishIsHonest(art: word -> seq<byte>, p: P.Packet)
    requires p.command == R.CMD_FINISH || p.command == R.CMD_RESUME
    ensures R.Honest(art, p)
  {
  }

  lemma ReadyHolds(art: word -> seq<byte>, s: R.Session, incoming: seq<byte>, c: Option<Checkpoint>, a: Artifact)
    requires R.SessionSound(s, incoming, c) && R.SessionFaithful(art, s, incoming)
    requires s.state == ARTIFACT_READY && s.id == a.id && art(a.id) == a.bytes
    ensures |a.bytes| <= |incoming| && incoming[..|a.bytes|] == a.bytes
  {
    hide R.StoredSound, Crc32.Checksum;
    assert a.bytes[..|a.bytes|] == a.bytes;
  }

  /** UartOta_BuildStartPayload */
  function StartPayload(a: Artifact): seq<byte>
    requires |a.bytes| <= 0xFFFF_FFFF
    ensures |StartPayload(a)| == R.START_PAYLOAD_SIZE
  {
    [a.kind, 0] + P.HalfBytes(R.CONTAINER_FORMAT) + LittleEndian(a.base) + LittleEndian(a.version) +
    LittleEndian(|a.bytes|) + LittleEndian(Crc32.Checksum(a.bytes)) + LittleEndian(Container.HEADER_SIZE)
  }

  lemma StartFields(a: Artifact)
    requires |a.bytes| <= 0xFFFF_FFFF
    ensures var p := Request(a, R.CMD_START, 0, 0, StartPayload(a));
            && R.StartSize(p) == |a.bytes| && R.StartCrc(p) == Crc32.Checksum(a.bytes) && R.StartVersion(p) == a.version
  {
    hide LittleEndian, Word, P.HalfBytes, Crc32.Checksum;
    var s := StartPayload(a);
    assert s[12..16] == LittleEndian(|a.bytes|) && s[16..20] == LittleEndian(Crc32.Checksum(a.bytes));
    assert s[8..12] == LittleEndian(a.version);
    P.WordBack(|a.bytes|);
    P.WordBack(Crc32.Checksum(a.bytes));
    P.WordBack(a.version);
  }

  /** The node takes this artifact. */
  predicate Takes(own: word, a: Artifact)
    requires |a.bytes| <= 0xFFFF_FFFF
  {
    R.StartProblem(Request(a, R.CMD_START, 0, 0, StartPayload(a)), own) == R.STATUS_OK
  }

  /** StartTransfer and ResumeTransfer: where to send from, if the receiver agrees. */
  method Open(rx: R.Receiver, a: Artifact, plan: Plan, retries: nat, fates: nat -> Fate, clock: nat, wire: seq<Frame>,
              ghost art: word -> seq<byte>)
    returns (start: Option<word>, later: nat, sent: seq<Frame>)
    requires plan == StartNew || plan == ResumeAt
    requires Serving(rx, art) && rx.flash.steady && art(a.id) == a.bytes && a.id != 0 && |a.bytes| <= 0xFFFF_FFFF
    modifies rx`session, rx.flash
    ensures Serving(rx, art) && rx.flash.steady && wire <= sent
    ensures old(Trusted(rx.session, wire, a.id)) ==> Trusted(rx.session, sent, a.id)
    ensures start.Some? ==> start.value <= |a.bytes| && start.value % R.PAGE == 0
    ensures Prompt(fates) && start.Some? ==> At(rx, a, start.value)
    ensures Calm(fates, retries) && old(Opens(rx, a, plan)) ==> start.Some?
    ensures Lively(fates, retries) && old(Opens(rx, a, plan)) && Unheard(wire, a.id) ==>
              && start == Some(if plan == StartNew then 0 else old(rx.session.next))
              && At(rx, a, start.value) && Opened(sent, a.id, start.value)
  {
    hide R.SessionSound, R.SessionFaithful, R.StoredFaithful, R.Paced, R.Honest, LoadCheckpoint, Lively, Prompt,
         R.StartProblem,
         StartPayload, Free, Mistaken, OwnFrames;
    var p :=
      if plan == StartNew then Request(a, R.CMD_START, 0, 0, StartPayload(a)) else Request(a, R.CMD_RESUME, 0, 0, []);
    StartFields(a);
    StartIsHonest(art, a);
    FinishIsHonest(art, Request(a, R.CMD_RESUME, 0, 0, []));
    if Prompt(fates) { PromptIsNotMistaken(p, retries, fates, clock, wire, 0); }
    ghost var fresh' := Lively(fates, retries) && Opens(rx, a, plan) && Unheard(wire, a.id);
    if fresh' { UnmatchedIsNotMistaken(p, retries, fates, clock, wire, 0); }
    var answer;
    answer, later, sent := Call(rx, p, retries, fates, clock, wire, a.id, art);
    if fresh' { OpeningFrames(rx.session, p, wire, sent); }
    if answer == None || answer.value.report || answer.value.reply.status != R.STATUS_OK { return None, later, sent; }
    if plan == StartNew { return Some(0), later, sent; }
    if Prompt(fates) || fresh' { SizeIs(art, rx.session, rx.flash.incoming, a); }
    var next := answer.value.reply.next;
    if next > |a.bytes| || next % R.PAGE != 0 { return None, later, sent; }
    return Some(next), later, sent;
  }

  /** The receiver can be opened as planned. */
  ghost predicate Opens(rx: R.Receiver, a: Artifact, plan: Plan)
    requires |a.bytes| <= 0xFFFF_FFFF
    reads rx
  {
    if plan == StartNew then Takes(rx.own, a) && rx.session.state in {IDLE, FAILED, RECEIVING}
    else At(rx, a, rx.session.next) && rx.session.next % R.PAGE == 0
  }

  /** No reply of this update is on the wire. */
  ghost predicate Unheard(wire: seq<Frame>, id: word) { forall f :: f in wire ==> f.id != id }

  lemma OpeningFrames(s: R.Session, p: P.Packet, wire: seq<Frame>, sent: seq<Frame>)
    requires Unheard(wire, p.id) && wire <= sent && OwnFrames(s, p, sent, |wire|) && p.sequence == 0
    ensures Opened(sent, p.id, s.next)
  {
    forall f | f in sent && f.id == p.id ensures f.sequence == 0 && f.reply.next == s.next {
      var i :| 0 <= i < |sent| && sent[i] == f;
      if i < |wire| { assert wire[i] == f; }
    }
  }

  /** Where a transfer was opened: the offset, and the attempts made and the replies sent by then. */
  datatype Opening = Opening(start: word, clock: nat, wire: seq<Frame>)

  /**
   * A transfer from the start or from where the receiver stands.  Whatever is lost, duplicated, late or cut
   * short, success means that the node holds the artifact.  Without resets, and with no reply of an earlier
   * transfer of this update about, it succeeds exactly when no late answer to START or RESUME is taken for
   * that of the first DATA packet; a transfer resumed further on always succeeds.
   */
  method Transfer(rx: R.Receiver, a: Artifact, plan: Plan, retries: nat, fates: nat -> Fate, clock: nat,
                  wire: seq<Frame>,
                  ghost art: word -> seq<byte>)
    returns (ok: bool, later: nat, sent: seq<Frame>, opening: Option<Opening>)
    requires plan == StartNew || plan == ResumeAt
    requires Serving(rx, art) && rx.flash.steady && art(a.id) == a.bytes && a.id != 0 && |a.bytes| <= 0xFFFF_FFFF
    modifies rx`session, rx.flash
    ensures Serving(rx, art) && rx.flash.steady && wire <= sent
    ensures old(Trusted(rx.session, wire, a.id)) ==> Trusted(rx.session, sent, a.id) && (ok ==> Ready(rx, a))
    ensures Calm(fates, retries) && old(Opens(rx, a, plan)) ==> ok
    ensures Lively(fates, retries) && old(Opens(rx, a, plan)) && Unheard(wire, a.id) ==>
              && opening.Some? && opening.value.start == (if plan == StartNew then 0 else old(rx.session.next))
              && wire <= opening.value.wire && Opened(opening.value.wire, a.id, opening.value.start)
              && (ok <==> !FirstMistaken(a, opening.value.start, retries, fates, opening.value.clock,
                                         opening.value.wire))
  {
    hide Serving, Takes, Trusted, Ready, Lively, Prompt, Opened, Ahead, Opens, At, FirstMistaken, Unheard;
    var start;
    opening := None;
    start, later, sent := Open(rx, a, plan, retries, fates, clock, wire, art);
    if start == None { return false, later, sent, None; }
    opening := Some(Opening(start.value, later, sent));
    ok, later, sent := SendData(rx, a, start.value, retries, fates, later, sent, art);
    if !ok { return false, later, sent, opening; }
    ok, later, sent := FinishTransfer(rx, a, retries, fates, later, sent, art);
  }

  lemma StartIsHonest(art: word -> seq<byte>, a: Artifact)
    requires art(a.id) == a.bytes && |a.bytes| <= 0xFFFF_FFFF
    ensures R.Honest(art, Request(a, R.CMD_START, 0, 0, StartPayload(a)))
  {
    hide StartPayload, Crc32.Checksum, Word;
    StartFields(a);
  }

  // ----- what a late reply can be taken for ------------------------------------------------

  /** A query, an abort or INSTALL, which carry no payload. */
  function Bare(command: byte, id: word, offset: word): P.Packet {
    P.Packet(P.MAGIC, P.PROTOCOL_VERSION, command, id, offset, 0, [])
  }

  /** The requests that name one update. */
  predicate OfUpdate(a: Artifact, q: P.Packet)
    requires |a.bytes| <= 0xFFFF_FFFF
  {
    || q == Request(a, R.CMD_START, 0, 0, StartPayload(a))
    || q == Request(a, R.CMD_RESUME, 0, 0, [])
    || q == Bare(R.CMD_ABORT, a.id, 0)
    || q == Bare(R.CMD_INSTALL, a.id, |a.bytes|)
    || q == Request(a, R.CMD_FINISH, |a.bytes|, Pages(|a.bytes|) % 0x1_0000, [])
    || (q.offset < |a.bytes| && q.offset % R.PAGE == 0 && q == DataPacket(a, q.offset))
  }

  /** The requests with sequence number zero: all but FINISH and the DATA packets after the first. */
  predicate Numberless(q: P.Packet) {
    q.command in {R.CMD_START, R.CMD_RESUME, R.CMD_ABORT, R.CMD_INSTALL} || (q.command == R.CMD_DATA && q.offset == 0)
  }

  /**
   * A late reply to one request of an update passes for the answer to another exactly when neither is FINISH
   * or a DATA packet after the first.
   */
  lemma PassesFor(a: Artifact, p: P.Packet, q: P.Packet, reply: R.Reply)
    requires 0 < |a.bytes| <= EXT_INCOMING_SIZE && a.id != 0 && OfUpdate(a, p) && OfUpdate(a, q) && p != q
    ensures Received(p, [FrameFor(q, reply)], 0).Some? <==> Numberless(p) && Numberless(q)
  {
    hide StartPayload;
    NumberOf(a, p);
    NumberOf(a, q);
  }

  lemma NumberOf(a: Artifact, q: P.Packet)
    requires 0 < |a.bytes| <= EXT_INCOMING_SIZE && OfUpdate(a, q)
    ensures q.sequence == (if q.command == R.CMD_DATA then q.offset / R.PAGE
                           else if q.command == R.CMD_FINISH then Pages(|a.bytes|) else 0)
    ensures q.command == R.CMD_DATA ==> q.offset == q.sequence * R.PAGE < |a.bytes| && q == DataPacket(a, q.offset)
    ensures q.command == R.CMD_FINISH ==> q.sequence > 0 && (q.sequence - 1) * R.PAGE < |a.bytes| <= q.sequence * R.PAGE
  {
    hide StartPayload;
    PageNumber(if q.command == R.CMD_DATA then q.offset else 0);
    assert Pages(|a.bytes|) < 0x1_0000;
  }

  /** A second acknowledgement of START, taken for that of the first DATA packet, ends the transfer. */
  lemma LateStartFails(a: Artifact)
    requires 0 < |a.bytes| <= EXT_INCOMING_SIZE
    ensures var start := Request(a, R.CMD_START, 0, 0, StartPayload(a));
            var ack := R.ReplyFor(R.StartSession(start), R.STATUS_OK, 0);
            && Received(DataPacket(a, 0), [FrameFor(start, ack)], 0) == Some(FrameFor(start, ack))
            && ack.status == R.STATUS_OK && ack.next != |Chunk(a, 0)|
  {
    hide StartPayload, Word;
  }

  /** An acknowledgement of START, taken for that of ABORT, says nothing about the session that is still there. */
  lemma LateStartSparesSession(a: Artifact)
    requires |a.bytes| <= 0xFFFF_FFFF
    ensures var start := Request(a, R.CMD_START, 0, 0, StartPayload(a));
            var ack := R.ReplyFor(R.StartSession(start), R.STATUS_OK, 0);
            && Received(Bare(R.CMD_ABORT, a.id, 0), [FrameFor(start, ack)], 0) == Some(FrameFor(start, ack))
            && ack.status == R.STATUS_OK && R.StartSession(start) != R.NO_SESSION
  {
    hide StartPayload, Word;
  }

  /**
   * An old report, taken for the answer to a query, can cost a complete artifact: it spoke of another update,
   * so the plan is to abort.
   */
  lemma OldReportAborts(a: Artifact, old': R.Session, own: word)
    requires 0 < |a.bytes| <= 0xFFFF_FFFF && a.id != 0 && a.version != 0 && old'.state == ARTIFACT_READY &&
             old'.id != a.id
    ensures var f := FrameFor(Bare(QUERY, 0, 0), R.ReplyFor(old', R.STATUS_OK, 0));
            && Received(Bare(QUERY, 0, 0), [f], 0) == Some(f) && f.report
            && SelectPlan(Reported(f.reply, own), a.id, |a.bytes|, a.version) == AbortForeign
  {
  }

  // ----- the plan loop ---------------------------------------------------------------------

  const QUERY: byte := 0x02

  lemma BareIsHonest(art: word -> seq<byte>, own: word, s: R.Session, command: byte, id: word)
    requires command == QUERY || command == R.CMD_ABORT
    ensures FromSender(art, Bare(command, id, 0)) && R.Owed(own, s, Bare(command, id, 0))
  {
    hide R.StartProblem;
  }

  /** UartOta_Query: ask until a report arrives. */
  method Query(rx: R.Receiver, patience: nat, retries: nat, fates: nat -> Fate, clock: nat, wire: seq<Frame>,
               ghost id: word,
               ghost art: word -> seq<byte>)
    returns (target: Option<Target>, later: nat, sent: seq<Frame>)
    requires Serving(rx, art) && rx.flash.steady
    modifies rx`session, rx.flash
    ensures Serving(rx, art) && rx.flash.steady && wire <= sent
    ensures old(Trusted(rx.session, wire, id)) ==> Trusted(rx.session, sent, id)
    ensures Prompt(fates) && target.Some? ==> target.value == Reported(R.ReplyFor(rx.session, R.STATUS_OK, 0), rx.own)
    ensures Calm(fates, retries) && patience > 0 ==> target.Some? && rx.session == old(rx.session)
  {
    hide Serving, FromSender, Lively, Prompt, Trusted, OwnFrames, Mistaken, R.Owed;
    var p := Bare(QUERY, 0, 0);
    later, sent := clock, wire;
    for i := 0 to patience
      invariant Serving(rx, art) && rx.flash.steady && wire <= sent
      invariant old(Trusted(rx.session, wire, id)) ==> Trusted(rx.session, sent, id)
      invariant Calm(fates, retries) ==> i == 0 && rx.session == old(rx.session)
    {
      BareIsHonest(art, rx.own, rx.session, QUERY, 0);
      if Prompt(fates) { PromptIsNotMistaken(p, retries, fates, later, sent, 0); }
      var answer;
      answer, later, sent := Call(rx, p, retries, fates, later, sent, id, art);
      if answer.Some? && answer.value.report { return Some(Reported(answer.value.reply, rx.own)), later, sent; }
    }
    return None, later, sent;
  }

  /** AbortTransfer */
  method Abort(rx: R.Receiver, session: word, retries: nat, fates: nat -> Fate, clock: nat, wire: seq<Frame>,
               ghost id: word,
               ghost art: word -> seq<byte>)
    returns (ok: bool, later: nat, sent: seq<Frame>)
    requires Serving(rx, art) && rx.flash.steady
    modifies rx`session, rx.flash
    ensures Serving(rx, art) && rx.flash.steady && wire <= sent
    ensures old(Trusted(rx.session, wire, id) && !Holding(rx.session, id)) ==> Trusted(rx.session, sent, id)
    ensures Prompt(fates) && ok ==> rx.session == R.NO_SESSION
    ensures Calm(fates, retries) ==> ok
  {
    hide Serving, FromSender, Lively, Prompt, Trusted, OwnFrames, Mistaken, R.Owed;
    var p := Bare(R.CMD_ABORT, session, 0);
    BareIsHonest(art, rx.own, rx.session, R.CMD_ABORT, session);
    if Prompt(fates) { PromptIsNotMistaken(p, retries, fates, clock, wire, 0); }
    var answer;
    answer, later, sent := Call(rx, p, retries, fates, clock, wire, id, art);
    ok := answer.Some? && !answer.value.report && answer.value.reply.status == R.STATUS_OK;
  }

  const MAX_TRANSITIONS := 4

  /** The fates of the queries of a round and of its other requests. */
  datatype Weather = Weather(queries: nat -> Fate, requests: nat -> Fate)

  /**
   * The plan loop of UartOta_TransferInstallAndWait up to INSTALL: ask where the receiver stands, clear away
   * what is foreign, then start or resume.  Success means that the artifact is ready, whatever is lost,
   * duplicated, late or cut short, as long as no old report is taken for the answer to a query.  From every
   * session that is not a trial, one round in which packets are only lost or duplicated succeeds.
   */
  method Round(rx: R.Receiver, a: Artifact, patience: nat, retries: nat, weather: Weather, wire: seq<Frame>,
               ghost art: word -> seq<byte>)
    returns (ok: bool, sent: seq<Frame>)
    requires Serving(rx, art) && rx.flash.steady && art(a.id) == a.bytes && |a.bytes| <= 0xFFFF_FFFF
    modifies rx`session, rx.flash
    ensures Serving(rx, art) && rx.flash.steady && wire <= sent
    ensures Prompt(weather.queries) && old(Trusted(rx.session, wire, a.id)) ==>
              Trusted(rx.session, sent, a.id) && (ok ==> Ready(rx, a))
    ensures Calm(weather.queries, retries) && Calm(weather.requests, retries) && patience > 0 && Takes(rx.own, a) ==> ok
  {
    hide Serving, Lively, Prompt, Takes, Ready, SelectPlan, Trusted, Opens, Calm, At;
    sent := wire;
    if a.id == 0 || a.bytes == [] || a.version == 0 || (a.kind != R.FULL_IMAGE && a.kind != R.DELTA_IMAGE) {
      Unacceptable(rx.own, a);
      return false, sent;
    }
    ghost var prompt := Prompt(weather.queries) && Trusted(rx.session, wire, a.id);
    ghost var calm := Calm(weather.queries, retries) && Calm(weather.requests, retries) && patience > 0 &&
        Takes(rx.own, a);
    CalmIsPrompt(weather, retries);
    var asked: nat, clock: nat, target := 0, 0, None;
    target, asked, sent := Query(rx, patience, retries, weather.queries, asked, sent, a.id, art);
    if target == None { return false, sent; }
    for transitions := 0 to MAX_TRANSITIONS
      invariant Serving(rx, art) && rx.flash.steady && wire <= sent && target.Some?
      invariant prompt ==> Trusted(rx.session, sent, a.id)
      invariant Prompt(weather.queries) ==> target.value == Reported(R.ReplyFor(rx.session, R.STATUS_OK, 0), rx.own)
      invariant calm && transitions > 0 ==> rx.session == R.NO_SESSION
      invariant calm ==> transitions <= 1
    {
      var plan := SelectPlan(target.value, a.id, |a.bytes|, a.version);
      PlanOf(rx, art, a);
      match plan {
        case AbortForeign =>
          var done;
          done, clock, sent := Abort(rx, target.value.id, retries, weather.requests, clock, sent, a.id, art);
          if !done { return false, sent; }
          target, asked, sent := Query(rx, patience, retries, weather.queries, asked, sent, a.id, art);
          if target == None { return false, sent; }
        case StartNew =>
          var opening;
          ok, clock, sent, opening := Transfer(rx, a, plan, retries, weather.requests, clock, sent, art);
          return;
        case ResumeAt =>
          var opening;
          ok, clock, sent, opening := Transfer(rx, a, plan, retries, weather.requests, clock, sent, art);
          return;
        case InstallReady => return true, sent;
        case _ => return false, sent;
      }
    }
    return false, sent;
  }

  lemma Unacceptable(own: word, a: Artifact)
    requires |a.bytes| <= 0xFFFF_FFFF
    requires a.id == 0 || a.bytes == [] || a.version == 0 || (a.kind != R.FULL_IMAGE && a.kind != R.DELTA_IMAGE)
    ensures !Takes(own, a)
  {
    hide Word, P.Half, LittleEndian, Crc32.Checksum;
    StartFields(a);
  }

  lemma CalmIsPrompt(weather: Weather, retries: nat)
    ensures Calm(weather.queries, retries) ==> Prompt(weather.queries)
    ensures Calm(weather.requests, retries) ==> Prompt(weather.requests)
  {
  }

  /** The plans a receiver that is not on trial gives rise to, for an artifact that it takes. */
  lemma PlanOf(rx: R.Receiver, art: word -> seq<byte>, a: Artifact)
    requires Serving(rx, art) && art(a.id) == a.bytes && |a.bytes| <= 0xFFFF_FFFF
    requires a.id != 0 && a.bytes != [] && a.version != 0
    ensures var plan := SelectPlan(Reported(R.ReplyFor(rx.session, R.STATUS_OK, 0), rx.own), a.id, |a.bytes|,
                                   a.version);
            && (plan == InstallReady ==> Ready(rx, a))
            && (plan == ResumeAt ==> Opens(rx, a, ResumeAt))
            && (plan == StartNew && Takes(rx.own, a) ==> Opens(rx, a, StartNew))
            && (plan == AbortForeign ==> !Holding(rx.session, a.id))
            && (Takes(rx.own, a) ==> plan in {StartNew, ResumeAt, InstallReady, AbortForeign})
            && (Takes(rx.own, a) && rx.session == R.NO_SESSION ==> plan == StartNew)
  {
    hide LoadCheckpoint, R.SessionSound, R.StoredFaithful, R.Paced, StartPayload, Word, P.Half, Crc32.Checksum;
    PlanFits(art, rx.session, rx.flash.incoming, rx.Stored(), rx.own, a);
    StartFields(a);
  }

  /**
   * Rounds until one succeeds, with every reply of every round still about: whatever resets, losses and
   * late replies spoil, the first calm round leaves the artifact ready.
   */
  method Persist(rx: R.Receiver, a: Artifact, patience: nat, retries: nat, rounds: seq<Weather>,
                 ghost art: word -> seq<byte>)
    returns (ok: bool)
    requires Serving(rx, art) && rx.flash.steady && art(a.id) == a.bytes && |a.bytes| <= 0xFFFF_FFFF
    modifies rx`session, rx.flash
    ensures Serving(rx, art) && rx.flash.steady
    ensures (forall i :: 0 <= i < |rounds| ==> Prompt(rounds[i].queries)) ==> (ok ==> Ready(rx, a))
    ensures Takes(rx.own, a) && patience > 0 ==>
              forall i :: 0 <= i < |rounds| && Calm(rounds[i].queries, retries) && Calm(rounds[i].requests, retries) ==>
                  ok
  {
    hide Serving, Calm, Prompt, Takes, Ready, Trusted;
    var wire: seq<Frame> := [];
    NothingSent(rx.session, a.id);
    for i := 0 to |rounds|
      invariant Serving(rx, art) && rx.flash.steady
      invariant (forall j :: 0 <= j < |rounds| ==> Prompt(rounds[j].queries)) ==> Trusted(rx.session, wire, a.id)
      invariant Takes(rx.own, a) && patience > 0 ==>
                  forall j :: 0 <= j < i ==> !(Calm(rounds[j].queries, retries) && Calm(rounds[j].requests, retries))
    {
      ok, wire := Round(rx, a, patience, retries, rounds[i], wire, art);
      if ok { return true; }
    }
    return false;
  }

  lemma NothingSent(s: R.Session, id: word)
    ensures Trusted(s, [], id)
  {
  }

  // ----- any packets at all ----------------------------------------------------------------

  /**
   * A packet arrives.  With a budget, power fails after that many flash operations or right afterwards; the
   * boot metadata may refuse what INSTALL and CONFIRM ask of it, and may show a trial after a reset.
   */
  datatype Arrival = Arrival(packet: P.Packet, committed: bool, budget: Option<nat>, trial: Option<Metadata>)

  predicate MirrorsTrial(trial: Option<Metadata>) {
    trial.Some? ==> trial.value.state == TRIAL_BOOT || trial.value.state == CONFIRMED
  }

  /**
   * Every run of the receiver: any honest packets in any order and number, of any updates and any chunk
   * sizes, with a reset at any flash operation.
   */
  method Serve(rx: R.Receiver, arrivals: seq<Arrival>, ghost art: word -> seq<byte>)
    requires rx.Sound() && rx.Faithful(art) && rx.flash.steady
    requires forall i :: 0 <= i < |arrivals| ==> R.Honest(art, arrivals[i].packet) && MirrorsTrial(arrivals[i].trial)
    modifies rx`session, rx.flash
    ensures rx.Sound() && rx.Faithful(art)
  {
    hide R.SessionSound, R.SessionFaithful, R.StoredFaithful, R.StoredSound, R.Paced, R.Honest, R.Answer, R.Owed,
         LoadCheckpoint;
    for i := 0 to |arrivals|
      invariant rx.Sound() && rx.Faithful(art) && rx.flash.steady
    {
      var arrival := arrivals[i];
      rx.flash.steady, rx.flash.power := arrival.budget.None?, if arrival.budget.Some? then arrival.budget.value else 0;
      var r := rx.Handle(arrival.packet, arrival.committed, art);
      if arrival.budget.Some? || R.Resets(arrival.packet, r.value) {
        rx.flash.steady := true;
        rx.Restart(arrival.trial, art);
      }
    }
  }
}
