/**
 * The streaming patch applier of bootloader/patch/janpatch_port.c: it reads the patch from the
 * Incoming partition through a cursor, the base from the application region, and programs the
 * erased Reconstructed partition through a 128-byte buffer.
 */
module Janpatch {
  import opened Bytes
  import opened Nor
  import opened JojoDiff

  const BUFFER_SIZE := 128
  const APPLICATION_MAX_SIZE := 38912

  datatype Status =
    | Ok
    | InvalidArgument
    | SourceRange
    | TruncatedStream
    | BadLength
    | TargetRange
    | TargetWriteFailed
    | TargetSizeMismatch

  /** No length field of the stream is written as zero in a long form. */
  predicate NoZeroLengths(p: seq<byte>)
    decreases |p|
  {
    p == [] ||
    match ParseOp(p)
    case None => true
    case Some(op) =>
      && ((op.Equal? || op.Delete? || op.Back?) ==> op.n != 0)
      && NoZeroLengths(p[op.size..])
  }

  /** The target the stream describes for this base and size, if the device accepts it. */
  function Reconstruction(base: seq<byte>, patch: seq<byte>, targetSize: nat): Option<seq<byte>> {
    if base == [] || patch == [] || targetSize == 0 || !NoZeroLengths(patch) then None
    else
      match ApplyPatch(base, patch)
      case None => None
      case Some(t) => if |t| == targetSize then Some(t) else None
  }

  lemma TwoBytes(s: seq<byte>)
    requires |s| == 2
    ensures FromBigEndian(s) == s[0] as int * 0x100 + s[1]
  {
    assert FromBigEndian(s[..1]) == FromBigEndian(s[..1][..0]) * 0x100 + s[0];
  }

  lemma FourBytes(s: seq<byte>)
    requires |s| == 4
    ensures FromBigEndian(s)
         == s[0] as int * 0x100_0000 + s[1] as int * 0x1_0000 + s[2] as int * 0x100 + s[3]
  {
    TwoBytes(s[..2]);
    assert s[..3][..2] == s[..2];
  }

  class Context {
    const base: seq<byte>
    const patch: seq<byte>
    const targetSize: nat
    var target: seq<byte>
    var sourcePosition: nat
    var patchPosition: nat
    var targetPosition: nat
    var equalBytes: nat
    var modifiedBytes: nat
    var insertedBytes: nat
    var deletedBytes: nat
    var backwardBytes: nat

    constructor (base: seq<byte>, patch: seq<byte>, targetSize: nat, reconstructed: seq<byte>)
      requires |base| <= APPLICATION_MAX_SIZE && targetSize <= |reconstructed|
      requires IsErased(reconstructed, 0, targetSize)
      ensures this.base == base && this.patch == patch && this.targetSize == targetSize
      ensures target == reconstructed && Valid()
      ensures patchPosition == sourcePosition == targetPosition == 0
      ensures equalBytes == modifiedBytes == insertedBytes == deletedBytes == backwardBytes == 0
    {
      this.base, this.patch, this.targetSize, target := base, patch, targetSize, reconstructed;
      sourcePosition, patchPosition, targetPosition := 0, 0, 0;
      equalBytes, modifiedBytes, insertedBytes, deletedBytes, backwardBytes := 0, 0, 0, 0, 0;
    }

    /** The cursors lie in their ranges and nothing past the target cursor has been programmed. */
    ghost predicate Valid()
      reads this`target, this`targetPosition, this`sourcePosition, this`patchPosition
    {
      InRange() && patchPosition <= |patch|
    }

    ghost predicate InRange()
      reads this`target, this`targetPosition, this`sourcePosition
    {
      && |base| <= APPLICATION_MAX_SIZE
      && sourcePosition <= |base|
      && targetPosition <= targetSize <= |target|
      && IsErased(target, targetPosition, targetSize)
    }

    /** PatchReadByte */
    method ReadByte() returns (b: Option<byte>)
      requires patchPosition <= |patch|
      modifies this`patchPosition
      ensures patchPosition <= |patch|
      ensures if old(patchPosition) < |patch|
              then b == Some(patch[old(patchPosition)]) && patchPosition == old(patchPosition) + 1
              else b == None && patchPosition == old(patchPosition)
    {
      if patchPosition >= |patch| { return None; }
      b := Some(patch[patchPosition]);
      patchPosition := patchPosition + 1;
    }

    method ReadLength() returns (status: Status, length: nat)
      requires patchPosition <= |patch|
      modifies this`patchPosition
      ensures patchPosition <= |patch|
      ensures var l := DecodeLength(patch[old(patchPosition)..]);
              && (status == Ok <==> l.Some? && l.value.value != 0)
              && (status == Ok ==> length == l.value.value && patchPosition == old(patchPosition) + l.value.size)
    {
      ghost var p := patch[patchPosition..];
      length := 0;
      var prefix := ReadByte();
      if prefix == None { return TruncatedStream, 0; }
      if prefix.value <= 251 { return Ok, prefix.value as int + 1; }
      if prefix.value == 252 {
        var low := ReadByte();
        if low == None { return TruncatedStream, 0; }
        return Ok, 253 + low.value as int;
      }
      if prefix.value == 253 {
        var b0 := ReadByte();
        if b0 == None { return TruncatedStream, 0; }
        var b1 := ReadByte();
        if b1 == None { return TruncatedStream, 0; }
        length := b0.value as int * 0x100 + b1.value;
        TwoBytes(p[1..3]);
        return if length != 0 then Ok else BadLength, length;
      }
      if prefix.value == 254 {
        var b0 := ReadByte();
        if b0 == None { return TruncatedStream, 0; }
        var b1 := ReadByte();
        if b1 == None { return TruncatedStream, 0; }
        var b2 := ReadByte();
        if b2 == None { return TruncatedStream, 0; }
        var b3 := ReadByte();
        if b3 == None { return TruncatedStream, 0; }
        length := b0.value as int * 0x100_0000 + b1.value as int * 0x1_0000 + b2.value as int * 0x100 + b3.value;
        FourBytes(p[1..5]);
        return if length != 0 then Ok else BadLength, length;
      }
      return BadLength, 0;
    }

    /** Programs `data` at the target cursor, or nothing at all when it does not fit. */
    method TargetWrite(data: seq<byte>) returns (status: Status)
      requires InRange()
      modifies this`target, this`targetPosition
      ensures InRange() && |target| == old(|target|)
      ensures status == Ok <==> |data| <= targetSize - old(targetPosition)
      ensures status == Ok ==> target == Store(old(target), old(targetPosition), data)
      ensures status == Ok ==> targetPosition == old(targetPosition) + |data|
      ensures status != Ok ==> target == old(target) && targetPosition == old(targetPosition)
    {
      if |data| > targetSize - targetPosition { return TargetRange; }
      if |data| != 0 {
        ErasedProgrammable(target, targetPosition, data);
        if !Programmable(target, targetPosition, data) { return TargetWriteFailed; }
      }
      target := Store(target, targetPosition, data);
      targetPosition := targetPosition + |data|;
      return Ok;
    }

    /** ReadSource at the source cursor. */
    method ReadSource(buffer: array<byte>, length: nat)
      requires sourcePosition + length <= |base| && length <= buffer.Length
      modifies buffer
      ensures buffer[..length] == base[sourcePosition..sourcePosition + length]
    {
      forall i | 0 <= i < length { buffer[i] := base[sourcePosition + i]; }
    }

    /** Copies `length` base bytes to the target, a buffer at a time. */
    method CopyEqual(length: nat) returns (status: Status)
      requires Valid()
      modifies this`target, this`targetPosition, this`sourcePosition, this`equalBytes
      ensures Valid() && |target| == old(|target|)
      ensures status == Ok <==>
                length <= |base| - old(sourcePosition) && length <= targetSize - old(targetPosition)
      ensures status == Ok ==>
                && target == Store(old(target), old(targetPosition),
                                   base[old(sourcePosition)..old(sourcePosition) + length])
                && targetPosition == old(targetPosition) + length
                && sourcePosition == old(sourcePosition) + length
                && equalBytes == old(equalBytes) + length
      ensures targetPosition >= old(targetPosition) &&
              Untouched(old(target), target, old(targetPosition), targetPosition)
    {
      hide Store, IsErased, Untouched;
      StoreNothing(target, targetPosition);
      if length > |base| - sourcePosition { return SourceRange; }
      var buffer := new byte[BUFFER_SIZE];
      ghost var source := base[sourcePosition..sourcePosition + length];
      var copied: nat := 0;
      while copied < length
        modifies this`target, this`targetPosition, this`sourcePosition, this`equalBytes, buffer
        invariant Valid() && |target| == old(|target|)
        invariant copied <= length && sourcePosition == old(sourcePosition) + copied
        invariant targetPosition == old(targetPosition) + copied && equalBytes == old(equalBytes) + copied
        invariant target == Store(old(target), old(targetPosition), source[..copied])
        invariant Untouched(old(target), target, old(targetPosition), targetPosition)
      {
        var chunk := Min(length - copied, BUFFER_SIZE);
        ReadSource(buffer, chunk);
        Slices(base, old(sourcePosition), length, copied, chunk);
        status := TargetWrite(buffer[..chunk]);
        if status != Ok { return; }
        StoreTouches(old(target), old(targetPosition), source[..copied + chunk]);
        StoreTwice(old(target), old(targetPosition), source[..copied], source[copied..copied + chunk]);
        sourcePosition := sourcePosition + chunk;
        equalBytes := equalBytes + chunk;
        copied := copied + chunk;
      }
      assert source[..length] == source;
      return Ok;
    }

    /** Since the target was `before` and the cursors stood at `t` and `s`, exactly `done` has been written. */
    ghost predicate Wrote(before: seq<byte>, t: nat, s: nat, advanceSource: bool, done: seq<byte>)
      reads this`target, this`targetPosition, this`sourcePosition
    {
      && InRange() && |target| == |before|
      && targetPosition == t + |done|
      && sourcePosition == s + (if advanceSource then |done| else 0)
      && target == Store(before, t, done)
    }

    /** Empties the literal buffer into the target and, for MOD, moves the source cursor along. */
    method Flush(data: seq<byte>, advanceSource: bool, ghost before: seq<byte>, ghost t: nat, ghost s: nat,
                 ghost done: seq<byte>)
      returns (status: Status)
      requires Wrote(before, t, s, advanceSource, done)
      modifies this`target, this`targetPosition, this`sourcePosition
      ensures InRange() && |target| == |before|
      ensures t <= targetPosition && Untouched(before, target, t, targetPosition)
      ensures status == Ok <==>
                && |done| + |data| <= targetSize - t
                && (advanceSource ==> |done| + |data| <= |base| - s)
      ensures status == Ok ==> Wrote(before, t, s, advanceSource, done + data)
    {
      hide Store, IsErased, Untouched;
      StoreTouches(before, t, done);
      status := TargetWrite(data);
      if status != Ok { return; }
      StoreTwice(before, t, done, data);
      StoreTouches(before, t, done + data);
      if advanceSource {
        if |data| > |base| - sourcePosition { return SourceRange; }
        sourcePosition := sourcePosition + |data|;
      }
    }

    /** Room for `n` more bytes since the cursors stood at `t` and `s`. */
    ghost predicate Fits(n: nat, t: nat, s: nat, advanceSource: bool) {
      n <= targetSize - t && (advanceSource ==> n <= |base| - s)
    }

    /** Puts one byte in the buffer and empties the buffer when that fills it. */
    method Append(buffer: array<byte>, used: nat, total: nat, b: byte, advanceSource: bool,
                  ghost before: seq<byte>, ghost t: nat, ghost s: nat, ghost done: seq<byte>)
      returns (status: Status, used': nat, total': nat, ghost done': seq<byte>)
      requires buffer.Length == BUFFER_SIZE && used < BUFFER_SIZE && total == |done|
      requires Wrote(before, t, s, advanceSource, done)
      modifies this`target, this`targetPosition, this`sourcePosition, buffer
      ensures InRange() && |target| == |before|
      ensures t <= targetPosition && Untouched(before, target, t, targetPosition)
      ensures used' < BUFFER_SIZE && total' == |done'|
      ensures status != Ok ==> !Fits(|done| + used + 1, t, s, advanceSource)
      ensures status == Ok ==>
                && Wrote(before, t, s, advanceSource, done')
                && done' + buffer[..used'] == done + old(buffer[..used]) + [b]
    {
      hide Store, IsErased, Untouched, Wrote;
      WroteFits(before, t, s, advanceSource, done);
      done', total', status := done, total, Ok;
      buffer[used] := b;
      used' := used + 1;
      if used' == BUFFER_SIZE {
        status := Flush(buffer[..], advanceSource, before, t, s, done);
        done' := done + buffer[..];
        total' := total + used';
        used' := 0;
      }
    }

    /** One turn of the unescaping loop; `more` is false where the literal ends. */
    method Unescape(buffer: array<byte>, used: nat, total: nat, advanceSource: bool,
                    ghost before: seq<byte>, ghost t: nat, ghost s: nat, ghost done: seq<byte>)
      returns (status: Status, more: bool, used': nat, total': nat, ghost done': seq<byte>)
      requires patchPosition < |patch|
      requires buffer.Length == BUFFER_SIZE && used < BUFFER_SIZE && total == |done|
      requires Wrote(before, t, s, advanceSource, done)
      modifies this`target, this`targetPosition, this`sourcePosition, this`patchPosition, buffer
      ensures InRange() && |target| == |before| && old(patchPosition) <= patchPosition <= |patch|
      ensures t <= targetPosition && Untouched(before, target, t, targetPosition)
      ensures used' < BUFFER_SIZE && total' == |done'|
      ensures status == Ok ==> Wrote(before, t, s, advanceSource, done')
      ensures match LiteralTurn(patch[old(patchPosition)..])
              case Some(turn) =>
                && more
                && (status != Ok ==> !Fits(|done| + used + |turn.data|, t, s, advanceSource))
                && (status == Ok ==>
                    && patchPosition == old(patchPosition) + turn.size
                    && done' + buffer[..used'] == done + old(buffer[..used]) + turn.data)
              case None =>
                && status == Ok && !more && done' == done && used' == used
                && buffer[..used] == old(buffer[..used])
                && patchPosition == old(patchPosition) + if |patch| - old(patchPosition) == 1 then 1 else 0
    {
      hide Store, IsErased, Untouched, Wrote;
      WroteFits(before, t, s, advanceSource, done);
      status, more, used', total', done' := Ok, true, used, total, done;
      var value := patch[patchPosition];
      if value != ESC {
        patchPosition := patchPosition + 1;
        status, used', total', done' := Append(buffer, used, total, value, advanceSource, before, t, s, done);
        return;
      }
      if patchPosition + 1 >= |patch| {
        patchPosition := patchPosition + 1;
        more := false;
        return;
      }
      var next := patch[patchPosition + 1];
      if next == ESC {
        patchPosition := patchPosition + 2;
        status, used', total', done' := Append(buffer, used, total, ESC, advanceSource, before, t, s, done);
      } else if IsOpcode(next) {
        more := false;
      } else {
        patchPosition := patchPosition + 2;
        ghost var pending := done + buffer[..used];
        status, used', total', done' := Append(buffer, used, total, ESC, advanceSource, before, t, s, done);
        if status != Ok { return; }
        status, used', total', done' := Append(buffer, used', total', next, advanceSource, before, t, s, done');
        assert pending + [ESC] + [next] == pending + [ESC, next];
      }
    }

    /** The literal run at the patch cursor, unescaped into the buffer and written out. */
    method ConsumeLiteral(advanceSource: bool) returns (status: Status, written: nat)
      requires Valid()
      modifies this`target, this`targetPosition, this`sourcePosition, this`patchPosition
      ensures Valid() && |target| == old(|target|)
      ensures old(targetPosition) <= targetPosition
      ensures Untouched(old(target), target, old(targetPosition), targetPosition)
      ensures var l := CopyLiteral(patch[old(patchPosition)..]);
              && (status == Ok <==> Fits(|l.data|, old(targetPosition), old(sourcePosition), advanceSource))
              && (status == Ok ==>
                  && Wrote(old(target), old(targetPosition), old(sourcePosition), advanceSource, l.data)
                  && patchPosition == old(patchPosition) + l.size
                  && written == |l.data|)
    {
      hide Store, IsErased, Untouched, CopyLiteral, Wrote, LiteralTurn;
      ghost var before, t, s, start := target, targetPosition, sourcePosition, patchPosition;
      WroteNothing(advanceSource);
      var buffer := new byte[BUFFER_SIZE];
      var used: nat, more := 0, true;
      written := 0;
      ghost var whole := CopyLiteral(patch[start..]);
      ghost var done: seq<byte> := [];
      assert done + buffer[..used] == [];
      ExtendNothing(whole);
      while more && patchPosition < |patch|
        modifies this`target, this`targetPosition, this`sourcePosition, this`patchPosition, buffer
        invariant Wrote(before, t, s, advanceSource, done)
        invariant used < BUFFER_SIZE && written == |done|
        invariant start <= patchPosition <= |patch|
        invariant whole == Extend(done + buffer[..used], patchPosition - start,
                                  if more then CopyLiteral(patch[patchPosition..]) else Literal([], 0))
        decreases more, |patch| - patchPosition
      {
        ghost var pending, at, p := done + buffer[..used], patchPosition, patch[patchPosition..];
        LiteralUnfold(p);
        status, more, used, written, done := Unescape(buffer, used, written, advanceSource, before, t, s, done);
        if status != Ok { return; }
        if more {
          ghost var turn := LiteralTurn(p).value;
          ExtendTwice(pending, at - start, turn.data, turn.size, CopyLiteral(p[turn.size..]));
          assert p[turn.size..] == patch[patchPosition..];
        }
      }
      LiteralUnfold([]);
      assert patchPosition == |patch| ==> patch[patchPosition..] == [];
      assert whole == Literal(done + buffer[..used], patchPosition - start);
      WroteFits(before, t, s, advanceSource, done);
      if used != 0 {
        status := Flush(buffer[..used], advanceSource, before, t, s, done);
        if status != Ok { return; }
        written := written + used;
      } else {
        assert done + buffer[..used] == done;
      }
      return Ok, written;
    }

    /** A length field of zero, which only the long forms can spell. */
    static predicate ZeroLength(op: Op) { (op.Equal? || op.Delete? || op.Back?) && op.n == 0 }

    /** The device takes `op` at the current cursors. */
    ghost predicate Accepts(op: Op)
      reads this`targetPosition, this`sourcePosition
    {
      && !ZeroLength(op)
      && Move(op, sourcePosition, |base|).Some?
      && targetPosition + |Output(op, sourcePosition, base)| <= targetSize
    }

    /** Every target byte and every move of the source cursor is in exactly one counter, and none can wrap. */
    ghost predicate Accounted(consumed: int)
      reads this
    {
      && equalBytes + modifiedBytes + insertedBytes == targetPosition
      && sourcePosition == equalBytes + modifiedBytes + deletedBytes - backwardBytes
      && 3 * deletedBytes <= APPLICATION_MAX_SIZE * consumed
      && 3 * backwardBytes <= APPLICATION_MAX_SIZE * consumed
    }

    /** What performing `op` leaves behind. */
    ghost predicate Performed(op: Op, before: seq<byte>, t: nat, s: nat)
      requires Move(op, s, |base|).Some? && t + |Output(op, s, base)| <= |before|
      reads this
    {
      var out := Output(op, s, base);
      && Accounted(patchPosition)
      && Move(op, s, |base|) == Some(sourcePosition)
      && targetPosition == t + |out|
      && target == Store(before, t, out)
    }

    /** EQL, DEL or BKT, with the patch cursor at the length field. */
    method StepLength(opcode: byte) returns (status: Status)
      requires Valid() && Accounted(patchPosition - 2)
      requires opcode == EQL || opcode == DEL || opcode == BKT
      modifies this
      ensures Valid() && |target| == old(|target|)
      ensures old(targetPosition) <= targetPosition
      ensures Untouched(old(target), target, old(targetPosition), targetPosition)
      ensures var l := DecodeLength(patch[old(patchPosition)..]);
              if l == None then status != Ok
              else
                var op := LengthOp(opcode, l.value.value, l.value.size + 2);
                && (status == Ok <==> old(Accepts(op)))
                && (status == Ok ==>
                    && patchPosition == old(patchPosition) + l.value.size
                    && Performed(op, old(target), old(targetPosition), old(sourcePosition)))
    {
      hide Store, IsErased, Untouched, DecodeLength;
      StoreNothing(target, targetPosition);
      var length;
      status, length := ReadLength();
      if status != Ok { return; }
      if opcode == EQL {
        status := CopyEqual(length);
      } else if opcode == DEL {
        if length > |base| - sourcePosition { return SourceRange; }
        sourcePosition := sourcePosition + length;
        deletedBytes := deletedBytes + length;
      } else {
        if length > sourcePosition { return SourceRange; }
        sourcePosition := sourcePosition - length;
        backwardBytes := backwardBytes + length;
      }
    }

    static function LengthOp(opcode: byte, n: nat, size: nat): Op {
      if opcode == EQL then Equal(n, size) else if opcode == DEL then Delete(n, size) else Back(n, size)
    }

    /** MOD or INS, with the patch cursor at the data. */
    method StepLiteral(opcode: byte) returns (status: Status)
      requires Valid() && Accounted(patchPosition)
      requires opcode == MOD || opcode == INS
      modifies this
      ensures Valid() && |target| == old(|target|)
      ensures old(targetPosition) <= targetPosition
      ensures Untouched(old(target), target, old(targetPosition), targetPosition)
      ensures var l := CopyLiteral(patch[old(patchPosition)..]);
              var op := if opcode == MOD then Modify(l.data, 0) else Insert(l.data, 0);
              && (status == Ok <==> old(Accepts(op)))
              && (status == Ok ==>
                  && patchPosition == old(patchPosition) + l.size
                  && Performed(op, old(target), old(targetPosition), old(sourcePosition)))
    {
      hide Store, IsErased, Untouched, CopyLiteral;
      var written;
      status, written := ConsumeLiteral(opcode == MOD);
      if status != Ok { return; }
      if opcode == MOD {
        modifiedBytes := modifiedBytes + written;
      } else {
        insertedBytes := insertedBytes + written;
      }
    }

    /** One operation of the stream. */
    method Step() returns (status: Status)
      requires Valid() && patchPosition < |patch| && Accounted(patchPosition)
      modifies this
      ensures Valid() && |target| == old(|target|)
      ensures old(targetPosition) <= targetPosition
      ensures Untouched(old(target), target, old(targetPosition), targetPosition)
      ensures var op := ParseOp(patch[old(patchPosition)..]);
              && (status == Ok <==> op.Some? && old(Accepts(op.value)))
              && (status == Ok ==>
                  && patchPosition == old(patchPosition) + op.value.size
                  && Performed(op.value, old(target), old(targetPosition), old(sourcePosition)))
    {
      hide Store, IsErased, Untouched, CopyLiteral, DecodeLength;
      StoreNothing(target, targetPosition);
      ghost var p := patch[patchPosition..];
      var opcode := MOD;
      if patch[patchPosition] == ESC {
        if patchPosition + 1 >= |patch| { return TruncatedStream; }
        var next := patch[patchPosition + 1];
        if IsOpcode(next) {
          patchPosition := patchPosition + 2;
          opcode := next;
          assert p[2..] == patch[patchPosition..];
        }
      }
      if opcode == EQL || opcode == DEL || opcode == BKT {
        status := StepLength(opcode);
        return;
      }
      status := StepLiteral(opcode);
    }

    /**
     * The whole stream: on success the target holds exactly what the reference applier computes, and the
     * device succeeds on exactly the streams the reference accepts with this target size and no zero length.
     */
    method ApplyStream() returns (status: Status)
      requires Valid() && Accounted(0) && patchPosition == sourcePosition == targetPosition == 0
      modifies this
      ensures Valid() && |target| == old(|target|)
      ensures Untouched(old(target), target, 0, targetPosition)
      ensures status == Ok <==> Reconstruction(base, patch, targetSize).Some?
      ensures status == Ok ==>
                && target == Store(old(target), 0, Reconstruction(base, patch, targetSize).value)
                && patchPosition == |patch| && targetPosition == targetSize && Accounted(|patch|)
    {
      hide Store, IsErased, Untouched, ParseOp, Move, Output, Accounted;
      StoreNothing(target, 0);
      if base == [] || patch == [] || targetSize == 0 { return InvalidArgument; }
      ghost var out: seq<byte> := [];
      assert patch[0..] == patch;
      PrependTwice([], [], ApplyPatch(base, patch));
      while patchPosition < |patch|
        modifies this
        invariant Valid() && Accounted(patchPosition) && |target| == old(|target|)
        invariant targetPosition == |out| && target == Store(old(target), 0, out)
        invariant NoZeroLengths(patch) <==> NoZeroLengths(patch[patchPosition..])
        invariant ApplyPatch(base, patch) == Prepend(out, ApplyFrom(base, sourcePosition, patch[patchPosition..]))
        decreases |patch| - patchPosition
      {
        StoreTouches(old(target), 0, out);
        ghost var before, t, s, p := target, targetPosition, sourcePosition, patch[patchPosition..];
        ghost var accepted := ParseOp(p).Some? && Accepts(ParseOp(p).value);
        status := Step();
        UntouchedTwice(old(target), before, target, 0, t, targetPosition);
        Refused(p, s, t, out);
        if status != Ok { return; }
        ghost var o := Output(ParseOp(p).value, s, base);
        PrependTwice(out, o, ApplyFrom(base, sourcePosition, p[ParseOp(p).value.size..]));
        assert p[ParseOp(p).value.size..] == patch[patchPosition..];
        StoreTwice(old(target), 0, out, o);
        out := out + o;
      }
      StoreTouches(old(target), 0, out);
      assert patch[patchPosition..] == [] && out + [] == out;
      if targetPosition != targetSize { return TargetSizeMismatch; }
      return Ok;
    }

    /** Where the device stops, the reference fails, or spells a zero length, or makes too long a target. */
    lemma Refused(p: seq<byte>, s: nat, t: nat, out: seq<byte>)
      requires p != [] && |out| == t <= targetSize
      ensures var op := ParseOp(p);
              var ok := && op.Some? && !ZeroLength(op.value) && Move(op.value, s, |base|).Some?
                        && t + |Output(op.value, s, base)| <= targetSize;
              var rest := ApplyFrom(base, s, p);
              && (!ok ==> rest == None || !NoZeroLengths(p) || |out + rest.value| > targetSize)
              && (ok ==>
                  && (NoZeroLengths(p) <==> NoZeroLengths(p[op.value.size..]))
                  && rest == Prepend(Output(op.value, s, base),
                                     ApplyFrom(base, Move(op.value, s, |base|).value, p[op.value.size..])))
    {
      hide ParseOp, Move, Output;
    }

    lemma WroteNothing(advanceSource: bool)
      requires Valid()
      ensures Wrote(target, targetPosition, sourcePosition, advanceSource, [])
    {
      StoreNothing(target, targetPosition);
    }

    lemma WroteFits(before: seq<byte>, t: nat, s: nat, advanceSource: bool, done: seq<byte>)
      requires Wrote(before, t, s, advanceSource, done)
      ensures InRange() && |target| == |before|
      ensures |done| <= targetSize - t && (advanceSource ==> |done| <= |base| - s)
      ensures t <= targetPosition && Untouched(before, target, t, targetPosition)
    {
      StoreTouches(before, t, done);
    }
  }

  /** Everything outside the range is as it was. */
  ghost predicate Untouched(before: seq<byte>, after: seq<byte>, from: nat, to: nat) {
    && from <= to <= |before| == |after|
    && after[..from] == before[..from] && after[to..] == before[to..]
  }

  lemma UntouchedTwice(a: seq<byte>, b: seq<byte>, c: seq<byte>, from: nat, mid: nat, to: nat)
    requires from <= mid <= to && Untouched(a, b, from, mid) && Untouched(b, c, mid, to)
    ensures Untouched(a, c, from, to)
  {
    assert c[..from] == c[..mid][..from] && b[to..] == b[mid..][to - mid..] && a[to..] == a[mid..][to - mid..];
  }

  lemma Slices(base: seq<byte>, from: nat, length: nat, done: nat, chunk: nat)
    requires from + length <= |base| && done + chunk <= length
    ensures var source := base[from..from + length];
            && source[done..done + chunk] == base[from + done..from + done + chunk]
            && source[..done] + source[done..done + chunk] == source[..done + chunk]
  {
    var source := base[from..from + length];
    var x, y := source[done..done + chunk], base[from + done..from + done + chunk];
    forall i | 0 <= i < chunk ensures x[i] == y[i] { assert x[i] == source[done + i]; }
    assert x == y;
  }

  lemma StoreTouches(region: seq<byte>, offset: nat, data: seq<byte>)
    requires offset + |data| <= |region|
    ensures Untouched(region, Store(region, offset, data), offset, offset + |data|)
  {
  }

  lemma StoreNothing(region: seq<byte>, offset: nat)
    requires offset <= |region|
    ensures Store(region, offset, []) == region && Untouched(region, region, offset, offset)
  {
  }

  lemma StoreTwice(region: seq<byte>, offset: nat, a: seq<byte>, b: seq<byte>)
    requires offset + |a| + |b| <= |region|
    ensures Store(Store(region, offset, a), offset + |a|, b) == Store(region, offset, a + b)
  {
  }
}
