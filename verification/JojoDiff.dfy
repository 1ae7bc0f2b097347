/**
 * The delta codec of tools/jojodiff_patch.py: the generator, the reference applier and the
 * stream inspector.  The functions read a patch from its front; the methods are the loops of
 * the tool, which keep a cursor and grow their output.
 */
module JojoDiff {
  import opened Bytes

  const ESC: byte := 0xA7
  const MOD: byte := 0xA6
  const INS: byte := 0xA5
  const DEL: byte := 0xA4
  const EQL: byte := 0xA3
  const BKT: byte := 0xA2

  predicate IsOpcode(b: byte) { b == MOD || b == INS || b == DEL || b == EQL || b == BKT }

  // ----- lengths ---------------------------------------------------------------------------

  function Pow256(count: nat): nat { if count == 0 then 1 else 0x100 * Pow256(count - 1) }

  lemma {:induction false} BigEndianRoundTrip(n: nat, count: nat)
    requires n < Pow256(count)
    ensures FromBigEndian(ToBigEndian(n, count)) == n
  {
    if count > 0 {
      BigEndianRoundTrip(n / 0x100, count - 1);
      var s := ToBigEndian(n, count);
      assert s[..count - 1] == ToBigEndian(n / 0x100, count - 1);
    }
  }

  lemma {:induction false} BigEndianBound(s: seq<byte>)
    ensures FromBigEndian(s) < Pow256(|s|)
  {
    if s != [] { BigEndianBound(s[..|s| - 1]); }
  }

  lemma Pow256Values()
    ensures Pow256(2) == 0x1_0000 && Pow256(4) == 0x1_0000_0000
  {
    assert Pow256(3) == 0x100_0000;
  }

  function EncodeLength(length: int): Option<seq<byte>> {
    if length <= 0 then None
    else if length <= 252 then Some([length - 1])
    else if length <= 508 then Some([252, length - 253])
    else if length <= 0xFFFF then Some([253] + ToBigEndian(length, 2))
    else if length <= 0xFFFF_FFFF then Some([254] + ToBigEndian(length, 4))
    else None
  }

  datatype Length = Length(value: nat, size: nat)

  /** The length field at the front of `p` and how many bytes it takes; None is a format error. */
  function DecodeLength(p: seq<byte>): (r: Option<Length>)
    ensures r.Some? ==> 1 <= r.value.size <= |p|
  {
    if |p| == 0 then None
    else if p[0] <= 251 then Some(Length(p[0] as int + 1, 1))
    else if p[0] == 252 then
      if |p| < 2 then None else Some(Length(253 + p[1] as int, 2))
    else if p[0] == 253 then
      if |p| < 3 then None else Some(Length(FromBigEndian(p[1..3]), 3))
    else if p[0] == 254 then
      if |p| < 5 then None else Some(Length(FromBigEndian(p[1..5]), 5))
    else None
  }

  lemma LengthRoundTrip(length: int, rest: seq<byte>)
    ensures EncodeLength(length).Some? <==> 0 < length <= 0xFFFF_FFFF
    ensures EncodeLength(length).Some? ==>
              var e := EncodeLength(length).value;
              DecodeLength(e + rest) == Some(Length(length, |e|))
  {
    Pow256Values();
    if 508 < length <= 0xFFFF {
      BigEndianRoundTrip(length, 2);
      assert (EncodeLength(length).value + rest)[1..3] == ToBigEndian(length, 2);
    } else if 0xFFFF < length <= 0xFFFF_FFFF {
      BigEndianRoundTrip(length, 4);
      assert (EncodeLength(length).value + rest)[1..5] == ToBigEndian(length, 4);
    }
  }

  // ----- literals --------------------------------------------------------------------------

  function Escape(data: seq<byte>): seq<byte> {
    if data == [] then []
    else if data[0] == ESC then [ESC, ESC] + Escape(data[1..])
    else [data[0]] + Escape(data[1..])
  }

  datatype Literal = Literal(data: seq<byte>, size: nat)

  /** The literal run at the front of `p`: its data and the patch bytes it takes. */
  function CopyLiteral(p: seq<byte>): (r: Literal)
    ensures r.size <= |p| && |r.data| <= r.size
    ensures p != [] && (p[0] != ESC || |p| < 2 || !IsOpcode(p[1])) ==> r.size > 0
    decreases |p|
  {
    if p == [] then Literal([], 0)
    else if p[0] != ESC then
      var r := CopyLiteral(p[1..]);
      Literal([p[0]] + r.data, r.size + 1)
    else if |p| == 1 then Literal([], 1)
    else if p[1] == ESC then
      var r := CopyLiteral(p[2..]);
      Literal([ESC] + r.data, r.size + 2)
    else if IsOpcode(p[1]) then Literal([], 0)
    else
      var r := CopyLiteral(p[2..]);
      Literal([ESC, p[1]] + r.data, r.size + 2)
  }

  /** What may follow a literal without being read as part of it. */
  predicate AtBoundary(p: seq<byte>) {
    p == [] || (|p| >= 2 && p[0] == ESC && IsOpcode(p[1]))
  }

  lemma LiteralStep(b: byte, q: seq<byte>)
    requires b != ESC
    ensures CopyLiteral([b] + q) == Literal([b] + CopyLiteral(q).data, CopyLiteral(q).size + 1)
  {
    assert ([b] + q)[1..] == q;
  }

  lemma LiteralEscapeStep(q: seq<byte>)
    ensures CopyLiteral([ESC, ESC] + q) == Literal([ESC] + CopyLiteral(q).data, CopyLiteral(q).size + 2)
  {
    assert ([ESC, ESC] + q)[2..] == q;
  }

  lemma EscapeStep(data: seq<byte>)
    ensures Escape([]) == []
    ensures data != [] ==> Escape(data) == (if data[0] == ESC then [ESC, ESC] else [data[0]]) + Escape(data[1..])
  {
  }

  lemma LiteralEnd(rest: seq<byte>)
    requires AtBoundary(rest)
    ensures CopyLiteral(rest) == Literal([], 0)
  {
  }

  lemma {:induction false} LiteralRoundTrip(data: seq<byte>, rest: seq<byte>)
    requires AtBoundary(rest)
    ensures CopyLiteral(Escape(data) + rest) == Literal(data, |Escape(data)|)
  {
    hide CopyLiteral, Escape, AtBoundary;
    EscapeStep(data);
    if data == [] {
      LiteralEnd(rest);
      assert [] + rest == rest;
    } else {
      var e := Escape(data[1..]);
      LiteralRoundTrip(data[1..], rest);
      assert data == [data[0]] + data[1..];
      if data[0] == ESC {
        LiteralEscapeStep(e + rest);
        assert [ESC, ESC] + e + rest == [ESC, ESC] + (e + rest);
      } else {
        LiteralStep(data[0], e + rest);
        assert [data[0]] + e + rest == [data[0]] + (e + rest);
      }
    }
  }

  // ----- the reference applier -------------------------------------------------------------

  /** One operation at the front of a patch, and the patch bytes it takes. */
  datatype Op =
    | Equal(n: nat, size: nat)
    | Delete(n: nat, size: nat)
    | Back(n: nat, size: nat)
    | Insert(data: seq<byte>, size: nat)
    | Modify(data: seq<byte>, size: nat)

  /** None is a format error: a lone escape at the end, or a bad length field. */
  function ParseOp(p: seq<byte>): (r: Option<Op>)
    requires p != []
    ensures r.Some? ==> 0 < r.value.size <= |p|
    ensures r.Some? && !r.value.Insert? && !r.value.Modify? ==> r.value.size >= 3
  {
    if p[0] != ESC then
      var l := CopyLiteral(p);
      Some(Modify(l.data, l.size))
    else if |p| < 2 then None
    else if p[1] == EQL || p[1] == DEL || p[1] == BKT then
      match DecodeLength(p[2..])
      case None => None
      case Some(l) =>
        Some(if p[1] == EQL then Equal(l.value, l.size + 2)
             else if p[1] == DEL then Delete(l.value, l.size + 2)
             else Back(l.value, l.size + 2))
    else if p[1] == MOD || p[1] == INS then
      var l := CopyLiteral(p[2..]);
      Some(if p[1] == MOD then Modify(l.data, l.size + 2) else Insert(l.data, l.size + 2))
    else
      var l := CopyLiteral(p);
      Some(Modify(l.data, l.size))
  }

  /** The source position after `op`, or None when it leaves the source. */
  function Move(op: Op, at: nat, sourceSize: nat): (r: Option<nat>)
    ensures r.Some? && at <= sourceSize ==> r.value <= sourceSize
  {
    match op
    case Equal(n, _) => if at + n > sourceSize then None else Some(at + n)
    case Delete(n, _) => if at + n > sourceSize then None else Some(at + n)
    case Back(n, _) => if n > at then None else Some(at - n)
    case Insert(_, _) => Some(at)
    case Modify(d, _) => if at + |d| > sourceSize then None else Some(at + |d|)
  }

  function Output(op: Op, at: nat, source: seq<byte>): seq<byte>
    requires Move(op, at, |source|).Some?
  {
    match op
    case Equal(n, _) => source[at..at + n]
    case Insert(d, _) => d
    case Modify(d, _) => d
    case _ => []
  }

  /** What applying the rest `p` of a patch with the source cursor at `at` appends to the target. */
  function ApplyFrom(source: seq<byte>, at: nat, p: seq<byte>): Option<seq<byte>>
    decreases |p|
  {
    if p == [] then Some([])
    else
      match ParseOp(p)
      case None => None
      case Some(op) =>
        var to := Move(op, at, |source|);
        if to == None then None
        else
          Prepend(Output(op, at, source), ApplyFrom(source, to.value, p[op.size..]))
  }

  function ApplyPatch(source: seq<byte>, patch: seq<byte>): Option<seq<byte>> {
    ApplyFrom(source, 0, patch)
  }

  /** A literal with `data` and `size` bytes of patch put before it. */
  function Extend(data: seq<byte>, size: nat, l: Literal): Literal {
    Literal(data + l.data, size + l.size)
  }

  lemma ExtendTwice(a: seq<byte>, m: nat, b: seq<byte>, n: nat, l: Literal)
    ensures Extend(a, m, Extend(b, n, l)) == Extend(a + b, m + n, l)
  {
    assert a + (b + l.data) == a + b + l.data;
  }

  /** How much of the front of `p` one turn of the escaping loop takes; None ends the literal. */
  function LiteralTurn(p: seq<byte>): (r: Option<Literal>)
    ensures r.Some? ==> 0 < r.value.size <= |p|
  {
    if p == [] then None
    else if p[0] != ESC then Some(Literal([p[0]], 1))
    else if |p| == 1 then None
    else if p[1] == ESC then Some(Literal([ESC], 2))
    else if IsOpcode(p[1]) then None
    else Some(Literal([ESC, p[1]], 2))
  }

  lemma LiteralUnfold(p: seq<byte>)
    ensures match LiteralTurn(p)
            case Some(t) => CopyLiteral(p) == Extend(t.data, t.size, CopyLiteral(p[t.size..]))
            case None => CopyLiteral(p) == Literal([], if |p| == 1 then 1 else 0)
  {
  }

  /** `_copy_literal`: the escaping loop, from a cursor. */
  method CopyLiteralLoop(patch: seq<byte>, start: nat) returns (out: seq<byte>, offset: nat)
    requires start <= |patch|
    ensures var l := CopyLiteral(patch[start..]); out == l.data && offset == start + l.size
  {
    hide CopyLiteral;
    out, offset := [], start;
    ExtendNothing(CopyLiteral(patch[start..]));
    while offset < |patch|
      invariant start <= offset <= |patch|
      invariant CopyLiteral(patch[start..]) == Extend(out, offset - start, CopyLiteral(patch[offset..]))
    {
      ghost var p := patch[offset..];
      LiteralUnfold(p);
      var value := patch[offset];
      offset := offset + 1;
      if value != ESC {
        ExtendTwice(out, offset - 1 - start, [value], 1, CopyLiteral(p[1..]));
        assert p[1..] == patch[offset..];
        out := out + [value];
        continue;
      }
      if offset >= |patch| {
        return;
      }
      var next := patch[offset];
      offset := offset + 1;
      assert p[2..] == patch[offset..];
      if next == ESC {
        ExtendTwice(out, offset - 2 - start, [ESC], 2, CopyLiteral(p[2..]));
        out := out + [ESC];
        continue;
      }
      if IsOpcode(next) {
        return out, offset - 2;
      }
      ExtendTwice(out, offset - 2 - start, [ESC, next], 2, CopyLiteral(p[2..]));
      out := out + [ESC, next];
    }
    assert patch[offset..] == [];
    LiteralUnfold([]);
  }

  lemma ExtendNothing(l: Literal)
    ensures Extend([], 0, l) == l
  {
    assert [] + l.data == l.data;
  }

  /** The operation at the cursor, as both loops of the tool read it. */
  method ReadOp(patch: seq<byte>, pos: nat) returns (op: Option<Op>)
    requires pos < |patch|
    ensures op == ParseOp(patch[pos..])
  {
    ghost var p := patch[pos..];
    var opcode, at := MOD, pos;
    if patch[pos] == ESC {
      if pos + 1 >= |patch| { return None; }
      opcode := patch[pos + 1];
      at := pos + 2;
      assert p[2..] == patch[at..];
    }
    if opcode == EQL || opcode == DEL || opcode == BKT {
      var l := DecodeLength(patch[at..]);
      if l == None { return None; }
      var size := at - pos + l.value.size;
      return Some(if opcode == EQL then Equal(l.value.value, size)
                  else if opcode == DEL then Delete(l.value.value, size)
                  else Back(l.value.value, size));
    }
    if opcode != MOD && opcode != INS { at := pos; }
    var data, next := CopyLiteralLoop(patch, at);
    return Some(if opcode == INS then Insert(data, next - pos) else Modify(data, next - pos));
  }

  /** One turn of the reference applier. */
  lemma ApplyStep(source: seq<byte>, at: nat, p: seq<byte>)
    requires p != [] && ParseOp(p).Some?
    ensures var op := ParseOp(p).value;
            var to := Move(op, at, |source|);
            ApplyFrom(source, at, p) ==
            if to == None then None else Prepend(Output(op, at, source), ApplyFrom(source, to.value, p[op.size..]))
  {
  }

  /** `apply_patch`: the cursor loop computes the reference result and raises exactly when it is None. */
  method ApplyPatchLoop(source: seq<byte>, patch: seq<byte>) returns (r: Option<seq<byte>>)
    ensures r == ApplyPatch(source, patch)
  {
    hide ParseOp;
    var at: nat, pos: nat, target := 0, 0, [];
    assert patch[0..] == patch;
    PrependTwice([], [], ApplyPatch(source, patch));
    while pos < |patch|
      invariant at <= |source| && pos <= |patch|
      invariant ApplyPatch(source, patch) == Prepend(target, ApplyFrom(source, at, patch[pos..]))
    {
      var op := ReadOp(patch, pos);
      if op == None { return None; }
      ApplyStep(source, at, patch[pos..]);
      var to := Move(op.value, at, |source|);
      if to == None { return None; }
      var out := Output(op.value, at, source);
      PrependTwice(target, out, ApplyFrom(source, to.value, patch[pos..][op.value.size..]));
      assert patch[pos..][op.value.size..] == patch[pos + op.value.size..];
      target := target + out;
      at := to.value;
      pos := pos + op.value.size;
    }
    assert patch[pos..] == [] && target + [] == target;
    return Some(target);
  }

  // ----- the inspector ---------------------------------------------------------------------

  datatype Report = Report(eql: nat, mod: nat, ins: nat, del: nat, bkt: nat, position: int, targetSize: nat)

  /** The report after one more operation, read without looking at any source byte. */
  function Count(r: Report, op: Op): Report {
    match op
    case Equal(n, _) => r.(eql := r.eql + 1, position := r.position + n, targetSize := r.targetSize + n)
    case Delete(n, _) => r.(del := r.del + 1, position := r.position + n)
    case Back(n, _) => r.(bkt := r.bkt + 1, position := r.position - n)
    case Insert(d, _) => r.(ins := r.ins + 1, targetSize := r.targetSize + |d|)
    case Modify(d, _) =>
      r.(mod := r.mod + 1, position := r.position + |d|, targetSize := r.targetSize + |d|)
  }

  function InspectFrom(sourceSize: nat, r: Report, p: seq<byte>): Option<Report>
    decreases |p|
  {
    if p == [] then Some(r)
    else
      match ParseOp(p)
      case None => None
      case Some(op) =>
        var next := Count(r, op);
        if 0 <= next.position <= sourceSize then InspectFrom(sourceSize, next, p[op.size..]) else None
  }

  const NOTHING_READ := Report(0, 0, 0, 0, 0, 0, 0)

  /** `inspect_patch`: the accounting loop. */
  method InspectPatchLoop(sourceSize: nat, patch: seq<byte>) returns (r: Option<Report>)
    ensures r == InspectFrom(sourceSize, NOTHING_READ, patch)
  {
    hide ParseOp;
    var pos: nat, acc := 0, NOTHING_READ;
    assert patch[0..] == patch;
    while pos < |patch|
      invariant pos <= |patch|
      invariant InspectFrom(sourceSize, NOTHING_READ, patch) == InspectFrom(sourceSize, acc, patch[pos..])
    {
      var op := ReadOp(patch, pos);
      if op == None { return None; }
      acc := Count(acc, op.value);
      if acc.position < 0 || acc.position > sourceSize { return None; }
      assert patch[pos..][op.value.size..] == patch[pos + op.value.size..];
      pos := pos + op.value.size;
    }
    assert patch[pos..] == [];
    return Some(acc);
  }

  lemma {:induction false} InspectAgreesFrom(source: seq<byte>, r: Report, p: seq<byte>)
    requires 0 <= r.position <= |source|
    ensures var t := ApplyFrom(source, r.position, p);
            var i := InspectFrom(|source|, r, p);
            && (t.Some? <==> i.Some?)
            && (t.Some? ==> i.value.targetSize == r.targetSize + |t.value|)
    decreases |p|
  {
    hide ParseOp;
    if p != [] && ParseOp(p).Some? {
      var op := ParseOp(p).value;
      var next := Count(r, op);
      if 0 <= next.position <= |source| {
        InspectAgreesFrom(source, next, p[op.size..]);
      }
    }
  }

  /** The inspector accepts exactly the patches the applier accepts, with the same target size. */
  lemma InspectAgrees(source: seq<byte>, patch: seq<byte>)
    ensures var t := ApplyPatch(source, patch);
            var i := InspectFrom(|source|, NOTHING_READ, patch);
            && (t.Some? <==> i.Some?)
            && (t.Some? ==> i.value.targetSize == |t.value|)
  {
    InspectAgreesFrom(source, NOTHING_READ, patch);
  }

  // ----- the generator ---------------------------------------------------------------------

  /** An operation the generator writes; `Back` is never needed. */
  datatype Edit = Keep(n: nat) | Drop(n: nat) | Replace(data: seq<byte>) | Add(data: seq<byte>)

  /** The edits the tool can write: it emits no empty one, and lengths have 32 bits. */
  predicate Encodable(e: Edit) {
    match e
    case Keep(n) => 0 < n <= 0xFFFF_FFFF
    case Drop(n) => 0 < n <= 0xFFFF_FFFF
    case Replace(d) => d != []
    case Add(d) => d != []
  }

  /** `emit_length_op` and `emit_data_op`. */
  function Emit(e: Edit): seq<byte>
    requires Encodable(e)
  {
    match e
    case Keep(n) => [ESC, EQL] + EncodeLength(n).value
    case Drop(n) => [ESC, DEL] + EncodeLength(n).value
    case Replace(d) => [ESC, MOD] + Escape(d)
    case Add(d) => [ESC, INS] + Escape(d)
  }

  predicate AllEncodable(es: seq<Edit>) { forall i :: 0 <= i < |es| ==> Encodable(es[i]) }

  function EmitAll(es: seq<Edit>): seq<byte>
    requires AllEncodable(es)
  {
    if es == [] then [] else Emit(es[0]) + EmitAll(es[1..])
  }

  /** The edit as the applier reads it back, from `size` bytes of patch. */
  function AsOp(e: Edit, size: nat): Op {
    match e
    case Keep(n) => Equal(n, size)
    case Drop(n) => Delete(n, size)
    case Replace(d) => Modify(d, size)
    case Add(d) => Insert(d, size)
  }

  /** What a list of edits appends to the target, with the source cursor at `at`. */
  function ApplyEdits(source: seq<byte>, at: nat, es: seq<Edit>): Option<seq<byte>>
    decreases |es|
  {
    if es == [] then Some([])
    else
      var op := AsOp(es[0], 0);
      var to := Move(op, at, |source|);
      if to == None then None
      else Prepend(Output(op, at, source), ApplyEdits(source, to.value, es[1..]))
  }

  lemma ParseLength(opcode: byte, n: nat, rest: seq<byte>)
    requires (opcode == EQL || opcode == DEL) && 0 < n <= 0xFFFF_FFFF
    ensures var e := [ESC, opcode] + EncodeLength(n).value;
            ParseOp(e + rest) == Some(if opcode == EQL then Equal(n, |e|) else Delete(n, |e|))
  {
    LengthRoundTrip(n, rest);
    var p := [ESC, opcode] + EncodeLength(n).value + rest;
    assert p[2..] == EncodeLength(n).value + rest;
  }

  lemma ParseLiteral(opcode: byte, p: seq<byte>, body: seq<byte>)
    requires (opcode == MOD || opcode == INS) && p == [ESC, opcode] + body
    ensures var l := CopyLiteral(body);
            ParseOp(p) == Some(if opcode == MOD then Modify(l.data, l.size + 2) else Insert(l.data, l.size + 2))
  {
    hide CopyLiteral, DecodeLength;
    assert p[2..] == body;
  }

  lemma ParseData(opcode: byte, data: seq<byte>, rest: seq<byte>)
    requires (opcode == MOD || opcode == INS) && AtBoundary(rest)
    ensures var e := [ESC, opcode] + Escape(data);
            ParseOp(e + rest) == Some(if opcode == MOD then Modify(data, |e|) else Insert(data, |e|))
  {
    hide CopyLiteral, Escape, ParseOp, AtBoundary;
    var body := Escape(data);
    LiteralRoundTrip(data, rest);
    ParseLiteral(opcode, [ESC, opcode] + body + rest, body + rest);
    assert [ESC, opcode] + body + rest == [ESC, opcode] + (body + rest);
  }

  lemma ParseEmitted(e: Edit, rest: seq<byte>)
    requires Encodable(e) && AtBoundary(rest)
    ensures AtBoundary(Emit(e) + rest)
    ensures ParseOp(Emit(e) + rest) == Some(AsOp(e, |Emit(e)|))
    ensures (Emit(e) + rest)[|Emit(e)|..] == rest
  {
    match e {
      case Keep(n) => ParseLength(EQL, n, rest);
      case Drop(n) => ParseLength(DEL, n, rest);
      case Replace(d) => ParseData(MOD, d, rest);
      case Add(d) => ParseData(INS, d, rest);
    }
  }

  lemma ApplyEmittedStep(source: seq<byte>, at: nat, e: Edit, rest: seq<byte>)
    requires Encodable(e) && AtBoundary(rest)
    ensures var op := AsOp(e, 0);
            var to := Move(op, at, |source|);
            ApplyFrom(source, at, Emit(e) + rest) ==
            if to == None then None else Prepend(Output(op, at, source), ApplyFrom(source, to.value, rest))
  {
    hide ParseOp, Emit, ApplyFrom, AtBoundary, Encodable;
    ParseEmitted(e, rest);
    ApplyStep(source, at, Emit(e) + rest);
  }

  /** Reading the bytes of a list of edits back performs exactly those edits. */
  lemma {:induction false} ApplyEmitted(source: seq<byte>, at: nat, es: seq<Edit>)
    requires AllEncodable(es)
    ensures AtBoundary(EmitAll(es))
    ensures ApplyFrom(source, at, EmitAll(es)) == ApplyEdits(source, at, es)
    decreases |es|
  {
    hide ParseOp, Emit, Move, Output;
    if es != [] {
      var to := Move(AsOp(es[0], 0), at, |source|);
      ApplyEmitted(source, if to.Some? then to.value else at, es[1..]);
      ParseEmitted(es[0], EmitAll(es[1..]));
      ApplyEmittedStep(source, at, es[0], EmitAll(es[1..]));
    }
  }

  datatype Block = Block(a: nat, b: nat, size: nat)

  /** `_emit_gap` on the unmatched bytes `outgoing` of the source and `incoming` of the target. */
  function GapEdits(outgoing: seq<byte>, incoming: seq<byte>): seq<Edit> {
    var common := Min(|outgoing|, |incoming|);
    (if common > 0 then [Replace(incoming[..common])] else []) +
    (if |incoming| > common then [Add(incoming[common..])] else []) +
    (if |outgoing| > common then [Drop(|outgoing| - common)] else [])
  }

  /** What one matching block adds when the cursors stand at `s` and `t`. */
  function BlockEdits(source: seq<byte>, target: seq<byte>, block: Block, s: nat, t: nat): seq<Edit>
    requires s <= block.a <= |source| && t <= block.b <= |target|
  {
    GapEdits(source[s..block.a], target[t..block.b]) + (if block.size > 0 then [Keep(block.size)] else [])
  }

  /** Truly matching blocks in increasing order from (`s`, `t`), closed by the empty block at both ends. */
  predicate Matching(source: seq<byte>, target: seq<byte>, blocks: seq<Block>, s: nat, t: nat)
    decreases |blocks|
  {
    && blocks != []
    && s <= blocks[0].a && t <= blocks[0].b
    && blocks[0].a + blocks[0].size <= |source| && blocks[0].b + blocks[0].size <= |target|
    && source[blocks[0].a..blocks[0].a + blocks[0].size] == target[blocks[0].b..blocks[0].b + blocks[0].size]
    && if |blocks| == 1 then blocks[0] == Block(|source|, |target|, 0)
       else Matching(source, target, blocks[1..], blocks[0].a + blocks[0].size, blocks[0].b + blocks[0].size)
  }

  /** The edits of the whole list of blocks. */
  function Edits(source: seq<byte>, target: seq<byte>, blocks: seq<Block>, s: nat, t: nat): seq<Edit>
    requires Matching(source, target, blocks, s, t)
    decreases |blocks|
  {
    BlockEdits(source, target, blocks[0], s, t) +
    if |blocks| == 1 then []
    else Edits(source, target, blocks[1..], blocks[0].a + blocks[0].size, blocks[0].b + blocks[0].size)
  }

  datatype Stats = Stats(equal: nat, modified: nat, inserted: nat, deleted: nat, operations: nat)

  function CountEdit(e: Edit, st: Stats): Stats {
    var st := st.(operations := st.operations + 1);
    match e
    case Keep(n) => st.(equal := st.equal + n)
    case Drop(n) => st.(deleted := st.deleted + n)
    case Replace(d) => st.(modified := st.modified + |d|)
    case Add(d) => st.(inserted := st.inserted + |d|)
  }

  function CountAll(es: seq<Edit>): Stats {
    if es == [] then Stats(0, 0, 0, 0, 0) else CountEdit(es[0], CountAll(es[1..]))
  }

  /** The source bytes and the target bytes a list of edits accounts for. */
  predicate Accounts(es: seq<Edit>, sourceBytes: int, targetBytes: int) {
    var st := CountAll(es);
    st.equal + st.modified + st.deleted == sourceBytes && st.equal + st.modified + st.inserted == targetBytes
  }

  lemma EditStep(source: seq<byte>, at: nat, e: Edit, es: seq<Edit>)
    ensures var op := AsOp(e, 0);
            var to := Move(op, at, |source|);
            ApplyEdits(source, at, [e] + es) ==
            if to == None then None else Prepend(Output(op, at, source), ApplyEdits(source, to.value, es))
    ensures CountAll([e] + es) == CountEdit(e, CountAll(es))
  {
    assert ([e] + es)[1..] == es;
  }

  /** An optional edit in front of others. */
  lemma MaybeStep(source: seq<byte>, at: nat, wanted: bool, e: Edit, to: nat, out: seq<byte>, es: seq<Edit>)
    requires if wanted then Move(AsOp(e, 0), at, |source|) == Some(to) && Output(AsOp(e, 0), at, source) == out
             else to == at && out == []
    ensures var all := (if wanted then [e] else []) + es;
            ApplyEdits(source, at, all) == Prepend(out, ApplyEdits(source, to, es))
  {
    if wanted {
      EditStep(source, at, e, es);
    } else {
      assert [] + es == es;
      PrependTwice([], [], ApplyEdits(source, to, es));
    }
  }

  /** A gap turns the source bytes into the target bytes, whatever follows. */
  lemma GapApplies(source: seq<byte>, at: nat, to: nat, incoming: seq<byte>, es: seq<Edit>)
    requires at <= to <= |source|
    ensures ApplyEdits(source, at, GapEdits(source[at..to], incoming) + es) ==
              Prepend(incoming, ApplyEdits(source, to, es))
  {
    hide ApplyEdits;
    var n := to - at;
    var common := Min(n, |incoming|);
    var head, tail := incoming[..common], incoming[common..];
    var i := if |incoming| > common then [Add(tail)] else [];
    var d := if n > common then [Drop(n - common)] else [];
    var m := if common > 0 then [Replace(head)] else [];
    assert GapEdits(source[at..to], incoming) + es == m + (i + (d + es));
    MaybeStep(source, at + common, n > common, Drop(n - common), to, [], es);
    MaybeStep(source, at + common, |incoming| > common, Add(tail), at + common, tail, d + es);
    MaybeStep(source, at, common > 0, Replace(head), at + common, head, i + (d + es));
    PrependTwice(tail, [], ApplyEdits(source, to, es));
    PrependTwice(head, tail + [], ApplyEdits(source, to, es));
    assert head + (tail + []) == incoming;
  }

  function Sum(x: Stats, y: Stats): Stats {
    Stats(x.equal + y.equal, x.modified + y.modified, x.inserted + y.inserted, x.deleted + y.deleted,
          x.operations + y.operations)
  }

  const NOTHING_COUNTED := Stats(0, 0, 0, 0, 0)

  lemma CountStep(e: Edit, es: seq<Edit>)
    ensures CountAll([]) == NOTHING_COUNTED
    ensures CountAll([e] + es) == CountEdit(e, CountAll(es))
  {
    hide CountEdit;
    assert ([e] + es)[1..] == es;
  }

  lemma CountEditSum(e: Edit, x: Stats, y: Stats)
    ensures CountEdit(e, Sum(x, y)) == Sum(CountEdit(e, x), y) && Sum(NOTHING_COUNTED, y) == y
  {
  }

  lemma {:induction false} CountBoth(a: seq<Edit>, b: seq<Edit>)
    ensures CountAll(a + b) == Sum(CountAll(a), CountAll(b))
    decreases |a|
  {
    hide CountAll, CountEdit, Sum;
    if a == [] {
      assert a + b == b;
      CountStep(Keep(0), []);
      CountEditSum(Keep(0), NOTHING_COUNTED, CountAll(b));
    } else {
      var e, rest := a[0], a[1..];
      CountBoth(rest, b);
      CountStep(e, rest + b);
      CountStep(e, rest);
      CountEditSum(e, CountAll(rest), CountAll(b));
      assert a + b == [e] + (rest + b) && a == [e] + rest;
    }
  }

  lemma AccountBoth(a: seq<Edit>, b: seq<Edit>, x: int, y: int, x': int, y': int)
    requires Accounts(a, x, y) && Accounts(b, x', y')
    ensures Accounts(a + b, x + x', y + y')
  {
    hide CountAll;
    CountBoth(a, b);
  }

  /** An optional edit accounts for `x` source bytes and `y` target bytes. */
  lemma AccountMaybe(wanted: bool, e: Edit, x: nat, y: nat)
    requires if wanted then Uses(e) == (x, y) else x == 0 && y == 0
    ensures Accounts(if wanted then [e] else [], x, y)
  {
    hide CountAll;
    CountStep(e, []);
    assert [e] + [] == [e];
  }

  /** The source bytes and the target bytes of one edit. */
  function Uses(e: Edit): (nat, nat) {
    match e
    case Keep(n) => (n, n)
    case Drop(n) => (n, 0)
    case Replace(d) => (|d|, |d|)
    case Add(d) => (0, |d|)
  }

  lemma BlockAccounts(source: seq<byte>, target: seq<byte>, block: Block, s: nat, t: nat)
    requires s <= block.a <= |source| && t <= block.b <= |target|
    ensures Accounts(BlockEdits(source, target, block, s, t), block.a + block.size - s, block.b + block.size - t)
  {
    hide Accounts;
    var n, k := block.a - s, block.b - t;
    var common := Min(n, k);
    var incoming := target[t..block.b];
    var m := if common > 0 then [Replace(incoming[..common])] else [];
    var i := if k > common then [Add(incoming[common..])] else [];
    var d := if n > common then [Drop(n - common)] else [];
    var e := if block.size > 0 then [Keep(block.size)] else [];
    assert BlockEdits(source, target, block, s, t) == m + i + d + e;
    AccountMaybe(common > 0, Replace(incoming[..common]), common, common);
    AccountMaybe(k > common, Add(incoming[common..]), 0, k - common);
    AccountMaybe(n > common, Drop(n - common), n - common, 0);
    AccountMaybe(block.size > 0, Keep(block.size), block.size, block.size);
    AccountBoth(m, i, common, common, 0, k - common);
    AccountBoth(m + i, d, common, k, n - common, 0);
    AccountBoth(m + i + d, e, n, k, block.size, block.size);
  }

  lemma {:induction false} EditsAccount(source: seq<byte>, target: seq<byte>, blocks: seq<Block>, s: nat, t: nat)
    requires Matching(source, target, blocks, s, t)
    ensures Accounts(Edits(source, target, blocks, s, t), |source| - s, |target| - t)
    decreases |blocks|
  {
    hide BlockEdits, Accounts;
    var block := blocks[0];
    var s', t' := block.a + block.size, block.b + block.size;
    var first := BlockEdits(source, target, block, s, t);
    BlockAccounts(source, target, block, s, t);
    if |blocks| > 1 {
      EditsAccount(source, target, blocks[1..], s', t');
      AccountBoth(first, Edits(source, target, blocks[1..], s', t'), s' - s, t' - t, |source| - s', |target| - t');
    } else {
      assert first + [] == first;
    }
  }

  lemma BlockApplies(source: seq<byte>, target: seq<byte>, block: Block, s: nat, t: nat, rest: seq<Edit>)
    requires s <= block.a && t <= block.b
    requires block.a + block.size <= |source| && block.b + block.size <= |target|
    requires source[block.a..block.a + block.size] == target[block.b..block.b + block.size]
    ensures ApplyEdits(source, s, BlockEdits(source, target, block, s, t) + rest)
         == Prepend(target[t..block.b + block.size], ApplyEdits(source, block.a + block.size, rest))
  {
    hide ApplyEdits, GapEdits;
    var s', t' := block.a + block.size, block.b + block.size;
    var gap := GapEdits(source[s..block.a], target[t..block.b]);
    var same := if block.size > 0 then [Keep(block.size)] else [];
    assert gap + same + rest == gap + (same + rest);
    MaybeStep(source, block.a, block.size > 0, Keep(block.size), s', source[block.a..s'], rest);
    GapApplies(source, s, block.a, target[t..block.b], same + rest);
    PrependTwice(target[t..block.b], source[block.a..s'], ApplyEdits(source, s', rest));
    assert target[t..block.b] + source[block.a..s'] == target[t..t'];
  }

  lemma {:induction false} EditsApply(source: seq<byte>, target: seq<byte>, blocks: seq<Block>, s: nat, t: nat)
    requires Matching(source, target, blocks, s, t)
    ensures ApplyEdits(source, s, Edits(source, target, blocks, s, t)) == Some(target[t..])
    decreases |blocks|
  {
    hide BlockEdits, ApplyEdits;
    NoEdits(source, |source|);
    var s', t' := blocks[0].a + blocks[0].size, blocks[0].b + blocks[0].size;
    var rest := if |blocks| == 1 then [] else Edits(source, target, blocks[1..], s', t');
    if |blocks| > 1 { EditsApply(source, target, blocks[1..], s', t'); }
    BlockApplies(source, target, blocks[0], s, t, rest);
    assert target[t..t'] + target[t'..] == target[t..];
  }

  lemma NoEdits(source: seq<byte>, at: nat)
    ensures ApplyEdits(source, at, []) == Some([])
  {
  }

  lemma BlockEncodable(source: seq<byte>, target: seq<byte>, block: Block, s: nat, t: nat)
    requires s <= block.a <= |source| && t <= block.b <= |target| && |source| <= 0xFFFF_FFFF && block.size <= |source|
    ensures AllEncodable(BlockEdits(source, target, block, s, t))
  {
  }

  lemma {:induction false} EditsEncodable(source: seq<byte>, target: seq<byte>, blocks: seq<Block>, s: nat, t: nat)
    requires |source| <= 0xFFFF_FFFF && Matching(source, target, blocks, s, t)
    ensures AllEncodable(Edits(source, target, blocks, s, t))
    decreases |blocks|
  {
    hide BlockEdits, Encodable;
    BlockEncodable(source, target, blocks[0], s, t);
    if |blocks| > 1 {
      EditsEncodable(source, target, blocks[1..], blocks[0].a + blocks[0].size, blocks[0].b + blocks[0].size);
    }
  }

  /** Applying the generated patch to the source gives the target, and every byte is accounted for. */
  lemma RoundTrip(source: seq<byte>, target: seq<byte>, blocks: seq<Block>)
    requires Matching(source, target, blocks, 0, 0)
    ensures var es := Edits(source, target, blocks, 0, 0);
            && (|source| <= 0xFFFF_FFFF ==> AllEncodable(es))
            && (AllEncodable(es) ==> ApplyPatch(source, EmitAll(es)) == Some(target))
            && Accounts(es, |source|, |target|)
  {
    var es := Edits(source, target, blocks, 0, 0);
    if |source| <= 0xFFFF_FFFF {
      EditsEncodable(source, target, blocks, 0, 0);
    }
    EditsAccount(source, target, blocks, 0, 0);
    EditsApply(source, target, blocks, 0, 0);
    if AllEncodable(es) {
      ApplyEmitted(source, 0, es);
    }
    assert target[0..] == target;
  }

  // ----- the generator's loop --------------------------------------------------------------

  datatype Emitted = Emitted(patch: seq<byte>, stats: Stats)

  /** What the tool has written once it has emitted exactly `es`. */
  ghost predicate Wrote(r: Emitted, es: seq<Edit>) {
    AllEncodable(es) && r == Emitted(EmitAll(es), CountAll(es))
  }

  lemma Associative(x: seq<byte>, y: seq<byte>, z: seq<byte>)
    ensures x + (y + z) == x + y + z
  {
  }

  lemma {:induction false} EmitBoth(a: seq<Edit>, b: seq<Edit>)
    requires AllEncodable(a) && AllEncodable(b)
    ensures EmitAll(a + b) == EmitAll(a) + EmitAll(b)
  {
    hide Emit;
    if a == [] {
      assert a + b == b;
    } else {
      EmitBoth(a[1..], b);
      assert (a + b)[0] == a[0] && (a + b)[1..] == a[1..] + b;
      Associative(Emit(a[0]), EmitAll(a[1..]), EmitAll(b));
    }
  }

  /** One more edit: the bytes are appended and its counter goes up. */
  method EmitOne(r: Emitted, e: Edit, ghost es: seq<Edit>) returns (r': Option<Emitted>)
    requires Wrote(r, es)
    ensures r'.Some? <==> Encodable(e)
    ensures r'.Some? ==> Wrote(r'.value, es + [e])
  {
    hide Emit;
    if !Encodable(e) { return None; }
    CountBoth(es, [e]);
    EmitBoth(es, [e]);
    assert EmitAll([e]) == Emit(e);
    return Some(Emitted(r.patch + Emit(e), CountEdit(e, r.stats)));
  }

  method EmitGap(r: Emitted, outgoing: seq<byte>, incoming: seq<byte>, ghost es: seq<Edit>)
    returns (r': Option<Emitted>)
    requires Wrote(r, es)
    ensures r'.Some? <==> AllEncodable(GapEdits(outgoing, incoming))
    ensures r'.Some? ==> Wrote(r'.value, es + GapEdits(outgoing, incoming))
  {
    hide Emit, EmitAll, CountAll;
    var common := Min(|outgoing|, |incoming|);
    r' := Some(r);
    ghost var done := [];
    assert es + done == es;
    if common > 0 {
      r' := EmitOne(r'.value, Replace(incoming[..common]), es + done);
      done := done + [Replace(incoming[..common])];
      assert es + done == es + [Replace(incoming[..common])];
    }
    if |incoming| > common {
      ghost var before := done;
      r' := EmitOne(r'.value, Add(incoming[common..]), es + done);
      done := done + [Add(incoming[common..])];
      assert es + done == es + before + [Add(incoming[common..])];
    }
    assert AllEncodable(done);
    if |outgoing| > common {
      var d := Drop(|outgoing| - common);
      r' := EmitOne(r'.value, d, es + done);
      assert GapEdits(outgoing, incoming) == done + [d] && (done + [d])[|done|] == d;
      assert es + (done + [d]) == es + done + [d];
    } else {
      assert GapEdits(outgoing, incoming) == done;
    }
  }

  lemma SubListEncodable(before: seq<Edit>, part: seq<Edit>, all: seq<Edit>)
    requires before + part <= all
    ensures AllEncodable(all) ==> AllEncodable(part)
  {
    forall i | AllEncodable(all) && 0 <= i < |part| ensures Encodable(part[i]) {
      assert all[|before| + i] == part[i];
    }
  }

  /** The gap before a block, then the block itself. */
  method EmitBlock(r: Emitted, source: seq<byte>, target: seq<byte>, block: Block, s: nat, t: nat, ghost es: seq<Edit>)
    returns (r': Option<Emitted>)
    requires s <= block.a <= |source| && t <= block.b <= |target| && Wrote(r, es)
    ensures var be := BlockEdits(source, target, block, s, t);
            (r'.Some? <==> AllEncodable(be)) && (r'.Some? ==> Wrote(r'.value, es + be))
  {
    hide Emit, EmitAll, CountAll, GapEdits, Wrote;
    ghost var gap := GapEdits(source[s..block.a], target[t..block.b]);
    ghost var be := BlockEdits(source, target, block, s, t);
    SubListEncodable([], gap, be);
    r' := EmitGap(r, source[s..block.a], target[t..block.b], es);
    if r'.Some? && block.size > 0 {
      r' := EmitOne(r'.value, Keep(block.size), es + gap);
      assert be[|gap|] == Keep(block.size);
      assert es + gap + [Keep(block.size)] == es + be;
    } else {
      assert be == gap || !AllEncodable(be);
    }
  }

  lemma EditsUnfold(source: seq<byte>, target: seq<byte>, blocks: seq<Block>, i: nat, s: nat, t: nat)
    requires i <= |blocks| && Matching(source, target, blocks[i..], s, t)
    ensures i < |blocks|
    ensures s <= blocks[i].a <= |source| && t <= blocks[i].b <= |target|
    ensures var s', t' := blocks[i].a + blocks[i].size, blocks[i].b + blocks[i].size;
            && (i + 1 < |blocks| ==> Matching(source, target, blocks[i + 1..], s', t'))
            && Edits(source, target, blocks[i..], s, t)
            == BlockEdits(source, target, blocks[i], s, t) +
               if i + 1 < |blocks| then Edits(source, target, blocks[i + 1..], s', t') else []
  {
    hide BlockEdits;
    assert blocks[i..][1..] == blocks[i + 1..];
  }

  /** `generate_patch` over the blocks its matcher reports; None when a run does not fit 32 bits. */
  method GeneratePatch(source: seq<byte>, target: seq<byte>, blocks: seq<Block>) returns (r: Option<Emitted>)
    requires Matching(source, target, blocks, 0, 0)
    ensures r.Some? <==> AllEncodable(Edits(source, target, blocks, 0, 0))
    ensures r.Some? ==> Wrote(r.value, Edits(source, target, blocks, 0, 0))
  {
    hide Wrote, BlockEdits, AllEncodable, Edits, Matching;
    assert blocks[0..] == blocks;
    EditsUnfold(source, target, blocks, 0, 0, 0);
    var s: nat, t: nat, i := 0, 0, 0;
    ghost var es := [];
    ghost var all := Edits(source, target, blocks, 0, 0);
    var acc := Emitted([], Stats(0, 0, 0, 0, 0));
    WroteNothing();
    while i < |blocks|
      invariant 0 <= i <= |blocks|
      invariant i < |blocks| ==> Matching(source, target, blocks[i..], s, t)
      invariant Wrote(acc, es)
      invariant all == es + if i < |blocks| then Edits(source, target, blocks[i..], s, t) else []
    {
      EditsUnfold(source, target, blocks, i, s, t);
      ghost var be := BlockEdits(source, target, blocks[i], s, t);
      var g := EmitBlock(acc, source, target, blocks[i], s, t, es);
      SubListEncodable(es, be, all);
      if g == None { return None; }
      acc, es := g.value, es + be;
      s, t, i := blocks[i].a + blocks[i].size, blocks[i].b + blocks[i].size, i + 1;
    }
    assert es + [] == es;
    WroteEncodable(acc, es);
    return Some(acc);
  }

  lemma WroteNothing()
    ensures Wrote(Emitted([], Stats(0, 0, 0, 0, 0)), [])
  {
  }

  lemma WroteEncodable(r: Emitted, es: seq<Edit>)
    requires Wrote(r, es)
    ensures AllEncodable(es)
  {
  }
}
