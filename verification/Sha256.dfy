/** shared/src/sha256.c: SHA-256 in a stream, against sections 5.1.1 and 6.2.2 of FIPS 180-4. */
module Sha256 {
  import opened Bytes
  import Crc32
  import Residues

  const BLOCK := 64

  /** The eight words of the hash value, and the eight working variables. */
  datatype Hash = Hash(a: bv32, b: bv32, c: bv32, d: bv32, e: bv32, f: bv32, g: bv32, h: bv32)

  const INITIAL :=
    Hash(0x6A09E667, 0xBB67AE85, 0x3C6EF372, 0xA54FF53A, 0x510E527F, 0x9B05688C, 0x1F83D9AB, 0x5BE0CD19)

  function RoundConstant(t: nat): bv32
    requires t < 64
  {
    [0x428A2F98, 0x71374491, 0xB5C0FBCF, 0xE9B5DBA5, 0x3956C25B, 0x59F111F1, 0x923F82A4, 0xAB1C5ED5,
     0xD807AA98, 0x12835B01, 0x243185BE, 0x550C7DC3, 0x72BE5D74, 0x80DEB1FE, 0x9BDC06A7, 0xC19BF174,
     0xE49B69C1, 0xEFBE4786, 0x0FC19DC6, 0x240CA1CC, 0x2DE92C6F, 0x4A7484AA, 0x5CB0A9DC, 0x76F988DA,
     0x983E5152, 0xA831C66D, 0xB00327C8, 0xBF597FC7, 0xC6E00BF3, 0xD5A79147, 0x06CA6351, 0x14292967,
     0x27B70A85, 0x2E1B2138, 0x4D2C6DFC, 0x53380D13, 0x650A7354, 0x766A0ABB, 0x81C2C92E, 0x92722C85,
     0xA2BFE8A1, 0xA81A664B, 0xC24B8B70, 0xC76C51A3, 0xD192E819, 0xD6990624, 0xF40E3585, 0x106AA070,
     0x19A4C116, 0x1E376C08, 0x2748774C, 0x34B0BCB5, 0x391C0CB3, 0x4ED8AA4A, 0x5B9CCA4F, 0x682E6FF3,
     0x748F82EE, 0x78A5636F, 0x84C87814, 0x8CC70208, 0x90BEFFFA, 0xA4506CEB, 0xBEF9A3F7, 0xC67178F2][t]
  }

  // ----- the compression function ----------------------------------------------------------

  function RotateRight(x: bv32, n: nat): bv32
    requires 0 < n < 32
  {
    (x >> n) | (x << (32 - n))
  }

  function SmallSigma0(x: bv32): bv32 { RotateRight(x, 7) ^ RotateRight(x, 18) ^ (x >> 3) }
  function SmallSigma1(x: bv32): bv32 { RotateRight(x, 17) ^ RotateRight(x, 19) ^ (x >> 10) }
  function BigSigma0(x: bv32): bv32 { RotateRight(x, 2) ^ RotateRight(x, 13) ^ RotateRight(x, 22) }
  function BigSigma1(x: bv32): bv32 { RotateRight(x, 6) ^ RotateRight(x, 11) ^ RotateRight(x, 25) }
  function Choice(x: bv32, y: bv32, z: bv32): bv32 { (x & y) ^ (!x & z) }
  function Majority(x: bv32, y: bv32, z: bv32): bv32 { (x & y) ^ (x & z) ^ (y & z) }
  function Plus(x: bv32, y: bv32): bv32 { x + y }

  type Block = b: seq<byte> | |b| == BLOCK witness Fill(0, BLOCK)

  /** Word `t` of the message schedule. */
  function Schedule(m: Block, t: nat): bv32 {
    if t < 16 then BigEndianWord(m[4 * t..4 * t + 4]) as bv32
    else Plus(Plus(Plus(Schedule(m, t - 16), SmallSigma0(Schedule(m, t - 15))), Schedule(m, t - 7)),
              SmallSigma1(Schedule(m, t - 2)))
  }

  function Round(v: Hash, k: bv32, w: bv32): Hash {
    var t1 := Plus(Plus(Plus(Plus(v.h, BigSigma1(v.e)), Choice(v.e, v.f, v.g)), k), w);
    var t2 := Plus(BigSigma0(v.a), Majority(v.a, v.b, v.c));
    Hash(Plus(t1, t2), v.a, v.b, v.c, Plus(v.d, t1), v.e, v.f, v.g)
  }

  /** The working variables after `t` rounds. */
  function Rounds(v: Hash, m: Block, t: nat): Hash
    requires t <= 64
  {
    if t == 0 then v else Round(Rounds(v, m, t - 1), RoundConstant(t - 1), Schedule(m, t - 1))
  }

  function Compress(s: Hash, m: Block): Hash {
    var v := Rounds(s, m, 64);
    Hash(Plus(s.a, v.a), Plus(s.b, v.b), Plus(s.c, v.c), Plus(s.d, v.d),
         Plus(s.e, v.e), Plus(s.f, v.f), Plus(s.g, v.g), Plus(s.h, v.h))
  }

  lemma ScheduleNext(m: Block, t: nat)
    requires t >= 16
    ensures Schedule(m, t) ==
            Plus(Plus(Plus(Schedule(m, t - 16), SmallSigma0(Schedule(m, t - 15))), Schedule(m, t - 7)),
                 SmallSigma1(Schedule(m, t - 2)))
  {
    hide Plus, SmallSigma0, SmallSigma1, BigEndianWord;
  }

  lemma ScheduleFirst(m: Block, t: nat)
    requires t < 16
    ensures Schedule(m, t) == BigEndianWord(m[4 * t..4 * t + 4]) as bv32
  {
    hide Plus, SmallSigma0, SmallSigma1, BigEndianWord;
  }

  lemma RoundsNext(v: Hash, m: Block, t: nat)
    requires t < 64
    ensures Rounds(v, m, t + 1) == Round(Rounds(v, m, t), RoundConstant(t), Schedule(m, t))
    ensures Rounds(v, m, 0) == v
  {
    hide Round, RoundConstant, Schedule;
  }

  /** The schedule, word by word. */
  method Expand(m: Block) returns (w: array<bv32>)
    ensures fresh(w) && w.Length == 64 && forall k :: 0 <= k < 64 ==> w[k] == Schedule(m, k)
  {
    hide Schedule, Plus, SmallSigma0, SmallSigma1, BigEndianWord;
    w := new bv32[64];
    for i := 0 to 16
      invariant forall k :: 0 <= k < i ==> w[k] == Schedule(m, k)
    {
      ScheduleFirst(m, i);
      w[i] := BigEndianWord(m[4 * i..4 * i + 4]) as bv32;
    }
    for i := 16 to 64
      invariant forall k :: 0 <= k < i ==> w[k] == Schedule(m, k)
    {
      ScheduleNext(m, i);
      var s0, s1 := SmallSigma0(w[i - 15]), SmallSigma1(w[i - 2]);
      w[i] := Plus(Plus(Plus(w[i - 16], s0), w[i - 7]), s1);
    }
  }

  /** Transform */
  method Transform(s: Hash, m: Block) returns (r: Hash)
    ensures r == Compress(s, m)
  {
    hide Schedule, Rounds, RoundConstant, Plus, BigSigma0, BigSigma1, Choice, Majority;
    var w := Expand(m);
    var a, b, c, d, e, f, g, h := s.a, s.b, s.c, s.d, s.e, s.f, s.g, s.h;
    RoundsNext(s, m, 0);
    for i := 0 to 64
      invariant Hash(a, b, c, d, e, f, g, h) == Rounds(s, m, i)
      invariant forall k :: 0 <= k < 64 ==> w[k] == Schedule(m, k)
    {
      RoundsNext(s, m, i);
      var temp1 := Plus(Plus(Plus(Plus(h, BigSigma1(e)), Choice(e, f, g)), RoundConstant(i)), w[i]);
      var temp2 := Plus(BigSigma0(a), Majority(a, b, c));
      h, g, f, e := g, f, e, Plus(d, temp1);
      d, c, b, a := c, b, a, Plus(temp1, temp2);
    }
    return Hash(Plus(s.a, a), Plus(s.b, b), Plus(s.c, c), Plus(s.d, d), Plus(s.e, e), Plus(s.f, f), Plus(s.g, g),
                Plus(s.h, h));
  }

  // ----- the message -----------------------------------------------------------------------

  /** Block after block, from the front. */
  function Fold(s: Hash, data: seq<byte>): Hash
    requires |data| % BLOCK == 0
    decreases |data|
  {
    if data == [] then s else Compress(Fold(s, data[..|data| - BLOCK]), data[|data| - BLOCK..])
  }

  lemma FoldBlock(s: Hash, data: seq<byte>, m: Block)
    requires |data| % BLOCK == 0
    ensures Fold(s, data + m) == Compress(Fold(s, data), m)
  {
    hide Compress;
    var t := data + m;
    assert t[..|t| - BLOCK] == data && t[|t| - BLOCK..] == m;
  }

  const LENGTH_LIMIT: nat := 0x1_0000_0000_0000_0000

  /** The eight bytes of the bit length, in a 64-bit register. */
  function LengthField(n: nat): (r: seq<byte>)
    ensures |r| == 8
  {
    ToBigEndian(8 * n % LENGTH_LIMIT, 8)
  }

  /** Below 2^61 bytes the register holds the bit length that section 5.1.1 asks for. */
  lemma LengthFieldExact(n: nat)
    requires n < 0x2000_0000_0000_0000
    ensures LengthField(n) == ToBigEndian(8 * n, 8)
  {
    hide ToBigEndian;
    assert 8 * n % LENGTH_LIMIT == 8 * n;
  }

  /** A one bit, as few zero bits as possible, and the length, up to a whole number of blocks. */
  function Padding(n: nat): (r: seq<byte>)
    ensures (n + |r|) % BLOCK == 0
    ensures |r| <= BLOCK + 8
  {
    PaddingSize(n);
    [0x80] + Fill(0, (119 - n % BLOCK) % BLOCK) + LengthField(n)
  }

  lemma PaddingSize(n: nat)
    ensures (n + 1 + (119 - n % BLOCK) % BLOCK + 8) % BLOCK == 0
  {
  }

  function HashBytes(v: Hash): (r: seq<byte>)
    ensures |r| == 32
  {
    ToBigEndian(v.a as int, 4) + ToBigEndian(v.b as int, 4) + ToBigEndian(v.c as int, 4) + ToBigEndian(v.d as int, 4) +
    ToBigEndian(v.e as int, 4) + ToBigEndian(v.f as int, 4) + ToBigEndian(v.g as int, 4) + ToBigEndian(v.h as int, 4)
  }

  /** SHA-256 of a message: pad, then fold the compression function. */
  function Digest(message: seq<byte>): (r: seq<byte>)
    ensures |r| == 32
  {
    HashBytes(Fold(INITIAL, message + Padding(|message|)))
  }

  // ----- the stream ------------------------------------------------------------------------

  /** What a context says about the message so far. */
  ghost predicate Holds(state: Hash, pending: seq<byte>, message: seq<byte>) {
    && |pending| == |message| % BLOCK
    && message[|message| - |pending|..] == pending
    && state == Fold(INITIAL, message[..|message| - |pending|])
  }

  /** More bytes that do not fill the block. */
  lemma Joined(state: Hash, pending: seq<byte>, message: seq<byte>, more: seq<byte>)
    requires Holds(state, pending, message) && |pending| + |more| < BLOCK
    ensures Holds(state, pending + more, message + more)
  {
    hide Fold;
    var m := message + more;
    assert m[..|m| - |pending + more|] == message[..|message| - |pending|];
    assert m[|m| - |pending + more|..] == pending + more;
  }

  /** More bytes that do. */
  lemma Filled(state: Hash, pending: seq<byte>, message: seq<byte>, more: seq<byte>)
    requires Holds(state, pending, message) && |pending| + |more| == BLOCK
    ensures Holds(Compress(state, pending + more), [], message + more)
  {
    hide Fold, Compress;
    var full := message[..|message| - |pending|];
    FoldBlock(INITIAL, full, pending + more);
    assert message + more == full + (pending + more);
    assert (message + more)[..|message + more|] == message + more;
  }

  lemma PaddingOne(n: nat)
    requires n % BLOCK < 56
    ensures Padding(n) == [0x80] + Fill(0, 55 - n % BLOCK) + LengthField(n)
  {
    hide ToBigEndian, LengthField;
  }

  lemma PaddingTwo(n: nat)
    requires n % BLOCK >= 56
    ensures Padding(n) == ([0x80] + Fill(0, 63 - n % BLOCK)) + (Fill(0, 56) + LengthField(n))
  {
    hide ToBigEndian, LengthField;
    assert Fill(0, 119 - n % BLOCK) == Fill(0, 63 - n % BLOCK) + Fill(0, 56);
  }

  lemma DigestIs(state: Hash, message: seq<byte>)
    requires Holds(state, [], message + Padding(|message|))
    ensures HashBytes(state) == Digest(message)
  {
    hide Fold, HashBytes, Padding;
    var m := message + Padding(|message|);
    assert m[..|m|] == m;
  }

  lemma HoldsLength(state: Hash, pending: seq<byte>, message: seq<byte>)
    requires Holds(state, pending, message)
    ensures |pending| == |message| % BLOCK
  {
    hide Fold;
  }

  lemma BitLength(n: nat)
    ensures n % LENGTH_LIMIT * 8 % LENGTH_LIMIT == 8 * n % LENGTH_LIMIT
  {
    Residues.FactorMod(n, 8, LENGTH_LIMIT);
  }

  lemma LastDigit(n: nat, count: nat)
    requires count > 0
    ensures ToBigEndian(n, count) == ToBigEndian(n / 0x100, count - 1) + [n % 0x100]
  {
  }

  lemma NoDigits(n: nat)
    ensures ToBigEndian(n, 0) == []
  {
  }

  class Context {
    var state: Hash
    var total: nat
    const buffer: array<byte>
    var length: nat

    ghost predicate Absorbed(message: seq<byte>)
      reads this, buffer
    {
      && buffer.Length == BLOCK && length < BLOCK && total == |message| % LENGTH_LIMIT
      && Holds(state, buffer[..length], message)
    }

    /** Sha256_Init */
    constructor ()
      ensures Absorbed([]) && fresh(buffer)
    {
      state, total, length := INITIAL, 0, 0;
      buffer := new byte[BLOCK](_ => 0);
    }

    /** Sha256_Update */
    method Update(data: seq<byte>, ghost message: seq<byte>)
      requires Absorbed(message) && |data| <= 0xFFFF_FFFF
      modifies this, buffer
      ensures Absorbed(message + data)
    {
      hide Holds, Compress;
      total := (total + |data|) % LENGTH_LIMIT;
      Totals(|message|, |data|);
      var done := 0;
      assert message + data[..0] == message;
      while done < |data|
        invariant 0 <= done <= |data| && length < BLOCK && total == |message + data| % LENGTH_LIMIT
        invariant Holds(state, buffer[..length], message + data[..done])
      {
        var chunk := Min(BLOCK - length, |data| - done);
        var input := data[done..done + chunk];
        ghost var pending, sofar := buffer[..length], message + data[..done];
        CopyIn(length, input);
        assert sofar + input == message + data[..done + chunk];
        done := done + chunk;
        if length + chunk == BLOCK {
          Filled(state, pending, sofar, input);
          state := Transform(state, buffer[..]);
          length := 0;
          assert buffer[..0] == [];
        } else {
          Joined(state, pending, sofar, input);
          length := length + chunk;
        }
      }
      assert data[..done] == data;
    }

    /** Sets the buffer from `at` up to `end` to zero. */
    method ZeroFill(at: nat, end: nat)
      requires buffer.Length == BLOCK && at <= end <= BLOCK
      modifies buffer
      ensures buffer[..end] == old(buffer[..at]) + Fill(0, end - at)
    {
      var i := at;
      while i < end
        invariant at <= i <= end && buffer[..i] == old(buffer[..at]) + Fill(0, i - at)
      {
        buffer[i] := 0;
        i := i + 1;
        assert Fill(0, i - at) == Fill(0, i - 1 - at) + [0];
      }
    }

    /** The bit length, least significant byte first from the end. */
    method PutLength(bits: nat)
      requires buffer.Length == BLOCK && bits < LENGTH_LIMIT
      modifies buffer
      ensures buffer[..] == old(buffer[..56]) + ToBigEndian(bits, 8)
    {
      hide ToBigEndian;
      var rest := bits;
      ghost var front, all := buffer[..56], ToBigEndian(bits, 8);
      assert all + buffer[64..64] == all;
      for i := 0 to 8
        invariant buffer[..56] == front && all == ToBigEndian(rest, 8 - i) + buffer[64 - i..64]
      {
        LastDigit(rest, 8 - i);
        ghost var high, low := ToBigEndian(rest / 0x100, 7 - i), buffer[64 - i..64];
        PutByte(63 - i, rest % 0x100);
        assert high + [buffer[63 - i]] + low == high + ([buffer[63 - i]] + low);
        rest := rest / 0x100;
      }
      NoDigits(rest);
      assert [] + buffer[56..64] == buffer[56..64];
      assert buffer[..] == buffer[..56] + buffer[56..64];
    }

    method PutByte(at: nat, b: byte)
      requires buffer.Length == BLOCK && 56 <= at < BLOCK
      modifies buffer
      ensures buffer[..56] == old(buffer[..56]) && buffer[at] == b
      ensures buffer[at..64] == [b] + old(buffer[at + 1..64])
    {
      buffer[at] := b;
    }

    /** Fills the block with zeros and the length, and transforms it. */
    method Close(at: nat, bits: nat, ghost pending: seq<byte>, ghost mark: seq<byte>, ghost sofar: seq<byte>)
      requires buffer.Length == BLOCK && at <= 56 && bits < LENGTH_LIMIT
      requires buffer[..at] == pending + mark && Holds(state, pending, sofar)
      modifies this`state, buffer
      ensures Holds(state, [], sofar + (mark + Fill(0, 56 - at) + ToBigEndian(bits, 8)))
    {
      hide Holds, Compress, ToBigEndian;
      ghost var rest := mark + Fill(0, 56 - at) + ToBigEndian(bits, 8);
      ZeroFill(at, 56);
      PutLength(bits);
      assert buffer[..] == pending + rest;
      Filled(state, pending, sofar, rest);
      state := Transform(state, buffer[..]);
    }

    /** Transforms a block that has no room for the length. */
    method Spill(at: nat, ghost pending: seq<byte>, ghost sofar: seq<byte>)
      requires buffer.Length == BLOCK && at <= BLOCK
      requires buffer[..at] == pending + [0x80] && Holds(state, pending, sofar)
      modifies this`state, buffer
      ensures Holds(state, [], sofar + ([0x80] + Fill(0, BLOCK - at)))
    {
      hide Holds, Compress;
      ghost var tail := [0x80] + Fill(0, BLOCK - at);
      ZeroFill(at, BLOCK);
      assert buffer[..] == buffer[..BLOCK] == pending + tail;
      Filled(state, pending, sofar, tail);
      state := Transform(state, buffer[..]);
    }

    /** Sha256_Final */
    method Final(ghost message: seq<byte>) returns (digest: seq<byte>)
      requires Absorbed(message)
      modifies this, buffer
      ensures digest == Digest(message)
    {
      hide Holds, ToBigEndian, HashBytes, Padding, Digest;
      var bits := total * 8 % LENGTH_LIMIT;
      BitLength(|message|);
      ghost var pending := buffer[..length];
      HoldsLength(state, pending, message);
      buffer[length] := 0x80;
      var at := length + 1;
      assert buffer[..at] == pending + [0x80];
      if at > 56 {
        PaddingTwo(|message|);
        ghost var tail := [0x80] + Fill(0, BLOCK - at);
        ghost var last := Fill(0, 56) + LengthField(|message|);
        Spill(at, pending, message);
        Close(0, bits, [], [], message + tail);
        assert [] + Fill(0, 56) + LengthField(|message|) == last;
        assert message + tail + last == message + (tail + last);
      } else {
        PaddingOne(|message|);
        Close(at, bits, pending, [0x80], message);
      }
      DigestIs(state, message);
      length := 0;
      return HashBytes(state);
    }

    method CopyIn(at: nat, input: seq<byte>)
      requires buffer.Length == BLOCK && at + |input| <= BLOCK
      modifies buffer
      ensures buffer[..at + |input|] == old(buffer[..at]) + input
      ensures at + |input| == BLOCK ==> buffer[..] == old(buffer[..at]) + input
    {
      for i := 0 to |input|
        invariant buffer[..at + i] == old(buffer[..at]) + input[..i]
      {
        buffer[at + i] := input[i];
      }
      assert input[..|input|] == input;
      assert at + |input| == BLOCK ==> buffer[..] == buffer[..at + |input|];
    }
  }

  lemma Totals(n: nat, k: nat)
    ensures (n % LENGTH_LIMIT + k) % LENGTH_LIMIT == (n + k) % LENGTH_LIMIT
  {
  }

  lemma {:induction false} ConcatLast(chunks: seq<seq<byte>>, last: seq<byte>)
    ensures Crc32.Concat(chunks + [last]) == Crc32.Concat(chunks) + last
    decreases |chunks|
  {
    var all := chunks + [last];
    if chunks == [] {
      assert all[1..] == [];
    } else {
      assert all[1..] == chunks[1..] + [last];
      ConcatLast(chunks[1..], last);
    }
  }

  /** Any split of a message into chunks gives the digest of the whole. */
  method DigestOfChunks(chunks: seq<seq<byte>>) returns (digest: seq<byte>)
    requires forall i :: 0 <= i < |chunks| ==> |chunks[i]| <= 0xFFFF_FFFF
    ensures digest == Digest(Crc32.Concat(chunks))
  {
    hide Digest, Holds;
    var context := new Context();
    for i := 0 to |chunks|
      invariant fresh(context) && fresh(context.buffer) && context.Absorbed(Crc32.Concat(chunks[..i]))
    {
      ConcatLast(chunks[..i], chunks[i]);
      assert chunks[..i + 1] == chunks[..i] + [chunks[i]];
      context.Update(chunks[i], Crc32.Concat(chunks[..i]));
    }
    assert chunks[..|chunks|] == chunks;
    digest := context.Final(Crc32.Concat(chunks));
  }

  // ----- the verifier's payload pass -------------------------------------------------------

  const IO_BUFFER := 256

  /** HashAndCrcPayload: one pass over the payload, 256 bytes at a time. */
  method HashAndCrcPayload(header: seq<byte>, payload: seq<byte>)
    returns (signedDigest: seq<byte>, payloadDigest: seq<byte>, crc: word)
    requires |header| <= 0xFFFF_FFFF
    ensures signedDigest == Digest(header + payload) && payloadDigest == Digest(payload)
    ensures crc == Crc32.Checksum(payload)
  {
    hide Digest, Holds, Crc32.Update, Crc32.Xor;
    var signed := new Context();
    var plain := new Context();
    signed.Update(header, []);
    assert [] + header == header + payload[..0] && payload[..0] == [];
    Crc32.UpdateNothing(Crc32.INITIAL);
    var offset, running := 0, Crc32.INITIAL;
    while offset < |payload|
      invariant 0 <= offset <= |payload| && fresh(signed) && fresh(plain) && fresh(signed.buffer) && fresh(plain.buffer)
      invariant signed != plain && signed.buffer != plain.buffer
      invariant signed.Absorbed(header + payload[..offset]) && plain.Absorbed(payload[..offset])
      invariant running == Crc32.Update(Crc32.INITIAL, payload[..offset])
    {
      var chunk := Min(|payload| - offset, IO_BUFFER);
      var buffer := payload[offset..offset + chunk];
      ghost var sofar := payload[..offset];
      assert sofar + buffer == payload[..offset + chunk];
      assert header + sofar + buffer == header + (sofar + buffer);
      signed.Update(buffer, header + sofar);
      plain.Update(buffer, sofar);
      Crc32.UpdateConcat(Crc32.INITIAL, sofar, buffer);
      running := Crc32.UpdateLoop(running, buffer);
      offset := offset + chunk;
    }
    assert payload[..offset] == payload;
    signedDigest := signed.Final(header + payload);
    payloadDigest := plain.Final(payload);
    crc := Crc32.Xor(running, Crc32.FINAL_XOR) as int;
  }
}
