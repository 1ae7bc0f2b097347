/** Consistent overhead byte stuffing: application/protocol/cobs.c and its copy in the gateway. */
module Cobs {
  import opened Bytes

  const FULL_BLOCK := 254

  /** Encodes `input` behind the bytes `pending` of the block that is still open. */
  function EncodeFrom(pending: seq<byte>, input: seq<byte>): seq<byte>
    requires |pending| < FULL_BLOCK
    decreases |input|
  {
    if input == [] then [|pending| + 1] + pending
    else if input[0] == 0 then [|pending| + 1] + pending + EncodeFrom([], input[1..])
    else
      var block := pending + [input[0]];
      if |block| == FULL_BLOCK then [FULL_BLOCK + 1] + block + EncodeFrom([], input[1..])
      else EncodeFrom(block, input[1..])
  }

  function Encode(input: seq<byte>): seq<byte> { EncodeFrom([], input) }

  /** The bytes of the first block, with the zero it stands for unless it is full or the last one. */
  function Block(encoded: seq<byte>): seq<byte>
    requires 0 < |encoded| && 0 < encoded[0] <= |encoded|
  {
    encoded[1..encoded[0]] + (if encoded[0] != 0xFF && encoded[0] < |encoded| then [0] else [])
  }

  function DecodeFrom(encoded: seq<byte>): Option<seq<byte>>
    decreases |encoded|
  {
    if encoded == [] then Some([])
    else if encoded[0] == 0 || encoded[0] > |encoded| then None
    else Prepend(Block(encoded), DecodeFrom(encoded[encoded[0]..]))
  }

  function Decode(encoded: seq<byte>): Option<seq<byte>> { if encoded == [] then None else DecodeFrom(encoded) }

  lemma DecodeBlock(block: seq<byte>, rest: seq<byte>)
    requires |block| <= FULL_BLOCK
    ensures DecodeFrom([|block| + 1] + block + rest) ==
            Prepend(block + (if |block| < FULL_BLOCK && rest != [] then [0] else []), DecodeFrom(rest))
  {
    var e := [|block| + 1] + block + rest;
    assert e[1..e[0]] == block && e[e[0]..] == rest;
  }

  lemma {:induction false} RoundTripFrom(pending: seq<byte>, input: seq<byte>)
    requires |pending| < FULL_BLOCK
    ensures EncodeFrom(pending, input) != [] && DecodeFrom(EncodeFrom(pending, input)) == Some(pending + input)
    decreases |input|
  {
    hide EncodeFrom, DecodeFrom;
    LengthFrom(pending, input);
    if input == [] {
      EncodeEnd(pending);
      DecodeBlock(pending, []);
      DecodeEnd([]);
      assert [|pending| + 1] + pending + [] == [|pending| + 1] + pending;
      assert pending + [] + [] == pending + input;
    } else {
      var rest := input[1..];
      EncodeStep(pending, input);
      LengthFrom([], rest);
      if input[0] == 0 {
        RoundTripFrom([], rest);
        DecodeBlock(pending, EncodeFrom([], rest));
        assert pending + [0] + ([] + rest) == pending + input;
      } else {
        var block := pending + [input[0]];
        assert pending + input == block + rest;
        if |block| == FULL_BLOCK {
          RoundTripFrom([], rest);
          DecodeBlock(block, EncodeFrom([], rest));
          assert block + [] + ([] + rest) == block + rest;
        } else {
          RoundTripFrom(block, rest);
        }
      }
    }
  }

  /** Decoding undoes encoding. */
  lemma RoundTrip(input: seq<byte>)
    ensures Decode(Encode(input)) == Some(input)
  {
    RoundTripFrom([], input);
    assert [] + input == input;
  }

  ghost predicate NoZero(s: seq<byte>) { forall i :: 0 <= i < |s| ==> s[i] != 0 }

  lemma {:induction false} EncodedFrom(pending: seq<byte>, input: seq<byte>)
    requires |pending| < FULL_BLOCK && NoZero(pending)
    ensures NoZero(EncodeFrom(pending, input))
    decreases |input|
  {
    if input != [] {
      if input[0] == 0 {
        EncodedFrom([], input[1..]);
      } else if |pending| + 1 == FULL_BLOCK {
        EncodedFrom([], input[1..]);
      } else {
        EncodedFrom(pending + [input[0]], input[1..]);
      }
    }
  }

  lemma {:induction false} LengthFrom(pending: seq<byte>, input: seq<byte>)
    requires |pending| < FULL_BLOCK
    ensures var n := |pending| + |input|; n + 1 <= |EncodeFrom(pending, input)| <= n + n / FULL_BLOCK + 1
    decreases |input|
  {
    if input != [] {
      if input[0] == 0 || |pending| + 1 == FULL_BLOCK {
        LengthFrom([], input[1..]);
      } else {
        LengthFrom(pending + [input[0]], input[1..]);
      }
    }
  }

  /** An encoding holds no zero and costs at most one byte in 254 and one more. */
  lemma EncodedShape(input: seq<byte>)
    ensures NoZero(Encode(input))
    ensures |input| + 1 <= |Encode(input)| <= |input| + |input| / FULL_BLOCK + 1
  {
    EncodedFrom([], input);
    LengthFrom([], input);
  }

  // ----- the loops -------------------------------------------------------------------------

  /** Cobs_Encode: the code byte of a block is written when the block closes. */
  method EncodeInto(input: seq<byte>, output: array<byte>) returns (ok: bool, length: nat)
    modifies output
    ensures ok <==> |Encode(input)| <= output.Length
    ensures ok ==> length == |Encode(input)| && output[..length] == Encode(input)
  {
    hide EncodeFrom, Open;
    var capacity := output.Length;
    var read, write, codeIndex, code := 0, 1, 0, 1;
    AtLeast([], input);
    if capacity == 0 { return false, 0; }
    ghost var done: seq<byte>, pending: seq<byte> := [], [];
    OpenAtStart(output);
    assert input[0..] == input;
    assert [] + EncodeFrom([], input) == EncodeFrom([], input);
    while read < |input|
      invariant 0 <= read <= |input| && codeIndex < write <= capacity && |done| == codeIndex
      invariant code == |pending| + 1 == write - codeIndex < 0xFF && Open(output, codeIndex, write, done, pending)
      invariant Encode(input) == done + EncodeFrom(pending, input[read..])
    {
      ghost var rest := input[read..];
      EncodeStep(pending, rest);
      AtLeast(pending, rest);
      AtLeast([], rest[1..]);
      assert rest[1..] == input[read + 1..];
      if input[read] == 0 {
        CloseBlock(output, codeIndex, write, code, done, pending);
        Regroup(done, [code] + pending, EncodeFrom([], rest[1..]));
        if write >= capacity { return false, 0; }
        done, pending := done + ([Code(pending)] + pending), [];
        code, codeIndex, write, read := 1, write, write + 1, read + 1;
      } else {
        if write >= capacity { return false, 0; }
        AppendByte(output, codeIndex, write, input[read], done, pending);
        pending := pending + [input[read]];
        write, read, code := write + 1, read + 1, code + 1;
        if code == 0xFF {
          CloseBlock(output, codeIndex, write, code, done, pending);
          Regroup(done, [code] + pending, EncodeFrom([], rest[1..]));
          if write >= capacity { return false, 0; }
          done, pending := done + ([Code(pending)] + pending), [];
          code, codeIndex, write := 1, write, write + 1;
        }
      }
    }
    EncodeEnd(pending);
    assert input[read..] == [];
    CloseBlock(output, codeIndex, write, code, done, pending);
    return true, write;
  }

  lemma AtLeast(pending: seq<byte>, input: seq<byte>)
    requires |pending| < FULL_BLOCK
    ensures |EncodeFrom(pending, input)| > |pending| + |input|
  {
    LengthFrom(pending, input);
  }

  lemma OpenAtStart(output: array<byte>)
    requires output.Length > 0
    ensures Open(output, 0, 1, [], [])
  {
  }

  method AppendByte(output: array<byte>, codeIndex: nat, write: nat, b: byte, ghost done: seq<byte>,
                    ghost pending: seq<byte>)
    requires Open(output, codeIndex, write, done, pending) && write < output.Length
    modifies output
    ensures Open(output, codeIndex, write + 1, done, pending + [b])
  {
    output[write] := b;
    assert output[codeIndex + 1..write + 1] == output[codeIndex + 1..write] + [b];
  }

  /** The code byte that closes a block. */
  function Code(pending: seq<byte>): byte
    requires |pending| <= FULL_BLOCK
  {
    |pending| + 1
  }

  /** `done` is written, a place for the code byte is left, and `pending` is the block that is still open. */
  ghost predicate Open(output: array<byte>, codeIndex: nat, write: nat, done: seq<byte>, pending: seq<byte>)
    reads output
  {
    && codeIndex < write <= output.Length && |done| == codeIndex && |pending| == write - codeIndex - 1
    && output[..codeIndex] == done && output[codeIndex + 1..write] == pending
  }

  method CloseBlock(output: array<byte>, codeIndex: nat, write: nat, code: byte, ghost done: seq<byte>,
                    ghost pending: seq<byte>)
    requires Open(output, codeIndex, write, done, pending)
    modifies output
    ensures output[..write] == done + ([code] + pending)
    ensures write < output.Length ==> Open(output, write, write + 1, done + ([code] + pending), [])
  {
    output[codeIndex] := code;
    assert output[..write] == output[..codeIndex] + ([output[codeIndex]] + output[codeIndex + 1..write]);
  }

  lemma Regroup(a: seq<byte>, b: seq<byte>, c: seq<byte>)
    ensures a + (b + c) == (a + b) + c
  {
  }

  lemma EncodeStep(pending: seq<byte>, input: seq<byte>)
    requires |pending| < FULL_BLOCK && input != []
    ensures EncodeFrom(pending, input) ==
            if input[0] == 0 then [|pending| + 1] + pending + EncodeFrom([], input[1..])
            else if |pending| + 1 == FULL_BLOCK then
              [|pending| + 2] + (pending + [input[0]]) + EncodeFrom([], input[1..])
            else EncodeFrom(pending + [input[0]], input[1..])
  {
  }

  lemma EncodeEnd(pending: seq<byte>)
    requires |pending| < FULL_BLOCK
    ensures EncodeFrom(pending, []) == [|pending| + 1] + pending
  {
  }

  /** The copy loop inside Cobs_Decode. */
  method CopyBlock(input: seq<byte>, read: nat, count: nat, output: array<byte>, write: nat)
    requires read + count <= |input| && write + count <= output.Length
    modifies output
    ensures output[..write + count] == old(output[..write]) + input[read..read + count]
  {
    for i := 0 to count
      invariant output[..write + i] == old(output[..write]) + input[read..read + i]
    {
      output[write + i] := input[read + i];
    }
  }

  /** Cobs_Decode */
  method DecodeInto(input: seq<byte>, output: array<byte>) returns (ok: bool, length: nat)
    modifies output
    ensures ok <==> Decode(input).Some? && |Decode(input).value| <= output.Length
    ensures ok ==> length == |Decode(input).value| && output[..length] == Decode(input).value
  {
    hide DecodeFrom;
    var read, write := 0, 0;
    if input == [] { return false, 0; }
    assert input[0..] == input && output[..0] == [];
    PrependTwice([], [], DecodeFrom(input));
    while read < |input|
      invariant 0 <= read <= |input| && 0 <= write <= output.Length
      invariant Decode(input) == Prepend(output[..write], DecodeFrom(input[read..]))
    {
      ghost var rest := input[read..];
      DecodeStep(rest);
      var code := input[read];
      read := read + 1;
      if code == 0 { return false, 0; }
      var count := code - 1;
      if count > |input| - read { return false, 0; }
      if count > output.Length - write { return false, 0; }
      ghost var done, from := output[..write], read;
      CopyBlock(input, read, count, output, write);
      write, read := write + count, read + count;
      assert input[from..read] == rest[1..code];
      assert input[read..] == rest[code..];
      if code != 0xFF && read < |input| {
        if write >= output.Length { return false, 0; }
        output[write] := 0;
        write := write + 1;
      }
      assert output[..write] == done + Block(rest);
      PrependTwice(done, Block(rest), DecodeFrom(input[read..]));
    }
    DecodeEnd(input[read..]);
    return true, write;
  }

  lemma DecodeStep(encoded: seq<byte>)
    requires encoded != []
    ensures DecodeFrom(encoded) ==
            if encoded[0] == 0 || encoded[0] > |encoded| then None
            else Prepend(Block(encoded), DecodeFrom(encoded[encoded[0]..]))
  {
  }

  lemma DecodeEnd(encoded: seq<byte>)
    ensures encoded == [] ==> DecodeFrom(encoded) == Some([])
  {
  }
}
