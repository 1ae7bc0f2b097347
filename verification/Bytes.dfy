/** Machine words, flash bytes and the small result types shared by every module. */
module Bytes {

  type byte = x: int | 0 <= x < 0x100
  type half = x: int | 0 <= x < 0x1_0000
  type word = x: int | 0 <= x < 0x1_0000_0000

  const ERASED: byte := 0xFF

  datatype Option<+T> = None | Some(value: T)

  /** `n` copies of `b`. */
  function Fill(b: byte, n: nat): (r: seq<byte>)
    ensures |r| == n
    ensures forall i :: 0 <= i < n ==> r[i] == b
  {
    seq(n, _ => b)
  }

  function Min(a: int, b: int): int { if a <= b then a else b }

  function Low(w: word): half { w % 0x1_0000 }
  function High(w: word): half { w / 0x1_0000 }

  /** The bytes of a word as a little-endian machine stores it. */
  function LittleEndian(w: word): (r: seq<byte>)
    ensures |r| == 4
  {
    [w % 0x100, w / 0x100 % 0x100, w / 0x1_0000 % 0x100, w / 0x100_0000]
  }

  /** The word stored in four bytes. */
  function Word(b: seq<byte>): word
    requires |b| == 4
  {
    b[0] as int + b[1] as int * 0x100 + b[2] as int * 0x1_0000 + b[3] as int * 0x100_0000
  }

  /** The `count` low bytes of `n`, most significant first. */
  function ToBigEndian(n: nat, count: nat): (r: seq<byte>)
    ensures |r| == count
  {
    if count == 0 then [] else ToBigEndian(n / 0x100, count - 1) + [n % 0x100]
  }

  function BigEndianWord(b: seq<byte>): word
    requires |b| == 4
  {
    b[0] as int * 0x100_0000 + b[1] as int * 0x1_0000 + b[2] as int * 0x100 + b[3] as int
  }

  /** The number spelled by bytes, the most significant one first. */
  function FromBigEndian(s: seq<byte>): nat {
    if s == [] then 0 else FromBigEndian(s[..|s| - 1]) * 0x100 + s[|s| - 1]
  }

  function WordBytes(ws: seq<word>): (r: seq<byte>)
    ensures |r| == 4 * |ws|
  {
    if ws == [] then [] else WordBytes(ws[..|ws| - 1]) + LittleEndian(ws[|ws| - 1])
  }

  /** `rest` with `front` put before it. */
  function Prepend(front: seq<byte>, rest: Option<seq<byte>>): Option<seq<byte>> {
    match rest
    case None => None
    case Some(t) => Some(front + t)
  }

  lemma PrependTwice(a: seq<byte>, b: seq<byte>, rest: Option<seq<byte>>)
    ensures Prepend(a, Prepend(b, rest)) == Prepend(a + b, rest)
    ensures Prepend([], rest) == rest
  {
    if rest.Some? {
      assert a + (b + rest.value) == a + b + rest.value;
      assert [] + rest.value == rest.value;
    }
  }
}
