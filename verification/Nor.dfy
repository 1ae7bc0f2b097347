/**
 * NOR flash as the storage drivers present it: erasing sets every byte of a sector to 0xFF,
 * programming only clears bits, and a write succeeds exactly when the range lies in the region
 * and every byte can be reached by clearing bits (spi_flash.c refuses the others up front).
 */
module Nor {
  import opened Bytes

  function And(x: byte, y: byte): byte { ((x as bv8) & (y as bv8)) as byte }

  predicate Programmable(region: seq<byte>, offset: nat, data: seq<byte>) {
    && offset + |data| <= |region|
    && forall i :: 0 <= i < |data| ==> And(region[offset + i], data[i]) == data[i]
  }

  /** The region with `data` stored at `offset`. */
  function Store(region: seq<byte>, offset: nat, data: seq<byte>): (r: seq<byte>)
    requires offset + |data| <= |region|
    ensures |r| == |region|
    ensures r[offset..offset + |data|] == data
  {
    region[..offset] + data + region[offset + |data|..]
  }

  /** The region with `n` bytes from `offset` erased. */
  function Erase(region: seq<byte>, offset: nat, n: nat): (r: seq<byte>)
    requires offset + n <= |region|
    ensures |r| == |region|
  {
    Store(region, offset, Fill(ERASED, n))
  }

  predicate IsErased(region: seq<byte>, from: nat, to: nat)
    requires from <= to <= |region|
  {
    forall i :: from <= i < to ==> region[i] == ERASED
  }

  lemma AndErased(y: byte)
    ensures And(ERASED, y) == y
  {
    assert 0xFF as bv8 & (y as bv8) == y as bv8;
  }

  /** An erased range takes any data. */
  lemma ErasedProgrammable(region: seq<byte>, offset: nat, data: seq<byte>)
    requires offset + |data| <= |region| && IsErased(region, offset, offset + |data|)
    ensures Programmable(region, offset, data)
  {
    forall i | 0 <= i < |data| ensures And(region[offset + i], data[i]) == data[i] {
      AndErased(data[i]);
    }
  }

  /** The region after programming: bits are only ever cleared. */
  function Program(region: seq<byte>, offset: nat, data: seq<byte>): (r: seq<byte>)
    requires offset + |data| <= |region|
    ensures |r| == |region|
  {
    Store(region, offset, seq(|data|, i requires 0 <= i < |data| => And(region[offset + i], data[i])))
  }

  /** `data` followed by erased bytes up to `size`. */
  function Pad(data: seq<byte>, size: nat): (r: seq<byte>)
    requires |data| <= size
    ensures |r| == size
  {
    data + Fill(ERASED, size - |data|)
  }

  lemma ProgramErased(region: seq<byte>, offset: nat, data: seq<byte>)
    requires offset + |data| <= |region| && IsErased(region, offset, offset + |data|)
    ensures Program(region, offset, data) == Store(region, offset, data)
  {
    var masked := seq(|data|, i requires 0 <= i < |data| => And(region[offset + i], data[i]));
    forall i | 0 <= i < |data| ensures masked[i] == data[i] { AndErased(data[i]); }
    assert masked == data;
  }

  /** Programming the next `n` bytes of `data` after its first `k`, in a block erased before. */
  lemma ProgramNext(region: seq<byte>, offset: nat, size: nat, data: seq<byte>, k: nat, n: nat)
    requires offset + size <= |region| && k + n <= |data| <= size
    ensures Program(Store(region, offset, Pad(data[..k], size)), offset + k, data[k..k + n])
         == Store(region, offset, Pad(data[..k + n], size))
  {
    hide Program, And, Store, Pad;
    var block, next := Pad(data[..k], size), data[k..k + n];
    var before := Store(region, offset, block);
    assert IsErased(before, offset + k, offset + k + n) by { PadIsErased(region, offset, size, data[..k]); }
    ProgramErased(before, offset + k, next);
    StoreInside(region, offset, block, k, next);
    PadGrows(data, size, k, n);
  }

  lemma PadIsErased(region: seq<byte>, offset: nat, size: nat, data: seq<byte>)
    requires offset + size <= |region| && |data| <= size
    ensures IsErased(Store(region, offset, Pad(data, size)), offset + |data|, offset + size)
  {
    hide Store;
    var r := Store(region, offset, Pad(data, size));
    forall i | offset + |data| <= i < offset + size ensures r[i] == ERASED {
      assert r[i] == r[offset..offset + size][i - offset];
    }
  }

  lemma StoreInside(region: seq<byte>, offset: nat, block: seq<byte>, k: nat, data: seq<byte>)
    requires offset + |block| <= |region| && k + |data| <= |block|
    ensures Store(Store(region, offset, block), offset + k, data) == Store(region, offset, Store(block, k, data))
  {
    var x, y := Store(Store(region, offset, block), offset + k, data), Store(region, offset, Store(block, k, data));
    forall i | 0 <= i < |region| ensures x[i] == y[i] { }
  }

  lemma PadGrows(data: seq<byte>, size: nat, k: nat, n: nat)
    requires k + n <= |data| <= size
    ensures Store(Pad(data[..k], size), k, data[k..k + n]) == Pad(data[..k + n], size)
  {
    var x, y := Store(Pad(data[..k], size), k, data[k..k + n]), Pad(data[..k + n], size);
    forall i | 0 <= i < size ensures x[i] == y[i] { }
  }

  lemma StoreElsewhere(region: seq<byte>, offset: nat, data: seq<byte>)
    requires offset + |data| <= |region|
    ensures var r := Store(region, offset, data);
            r[..offset] == region[..offset] && r[offset + |data|..] == region[offset + |data|..]
  {
  }
}
