/** The byte bitmap behind the frame allocator, and the bit sequence it stands for. */
module Bitmaps {

  function Mask(k: nat): bv8
    requires k < 8
  {
    (1 as bv8) << k
  }

  predicate GetBit(b: bv8, k: nat)
    requires k < 8
  {
    b & Mask(k) != 0
  }

  function SetBit(b: bv8, k: nat, value: bool): bv8
    requires k < 8
  {
    if value then b | Mask(k) else b & !Mask(k)
  }

  lemma MaskLaw(b: bv8, m: bv8, n: bv8, value: bool)
    requires m != 0 && (m == n || m & n == 0)
    ensures ((if value then b | m else b & !m) & n != 0) == if m == n then value else b & n != 0
  {
  }

  lemma MasksApart(j: nat, k: nat)
    requires j < 8 && k < 8
    ensures Mask(j) != 0
    ensures j != k ==> Mask(j) & Mask(k) == 0 && Mask(j) != Mask(k)
  {
    assert Mask(0) == 1 && Mask(1) == 2 && Mask(2) == 4 && Mask(3) == 8;
    assert Mask(4) == 16 && Mask(5) == 32 && Mask(6) == 64 && Mask(7) == 128;
  }

  /** Setting a bit sets that bit and no other. */
  lemma SetBitThenGet(b: bv8, k: nat, value: bool, j: nat)
    requires j < 8 && k < 8
    ensures GetBit(SetBit(b, k, value), j) == if j == k then value else GetBit(b, j)
  {
    hide Mask;
    MasksApart(k, j);
    MaskLaw(b, Mask(k), Mask(j), value);
  }

  /** The bits of a byte sequence, least significant bit of the first byte first. */
  ghost function Bits(bytes: seq<bv8>): (bits: seq<bool>)
    ensures |bits| == 8 * |bytes|
  {
    seq(8 * |bytes|, i requires 0 <= i < 8 * |bytes| => GetBit(bytes[i / 8], i % 8))
  }

  lemma BitsUpdate(bytes: seq<bv8>, index: nat, value: bool)
    requires index < 8 * |bytes|
    ensures Bits(bytes[index / 8 := SetBit(bytes[index / 8], index % 8, value)]) == Bits(bytes)[index := value]
  {
    var updated := bytes[index / 8 := SetBit(bytes[index / 8], index % 8, value)];
    forall i | 0 <= i < 8 * |bytes| ensures Bits(updated)[i] == Bits(bytes)[index := value][i] {
      if i / 8 == index / 8 {
        SetBitThenGet(bytes[i / 8], index % 8, value, i % 8);
      }
    }
  }

  class Bitmap {
    const inner: array<bv8>
    ghost var bits: seq<bool>

    ghost predicate Valid()
      reads this, inner
    {
      bits == Bits(inner[..])
    }

    /** `new` clears the buffer it is given. */
    constructor (size: nat)
      ensures Valid() && fresh(inner) && inner.Length == size
      ensures |bits| == 8 * size && forall i :: 0 <= i < |bits| ==> !bits[i]
    {
      inner := new bv8[size](_ => 0);
      new;
      bits := Bits(inner[..]);
      forall i | 0 <= i < |bits| ensures !bits[i] {
        assert inner[..][i / 8] == 0;
      }
    }

    /** Number of bytes, not of bits. */
    function Len(): nat {
      inner.Length
    }

    method Get(index: nat) returns (value: bool)
      requires Valid() && index < 8 * inner.Length
      ensures value == bits[index]
    {
      value := GetBit(inner[index / 8], index % 8);
    }

    method Set(index: nat, value: bool)
      requires Valid() && index < 8 * inner.Length
      modifies this, inner
      ensures Valid() && bits == old(bits)[index := value]
    {
      BitsUpdate(inner[..], index, value);
      inner[index / 8] := SetBit(inner[index / 8], index % 8, value);
      bits := bits[index := value];
    }
  }
}
