/** The packed bitmap of bitmap.cpp: one bit per page frame, the most significant bit of a byte first. */
module Bitmaps {

  /** 0b10000000 >> bitIndex, one place at a time. */
  function Selector(bitIndex: nat): bv8 {
    if bitIndex == 0 then 0x80 else Selector(bitIndex - 1) >> 1
  }

  predicate ByteBit(byte: bv8, bitIndex: nat) {
    byte & Selector(bitIndex) > 0
  }

  /** `Buffer[byteIndex] &= ~bitIndexer; if (value) Buffer[byteIndex] |= bitIndexer;` */
  function ByteWith(byte: bv8, bitIndex: nat, value: bool): bv8 {
    if value then (byte & !Selector(bitIndex)) | Selector(bitIndex) else byte & !Selector(bitIndex)
  }

  predicate BitAt(bytes: seq<bv8>, index: nat)
    requires index / 8 < |bytes|
  {
    ByteBit(bytes[index / 8], index % 8)
  }

  function WithBit(bytes: seq<bv8>, index: nat, value: bool): seq<bv8>
    requires index / 8 < |bytes|
  {
    bytes[index / 8 := ByteWith(bytes[index / 8], index % 8, value)]
  }

  /** The abstract content: bit k of the result is page k. */
  function Unpack(bytes: seq<bv8>, n: nat): (bits: seq<bool>)
    requires n <= 8 * |bytes|
    ensures |bits| == n && forall k :: 0 <= k < n ==> bits[k] == BitAt(bytes, k)
  {
    seq(n, k requires 0 <= k < n => BitAt(bytes, k))
  }

  lemma ByteWithChangesOneBit(byte: bv8, i: nat, value: bool, j: nat)
    requires i < 8 && j < 8
    ensures ByteBit(ByteWith(byte, i, value), j) == if i == j then value else ByteBit(byte, j)
  {
    SelectorValue(i);
    SelectorValue(j);
  }

  lemma SelectorValue(i: nat)
    requires i < 8
    ensures Selector(i) == [0x80 as bv8, 0x40, 0x20, 0x10, 0x08, 0x04, 0x02, 0x01][i]
  {
    assert Selector(2) == 0x20;
    assert Selector(4) == 0x08;
    assert Selector(6) == 0x02;
  }

  /** Bit k is in byte k / 8, and the first bit of a byte is its most significant one. */
  lemma MostSignificantFirst(bytes: seq<bv8>, index: nat)
    requires index / 8 < |bytes|
    ensures BitAt(bytes, index) <==>
      bytes[index / 8] & [0x80 as bv8, 0x40, 0x20, 0x10, 0x08, 0x04, 0x02, 0x01][index % 8] != 0
  {
    SelectorValue(index % 8);
  }

  /** Packed `Set` changes exactly one abstract bit. */
  lemma SetChangesOneBit(bytes: seq<bv8>, index: nat, value: bool, n: nat)
    requires index < n <= 8 * |bytes|
    ensures Unpack(WithBit(bytes, index, value), n) == Unpack(bytes, n)[index := value]
  {
    var after := WithBit(bytes, index, value);
    forall k | 0 <= k < n
      ensures BitAt(after, k) == if k == index then value else BitAt(bytes, k)
    {
      ByteWithChangesOneBit(bytes[index / 8], index % 8, value, k % 8);
    }
  }

  /**
   * The bound of bitmap.cpp lines 10 and 21 is `index > Size * 8`, so it lets exactly one index
   * through that lies outside the `Size` bytes of the buffer.
   */
  lemma GuardAdmitsOnePastTheEnd(size: nat, index: nat)
    ensures (index <= size * 8 && index / 8 >= size) <==> index == size * 8
  {
  }

  class Bitmap {
    var Size: nat
    // The memory at `Buffer`: the Size bytes of the bitmap and what follows them.
    var Buffer: array<bv8>

    ghost predicate Valid()
      reads this
    {
      Size < Buffer.Length
    }

    /** Every bit that `Get` and `Set` can reach, including the one just past the buffer. */
    ghost function Bits(): (bits: seq<bool>)
      reads this, Buffer
      requires Valid()
      ensures |bits| == Size * 8 + 1
    {
      Unpack(Buffer[..], Size * 8 + 1)
    }

    constructor (size: nat, buffer: array<bv8>)
      requires size < buffer.Length
      ensures Valid() && Size == size && Buffer == buffer
    {
      Size, Buffer := size, buffer;
    }

    method Get(index: nat) returns (bit: bool)
      requires Valid()
      ensures bit == (index <= Size * 8 && Bits()[index])
    {
      if index > Size * 8 {
        return false;
      }
      var byteIndex := index / 8;
      return Buffer[byteIndex] & Selector(index % 8) > 0;
    }

    method Set(index: nat, value: bool) returns (done: bool)
      requires Valid()
      modifies Buffer
      ensures Valid() && done == (index <= Size * 8)
      ensures Bits() == if done then old(Bits())[index := value] else old(Bits())
    {
      if index > Size * 8 {
        return false;
      }
      ghost var before := Buffer[..];
      UpdateByte(index / 8, index % 8, value);
      SetChangesOneBit(before, index, value, Size * 8 + 1);
      return true;
    }

    /** The two masked writes of lines 25 to 28. */
    method UpdateByte(byteIndex: nat, bitIndex: nat, value: bool)
      requires byteIndex < Buffer.Length
      modifies Buffer
      ensures Buffer[..] == old(Buffer[..])[byteIndex := ByteWith(old(Buffer[byteIndex]), bitIndex, value)]
    {
      Buffer[byteIndex] := Buffer[byteIndex] & !Selector(bitIndex);
      if value {
        Buffer[byteIndex] := Buffer[byteIndex] | Selector(bitIndex);
      }
    }
  }
}
