/**
 * The bit reader of the DEFLATE decoder: bytes are taken from memory into a 32-bit buffer, least significant bit
 * first (RFC 1951, section 3.1.1). The abstract value is a position in the stream of bits that memory holds.
 */
module BitStreams {
  import opened BitOps

  type Byte = x: nat | x < 256

  /** What the decoder reads from; the source checks no end, so every address has a byte. */
  type Memory = nat -> Byte

  function BitAt(m: Memory, p: nat): (b: nat)
    ensures b <= 1
  {
    BitOf(m(p / 8), p % 8)
  }

  /** The `n` bits from `p`, the first one least significant. */
  function Window(m: Memory, p: nat, n: nat): nat
    decreases n
  {
    if n == 0 then 0 else BitAt(m, p) + 2 * Window(m, p + 1, n - 1)
  }

  /** The `n` bits from `p`, the first one most significant: how Huffman codes are packed. */
  function Code(m: Memory, p: nat, n: nat): nat {
    if n == 0 then 0 else 2 * Code(m, p, n - 1) + BitAt(m, p + n - 1)
  }

  /** The `n` bits from `p` in stream order. */
  function Bits(m: Memory, p: nat, n: nat): (s: seq<nat>)
    ensures |s| == n
  {
    if n == 0 then [] else Bits(m, p, n - 1) + [BitAt(m, p + n - 1)]
  }

  lemma {:induction false} WindowBound(m: Memory, p: nat, n: nat)
    ensures Window(m, p, n) < Pow2(n)
    decreases n
  {
    if n > 0 {
      WindowBound(m, p + 1, n - 1);
    }
  }

  lemma {:induction false} WindowSplit(m: Memory, p: nat, a: nat, b: nat)
    ensures Window(m, p, a + b) == Window(m, p, a) + Shl(Window(m, p + a, b), a)
    decreases a
  {
    if a > 0 {
      WindowSplit(m, p + 1, a - 1, b);
    }
  }

  lemma {:induction false} WindowMask(m: Memory, p: nat, k: nat, n: nat)
    requires n <= k
    ensures Mask(Window(m, p, k), n) == Window(m, p, n)
    ensures Shr(Window(m, p, k), n) == Window(m, p + n, k - n)
    decreases n
  {
    if n > 0 {
      assert Window(m, p, k) / 2 == Window(m, p + 1, k - 1);
      WindowMask(m, p + 1, k - 1, n - 1);
    }
  }

  lemma WindowByte(m: Memory, z: nat)
    ensures Window(m, 8 * z, 8) == m(z)
  {
    WindowOfByte(m, z, 0);
  }

  lemma {:induction false} WindowOfByte(m: Memory, z: nat, i: nat)
    requires i <= 8
    ensures Window(m, 8 * z + i, 8 - i) == Shr(m(z), i)
    decreases 8 - i
  {
    if i == 8 {
      ByteEnds(m(z));
    } else {
      WindowOfByte(m, z, i + 1);
      BitOfShr(m(z), i, 0);
      ShrAdd(m(z), i, 1);
    }
  }

  lemma ByteEnds(b: Byte)
    ensures Shr(b, 8) == 0
  {
    assert Pow2(8) == 256;
    ShrLess(b, 1, 8);
    ShlPow(0, 8);
  }

  /** Reversing a window gives the bits as a code. */
  lemma {:induction false} FlipWindow(m: Memory, p: nat, n: nat)
    ensures Flip(Window(m, p, n), n) == Code(m, p, n)
    decreases n
  {
    if n > 0 {
      FlipWindow(m, p + 1, n - 1);
      CodeFirst(m, p, n);
    }
  }

  lemma {:induction false} CodeFirst(m: Memory, p: nat, n: nat)
    requires n > 0
    ensures Code(m, p, n) == Shl(BitAt(m, p), n - 1) + Code(m, p + 1, n - 1)
  {
    if n > 1 {
      CodeFirst(m, p, n - 1);
    }
  }

  lemma {:induction false} CodeBound(m: Memory, p: nat, n: nat)
    ensures Code(m, p, n) < Pow2(n)
  {
    if n > 0 {
      CodeBound(m, p, n - 1);
    }
  }

  /** The leading `n` bits of a longer code. */
  lemma {:induction false} CodeTop(m: Memory, p: nat, k: nat, n: nat)
    requires n <= k
    ensures Shr(Code(m, p, k), k - n) == Code(m, p, n)
    decreases k
  {
    if n < k {
      CodeTop(m, p, k - 1, n);
    }
  }

  lemma {:induction false} BitsSplit(m: Memory, p: nat, a: nat, b: nat)
    ensures Bits(m, p, a + b) == Bits(m, p, a) + Bits(m, p + a, b)
  {
    if b > 0 {
      BitsSplit(m, p, a, b - 1);
    }
  }

  /** The byte at the read pointer extends the window over the bits in the buffer. */
  lemma FillWindow(m: Memory, p: nat, n: nat, z: nat)
    requires p + n == 8 * z
    ensures Or(Window(m, p, n), Shl(m(z), n)) == Window(m, p, n + 8)
  {
    hide *;
    WindowByte(m, z);
    WindowSplit(m, p, n, 8);
    WindowBound(m, p, n);
    OrAbove(Window(m, p, n), m(z), n);
  }

  /** The buffer never outgrows its 32 bits. */
  lemma BufferFits(m: Memory, p: nat, n: nat)
    requires n <= 32
    ensures Window(m, p, n) < 0x1_0000_0000
  {
    hide *;
    WindowBound(m, p, n);
    PowMonotone(n, 32);
    PowWidth();
  }

  lemma PowWidth()
    ensures Pow2(16) == 0x1_0000 && Pow2(32) == 0x1_0000_0000
  {
    assert Pow2(4) == 0x10 && Pow2(8) == 0x100;
    assert Pow2(12) == 0x1000 && Pow2(16) == 0x1_0000;
    assert Pow2(20) == 0x10_0000 && Pow2(24) == 0x100_0000;
    assert Pow2(28) == 0x1000_0000;
  }

  lemma {:induction false} PowMonotone(m: nat, n: nat)
    requires m <= n
    ensures Pow2(m) <= Pow2(n)
  {
    if m > 0 {
      PowMonotone(m - 1, n - 1);
    }
  }

  class BitReader {
    const memory: Memory
    var zbuffer: nat
    var num_bits: nat
    var code_buffer: nat

    constructor (memory: Memory, zbuffer: nat)
      ensures Valid() && Position() == 8 * zbuffer && this.memory == memory
    {
      this.memory, this.zbuffer, this.num_bits, this.code_buffer := memory, zbuffer, 0, 0;
    }

    /** The stream position of the first bit not yet consumed. */
    ghost function Position(): int
      reads this
    {
      8 * zbuffer - num_bits
    }

    ghost predicate Valid()
      reads this
      ensures Valid() ==> Position() >= 0
    {
      num_bits <= 32 && Position() >= 0 && code_buffer == Window(memory, Position(), num_bits)
    }

    method Get8() returns (b: Byte)
      modifies this`zbuffer
      ensures zbuffer == old(zbuffer) + 1 && b == memory(old(zbuffer))
    {
      b := memory(zbuffer);
      zbuffer := zbuffer + 1;
    }

    /** `_ssfn__fill_bits`: the buffer gets at least 25 bits and the stream stays where it was. */
    method FillBits()
      requires Valid() && num_bits <= 24
      modifies this
      ensures Valid() && Position() == old(Position()) && 25 <= num_bits
    {
      FillByte();
      while num_bits <= 24
        invariant Valid() && Position() == old(Position())
        decreases 32 - num_bits
      {
        FillByte();
      }
    }

    /** One round of the loop of `_ssfn__fill_bits`. */
    method FillByte()
      requires Valid() && num_bits <= 24
      modifies this
      ensures Valid() && Position() == old(Position()) && num_bits == old(num_bits) + 8
    {
      FillWindow(memory, Position(), num_bits, zbuffer);
      BufferFits(memory, Position(), num_bits + 8);
      hide *;
      var b := Get8();
      code_buffer := Or(code_buffer, Shl(b, num_bits));
      num_bits := num_bits + 8;
    }

    /** Takes the next `n` bits off the buffer. */
    method Drop(n: nat)
      requires Valid() && n <= num_bits
      modifies this`code_buffer, this`num_bits
      ensures Valid() && Position() == old(Position()) + n && num_bits == old(num_bits) - n
    {
      WindowMask(memory, Position(), num_bits, n);
      code_buffer := Shr(code_buffer, n);
      num_bits := num_bits - n;
    }

    /** `_ssfn__zreceive` returns the next `n` bits of the stream and drops exactly those. */
    method Receive(n: nat) returns (k: nat)
      requires Valid() && n <= 16
      modifies this
      ensures Valid() && Position() == old(Position()) + n
      ensures k == Window(memory, old(Position()), n)
    {
      if num_bits < n {
        FillBits();
      }
      AndMask(code_buffer, n);
      WindowMask(memory, Position(), num_bits, n);
      k := And(code_buffer, Pow2(n) - 1);
      Drop(n);
    }
  }
}
