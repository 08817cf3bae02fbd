/** Decoding one symbol: the fast table and the slow path of ssfn.h together. */
module HuffmanDecoders {
  import opened BitOps
  import opened BitStreams
  import opened CanonicalCodes
  import opened HuffmanTables

  /** The symbol whose code starts the stream at `p`, or -1. */
  ghost function Decoded(lens: seq<nat>, m: Memory, p: nat): (r: int)
    ensures r >= 0 ==> Matches(lens, r, Code(m, p, 16))
    ensures r < 0 ==> r == -1 && forall i: nat :: !Matches(lens, i, Code(m, p, 16))
  {
    if exists i: nat :: Matches(lens, i, Code(m, p, 16))
    then
      var i: nat :| Matches(lens, i, Code(m, p, 16));
      i
    else -1
  }

  /** How many bits decoding a symbol takes. */
  ghost function Taken(lens: seq<nat>, r: int): nat
    requires r < |lens|
  {
    if r < 0 then 0 else lens[r]
  }

  lemma DecodedIs(lens: seq<nat>, m: Memory, p: nat, i: nat)
    requires Matches(lens, i, Code(m, p, 16))
    ensures Decoded(lens, m, p) == i
  {
    MatchesOnce(lens, i, Decoded(lens, m, p), Code(m, p, 16));
  }

  /** Symbol `i` is what the stream decodes to exactly when its code is the next thing in the stream. */
  lemma DecodesWhatIsThere(lens: seq<nat>, m: Memory, p: nat, i: nat)
    requires ValidLengths(lens) && Kraft(lens) <= Pow2(15) && i < |lens| && lens[i] > 0
    ensures Decoded(lens, m, p) == i <==> Bits(m, p, lens[i]) == CodeBits(lens, i)
  {
    MatchesIsPrefix(lens, i, m, p);
    if Matches(lens, i, Code(m, p, 16)) {
      DecodedIs(lens, m, p, i);
    }
  }

  /** Decoding fails exactly when no code in use is the next thing in the stream. */
  lemma DecodesNothing(lens: seq<nat>, m: Memory, p: nat)
    requires ValidLengths(lens) && Kraft(lens) <= Pow2(15)
    ensures Decoded(lens, m, p) == -1
       <==> forall i | 0 <= i < |lens| && lens[i] > 0 :: Bits(m, p, lens[i]) != CodeBits(lens, i)
  {
    forall i | 0 <= i < |lens| && lens[i] > 0
      ensures Decoded(lens, m, p) == i <==> Bits(m, p, lens[i]) == CodeBits(lens, i)
    {
      DecodesWhatIsThere(lens, m, p, i);
    }
  }

  /** What a fast entry packs. */
  lemma EntryParts(v: nat, s: nat, i: nat)
    requires v == 512 * s + i && i < 512
    ensures Shr(v, 9) == s && And(v, 511) == i
  {
    assert Pow2(4) == 16 && Pow2(8) == 256 && Pow2(9) == 512;
    ShrIsDivision(v, 9);
    AndMask(v, 9);
    SplitAtBit(v, 9);
    ShlIsProduct(s, 9);
  }

  /** A nonempty fast entry is the symbol to decode. */
  lemma FastHit(lens: seq<nat>, m: Memory, p: nat, v: nat)
    requires ValidLengths(lens) && Kraft(lens) <= Pow2(15) && v != 0
    requires SlotHolds(lens, |lens|, Window(m, p, FAST_BITS), v)
    ensures And(v, 511) < |lens| && Decoded(lens, m, p) == And(v, 511) && Shr(v, 9) == lens[And(v, 511)] <= FAST_BITS
  {
    var i: nat :| i < |lens| && Owns(lens, i, Window(m, p, FAST_BITS)) && v == 512 * lens[i] + i;
    OwnsWindow(lens, i, m, p);
    DecodedIs(lens, m, p, i);
    EntryParts(v, lens[i], i);
  }

  /** An empty one leaves only longer codes. */
  lemma FastMiss(lens: seq<nat>, m: Memory, p: nat)
    requires ValidLengths(lens) && Kraft(lens) <= Pow2(15)
    requires SlotHolds(lens, |lens|, Window(m, p, FAST_BITS), 0)
    ensures Shr(Code(m, p, 16), 7) >= CodeEnd(lens, FAST_BITS)
  {
    CodeBound(m, p, 16);
    Coverage(lens, Code(m, p, 16), FAST_BITS);
    if Covered(lens, Code(m, p, 16), FAST_BITS) {
      var i: nat :| Matches(lens, i, Code(m, p, 16)) && lens[i] <= FAST_BITS;
      OwnsWindow(lens, i, m, p);
      assert false;
    }
  }

  /** The slow path finds the symbol of length `s`. */
  lemma SlowHit(lens: seq<nat>, m: Memory, p: nat, k: nat, s: nat) returns (i: nat)
    requires 0 < s <= 15 && k == Code(m, p, 16)
    requires Shr(k, 17 - s) >= CodeEnd(lens, s - 1) && Shr(k, 16 - s) < CodeEnd(lens, s)
    ensures i < |lens| && lens[i] == s && Decoded(lens, m, p) == i
    ensures Rank(lens, i) == Shr(k, 16 - s) - FirstCode(lens, s) + FirstSymbol(lens, s)
  {
    ShrAdd(k, 16 - s, 1);
    i := MatchOfLength(lens, k, s);
    DecodedIs(lens, m, p, i);
  }

  lemma SlowMiss(lens: seq<nat>, m: Memory, p: nat)
    requires ValidLengths(lens) && Shr(Code(m, p, 16), 1) >= CodeEnd(lens, 15)
    ensures Decoded(lens, m, p) == -1
  {
    CodeBound(m, p, 16);
    Coverage(lens, Code(m, p, 16), 15);
  }

  /** The buffer's low 16 bits, reversed. */
  lemma ReversedBuffer(m: Memory, p: nat, n: nat)
    requires n >= 16
    ensures BitReverse(Window(m, p, n), 16) == Code(m, p, 16)
  {
    hide *;
    BitReverseIsFlip(Window(m, p, n), 16);
    WindowMask(m, p, n, 16);
    FlipMask(Window(m, p, n), 16, 16);
    FlipWindow(m, p, 16);
  }

  // ---- Reading the tables

  lemma TableShape(z: Huffman, lens: seq<nat>)
    requires z.Describes(lens)
    ensures z.Shape() && ValidLengths(lens) && Kraft(lens) <= Pow2(15)
  {
  }

  lemma MaxCodeAt(z: Huffman, lens: seq<nat>, k: nat, s: nat)
    requires z.Describes(lens) && 0 < s <= 16 && k < 0x1_0000
    ensures z.maxcode.Length == 17
    ensures k < z.maxcode[s] <==> s == 16 || Shr(k, 16 - s) < CodeEnd(lens, s)
  {
    if s < 16 {
      ShrLess(k, CodeEnd(lens, s), 16 - s);
    }
    hide Shr, Shl, CodeEnd;
  }

  lemma SlotAt(z: Huffman, lens: seq<nat>, j: nat)
    requires z.Describes(lens) && j < FAST_SIZE
    ensures z.fast.Length == FAST_SIZE && SlotHolds(lens, |lens|, j, z.fast[j])
  {
    hide SlotHolds;
    assert z.fast[..][j] == z.fast[j];
  }

  lemma SymbolFor(z: Huffman, lens: seq<nat>, i: nat, s: nat)
    requires z.Describes(lens) && i < |lens| && lens[i] == s && 0 < s <= 15
    ensures z.firstcode.Length == 16 && z.firstsymbol.Length == 16
    ensures z.firstcode[s] == FirstCode(lens, s) && z.firstsymbol[s] == FirstSymbol(lens, s)
    ensures Rank(lens, i) < z.value.Length && z.value[Rank(lens, i)] == i
  {
    assert SymbolAt(Rank(lens, i), s, i, z.size[..], z.value[..]);
    hide Rank, FirstCode, FirstSymbol, Kraft;
  }

  /** The search of the slow path: the first length whose codes end above the window. */
  method FindLength(z: Huffman, k: nat, ghost lens: seq<nat>) returns (s: nat)
    requires z.Describes(lens) && k < 0x1_0000 && Shr(k, 7) >= CodeEnd(lens, 9)
    ensures 9 < s <= 16 && Shr(k, 17 - s) >= CodeEnd(lens, s - 1)
    ensures s < 16 ==> Shr(k, 16 - s) < CodeEnd(lens, s)
  {
    assert z.maxcode.Length == 17 && FAST_BITS == 9;
    hide *;
    s := 10;
    while true
      invariant 9 < s <= 16 && Shr(k, 17 - s) >= CodeEnd(lens, s - 1)
      decreases 16 - s
    {
      MaxCodeAt(z, lens, k, s);
      if k < z.maxcode[s] {
        break;
      }
      s := s + 1;
    }
  }

  /** `_ssfn__zhuffman_decode_slowpath` */
  method DecodeSlowly(a: BitReader, z: Huffman, ghost lens: seq<nat>) returns (r: int)
    requires a.Valid() && a.num_bits >= 16 && z.Describes(lens)
    requires Shr(Code(a.memory, a.Position(), 16), 7) >= CodeEnd(lens, 9)
    modifies a
    ensures a.Valid() && r == Decoded(lens, a.memory, old(a.Position())) && r < |lens|
    ensures a.Position() == old(a.Position()) + Taken(lens, r)
  {
    hide *;
    ReaderFacts(a);
    TableShape(z, lens);
    z.ArraysListed();
    ghost var p: nat := a.Position();
    var k := BitReverse(a.code_buffer, 16);
    var s := FindLength(z, k, lens);
    if s == 16 {
      SlowMiss(lens, a.memory, p);
      r := -1;
      TakenIs(lens, r);
    } else {
      ghost var i := SlowHit(lens, a.memory, p, k, s);
      SymbolFor(z, lens, i, s);
      TakenIs(lens, i);
      var b := Shr(k, 16 - s) - z.firstcode[s] + z.firstsymbol[s];
      a.Drop(s);
      r := z.value[b];
    }
  }

  lemma ReaderFacts(a: BitReader)
    requires a.Valid() && a.num_bits >= 16
    ensures BitReverse(a.code_buffer, 16) == Code(a.memory, a.Position(), 16) < 0x1_0000
    ensures And(a.code_buffer, 511) == Window(a.memory, a.Position(), 9) < 512
  {
    PowWidth();
    assert Pow2(4) == 16 && Pow2(8) == 256 && Pow2(9) == 512;
    ghost var m, p, n := a.memory, a.Position(), a.num_bits;
    assert a.code_buffer == Window(m, p, n);
    hide *;
    ReversedBuffer(m, p, n);
    CodeBound(m, p, 16);
    AndMask(a.code_buffer, 9);
    WindowMask(m, p, n, 9);
    WindowBound(m, p, 9);
  }

  lemma TakenIs(lens: seq<nat>, r: int)
    requires r < |lens|
    ensures Taken(lens, r) == if r < 0 then 0 else lens[r]
  {
  }

  /**
   * `_ssfn__zhuffman_decode`: the symbol whose code comes next in the stream, which moves past exactly that code,
   * or -1 when there is none.
   */
  method Decode(a: BitReader, z: Huffman, ghost lens: seq<nat>) returns (r: int)
    requires a.Valid() && z.Describes(lens)
    modifies a
    ensures a.Valid() && r == Decoded(lens, a.memory, old(a.Position())) && r < |lens|
    ensures a.Position() == old(a.Position()) + Taken(lens, r)
  {
    assert FAST_BITS == 9 && FAST_SIZE == 512;
    ghost var p: nat := a.Position();
    hide *;
    if a.num_bits < 16 {
      a.FillBits();
    }
    ReaderFacts(a);
    TableShape(z, lens);
    SlotAt(z, lens, And(a.code_buffer, 511));
    var b := z.fast[And(a.code_buffer, 511)];
    if b != 0 {
      FastHit(lens, a.memory, p, b);
      var s := Shr(b, 9);
      TakenIs(lens, And(b, 511));
      a.Drop(s);
      r := And(b, 511);
    } else {
      FastMiss(lens, a.memory, p);
      r := DecodeSlowly(a, z, lens);
    }
  }
}
