/**
 * The decoding tables of ssfn.h: a fast table over the next 9 bits for codes of at most 9 bits, and the ranges of
 * longer codes for the slow path.
 */
module HuffmanTables {
  import opened BitOps
  import opened BitStreams
  import opened CanonicalCodes

  const FAST_BITS: nat := 9
  const FAST_SIZE: nat := 512

  function U16(x: nat): nat {
    x % 0x1_0000
  }

  function U8(x: nat): nat {
    x % 0x100
  }

  /** Symbol `i` has a short code, and slot `j` starts with it: its low bits are that code in stream order. */
  ghost predicate Owns(lens: seq<nat>, i: nat, j: nat) {
    i < |lens| && 0 < lens[i] <= FAST_BITS && Mask(j, lens[i]) == Flip(CodeOf(lens, i), lens[i])
  }

  /** What slot `j` holds once the first `n` symbols are entered. */
  ghost predicate SlotHolds(lens: seq<nat>, n: nat, j: nat, v: nat) {
    if v == 0 then forall i | 0 <= i < n :: !Owns(lens, i, j)
    else exists i | 0 <= i < n :: Owns(lens, i, j) && v == 512 * lens[i] + i
  }

  ghost predicate AllSlots(lens: seq<nat>, n: nat, table: seq<nat>) {
    |table| == FAST_SIZE && forall j | 0 <= j < FAST_SIZE :: SlotHolds(lens, n, j, table[j])
  }

  ghost predicate AllSymbols(lens: seq<nat>, n: nat, size: seq<nat>, value: seq<nat>) {
    n <= |lens| && |size| == |value| == 288
    && forall i | 0 <= i < n && lens[i] > 0 :: SymbolAt(Rank(lens, i), lens[i], i, size, value)
  }

  predicate SymbolAt(rank: nat, s: nat, i: nat, size: seq<nat>, value: seq<nat>)
    requires |size| == |value|
  {
    rank < |size| && size[rank] == s && value[rank] == i
  }

  /** The codes to be given out next, after the first `n` symbols. */
  ghost predicate NextCodes(lens: seq<nat>, n: nat, next: seq<nat>) {
    n <= |lens| && |next| == 16 && forall s | 1 <= s < 16 :: next[s] == FirstCode(lens, s) + Count(lens[..n], s)
  }

  // ---- Entering symbols

  lemma SymbolsStep(lens: seq<nat>, i: nat, size: seq<nat>, value: seq<nat>)
    requires ValidLengths(lens) && i < |lens| && lens[i] > 0 && AllSymbols(lens, i, size, value)
    ensures Rank(lens, i) < 288
    ensures AllSymbols(lens, i + 1, size[Rank(lens, i) := lens[i]], value[Rank(lens, i) := i])
  {
    RankRange(lens, i);
    forall x | 0 <= x < i && lens[x] > 0
      ensures Rank(lens, x) != Rank(lens, i)
    {
      RanksDistinct(lens, x, i);
    }
    hide Rank;
  }

  lemma SkipSymbol(lens: seq<nat>, i: nat, size: seq<nat>, value: seq<nat>)
    requires i < |lens| && lens[i] == 0 && AllSymbols(lens, i, size, value)
    ensures AllSymbols(lens, i + 1, size, value)
  {
  }

  lemma SkipSlots(lens: seq<nat>, i: nat, table: seq<nat>)
    requires i < |lens| && (lens[i] == 0 || lens[i] > FAST_BITS) && AllSlots(lens, i, table)
    ensures AllSlots(lens, i + 1, table)
  {
    forall j | 0 <= j < FAST_SIZE
      ensures SlotHolds(lens, i + 1, j, table[j])
    {
      assert SlotHolds(lens, i, j, table[j]) && !Owns(lens, i, j);
    }
    hide SlotHolds;
  }

  lemma NextCodesStep(lens: seq<nat>, i: nat, next: seq<nat>)
    requires ValidLengths(lens) && i < |lens| && lens[i] > 0 && NextCodes(lens, i, next)
    ensures NextCodes(lens, i + 1, next[lens[i] := next[lens[i]] + 1])
  {
    forall s | 1 <= s < 16
      ensures Count(lens[..i + 1], s) == Count(lens[..i], s) + if lens[i] == s then 1 else 0
    {
      CountNext(lens, s, i);
    }
    hide Count;
  }

  lemma SkipNextCodes(lens: seq<nat>, i: nat, next: seq<nat>)
    requires i < |lens| && lens[i] == 0 && NextCodes(lens, i, next)
    ensures NextCodes(lens, i + 1, next)
  {
    forall s | 1 <= s < 16
      ensures Count(lens[..i + 1], s) == Count(lens[..i], s)
    {
      CountNext(lens, s, i);
    }
    hide Count;
  }

  lemma NextCodeIs(lens: seq<nat>, i: nat, next: seq<nat>)
    requires ValidLengths(lens) && i < |lens| && lens[i] > 0 && NextCodes(lens, i, next)
    ensures next[lens[i]] == CodeOf(lens, i) >= FirstCode(lens, lens[i])
    ensures next[lens[i]] - FirstCode(lens, lens[i]) + FirstSymbol(lens, lens[i]) == Rank(lens, i)
  {
  }

  // ---- Slots

  /** A slot is owned by the symbol that matches its bits, whatever follows them. */
  lemma OwnsIsMatch(lens: seq<nat>, i: nat, j: nat)
    requires ValidLengths(lens) && Kraft(lens) <= Pow2(15) && Owns(lens, i, j)
    ensures Matches(lens, i, Flip(j, 16))
  {
    var s, c := lens[i], CodeOf(lens, i);
    CodeFits(lens, i);
    FlipShr(j, s, 16 - s);
    FlipMask(j, s, s);
    FlipFlip(c, s);
    MaskBound(c, s);
  }

  /** So no two symbols share a slot. */
  lemma OneOwner(lens: seq<nat>, i: nat, x: nat, j: nat)
    requires ValidLengths(lens) && Kraft(lens) <= Pow2(15) && Owns(lens, i, j) && Owns(lens, x, j)
    ensures i == x
  {
    OwnsIsMatch(lens, i, j);
    OwnsIsMatch(lens, x, j);
    MatchesOnce(lens, i, x, Flip(j, 16));
  }

  /** At the stream: the slot of the next 9 bits belongs to the short symbol that matches the next 16. */
  lemma OwnsWindow(lens: seq<nat>, i: nat, m: Memory, p: nat)
    requires ValidLengths(lens) && Kraft(lens) <= Pow2(15) && i < |lens| && 0 < lens[i] <= FAST_BITS
    ensures Owns(lens, i, Window(m, p, FAST_BITS)) <==> Matches(lens, i, Code(m, p, 16))
  {
    var s, c := lens[i], CodeOf(lens, i);
    CodeFits(lens, i);
    MaskBound(c, s);
    WindowMask(m, p, FAST_BITS, s);
    FlipWindow(m, p, s);
    CodeTop(m, p, 16, s);
    FlipFlip(c, s);
    FlipFlip(Window(m, p, s), s);
    WindowBound(m, p, s);
    MaskBound(Window(m, p, s), s);
  }

  /** The last code of a symbol: what `fastv` is. */
  lemma EntryValue(s: nat, i: nat)
    requires s <= 15 && i < 512
    ensures U16(Or(Shl(s, 9), i)) == 512 * s + i
  {
    assert Pow2(4) == 16 && Pow2(8) == 256 && Pow2(9) == 512;
    ShlIsProduct(s, 9);
    OrCommutes(Shl(s, 9), i);
    OrAbove(i, s, 9);
  }

  /** `_ssfn__zhuffman`; `sizes` and `next_code` of the builder are local to it. */
  class Huffman {
    const fast: array<nat>
    const firstcode: array<nat>
    const maxcode: array<nat>
    const firstsymbol: array<nat>
    const size: array<nat>
    const value: array<nat>

    ghost predicate Shape() {
      && fast.Length == FAST_SIZE && firstcode.Length == 16 && maxcode.Length == 17
      && firstsymbol.Length == 16 && size.Length == 288 && value.Length == 288
      && fast != firstcode && fast != maxcode && fast != firstsymbol && fast != size && fast != value
      && firstcode != maxcode && firstcode != firstsymbol && firstcode != size && firstcode != value
      && maxcode != firstsymbol && maxcode != size && maxcode != value
      && firstsymbol != size && firstsymbol != value && size != value
    }

    ghost function Arrays(): set<object> {
      {fast, firstcode, maxcode, firstsymbol, size, value}
    }

    lemma ArraysListed()
      ensures Arrays() == {fast, firstcode, maxcode, firstsymbol, size, value}
    {
    }

    constructor ()
      ensures Shape() && fresh(Arrays())
    {
      fast, firstcode, maxcode := new nat[FAST_SIZE], new nat[16], new nat[17];
      firstsymbol, size, value := new nat[16], new nat[288], new nat[288];
    }

    /** Where the codes of each length below `n` start. */
    ghost predicate Starts(lens: seq<nat>, n: nat)
      requires Shape() && n <= 16
      reads firstcode, firstsymbol
    {
      forall s | 1 <= s < n :: firstcode[s] == FirstCode(lens, s) && firstsymbol[s] == FirstSymbol(lens, s)
    }

    /** Where they end, as 16-bit windows. */
    ghost predicate Ends(lens: seq<nat>, n: nat)
      requires Shape() && n <= 16
      reads maxcode
    {
      forall s | 1 <= s < n :: maxcode[s] == Shl(CodeEnd(lens, s), 16 - s)
    }

    /** The first `n` symbols stand at their ranks. */
    ghost predicate Symbols(lens: seq<nat>, n: nat)
      reads size, value
    {
      AllSymbols(lens, n, size[..], value[..])
    }

    /** The fast table knows the first `n` symbols. */
    ghost predicate Slots(lens: seq<nat>, n: nat)
      reads fast
    {
      AllSlots(lens, n, fast[..])
    }

    /** The tables are those of the canonical code with lengths `lens`. */
    ghost predicate Describes(lens: seq<nat>)
      reads Arrays()
    {
      && Shape() && ValidLengths(lens) && Kraft(lens) <= Pow2(15)
      && Starts(lens, 16) && Ends(lens, 16) && maxcode[16] == 0x1_0000 && Symbols(lens, |lens|) && Slots(lens, |lens|)
    }

    /** The counting loop of `_ssfn__zbuild_huffman`. */
    method CountSizes(sizelist: seq<nat>, sizes: array<nat>)
      requires ValidLengths(sizelist) && sizes.Length == 17 && forall s | 0 <= s < 17 :: sizes[s] == 0
      modifies sizes
      ensures sizes[0] == 0 && forall s | 1 <= s < 17 :: sizes[s] == Count(sizelist, s)
    {
      for i := 0 to |sizelist|
        invariant forall s | 0 <= s < 17 :: sizes[s] == Count(sizelist[..i], s)
      {
        forall s: nat
          ensures Count(sizelist[..i + 1], s) == Count(sizelist[..i], s) + if sizelist[i] == s then 1 else 0
        {
          CountNext(sizelist, s, i);
        }
        sizes[sizelist[i]] := sizes[sizelist[i]] + 1;
      }
      assert sizelist[..|sizelist|] == sizelist;
      sizes[0] := 0;
    }

    /** The loop over lengths: it fails exactly when the codes of some length do not fit. */
    method AssignRanges(ghost lens: seq<nat>, sizes: array<nat>, next_code: array<nat>) returns (ok: bool)
      requires Shape() && ValidLengths(lens) && sizes.Length == 17 && next_code.Length == 16
      requires forall s | 1 <= s < 17 :: sizes[s] == Count(lens, s)
      requires sizes != firstcode && sizes != maxcode && sizes != firstsymbol && sizes != next_code
      requires next_code != firstcode && next_code != maxcode && next_code != firstsymbol
      modifies firstcode, maxcode, firstsymbol, next_code
      ensures ok <==> CodeEnd(lens, 15) <= Pow2(15)
      ensures ok ==> Starts(lens, 16) && Ends(lens, 16) && forall s | 1 <= s < 16 :: next_code[s] == FirstCode(lens, s)
    {
      assert CodeEnd(lens, 0) == 0 && FirstSymbol(lens, 1) == 0 && FirstCode(lens, 1) == 0;
      hide *;
      var code, k := 0, 0;
      for i := 1 to 16
        invariant code == FirstCode(lens, i) && k == FirstSymbol(lens, i)
        invariant CodeEnd(lens, i - 1) <= Pow2(i - 1)
        invariant Starts(lens, i) && Ends(lens, i) && forall s | 1 <= s < i :: next_code[s] == FirstCode(lens, s)
      {
        RangeStep(lens, i);
        SetStart(lens, next_code, i, code, k);
        code := code + sizes[i];
        if sizes[i] != 0 {
          if code - 1 >= Pow2(i) {
            if CodeEnd(lens, 15) <= Pow2(15) {
              EndFits(lens, i, 15);
            }
            return false;
          }
        }
        SetEnd(lens, i, code);
        code := 2 * code;
        k := k + sizes[i];
      }
      return true;
    }

    method SetStart(ghost lens: seq<nat>, next_code: array<nat>, i: nat, code: nat, k: nat)
      requires Shape() && ValidLengths(lens) && next_code.Length == 16 && 1 <= i <= 15
      requires next_code != firstcode && next_code != firstsymbol
      requires code == FirstCode(lens, i) && k == FirstSymbol(lens, i) && CodeEnd(lens, i - 1) <= Pow2(i - 1)
      requires Starts(lens, i) && forall s | 1 <= s < i :: next_code[s] == FirstCode(lens, s)
      modifies firstcode, firstsymbol, next_code
      ensures Starts(lens, i + 1) && forall s | 1 <= s < i + 1 :: next_code[s] == FirstCode(lens, s)
    {
      CodeWidth(lens, code, i);
      hide CodeEnd, FirstCode, FirstSymbol, Pow2, ValidLengths, U16;
      next_code[i] := code;
      firstcode[i] := U16(code);
      firstsymbol[i] := U16(k);
    }

    method SetEnd(ghost lens: seq<nat>, i: nat, code: nat)
      requires Shape() && 1 <= i <= 15 && code == CodeEnd(lens, i) && Ends(lens, i)
      modifies maxcode
      ensures Ends(lens, i + 1)
    {
      hide CodeEnd, Shl;
      maxcode[i] := Shl(code, 16 - i);
    }

    static lemma RangeStep(lens: seq<nat>, i: nat)
      requires 1 <= i <= 15
      ensures CodeEnd(lens, i) == FirstCode(lens, i) + Count(lens, i)
      ensures FirstCode(lens, i + 1) == 2 * CodeEnd(lens, i)
      ensures FirstSymbol(lens, i + 1) == FirstSymbol(lens, i) + Count(lens, i)
      ensures CodeEnd(lens, i - 1) <= Pow2(i - 1) ==> FirstCode(lens, i) <= Pow2(i)
    {
    }

    static lemma CodeWidth(lens: seq<nat>, code: nat, i: nat)
      requires 1 <= i <= 15 && ValidLengths(lens) && code == FirstCode(lens, i) && CodeEnd(lens, i - 1) <= Pow2(i - 1)
      ensures U16(code) == code <= Pow2(i) && U16(FirstSymbol(lens, i)) == FirstSymbol(lens, i)
    {
      PowMonotone(i, 16);
      PowWidth();
      assert Pow2(16) == 2 * Pow2(15);
      PowMonotone(i, 15);
      FirstSymbolBound(lens, i);
    }

    /** The loop that enters one symbol into every slot its code starts; each of them was empty. */
    method FillSlots(ghost lens: seq<nat>, ghost i: nat, s: nat, code: nat, fastv: nat)
      requires Shape() && ValidLengths(lens) && Kraft(lens) <= Pow2(15) && Slots(lens, i)
      requires i < |lens| && s == lens[i] && 0 < s <= FAST_BITS && code == CodeOf(lens, i) && fastv == 512 * s + i
      modifies fast
      ensures Slots(lens, i + 1)
      ensures forall j | 0 <= j < FAST_SIZE ::
        if Owns(lens, i, j) then old(fast[j]) == 0 && fast[j] == fastv else fast[j] == old(fast[j])
    {
      ghost var before := fast[..];
      hide *;
      FillFrom(lens, i, s, code, fastv);
      SlotsStep(lens, i, before, fast[..]);
    }

    method FillFrom(ghost lens: seq<nat>, ghost i: nat, s: nat, code: nat, fastv: nat)
      requires fast.Length == FAST_SIZE && ValidLengths(lens)
      requires i < |lens| && s == lens[i] && 0 < s <= FAST_BITS && code == CodeOf(lens, i)
      modifies fast
      ensures forall j | 0 <= j < FAST_SIZE :: fast[j] == if Owns(lens, i, j) then fastv else old(fast[j])
    {
      assert FAST_BITS <= 16;
      hide *;
      var j := BitReverse(code, s);
      FirstSlot(lens, i, j);
      while j < FAST_SIZE
        invariant Mask(j, s) == Flip(code, s)
        invariant forall x | 0 <= x < FAST_SIZE ::
          fast[x] == if x < j && Owns(lens, i, x) then fastv else old(fast[x])
      {
        NextSlot(lens, i, j);
        fast[j] := fastv;
        j := j + Pow2(s);
      }
    }

    static lemma SlotsStep(lens: seq<nat>, i: nat, before: seq<nat>, after: seq<nat>)
      requires ValidLengths(lens) && Kraft(lens) <= Pow2(15) && i < |lens| && |after| == FAST_SIZE
      requires AllSlots(lens, i, before)
      requires forall j | 0 <= j < FAST_SIZE :: after[j] == if Owns(lens, i, j) then 512 * lens[i] + i else before[j]
      ensures AllSlots(lens, i + 1, after)
      ensures forall j | 0 <= j < FAST_SIZE && Owns(lens, i, j) :: before[j] == 0
    {
      hide Owns, Kraft, Pow2, ValidLengths;
      forall j | 0 <= j < FAST_SIZE
        ensures SlotHolds(lens, i + 1, j, after[j])
        ensures Owns(lens, i, j) ==> before[j] == 0
      {
        SlotStep(lens, i, j, before[j], after[j]);
      }
      hide SlotHolds;
    }

    static lemma FirstSlot(lens: seq<nat>, i: nat, j: nat)
      requires ValidLengths(lens) && i < |lens| && 0 < lens[i] <= FAST_BITS && j == BitReverse(CodeOf(lens, i), lens[i])
      ensures Mask(j, lens[i]) == Flip(CodeOf(lens, i), lens[i])
      ensures forall x: nat | x < j :: !Owns(lens, i, x)
    {
      var s, c := lens[i], CodeOf(lens, i);
      BitReverseIsFlip(c, s);
      BitOfFlip(c, s, 0);
      MaskBound(j, s);
      forall x: nat | x < j && Owns(lens, i, x)
        ensures false
      {
        MaskBound(x, s);
      }
    }

    static lemma NextSlot(lens: seq<nat>, i: nat, j: nat)
      requires i < |lens| && 0 < lens[i] <= FAST_BITS && Mask(j, lens[i]) == Flip(CodeOf(lens, i), lens[i])
      ensures Mask(j + Pow2(lens[i]), lens[i]) == Flip(CodeOf(lens, i), lens[i])
      ensures Owns(lens, i, j) && forall x: nat | j < x < j + Pow2(lens[i]) :: !Owns(lens, i, x)
    {
      MaskNext(j, lens[i]);
      forall x: nat | j < x < j + Pow2(lens[i]) && Owns(lens, i, x)
        ensures false
      {
        MaskStride(j, x, lens[i]);
      }
    }

    static lemma SlotStep(lens: seq<nat>, i: nat, j: nat, before: nat, after: nat)
      requires ValidLengths(lens) && Kraft(lens) <= Pow2(15) && i < |lens| && SlotHolds(lens, i, j, before)
      requires after == if Owns(lens, i, j) then 512 * lens[i] + i else before
      ensures SlotHolds(lens, i + 1, j, after)
      ensures Owns(lens, i, j) ==> before == 0
    {
      if Owns(lens, i, j) && before != 0 {
        var x: nat :| x < i && Owns(lens, x, j) && before == 512 * lens[x] + x;
        OneOwner(lens, i, x, j);
      }
      hide Owns;
    }

    /** The loop body that enters symbol `i` with the next code of its length. */
    method Place(sizelist: seq<nat>, i: nat, next_code: array<nat>)
      requires Shape() && ValidLengths(sizelist) && Kraft(sizelist) <= Pow2(15) && i < |sizelist|
      requires Starts(sizelist, 16) && Symbols(sizelist, i) && Slots(sizelist, i)
      requires next_code != fast && next_code != firstcode && next_code != firstsymbol
      requires next_code != size && next_code != value && NextCodes(sizelist, i, next_code[..])
      modifies fast, size, value, next_code
      ensures Symbols(sizelist, i + 1) && Slots(sizelist, i + 1) && NextCodes(sizelist, i + 1, next_code[..])
    {
      hide *;
      var s := sizelist[i];
      if s != 0 {
        NextPlace(sizelist, i, next_code[..]);
        assert next_code[..][s] == next_code[s];
        var c := next_code[s] - firstcode[s] + firstsymbol[s];
        var fastv := U16(Or(Shl(s, 9), i));
        EnterSymbol(sizelist, i, c, s);
        if s <= FAST_BITS {
          FillSlots(sizelist, i, s, next_code[s], fastv);
        } else {
          KeepSlots(sizelist, i);
        }
        ghost var before := next_code[..];
        next_code[s] := next_code[s] + 1;
        assert next_code[..] == before[s := before[s] + 1];
      } else {
        SkipUnused(sizelist, i, next_code[..]);
      }
    }

    /** Where symbol `i` and its entry go. */
    lemma NextPlace(lens: seq<nat>, i: nat, next_codes: seq<nat>)
      requires Shape() && Starts(lens, 16) && ValidLengths(lens) && i < |lens| && lens[i] > 0
      requires NextCodes(lens, i, next_codes)
      ensures lens[i] < 16 && |next_codes| == 16 && firstcode.Length == 16 && firstsymbol.Length == 16
      ensures fast != size && fast != value && size != value
      ensures next_codes[lens[i]] >= firstcode[lens[i]]
      ensures next_codes[lens[i]] - firstcode[lens[i]] + firstsymbol[lens[i]] == Rank(lens, i)
      ensures next_codes[lens[i]] == CodeOf(lens, i)
      ensures U16(Or(Shl(lens[i], 9), i)) == 512 * lens[i] + i
      ensures NextCodes(lens, i + 1, next_codes[lens[i] := next_codes[lens[i]] + 1])
    {
      ShortLengths(lens, i);
      StartAt(lens, lens[i]);
      NextCodeIs(lens, i, next_codes);
      EntryValue(lens[i], i);
      NextCodesStep(lens, i, next_codes);
      hide *;
    }

    /** A symbol without a code leaves all tables as they are. */
    lemma SkipUnused(lens: seq<nat>, i: nat, next_codes: seq<nat>)
      requires i < |lens| && lens[i] == 0 && Symbols(lens, i) && Slots(lens, i) && NextCodes(lens, i, next_codes)
      ensures Symbols(lens, i + 1) && Slots(lens, i + 1) && NextCodes(lens, i + 1, next_codes)
    {
      SkipNextCodes(lens, i, next_codes);
      SkipSymbol(lens, i, size[..], value[..]);
      SkipSlots(lens, i, fast[..]);
      hide AllSymbols, AllSlots, NextCodes;
    }

    static lemma ShortLengths(lens: seq<nat>, i: nat)
      requires ValidLengths(lens) && i < |lens|
      ensures lens[i] < 16 && i < 288
    {
    }

    lemma StartAt(lens: seq<nat>, s: nat)
      requires Shape() && Starts(lens, 16) && 0 < s < 16
      ensures firstcode[s] == FirstCode(lens, s) && firstsymbol[s] == FirstSymbol(lens, s)
    {
    }

    lemma KeepSlots(lens: seq<nat>, i: nat)
      requires i < |lens| && lens[i] > FAST_BITS && Slots(lens, i)
      ensures Slots(lens, i + 1)
    {
      SkipSlots(lens, i, fast[..]);
    }

    method EnterSymbol(ghost lens: seq<nat>, i: nat, c: nat, s: nat)
      requires Shape() && ValidLengths(lens) && i < |lens| && s == lens[i] > 0 && c == Rank(lens, i) && Symbols(lens, i)
      modifies size, value
      ensures Symbols(lens, i + 1)
    {
      SymbolsStep(lens, i, size[..], value[..]);
      ghost var sizes, values := size[..], value[..];
      hide Rank, AllSymbols;
      size[c] := U8(s);
      value[c] := U16(i);
      assert size[..] == sizes[c := s] && value[..] == values[c := i];
    }

    /**
     * `_ssfn__zbuild_huffman` succeeds exactly when the lengths do not oversubscribe the code space, and then the
     * tables are those of the canonical code.
     */
    method Build(sizelist: seq<nat>) returns (ok: bool)
      requires Shape() && ValidLengths(sizelist)
      modifies Arrays()
      ensures ok <==> Kraft(sizelist) <= Pow2(15)
      ensures ok ==> Describes(sizelist)
    {
      var sizes, next_code := new nat[17](i => 0), new nat[16];
      forall j | 0 <= j < FAST_SIZE {
        fast[j] := 0;
      }
      CountSizes(sizelist, sizes);
      KraftIsEnd(sizelist);
      ok := CheckSizes(sizelist, sizes);
      if !ok {
        return;
      }
      ok := AssignRanges(sizelist, sizes, next_code);
      if !ok {
        return;
      }
      maxcode[16] := 0x1_0000;
      NothingPlaced(sizelist, fast[..], size[..], value[..], next_code[..]);
      PlaceAll(sizelist, next_code);
    }

    /** No length has more symbols than numbers of its width. */
    method CheckSizes(ghost lens: seq<nat>, sizes: array<nat>) returns (ok: bool)
      requires ValidLengths(lens) && sizes.Length == 17 && forall s | 1 <= s < 17 :: sizes[s] == Count(lens, s)
      ensures !ok ==> CodeEnd(lens, 15) > Pow2(15)
    {
      for i := 1 to 16 {
        if sizes[i] > Pow2(i) {
          if CodeEnd(lens, 15) <= Pow2(15) {
            EndFits(lens, i, 15);
          }
          return false;
        }
      }
      return true;
    }

    static lemma NothingPlaced(lens: seq<nat>, table: seq<nat>, size: seq<nat>, value: seq<nat>, next: seq<nat>)
      requires |table| == FAST_SIZE && (forall j | 0 <= j < FAST_SIZE :: table[j] == 0) && |size| == |value| == 288
      requires |next| == 16 && forall s | 1 <= s < 16 :: next[s] == FirstCode(lens, s)
      ensures AllSlots(lens, 0, table) && AllSymbols(lens, 0, size, value) && NextCodes(lens, 0, next)
    {
      assert lens[..0] == [];
    }

    method PlaceAll(sizelist: seq<nat>, next_code: array<nat>)
      requires Shape() && ValidLengths(sizelist) && Kraft(sizelist) <= Pow2(15)
      requires Starts(sizelist, 16) && Symbols(sizelist, 0) && Slots(sizelist, 0)
      requires next_code != fast && next_code != firstcode && next_code != firstsymbol
      requires next_code != size && next_code != value && NextCodes(sizelist, 0, next_code[..])
      modifies fast, size, value, next_code
      ensures Symbols(sizelist, |sizelist|) && Slots(sizelist, |sizelist|)
    {
      assert {fast, size, value} !! {firstcode, firstsymbol};
      hide *;
      for i := 0 to |sizelist|
        invariant Starts(sizelist, 16)
        invariant Symbols(sizelist, i) && Slots(sizelist, i) && NextCodes(sizelist, i, next_code[..])
      {
        Place(sizelist, i, next_code);
      }
    }
  }
}
