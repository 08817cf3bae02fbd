/**
 * The canonical Huffman code of RFC 1951, section 3.2.2: a code is given by its code lengths, zero meaning that a
 * symbol is not used. Codes are numbers whose most significant bit comes first.
 */
module CanonicalCodes {
  import opened BitOps
  import opened BitStreams

  /** Code lengths of up to 288 symbols: what a decoding table has room for. */
  ghost predicate ValidLengths(lens: seq<nat>) {
    |lens| <= 288 && forall i | 0 <= i < |lens| :: lens[i] <= 15
  }

  /** How many codes have length `s`. */
  function Count(lens: seq<nat>, s: nat): nat {
    if lens == [] then 0 else Count(lens[..|lens| - 1], s) + if lens[|lens| - 1] == s then 1 else 0
  }

  /** One past the last code of length `s`. */
  function CodeEnd(lens: seq<nat>, s: nat): nat {
    if s == 0 then 0 else 2 * CodeEnd(lens, s - 1) + Count(lens, s)
  }

  /** The code of the first symbol of length `s`: step 2 of the algorithm in section 3.2.2. */
  function FirstCode(lens: seq<nat>, s: nat): nat {
    if s == 0 then 0 else 2 * CodeEnd(lens, s - 1)
  }

  /** The code of symbol `i`: step 3. */
  function CodeOf(lens: seq<nat>, i: nat): nat
    requires i < |lens|
  {
    FirstCode(lens, lens[i]) + Count(lens[..i], lens[i])
  }

  /** How many symbols have codes shorter than `s`. */
  function FirstSymbol(lens: seq<nat>, s: nat): nat {
    if s <= 1 then 0 else FirstSymbol(lens, s - 1) + Count(lens, s - 1)
  }

  /** The rank of symbol `i` in the order of codes. */
  function Rank(lens: seq<nat>, i: nat): nat
    requires i < |lens|
  {
    FirstSymbol(lens, lens[i]) + Count(lens[..i], lens[i])
  }

  /** The space that the codes take, in units of 2^-15. */
  function Kraft(lens: seq<nat>): nat
    requires forall i | 0 <= i < |lens| :: lens[i] <= 15
  {
    if lens == [] then 0
    else Kraft(lens[..|lens| - 1]) + if lens[|lens| - 1] == 0 then 0 else Pow2(15 - lens[|lens| - 1])
  }

  /** The `n` binary digits of `c`, most significant first. */
  function Digits(c: nat, n: nat): (s: seq<nat>)
    ensures |s| == n
  {
    if n == 0 then [] else Digits(c / 2, n - 1) + [c % 2]
  }

  function CodeBits(lens: seq<nat>, i: nat): seq<nat>
    requires i < |lens|
  {
    Digits(CodeOf(lens, i), lens[i])
  }

  // ---- Counting

  lemma CountNext(lens: seq<nat>, s: nat, i: nat)
    requires i < |lens|
    ensures Count(lens[..i + 1], s) == Count(lens[..i], s) + if lens[i] == s then 1 else 0
  {
    assert lens[..i + 1][..i] == lens[..i];
  }

  lemma {:induction false} CountGrows(lens: seq<nat>, s: nat, i: nat, j: nat)
    requires i <= j <= |lens|
    ensures Count(lens[..i], s) <= Count(lens[..j], s)
    decreases j
  {
    if i < j {
      CountGrows(lens, s, i, j - 1);
      CountNext(lens, s, j - 1);
    }
  }

  lemma CountBelow(lens: seq<nat>, s: nat, i: nat, j: nat)
    requires i < j <= |lens| && lens[i] == s
    ensures Count(lens[..i], s) < Count(lens[..j], s)
  {
    CountNext(lens, s, i);
    CountGrows(lens, s, i + 1, j);
  }

  /** The `c`-th symbol of length `s`. */
  lemma {:induction false} CountOnto(lens: seq<nat>, s: nat, c: nat, n: nat) returns (i: nat)
    requires n <= |lens| && c < Count(lens[..n], s)
    ensures i < n && lens[i] == s && Count(lens[..i], s) == c
    decreases n
  {
    assert n > 0;
    CountNext(lens, s, n - 1);
    if c < Count(lens[..n - 1], s) {
      i := CountOnto(lens, s, c, n - 1);
    } else {
      i := n - 1;
    }
  }

  lemma CountAll(lens: seq<nat>, s: nat, i: nat)
    requires i < |lens| && lens[i] == s
    ensures Count(lens[..i], s) < Count(lens, s)
  {
    CountBelow(lens, s, i, |lens|);
    assert lens[..|lens|] == lens;
  }

  lemma CodeRange(lens: seq<nat>, i: nat)
    requires i < |lens| && lens[i] > 0
    ensures FirstCode(lens, lens[i]) <= CodeOf(lens, i) < CodeEnd(lens, lens[i])
  {
    CountAll(lens, lens[i], i);
  }

  lemma {:induction false} FirstSymbolAppend(lens: seq<nat>, l: nat, s: nat)
    ensures FirstSymbol(lens + [l], s) == FirstSymbol(lens, s) + if 0 < l < s then 1 else 0
  {
    if s > 1 {
      FirstSymbolAppend(lens, l, s - 1);
      assert (lens + [l])[..|lens|] == lens;
    }
  }

  lemma {:induction false} FirstSymbolBound(lens: seq<nat>, s: nat)
    ensures FirstSymbol(lens, s) <= |lens|
  {
    if lens == [] {
      NoSymbols(s);
    } else {
      assert lens[..|lens| - 1] + [lens[|lens| - 1]] == lens;
      FirstSymbolBound(lens[..|lens| - 1], s);
      FirstSymbolAppend(lens[..|lens| - 1], lens[|lens| - 1], s);
    }
  }

  lemma {:induction false} NoSymbols(s: nat)
    ensures FirstSymbol([], s) == 0
  {
    if s > 1 {
      NoSymbols(s - 1);
    }
  }

  lemma {:induction false} FirstSymbolGrows(lens: seq<nat>, s: nat, t: nat)
    requires 0 < s < t
    ensures FirstSymbol(lens, s) + Count(lens, s) <= FirstSymbol(lens, t)
    decreases t
  {
    if s < t - 1 {
      FirstSymbolGrows(lens, s, t - 1);
    }
  }

  lemma RankRange(lens: seq<nat>, i: nat)
    requires i < |lens| && lens[i] > 0
    ensures FirstSymbol(lens, lens[i]) <= Rank(lens, i) < FirstSymbol(lens, lens[i]) + Count(lens, lens[i])
    ensures Rank(lens, i) < |lens|
  {
    CountAll(lens, lens[i], i);
    FirstSymbolGrows(lens, lens[i], lens[i] + 1);
    FirstSymbolBound(lens, lens[i] + 1);
  }

  /** Every symbol in use has its own rank. */
  lemma RanksDistinct(lens: seq<nat>, i: nat, j: nat)
    requires i < |lens| && j < |lens| && i != j && lens[i] > 0 && lens[j] > 0
    ensures Rank(lens, i) != Rank(lens, j)
  {
    RankRange(lens, i);
    RankRange(lens, j);
    if lens[i] < lens[j] {
      FirstSymbolGrows(lens, lens[i], lens[j]);
    } else if lens[j] < lens[i] {
      FirstSymbolGrows(lens, lens[j], lens[i]);
    } else if i < j {
      CountBelow(lens, lens[i], i, j);
    } else {
      CountBelow(lens, lens[i], j, i);
    }
  }

  // ---- When the lengths are those of a code

  lemma {:induction false} EndAppend(lens: seq<nat>, l: nat, s: nat)
    ensures CodeEnd(lens + [l], s) == CodeEnd(lens, s) + if 0 < l <= s then Pow2(s - l) else 0
  {
    if s > 0 {
      EndAppend(lens, l, s - 1);
      assert (lens + [l])[..|lens|] == lens;
    }
  }

  lemma {:induction false} EndOfNothing(s: nat)
    ensures CodeEnd([], s) == 0
  {
    if s > 0 {
      EndOfNothing(s - 1);
    }
  }

  /** The codes end at the sum of what they take. */
  lemma {:induction false} KraftIsEnd(lens: seq<nat>)
    requires forall i | 0 <= i < |lens| :: lens[i] <= 15
    ensures Kraft(lens) == CodeEnd(lens, 15)
  {
    if lens == [] {
      EndOfNothing(15);
    } else {
      var front, l := lens[..|lens| - 1], lens[|lens| - 1];
      assert front + [l] == lens;
      KraftIsEnd(front);
      EndAppend(front, l, 15);
    }
  }

  /** Room at length `t` is room at every shorter length. */
  lemma {:induction false} EndFits(lens: seq<nat>, s: nat, t: nat)
    requires s <= t && CodeEnd(lens, t) <= Pow2(t)
    ensures CodeEnd(lens, s) <= Pow2(s)
    decreases t
  {
    if s < t {
      EndFits(lens, s, t - 1);
    }
  }

  /** Codes that are not oversubscribed have as many bits as their lengths say. */
  lemma CodeFits(lens: seq<nat>, i: nat)
    requires ValidLengths(lens) && Kraft(lens) <= Pow2(15) && i < |lens| && lens[i] > 0
    ensures CodeOf(lens, i) < Pow2(lens[i])
  {
    KraftIsEnd(lens);
    EndFits(lens, lens[i], 15);
    CodeRange(lens, i);
  }

  // ---- What a window of 16 bits decodes to

  /** The code of symbol `i` starts the 16 bits `k`. */
  ghost predicate Matches(lens: seq<nat>, i: nat, k: nat) {
    i < |lens| && 0 < lens[i] <= 16 && Shr(k, 16 - lens[i]) == CodeOf(lens, i)
  }

  /** A window below the end of one length is below the start of every longer one. */
  lemma {:induction false} BelowEnd(lens: seq<nat>, k: nat, s: nat, t: nat)
    requires s < t <= 16 && Shr(k, 16 - s) < CodeEnd(lens, s)
    ensures Shr(k, 16 - t) < FirstCode(lens, t)
    decreases t
  {
    ShrAdd(k, 16 - t, 1);
    if s < t - 1 {
      BelowEnd(lens, k, s, t - 1);
    }
  }

  /** At most one symbol matches. */
  lemma MatchesOnce(lens: seq<nat>, i: nat, j: nat, k: nat)
    requires Matches(lens, i, k) && Matches(lens, j, k)
    ensures i == j
  {
    CodeRange(lens, i);
    CodeRange(lens, j);
    if lens[i] < lens[j] {
      BelowEnd(lens, k, lens[i], lens[j]);
    } else if lens[j] < lens[i] {
      BelowEnd(lens, k, lens[j], lens[i]);
    } else if i < j {
      CountBelow(lens, lens[i], i, j);
    } else if j < i {
      CountBelow(lens, lens[i], j, i);
    }
  }

  /** Some symbol of length at most `s` matches. */
  ghost predicate Covered(lens: seq<nat>, k: nat, s: nat) {
    exists i: nat :: Matches(lens, i, k) && lens[i] <= s
  }

  lemma MatchOfLength(lens: seq<nat>, k: nat, s: nat) returns (i: nat)
    requires 0 < s <= 16 && FirstCode(lens, s) <= Shr(k, 16 - s) < CodeEnd(lens, s)
    ensures Matches(lens, i, k) && lens[i] == s
    ensures Rank(lens, i) == Shr(k, 16 - s) - FirstCode(lens, s) + FirstSymbol(lens, s)
  {
    assert lens[..|lens|] == lens;
    i := CountOnto(lens, s, Shr(k, 16 - s) - FirstCode(lens, s), |lens|);
  }

  /** The codes up to length `s` cover exactly the windows below their end. */
  lemma {:induction false} Coverage(lens: seq<nat>, k: nat, s: nat)
    requires s <= 15 && k < Pow2(16)
    ensures Shr(k, 16 - s) < CodeEnd(lens, s) <==> Covered(lens, k, s)
  {
    if s > 0 {
      ShrAdd(k, 16 - s, 1);
      Coverage(lens, k, s - 1);
      LastLevel(lens, k, s);
      hide Covered, Matches, Pow2;
    }
  }

  lemma LastLevel(lens: seq<nat>, k: nat, s: nat)
    requires 0 < s <= 15
    ensures Covered(lens, k, s)
       <==> Covered(lens, k, s - 1) || FirstCode(lens, s) <= Shr(k, 16 - s) < CodeEnd(lens, s)
  {
    if Covered(lens, k, s) {
      var i: nat :| Matches(lens, i, k) && lens[i] <= s;
      if lens[i] == s {
        CodeRange(lens, i);
      }
    }
    if FirstCode(lens, s) <= Shr(k, 16 - s) < CodeEnd(lens, s) {
      var i := MatchOfLength(lens, k, s);
    }
    hide Matches, Shr, FirstCode, CodeEnd;
  }

  // ---- Bits

  lemma {:induction false} DigitsInjective(c: nat, d: nat, n: nat)
    requires c < Pow2(n) && d < Pow2(n) && Digits(c, n) == Digits(d, n)
    ensures c == d
  {
    if n > 0 {
      assert Digits(c, n)[..n - 1] == Digits(c / 2, n - 1) && Digits(d, n)[..n - 1] == Digits(d / 2, n - 1);
      assert Digits(c, n)[n - 1] == c % 2 && Digits(d, n)[n - 1] == d % 2;
      DigitsInjective(c / 2, d / 2, n - 1);
    }
  }

  lemma {:induction false} DigitsOfCode(m: Memory, p: nat, n: nat)
    ensures Digits(Code(m, p, n), n) == Bits(m, p, n)
  {
    if n > 0 {
      DigitsOfCode(m, p, n - 1);
    }
  }

  lemma {:induction false} DigitsPrefix(c: nat, n: nat, m: nat)
    requires n <= m
    ensures Digits(c, m)[..n] == Digits(Shr(c, m - n), n)
    decreases m
  {
    if n < m {
      DigitsPrefix(c / 2, n, m - 1);
      assert Digits(c, m)[..n] == Digits(c / 2, m - 1)[..n];
    }
  }

  /** A symbol matches the next 16 bits when its code is what the stream holds there. */
  lemma MatchesIsPrefix(lens: seq<nat>, i: nat, m: Memory, p: nat)
    requires ValidLengths(lens) && Kraft(lens) <= Pow2(15) && i < |lens| && lens[i] > 0
    ensures Matches(lens, i, Code(m, p, 16)) <==> Bits(m, p, lens[i]) == CodeBits(lens, i)
  {
    CodeTop(m, p, 16, lens[i]);
    CodeBound(m, p, lens[i]);
    CodeFits(lens, i);
    DigitsOfCode(m, p, lens[i]);
    if Bits(m, p, lens[i]) == CodeBits(lens, i) {
      DigitsInjective(Code(m, p, lens[i]), CodeOf(lens, i), lens[i]);
    }
  }

  /** No code is a prefix of another. */
  lemma PrefixFree(lens: seq<nat>, i: nat, j: nat)
    requires ValidLengths(lens) && Kraft(lens) <= Pow2(15)
    requires i < |lens| && j < |lens| && lens[i] > 0 && lens[j] > 0 && CodeBits(lens, i) <= CodeBits(lens, j)
    ensures i == j
  {
    hide *;
    PrefixMeans(lens, i, j);
    CodeFits(lens, i);
    CodeFits(lens, j);
    LeadingDigits(CodeOf(lens, j), lens[i], lens[j]);
    DigitsInjective(Shr(CodeOf(lens, j), lens[j] - lens[i]), CodeOf(lens, i), lens[i]);
    MatchTogether(lens, i, j);
  }

  lemma LeadingDigits(c: nat, s: nat, t: nat)
    requires s <= t && c < Pow2(t)
    ensures Shr(c, t - s) < Pow2(s) && Digits(c, t)[..s] == Digits(Shr(c, t - s), s)
  {
    hide *;
    DigitsPrefix(c, s, t);
    ShlPow(s, t - s);
    ShrLess(c, Pow2(s), t - s);
  }

  lemma PrefixMeans(lens: seq<nat>, i: nat, j: nat)
    requires ValidLengths(lens) && i < |lens| && j < |lens| && CodeBits(lens, i) <= CodeBits(lens, j)
    ensures lens[i] <= lens[j] <= 15
    ensures Digits(CodeOf(lens, j), lens[j])[..lens[i]] == Digits(CodeOf(lens, i), lens[i])
  {
    hide CodeOf;
  }

  lemma MatchTogether(lens: seq<nat>, i: nat, j: nat)
    requires i < |lens| && j < |lens| && 0 < lens[i] <= lens[j] <= 15
    requires Shr(CodeOf(lens, j), lens[j] - lens[i]) == CodeOf(lens, i)
    ensures i == j
  {
    var c, s, t := CodeOf(lens, j), lens[i], lens[j];
    var k := Shl(c, 16 - t);
    ShrShl(c, 16 - t);
    ShrAdd(k, 16 - t, t - s);
    MatchesOnce(lens, i, j, k);
  }

  /** The first rule of section 3.2.2: codes of one length are consecutive, in the order of their symbols. */
  lemma SameLengthInOrder(lens: seq<nat>, i: nat, j: nat)
    requires i < j < |lens| && lens[i] == lens[j] > 0
    ensures CodeOf(lens, i) < CodeOf(lens, j)
    ensures (forall x | i < x < j :: lens[x] != lens[i]) ==> CodeOf(lens, j) == CodeOf(lens, i) + 1
  {
    CountBelow(lens, lens[i], i, j);
    CountNext(lens, lens[i], i);
    if forall x | i < x < j :: lens[x] != lens[i] {
      CountFlat(lens, lens[i], i + 1, j);
    }
  }

  lemma {:induction false} CountFlat(lens: seq<nat>, s: nat, i: nat, j: nat)
    requires i <= j <= |lens| && forall x | i <= x < j :: lens[x] != s
    ensures Count(lens[..j], s) == Count(lens[..i], s)
    decreases j
  {
    if i < j {
      CountFlat(lens, s, i, j - 1);
      CountNext(lens, s, j - 1);
    }
  }

  /** The second rule: shorter codes precede longer ones lexicographically. */
  lemma ShorterFirst(lens: seq<nat>, i: nat, j: nat)
    requires i < |lens| && j < |lens| && 0 < lens[i] < lens[j]
    ensures CodeOf(lens, i) < Shr(CodeOf(lens, j), lens[j] - lens[i])
  {
    CodeRange(lens, i);
    CodeRange(lens, j);
    EndBeforeStart(lens, CodeOf(lens, j), lens[i], lens[j]);
  }

  lemma {:induction false} EndBeforeStart(lens: seq<nat>, c: nat, s: nat, t: nat)
    requires s < t && FirstCode(lens, t) <= c
    ensures CodeEnd(lens, s) <= Shr(c, t - s)
    decreases t
  {
    if s < t - 1 {
      EndBeforeStart(lens, c / 2, s, t - 1);
    }
  }
}
