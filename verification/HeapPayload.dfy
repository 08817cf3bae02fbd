/** Expansion, the first heap, and why no heap operation writes into a block that a caller holds. */
module HeapPayload {
  import opened Units
  import opened HeapSegments
  import opened HeapBlocks
  import opened HeapMemory

  // ---- ExpandHeap

  /** `contents` are the words of freshly mapped pages: nothing below the end of the heap. */
  ghost predicate Fresh(h: Heap, contents: Words) {
    forall x :: x in contents ==> h.end <= x
  }

  lemma AppendWords(h: Heap, bytes: nat, contents: Words, a: nat)
    requires Fresh(h, contents) && a + HEADER <= h.end && h.last + HEADER <= h.end
    ensures a + HEADER <= h.last ==> FourWords(Append(h, bytes, contents).words, a, Get(h.words, a),
                                              Get(h.words, a + 8), Get(h.words, a + 16), Get(h.words, a + 24))
    ensures a == h.last ==> FourWords(Append(h, bytes, contents).words, a, Get(h.words, a), h.end,
                                      Get(h.words, a + 16), Get(h.words, a + 24))
  {
  }

  lemma AppendNeighbours(start: nat, segs: seq<Seg>, tail: Seg, j: nat)
    requires j < |segs|
    ensures Addr(start, segs + [tail], j) == Addr(start, segs, j)
    ensures PrevAddr(start, segs + [tail], j) == PrevAddr(start, segs, j)
    ensures NextAddr(start, segs + [tail], j) == Addr(start, segs, j + 1)
  {
    AddrConcat(start, segs, [tail], j);
    AddrConcat(start, segs, [tail], j + 1);
    if j > 0 {
      AddrConcat(start, segs, [tail], j - 1);
    }
  }

  lemma AppendKeepsHeader(h: Heap, segs: seq<Seg>, bytes: nat, contents: Words, j: nat)
    requires Represents(h, segs) && bytes >= HEADER && Fresh(h, contents) && j < |segs|
    ensures HeaderAt(Append(h, bytes, contents).words, h.start, segs + [Seg(bytes - HEADER, true)], j)
  {
    assert HeaderAt(h.words, h.start, segs, j);
    AddrFacts(h.start, segs, j);
    AddrFacts(h.start, segs, |segs| - 1);
    if j < |segs| - 1 {
      AddrOrdered(h.start, segs, j, |segs| - 1);
    }
    AppendNeighbours(h.start, segs, Seg(bytes - HEADER, true), j);
    AppendWords(h, bytes, contents, Addr(h.start, segs, j));
    hide Append;
    hide Addr;
    hide Linked;
  }

  lemma AppendTail(h: Heap, segs: seq<Seg>, bytes: nat, contents: Words)
    requires Represents(h, segs) && bytes >= HEADER && Fresh(h, contents)
    ensures HeaderAt(Append(h, bytes, contents).words, h.start, segs + [Seg(bytes - HEADER, true)], |segs|)
    ensures Addr(h.start, segs + [Seg(bytes - HEADER, true)], |segs|) == h.end
  {
    var tail := Seg(bytes - HEADER, true);
    AddrConcat(h.start, segs, [tail], |segs|);
    AddrConcat(h.start, segs, [tail], |segs| - 1);
    AddrFacts(h.start, segs, |segs| - 1);
  }

  lemma AppendRepresents(h: Heap, segs: seq<Seg>, bytes: nat, contents: Words)
    requires Represents(h, segs) && bytes >= HEADER && Fresh(h, contents)
    ensures Represents(Append(h, bytes, contents), segs + [Seg(bytes - HEADER, true)])
  {
    var tail := Seg(bytes - HEADER, true);
    var r := segs + [tail];
    forall j | 0 <= j < |r|
      ensures HeaderAt(Append(h, bytes, contents).words, h.start, r, j)
    {
      if j < |segs| {
        AppendKeepsHeader(h, segs, bytes, contents, j);
      } else {
        AppendTail(h, segs, bytes, contents);
      }
    }
    AppendTail(h, segs, bytes, contents);
    SpanConcat(segs, [tail]);
    SpanOne(tail);
    hide HeaderAt;
  }

  /**
   * `ExpandHeap` as written keeps the heap well formed if and only if the last segment is in use; with the slip
   * repaired it always appends the new bytes and joins them with a free last segment.
   */
  lemma ExpandExactly(h: Heap, variant: Variant, segs: seq<Seg>, bytes: nat, contents: Words)
    requires Represents(h, segs) && bytes >= HEADER && Fresh(h, contents)
    ensures WellFormed(Expand(h, variant, bytes, contents)) <==> variant.Intended? || !segs[|segs| - 1].free
    ensures WellFormed(Expand(h, variant, bytes, contents)) ==>
      Represents(Expand(h, variant, bytes, contents), Grow(segs, bytes))
  {
    hide *;
    var r, longer := segs + [Seg(bytes - HEADER, true)], Append(h, bytes, contents);
    AppendRepresents(h, segs, bytes, contents);
    GrowIs(h, variant, segs, bytes, contents);
    if segs[|segs| - 1].free {
      MergeExactly(longer, variant, r, |segs| - 1);
      LastNotAbsorbed(r);
    } else {
      assert WellFormed(longer) by { IsWellFormed(longer, r); }
    }
  }

  lemma IsWellFormed(h: Heap, segs: seq<Seg>)
    requires Represents(h, segs)
    ensures WellFormed(h)
  {
    hide Represents;
  }

  lemma LastNotAbsorbed(segs: seq<Seg>)
    requires |segs| > 1 && segs[|segs| - 1].free
    ensures AbsorbsLast(segs, |segs| - 2)
  {
  }

  /** `ExpandHeap` is an append and, behind a free last segment, a merge. */
  lemma GrowIs(h: Heap, variant: Variant, segs: seq<Seg>, bytes: nat, contents: Words)
    requires Represents(h, segs) && bytes >= HEADER && Fresh(h, contents)
    ensures var r, longer := segs + [Seg(bytes - HEADER, true)], Append(h, bytes, contents);
      && |segs| > 0 && longer.start == h.start
      && if segs[|segs| - 1].free
         then
           && Grow(segs, bytes) == MergeAt(r, |segs| - 1)
           && Expand(h, variant, bytes, contents)
              == CombineForward(longer, variant, Addr(longer.start, r, |segs| - 1))
         else Grow(segs, bytes) == r && Expand(h, variant, bytes, contents) == longer
  {
    AppendRepresents(h, segs, bytes, contents);
    AppendTail(h, segs, bytes, contents);
    var longer := Append(h, bytes, contents);
    assert longer.start == h.start;
    hide Append, CombineForward, Addr, HeaderAt, MergeAt, CombineBackward;
    BackwardIsForward(longer, variant, segs + [Seg(bytes - HEADER, true)], |segs|);
  }

  // ---- initializeHeap

  function Initial(contents: Words, start: nat, pages: nat): Heap
    requires pages > 0
  {
    var length := pages * PAGE;
    var w := contents[start := length - HEADER];
    var w := w[start + 8 := 0];
    var w := w[start + 16 := 0];
    var w := w[start + 24 := 1];
    Heap(w, start, start + length, start)
  }

  /** The heap starts as one free segment over all its pages. */
  lemma InitialRepresents(contents: Words, start: nat, pages: nat)
    requires pages > 0 && start >= 0x1000
    ensures Represents(Initial(contents, start, pages), [Seg(pages * PAGE - HEADER, true)])
    ensures Sound([Seg(pages * PAGE - HEADER, true)])
  {
    var s := Seg(pages * PAGE - HEADER, true);
    SpanOne(s);
    assert [s][..0] == [] && Addr(start, [s], 0) == start;
    assert HeaderAt(Initial(contents, start, pages).words, start, [s], 0);
    assert s.length % 0x10 == 0 by { assert pages * PAGE == 0x10 * (pages * 0x100); }
  }

  // ---- Payloads

  /** No block contains the word at x. */
  ghost predicate Outside(start: nat, segs: seq<Seg>, x: nat) {
    forall k: nat :: k < |segs| && !segs[k].free ==> !InPayload(start, segs, k, x)
  }

  ghost predicate InPayload(start: nat, segs: seq<Seg>, k: nat, x: nat)
    requires k < |segs|
  {
    Addr(start, segs, k) + HEADER <= x < Addr(start, segs, k) + HEADER + segs[k].length
  }

  /** Every word of every block is the same in both memories. */
  ghost predicate SamePayloads(w: Words, v: Words, start: nat, segs: seq<Seg>) {
    forall p: nat, n: nat, x: nat :: IsBlock(start, segs, p, n) && p <= x < p + n ==> Get(v, x) == Get(w, x)
  }

  lemma HeaderOutside(start: nat, segs: seq<Seg>, i: nat, x: nat)
    requires i < |segs| && Addr(start, segs, i) <= x < Addr(start, segs, i) + HEADER
    ensures Outside(start, segs, x)
  {
    forall k: nat | k < |segs| && !segs[k].free
      ensures !InPayload(start, segs, k, x)
    {
      if k < i {
        AddrOrdered(start, segs, k, i);
      } else if i < k {
        AddrOrdered(start, segs, i, k);
      }
    }
  }

  lemma FreeOutside(start: nat, segs: seq<Seg>, i: nat, x: nat)
    requires i < |segs| && segs[i].free && InPayload(start, segs, i, x)
    ensures Outside(start, segs, x)
  {
    forall k: nat | k < |segs| && !segs[k].free
      ensures !InPayload(start, segs, k, x)
    {
      if k < i {
        AddrOrdered(start, segs, k, i);
      } else {
        AddrOrdered(start, segs, i, k);
      }
    }
  }

  lemma BeyondOutside(start: nat, segs: seq<Seg>, x: nat)
    requires x < start || x >= start + Span(segs)
    ensures Outside(start, segs, x)
  {
    forall k: nat | k < |segs| && !segs[k].free
      ensures !InPayload(start, segs, k, x)
    {
      AddrFacts(start, segs, k);
    }
  }

  lemma OutsideKeepsPayloads(w: Words, v: Words, start: nat, segs: seq<Seg>)
    requires forall x: nat :: Get(v, x) != Get(w, x) ==> Outside(start, segs, x)
    ensures SamePayloads(w, v, start, segs)
  {
    forall p: nat, n: nat, x: nat | IsBlock(start, segs, p, n) && p <= x < p + n
      ensures Get(v, x) == Get(w, x)
    {
      var k: nat :| BlockAt(start, segs, k, p, n);
      assert InPayload(start, segs, k, x);
    }
  }

  /** Splitting a free segment, in either variant, writes no word of any block. */
  lemma SplitKeepsPayloads(h: Heap, variant: Variant, segs: seq<Seg>, k: nat, n: nat)
    requires Represents(h, segs) && k < |segs| && segs[k].free && n < segs[k].length
    ensures SamePayloads(h.words, Split(h, variant, Addr(h.start, segs, k), n).words, h.start, segs)
  {
    var a := Addr(h.start, segs, k);
    var v := Split(h, variant, a, n).words;
    forall x: nat | Get(v, x) != Get(h.words, x)
      ensures Outside(h.start, segs, x)
    {
      SplitWritesOutside(h, variant, segs, k, n, x);
    }
    OutsideKeepsPayloads(h.words, v, h.start, segs);
    hide Split;
  }

  lemma SplitWritesOutside(h: Heap, variant: Variant, segs: seq<Seg>, k: nat, n: nat, x: nat)
    requires Represents(h, segs) && k < |segs| && segs[k].free && n < segs[k].length
    requires Get(Split(h, variant, Addr(h.start, segs, k), n).words, x) != Get(h.words, x)
    ensures Outside(h.start, segs, x)
  {
    var a, next := Addr(h.start, segs, k), NextAddr(h.start, segs, k);
    assert HeaderAt(h.words, h.start, segs, k);
    AddrFacts(h.start, segs, k);
    SplitWritesWhere(h, variant, a, n, x);
    RestBound(segs[k], n);
    if a <= x < a + HEADER {
      HeaderOutside(h.start, segs, k, x);
    } else if x == next + 16 {
      if k + 1 < |segs| {
        HeaderOutside(h.start, segs, k + 1, x);
      } else {
        BeyondOutside(h.start, segs, x);
      }
    } else {
      FreeOutside(h.start, segs, k, x);
    }
    hide *;
  }

  lemma SplitWritesWhere(h: Heap, variant: Variant, seg: nat, n: nat, x: nat)
    requires Get(Split(h, variant, seg, n).words, x) != Get(h.words, x)
    ensures n >= 0x10 && Int32(Get(h.words, seg) - n - HEADER) >= 0x10
    ensures seg <= x < seg + HEADER || seg + n + HEADER <= x <= seg + n + HEADER + 24 || x == Get(h.words, seg + 8) + 16
  {
  }

  lemma RestBound(s: Seg, n: nat)
    requires n < s.length && Int32(Rest(s, n)) >= 0x10
    ensures Rest(s, n) >= 0x10
  {
  }

  lemma MergeWritesWhere(h: Heap, variant: Variant, seg: nat, x: nat)
    requires Get(CombineForward(h, variant, seg).words, x) != Get(h.words, x)
    ensures var next := Get(h.words, seg + 8);
      next != 0 && Get(h.words, next + 24) != 0 &&
      (x == seg || x == seg + 8 || (Get(h.words, next + 8) != 0 && x == Get(h.words, next + 8) + 16))
  {
  }

  /** Merging writes no word of any block. */
  lemma MergeKeepsPayloads(h: Heap, variant: Variant, segs: seq<Seg>, k: nat)
    requires Linked(h, segs) && k < |segs|
    ensures SamePayloads(h.words, CombineForward(h, variant, Addr(h.start, segs, k)).words, h.start, segs)
  {
    var a := Addr(h.start, segs, k);
    var v := CombineForward(h, variant, a).words;
    forall x: nat | Get(v, x) != Get(h.words, x)
      ensures Outside(h.start, segs, x)
    {
      MergeWritesWhere(h, variant, a, x);
      assert HeaderAt(h.words, h.start, segs, k);
      assert HeaderAt(h.words, h.start, segs, k + 1);
      AddrFacts(h.start, segs, k);
      if x == a || x == a + 8 {
        HeaderOutside(h.start, segs, k, x);
      } else {
        HeaderOutside(h.start, segs, k + 2, x);
      }
    }
    OutsideKeepsPayloads(h.words, v, h.start, segs);
    hide CombineForward;
  }

  lemma MarkAtKeepsPayloads(h: Heap, start: nat, segs: seq<Seg>, k: nat, free: bool)
    requires k < |segs|
    ensures SamePayloads(h.words, Mark(h, Addr(start, segs, k), free).words, start, segs)
  {
    var v := Mark(h, Addr(start, segs, k), free).words;
    forall x: nat | Get(v, x) != Get(h.words, x)
      ensures Outside(start, segs, x)
    {
      HeaderOutside(start, segs, k, x);
    }
    OutsideKeepsPayloads(h.words, v, start, segs);
  }

  lemma AppendKeepsPayloads(h: Heap, segs: seq<Seg>, bytes: nat, contents: Words)
    requires Represents(h, segs) && bytes >= HEADER && Fresh(h, contents)
    ensures SamePayloads(h.words, Append(h, bytes, contents).words, h.start, segs)
  {
    var v := Append(h, bytes, contents).words;
    forall x: nat | Get(v, x) != Get(h.words, x)
      ensures Outside(h.start, segs, x)
    {
      if x == h.last + 8 {
        HeaderOutside(h.start, segs, |segs| - 1, x);
      } else {
        BeyondOutside(h.start, segs, x);
      }
    }
    OutsideKeepsPayloads(h.words, v, h.start, segs);
    hide Append;
  }

  lemma SameTwice(u: Words, v: Words, w: Words, start: nat, segs: seq<Seg>, later: seq<Seg>)
    requires SamePayloads(u, v, start, segs) && SamePayloads(v, w, start, later)
    requires forall p: nat, n: nat :: IsBlock(start, later, p, n) ==> IsBlock(start, segs, p, n)
    ensures SamePayloads(u, w, start, later)
  {
  }

  /** `ExpandHeap` writes no word of any block, in either variant. */
  lemma ExpandKeepsPayloads(h: Heap, variant: Variant, segs: seq<Seg>, bytes: nat, contents: Words)
    requires Represents(h, segs) && bytes >= HEADER && Fresh(h, contents)
    ensures SamePayloads(h.words, Expand(h, variant, bytes, contents).words, h.start, segs)
  {
    var tail := Seg(bytes - HEADER, true);
    var r := segs + [tail];
    AppendKeepsPayloads(h, segs, bytes, contents);
    AppendRepresents(h, segs, bytes, contents);
    AppendTail(h, segs, bytes, contents);
    var longer := Append(h, bytes, contents);
    assert longer.start == h.start;
    hide Append;
    BackwardIsForward(longer, variant, r, |segs|);
    hide CombineForward;
    forall p: nat, n: nat
      ensures IsBlock(h.start, r, p, n) <==> IsBlock(h.start, segs, p, n)
    {
      BlockConcat(h.start, segs, [tail], p, n);
      BlockOne(h.start + Span(segs), tail, p, n);
    }
    if segs[|segs| - 1].free {
      MergeKeepsPayloads(longer, variant, r, |segs| - 1);
      hide SamePayloads;
      SameTwice(h.words, longer.words, Expand(h, variant, bytes, contents).words, h.start, segs, r);
      SameBlocks(h.words, Expand(h, variant, bytes, contents).words, h.start, r, segs);
    }
  }

  lemma SameBlocks(u: Words, v: Words, start: nat, segs: seq<Seg>, others: seq<Seg>)
    requires SamePayloads(u, v, start, segs)
    requires forall p: nat, n: nat :: IsBlock(start, others, p, n) ==> IsBlock(start, segs, p, n)
    ensures SamePayloads(u, v, start, others)
  {
  }

  /** `free` writes no word of any block that stays, in either variant. */
  lemma ReleaseKeepsPayloads(h: Heap, variant: Variant, segs: seq<Seg>, k: nat)
    requires Represents(h, segs) && k < |segs| && !segs[k].free
    ensures SamePayloads(h.words, Release(h, variant, Addr(h.start, segs, k)).words, h.start, FreeAt(segs, k))
  {
    var a := Addr(h.start, segs, k);
    var freed := segs[k := segs[k].(free := true)];
    var merged := MergeAt(freed, k);
    SameLengths(segs[..k], freed[..k]);
    MarkRepresents(h, segs, k, true);
    MarkAtKeepsPayloads(h, h.start, segs, k, true);
    var marked := Mark(h, a, true);
    assert marked.start == h.start && Addr(h.start, freed, k) == a;
    MergeKeepsAddr(h.start, freed, k, k);
    hide Mark;
    MergeLinked(marked, variant, freed, k);
    MergeKeepsPayloads(marked, variant, freed, k);
    var forward := CombineForward(marked, variant, a);
    BackwardIsForward(forward, variant, merged, k);
    hide CombineForward;
    hide CombineBackward;
    hide SamePayloads;
    forall p: nat, n: nat
      ensures IsBlock(h.start, freed, p, n) ==> IsBlock(h.start, segs, p, n)
      ensures IsBlock(h.start, merged, p, n) <==> IsBlock(h.start, freed, p, n)
      ensures IsBlock(h.start, FreeAt(segs, k), p, n) <==> IsBlock(h.start, merged, p, n)
    {
      MarkFree(h.start, segs, k, p, n);
      MergeKeepsBlocks(h.start, freed, k, p, n);
      if k > 0 && merged[k - 1].free {
        MergeKeepsBlocks(h.start, merged, k - 1, p, n);
      }
    }
    SameTwice(h.words, marked.words, forward.words, h.start, segs, freed);
    SameBlocks(h.words, forward.words, h.start, freed, merged);
    if k > 0 && merged[k - 1].free {
      MergeKeepsPayloads(forward, variant, merged, k - 1);
      SameTwice(h.words, forward.words, Release(h, variant, a).words, h.start, merged, merged);
    }
    SameBlocks(h.words, Release(h, variant, a).words, h.start, merged, FreeAt(segs, k));
  }

  // ---- The step of malloc that takes a segment

  function Take(h: Heap, variant: Variant, seg: nat, size: nat): Heap {
    Mark(if Get(h.words, seg) > size then Split(h, variant, seg, size) else h, seg, false)
  }

  lemma TakeRepresents(h: Heap, segs: seq<Seg>, k: nat, size: nat)
    requires Represents(h, segs) && k < |segs| && (segs[k].length <= size || !Truncates(segs[k], size))
    ensures Represents(Take(h, Intended, Addr(h.start, segs, k), size), TakeAt(segs, k, size))
    ensures Addr(h.start, TakeAt(segs, k, size), k) == Addr(h.start, segs, k)
  {
    hide *;
    TakeStages(h, Intended, segs, k, size);
    var cut := if segs[k].length > size then SplitAt(segs, k, size) else segs;
    if segs[k].length > size {
      SplitRepresents(h, segs, k, size);
      MarkRepresents(Split(h, Intended, Addr(h.start, segs, k), size), cut, k, false);
    } else {
      MarkRepresents(h, segs, k, false);
    }
  }

  /** Taking a segment is a split of a longer one and a mark. */
  lemma TakeStages(h: Heap, variant: Variant, segs: seq<Seg>, k: nat, size: nat)
    requires Represents(h, segs) && k < |segs|
    ensures var a, cut := Addr(h.start, segs, k), if segs[k].length > size then SplitAt(segs, k, size) else segs;
      && k < |cut| && TakeAt(segs, k, size) == cut[k := cut[k].(free := false)]
      && Addr(h.start, cut, k) == a && Addr(h.start, TakeAt(segs, k, size), k) == a
      && Split(h, variant, a, size).start == h.start
      && Take(h, variant, a, size)
         == Mark(if segs[k].length > size then Split(h, variant, a, size) else h, a, false)
  {
    HeaderOf(h, segs, k);
    var cut := if segs[k].length > size then SplitAt(segs, k, size) else segs;
    assert cut[..k] == segs[..k] && TakeAt(segs, k, size)[..k] == segs[..k];
    hide Mark;
  }

  /** Taking a free segment writes no word of any block. */
  lemma TakeKeepsPayloads(h: Heap, variant: Variant, segs: seq<Seg>, k: nat, size: nat)
    requires Represents(h, segs) && k < |segs| && segs[k].free
    ensures SamePayloads(h.words, Take(h, variant, Addr(h.start, segs, k), size).words, h.start, segs)
  {
    hide *;
    TakeStages(h, variant, segs, k, size);
    var a := Addr(h.start, segs, k);
    if segs[k].length > size {
      SplitKeepsPayloads(h, variant, segs, k, size);
      var cut := Split(h, variant, a, size);
      MarkAtKeepsPayloads(cut, h.start, segs, k, false);
      SameTwice(h.words, cut.words, Mark(cut, a, false).words, h.start, segs, segs);
    } else {
      MarkAtKeepsPayloads(h, h.start, segs, k, false);
    }
  }

  /**
   * Taking a segment as written keeps the heap well formed if and only if it is not split, or it is not the last one
   * and its rest survives int32_t; with the slips repaired the last segment may be split too.
   */
  lemma TakeExactly(h: Heap, variant: Variant, segs: seq<Seg>, k: nat, size: nat)
    requires Represents(h, segs) && k < |segs|
    ensures WellFormed(Take(h, variant, Addr(h.start, segs, k), size)) <==>
      || segs[k].length <= size || !Splits(segs[k], size)
      || (!Truncates(segs[k], size) && (variant.Intended? || k + 1 < |segs|))
    ensures WellFormed(Take(h, variant, Addr(h.start, segs, k), size)) ==>
      Represents(Take(h, variant, Addr(h.start, segs, k), size), TakeAt(segs, k, size))
  {
    hide *;
    TakeTruncatedOrNot(segs[k], size);
    if segs[k].length > size && Truncates(segs[k], size) {
      TakeTruncated(h, variant, segs, k, size);
    } else {
      TakeUntruncated(h, variant, segs, k, size);
    }
  }

  lemma TakeTruncatedOrNot(s: Seg, size: nat)
    ensures Truncates(s, size) ==> Splits(s, size)
  {
    hide Splits;
  }

  lemma TakeTruncated(h: Heap, variant: Variant, segs: seq<Seg>, k: nat, size: nat)
    requires Represents(h, segs) && k < |segs| && segs[k].length > size && Truncates(segs[k], size)
    ensures !WellFormed(Take(h, variant, Addr(h.start, segs, k), size))
  {
    var a := Addr(h.start, segs, k);
    assert HeaderAt(h.words, h.start, segs, k);
    SplitTruncated(h, variant, segs, k, size);
    var cut := Split(h, variant, a, size);
    assert size >= 0x10;
    hide Split, Truncates, Linked;
    forall i | 0 <= i < k
      ensures Get(Mark(cut, a, false).words, Addr(h.start, segs, i) + 8) == Addr(h.start, segs, i + 1)
    {
      AddrOrdered(h.start, segs, i, k);
    }
    CutIsBroken(h, segs, k, size, Mark(cut, a, false));
  }

  lemma TakeUntruncated(h: Heap, variant: Variant, segs: seq<Seg>, k: nat, size: nat)
    requires Represents(h, segs) && k < |segs| && (segs[k].length <= size || !Truncates(segs[k], size))
    ensures WellFormed(Take(h, variant, Addr(h.start, segs, k), size)) <==>
      variant.Intended? || k + 1 < |segs| || segs[k].length <= size || !Splits(segs[k], size)
    ensures WellFormed(Take(h, variant, Addr(h.start, segs, k), size)) ==>
      Represents(Take(h, variant, Addr(h.start, segs, k), size), TakeAt(segs, k, size))
  {
    assert HeaderAt(h.words, h.start, segs, k);
    TakeRepresents(h, segs, k, size);
    if variant.AsWritten? {
      if k + 1 < |segs| || segs[k].length <= size || !Splits(segs[k], size) {
        if segs[k].length > size {
          SplitVariants(h, segs, k, size);
        }
      } else {
        TakeLastAsWritten(h, segs, size);
      }
    }
    hide Linked;
    hide Split;
  }

  lemma TakeLastAsWritten(h: Heap, segs: seq<Seg>, size: nat)
    requires Represents(h, segs) && segs[|segs| - 1].length > size && Splits(segs[|segs| - 1], size)
    ensures !WellFormed(Take(h, AsWritten, h.last, size))
  {
    assert HeaderAt(h.words, h.start, segs, |segs| - 1);
    var after := Take(h, AsWritten, h.last, size);
    assert after.last == h.last && Get(after.words, h.last + 8) == h.last + size + HEADER;
    forall s | Represents(after, s)
      ensures false
    {
      LastHasNoNext(after, s);
    }
  }

  /**
   * As written, the first `malloc` after boot that leaves room for another segment already breaks the heap: it takes
   * the only segment, and splits it.
   */
  lemma FirstMallocAsWritten(contents: Words, size: nat)
    requires 0x10 <= size <= 0x10 * PAGE - 2 * HEADER - 0x10
    ensures var h := Initial(contents, 0x100_0000, 0x10);
      && FirstFit([Seg(0x10 * PAGE - HEADER, true)], size) == 0
      && !WellFormed(Split(h, AsWritten, 0x100_0000, size)) && !WellFormed(Take(h, AsWritten, 0x100_0000, size))
      && WellFormed(Split(h, Intended, 0x100_0000, size)) && WellFormed(Take(h, Intended, 0x100_0000, size))
  {
    var h := Initial(contents, 0x100_0000, 0x10);
    var segs := [Seg(0x10 * PAGE - HEADER, true)];
    InitialRepresents(contents, 0x100_0000, 0x10);
    AddrFacts(h.start, segs, 0);
    hide Represents, WellFormed, Addr, Split, Take;
    SplitExactly(h, AsWritten, segs, 0, size);
    SplitExactly(h, Intended, segs, 0, size);
    TakeExactly(h, AsWritten, segs, 0, size);
    TakeExactly(h, Intended, segs, 0, size);
  }
}
