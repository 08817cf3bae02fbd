/** `malloc` as heap.cpp has it: on which heaps it returns. */
module HeapsAsWritten {
  import opened Units
  import opened HeapSegments
  import opened HeapBlocks
  import opened HeapMemory
  import opened HeapPayload
  import opened HeapRuns

  /** The search of `malloc` comes to a segment that fits within so many segments from `seg` on. */
  ghost predicate Finds(w: Words, seg: nat, size: nat, steps: nat)
    decreases steps
  {
    steps > 0 &&
    ((Get(w, seg + 24) != 0 && Get(w, seg) >= size) ||
     (Get(w, seg + 8) != 0 && Finds(w, Get(w, seg + 8), size, steps - 1)))
  }

  ghost predicate Succeeds(h: Heap, size: nat) {
    exists steps: nat :: Finds(h.words, h.start, size, steps)
  }

  /** The heap after the first `tries` expansions of a `malloc` whose searches fail. */
  ghost function Tried(h: Heap, fill: nat -> nat, size: nat, tries: nat): Heap {
    if tries == 0 then h
    else
      var g := Tried(h, fill, size, tries - 1);
      Expand(g, AsWritten, GrowBytes(size), PageWords(fill, g.end, GrowBytes(size)))
  }

  /** Some search of `malloc` succeeds, so that it returns. */
  ghost predicate Returns(h: Heap, fill: nat -> nat, size: nat) {
    exists tries: nat :: Succeeds(Tried(h, fill, size, tries), size)
  }

  // ---- The search

  /** The headers of these segments, with nothing said about what lies behind them. */
  ghost predicate Chain(w: Words, start: nat, segs: seq<Seg>) {
    |segs| > 0 && start > 0 && forall k :: 0 <= k < |segs| ==> HeaderAt(w, start, segs, k)
  }

  lemma {:induction false} ChainSearch(w: Words, start: nat, segs: seq<Seg>, size: nat, k: nat, steps: nat)
    requires Chain(w, start, segs) && k < |segs|
    requires forall i :: 0 <= i < k ==> !FitsIn(segs[i], size)
    ensures Finds(w, Addr(start, segs, k), size, steps) ==> FirstFit(segs, size) < |segs|
    ensures FirstFit(segs, size) < |segs| && steps >= |segs| - k ==> Finds(w, Addr(start, segs, k), size, steps)
    decreases |segs| - k
  {
    assert HeaderAt(w, start, segs, k);
    if steps > 0 {
      if FitsIn(segs[k], size) {
        FitExists(segs, size, k);
      } else if k + 1 < |segs| {
        AddrNext(start, segs, k);
        ChainSearch(w, start, segs, size, k + 1, steps - 1);
      } else {
        NoFit(segs, size);
      }
    }
    hide Addr, FirstFit;
  }

  lemma FitExists(segs: seq<Seg>, size: nat, k: nat)
    requires k < |segs| && FitsIn(segs[k], size)
    ensures FirstFit(segs, size) < |segs|
  {
    hide FitsIn;
  }

  lemma NoFit(segs: seq<Seg>, size: nat)
    requires forall i :: 0 <= i < |segs| ==> !FitsIn(segs[i], size)
    ensures FirstFit(segs, size) == |segs|
  {
    if FirstFit(segs, size) < |segs| {
      assert FitsIn(segs[FirstFit(segs, size)], size);
    }
  }

  lemma SearchExactly(h: Heap, segs: seq<Seg>, size: nat)
    requires Chain(h.words, h.start, segs)
    ensures Succeeds(h, size) <==> FirstFit(segs, size) < |segs|
  {
    assert Addr(h.start, segs, 0) == h.start by { assert segs[..0] == []; }
    hide Chain, Addr, FirstFit, Finds;
    if Succeeds(h, size) {
      var steps: nat :| Finds(h.words, h.start, size, steps);
      ChainSearch(h.words, h.start, segs, size, 0, steps);
    }
    if FirstFit(segs, size) < |segs| {
      ChainSearch(h.words, h.start, segs, size, 0, |segs|);
    }
  }

  lemma LinkedIsChain(h: Heap, segs: seq<Seg>)
    requires Linked(h, segs)
    ensures Chain(h.words, h.start, segs)
  {
    hide HeaderAt;
  }

  // ---- What an expansion as written leaves

  /**
   * LastHdr names no header of the chain any more, but a place inside or behind its last segment: expansions append
   * to that place, and the chain never changes again.
   */
  ghost predicate Stuck(h: Heap, segs: seq<Seg>) {
    && Chain(h.words, h.start, segs) && Addr(h.start, segs, |segs| - 1) + HEADER <= h.last
    && h.last + HEADER <= h.end && Get(h.words, h.last + 24) != 0
  }

  lemma StuckWords(h: Heap, fill: nat -> nat, bytes: nat, x: nat)
    requires 0 < h.last && h.last + HEADER <= h.end && Get(h.words, h.last + 24) != 0
    ensures var g := Expand(h, AsWritten, bytes, PageWords(fill, h.end, bytes));
      && g.start == h.start && g.last == h.end && g.end == h.end + bytes && Get(g.words, h.end + 24) == 1
      && (x < h.last ==> Get(g.words, x) == Get(h.words, x))
  {
    hide *;
    var g := Append(h, bytes, PageWords(fill, h.end, bytes));
    FreshPages(h, fill, bytes);
    AppendedWords(h, bytes, PageWords(fill, h.end, bytes), x);
    MergeAtPlace(g, h.last, h.end, x);
    ExpandIsMerge(h, bytes, PageWords(fill, h.end, bytes));
  }

  lemma AppendedWords(h: Heap, bytes: nat, contents: Words, x: nat)
    requires 0 < h.last && h.last + HEADER <= h.end && Get(h.words, h.last + 24) != 0 && Fresh(h, contents)
    ensures var g := Append(h, bytes, contents);
      && HEADER == 32 && g.start == h.start && g.last == h.end && g.end == h.end + bytes
      && Get(g.words, h.end + 24) == 1 && Get(g.words, h.end + 16) == h.last && Get(g.words, h.end + 8) == 0
      && Get(g.words, h.last + 8) == h.end && Get(g.words, h.last + 24) != 0
      && (x < h.last ==> Get(g.words, x) == Get(h.words, x))
  {
  }

  lemma MergeAtPlace(g: Heap, last: nat, end: nat, x: nat)
    requires 0 < last && last + 32 <= end && Get(g.words, last + 8) == end && Get(g.words, last + 24) != 0
    requires Get(g.words, end + 24) == 1 && Get(g.words, end + 16) == last && Get(g.words, end + 8) == 0
    ensures var m := CombineBackward(g, AsWritten, end);
      && m.start == g.start && m.last == g.last && m.end == g.end && Get(m.words, end + 24) == 1
      && (x < last ==> Get(m.words, x) == Get(g.words, x))
  {
  }

  lemma ExpandIsMerge(h: Heap, bytes: nat, contents: Words)
    ensures Expand(h, AsWritten, bytes, contents) == CombineBackward(Append(h, bytes, contents), AsWritten, h.end)
  {
    hide Append, CombineBackward;
  }

  lemma ChainHeader(w: Words, start: nat, segs: seq<Seg>, k: nat)
    requires Chain(w, start, segs) && k < |segs|
    ensures Header(w, Addr(start, segs, k), segs[k].length, NextAddr(start, segs, k), PrevAddr(start, segs, k),
                   segs[k].free)
  {
    assert HeaderAt(w, start, segs, k);
    hide Addr, NextAddr, PrevAddr, Header;
  }

  lemma SameFour(w: Words, v: Words, a: nat)
    requires Get(v, a) == Get(w, a) && Get(v, a + 8) == Get(w, a + 8)
    requires Get(v, a + 16) == Get(w, a + 16) && Get(v, a + 24) == Get(w, a + 24)
    ensures FourWords(v, a, Get(w, a), Get(w, a + 8), Get(w, a + 16), Get(w, a + 24))
  {
  }

  lemma StuckHeader(h: Heap, fill: nat -> nat, segs: seq<Seg>, bytes: nat, k: nat)
    requires Stuck(h, segs) && k < |segs|
    ensures HeaderAt(Expand(h, AsWritten, bytes, PageWords(fill, h.end, bytes)).words, h.start, segs, k)
  {
    hide *;
    StuckParts(h, segs, k);
    ChainHeader(h.words, h.start, segs, k);
    var v, a := Expand(h, AsWritten, bytes, PageWords(fill, h.end, bytes)).words, Addr(h.start, segs, k);
    StuckWords(h, fill, bytes, a);
    StuckWords(h, fill, bytes, a + 8);
    StuckWords(h, fill, bytes, a + 16);
    StuckWords(h, fill, bytes, a + 24);
    SameFour(h.words, v, a);
    HeaderCopied(h.words, v, a, segs[k].length, NextAddr(h.start, segs, k), PrevAddr(h.start, segs, k), segs[k].free);
    HeaderIs(v, h.start, segs, k);
  }

  lemma StuckParts(h: Heap, segs: seq<Seg>, k: nat)
    requires Stuck(h, segs) && k < |segs|
    ensures HEADER == 32 && Chain(h.words, h.start, segs) && 0 < h.last && h.last + HEADER <= h.end
    ensures Get(h.words, h.last + 24) != 0 && Addr(h.start, segs, k) + HEADER <= h.last
    ensures Addr(h.start, segs, |segs| - 1) + HEADER <= h.last
  {
    if k < |segs| - 1 {
      AddrOrdered(h.start, segs, k, |segs| - 1);
    }
    hide Addr, HeaderAt;
  }

  lemma StuckStays(h: Heap, fill: nat -> nat, segs: seq<Seg>, bytes: nat)
    requires Stuck(h, segs) && bytes >= HEADER
    ensures Stuck(Expand(h, AsWritten, bytes, PageWords(fill, h.end, bytes)), segs)
    ensures Expand(h, AsWritten, bytes, PageWords(fill, h.end, bytes)).start == h.start
  {
    var g := Expand(h, AsWritten, bytes, PageWords(fill, h.end, bytes));
    hide Expand, HeaderAt, Addr, PageWords;
    StuckParts(h, segs, |segs| - 1);
    StuckWords(h, fill, bytes, 0);
    forall k | 0 <= k < |segs|
      ensures HeaderAt(g.words, h.start, segs, k)
    {
      StuckHeader(h, fill, segs, bytes, k);
    }
  }

  /** The first expansion behind a free last segment gets a heap into that state. */
  lemma FirstStuck(h: Heap, fill: nat -> nat, segs: seq<Seg>, bytes: nat)
    requires Represents(h, segs) && segs[|segs| - 1].free && bytes >= HEADER
    ensures Stuck(Expand(h, AsWritten, bytes, PageWords(fill, h.end, bytes)), Grow(segs, bytes))
    ensures Expand(h, AsWritten, bytes, PageWords(fill, h.end, bytes)).start == h.start
  {
    hide *;
    var contents := PageWords(fill, h.end, bytes);
    var g, r := Expand(h, AsWritten, bytes, contents), segs + [Seg(bytes - HEADER, true)];
    NotEmpty(h, segs);
    FreshPages(h, fill, bytes);
    GrowIs(h, AsWritten, segs, bytes, contents);
    AppendRepresents(h, segs, bytes, contents);
    RepresentsIsLinked(Append(h, bytes, contents), r);
    MergeLinked(Append(h, bytes, contents), AsWritten, r, |segs| - 1);
    LinkedIsChain(g, Grow(segs, bytes));
    LastParts(h, segs);
    StuckWords(h, fill, bytes, 0);
    GrowPlace(h.start, segs, bytes);
    StuckIs(g, Grow(segs, bytes), h.end, bytes);
  }

  lemma RepresentsIsLinked(h: Heap, segs: seq<Seg>)
    requires Represents(h, segs)
    ensures Linked(h, segs)
  {
    hide Linked;
  }

  lemma LastParts(h: Heap, segs: seq<Seg>)
    requires Represents(h, segs) && segs[|segs| - 1].free
    ensures h.last == Addr(h.start, segs, |segs| - 1) && 0 < h.last && h.last + HEADER <= h.end
    ensures Get(h.words, h.last + 24) != 0
  {
    AddrFacts(h.start, segs, |segs| - 1);
    assert HeaderAt(h.words, h.start, segs, |segs| - 1);
    hide Addr;
  }

  lemma StuckIs(g: Heap, segs: seq<Seg>, end: nat, bytes: nat)
    requires Chain(g.words, g.start, segs) && Addr(g.start, segs, |segs| - 1) + HEADER <= end && bytes >= HEADER
    requires g.last == end && g.end == end + bytes && Get(g.words, end + 24) == 1
    ensures Stuck(g, segs)
  {
    hide Chain, Addr;
  }

  lemma GrowPlace(start: nat, segs: seq<Seg>, bytes: nat)
    requires |segs| > 0 && segs[|segs| - 1].free && bytes >= HEADER
    ensures |Grow(segs, bytes)| == |segs|
    ensures Addr(start, Grow(segs, bytes), |segs| - 1) == Addr(start, segs, |segs| - 1)
  {
    assert Grow(segs, bytes)[..|segs| - 1] == segs[..|segs| - 1];
  }

  // ---- When it returns

  lemma {:induction false} StaysStuck(h: Heap, fill: nat -> nat, segs: seq<Seg>, size: nat, tries: nat)
    requires Stuck(Tried(h, fill, size, 1), segs) && size > 0 && tries > 0
    requires Tried(h, fill, size, 1).start == h.start
    ensures Stuck(Tried(h, fill, size, tries), segs) && Tried(h, fill, size, tries).start == h.start
    decreases tries
  {
    hide Stuck, Expand, PageWords;
    if tries > 1 {
      StaysStuck(h, fill, segs, size, tries - 1);
      PageHoldsHeader(size);
      StuckStays(Tried(h, fill, size, tries - 1), fill, segs, GrowBytes(size));
    }
  }

  lemma TriedOnce(h: Heap, fill: nat -> nat, size: nat)
    ensures Tried(h, fill, size, 0) == h
    ensures Tried(h, fill, size, 1) == Expand(h, AsWritten, GrowBytes(size), PageWords(fill, h.end, GrowBytes(size)))
  {
    hide Expand, PageWords, GrowBytes;
  }

  /** Behind a free last segment only the first two searches can succeed. */
  lemma FreeLastReturns(h: Heap, fill: nat -> nat, segs: seq<Seg>, size: nat)
    requires Represents(h, segs) && segs[|segs| - 1].free && size > 0
    ensures Returns(h, fill, size) <==>
      FirstFit(segs, size) < |segs| || FirstFit(Grow(segs, GrowBytes(size)), size) < |segs|
  {
    hide *;
    NotEmpty(h, segs);
    PageHoldsHeader(size);
    var r := Grow(segs, GrowBytes(size));
    GrowPlace(h.start, segs, GrowBytes(size));
    TriedOnce(h, fill, size);
    FirstStuck(h, fill, segs, GrowBytes(size));
    RepresentedIsChain(h, segs);
    SearchExactly(h, segs, size);
    forall tries: nat | tries > 0
      ensures Succeeds(Tried(h, fill, size, tries), size) <==> FirstFit(r, size) < |r|
    {
      StaysStuck(h, fill, r, size, tries);
      StuckParts(Tried(h, fill, size, tries), r, 0);
      SearchExactly(Tried(h, fill, size, tries), r, size);
    }
    ReturnsIs(h, fill, size, FirstFit(segs, size) < |segs|, FirstFit(r, size) < |r|);
  }

  lemma RepresentedIsChain(h: Heap, segs: seq<Seg>)
    requires Represents(h, segs)
    ensures Chain(h.words, h.start, segs)
  {
    LinkedIsChain(h, segs);
    hide Linked, Chain;
  }

  /** The tries of a `malloc` whose first search succeeds if `now` and whose later ones do if `later`. */
  lemma ReturnsIs(h: Heap, fill: nat -> nat, size: nat, now: bool, later: bool)
    requires Succeeds(h, size) <==> now
    requires forall tries: nat :: tries > 0 ==> (Succeeds(Tried(h, fill, size, tries), size) <==> later)
    ensures Returns(h, fill, size) <==> now || later
  {
    TriedOnce(h, fill, size);
    hide Succeeds, Tried;
    assert Succeeds(Tried(h, fill, size, 0), size) <==> now;
    assert Succeeds(Tried(h, fill, size, 1), size) <==> later;
  }

  /** Behind a last segment in use the first expansion is a proper one, and `malloc` starts over from there. */
  lemma UsedLastReturns(h: Heap, fill: nat -> nat, segs: seq<Seg>, size: nat)
    requires Represents(h, segs) && !segs[|segs| - 1].free && size > 0 && FirstFit(segs, size) == |segs|
    ensures |Grow(segs, GrowBytes(size))| > 0
    ensures Represents(Tried(h, fill, size, 1), Grow(segs, GrowBytes(size)))
    ensures Returns(h, fill, size) <==> Returns(Tried(h, fill, size, 1), fill, size)
  {
    hide *;
    NotEmpty(h, segs);
    PageHoldsHeader(size);
    FreshPages(h, fill, GrowBytes(size));
    ExpandExactly(h, AsWritten, segs, GrowBytes(size), PageWords(fill, h.end, GrowBytes(size)));
    TriedOnce(h, fill, size);
    NotEmpty(Tried(h, fill, size, 1), Grow(segs, GrowBytes(size)));
    RepresentedIsChain(h, segs);
    SearchExactly(h, segs, size);
    ReturnsLater(h, fill, size);
  }

  lemma {:induction false} TriedShift(h: Heap, fill: nat -> nat, size: nat, tries: nat)
    ensures Tried(h, fill, size, tries + 1) == Tried(Tried(h, fill, size, 1), fill, size, tries)
  {
    hide Expand, PageWords, GrowBytes;
    if tries > 0 {
      TriedShift(h, fill, size, tries - 1);
    }
  }

  lemma ReturnsLater(h: Heap, fill: nat -> nat, size: nat)
    requires !Succeeds(h, size)
    ensures Returns(h, fill, size) <==> Returns(Tried(h, fill, size, 1), fill, size)
  {
    TriedOnce(h, fill, size);
    hide Succeeds, Tried;
    if Returns(h, fill, size) {
      var tries: nat :| Succeeds(Tried(h, fill, size, tries), size);
      assert tries > 0;
      TriedShift(h, fill, size, tries - 1);
    }
    if Returns(Tried(h, fill, size, 1), fill, size) {
      var tries: nat :| Succeeds(Tried(Tried(h, fill, size, 1), fill, size, tries), size);
      TriedShift(h, fill, size, tries);
    }
  }

  /** What two expansions add to the last segment. */
  lemma GrowFits(segs: seq<Seg>, size: nat)
    requires |segs| > 0 && size > 0 && FirstFit(segs, size) == |segs|
    ensures GrowBytes(size) >= HEADER && |Grow(segs, GrowBytes(size))| > 0
    ensures var r := Grow(segs, GrowBytes(size));
      var last, bytes := segs[|segs| - 1], GrowBytes(size);
      var length := if last.free then last.length + bytes else bytes - HEADER;
      r[|r| - 1] == Seg(length, true) && (FirstFit(r, size) < |r| <==> length >= size)
  {
    GrowLast(segs, GrowBytes(size));
    var r := Grow(segs, GrowBytes(size));
    assert forall i :: 0 <= i < |segs| ==> !FitsIn(segs[i], size);
    assert |r| == if segs[|segs| - 1].free then |segs| else |segs| + 1;
    assert forall i :: 0 <= i < |r| - 1 ==> r[i] == segs[i];
    hide FirstFit, GrowBytes, Grow;
    if FitsIn(r[|r| - 1], size) {
      FitExists(r, size, |r| - 1);
    } else {
      forall i | 0 <= i < |r|
        ensures !FitsIn(r[i], size)
      {
        if i < |r| - 1 {
          assert r[i] == segs[i];
        }
      }
      NoFit(r, size);
    }
  }

  /** Some segment fits, or two expansions make the last one fit. */
  predicate CanReturn(segs: seq<Seg>, size: nat)
    requires |segs| > 0
  {
    || FirstFit(segs, size) < |segs| || size % PAGE == 0
    || if segs[|segs| - 1].free then segs[|segs| - 1].length + PAGE >= size else 2 * PAGE - HEADER >= size
  }

  /**
   * As written, `malloc` returns if and only if a segment fits at once or the block is whole pages or one page more
   * makes the last segment fit, or two pages where that is in use; else it expands the heap for ever, because only its
   * first expansion behind a free segment is found again.
   */
  lemma ReturnsExactly(h: Heap, fill: nat -> nat, segs: seq<Seg>, size: nat)
    requires Represents(h, segs) && size > 0
    ensures |segs| > 0 && (Returns(h, fill, size) <==> CanReturn(segs, size))
  {
    hide *;
    NotEmpty(h, segs);
    if FirstFit(segs, size) == |segs| {
      GrowFits(segs, size);
      if !segs[|segs| - 1].free {
        var r := Grow(segs, GrowBytes(size));
        UsedLastReturns(h, fill, segs, size);
        FreeLastReturns(Tried(h, fill, size, 1), fill, r, size);
        if FirstFit(r, size) == |r| {
          GrowFits(r, size);
          GrowPlace(h.start, r, GrowBytes(size));
        }
      } else {
        FreeLastReturns(h, fill, segs, size);
        GrowPlace(h.start, segs, GrowBytes(size));
      }
    } else {
      RepresentedIsChain(h, segs);
      SearchExactly(h, segs, size);
      AtOnce(h, fill, size);
    }
    CanReturnIs(segs, size);
  }

  lemma AtOnce(h: Heap, fill: nat -> nat, size: nat)
    requires Succeeds(h, size)
    ensures Returns(h, fill, size)
  {
    assert Succeeds(Tried(h, fill, size, 0), size);
    hide Succeeds;
  }

  lemma CanReturnIs(segs: seq<Seg>, size: nat)
    requires |segs| > 0 && size > 0
    ensures FirstFit(segs, size) < |segs| ==> CanReturn(segs, size)
    ensures FirstFit(segs, size) == |segs| && segs[|segs| - 1].free ==>
      (CanReturn(segs, size) <==> segs[|segs| - 1].length + GrowBytes(size) >= size)
    ensures FirstFit(segs, size) == |segs| && !segs[|segs| - 1].free ==>
      (CanReturn(segs, size) <==>
       GrowBytes(size) - HEADER >= size || GrowBytes(size) - HEADER + GrowBytes(size) >= size)
  {
    ExpansionBytes(size);
    hide FirstFit, GrowBytes;
  }

  lemma ExpansionBytes(size: nat)
    requires size > 0
    ensures size % PAGE == 0 ==> GrowBytes(size) == size >= PAGE
    ensures size % PAGE != 0 ==> GrowBytes(size) == PAGE
  {
  }

  lemma SixteenPages()
    ensures !CanReturn([Seg(0x10 * PAGE - HEADER, true)], 17 * PAGE - 0x10)
  {
    NoFit([Seg(0x10 * PAGE - HEADER, true)], 17 * PAGE - 0x10);
  }

  /** On the heap of 16 pages that the kernel starts with, a request for 17 never returns. */
  lemma SeventeenPagesHang(contents: Words, fill: nat -> nat)
    ensures !Returns(Initial(contents, 0x100_0000, 0x10), fill, 17 * PAGE - 0x10)
  {
    var s := Seg(0x10 * PAGE - HEADER, true);
    InitialRepresents(contents, 0x100_0000, 0x10);
    hide *;
    ReturnsExactly(Initial(contents, 0x100_0000, 0x10), fill, [s], 17 * PAGE - 0x10);
    SixteenPages();
  }
}
