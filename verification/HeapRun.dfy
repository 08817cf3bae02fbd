/** `malloc`, `free` and their callers on memory, with the slips of heap.cpp repaired, and every run of them. */
module HeapRuns {
  import opened Units
  import opened HeapSegments
  import opened HeapBlocks
  import opened HeapMemory
  import opened HeapPayload

  /** The words of pages mapped at `address`, which hold what `fill` says. */
  function PageWords(fill: nat -> nat, address: nat, bytes: nat): (contents: Words)
    ensures forall x :: x in contents ==> address <= x
  {
    map x: nat | address <= x < address + bytes && x % 8 == 0 :: fill(x)
  }

  /** The segments a well formed heap represents; by RepresentationUnique there are no others. */
  ghost function SegsOf(h: Heap): (segs: seq<Seg>)
    requires WellFormed(h)
    ensures Represents(h, segs)
  {
    var segs :| Represents(h, segs);
    segs
  }

  lemma SegsAre(h: Heap, segs: seq<Seg>)
    requires Represents(h, segs)
    ensures WellFormed(h) && SegsOf(h) == segs && |segs| > 0
  {
    RepresentationUnique(h, SegsOf(h), segs);
  }

  // ---- One call

  /** `ExpandHeap` on pages that hold what `fill` says. */
  function Enlarge(h: Heap, fill: nat -> nat, bytes: nat): Heap {
    Expand(h, Intended, bytes, PageWords(fill, h.end, bytes))
  }

  /** `malloc` of a rounded, nonzero size. */
  ghost function Allocate(h: Heap, fill: nat -> nat, size: nat): Heap
    requires WellFormed(h) && size > 0
    decreases Shortage(SegsOf(h), size)
  {
    var segs := SegsOf(h);
    var k := FirstFit(segs, size);
    if k < |segs| then Take(h, Intended, Addr(h.start, segs, k), size)
    else
      EnlargeRepresents(h, segs, fill, size);
      Allocate(Enlarge(h, fill, GrowBytes(size)), fill, size)
  }

  lemma EnlargeAlways(h: Heap, segs: seq<Seg>, fill: nat -> nat, size: nat)
    requires Represents(h, segs) && size > 0
    ensures |segs| > 0 && GrowBytes(size) >= HEADER
    ensures WellFormed(Enlarge(h, fill, GrowBytes(size)))
    ensures SegsOf(Enlarge(h, fill, GrowBytes(size))) == Grow(segs, GrowBytes(size))
    ensures Represents(Enlarge(h, fill, GrowBytes(size)), Grow(segs, GrowBytes(size)))
  {
    hide *;
    NotEmpty(h, segs);
    PageHoldsHeader(size);
    FreshPages(h, fill, GrowBytes(size));
    ExpandExactly(h, Intended, segs, GrowBytes(size), PageWords(fill, h.end, GrowBytes(size)));
    EnlargeIs(h, fill, GrowBytes(size));
    SegsAre(Enlarge(h, fill, GrowBytes(size)), Grow(segs, GrowBytes(size)));
  }

  lemma EnlargeRepresents(h: Heap, segs: seq<Seg>, fill: nat -> nat, size: nat)
    requires Represents(h, segs) && size > 0 && FirstFit(segs, size) == |segs|
    ensures WellFormed(Enlarge(h, fill, GrowBytes(size)))
    ensures SegsOf(Enlarge(h, fill, GrowBytes(size))) == Grow(segs, GrowBytes(size))
    ensures Represents(Enlarge(h, fill, GrowBytes(size)), Grow(segs, GrowBytes(size)))
    ensures |Grow(segs, GrowBytes(size))| > 0
    ensures Shortage(Grow(segs, GrowBytes(size)), size) < Shortage(segs, size)
  {
    hide *;
    EnlargeAlways(h, segs, fill, size);
    GrowthReducesShortage(segs, size);
  }

  lemma NotEmpty(h: Heap, segs: seq<Seg>)
    requires Represents(h, segs)
    ensures |segs| > 0
  {
  }

  lemma PageHoldsHeader(size: nat)
    requires size > 0
    ensures HEADER <= GrowBytes(size)
  {
  }

  lemma FreshPages(h: Heap, fill: nat -> nat, bytes: nat)
    ensures Fresh(h, PageWords(fill, h.end, bytes))
  {
  }

  lemma EnlargeIs(h: Heap, fill: nat -> nat, bytes: nat)
    ensures Enlarge(h, fill, bytes) == Expand(h, Intended, bytes, PageWords(fill, h.end, bytes))
  {
  }

  lemma AllocateIs(h: Heap, segs: seq<Seg>, fill: nat -> nat, size: nat)
    requires Represents(h, segs) && size > 0
    ensures WellFormed(h)
    ensures FirstFit(segs, size) < |segs| ==>
      Allocate(h, fill, size) == Take(h, Intended, Addr(h.start, segs, FirstFit(segs, size)), size)
    ensures FirstFit(segs, size) == |segs| ==>
      && WellFormed(Enlarge(h, fill, GrowBytes(size)))
      && Allocate(h, fill, size) == Allocate(Enlarge(h, fill, GrowBytes(size)), fill, size)
  {
    SegsAre(h, segs);
    if FirstFit(segs, size) == |segs| {
      EnlargeRepresents(h, segs, fill, size);
    }
    hide Represents, Take, Enlarge, Addr, FirstFit, Grow, Shortage, WellFormed;
  }

  /**
   * `malloc` keeps the heap well formed if and only if the segment it takes is not truncated, and then takes the
   * first that fits after its expansions; in any case it writes no word of any block.
   */
  lemma {:induction false} AllocateExactly(h: Heap, segs: seq<Seg>, fill: nat -> nat, size: nat)
    requires Represents(h, segs) && size > 0
    ensures WellFormed(h) && |segs| > 0
    ensures WellFormed(Allocate(h, fill, size)) <==> Survives(segs, size)
    ensures Survives(segs, size) ==> Represents(Allocate(h, fill, size), Alloc(segs, size).0)
    ensures Allocate(h, fill, size).start == h.start
    ensures SamePayloads(h.words, Allocate(h, fill, size).words, h.start, segs)
    decreases Shortage(segs, size)
  {
    hide *;
    NotEmpty(h, segs);
    SurvivesIs(segs, size);
    AllocateIs(h, segs, fill, size);
    if FirstFit(segs, size) < |segs| {
      TakeFirst(h, segs, size);
    } else {
      var more := Enlarge(h, fill, GrowBytes(size));
      EnlargeRepresents(h, segs, fill, size);
      AllocateExactly(more, Grow(segs, GrowBytes(size)), fill, size);
      EnlargeKeepsPayloads(h, segs, fill, size);
      SamePayloadsAfterGrowth(h.words, more.words, Allocate(h, fill, size).words, h.start, segs, size);
    }
  }

  /** `malloc` on segments, one step at a time. */
  lemma SurvivesIs(segs: seq<Seg>, size: nat)
    requires |segs| > 0 && size > 0
    ensures FirstFit(segs, size) <= |segs|
    ensures FirstFit(segs, size) < |segs| ==>
      && (Survives(segs, size) <==> !Truncates(segs[FirstFit(segs, size)], size))
      && Alloc(segs, size).0 == TakeAt(segs, FirstFit(segs, size), size)
    ensures FirstFit(segs, size) == |segs| ==>
      && GrowBytes(size) >= HEADER && |Grow(segs, GrowBytes(size))| > 0
      && (Survives(segs, size) <==> Survives(Grow(segs, GrowBytes(size)), size))
      && Alloc(segs, size) == Alloc(Grow(segs, GrowBytes(size)), size)
  {
    AllocIsTake(segs, size);
    if FirstFit(segs, size) == |segs| {
      GrowthReducesShortage(segs, size);
      AllocIsTake(Grow(segs, GrowBytes(size)), size);
    }
    hide Truncates, Grow, TakeAt, GrowBytes, FirstFit;
  }

  lemma TakeFirst(h: Heap, segs: seq<Seg>, size: nat)
    requires Represents(h, segs) && FirstFit(segs, size) < |segs|
    ensures WellFormed(Take(h, Intended, Addr(h.start, segs, FirstFit(segs, size)), size)) <==>
      !Truncates(segs[FirstFit(segs, size)], size)
    ensures !Truncates(segs[FirstFit(segs, size)], size) ==>
      Represents(Take(h, Intended, Addr(h.start, segs, FirstFit(segs, size)), size),
                 TakeAt(segs, FirstFit(segs, size), size))
    ensures Take(h, Intended, Addr(h.start, segs, FirstFit(segs, size)), size).start == h.start
    ensures SamePayloads(h.words, Take(h, Intended, Addr(h.start, segs, FirstFit(segs, size)), size).words, h.start,
                         segs)
  {
    hide *;
    var k := FirstFit(segs, size);
    FirstFitFits(segs, size);
    TakeExactly(h, Intended, segs, k, size);
    TakeKeepsPayloads(h, Intended, segs, k, size);
    TakeKeepsStart(h, Intended, Addr(h.start, segs, k), size);
    TruncatesOnlySplits(segs[k], size);
  }

  lemma FirstFitFits(segs: seq<Seg>, size: nat)
    requires FirstFit(segs, size) < |segs|
    ensures segs[FirstFit(segs, size)].free && segs[FirstFit(segs, size)].length >= size
  {
  }

  lemma TakeKeepsStart(h: Heap, variant: Variant, seg: nat, size: nat)
    ensures Take(h, variant, seg, size).start == h.start
  {
  }

  lemma TruncatesOnlySplits(s: Seg, size: nat)
    requires s.length >= size
    ensures Truncates(s, size) ==> Splits(s, size) && s.length > size
  {
  }

  lemma EnlargeKeepsPayloads(h: Heap, segs: seq<Seg>, fill: nat -> nat, size: nat)
    requires Represents(h, segs) && size > 0
    ensures SamePayloads(h.words, Enlarge(h, fill, GrowBytes(size)).words, h.start, segs)
    ensures Enlarge(h, fill, GrowBytes(size)).start == h.start
  {
    FreshPages(h, fill, GrowBytes(size));
    ExpandKeepsPayloads(h, Intended, segs, GrowBytes(size), PageWords(fill, h.end, GrowBytes(size)));
    hide Represents, SamePayloads, PageWords;
  }

  lemma SamePayloadsAfterGrowth(u: Words, v: Words, w: Words, start: nat, segs: seq<Seg>, size: nat)
    requires |segs| > 0 && size > 0 && SamePayloads(u, v, start, segs)
    requires SamePayloads(v, w, start, Grow(segs, GrowBytes(size)))
    ensures SamePayloads(u, w, start, segs)
  {
    forall p: nat, n: nat
      ensures IsBlock(start, Grow(segs, GrowBytes(size)), p, n) <==> IsBlock(start, segs, p, n)
    {
      GrowKeepsBlocks(start, segs, GrowBytes(size), p, n);
    }
    SameBlocks(v, w, start, Grow(segs, GrowBytes(size)), segs);
    SameTwice(u, v, w, start, segs, segs);
  }

  // ---- Every run

  lemma HeldAbove(start: nat, segs: seq<Seg>, p: nat)
    requires Held(start, segs, p)
    ensures p >= HEADER && p - HEADER == Addr(start, segs, IndexOf(start, segs, p))
    ensures !segs[IndexOf(start, segs, p)].free
  {
  }

  ghost function PerformHeap(h: Heap, fill: nat -> nat, a: Act): Heap
    requires WellFormed(h) && Allowed(h.start, SegsOf(h), a)
  {
    match a
    case Malloc(size) => if Rounded64(size) == 0 then h else Allocate(h, fill, Rounded64(size))
    case Free(p) => HeldAbove(h.start, SegsOf(h), p); Release(h, Intended, p - HEADER)
    case ExpandHeap(size) => Enlarge(h, fill, GrowBytes(size))
    case Store(x, v) => h.(words := h.words[x := v])
  }

  /** A word stored in a block touches no header. */
  lemma StoreRepresents(h: Heap, segs: seq<Seg>, x: nat, v: nat)
    requires Represents(h, segs) && Owned(h.start, segs, x)
    ensures Represents(h.(words := h.words[x := v]), segs)
  {
    var w := h.words[x := v];
    var p: nat, n: nat :| IsBlock(h.start, segs, p, n) && p <= x < p + n;
    var k: nat :| BlockAt(h.start, segs, k, p, n);
    forall j | 0 <= j < |segs|
      ensures HeaderAt(w, h.start, segs, j)
    {
      assert HeaderAt(h.words, h.start, segs, j);
      HeaderApart(h.start, segs, k, j, x);
      HeaderKept(h.words, x, v, Addr(h.start, segs, j));
    }
    hide HeaderAt, Addr;
  }

  lemma HeaderApart(start: nat, segs: seq<Seg>, k: nat, j: nat, x: nat)
    requires j < |segs| && k < |segs| && InPayload(start, segs, k, x)
    ensures x < Addr(start, segs, j) || Addr(start, segs, j) + HEADER <= x
  {
    if j < k {
      AddrOrdered(start, segs, j, k);
    } else if k < j {
      AddrOrdered(start, segs, k, j);
    }
  }

  lemma HeaderKept(w: Words, x: nat, v: nat, a: nat)
    requires x < a || a + HEADER <= x
    ensures Get(w[x := v], a) == Get(w, a) && Get(w[x := v], a + 8) == Get(w, a + 8)
    ensures Get(w[x := v], a + 16) == Get(w, a + 16) && Get(w[x := v], a + 24) == Get(w, a + 24)
  {
  }

  lemma PerformMalloc(h: Heap, segs: seq<Seg>, fill: nat -> nat, size: nat)
    requires Represents(h, segs) && Allowed(h.start, segs, Malloc(size))
    ensures WellFormed(h) && SegsOf(h) == segs && |segs| > 0
    ensures Rounded64(size) == 0 ==>
      && PerformHeap(h, fill, Malloc(size)) == h && Perform(h.start, segs, Malloc(size)) == segs
      && CallSurvives(segs, Malloc(size))
    ensures Rounded64(size) > 0 ==>
      && PerformHeap(h, fill, Malloc(size)) == Allocate(h, fill, Rounded64(size))
      && Perform(h.start, segs, Malloc(size)) == Alloc(segs, Rounded64(size)).0
      && (CallSurvives(segs, Malloc(size)) <==> Survives(segs, Rounded64(size)))
  {
    SegsAre(h, segs);
    hide Represents, Allocate, Alloc, Survives, Rounded64;
  }

  lemma PerformExpand(h: Heap, segs: seq<Seg>, fill: nat -> nat, size: nat)
    requires Represents(h, segs) && Allowed(h.start, segs, ExpandHeap(size))
    ensures WellFormed(h) && SegsOf(h) == segs && |segs| > 0 && size > 0 && GrowBytes(size) >= HEADER
    ensures CallSurvives(segs, ExpandHeap(size))
    ensures PerformHeap(h, fill, ExpandHeap(size)) == Enlarge(h, fill, GrowBytes(size))
    ensures Perform(h.start, segs, ExpandHeap(size)) == Grow(segs, GrowBytes(size))
    ensures Represents(Enlarge(h, fill, GrowBytes(size)), Grow(segs, GrowBytes(size)))
  {
    SegsAre(h, segs);
    hide Represents, Enlarge, Grow, GrowBytes, WellFormed;
    EnlargeAlways(h, segs, fill, size);
  }

  lemma PerformFree(h: Heap, segs: seq<Seg>, fill: nat -> nat, p: nat)
    requires Represents(h, segs) && Allowed(h.start, segs, Free(p))
    ensures WellFormed(h) && SegsOf(h) == segs && Held(h.start, segs, p) && CallSurvives(segs, Free(p))
    ensures !segs[IndexOf(h.start, segs, p)].free
    ensures PerformHeap(h, fill, Free(p)) == Release(h, Intended, Addr(h.start, segs, IndexOf(h.start, segs, p)))
    ensures Perform(h.start, segs, Free(p)) == FreeAt(segs, IndexOf(h.start, segs, p))
  {
    SegsAre(h, segs);
    HeldAbove(h.start, segs, p);
    hide Represents, Release, FreeAt, Held;
  }

  lemma PerformStore(h: Heap, segs: seq<Seg>, fill: nat -> nat, x: nat, v: nat)
    requires Represents(h, segs) && Allowed(h.start, segs, Store(x, v))
    ensures WellFormed(h) && SegsOf(h) == segs && |segs| > 0 && Owned(h.start, segs, x)
    ensures CallSurvives(segs, Store(x, v))
    ensures PerformHeap(h, fill, Store(x, v)) == h.(words := h.words[x := v])
    ensures Perform(h.start, segs, Store(x, v)) == segs
  {
    SegsAre(h, segs);
    hide Represents, Owned;
  }

  /** Every call does to memory what it does to the segments, or breaks the heap by a truncation. */
  lemma PerformExactly(h: Heap, segs: seq<Seg>, fill: nat -> nat, a: Act)
    requires Represents(h, segs) && Allowed(h.start, segs, a)
    ensures WellFormed(h) && SegsOf(h) == segs && |segs| > 0
    ensures WellFormed(PerformHeap(h, fill, a)) <==> CallSurvives(segs, a)
    ensures CallSurvives(segs, a) ==> Represents(PerformHeap(h, fill, a), Perform(h.start, segs, a))
    ensures PerformHeap(h, fill, a).start == h.start
  {
    hide *;
    NotEmpty(h, segs);
    match a
    case Malloc(size) =>
      PerformMalloc(h, segs, fill, size);
      if Rounded64(size) > 0 {
        AllocateExactly(h, segs, fill, Rounded64(size));
      }
    case Free(p) =>
      PerformFree(h, segs, fill, p);
      var k := IndexOf(h.start, segs, p);
      ReleaseRepresents(h, segs, k);
      IsWellFormed(Release(h, Intended, Addr(h.start, segs, k)), FreeAt(segs, k));
      ReleaseKeepsStart(h, Intended, Addr(h.start, segs, k));
    case ExpandHeap(size) =>
      PerformExpand(h, segs, fill, size);
      IsWellFormed(Enlarge(h, fill, GrowBytes(size)), Grow(segs, GrowBytes(size)));
      EnlargeKeepsPayloads(h, segs, fill, size);
    case Store(x, v) =>
      PerformStore(h, segs, fill, x, v);
      StoreRepresents(h, segs, x, v);
      IsWellFormed(h.(words := h.words[x := v]), segs);
  }

  lemma ReleaseKeepsStart(h: Heap, variant: Variant, seg: nat)
    ensures Release(h, variant, seg).start == h.start
  {
  }

  /** ... and changes no word of a block (q, n) other than the one it frees or stores. */
  lemma PerformKeepsWord(h: Heap, segs: seq<Seg>, fill: nat -> nat, a: Act, q: nat, n: nat, x: nat)
    requires Represents(h, segs) && Allowed(h.start, segs, a) && |segs| > 0 && CallSurvives(segs, a)
    requires IsBlock(h.start, segs, q, n) && q <= x < q + n && a != Free(q) && (a.Store? ==> a.word != x)
    ensures WellFormed(h) && SegsOf(h) == segs
    ensures IsBlock(h.start, Perform(h.start, segs, a), q, n)
    ensures Get(PerformHeap(h, fill, a).words, x) == Get(h.words, x)
  {
    hide *;
    PerformKeepsBlock(h.start, segs, a, q, n);
    match a
    case Malloc(size) =>
      PerformMalloc(h, segs, fill, size);
      if Rounded64(size) > 0 {
        AllocateExactly(h, segs, fill, Rounded64(size));
        SameWord(h.words, PerformHeap(h, fill, a).words, h.start, segs, q, n, x);
      }
    case Free(p) =>
      PerformFree(h, segs, fill, p);
      var k := IndexOf(h.start, segs, p);
      ReleaseKeepsPayloads(h, Intended, segs, k);
      SameWord(h.words, PerformHeap(h, fill, a).words, h.start, FreeAt(segs, k), q, n, x);
    case ExpandHeap(size) =>
      PerformExpand(h, segs, fill, size);
      EnlargeKeepsPayloads(h, segs, fill, size);
      SameWord(h.words, PerformHeap(h, fill, a).words, h.start, segs, q, n, x);
    case Store(y, v) =>
      PerformStore(h, segs, fill, y, v);
      StoredElsewhere(h.words, y, v, x);
  }

  lemma SameWord(w: Words, v: Words, start: nat, segs: seq<Seg>, q: nat, n: nat, x: nat)
    requires SamePayloads(w, v, start, segs) && IsBlock(start, segs, q, n) && q <= x < q + n
    ensures Get(v, x) == Get(w, x)
  {
    hide IsBlock;
  }

  lemma StoredElsewhere(w: Words, y: nat, v: nat, x: nat)
    requires x != y
    ensures Get(w[y := v], x) == Get(w, x)
  {
  }

  /** After each call of a run the heap is well formed. */
  ghost predicate StaysWellFormed(h: Heap, fill: nat -> nat, acts: seq<Act>)
    requires WellFormed(h) && AllAllowed(h.start, SegsOf(h), acts)
    decreases |acts|
  {
    acts == [] ||
    (PerformExactly(h, SegsOf(h), fill, acts[0]);
     WellFormed(PerformHeap(h, fill, acts[0])) &&
     (NextAllowed(h, fill, acts);
      StaysWellFormed(PerformHeap(h, fill, acts[0]), fill, acts[1..])))
  }

  lemma NextAllowed(h: Heap, fill: nat -> nat, acts: seq<Act>)
    requires WellFormed(h) && AllAllowed(h.start, SegsOf(h), acts) && acts != []
    requires CallSurvives(SegsOf(h), acts[0])
    ensures WellFormed(PerformHeap(h, fill, acts[0]))
    ensures PerformHeap(h, fill, acts[0]).start == h.start
    ensures SegsOf(PerformHeap(h, fill, acts[0])) == Perform(h.start, SegsOf(h), acts[0])
    ensures AllAllowed(h.start, Perform(h.start, SegsOf(h), acts[0]), acts[1..])
  {
    PerformExactly(h, SegsOf(h), fill, acts[0]);
    SegsAre(PerformHeap(h, fill, acts[0]), Perform(h.start, SegsOf(h), acts[0]));
    hide PerformHeap, Perform, Represents, CallSurvives, Allowed;
  }

  /** The heap is well formed after every step of a run if and only if every `malloc` of the run survives. */
  lemma {:induction false} RunStaysWellFormedExactly(h: Heap, fill: nat -> nat, acts: seq<Act>)
    requires WellFormed(h) && AllAllowed(h.start, SegsOf(h), acts)
    ensures StaysWellFormed(h, fill, acts) <==> AllSurvive(h.start, SegsOf(h), acts)
    decreases |acts|
  {
    if acts != [] {
      PerformExactly(h, SegsOf(h), fill, acts[0]);
      if CallSurvives(SegsOf(h), acts[0]) {
        NextAllowed(h, fill, acts);
        RunStaysWellFormedExactly(PerformHeap(h, fill, acts[0]), fill, acts[1..]);
      }
    }
    hide PerformHeap, Perform, Represents, WellFormed, CallSurvives, Allowed;
  }

  /**
   * A heap on which a run may start: it is aligned, callers keep to what they hold, and every `malloc` survives, which
   * by RunStaysWellFormedExactly is when the heap stays well formed, and by FewPagesAreReady whenever pages are few.
   */
  ghost predicate Ready(h: Heap, acts: seq<Act>) {
    && WellFormed(h) && h.start % 0x10 == 0 && Sound(SegsOf(h))
    && AllAllowed(h.start, SegsOf(h), acts) && AllSurvive(h.start, SegsOf(h), acts)
  }

  ghost function RunHeap(h: Heap, fill: nat -> nat, acts: seq<Act>): Heap
    requires Ready(h, acts)
    decreases |acts|
  {
    if acts == [] then h
    else
      StillReady(h, fill, acts);
      RunHeap(PerformHeap(h, fill, acts[0]), fill, acts[1..])
  }

  lemma StillReady(h: Heap, fill: nat -> nat, acts: seq<Act>)
    requires Ready(h, acts) && acts != []
    ensures Allowed(h.start, SegsOf(h), acts[0]) && |SegsOf(h)| > 0 && CallSurvives(SegsOf(h), acts[0])
    ensures Ready(PerformHeap(h, fill, acts[0]), acts[1..])
    ensures PerformHeap(h, fill, acts[0]).start == h.start
    ensures SegsOf(PerformHeap(h, fill, acts[0])) == Perform(h.start, SegsOf(h), acts[0])
  {
    NextAllowed(h, fill, acts);
    PerformKeeps(h.start, SegsOf(h), acts[0]);
    hide PerformHeap, Perform, Represents, Sound, Span, CallSurvives, WellFormed;
  }

  /**
   * After every run the memory represents the segments that the run leaves: the chain tiles the heap, `last` is its
   * inverse, LastHdr is its final header, all lengths are multiples of 16 and no two free segments touch.
   */
  lemma {:induction false} RunRepresents(h: Heap, fill: nat -> nat, acts: seq<Act>)
    requires Ready(h, acts)
    ensures RunHeap(h, fill, acts).start == h.start
    ensures Represents(RunHeap(h, fill, acts), Run(h.start, SegsOf(h), acts)) && Sound(Run(h.start, SegsOf(h), acts))
    decreases |acts|
  {
    if acts != [] {
      StillReady(h, fill, acts);
      RunRepresents(PerformHeap(h, fill, acts[0]), fill, acts[1..]);
    }
    hide PerformHeap, Perform, Represents, Sound, Span, WellFormed;
  }

  /** No call and no store elsewhere changes a word of a block that is held throughout. */
  lemma {:induction false} RunKeepsWord(h: Heap, fill: nat -> nat, acts: seq<Act>, q: nat, n: nat, x: nat)
    requires Ready(h, acts) && IsBlock(h.start, SegsOf(h), q, n) && q <= x < q + n
    requires Free(q) !in acts && forall v: nat :: Store(x, v) !in acts
    ensures IsBlock(h.start, Run(h.start, SegsOf(h), acts), q, n)
    ensures Get(RunHeap(h, fill, acts).words, x) == Get(h.words, x)
    decreases |acts|
  {
    if acts != [] {
      var a, segs := acts[0], SegsOf(h);
      StillReady(h, fill, acts);
      assert a.Store? ==> Store(a.word, a.value) in acts;
      PerformKeepsWord(h, segs, fill, a, q, n, x);
      RunKeepsWord(PerformHeap(h, fill, a), fill, acts[1..], q, n, x);
    }
    hide PerformHeap, Perform, Represents, Sound, Span, WellFormed, IsBlock;
  }

  lemma {:induction false} PrefixAllowed(start: nat, segs: seq<Seg>, before: seq<Act>, after: seq<Act>)
    requires AllAllowed(start, segs, before + after) && AllSurvive(start, segs, before + after)
    ensures AllAllowed(start, segs, before) && AllSurvive(start, segs, before)
    decreases |before|
  {
    if before != [] {
      var acts := before + after;
      assert acts[0] == before[0] && acts[1..] == before[1..] + after;
      PrefixAllowed(start, Perform(start, segs, acts[0]), before[1..], after);
    }
    hide Allowed, Perform, CallSurvives;
  }

  lemma PrefixReady(h: Heap, before: seq<Act>, after: seq<Act>)
    requires Ready(h, before + after)
    ensures Ready(h, before)
  {
    PrefixAllowed(h.start, SegsOf(h), before, after);
    hide WellFormed, Sound, AllAllowed, AllSurvive;
  }

  lemma RunStep(h: Heap, fill: nat -> nat, acts: seq<Act>)
    requires Ready(h, acts) && acts != []
    ensures WellFormed(h) && Allowed(h.start, SegsOf(h), acts[0])
    ensures Ready(PerformHeap(h, fill, acts[0]), acts[1..])
    ensures RunHeap(h, fill, acts) == RunHeap(PerformHeap(h, fill, acts[0]), fill, acts[1..])
  {
    StillReady(h, fill, acts);
    hide PerformHeap, AllAllowed, AllSurvive, Sound, SegsOf, Allowed;
  }

  lemma NoSteps(h: Heap, fill: nat -> nat)
    requires Ready(h, [])
    ensures RunHeap(h, fill, []) == h
  {
  }

  lemma {:induction false} RunInTwo(h: Heap, fill: nat -> nat, before: seq<Act>, after: seq<Act>)
    requires Ready(h, before + after)
    ensures Ready(h, before) && Ready(RunHeap(h, fill, before), after)
    ensures RunHeap(h, fill, before + after) == RunHeap(RunHeap(h, fill, before), fill, after)
    decreases |before|
  {
    hide *;
    PrefixReady(h, before, after);
    if before == [] {
      assert before + after == after;
      NoSteps(h, fill);
    } else {
      var acts := before + after;
      assert acts[0] == before[0] && acts[1..] == before[1..] + after;
      RunStep(h, fill, acts);
      RunStep(h, fill, before);
      RunInTwo(PerformHeap(h, fill, acts[0]), fill, before[1..], after);
    }
  }

  /** What a caller stores in its block is what it reads there until it stores anew or frees the block. */
  lemma LastStoreIsRead(h: Heap, fill: nat -> nat, before: seq<Act>, x: nat, v: nat, after: seq<Act>, q: nat, n: nat)
    requires Ready(h, before) && Ready(h, before + ([Store(x, v)] + after))
    requires IsBlock(h.start, Run(h.start, SegsOf(h), before), q, n) && q <= x < q + n
    requires Free(q) !in after && forall u: nat :: Store(x, u) !in after
    ensures Get(RunHeap(h, fill, before + ([Store(x, v)] + after)).words, x) == v
  {
    hide *;
    ReadyAllows(h, before);
    RunInTwo(h, fill, before, [Store(x, v)] + after);
    RunRepresents(h, fill, before);
    var g, segs := RunHeap(h, fill, before), Run(h.start, SegsOf(h), before);
    SegsAre(g, segs);
    StoreStep(g, fill, x, v, after);
    RunKeepsWord(g.(words := g.words[x := v]), fill, after, q, n, x);
    GetStored(g.words, x, v);
  }

  lemma ReadyAllows(h: Heap, acts: seq<Act>)
    requires Ready(h, acts)
    ensures WellFormed(h) && AllAllowed(h.start, SegsOf(h), acts) && AllSurvive(h.start, SegsOf(h), acts)
  {
  }

  lemma GetStored(w: Words, x: nat, v: nat)
    ensures Get(w[x := v], x) == v
  {
  }

  lemma StoreStep(g: Heap, fill: nat -> nat, x: nat, v: nat, after: seq<Act>)
    requires Ready(g, [Store(x, v)] + after)
    ensures Ready(g.(words := g.words[x := v]), after)
    ensures SegsOf(g.(words := g.words[x := v])) == SegsOf(g)
    ensures RunHeap(g, fill, [Store(x, v)] + after) == RunHeap(g.(words := g.words[x := v]), fill, after)
  {
    var acts := [Store(x, v)] + after;
    assert acts[0] == Store(x, v) && acts[1..] == after;
    StillReady(g, fill, acts);
    hide Ready;
  }

  /**
   * The bound known before any run: where the heap's pages and those left come to less than 2^31 bytes, a heap is ready
   * for every run that the pages left suffice for, of any length.
   */
  lemma FewPagesAreReady(h: Heap, frames: nat, acts: seq<Act>)
    requires WellFormed(h) && h.start % 0x10 == 0 && Sound(SegsOf(h))
    requires Span(SegsOf(h)) + frames * PAGE < LARGEST
    requires AllAllowed(h.start, SegsOf(h), acts) && PagesUsed(h.start, SegsOf(h), acts) <= frames
    ensures Ready(h, acts)
  {
    FewPagesSurvive(h.start, SegsOf(h), acts, frames);
    hide WellFormed, Sound, AllAllowed, AllSurvive, Span, PagesUsed;
  }

  /** `initializeHeap` makes a heap that is ready for every such run. */
  lemma InitialIsReady(contents: Words, start: nat, pages: nat, frames: nat, acts: seq<Act>)
    requires pages > 0 && start >= 0x1000 && start % 0x10 == 0 && (pages + frames) * PAGE < LARGEST
    requires AllAllowed(start, [Seg(pages * PAGE - HEADER, true)], acts)
    requires PagesUsed(start, [Seg(pages * PAGE - HEADER, true)], acts) <= frames
    ensures Ready(Initial(contents, start, pages), acts)
    ensures SegsOf(Initial(contents, start, pages)) == [Seg(pages * PAGE - HEADER, true)]
  {
    var s := Seg(pages * PAGE - HEADER, true);
    InitialRepresents(contents, start, pages);
    SegsAre(Initial(contents, start, pages), [s]);
    SpanOne(s);
    hide Represents, Sound, Span, AllAllowed, PagesUsed, Ready;
    FewPagesAreReady(Initial(contents, start, pages), frames, acts);
  }
}
