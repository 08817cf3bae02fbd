/** Where the segments lie, and which blocks of memory the callers of the heap hold. */
module HeapBlocks {
  import opened Units
  import opened HeapSegments

  /** The address of the header of segment k. */
  function Addr(start: nat, segs: seq<Seg>, k: nat): nat
    requires k <= |segs|
  {
    start + Span(segs[..k])
  }

  lemma AddrNext(start: nat, segs: seq<Seg>, k: nat)
    requires k < |segs|
    ensures Addr(start, segs, k + 1) == Addr(start, segs, k) + HEADER + segs[k].length
  {
    assert segs[..k + 1][..k] == segs[..k];
  }

  /** Headers and payloads of different segments do not overlap. */
  lemma AddrOrdered(start: nat, segs: seq<Seg>, i: nat, j: nat)
    requires i < j <= |segs|
    ensures Addr(start, segs, i) + HEADER + segs[i].length <= Addr(start, segs, j)
    decreases j
  {
    AddrNext(start, segs, j - 1);
    if i < j - 1 {
      AddrOrdered(start, segs, i, j - 1);
    }
  }

  lemma {:induction false} AddrAligned(start: nat, segs: seq<Seg>, k: nat)
    requires Aligned(segs) && start % 0x10 == 0 && k <= |segs|
    ensures Addr(start, segs, k) % 0x10 == 0
  {
    if k == 0 {
      assert segs[..0] == [];
    } else {
      AddrAligned(start, segs, k - 1);
      AddrNext(start, segs, k - 1);
    }
  }

  lemma AddrConcat(start: nat, a: seq<Seg>, b: seq<Seg>, k: nat)
    requires k <= |a + b|
    ensures k <= |a| ==> Addr(start, a + b, k) == Addr(start, a, k)
    ensures k >= |a| ==> Addr(start, a + b, k) == Addr(start + Span(a), b, k - |a|)
  {
    if k <= |a| {
      assert (a + b)[..k] == a[..k];
    }
    if k >= |a| {
      assert (a + b)[..k] == a + b[..k - |a|];
      SpanConcat(a, b[..k - |a|]);
    }
  }

  ghost predicate BlockAt(start: nat, segs: seq<Seg>, k: nat, p: nat, length: nat) {
    k < |segs| && !segs[k].free && p == Addr(start, segs, k) + HEADER && length == segs[k].length
  }

  /** A caller holds the `length` bytes at p. */
  ghost predicate IsBlock(start: nat, segs: seq<Seg>, p: nat, length: nat) {
    exists k: nat :: BlockAt(start, segs, k, p, length)
  }

  /** Blocks are disjoint, 16-byte aligned and inside the heap. */
  lemma BlocksDisjoint(start: nat, segs: seq<Seg>, p: nat, n: nat, q: nat, m: nat)
    requires IsBlock(start, segs, p, n) && IsBlock(start, segs, q, m)
    ensures (p == q && n == m) || p + n + HEADER <= q || q + m + HEADER <= p
    ensures start + HEADER <= p && p + n <= start + Span(segs)
    ensures Aligned(segs) && start % 0x10 == 0 ==> p % 0x10 == 0
  {
    var i: nat :| BlockAt(start, segs, i, p, n);
    var j: nat :| BlockAt(start, segs, j, q, m);
    if i < j {
      AddrOrdered(start, segs, i, j);
    } else if j < i {
      AddrOrdered(start, segs, j, i);
    }
    AddrOrdered(start, segs, i, |segs|);
    assert segs[..|segs|] == segs;
    if Aligned(segs) && start % 0x10 == 0 {
      AddrAligned(start, segs, i);
    }
  }

  lemma BlockConcat(start: nat, a: seq<Seg>, b: seq<Seg>, p: nat, n: nat)
    ensures IsBlock(start, a + b, p, n) <==> IsBlock(start, a, p, n) || IsBlock(start + Span(a), b, p, n)
  {
    if IsBlock(start, a + b, p, n) {
      var k: nat :| BlockAt(start, a + b, k, p, n);
      BlockAtConcat(start, a, b, k, p, n);
    }
    if IsBlock(start, a, p, n) {
      var k: nat :| BlockAt(start, a, k, p, n);
      BlockAtConcat(start, a, b, k, p, n);
    }
    if IsBlock(start + Span(a), b, p, n) {
      var k: nat :| BlockAt(start + Span(a), b, k, p, n);
      BlockAtConcat(start, a, b, k + |a|, p, n);
    }
    hide BlockAt;
  }

  lemma BlockAtConcat(start: nat, a: seq<Seg>, b: seq<Seg>, k: nat, p: nat, n: nat)
    requires k < |a + b|
    ensures BlockAt(start, a + b, k, p, n) <==>
      if k < |a| then BlockAt(start, a, k, p, n) else BlockAt(start + Span(a), b, k - |a|, p, n)
  {
    AddrConcat(start, a, b, k);
    hide Addr;
  }

  lemma BlockOne(start: nat, s: Seg, p: nat, n: nat)
    ensures IsBlock(start, [s], p, n) <==> !s.free && p == start + HEADER && n == s.length
  {
    assert [s][..0] == [];
    assert Addr(start, [s], 0) == start;
    if !s.free && p == start + HEADER && n == s.length {
      assert BlockAt(start, [s], 0, p, n);
    }
  }

  lemma BlockTwo(start: nat, s: Seg, t: Seg, p: nat, n: nat)
    requires t.free
    ensures IsBlock(start, [s, t], p, n) <==> !s.free && p == start + HEADER && n == s.length
  {
    BlockOne(start, s, p, n);
    BlockOne(start + Span([s]), t, p, n);
    BlockConcat(start, [s], [t], p, n);
    assert [s, t] == [s] + [t];
  }

  /** The blocks of a heap, seen around one stretch of its segments. */
  lemma BlockAround(start: nat, a: seq<Seg>, b: seq<Seg>, c: seq<Seg>, p: nat, n: nat)
    ensures IsBlock(start, a + b + c, p, n) <==>
      IsBlock(start, a, p, n) || IsBlock(start + Span(a), b, p, n) || IsBlock(start + Span(a) + Span(b), c, p, n)
  {
    hide *;
    BlockConcat(start, a + b, c, p, n);
    BlockConcat(start, a, b, p, n);
    SpanConcat(a, b);
  }

  /** `malloc` adds exactly one block, the one it returns, and moves or resizes no other. */
  lemma TakeAddsBlock(start: nat, segs: seq<Seg>, k: nat, size: nat, p: nat, n: nat)
    requires k < |segs| && FitsIn(segs[k], size) && !Truncates(segs[k], size)
    ensures IsBlock(start, TakeAt(segs, k, size), p, n) <==>
      IsBlock(start, segs, p, n) || (p == Addr(start, segs, k) + HEADER && n == TakeAt(segs, k, size)[k].length)
  {
    hide *;
    TakeParts(segs, k, size);
    if TakesPart(segs[k], size) {
      TakePartAdds(start, segs[..k], segs[k], segs[k + 1..], size, p, n);
    } else {
      TakeWholeAdds(start, segs[..k], segs[k], segs[k + 1..], p, n);
    }
    AddrIs(start, segs, k);
  }

  /** Taking a segment replaces it by the part taken and what is left of it. */
  lemma TakeParts(segs: seq<Seg>, k: nat, size: nat)
    requires k < |segs| && FitsIn(segs[k], size) && !Truncates(segs[k], size)
    ensures segs == segs[..k] + [segs[k]] + segs[k + 1..] && segs[k].free
    ensures !TakesPart(segs[k], size) ==>
      && TakeAt(segs, k, size) == segs[..k] + [Seg(segs[k].length, false)] + segs[k + 1..]
      && TakeAt(segs, k, size)[k].length == segs[k].length
    ensures TakesPart(segs[k], size) ==>
      && segs[k].length >= size + HEADER
      && TakeAt(segs, k, size)
         == segs[..k] + [Seg(size, false), Seg(segs[k].length - size - HEADER, true)] + segs[k + 1..]
      && TakeAt(segs, k, size)[k].length == size
  {
    hide Int32;
  }

  lemma AddrIs(start: nat, segs: seq<Seg>, k: nat)
    requires k <= |segs|
    ensures Addr(start, segs, k) == start + Span(segs[..k])
  {
  }

  lemma TakePartAdds(start: nat, a: seq<Seg>, s: Seg, c: seq<Seg>, size: nat, p: nat, n: nat)
    requires s.free && s.length >= size + HEADER
    ensures IsBlock(start, a + [Seg(size, false), Seg(s.length - size - HEADER, true)] + c, p, n) <==>
      IsBlock(start, a + [s] + c, p, n) || (p == start + Span(a) + HEADER && n == size)
  {
    hide *;
    var x, y := Seg(size, false), Seg(s.length - size - HEADER, true);
    BlockAround(start, a, [s], c, p, n);
    BlockAround(start, a, [x, y], c, p, n);
    BlockOne(start + Span(a), s, p, n);
    BlockTwo(start + Span(a), x, y, p, n);
    SpanOne(s);
    SpanTwo(x, y);
  }

  lemma TakeWholeAdds(start: nat, a: seq<Seg>, s: Seg, c: seq<Seg>, p: nat, n: nat)
    requires s.free
    ensures IsBlock(start, a + [Seg(s.length, false)] + c, p, n) <==>
      IsBlock(start, a + [s] + c, p, n) || (p == start + Span(a) + HEADER && n == s.length)
  {
    hide *;
    var x := Seg(s.length, false);
    BlockAround(start, a, [s], c, p, n);
    BlockAround(start, a, [x], c, p, n);
    BlockOne(start + Span(a), s, p, n);
    BlockOne(start + Span(a), x, p, n);
    SpanOne(s);
    SpanOne(x);
  }

  /** Joining free segments touches no block. */
  lemma MergeKeepsBlocks(start: nat, segs: seq<Seg>, k: nat, p: nat, n: nat)
    requires k < |segs| && segs[k].free
    ensures IsBlock(start, MergeAt(segs, k), p, n) <==> IsBlock(start, segs, p, n)
  {
    if k + 1 < |segs| && segs[k + 1].free {
      var merged := Seg(segs[k].length + segs[k + 1].length + HEADER, true);
      var a, c := segs[..k], segs[k + 2..];
      assert segs == a + [segs[k], segs[k + 1]] + c;
      assert MergeAt(segs, k) == a + [merged] + c;
      BlockAround(start, a, [segs[k], segs[k + 1]], c, p, n);
      BlockAround(start, a, [merged], c, p, n);
      BlockTwo(start + Span(a), segs[k], segs[k + 1], p, n);
      BlockOne(start + Span(a), merged, p, n);
      SpanTwo(segs[k], segs[k + 1]);
      SpanOne(merged);
    }
  }

  /** `free` removes exactly the block it is given. */
  lemma FreeRemovesBlock(start: nat, segs: seq<Seg>, k: nat, p: nat, n: nat)
    requires k < |segs| && !segs[k].free
    ensures IsBlock(start, FreeAt(segs, k), p, n) <==>
      IsBlock(start, segs, p, n) && p != Addr(start, segs, k) + HEADER
  {
    var s := segs[k];
    var a, c := segs[..k], segs[k + 1..];
    var freed := segs[k := s.(free := true)];
    MarkFree(start, segs, k, p, n);
    MergeKeepsBlocks(start, freed, k, p, n);
    if k > 0 && MergeAt(freed, k)[k - 1].free {
      MergeKeepsBlocks(start, MergeAt(freed, k), k - 1, p, n);
    }
  }

  lemma MarkFree(start: nat, segs: seq<Seg>, k: nat, p: nat, n: nat)
    requires k < |segs| && !segs[k].free
    ensures IsBlock(start, segs[k := segs[k].(free := true)], p, n) <==>
      IsBlock(start, segs, p, n) && p != Addr(start, segs, k) + HEADER
  {
    var freed := segs[k := segs[k].(free := true)];
    forall j: nat | j <= |segs|
      ensures Addr(start, freed, j) == Addr(start, segs, j)
    {
      SameLengths(segs[..j], freed[..j]);
    }
    if IsBlock(start, segs, p, n) && p != Addr(start, segs, k) + HEADER {
      var j: nat :| BlockAt(start, segs, j, p, n);
      assert BlockAt(start, freed, j, p, n);
    }
    if IsBlock(start, freed, p, n) {
      var j: nat :| BlockAt(start, freed, j, p, n);
      assert BlockAt(start, segs, j, p, n);
      if j < k {
        AddrOrdered(start, segs, j, k);
      } else {
        AddrOrdered(start, segs, k, j);
      }
    }
  }

  lemma {:induction false} SameLengths(a: seq<Seg>, b: seq<Seg>)
    requires |a| == |b| && forall i :: 0 <= i < |a| ==> a[i].length == b[i].length
    ensures Span(a) == Span(b)
  {
    if a != [] {
      SameLengths(a[..|a| - 1], b[..|b| - 1]);
    }
  }

  /** Growing the heap touches no block. */
  lemma GrowKeepsBlocks(start: nat, segs: seq<Seg>, bytes: nat, p: nat, n: nat)
    requires |segs| > 0 && bytes >= HEADER
    ensures IsBlock(start, Grow(segs, bytes), p, n) <==> IsBlock(start, segs, p, n)
  {
    var tail := Seg(bytes - HEADER, true);
    BlockConcat(start, segs, [tail], p, n);
    BlockOne(start + Span(segs), tail, p, n);
    if segs[|segs| - 1].free {
      MergeKeepsBlocks(start, segs + [tail], |segs| - 1, p, n);
    }
  }

  lemma {:induction false} GrownKeepsBlocks(start: nat, segs: seq<Seg>, size: nat, p: nat, n: nat)
    requires |segs| > 0 && size > 0
    ensures IsBlock(start, Grown(segs, size).0, p, n) <==> IsBlock(start, segs, p, n)
    decreases Shortage(segs, size)
  {
    if FirstFit(segs, size) == |segs| {
      GrowthReducesShortage(segs, size);
      GrowKeepsBlocks(start, segs, GrowBytes(size), p, n);
      GrownKeepsBlocks(start, Grow(segs, GrowBytes(size)), size, p, n);
    }
  }

  // ---- Every run of calls

  /**
   * A request of `size` bytes, the release of a block by the address `malloc` returned for it, an expansion of the
   * heap, or a word that a caller stores in a block.
   */
  datatype Act = Malloc(size: nat) | Free(address: nat) | ExpandHeap(size: nat) | Store(word: nat, value: nat)

  /** `malloc` rounds up to a multiple of 16. */
  function Rounded(size: nat): (r: nat)
    ensures r % 0x10 == 0 && size <= r < size + 0x10
  {
    if size % 0x10 != 0 then size - size % 0x10 + 0x10 else size
  }

  /** ... in 64-bit arithmetic, so that the largest sizes round to zero. */
  function Rounded64(size: nat): (r: nat)
    ensures r % 0x10 == 0
    ensures size <= WORD - 0x10 ==> size <= r < size + 0x10
    ensures WORD - 0x10 < size < WORD ==> r == 0
  {
    RoundedWraps(Rounded(size));
    Rounded(size) % WORD
  }

  lemma RoundedWraps(r: nat)
    requires r % 0x10 == 0
    ensures r % WORD % 0x10 == 0
  {
    assert r == r / WORD * WORD + r % WORD;
  }

  ghost predicate Held(start: nat, segs: seq<Seg>, p: nat) {
    exists n: nat :: IsBlock(start, segs, p, n)
  }

  /** The segment whose payload starts at p. */
  ghost function IndexOf(start: nat, segs: seq<Seg>, p: nat): (k: nat)
    requires Held(start, segs, p)
    ensures k < |segs| && BlockAt(start, segs, k, p, segs[k].length)
  {
    var n: nat :| IsBlock(start, segs, p, n);
    var k: nat :| BlockAt(start, segs, k, p, n);
    k
  }

  /** The word at x lies in a block. */
  ghost predicate Owned(start: nat, segs: seq<Seg>, x: nat) {
    x % 8 == 0 && exists p: nat, n: nat :: IsBlock(start, segs, p, n) && p <= x < p + n
  }

  /** Only blocks that are held are freed or written to, and expansions are by some bytes. */
  ghost predicate Allowed(start: nat, segs: seq<Seg>, a: Act) {
    |segs| > 0 &&
    match a
    case Malloc(size) => size < WORD
    case Free(p) => Held(start, segs, p)
    case ExpandHeap(size) => size > 0
    case Store(x, _) => Owned(start, segs, x)
  }

  ghost function Perform(start: nat, segs: seq<Seg>, a: Act): seq<Seg>
    requires Allowed(start, segs, a)
  {
    match a
    case Malloc(size) => if Rounded64(size) == 0 then segs else Alloc(segs, Rounded64(size)).0
    case Free(p) => FreeAt(segs, IndexOf(start, segs, p))
    case ExpandHeap(size) => Grow(segs, GrowBytes(size))
    case Store(_, _) => segs
  }

  /** What can go wrong with a call: `malloc` takes a segment whose rest does not survive int32_t. */
  ghost predicate CallSurvives(segs: seq<Seg>, a: Act)
    requires |segs| > 0
  {
    a.Malloc? && Rounded64(a.size) > 0 ==> Survives(segs, Rounded64(a.size))
  }

  /** The pages that a call maps. */
  ghost function Needs(segs: seq<Seg>, a: Act): nat
    requires |segs| > 0
  {
    match a
    case Malloc(size) => if Rounded64(size) == 0 then 0 else Grown(segs, Rounded64(size)).1
    case ExpandHeap(size) => GrowBytes(size) / PAGE
    case _ => 0
  }

  /** Callers keep to what they hold, for as long as `malloc` does what they count on. */
  ghost predicate AllAllowed(start: nat, segs: seq<Seg>, acts: seq<Act>)
    decreases |acts|
  {
    acts == [] ||
    (Allowed(start, segs, acts[0]) &&
     (CallSurvives(segs, acts[0]) ==> AllAllowed(start, Perform(start, segs, acts[0]), acts[1..])))
  }

  ghost predicate AllSurvive(start: nat, segs: seq<Seg>, acts: seq<Act>)
    requires AllAllowed(start, segs, acts)
    decreases |acts|
  {
    acts == [] ||
    (CallSurvives(segs, acts[0]) && AllSurvive(start, Perform(start, segs, acts[0]), acts[1..]))
  }

  /** The pages that a run maps. */
  ghost function PagesUsed(start: nat, segs: seq<Seg>, acts: seq<Act>): nat
    requires AllAllowed(start, segs, acts)
    decreases |acts|
  {
    if acts == [] then 0
    else
      var rest := if CallSurvives(segs, acts[0]) then PagesUsed(start, Perform(start, segs, acts[0]), acts[1..]) else 0;
      Needs(segs, acts[0]) + rest
  }

  ghost function Run(start: nat, segs: seq<Seg>, acts: seq<Act>): seq<Seg>
    requires AllAllowed(start, segs, acts) && AllSurvive(start, segs, acts)
    decreases |acts|
  {
    if acts == [] then segs else Run(start, Perform(start, segs, acts[0]), acts[1..])
  }

  // ---- One call

  lemma AllocKeeps(segs: seq<Seg>, n: nat)
    requires Sound(segs) && n > 0 && n % 0x10 == 0 && Survives(segs, n)
    ensures Sound(Alloc(segs, n).0) && Span(Alloc(segs, n).0) == Span(segs) + Grown(segs, n).1 * PAGE
  {
    GrownKeeps(segs, n);
    AllocIsTake(segs, n);
    hide Sound, Truncates;
    TakeKeeps(Grown(segs, n).0, Alloc(segs, n).1, n);
  }

  lemma WholePages(size: nat)
    requires size > 0
    ensures GrowBytes(size) / PAGE * PAGE == GrowBytes(size) && GrowBytes(size) % 0x10 == 0 && GrowBytes(size) >= HEADER
  {
    var bytes := GrowBytes(size);
    hide GrowBytes;
    var pages := bytes / PAGE;
    assert bytes == pages * PAGE == pages * 0x100 * 0x10;
  }

  /** Each call keeps the segments sound, and lengthens the heap by the pages it maps and nothing else. */
  lemma PerformKeeps(start: nat, segs: seq<Seg>, a: Act)
    requires Sound(segs) && Allowed(start, segs, a) && CallSurvives(segs, a)
    ensures Sound(Perform(start, segs, a))
    ensures Span(Perform(start, segs, a)) == Span(segs) + Needs(segs, a) * PAGE
  {
    match a
    case Malloc(size) =>
      if Rounded64(size) > 0 {
        AllocKeeps(segs, Rounded64(size));
      }
    case Free(p) => FreeKeeps(segs, IndexOf(start, segs, p));
    case ExpandHeap(size) =>
      WholePages(size);
      GrowKeeps(segs, GrowBytes(size));
    case Store(_, _) =>
    hide Sound, Span, Alloc, Grow, FreeAt, Rounded64, Survives, GrowBytes;
  }

  /** What a call does to a block (q, n) of another caller: nothing. */
  lemma PerformKeepsBlock(start: nat, segs: seq<Seg>, a: Act, q: nat, n: nat)
    requires Allowed(start, segs, a) && CallSurvives(segs, a) && IsBlock(start, segs, q, n) && a != Free(q)
    ensures IsBlock(start, Perform(start, segs, a), q, n)
  {
    match a
    case Malloc(size) =>
      if Rounded64(size) > 0 {
        var r := Rounded64(size);
        GrownKeepsBlocks(start, segs, r, q, n);
        AllocIsTake(segs, r);
        TakeAddsBlock(start, Grown(segs, r).0, Alloc(segs, r).1, r, q, n);
      }
    case Free(p) => FreeRemovesBlock(start, segs, IndexOf(start, segs, p), q, n);
    case ExpandHeap(size) =>
      WholePages(size);
      GrowKeepsBlocks(start, segs, GrowBytes(size), q, n);
    case Store(_, _) =>
    hide IsBlock, Rounded64, Grow, FreeAt, GrowBytes;
  }

  // ---- Every run

  /**
   * After any run of calls the segments are aligned and coalesced, and the heap has grown by exactly the pages that the
   * run mapped.
   */
  lemma {:induction false} RunKeeps(start: nat, segs: seq<Seg>, acts: seq<Act>)
    requires Sound(segs) && AllAllowed(start, segs, acts) && AllSurvive(start, segs, acts)
    ensures Sound(Run(start, segs, acts))
    ensures Span(Run(start, segs, acts)) == Span(segs) + PagesUsed(start, segs, acts) * PAGE
    decreases |acts|
  {
    if acts != [] {
      hide Sound, Span;
      PerformKeeps(start, segs, acts[0]);
      RunKeeps(start, Perform(start, segs, acts[0]), acts[1..]);
    }
  }

  /** A block stays where it is, with its length, through every run that does not free it. */
  lemma {:induction false} RunKeepsBlock(start: nat, segs: seq<Seg>, acts: seq<Act>, q: nat, n: nat)
    requires AllAllowed(start, segs, acts) && AllSurvive(start, segs, acts)
    requires IsBlock(start, segs, q, n) && Free(q) !in acts
    ensures IsBlock(start, Run(start, segs, acts), q, n)
    decreases |acts|
  {
    if acts != [] {
      PerformKeepsBlock(start, segs, acts[0], q, n);
      RunKeepsBlock(start, Perform(start, segs, acts[0]), acts[1..], q, n);
    }
  }

  /** Heaps below this size have no segment whose rest `Split` could truncate. */
  const LARGEST: nat := 0x8000_0000

  lemma {:induction false} LengthBelowSpan(segs: seq<Seg>, s: Seg)
    requires s in segs
    ensures s.length < Span(segs)
  {
    var n := |segs| - 1;
    assert segs == segs[..n] + [segs[n]];
    if s != segs[n] {
      LengthBelowSpan(segs[..n], s);
    }
  }

  lemma SmallSegment(s: Seg, n: nat)
    requires n <= s.length < LARGEST
    ensures !Truncates(s, n)
  {
  }

  /** A segment taken out of a heap below that size is not truncated. */
  lemma SmallSurvives(segs: seq<Seg>, size: nat)
    requires Sound(segs) && size > 0 && size % 0x10 == 0 && Span(segs) + Grown(segs, size).1 * PAGE < LARGEST
    ensures Survives(segs, size)
  {
    GrownKeeps(segs, size);
    AllocIsTake(segs, size);
    var s := Grown(segs, size).0[Alloc(segs, size).1];
    assert FitsIn(s, size);
    LengthBelowSpan(Grown(segs, size).0, s);
    SmallSegment(s, size);
    hide Grown, Alloc, Truncates, Span, Sound;
  }

  /**
   * Wherever all pages there are, the heap's own and those left, come to less than 2^31 bytes, every `malloc` of every
   * run survives, however long the run is.
   */
  lemma {:induction false} FewPagesSurvive(start: nat, segs: seq<Seg>, acts: seq<Act>, frames: nat)
    requires Sound(segs) && AllAllowed(start, segs, acts)
    requires PagesUsed(start, segs, acts) <= frames && Span(segs) + frames * PAGE < LARGEST
    ensures AllSurvive(start, segs, acts)
    decreases |acts|
  {
    if acts != [] {
      var a := acts[0];
      hide Sound, Span, Survives;
      if a.Malloc? && Rounded64(a.size) > 0 {
        SmallSurvives(segs, Rounded64(a.size));
      }
      PerformKeeps(start, segs, a);
      FewPagesSurvive(start, Perform(start, segs, a), acts[1..], frames - Needs(segs, a));
    }
  }
}
