/** The kernel heap (heap.cpp) as a sequence of segments: what `malloc`, `free` and `ExpandHeap` mean. */
module HeapSegments {
  import opened Units

  const HEADER := 32  // sizeof(HeapSegHdr)

  datatype Seg = Seg(length: nat, free: bool)

  /** The low 32 bits of x as a signed number: the conversion to int32_t in `Split`. */
  function Int32(x: int): (r: int)
    ensures -0x8000_0000 <= r < 0x8000_0000
    ensures -0x8000_0000 <= x < 0x8000_0000 ==> r == x
  {
    (x + 0x8000_0000) % 0x1_0000_0000 - 0x8000_0000
  }

  /** What a segment keeps after `n` bytes and a second header are taken out of it. */
  function Rest(s: Seg, n: nat): int {
    s.length - n - HEADER
  }

  predicate Splits(s: Seg, n: nat) {
    n >= 0x10 && Int32(Rest(s, n)) >= 0x10
  }

  /** `Split` cuts n bytes off and loses part of the rest, which does not survive the conversion to int32_t. */
  predicate Truncates(s: Seg, n: nat) {
    Splits(s, n) && Int32(Rest(s, n)) != Rest(s, n)
  }

  /** Segments above 4 GiB can. */
  lemma LargeSegmentTruncates()
    ensures Truncates(Seg(0x1_0000_0100, true), 0x10)
  {
  }

  /** The conversion changes nothing modulo 2^32. */
  lemma Int32IsCongruent(x: int)
    ensures (x - Int32(x)) % 0x1_0000_0000 == 0
  {
    assert x - Int32(x) == (x + 0x8000_0000) / 0x1_0000_0000 * 0x1_0000_0000;
  }

  function SplitAt(segs: seq<Seg>, k: nat, n: nat): (r: seq<Seg>)
    requires k < |segs|
  {
    var s := segs[k];
    if Splits(s, n) then segs[..k] + [Seg(n, s.free), Seg(Int32(Rest(s, n)), s.free)] + segs[k + 1..] else segs
  }

  function TakeAt(segs: seq<Seg>, k: nat, size: nat): (r: seq<Seg>)
    requires k < |segs|
    ensures k < |r|
  {
    var s := if segs[k].length > size then SplitAt(segs, k, size) else segs;
    s[k := s[k].(free := false)]
  }

  /** `malloc` cuts a segment in two if and only if 16 bytes and a header would be left over. */
  lemma TakenSegment(segs: seq<Seg>, k: nat, size: nat)
    requires k < |segs| && segs[k].free && 0x10 <= size <= segs[k].length < size + 0x8000_0000
    ensures TakeAt(segs, k, size) ==
      if segs[k].length >= size + 0x30
      then segs[..k] + [Seg(size, false), Seg(segs[k].length - size - 0x20, true)] + segs[k + 1..]
      else segs[k := Seg(segs[k].length, false)]
  {
  }

  /** `CombineForward` on segment k. */
  function MergeAt(segs: seq<Seg>, k: nat): (r: seq<Seg>)
    requires k < |segs|
    ensures k < |r|
  {
    if k + 1 < |segs| && segs[k + 1].free
    then segs[..k] + [Seg(segs[k].length + segs[k + 1].length + HEADER, segs[k].free)] + segs[k + 2..]
    else segs
  }

  /** `CombineBackward` on segment k. */
  function MergeBack(segs: seq<Seg>, k: nat): (r: seq<Seg>)
    requires k < |segs|
  {
    if k > 0 && segs[k - 1].free then MergeAt(segs, k - 1) else segs
  }

  function FreeAt(segs: seq<Seg>, k: nat): (r: seq<Seg>)
    requires k < |segs|
  {
    MergeBack(MergeAt(segs[k := segs[k].(free := true)], k), k)
  }

  /** `ExpandHeap` by `bytes`: a new free segment at the end, joined with a free last segment. */
  function Grow(segs: seq<Seg>, bytes: nat): (r: seq<Seg>)
    requires |segs| > 0 && bytes >= HEADER
  {
    MergeBack(segs + [Seg(bytes - HEADER, true)], |segs|)
  }

  predicate FitsIn(s: Seg, size: nat) {
    s.free && s.length >= size
  }

  /** The first segment that fits, or the number of segments when none does. */
  function FirstFit(segs: seq<Seg>, size: nat): (k: nat)
    ensures k <= |segs|
    ensures forall i :: 0 <= i < k ==> !FitsIn(segs[i], size)
    ensures k < |segs| ==> FitsIn(segs[k], size)
  {
    if segs == [] then 0
    else if FitsIn(segs[0], size) then 0
    else 1 + FirstFit(segs[1..], size)
  }

  /** How many bytes `ExpandHeap(size)` adds: the size itself when it is whole pages, else one page. */
  function GrowBytes(size: nat): (bytes: nat)
    ensures bytes % PAGE == 0 && (size > 0 ==> bytes >= PAGE)
  {
    if size % PAGE != 0 then PAGE else size
  }

  /** Distance of the last segment from fitting; every expansion shortens it. */
  function Shortage(segs: seq<Seg>, size: nat): nat
    requires |segs| > 0
  {
    var s := segs[|segs| - 1];
    if !s.free then size + 1 else if s.length >= size then 0 else size - s.length
  }

  lemma GrowLast(segs: seq<Seg>, bytes: nat)
    requires |segs| > 0 && bytes >= HEADER
    ensures |Grow(segs, bytes)| > 0 && Grow(segs, bytes)[|Grow(segs, bytes)| - 1].free
    ensures Grow(segs, bytes)[|Grow(segs, bytes)| - 1].length
      == if segs[|segs| - 1].free then segs[|segs| - 1].length + bytes else bytes - HEADER
  {
  }

  /** Each expansion brings the last segment nearer to fitting, by at least a page once it is free. */
  lemma GrowthReducesShortage(segs: seq<Seg>, size: nat)
    requires |segs| > 0 && size > 0 && FirstFit(segs, size) == |segs|
    ensures |Grow(segs, GrowBytes(size))| > 0
    ensures Shortage(Grow(segs, GrowBytes(size)), size) < Shortage(segs, size)
    ensures segs[|segs| - 1].free && FirstFit(Grow(segs, GrowBytes(size)), size) == |Grow(segs, GrowBytes(size))| ==>
      Shortage(Grow(segs, GrowBytes(size)), size) + PAGE <= Shortage(segs, size)
  {
    var bytes := GrowBytes(size);
    GrowLast(segs, bytes);
    var n := |segs| - 1;
    assert !FitsIn(segs[n], size);
    var r := Grow(segs, bytes);
    if FirstFit(r, size) == |r| {
      assert !FitsIn(r[|r| - 1], size);
    }
  }

  /** `malloc` of a rounded, nonzero size: the segments afterwards and the index of the one taken. */
  function Alloc(segs: seq<Seg>, size: nat): (r: (seq<Seg>, nat))
    requires |segs| > 0 && size > 0
    ensures r.1 < |r.0|
    decreases Shortage(segs, size)
  {
    var k := FirstFit(segs, size);
    if k < |segs| then (TakeAt(segs, k, size), k)
    else
      GrowthReducesShortage(segs, size);
      Alloc(Grow(segs, GrowBytes(size)), size)
  }

  /** The segments `malloc` takes its block from, after all expansions, and the pages those need. */
  function Grown(segs: seq<Seg>, size: nat): (r: (seq<Seg>, nat))
    requires |segs| > 0 && size > 0
    ensures |r.0| > 0
    decreases Shortage(segs, size)
  {
    if FirstFit(segs, size) < |segs| then (segs, 0)
    else
      GrowthReducesShortage(segs, size);
      var (more, pages) := Grown(Grow(segs, GrowBytes(size)), size);
      (more, pages + GrowBytes(size) / PAGE)
  }

  lemma {:induction false} AllocIsTake(segs: seq<Seg>, size: nat)
    requires |segs| > 0 && size > 0
    ensures FirstFit(Grown(segs, size).0, size) < |Grown(segs, size).0|
    ensures Alloc(segs, size).1 == FirstFit(Grown(segs, size).0, size)
    ensures Alloc(segs, size).0 == TakeAt(Grown(segs, size).0, Alloc(segs, size).1, size)
    decreases Shortage(segs, size)
  {
    if FirstFit(segs, size) == |segs| {
      GrowthReducesShortage(segs, size);
      AllocIsTake(Grow(segs, GrowBytes(size)), size);
    }
  }

  /** The rest of the segment that `malloc` takes survives int32_t. */
  ghost predicate Survives(segs: seq<Seg>, size: nat)
    requires |segs| > 0 && size > 0
  {
    AllocIsTake(segs, size);
    !Truncates(Grown(segs, size).0[Alloc(segs, size).1], size)
  }

  /** How far the heap grows for one block: less than a page too much, or twice the size for whole pages. */
  lemma {:induction false} PagesBounded(segs: seq<Seg>, size: nat)
    requires |segs| > 0 && size > 0
    ensures segs[|segs| - 1].free ==>
      Grown(segs, size).1 * PAGE <= if size % PAGE == 0 then size else Shortage(segs, size) + PAGE - 1
    ensures !segs[|segs| - 1].free ==>
      Grown(segs, size).1 * PAGE <= if size % PAGE == 0 then 2 * size else size + HEADER + PAGE - 1
    decreases Shortage(segs, size)
  {
    if FirstFit(segs, size) == |segs| {
      GrowthReducesShortage(segs, size);
      var r := Grow(segs, GrowBytes(size));
      GrowLast(segs, GrowBytes(size));
      PagesBounded(r, size);
      if r[|r| - 1].length >= size {
        assert FitsIn(r[|r| - 1], size);
      }
    }
  }

  /**
   * Exactly how many pages one block costs: none if a segment fits; else, with a free segment at the end, the pages it
   * lacks; otherwise one header more. A size of whole pages is added once, or twice behind a segment in use.
   */
  lemma {:induction false} PagesExactly(segs: seq<Seg>, size: nat)
    requires |segs| > 0 && size > 0
    ensures var last := segs[|segs| - 1];
      Grown(segs, size).1 ==
        if exists i :: 0 <= i < |segs| && segs[i].free && segs[i].length >= size then 0
        else if last.free then
          if size % PAGE == 0 then size / PAGE else (size - last.length + PAGE - 1) / PAGE
        else
          if size % PAGE == 0 then 2 * (size / PAGE) else (size + 0x20 + PAGE - 1) / PAGE
    decreases Shortage(segs, size)
  {
    if FirstFit(segs, size) == |segs| {
      assert forall i :: 0 <= i < |segs| ==> !FitsIn(segs[i], size);
      GrowthReducesShortage(segs, size);
      var r := Grow(segs, GrowBytes(size));
      GrowLast(segs, GrowBytes(size));
      PagesExactly(r, size);
      OnlyTheLastFits(segs, size);
    } else {
      assert FitsIn(segs[FirstFit(segs, size)], size);
    }
  }

  /** After an expansion a segment fits only if the last one does. */
  lemma OnlyTheLastFits(segs: seq<Seg>, size: nat)
    requires |segs| > 0 && size > 0 && FirstFit(segs, size) == |segs|
    ensures var r := Grow(segs, GrowBytes(size));
      && |r| > 0
      && ((exists i :: 0 <= i < |r| && r[i].free && r[i].length >= size) <==> r[|r| - 1].length >= size)
  {
    var r := Grow(segs, GrowBytes(size));
    GrowLast(segs, GrowBytes(size));
    forall i | 0 <= i < |r| - 1
      ensures !(r[i].free && r[i].length >= size)
    {
      assert !FitsIn(segs[i], size);
    }
    if r[|r| - 1].length >= size {
      var n := |r| - 1;
      assert r[n].free && r[n].length >= size;
    }
  }

  // ---- What every operation keeps

  predicate Aligned(segs: seq<Seg>) {
    forall i :: 0 <= i < |segs| ==> segs[i].length % 0x10 == 0
  }

  /** No two free segments touch. */
  predicate Coalesced(segs: seq<Seg>) {
    forall i :: 0 <= i < |segs| - 1 ==> !segs[i].free || !segs[i + 1].free
  }

  predicate Sound(segs: seq<Seg>) {
    |segs| > 0 && Aligned(segs) && Coalesced(segs)
  }

  /** The bytes the segments cover, headers included. */
  function Span(segs: seq<Seg>): nat {
    if segs == [] then 0 else Span(segs[..|segs| - 1]) + segs[|segs| - 1].length + HEADER
  }

  lemma {:induction false} SpanConcat(a: seq<Seg>, b: seq<Seg>)
    ensures Span(a + b) == Span(a) + Span(b)
  {
    if b == [] {
      assert a + b == a;
    } else {
      SpanConcat(a, b[..|b| - 1]);
      assert (a + b)[..|a + b| - 1] == a + b[..|b| - 1];
    }
  }

  lemma SpanReplace(segs: seq<Seg>, k: nat, n: nat, parts: seq<Seg>)
    requires k + n <= |segs| && Span(parts) == Span(segs[k..k + n])
    ensures Span(segs[..k] + parts + segs[k + n..]) == Span(segs)
  {
    SpanConcat(segs[..k] + parts, segs[k + n..]);
    SpanConcat(segs[..k], parts);
    SpanConcat(segs[..k] + segs[k..k + n], segs[k + n..]);
    SpanConcat(segs[..k], segs[k..k + n]);
    assert segs == segs[..k] + segs[k..k + n] + segs[k + n..];
  }

  lemma SpanOne(s: Seg)
    ensures Span([s]) == s.length + HEADER
  {
    assert [s][..0] == [];
  }

  lemma SpanTwo(s: Seg, t: Seg)
    ensures Span([s, t]) == s.length + t.length + 2 * HEADER
  {
    SpanOne(s);
    assert [s, t][..1] == [s];
  }

  lemma FlagSpan(segs: seq<Seg>, k: nat, free: bool)
    requires k < |segs|
    ensures Span(segs[k := segs[k].(free := free)]) == Span(segs)
  {
    var s := segs[k].(free := free);
    SpanOne(segs[k]);
    SpanOne(s);
    assert segs[k..k + 1] == [segs[k]];
    SpanReplace(segs, k, 1, [s]);
    assert segs[k := s] == segs[..k] + [s] + segs[k + 1..];
  }

  lemma SplitParts(segs: seq<Seg>, k: nat, n: nat)
    requires k < |segs| && !Truncates(segs[k], n)
    ensures segs[k..k + 1] == [segs[k]]
    ensures Splits(segs[k], n) ==>
      && segs[k].length >= n + HEADER
      && SplitAt(segs, k, n)
         == segs[..k] + [Seg(n, segs[k].free), Seg(segs[k].length - n - HEADER, segs[k].free)] + segs[k + 1..]
    ensures !Splits(segs[k], n) ==> SplitAt(segs, k, n) == segs
  {
    hide Int32;
  }

  lemma SplitSpan(segs: seq<Seg>, k: nat, n: nat)
    requires k < |segs| && !Truncates(segs[k], n)
    ensures Span(SplitAt(segs, k, n)) == Span(segs)
  {
    hide *;
    SplitParts(segs, k, n);
    var s := segs[k];
    if Splits(s, n) {
      var parts := [Seg(n, s.free), Seg(s.length - n - HEADER, s.free)];
      SpanOne(s);
      SpanTwo(parts[0], parts[1]);
      SpanReplace(segs, k, 1, parts);
    }
  }

  lemma TakeSpan(segs: seq<Seg>, k: nat, size: nat)
    requires k < |segs| && !Truncates(segs[k], size)
    ensures Span(TakeAt(segs, k, size)) == Span(segs)
  {
    SplitSpan(segs, k, size);
    hide Span;
    hide Truncates;
    FlagSpan(if segs[k].length > size then SplitAt(segs, k, size) else segs, k, false);
  }

  lemma RestAligned(s: Seg, size: nat)
    requires s.length % 0x10 == 0 && size % 0x10 == 0
    ensures Int32(Rest(s, size)) % 0x10 == 0
  {
    var x := Rest(s, size);
    assert x % 0x10 == 0;
    assert (x + 0x8000_0000) % 0x1_0000_0000 % 0x10 == 0;
  }

  lemma TakeSound(segs: seq<Seg>, k: nat, size: nat)
    requires Sound(segs) && k < |segs| && FitsIn(segs[k], size) && size % 0x10 == 0
    ensures Sound(TakeAt(segs, k, size))
    ensures TakeAt(segs, k, size)[k].length >= size && !TakeAt(segs, k, size)[k].free
  {
    RestAligned(segs[k], size);
    hide Int32;
    hide Rest;
  }

  lemma MergeParts(segs: seq<Seg>, k: nat)
    requires k < |segs|
    ensures HEADER == 32
    ensures k + 1 < |segs| && segs[k + 1].free ==>
      && segs[k..k + 2] == [segs[k], segs[k + 1]]
      && MergeAt(segs, k)
         == segs[..k] + [Seg(segs[k].length + segs[k + 1].length + HEADER, segs[k].free)] + segs[k + 2..]
    ensures !(k + 1 < |segs| && segs[k + 1].free) ==> MergeAt(segs, k) == segs
  {
  }

  lemma MergeSpan(segs: seq<Seg>, k: nat)
    requires k < |segs|
    ensures Span(MergeAt(segs, k)) == Span(segs)
  {
    hide *;
    MergeParts(segs, k);
    if k + 1 < |segs| && segs[k + 1].free {
      var merged := Seg(segs[k].length + segs[k + 1].length + HEADER, segs[k].free);
      SpanTwo(segs[k], segs[k + 1]);
      SpanOne(merged);
      SpanReplace(segs, k, 2, [merged]);
    }
  }

  lemma MergeAligned(segs: seq<Seg>, k: nat)
    requires Aligned(segs) && k < |segs|
    ensures Aligned(MergeAt(segs, k))
  {
    if k + 1 < |segs| && segs[k + 1].free {
      SumAligned(segs[k].length, segs[k + 1].length);
    }
  }

  lemma SumAligned(a: nat, b: nat)
    requires a % 0x10 == 0 && b % 0x10 == 0
    ensures (a + b + HEADER) % 0x10 == 0
  {
  }

  lemma FreeSpan(segs: seq<Seg>, k: nat)
    requires k < |segs|
    ensures Span(FreeAt(segs, k)) == Span(segs)
  {
    var freed := segs[k := segs[k].(free := true)];
    FlagSpan(segs, k, true);
    MergeSpan(freed, k);
    if k > 0 {
      MergeSpan(MergeAt(freed, k), k - 1);
    }
    hide Span;
  }

  lemma FreeSound(segs: seq<Seg>, k: nat)
    requires Sound(segs) && k < |segs| && !segs[k].free
    ensures Sound(FreeAt(segs, k))
  {
    var freed := segs[k := segs[k].(free := true)];
    MergeAligned(freed, k);
    var forward := MergeAt(freed, k);
    assert forward[..k] == segs[..k] && forward[k].free;
    assert k + 1 < |forward| ==> !forward[k + 1].free;
    if k > 0 {
      MergeAligned(forward, k - 1);
    }
    hide Aligned;
    assert forall i :: 0 <= i < |forward| - 1 && i != k - 1 ==> !forward[i].free || !forward[i + 1].free;
  }

  lemma TakeKeeps(segs: seq<Seg>, k: nat, size: nat)
    requires Sound(segs) && k < |segs| && FitsIn(segs[k], size) && size % 0x10 == 0 && !Truncates(segs[k], size)
    ensures Sound(TakeAt(segs, k, size)) && Span(TakeAt(segs, k, size)) == Span(segs)
    ensures TakeAt(segs, k, size)[k].length >= size && !TakeAt(segs, k, size)[k].free
  {
    TakeSpan(segs, k, size);
    TakeSound(segs, k, size);
  }

  lemma FreeKeeps(segs: seq<Seg>, k: nat)
    requires Sound(segs) && k < |segs| && !segs[k].free
    ensures Sound(FreeAt(segs, k)) && Span(FreeAt(segs, k)) == Span(segs)
  {
    FreeSpan(segs, k);
    FreeSound(segs, k);
  }

  lemma GrowKeeps(segs: seq<Seg>, bytes: nat)
    requires Sound(segs) && bytes >= HEADER && bytes % 0x10 == 0
    ensures Sound(Grow(segs, bytes)) && Span(Grow(segs, bytes)) == Span(segs) + bytes
  {
    var tail := Seg(bytes - HEADER, true);
    var longer := segs + [tail];
    SpanOne(tail);
    SpanConcat(segs, [tail]);
    if segs[|segs| - 1].free {
      MergeSpan(longer, |segs| - 1);
      MergeAligned(longer, |segs| - 1);
    }
  }

  lemma {:induction false} GrownKeeps(segs: seq<Seg>, size: nat)
    requires Sound(segs) && size > 0 && size % 0x10 == 0
    ensures Sound(Grown(segs, size).0) && Span(Grown(segs, size).0) == Span(segs) + Grown(segs, size).1 * PAGE
    decreases Shortage(segs, size)
  {
    if FirstFit(segs, size) == |segs| {
      GrowthReducesShortage(segs, size);
      GrowKeeps(segs, GrowBytes(size));
      GrownKeeps(Grow(segs, GrowBytes(size)), size);
    }
  }

  /** `free` undoes `malloc`: giving the block back restores every segment, whether or not it was split off. */
  lemma FreeUndoesTake(segs: seq<Seg>, k: nat, size: nat)
    requires Sound(segs) && k < |segs| && FitsIn(segs[k], size) && !Truncates(segs[k], size)
    ensures FreeAt(TakeAt(segs, k, size), k) == segs
  {
    if TakesPart(segs[k], size) {
      UndoPart(segs, k, size);
    } else {
      UndoWhole(segs, k, size);
    }
  }

  predicate TakesPart(s: Seg, size: nat) {
    s.length > size && Splits(s, size)
  }

  lemma UndoPart(segs: seq<Seg>, k: nat, size: nat)
    requires Coalesced(segs) && k < |segs| && FitsIn(segs[k], size) && TakesPart(segs[k], size)
    requires !Truncates(segs[k], size)
    ensures FreeAt(TakeAt(segs, k, size), k) == segs
  {
    SplitParts(segs, k, size);
    hide Int32, Splits, Truncates;
    var s := segs[k];
    var freed := segs[..k] + [Seg(size, true), Seg(s.length - size - HEADER, true)] + segs[k + 1..];
    assert SplitAt(segs, k, size) == freed;
    assert TakeAt(segs, k, size)[k := Seg(size, true)] == freed;
    assert freed[k + 2..] == segs[k + 1..] && freed[..k] == segs[..k];
    assert MergeAt(freed, k) == segs[..k] + [s] + segs[k + 1..] == segs;
  }

  lemma UndoWhole(segs: seq<Seg>, k: nat, size: nat)
    requires Coalesced(segs) && k < |segs| && FitsIn(segs[k], size) && !TakesPart(segs[k], size)
    ensures FreeAt(TakeAt(segs, k, size), k) == segs
  {
    var r := TakeAt(segs, k, size);
    assert r == segs[k := segs[k].(free := false)];
    assert r[k := r[k].(free := true)] == segs;
    assert MergeAt(segs, k) == segs;
  }

  /** A block just allocated and freed again leaves exactly the heap after the expansions it caused. */
  lemma FreeUndoesAlloc(segs: seq<Seg>, size: nat)
    requires Sound(segs) && size > 0 && size % 0x10 == 0 && Survives(segs, size)
    ensures FreeAt(Alloc(segs, size).0, Alloc(segs, size).1) == Grown(segs, size).0
  {
    AllocIsTake(segs, size);
    GrownKeeps(segs, size);
    FreeUndoesTake(Grown(segs, size).0, Alloc(segs, size).1, size);
  }
}
