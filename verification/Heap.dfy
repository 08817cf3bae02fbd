/** The heap of heap.cpp: its globals, its memory, and `malloc` and `free` themselves. */
module KernelHeaps {
  import opened Units
  import opened HeapSegments
  import opened HeapBlocks
  import opened HeapMemory
  import opened HeapPayload
  import opened HeapRuns

  lemma RoundedFacts(size: nat)
    requires size < WORD
    ensures WORD > 0 && Rounded64(size) % 0x10 == 0
    ensures size % 0x10 == 0 ==> Rounded64(size) == size
    ensures size % 0x10 != 0 ==> Rounded64(size) == (size - size % 0x10 + 0x10) % WORD
  {
    var r := Rounded(size);
    assert r % WORD % 0x10 == 0 by { assert r == r / WORD * WORD + r % WORD; }
  }

  lemma ExpandIs(h: Heap, variant: Variant, bytes: nat, contents: Words)
    ensures Expand(h, variant, bytes, contents) == CombineBackward(Append(h, bytes, contents), variant, h.end)
  {
  }

  lemma NoPages(w: Words, fill: nat -> nat, a: nat)
    ensures w + PageWords(fill, a, 0) == w
  {
    assert PageWords(fill, a, 0) == map[];
  }

  lemma OneMorePage(w: Words, fill: nat -> nat, a: nat, bytes: nat)
    ensures w + PageWords(fill, a, bytes) + PageWords(fill, a + bytes, 0x1000) == w + PageWords(fill, a, bytes + 0x1000)
  {
    assert PageWords(fill, a, bytes) + PageWords(fill, a + bytes, 0x1000) == PageWords(fill, a, bytes + 0x1000);
    assert w + PageWords(fill, a, bytes) + PageWords(fill, a + bytes, 0x1000)
      == w + (PageWords(fill, a, bytes) + PageWords(fill, a + bytes, 0x1000));
  }

  class KernelHeap {
    const variant: Variant
    // What freshly mapped pages hold.
    const fill: nat -> nat
    // Memory, by address of 64-bit words.
    var words: Words
    var heapStart: nat
    var heapEnd: nat
    var LastHdr: nat
    // How many more pages the frame allocator can map.
    var frames: nat

    ghost function State(): (h: Heap)
      reads this
      ensures h.words == words && h.start == heapStart && h.end == heapEnd && h.last == LastHdr
    {
      Heap(words, heapStart, heapEnd, LastHdr)
    }

    /** `initializeHeap` */
    constructor (variant: Variant, fill: nat -> nat, heapAddress: nat, pageCount: nat, memory: Words, frames: nat)
      requires pageCount > 0 && heapAddress >= 0x1000 && pageCount <= frames
      ensures this.variant == variant && this.fill == fill && this.frames == frames - pageCount
      ensures exists w: Words :: State() == Initial(w, heapAddress, pageCount)
      ensures Represents(State(), [Seg(pageCount * PAGE - HEADER, true)])
    {
      this.variant, this.fill := variant, fill;
      var pos, left := heapAddress, frames;
      var w: Words := memory;
      for i := 0 to pageCount
        invariant pos == heapAddress + i * 0x1000 && left == frames - i
      {
        w := w + PageWords(fill, pos, 0x1000);
        left := left - 1;
        pos := pos + 0x1000;
      }
      ghost var mapped := w;
      var heapLength := pageCount * 0x1000;
      heapStart, heapEnd := heapAddress, heapAddress + heapLength;
      w := w[heapAddress := heapLength - HEADER];
      w := w[heapAddress + 8 := 0];
      w := w[heapAddress + 16 := 0];
      w := w[heapAddress + 24 := 1];
      words, LastHdr, this.frames := w, heapAddress, left;
      new;
      assert State() == Initial(mapped, heapAddress, pageCount);
      InitialRepresents(mapped, heapAddress, pageCount);
    }

    /** One store to memory. */
    method Put(address: nat, value: nat)
      modifies this`words
      ensures words == old(words)[address := value]
    {
      words := words[address := value];
    }

    /** Cuts segment k in two, and keeps the heap well formed exactly under the condition of SplitExactly. */
    method Split(seg: nat, splitLength: nat, ghost segs: seq<Seg>, ghost k: nat)
      requires Represents(State(), segs) && k < |segs|
      requires seg == Addr(heapStart, segs, k) && splitLength < segs[k].length
      modifies this
      ensures State() == HeapMemory.Split(old(State()), variant, seg, splitLength) && frames == old(frames)
      ensures WellFormed(State()) <==>
        !Splits(segs[k], splitLength) || (!Truncates(segs[k], splitLength) && (variant.Intended? || k + 1 < |segs|))
      ensures WellFormed(State()) ==> Represents(State(), SplitAt(segs, k, splitLength))
      ensures segs[k].free ==> SamePayloads(old(words), words, heapStart, segs)
    {
      hide Represents, WellFormed, Linked, Splits, Truncates, SplitAt, SamePayloads, Addr, Int32;
      SplitFacts(State(), variant, segs, k, splitLength);
      if splitLength < 0x10 {
        return;
      }
      var splitSegLength := Int32(Get(words, seg) - splitLength - HEADER);
      if splitSegLength < 0x10 {
        return;
      }
      var newSplitHdr := seg + splitLength + HEADER;
      WriteSplit(seg, splitLength, splitSegLength);
      if LastHdr == seg {
        if variant.AsWritten? {
          Put(seg + 16, newSplitHdr);
        } else {
          LastHdr := newSplitHdr;
        }
      }
    }

    /** The two headers of a split segment. */
    method WriteSplit(seg: nat, splitLength: nat, splitSegLength: nat)
      modifies this`words
      ensures words == CutWords(old(words), variant, seg, splitLength, splitSegLength)
    {
      var newSplitHdr := seg + splitLength + HEADER;
      var w := words;
      var next := Get(w, seg + 8);
      if variant.AsWritten? || next != 0 {
        w := w[next + 16 := newSplitHdr];
      }
      w := w[newSplitHdr + 8 := Get(w, seg + 8)];
      w := w[seg + 8 := newSplitHdr];
      w := w[newSplitHdr + 16 := seg];
      w := w[newSplitHdr := splitSegLength];
      w := w[newSplitHdr + 24 := Get(w, seg + 24)];
      w := w[seg := splitLength];
      words := w;
    }

    /**
     * Joins segment k with a free successor. The chain is right in both variants; LastHdr is, exactly when the last
     * segment is not absorbed or the slip is repaired.
     */
    method CombineForward(seg: nat, ghost segs: seq<Seg>, ghost k: nat)
      requires Linked(State(), segs) && k < |segs| && seg == Addr(heapStart, segs, k)
      modifies this
      ensures State() == HeapMemory.CombineForward(old(State()), variant, seg) && frames == old(frames)
      ensures heapStart == old(heapStart) && Linked(State(), MergeAt(segs, k))
      ensures old(Represents(State(), segs)) ==>
        && (WellFormed(State()) <==> variant.Intended? || !AbsorbsLast(segs, k))
        && (WellFormed(State()) ==> Represents(State(), MergeAt(segs, k)))
      ensures SamePayloads(old(words), words, heapStart, segs)
    {
      hide Represents, WellFormed, Linked, AbsorbsLast, MergeAt, SamePayloads, Addr;
      MergeFacts(State(), variant, segs, k);
      var next := Get(words, seg + 8);
      if next == 0 {
        return;
      }
      if Get(words, next + 24) == 0 {
        return;
      }
      if next == LastHdr && variant.Intended? {
        LastHdr := seg;
      }
      if Get(words, next + 8) != 0 {
        Put(Get(words, next + 8) + 16, seg);
      }
      Put(seg, Get(words, seg) + Get(words, next) + HEADER);
      Put(seg + 8, Get(words, next + 8));
    }

    /** Joins segment k with a free predecessor, under the conditions of CombineForward. */
    method CombineBackward(seg: nat, ghost segs: seq<Seg>, ghost k: nat)
      requires Linked(State(), segs) && k < |segs| && seg == Addr(heapStart, segs, k)
      modifies this
      ensures State() == HeapMemory.CombineBackward(old(State()), variant, seg) && frames == old(frames)
      ensures heapStart == old(heapStart) && Linked(State(), MergeBack(segs, k))
      ensures old(Represents(State(), segs)) ==>
        && (WellFormed(State()) <==> variant.Intended? || !(k > 0 && segs[k - 1].free && AbsorbsLast(segs, k - 1)))
        && (WellFormed(State()) ==> Represents(State(), MergeBack(segs, k)))
      ensures SamePayloads(old(words), words, heapStart, segs)
    {
      BackwardChain(State(), variant, segs, k);
      var last := Get(words, seg + 16);
      hide *;
      if last != 0 && Get(words, last + 24) != 0 {
        CombineForward(last, segs, k - 1);
      }
    }

    /**
     * `free` of segment k, also when it is free already: the heap stays well formed exactly when the last segment is
     * not merged away or the slip is repaired, and no word of a block that stays changes.
     */
    method Free(address: nat, ghost segs: seq<Seg>, ghost k: nat)
      requires Represents(State(), segs) && k < |segs| && address == Addr(heapStart, segs, k) + HEADER
      modifies this
      ensures State() == Release(old(State()), variant, address - HEADER) && frames == old(frames)
      ensures heapStart == old(heapStart)
      ensures WellFormed(State()) <==> variant.Intended? || !FreeAbsorbsLast(segs, k)
      ensures WellFormed(State()) ==> Represents(State(), FreeAt(segs, k))
      ensures Sound(segs) && !segs[k].free ==> Sound(FreeAt(segs, k))
      ensures !segs[k].free ==> SamePayloads(old(words), words, heapStart, FreeAt(segs, k))
    {
      hide *;
      FreeFacts(State(), variant, segs, k);
      MarkedChain(State(), segs, k);
      ghost var freed := segs[k := segs[k].(free := true)];
      ReleaseIs(State(), variant, address - HEADER);
      var segment := address - HEADER;
      Put(segment + 24, 1);
      CombineForward(segment, freed, k);
      MergeKeepsAddr(heapStart, freed, k, k);
      CombineBackward(segment, MergeAt(freed, k), k);
    }

    /** `ExpandHeap`, which maps one page after the other and appends them as one free segment. */
    method ExpandHeap(length: nat, ghost segs: seq<Seg>)
      requires Represents(State(), segs) && length > 0 && GrowBytes(length) / PAGE <= frames
      modifies this
      ensures State()
           == Expand(old(State()), variant, GrowBytes(length), PageWords(fill, old(heapEnd), GrowBytes(length)))
      ensures frames == old(frames) - GrowBytes(length) / PAGE && heapStart == old(heapStart)
      ensures WellFormed(State()) <==> variant.Intended? || !segs[|segs| - 1].free
      ensures WellFormed(State()) ==> Represents(State(), Grow(segs, GrowBytes(length)))
      ensures SamePayloads(old(words), words, heapStart, segs)
    {
      var size := length;
      if size % 0x1000 != 0 {
        size := size - size % 0x1000;
        size := 0x1000;
      }
      hide Represents, WellFormed, SamePayloads, Grow, Expand, PageWords;
      GrowBy(size, segs);
    }

    /** `ExpandHeap` after its rounding. */
    method GrowBy(size: nat, ghost segs: seq<Seg>)
      requires Represents(State(), segs) && |segs| > 0 && size % PAGE == 0 && size >= PAGE && size / PAGE <= frames
      modifies this
      ensures State() == Expand(old(State()), variant, size, PageWords(fill, old(heapEnd), size))
      ensures frames == old(frames) - size / PAGE && heapStart == old(heapStart)
      ensures WellFormed(State()) <==> variant.Intended? || !segs[|segs| - 1].free
      ensures WellFormed(State()) ==> Represents(State(), Grow(segs, size))
      ensures SamePayloads(old(words), words, heapStart, segs)
    {
      var pageCount := size / 0x1000;
      hide *;
      var newSegment := heapEnd;
      ExpandIs(State(), variant, size, PageWords(fill, heapEnd, size));
      FreshPages(State(), fill, size);
      ExpandExactly(State(), variant, segs, size, PageWords(fill, heapEnd, size));
      ExpandKeepsPayloads(State(), variant, segs, size, PageWords(fill, heapEnd, size));
      AppendedChain(State(), segs, size, PageWords(fill, heapEnd, size));
      MapAndAppend(pageCount, size);
      CombineBackward(newSegment, segs + [Seg(size - HEADER, true)], |segs|);
    }

    method MapAndAppend(pageCount: nat, size: nat)
      requires size == pageCount * 0x1000 && size >= HEADER && pageCount <= frames
      modifies this
      ensures State() == Append(old(State()), size, PageWords(fill, old(heapEnd), size))
      ensures frames == old(frames) - pageCount
    {
      var newSegment := heapEnd;
      MapPages(pageCount);
      hide LinkLast;
      hide PageWords;
      AppendSegment(newSegment, size);
    }

    /** The new last segment of `ExpandHeap`. */
    method AppendSegment(newSegment: nat, size: nat)
      requires size >= HEADER
      modifies this`words, this`LastHdr
      ensures LastHdr == newSegment
      ensures words == LinkLast(old(words), old(LastHdr), newSegment, size - HEADER)
    {
      Put(newSegment + 24, 1);
      Put(newSegment + 16, LastHdr);
      Put(LastHdr + 8, newSegment);
      LastHdr := newSegment;
      Put(newSegment + 8, 0);
      Put(newSegment, size - HEADER);
    }

    /** The loop of `ExpandHeap` over `MapMemory`. */
    method MapPages(pageCount: nat)
      requires pageCount <= frames
      modifies this`words, this`heapEnd, this`frames
      ensures heapEnd == old(heapEnd) + pageCount * 0x1000 && frames == old(frames) - pageCount
      ensures words == old(words) + PageWords(fill, old(heapEnd), pageCount * 0x1000)
    {
      NoPages(words, fill, heapEnd);
      hide *;
      ghost var mapped, w, a := 0, words, heapEnd;
      for i := 0 to pageCount
        invariant mapped == i * 0x1000 && heapEnd == a + mapped && frames == old(frames) - i
        invariant words == w + PageWords(fill, a, mapped)
      {
        MapPage();
        OneMorePage(w, fill, a, mapped);
        mapped := mapped + 0x1000;
      }
    }

    method MapPage()
      requires frames > 0
      modifies this`words, this`heapEnd, this`frames
      ensures heapEnd == old(heapEnd) + 0x1000 && frames == old(frames) - 1
      ensures words == old(words) + PageWords(fill, old(heapEnd), 0x1000)
    {
      words := words + PageWords(fill, heapEnd, 0x1000);
      frames := frames - 1;
      heapEnd := heapEnd + 0x1000;
    }

    /** The first-fit search of `malloc`: the segment that fits, or 0. */
    method FindSegment(size: nat, ghost segs: seq<Seg>) returns (seg: nat)
      requires Represents(State(), segs)
      ensures seg == if FirstFit(segs, size) < |segs| then Addr(heapStart, segs, FirstFit(segs, size)) else 0
    {
      var currentSgm := heapStart;
      ghost var k := 0;
      AddrFacts(heapStart, segs, 0);
      while true
        invariant k < |segs| && currentSgm == Addr(heapStart, segs, k)
        invariant forall i :: 0 <= i < k ==> !FitsIn(segs[i], size)
        decreases |segs| - k
      {
        assert HeaderAt(words, heapStart, segs, k);
        if Get(words, currentSgm + 24) != 0 && Get(words, currentSgm) >= size {
          FirstFitIs(segs, size, k);
          return currentSgm;
        }
        assert !FitsIn(segs[k], size);
        if Get(words, currentSgm + 8) == 0 {
          AddrFacts(heapStart, segs, k);
          break;
        }
        currentSgm := Get(words, currentSgm + 8);
        k := k + 1;
      }
      return 0;
    }

    static lemma FirstFitIs(segs: seq<Seg>, size: nat, k: nat)
      requires k < |segs| && FitsIn(segs[k], size) && forall i :: 0 <= i < k ==> !FitsIn(segs[i], size)
      ensures FirstFit(segs, size) == k
    {
    }

    /** The branches of `malloc` that take the segment found. */
    method TakeSegment(seg: nat, size: nat, ghost segs: seq<Seg>, ghost k: nat)
      requires Represents(State(), segs) && k < |segs| && seg == Addr(heapStart, segs, k)
      modifies this
      ensures State() == Take(old(State()), variant, seg, size) && frames == old(frames)
      ensures heapStart == old(heapStart)
    {
      TakeKeepsStart(State(), variant, seg, size);
      TakeIs(State(), variant, segs, k, size);
      hide *;
      if Get(words, seg) > size {
        Split(seg, size, segs, k);
      }
      Put(seg + 24, 0);
    }

    /**
     * `malloc`, with the slips repaired. It takes the first segment that fits, after as many expansions as that
     * takes; the heap stays well formed exactly when the rest of that segment survives int32_t. The block is 16-byte
     * aligned, in use and long enough, and no word of any other block changes.
     */
    method Malloc(size: nat, ghost segs: seq<Seg>) returns (p: nat)
      requires variant.Intended? && Represents(State(), segs) && Sound(segs) && size < WORD
      requires Rounded64(size) > 0 ==> Grown(segs, Rounded64(size)).1 <= frames
      modifies this
      ensures heapStart == old(heapStart)
      ensures Rounded64(size) == 0 ==> p == 0 && State() == old(State())
      ensures Rounded64(size) > 0 ==>
        && State() == Allocate(old(State()), fill, Rounded64(size))
        && (WellFormed(State()) <==> Survives(segs, Rounded64(size)))
        && (Survives(segs, Rounded64(size)) ==> Represents(State(), Alloc(segs, Rounded64(size)).0))
      ensures Rounded64(size) > 0 ==>
        && Sound(Alloc(segs, Rounded64(size)).0)
        && p == Addr(heapStart, Alloc(segs, Rounded64(size)).0, Alloc(segs, Rounded64(size)).1) + HEADER
        && Alloc(segs, Rounded64(size)).0[Alloc(segs, Rounded64(size)).1].length >= Rounded64(size)
        && !Alloc(segs, Rounded64(size)).0[Alloc(segs, Rounded64(size)).1].free
      ensures heapStart % 0x10 == 0 ==> p % 0x10 == 0
      ensures SamePayloads(old(words), words, heapStart, segs)
    {
      hide *;
      RoundedFacts(size);
      var rounded := size;
      if rounded % 0x10 != 0 {
        rounded := rounded - rounded % 0x10;
        rounded := (rounded + 0x10) % WORD;
      }
      assert rounded == Rounded64(size);
      if rounded == 0 {
        p := 0;
        NothingWritten(words, heapStart, segs);
      } else {
        AllocateExactly(State(), segs, fill, rounded);
        AllocSound(segs, rounded, heapStart);
        p := MallocRounded(rounded, segs);
      }
    }

    method MallocRounded(size: nat, ghost segs: seq<Seg>) returns (p: nat)
      requires variant.Intended? && Represents(State(), segs) && |segs| > 0 && size > 0
      requires Grown(segs, size).1 <= frames
      modifies this
      ensures heapStart == old(heapStart)
      ensures WellFormed(old(State())) && State() == Allocate(old(State()), fill, size)
      ensures p == Addr(heapStart, Alloc(segs, size).0, Alloc(segs, size).1) + HEADER
      decreases Shortage(segs, size)
    {
      hide *;
      SearchFacts(State(), segs, size);
      AllocateIs(State(), segs, fill, size);
      var seg := FindSegment(size, segs);
      if seg != 0 {
        TakeSegment(seg, size, segs, FirstFit(segs, size));
        p := seg + HEADER;
      } else {
        EnlargeRepresents(State(), segs, fill, size);
        EnlargeIs(State(), fill, GrowBytes(size));
        ExpandHeap(size, segs);
        p := MallocRounded(size, Grow(segs, GrowBytes(size)));
      }
    }
  }

  // ---- What the methods need

  lemma SplitFacts(h: Heap, variant: Variant, segs: seq<Seg>, k: nat, n: nat)
    requires Represents(h, segs) && k < |segs| && n < segs[k].length
    ensures WellFormed(HeapMemory.Split(h, variant, Addr(h.start, segs, k), n)) <==>
      !Splits(segs[k], n) || (!Truncates(segs[k], n) && (variant.Intended? || k + 1 < |segs|))
    ensures WellFormed(HeapMemory.Split(h, variant, Addr(h.start, segs, k), n)) ==>
      Represents(HeapMemory.Split(h, variant, Addr(h.start, segs, k), n), SplitAt(segs, k, n))
    ensures segs[k].free ==>
      SamePayloads(h.words, HeapMemory.Split(h, variant, Addr(h.start, segs, k), n).words, h.start, segs)
  {
    hide *;
    SplitExactly(h, variant, segs, k, n);
    if segs[k].free {
      SplitKeepsPayloads(h, variant, segs, k, n);
    }
  }

  lemma MergeFacts(h: Heap, variant: Variant, segs: seq<Seg>, k: nat)
    requires Linked(h, segs) && k < |segs|
    ensures HeapMemory.CombineForward(h, variant, Addr(h.start, segs, k)).start == h.start
    ensures Linked(HeapMemory.CombineForward(h, variant, Addr(h.start, segs, k)), MergeAt(segs, k))
    ensures Represents(h, segs) ==>
      && (WellFormed(HeapMemory.CombineForward(h, variant, Addr(h.start, segs, k))) <==>
          variant.Intended? || !AbsorbsLast(segs, k))
      && (WellFormed(HeapMemory.CombineForward(h, variant, Addr(h.start, segs, k))) ==>
          Represents(HeapMemory.CombineForward(h, variant, Addr(h.start, segs, k)), MergeAt(segs, k)))
    ensures SamePayloads(h.words, HeapMemory.CombineForward(h, variant, Addr(h.start, segs, k)).words, h.start, segs)
  {
    hide *;
    MergeLinked(h, variant, segs, k);
    MergeKeepsPayloads(h, variant, segs, k);
    if Represents(h, segs) {
      MergeExactly(h, variant, segs, k);
    }
  }

  lemma BackwardChain(h: Heap, variant: Variant, segs: seq<Seg>, k: nat)
    requires Linked(h, segs) && k < |segs|
    ensures var last := Get(h.words, Addr(h.start, segs, k) + 16);
      if last != 0 && Get(h.words, last + 24) != 0
      then
        && k > 0 && segs[k - 1].free && last == Addr(h.start, segs, k - 1)
        && MergeBack(segs, k) == MergeAt(segs, k - 1)
        && HeapMemory.CombineBackward(h, variant, Addr(h.start, segs, k)) == HeapMemory.CombineForward(h, variant, last)
      else
        && !(k > 0 && segs[k - 1].free) && MergeBack(segs, k) == segs
        && HeapMemory.CombineBackward(h, variant, Addr(h.start, segs, k)) == h
    ensures Represents(h, segs) ==> WellFormed(h)
    ensures SamePayloads(h.words, h.words, h.start, segs)
  {
    assert HeaderAt(h.words, h.start, segs, k);
    if k > 0 {
      assert HeaderAt(h.words, h.start, segs, k - 1);
      AddrFacts(h.start, segs, k - 1);
    }
    hide HeapMemory.CombineForward, MergeAt, Addr;
  }

  lemma FreeFacts(h: Heap, variant: Variant, segs: seq<Seg>, k: nat)
    requires Represents(h, segs) && k < |segs|
    ensures WellFormed(Release(h, variant, Addr(h.start, segs, k))) <==>
      variant.Intended? || !FreeAbsorbsLast(segs, k)
    ensures WellFormed(Release(h, variant, Addr(h.start, segs, k))) ==>
      Represents(Release(h, variant, Addr(h.start, segs, k)), FreeAt(segs, k))
    ensures Sound(segs) && !segs[k].free ==> Sound(FreeAt(segs, k))
    ensures !segs[k].free ==>
      SamePayloads(h.words, Release(h, variant, Addr(h.start, segs, k)).words, h.start, FreeAt(segs, k))
  {
    hide *;
    ReleaseExactly(h, variant, segs, k);
    if !segs[k].free {
      ReleaseKeepsPayloads(h, variant, segs, k);
      if Sound(segs) {
        FreeSound(segs, k);
      }
    }
  }

  lemma MarkedChain(h: Heap, segs: seq<Seg>, k: nat)
    requires Represents(h, segs) && k < |segs|
    ensures var freed := segs[k := segs[k].(free := true)];
      && Linked(h.(words := h.words[Addr(h.start, segs, k) + 24 := 1]), freed)
      && Addr(h.start, freed, k) == Addr(h.start, segs, k)
      && |MergeAt(freed, k)| > k
  {
    var freed := segs[k := segs[k].(free := true)];
    MarkRepresents(h, segs, k, true);
    assert freed[..k] == segs[..k];
    hide Linked, Addr;
  }

  lemma ReleaseIs(h: Heap, variant: Variant, seg: nat)
    ensures Release(h, variant, seg) ==
      HeapMemory.CombineBackward(
        HeapMemory.CombineForward(h.(words := h.words[seg + 24 := 1]), variant, seg), variant, seg)
  {
  }

  lemma AppendedChain(h: Heap, segs: seq<Seg>, bytes: nat, contents: Words)
    requires Represents(h, segs) && bytes >= HEADER && Fresh(h, contents)
    ensures Linked(Append(h, bytes, contents), segs + [Seg(bytes - HEADER, true)])
    ensures Addr(h.start, segs + [Seg(bytes - HEADER, true)], |segs|) == h.end
    ensures Append(h, bytes, contents).start == h.start
  {
    AppendRepresents(h, segs, bytes, contents);
    AppendTail(h, segs, bytes, contents);
    hide Linked, Addr, LinkLast, HeaderAt;
  }

  lemma TakeIs(h: Heap, variant: Variant, segs: seq<Seg>, k: nat, size: nat)
    requires Represents(h, segs) && k < |segs|
    ensures Get(h.words, Addr(h.start, segs, k)) == segs[k].length
    ensures var a := Addr(h.start, segs, k);
      var cut := if Get(h.words, a) > size then HeapMemory.Split(h, variant, a, size) else h;
      Take(h, variant, a, size) == cut.(words := cut.words[a + 24 := 0])
  {
    assert HeaderAt(h.words, h.start, segs, k);
    hide HeapMemory.Split, Addr;
  }

  lemma NothingWritten(w: Words, start: nat, segs: seq<Seg>)
    ensures SamePayloads(w, w, start, segs)
  {
  }

  lemma TakePlace(start: nat, segs: seq<Seg>, k: nat, size: nat)
    requires k < |segs|
    ensures k < |TakeAt(segs, k, size)| && Addr(start, TakeAt(segs, k, size), k) == Addr(start, segs, k)
  {
    assert TakeAt(segs, k, size)[..k] == segs[..k];
  }

  lemma SearchFacts(h: Heap, segs: seq<Seg>, size: nat)
    requires Represents(h, segs) && |segs| > 0 && size > 0
    ensures HEADER == 32
    ensures FirstFit(segs, size) < |segs| ==>
      && Addr(h.start, segs, FirstFit(segs, size)) != 0
      && Addr(h.start, Alloc(segs, size).0, Alloc(segs, size).1) == Addr(h.start, segs, FirstFit(segs, size))
    ensures FirstFit(segs, size) == |segs| ==>
      && |Grow(segs, GrowBytes(size))| > 0 && GrowBytes(size) >= HEADER
      && Alloc(segs, size) == Alloc(Grow(segs, GrowBytes(size)), size)
      && Grown(segs, size).1 == Grown(Grow(segs, GrowBytes(size)), size).1 + GrowBytes(size) / PAGE
  {
    if FirstFit(segs, size) < |segs| {
      TakePlace(h.start, segs, FirstFit(segs, size), size);
    } else {
      GrowthReducesShortage(segs, size);
    }
    hide Linked, Addr, TakeAt, Grow, GrowBytes, FirstFit;
  }

  /** What `malloc` returns is in use, long enough and aligned. */
  lemma AllocSound(segs: seq<Seg>, size: nat, start: nat)
    requires Sound(segs) && size > 0 && size % 0x10 == 0
    ensures Sound(Alloc(segs, size).0)
    ensures Alloc(segs, size).0[Alloc(segs, size).1].length >= size && !Alloc(segs, size).0[Alloc(segs, size).1].free
    ensures start % 0x10 == 0 ==> (Addr(start, Alloc(segs, size).0, Alloc(segs, size).1) + HEADER) % 0x10 == 0
  {
    GrownKeeps(segs, size);
    AllocIsTake(segs, size);
    TakeSound(Grown(segs, size).0, Alloc(segs, size).1, size);
    if start % 0x10 == 0 {
      AddrAligned(start, Alloc(segs, size).0, Alloc(segs, size).1);
    }
    hide Alloc, Grown, TakeAt, Addr;
  }
}
