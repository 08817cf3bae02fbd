/**
 * The pointer code of heap.cpp as functions on memory words, and how its headers represent a sequence of segments.
 * Memory is a map from byte addresses to 64-bit words; a header has its length at offset 0, `next` at 8, `last` at
 * 16 and `free` at 24.
 */
module HeapMemory {
  import opened HeapSegments
  import opened HeapBlocks

  /** The code as written, or with its three evident slips repaired (lines 93, 101 and 136 of heap.cpp). */
  datatype Variant = AsWritten | Intended

  type Words = map<nat, nat>

  datatype Heap = Heap(words: Words, start: nat, end: nat, last: nat)

  function Get(w: Words, a: nat): nat {
    if a in w then w[a] else 0
  }

  // ---- The operations

  /** The header writes of `Split`. Line 93 writes through `next` untested; page 0 is mapped, so null is word 16. */
  function CutWords(w: Words, variant: Variant, seg: nat, n: nat, rest: nat): Words {
    var newHdr := seg + n + HEADER;
    var next := Get(w, seg + 8);
    var w := if variant.AsWritten? || next != 0 then w[next + 16 := newHdr] else w;
    var w := w[newHdr + 8 := Get(w, seg + 8)];
    var w := w[seg + 8 := newHdr];
    var w := w[newHdr + 16 := seg];
    var w := w[newHdr := rest];
    var w := w[newHdr + 24 := Get(w, seg + 24)];
    w[seg := n]
  }

  function Split(h: Heap, variant: Variant, seg: nat, n: nat): Heap {
    var rest := Int32(Get(h.words, seg) - n - HEADER);
    if n < 0x10 || rest < 0x10 then h
    else
      var newHdr := seg + n + HEADER;
      var w := CutWords(h.words, variant, seg, n, rest);
      // Line 101 assigns `last`, the field of this segment, where LastHdr is meant.
      if h.last != seg then h.(words := w)
      else if variant.AsWritten? then h.(words := w[seg + 16 := newHdr])
      else h.(words := w, last := newHdr)
  }

  function CombineForward(h: Heap, variant: Variant, seg: nat): Heap {
    var w := h.words;
    var next := Get(w, seg + 8);
    if next == 0 || Get(w, next + 24) == 0 then h
    else
      // Line 136 compares LastHdr with `this` where it should assign.
      var last := if next == h.last && variant.Intended? then seg else h.last;
      var after := Get(w, next + 8);
      var w := if after != 0 then w[after + 16 := seg] else w;
      var w := w[seg := Get(w, seg) + Get(w, next) + HEADER];
      var w := w[seg + 8 := Get(w, next + 8)];
      h.(words := w, last := last)
  }

  function CombineBackward(h: Heap, variant: Variant, seg: nat): Heap {
    var last := Get(h.words, seg + 16);
    if last != 0 && Get(h.words, last + 24) != 0 then CombineForward(h, variant, last) else h
  }

  function Mark(h: Heap, seg: nat, free: bool): Heap {
    h.(words := h.words[seg + 24 := if free then 1 else 0])
  }

  function Release(h: Heap, variant: Variant, seg: nat): Heap {
    CombineBackward(CombineForward(Mark(h, seg, true), variant, seg), variant, seg)
  }

  /** The header writes of `ExpandHeap`: a free segment at `seg` behind the segment at `last`. */
  function LinkLast(w: Words, last: nat, seg: nat, length: nat): Words {
    w[seg + 24 := 1][seg + 16 := last][last + 8 := seg][seg + 8 := 0][seg := length]
  }

  /** The state after `ExpandHeap` mapped its pages, whose contents are `contents`, and appended the segment. */
  function Append(h: Heap, bytes: nat, contents: Words): Heap {
    var w := LinkLast(h.words + contents, h.last, h.end, if bytes >= HEADER then bytes - HEADER else 0);
    h.(words := w, end := h.end + bytes, last := h.end)
  }

  function Expand(h: Heap, variant: Variant, bytes: nat, contents: Words): Heap {
    CombineBackward(Append(h, bytes, contents), variant, h.end)
  }

  /**
   * What the slips do: a final segment that is split gets the new header as its own predecessor, word 16 gets it too,
   * and LastHdr stays where it was; so it does when its segment is merged away.
   */
  lemma SlipsAsWritten(h: Heap, seg: nat, n: nat)
    requires seg >= 0x1000 && Get(h.words, seg + 8) == 0 && h.last == seg
    requires n >= 0x10 && Int32(Get(h.words, seg) - n - HEADER) >= 0x10
    ensures var r := Split(h, AsWritten, seg, n);
      && Get(r.words, 16) == seg + n + 0x20 && Get(r.words, seg + 16) == seg + n + 0x20
      && Get(r.words, seg + 8) == seg + n + 0x20 && Get(r.words, seg) == n && r.last == seg
    ensures forall g: Heap, a: nat :: CombineForward(g, AsWritten, a).last == g.last
  {
    hide Int32;
  }

  // ---- Representation

  function NextAddr(start: nat, segs: seq<Seg>, k: nat): nat
    requires k < |segs|
  {
    if k + 1 < |segs| then Addr(start, segs, k + 1) else 0
  }

  function PrevAddr(start: nat, segs: seq<Seg>, k: nat): nat
    requires k < |segs|
  {
    if k > 0 then Addr(start, segs, k - 1) else 0
  }

  ghost predicate FourWords(w: Words, a: nat, x: nat, y: nat, z: nat, t: nat) {
    Get(w, a) == x && Get(w, a + 8) == y && Get(w, a + 16) == z && Get(w, a + 24) == t
  }

  function Flag(free: bool): nat {
    if free then 1 else 0
  }

  ghost predicate Header(w: Words, a: nat, length: nat, next: nat, last: nat, free: bool) {
    FourWords(w, a, length, next, last, Flag(free))
  }

  ghost predicate HeaderAt(w: Words, start: nat, segs: seq<Seg>, k: nat)
    requires k < |segs|
  {
    Header(w, Addr(start, segs, k), segs[k].length, NextAddr(start, segs, k), PrevAddr(start, segs, k), segs[k].free)
  }

  /** The `next` chain from the heap's start is an exact tiling of [start, end), with `last` its inverse. */
  ghost predicate Linked(h: Heap, segs: seq<Seg>) {
    && |segs| > 0 && h.start >= 0x1000 && h.end == h.start + Span(segs)
    && forall k :: 0 <= k < |segs| ==> HeaderAt(h.words, h.start, segs, k)
  }

  /** ... and LastHdr is the final segment. */
  ghost predicate Represents(h: Heap, segs: seq<Seg>) {
    Linked(h, segs) && h.last == Addr(h.start, segs, |segs| - 1)
  }

  ghost predicate WellFormed(h: Heap) {
    exists segs :: Represents(h, segs)
  }

  lemma AddrFacts(start: nat, segs: seq<Seg>, k: nat)
    requires k < |segs|
    ensures Addr(start, segs, 0) == start && Addr(start, segs, |segs|) == start + Span(segs)
    ensures start <= Addr(start, segs, k)
    ensures Addr(start, segs, k + 1) == Addr(start, segs, k) + HEADER + segs[k].length
    ensures Addr(start, segs, k) + HEADER + segs[k].length <= start + Span(segs)
  {
    AddrNext(start, segs, k);
    AddrOrdered(start, segs, k, |segs|);
    assert segs[..0] == [] && segs[..|segs|] == segs;
  }

  lemma HeaderOf(h: Heap, segs: seq<Seg>, k: nat)
    requires Linked(h, segs) && k < |segs|
    ensures Header(h.words, Addr(h.start, segs, k), segs[k].length, NextAddr(h.start, segs, k),
                   PrevAddr(h.start, segs, k), segs[k].free)
  {
    assert HeaderAt(h.words, h.start, segs, k);
    hide Addr, NextAddr, PrevAddr, Header;
  }

  lemma HeaderIs(w: Words, start: nat, segs: seq<Seg>, k: nat)
    requires k < |segs|
    requires Header(w, Addr(start, segs, k), segs[k].length, NextAddr(start, segs, k), PrevAddr(start, segs, k),
                    segs[k].free)
    ensures HeaderAt(w, start, segs, k)
  {
    hide Addr, NextAddr, PrevAddr, Header;
  }

  lemma HeaderNext(w: Words, a: nat, length: nat, next: nat, last: nat, free: bool)
    requires Header(w, a, length, next, last, free)
    ensures Get(w, a) == length && Get(w, a + 8) == next && Get(w, a + 16) == last
    ensures Get(w, a + 24) == Flag(free) && (free ==> Flag(free) != 0)
  {
  }

  lemma HeaderCopied(w: Words, v: Words, a: nat, length: nat, next: nat, last: nat, free: bool)
    requires Header(w, a, length, next, last, free)
    requires FourWords(v, a, Get(w, a), Get(w, a + 8), Get(w, a + 16), Get(w, a + 24))
    ensures Header(v, a, length, next, last, free)
  {
  }

  lemma HeaderMade(w: Words, a: nat, length: nat, next: nat, last: nat, free: bool)
    requires FourWords(w, a, length, next, last, Flag(free))
    ensures Header(w, a, length, next, last, free)
  {
  }

  lemma AddrNotNull(h: Heap, segs: seq<Seg>, k: nat)
    requires Linked(h, segs) && k < |segs|
    ensures Addr(h.start, segs, k) > 16
  {
  }

  /** Equal chains in one memory: the segments a heap represents are unique. */
  lemma {:induction false} SamePrefix(h: Heap, s: seq<Seg>, t: seq<Seg>, k: nat)
    requires Linked(h, s) && Linked(h, t) && k < |s|
    ensures k < |t| && s[..k + 1] == t[..k + 1] && Addr(h.start, s, k) == Addr(h.start, t, k)
  {
    hide *;
    if k == 0 {
      SameFirst(h, s, t);
    } else {
      SamePrefix(h, s, t, k - 1);
      SameNext(h, s, t, k - 1);
    }
    SameHeader(h, s, t, k);
    assert s[..k + 1] == s[..k] + [s[k]] && t[..k + 1] == t[..k] + [t[k]];
  }

  lemma SameFirst(h: Heap, s: seq<Seg>, t: seq<Seg>)
    requires Linked(h, s) && Linked(h, t)
    ensures |s| > 0 && |t| > 0 && Addr(h.start, s, 0) == Addr(h.start, t, 0)
  {
    AddrFacts(h.start, s, 0);
    AddrFacts(h.start, t, 0);
    hide Addr;
  }

  lemma SameNext(h: Heap, s: seq<Seg>, t: seq<Seg>, k: nat)
    requires Linked(h, s) && Linked(h, t) && k + 1 < |s| && k < |t|
    requires Addr(h.start, s, k) == Addr(h.start, t, k)
    ensures k + 1 < |t| && Addr(h.start, s, k + 1) == Addr(h.start, t, k + 1)
  {
    HeaderOf(h, s, k);
    HeaderOf(h, t, k);
    AddrFacts(h.start, s, k);
    hide Addr;
  }

  lemma SameHeader(h: Heap, s: seq<Seg>, t: seq<Seg>, k: nat)
    requires Linked(h, s) && Linked(h, t) && k < |s| && k < |t| && Addr(h.start, s, k) == Addr(h.start, t, k)
    ensures s[k] == t[k]
  {
    HeaderOf(h, s, k);
    HeaderOf(h, t, k);
    hide Addr, NextAddr, PrevAddr;
  }

  lemma RepresentationUnique(h: Heap, s: seq<Seg>, t: seq<Seg>)
    requires Linked(h, s) && Linked(h, t)
    ensures s == t
  {
    SamePrefix(h, s, t, |s| - 1);
    SamePrefix(h, t, s, |t| - 1);
    assert s[..|s|] == s && t[..|t|] == t;
  }

  // ---- Split

  /** The words `Split` writes, for a segment at `seg` with the given `next`. */
  predicate SplitWrites(seg: nat, n: nat, next: nat, x: nat) {
    x == seg || x == seg + 8 || seg + n + HEADER <= x <= seg + n + HEADER + 24 || x == next + 16
  }

  lemma CutSegment(w: Words, seg: nat, n: nat, rest: nat)
    requires n >= 0x10 && (Get(w, seg + 8) == 0 || Get(w, seg + 8) >= seg + n + 2 * HEADER)
    ensures FourWords(CutWords(w, Intended, seg, n, rest), seg, n, seg + n + HEADER, Get(w, seg + 16), Get(w, seg + 24))
  {
  }

  lemma CutRest(w: Words, seg: nat, n: nat, rest: nat)
    requires n >= 0x10 && (Get(w, seg + 8) == 0 || Get(w, seg + 8) >= seg + n + 2 * HEADER)
    ensures FourWords(CutWords(w, Intended, seg, n, rest), seg + n + HEADER,
                      rest, Get(w, seg + 8), seg, Get(w, seg + 24))
  {
  }

  lemma CutNext(w: Words, seg: nat, n: nat, rest: nat)
    requires Get(w, seg + 8) == 0 || Get(w, seg + 8) >= seg + n + 2 * HEADER
    ensures Get(w, seg + 8) != 0 ==>
      Get(CutWords(w, Intended, seg, n, rest), Get(w, seg + 8) + 16) == seg + n + HEADER
  {
  }

  lemma SplitWords(h: Heap, seg: nat, n: nat)
    requires n >= 0x10 && Int32(Get(h.words, seg) - n - HEADER) >= 0x10
    requires Get(h.words, seg + 8) == 0 || Get(h.words, seg + 8) >= seg + n + 2 * HEADER
    ensures FourWords(Split(h, Intended, seg, n).words, seg,
                      n, seg + n + HEADER, Get(h.words, seg + 16), Get(h.words, seg + 24))
    ensures FourWords(Split(h, Intended, seg, n).words, seg + n + HEADER,
                      Int32(Get(h.words, seg) - n - HEADER), Get(h.words, seg + 8), seg, Get(h.words, seg + 24))
    ensures Get(h.words, seg + 8) != 0 ==>
      Get(Split(h, Intended, seg, n).words, Get(h.words, seg + 8) + 16) == seg + n + HEADER
  {
    hide CutWords, FourWords, Int32;
    var rest := Int32(Get(h.words, seg) - n - HEADER);
    CutSegment(h.words, seg, n, rest);
    CutRest(h.words, seg, n, rest);
    CutNext(h.words, seg, n, rest);
  }

  lemma SplitKeepsWord(h: Heap, seg: nat, n: nat, x: nat)
    requires !SplitWrites(seg, n, Get(h.words, seg + 8), x) || (x == 16 && Get(h.words, seg + 8) == 0 && seg > 16)
    ensures Get(Split(h, Intended, seg, n).words, x) == Get(h.words, x)
  {
  }

  /** A header at b apart from the split segment and from its successor keeps all its words. */
  lemma SplitKeepsHeader(h: Heap, seg: nat, n: nat, b: nat)
    requires b + HEADER <= seg || b >= seg + n + 2 * HEADER
    requires var next := Get(h.words, seg + 8); next == 0 || b + HEADER <= next || next + HEADER <= b
    requires b > 16
    ensures FourWords(Split(h, Intended, seg, n).words, b,
                      Get(h.words, b), Get(h.words, b + 8), Get(h.words, b + 16), Get(h.words, b + 24))
  {
    hide Split;
    SplitKeepsWord(h, seg, n, b);
    SplitKeepsWord(h, seg, n, b + 8);
    SplitKeepsWord(h, seg, n, b + 16);
    SplitKeepsWord(h, seg, n, b + 24);
  }

  /** The successor's header changes only in `last`. */
  lemma SplitKeepsNext(h: Heap, seg: nat, n: nat)
    requires n >= 0x10 && Int32(Get(h.words, seg) - n - HEADER) >= 0x10
    requires Get(h.words, seg + 8) >= seg + n + 2 * HEADER
    ensures FourWords(Split(h, Intended, seg, n).words, Get(h.words, seg + 8),
                      Get(h.words, Get(h.words, seg + 8)), Get(h.words, Get(h.words, seg + 8) + 8),
                      seg + n + HEADER, Get(h.words, Get(h.words, seg + 8) + 24))
  {
    SplitWords(h, seg, n);
    hide Split;
    var b := Get(h.words, seg + 8);
    SplitKeepsWord(h, seg, n, b);
    SplitKeepsWord(h, seg, n, b + 8);
    SplitKeepsWord(h, seg, n, b + 24);
  }

  lemma SplitAddr(start: nat, segs: seq<Seg>, k: nat, n: nat, j: nat)
    requires k < |segs| && Splits(segs[k], n) && !Truncates(segs[k], n) && j <= |segs|
    ensures j <= k ==> Addr(start, SplitAt(segs, k, n), j) == Addr(start, segs, j)
    ensures Addr(start, SplitAt(segs, k, n), k + 1) == Addr(start, segs, k) + HEADER + n
    ensures j > k ==> Addr(start, SplitAt(segs, k, n), j + 1) == Addr(start, segs, j)
  {
    var r := SplitAt(segs, k, n);
    assert r[..k] == segs[..k];
    if j <= k {
      assert r[..j] == segs[..j];
    } else {
      var parts := [r[k], r[k + 1]];
      assert segs[..j] == segs[..k] + [segs[k]] + segs[k + 1..j];
      assert r == segs[..k] + parts + segs[k + 1..];
      assert segs[k + 1..][..j - k - 1] == segs[k + 1..j];
      assert r[..j + 1] == segs[..k] + parts + segs[k + 1..j];
      SpanOne(segs[k]);
      SpanTwo(r[k], r[k + 1]);
      SpanConcat(segs[..k] + parts, segs[k + 1..j]);
      SpanConcat(segs[..k], parts);
      SpanConcat(segs[..k] + [segs[k]], segs[k + 1..j]);
      SpanConcat(segs[..k], [segs[k]]);
    }
    AddrNext(start, r, k);
  }

  lemma SplitRoom(s: Seg, n: nat)
    requires Splits(s, n) && !Truncates(s, n)
    ensures s.length >= n + HEADER + 0x10 && Int32(s.length - n - HEADER) == s.length - n - HEADER && n >= 0x10
  {
  }

  /** A header away from the split segment keeps its words. */
  lemma SplitFarHeader(h: Heap, segs: seq<Seg>, k: nat, n: nat, i: nat)
    requires Linked(h, segs) && k < |segs| && i < |segs| && i != k && i != k + 1
    requires Splits(segs[k], n) && !Truncates(segs[k], n)
    ensures Header(Split(h, Intended, Addr(h.start, segs, k), n).words, Addr(h.start, segs, i), segs[i].length,
                   NextAddr(h.start, segs, i), PrevAddr(h.start, segs, i), segs[i].free)
  {
    hide *;
    var a, b := Addr(h.start, segs, k), Addr(h.start, segs, i);
    SplitReads(h, segs, k, n);
    HeaderOf(h, segs, i);
    AddrFacts(h.start, segs, i);
    if i < k {
      AddrOrdered(h.start, segs, i, k);
      if k + 1 < |segs| {
        AddrOrdered(h.start, segs, i, k + 1);
      }
    } else {
      AddrOrdered(h.start, segs, k, i);
      AddrOrdered(h.start, segs, k + 1, i);
    }
    AddrNotNull(h, segs, i);
    SplitKeepsHeader(h, a, n, b);
    HeaderCopied(h.words, Split(h, Intended, a, n).words, b, segs[i].length, NextAddr(h.start, segs, i),
                 PrevAddr(h.start, segs, i), segs[i].free);
  }

  /** The addresses that `Split` reads in the header of segment k. */
  lemma SplitReads(h: Heap, segs: seq<Seg>, k: nat, n: nat)
    requires Linked(h, segs) && k < |segs| && Splits(segs[k], n) && !Truncates(segs[k], n)
    ensures var a, next := Addr(h.start, segs, k), NextAddr(h.start, segs, k);
      && HEADER == 32 && n >= 0x10 && segs[k].length >= n + HEADER + 0x10
      && Int32(segs[k].length - n - HEADER) == segs[k].length - n - HEADER
      && Get(h.words, a) == segs[k].length && Get(h.words, a + 8) == next
      && Addr(h.start, segs, k + 1) == a + HEADER + segs[k].length
      && next == if k + 1 < |segs| then Addr(h.start, segs, k + 1) else 0
  {
    SplitRoom(segs[k], n);
    HeaderOf(h, segs, k);
    AddrNext(h.start, segs, k);
    hide Addr, Int32, Splits, Truncates;
  }

  /** The successor's header now names the new segment as its predecessor. */
  lemma SplitNextHeader(h: Heap, segs: seq<Seg>, k: nat, n: nat, a: nat)
    requires Linked(h, segs) && k + 1 < |segs| && a == Addr(h.start, segs, k)
    requires Splits(segs[k], n) && !Truncates(segs[k], n)
    ensures Header(Split(h, Intended, a, n).words, Addr(h.start, segs, k + 1), segs[k + 1].length,
                   NextAddr(h.start, segs, k + 1), a + HEADER + n, segs[k + 1].free)
  {
    hide *;
    SplitReads(h, segs, k, n);
    HeaderOf(h, segs, k + 1);
    var b, next := Addr(h.start, segs, k + 1), NextAddr(h.start, segs, k + 1);
    HeaderNext(h.words, b, segs[k + 1].length, next, PrevAddr(h.start, segs, k + 1), segs[k + 1].free);
    SplitKeepsNext(h, a, n);
    HeaderMade(Split(h, Intended, a, n).words, b, segs[k + 1].length, next, a + HEADER + n, segs[k + 1].free);
  }

  /** Neighbours of a header after the split, in terms of the addresses before it. */
  lemma SplitNeighbours(start: nat, segs: seq<Seg>, k: nat, n: nat, j: nat)
    requires k < |segs| && Splits(segs[k], n) && !Truncates(segs[k], n) && j <= |segs|
    ensures NextAddr(start, SplitAt(segs, k, n), j) ==
      if j < k then NextAddr(start, segs, j) else if j == k then Addr(start, segs, k) + HEADER + n
      else NextAddr(start, segs, j - 1)
    ensures PrevAddr(start, SplitAt(segs, k, n), j) ==
      if j <= k then PrevAddr(start, segs, j) else if j == k + 1 then Addr(start, segs, k)
      else if j == k + 2 then Addr(start, segs, k) + HEADER + n else PrevAddr(start, segs, j - 1)
  {
    hide *;
    SplitElement(segs, k, n, j);
    NeighboursAre(start, SplitAt(segs, k, n), j);
    NeighboursAre(start, segs, if j <= k then j else j - 1);
    SplitAddr(start, segs, k, n, k);
    if j < k {
      SplitAddr(start, segs, k, n, j + 1);
    } else if k < j < |segs| {
      SplitAddr(start, segs, k, n, j);
    }
    if 0 < j <= k {
      SplitAddr(start, segs, k, n, j - 1);
    } else if j > k + 2 {
      SplitAddr(start, segs, k, n, j - 2);
    }
  }

  lemma NeighboursAre(start: nat, segs: seq<Seg>, k: nat)
    requires k < |segs|
    ensures NextAddr(start, segs, k) == if k + 1 < |segs| then Addr(start, segs, k + 1) else 0
    ensures PrevAddr(start, segs, k) == if k > 0 then Addr(start, segs, k - 1) else 0
  {
  }

  lemma SplitElement(segs: seq<Seg>, k: nat, n: nat, j: nat)
    requires k < |segs| && Splits(segs[k], n) && !Truncates(segs[k], n) && j <= |segs|
    ensures |SplitAt(segs, k, n)| == |segs| + 1
    ensures SplitAt(segs, k, n)[j] ==
      if j < k then segs[j] else if j == k then Seg(n, segs[k].free)
      else if j == k + 1 then Seg(Rest(segs[k], n), segs[k].free) else segs[j - 1]
  {
  }

  lemma SplitHeaderBefore(h: Heap, segs: seq<Seg>, k: nat, n: nat, j: nat, a: nat)
    requires Linked(h, segs) && k < |segs| && Splits(segs[k], n) && !Truncates(segs[k], n) && j <= |segs|
    requires |SplitAt(segs, k, n)| == |segs| + 1 && a == Addr(h.start, segs, k)
    requires j < k
    ensures HeaderAt(Split(h, Intended, a, n).words, h.start, SplitAt(segs, k, n), j)
  {
    hide *;
    SplitElement(segs, k, n, j);
    SplitNeighbours(h.start, segs, k, n, j);
    SplitAddr(h.start, segs, k, n, j);
    SplitFarHeader(h, segs, k, n, j);
    HeaderIs(Split(h, Intended, a, n).words, h.start, SplitAt(segs, k, n), j);
  }

  lemma SplitHeaderHere(h: Heap, segs: seq<Seg>, k: nat, n: nat, j: nat, a: nat)
    requires Linked(h, segs) && k < |segs| && Splits(segs[k], n) && !Truncates(segs[k], n) && j <= |segs|
    requires |SplitAt(segs, k, n)| == |segs| + 1 && a == Addr(h.start, segs, k)
    requires k <= j <= k + 1
    ensures HeaderAt(Split(h, Intended, a, n).words, h.start, SplitAt(segs, k, n), j)
  {
    hide *;
    SplitElement(segs, k, n, j);
    SplitNeighbours(h.start, segs, k, n, j);
    SplitAddr(h.start, segs, k, n, k);
    SplitNear(h, segs, k, n, a);
    HeaderIs(Split(h, Intended, a, n).words, h.start, SplitAt(segs, k, n), j);
  }

  lemma SplitHeaderAfter(h: Heap, segs: seq<Seg>, k: nat, n: nat, j: nat, a: nat)
    requires Linked(h, segs) && k < |segs| && Splits(segs[k], n) && !Truncates(segs[k], n) && j <= |segs|
    requires |SplitAt(segs, k, n)| == |segs| + 1 && a == Addr(h.start, segs, k)
    requires k + 1 < j
    ensures HeaderAt(Split(h, Intended, a, n).words, h.start, SplitAt(segs, k, n), j)
  {
    hide *;
    SplitElement(segs, k, n, j);
    SplitNeighbours(h.start, segs, k, n, j);
    SplitAddr(h.start, segs, k, n, j - 1);
    if j == k + 2 {
      SplitNextHeader(h, segs, k, n, a);
    } else {
      SplitFarHeader(h, segs, k, n, j - 1);
    }
    HeaderIs(Split(h, Intended, a, n).words, h.start, SplitAt(segs, k, n), j);
  }

  lemma SplitHeader(h: Heap, segs: seq<Seg>, k: nat, n: nat, j: nat)
    requires Linked(h, segs) && k < |segs| && Splits(segs[k], n) && !Truncates(segs[k], n) && j <= |segs|
    ensures |SplitAt(segs, k, n)| == |segs| + 1
    ensures HeaderAt(Split(h, Intended, Addr(h.start, segs, k), n).words, h.start, SplitAt(segs, k, n), j)
  {
    SplitElement(segs, k, n, j);
    hide *;
    if j < k {
      SplitHeaderBefore(h, segs, k, n, j, Addr(h.start, segs, k));
    } else if j <= k + 1 {
      SplitHeaderHere(h, segs, k, n, j, Addr(h.start, segs, k));
    } else {
      SplitHeaderAfter(h, segs, k, n, j, Addr(h.start, segs, k));
    }
  }

  /** The two headers of a split segment. */
  lemma SplitNear(h: Heap, segs: seq<Seg>, k: nat, n: nat, a: nat)
    requires Linked(h, segs) && k < |segs| && a == Addr(h.start, segs, k)
    requires Splits(segs[k], n) && !Truncates(segs[k], n)
    ensures Header(Split(h, Intended, a, n).words, a, n, a + HEADER + n, PrevAddr(h.start, segs, k), segs[k].free)
    ensures Header(Split(h, Intended, a, n).words, a + HEADER + n, Rest(segs[k], n), NextAddr(h.start, segs, k), a,
                   segs[k].free)
  {
    SplitRoom(segs[k], n);
    assert HeaderAt(h.words, h.start, segs, k);
    AddrFacts(h.start, segs, k);
    CutHeader(h, a, n, segs[k].length, NextAddr(h.start, segs, k), PrevAddr(h.start, segs, k), segs[k].free);
    hide *;
  }

  lemma CutHeader(h: Heap, a: nat, n: nat, length: nat, next: nat, last: nat, free: bool)
    requires Header(h.words, a, length, next, last, free) && (next == 0 || next == a + HEADER + length)
    requires n >= 0x10 && length >= n + HEADER + 0x10 && Int32(length - n - HEADER) == length - n - HEADER
    ensures Header(Split(h, Intended, a, n).words, a, n, a + HEADER + n, last, free)
    ensures Header(Split(h, Intended, a, n).words, a + HEADER + n, length - n - HEADER, next, a, free)
  {
    hide Split;
    hide Int32;
    SplitWords(h, a, n);
  }

  /** With its slips repaired, `Split` cuts the segment in two, unless its length is truncated. */
  lemma SplitRepresents(h: Heap, segs: seq<Seg>, k: nat, n: nat)
    requires Represents(h, segs) && k < |segs| && !Truncates(segs[k], n)
    ensures Represents(Split(h, Intended, Addr(h.start, segs, k), n), SplitAt(segs, k, n))
  {
    var seg := Addr(h.start, segs, k);
    assert HeaderAt(h.words, h.start, segs, k);
    if Splits(segs[k], n) {
      var after, r := Split(h, Intended, seg, n), SplitAt(segs, k, n);
      forall j | 0 <= j < |r|
        ensures HeaderAt(after.words, h.start, r, j)
      {
        SplitHeader(h, segs, k, n, j);
      }
      SplitSpan(segs, k, n);
      SplitAddr(h.start, segs, k, n, |segs| - 1);
      if k < |segs| - 1 {
        AddrOrdered(h.start, segs, k, |segs| - 1);
      }
      hide HeaderAt;
      hide Addr;
    }
  }

  // ---- Split, exactly

  /** The two variants differ only when the segment to be split is the last one. */
  lemma SplitVariants(h: Heap, segs: seq<Seg>, k: nat, n: nat)
    requires Represents(h, segs) && k < |segs| && (k + 1 < |segs| || !Splits(segs[k], n))
    ensures Split(h, AsWritten, Addr(h.start, segs, k), n) == Split(h, Intended, Addr(h.start, segs, k), n)
  {
    assert HeaderAt(h.words, h.start, segs, k);
    if k + 1 < |segs| {
      AddrOrdered(h.start, segs, k, |segs| - 1);
    }
    AddrFacts(h.start, segs, k);
  }

  /** Splitting the last segment as written leaves LastHdr at a segment that has a successor. */
  lemma SplitLastAsWritten(h: Heap, segs: seq<Seg>, n: nat)
    requires Represents(h, segs) && Splits(segs[|segs| - 1], n)
    ensures !WellFormed(Split(h, AsWritten, h.last, n))
  {
    var after := Split(h, AsWritten, h.last, n);
    assert HeaderAt(h.words, h.start, segs, |segs| - 1);
    assert after.last == h.last && Get(after.words, h.last + 8) == h.last + n + HEADER;
    forall s | Represents(after, s)
      ensures false
    {
      LastHasNoNext(after, s);
    }
  }

  lemma LastHasNoNext(h: Heap, segs: seq<Seg>)
    requires Represents(h, segs)
    ensures Get(h.words, h.last + 8) == 0
  {
    assert HeaderAt(h.words, h.start, segs, |segs| - 1);
  }

  /** The words that a truncated split leaves: a header whose length stops short of its `next`. */
  ghost predicate CutAt(h: Heap, segs: seq<Seg>, k: nat, n: nat, after: Heap)
    requires k < |segs|
  {
    var a := Addr(h.start, segs, k);
    && after.start == h.start && after.end == h.end
    && Get(after.words, a) == n && Get(after.words, a + 8) == a + n + HEADER
    && Get(after.words, a + n + HEADER) == Int32(Rest(segs[k], n))
    && Get(after.words, a + n + HEADER + 8) == NextAddr(h.start, segs, k)
    && forall i :: 0 <= i < k ==> Get(after.words, Addr(h.start, segs, i) + 8) == Addr(h.start, segs, i + 1)
  }

  /** Such words are no heap: the new header claims fewer bytes than the chain skips. */
  lemma CutIsBroken(h: Heap, segs: seq<Seg>, k: nat, n: nat, after: Heap)
    requires Represents(h, segs) && k < |segs| && Truncates(segs[k], n) && CutAt(h, segs, k, n, after)
    ensures !WellFormed(after)
  {
    var a := Addr(h.start, segs, k);
    AddrFacts(h.start, segs, k);
    forall s | Represents(after, s)
      ensures false
    {
      CutChain(h, segs, k, n, after, s, k);
      CutShort(after, s, k, a, n, NextAddr(h.start, segs, k), segs[k].length);
    }
  }

  /** After a truncated split the heap is broken. */
  lemma SplitTruncated(h: Heap, variant: Variant, segs: seq<Seg>, k: nat, n: nat)
    requires Represents(h, segs) && k < |segs| && n < segs[k].length && Truncates(segs[k], n)
    ensures CutAt(h, segs, k, n, Split(h, variant, Addr(h.start, segs, k), n))
    ensures !WellFormed(Split(h, variant, Addr(h.start, segs, k), n))
  {
    var a := Addr(h.start, segs, k);
    assert HeaderAt(h.words, h.start, segs, k);
    AddrFacts(h.start, segs, k);
    CutLeaves(h, variant, a, n);
    forall i | 0 <= i < k
      ensures Get(Split(h, variant, a, n).words, Addr(h.start, segs, i) + 8) == Addr(h.start, segs, i + 1)
    {
      TruncatedKeeps(h, variant, segs, k, n, i);
    }
    CutIsBroken(h, segs, k, n, Split(h, variant, a, n));
  }

  lemma CutLeaves(h: Heap, variant: Variant, seg: nat, n: nat)
    requires n >= 0x10 && Int32(Get(h.words, seg) - n - HEADER) >= 0x10
    requires Get(h.words, seg + 8) == 0 || Get(h.words, seg + 8) > seg + HEADER + n + HEADER
    requires seg > 32
    ensures Get(Split(h, variant, seg, n).words, seg) == n
    ensures Get(Split(h, variant, seg, n).words, seg + 8) == seg + n + HEADER
    ensures Get(Split(h, variant, seg, n).words, seg + n + HEADER) == Int32(Get(h.words, seg) - n - HEADER)
    ensures Get(Split(h, variant, seg, n).words, seg + n + HEADER + 8) == Get(h.words, seg + 8)
  {
  }

  /** A chain cannot pass through a header whose length stops short of its `next`. */
  lemma CutShort(h: Heap, s: seq<Seg>, k: nat, a: nat, n: nat, next: nat, length: nat)
    requires Linked(h, s) && k < |s| && Addr(h.start, s, k) == a
    requires Get(h.words, a) == n && Get(h.words, a + 8) == a + n + HEADER
    requires Get(h.words, a + n + HEADER + 8) == next
    requires next == 0 || next == a + HEADER + length
    requires next == 0 ==> h.end == a + HEADER + length
    ensures Get(h.words, a + n + HEADER) == length - n - HEADER
  {
    assert HeaderAt(h.words, h.start, s, k);
    AddrFacts(h.start, s, k);
    assert HeaderAt(h.words, h.start, s, k + 1);
    AddrFacts(h.start, s, k + 1);
  }

  lemma {:induction false} CutChain(h: Heap, segs: seq<Seg>, k: nat, n: nat, after: Heap, s: seq<Seg>, j: nat)
    requires Represents(h, segs) && k < |segs| && CutAt(h, segs, k, n, after) && j <= k
    requires Represents(after, s)
    ensures j < |s| && Addr(h.start, s, j) == Addr(h.start, segs, j)
  {
    if j == 0 {
      AddrFacts(h.start, segs, 0);
      AddrFacts(h.start, s, 0);
    } else {
      CutChain(h, segs, k, n, after, s, j - 1);
      AddrFacts(h.start, segs, j - 1);
      NextInChain(after, s, j - 1, Addr(h.start, segs, j - 1), Addr(h.start, segs, j));
    }
    hide Addr;
  }

  /** A segment whose `next` is not null is followed by the segment it names. */
  lemma NextInChain(h: Heap, s: seq<Seg>, k: nat, a: nat, next: nat)
    requires Linked(h, s) && k < |s| && Addr(h.start, s, k) == a && Get(h.words, a + 8) == next && next != 0
    ensures k + 1 < |s| && Addr(h.start, s, k + 1) == next
  {
    assert HeaderAt(h.words, h.start, s, k);
  }

  lemma TruncatedKeeps(h: Heap, variant: Variant, segs: seq<Seg>, k: nat, n: nat, i: nat)
    requires Represents(h, segs) && i < k < |segs| && Truncates(segs[k], n)
    ensures Get(Split(h, variant, Addr(h.start, segs, k), n).words, Addr(h.start, segs, i) + 8)
      == Addr(h.start, segs, i + 1)
  {
    var a := Addr(h.start, segs, k);
    HeaderOf(h, segs, i);
    HeaderOf(h, segs, k);
    AddrOrdered(h.start, segs, i, k);
    AddrFacts(h.start, segs, i);
    AddrFacts(h.start, segs, k);
    AddrNotNull(h, segs, i);
    SplitLeaves(h, variant, a, n, Addr(h.start, segs, i) + 8);
    hide Addr, Split, Truncates;
  }

  /** `Split` writes nothing below its segment, except through a null `next`. */
  lemma SplitLeaves(h: Heap, variant: Variant, seg: nat, n: nat, x: nat)
    requires x != 16 && x < seg && (Get(h.words, seg + 8) == 0 || Get(h.words, seg + 8) > seg)
    ensures Get(Split(h, variant, seg, n).words, x) == Get(h.words, x)
  {
  }

  /**
   * `Split` as written keeps the heap well formed if and only if it does not split, or splits a segment other than
   * the last one into lengths that survive int32_t; with the slips repaired the last segment may be split too. Like
   * `malloc`, it splits only segments longer than n.
   */
  lemma SplitExactly(h: Heap, variant: Variant, segs: seq<Seg>, k: nat, n: nat)
    requires Represents(h, segs) && k < |segs| && n < segs[k].length
    ensures WellFormed(Split(h, variant, Addr(h.start, segs, k), n)) <==>
      !Splits(segs[k], n) || (!Truncates(segs[k], n) && (variant.Intended? || k + 1 < |segs|))
    ensures WellFormed(Split(h, variant, Addr(h.start, segs, k), n)) ==>
      Represents(Split(h, variant, Addr(h.start, segs, k), n), SplitAt(segs, k, n))
  {
    if Truncates(segs[k], n) {
      SplitTruncated(h, variant, segs, k, n);
    } else {
      SplitRepresents(h, segs, k, n);
      if variant.AsWritten? {
        if k + 1 < |segs| || !Splits(segs[k], n) {
          SplitVariants(h, segs, k, n);
        } else {
          SplitLastAsWritten(h, segs, n);
        }
      }
    }
  }

  // ---- CombineForward

  lemma MergeAddr(start: nat, segs: seq<Seg>, k: nat, j: nat)
    requires k + 1 < |segs| && segs[k + 1].free && j <= |segs|
    ensures j <= k ==> Addr(start, MergeAt(segs, k), j) == Addr(start, segs, j)
    ensures j >= k + 2 ==> Addr(start, MergeAt(segs, k), j - 1) == Addr(start, segs, j)
  {
    var r := MergeAt(segs, k);
    if j <= k {
      assert r[..j] == segs[..j];
    } else if j >= k + 2 {
      var parts := [segs[k], segs[k + 1]];
      assert segs == segs[..k] + parts + segs[k + 2..] && r == segs[..k] + [r[k]] + segs[k + 2..];
      assert segs[k + 2..][..j - k - 2] == segs[k + 2..j];
      assert segs[..j] == segs[..k] + parts + segs[k + 2..j];
      assert r[..j - 1] == segs[..k] + [r[k]] + segs[k + 2..j];
      SpanOne(r[k]);
      SpanTwo(segs[k], segs[k + 1]);
      SpanConcat(segs[..k] + parts, segs[k + 2..j]);
      SpanConcat(segs[..k], parts);
      SpanConcat(segs[..k] + [r[k]], segs[k + 2..j]);
      SpanConcat(segs[..k], [r[k]]);
    }
  }

  lemma MergeNeighbours(start: nat, segs: seq<Seg>, k: nat, j: nat)
    requires k + 1 < |segs| && segs[k + 1].free && j < |segs| - 1
    ensures NextAddr(start, MergeAt(segs, k), j) ==
      if j < k then NextAddr(start, segs, j) else NextAddr(start, segs, j + 1)
    ensures PrevAddr(start, MergeAt(segs, k), j) ==
      if j <= k then PrevAddr(start, segs, j) else if j == k + 1 then Addr(start, segs, k)
      else PrevAddr(start, segs, j + 1)
  {
    if j < k {
      MergeAddr(start, segs, k, j + 1);
    } else if j + 2 < |segs| {
      MergeAddr(start, segs, k, j + 2);
    }
    if 0 < j <= k {
      MergeAddr(start, segs, k, j - 1);
    } else if j == k + 1 {
      MergeAddr(start, segs, k, k);
    } else if j > k + 1 {
      MergeAddr(start, segs, k, j);
    }
    hide Addr;
  }

  /** The words of `seg`, of the header after its successor, and of any header apart from those. */
  lemma MergeWords(h: Heap, seg: nat, next: nat, after: nat)
    requires next == Get(h.words, seg + 8) && next >= seg + HEADER && Get(h.words, next + 24) != 0
    requires after == Get(h.words, next + 8) && (after == 0 || after >= next + HEADER)
    ensures FourWords(CombineForward(h, Intended, seg).words, seg,
                      Get(h.words, seg) + Get(h.words, next) + HEADER, after,
                      Get(h.words, seg + 16), Get(h.words, seg + 24))
    ensures after != 0 ==> FourWords(CombineForward(h, Intended, seg).words, after,
                                     Get(h.words, after), Get(h.words, after + 8), seg, Get(h.words, after + 24))
  {
  }

  lemma MergeKeepsHeader(h: Heap, seg: nat, next: nat, after: nat, b: nat)
    requires next == Get(h.words, seg + 8) && next != 0 && after == Get(h.words, next + 8)
    requires b + HEADER <= seg || seg + HEADER <= b
    requires after == 0 || b + HEADER <= after || after + HEADER <= b
    ensures FourWords(CombineForward(h, Intended, seg).words, b,
                      Get(h.words, b), Get(h.words, b + 8), Get(h.words, b + 16), Get(h.words, b + 24))
  {
  }

  /** The addresses that `CombineForward` on segment k reads in its header and in its successor's. */
  lemma MergeReads(h: Heap, segs: seq<Seg>, k: nat)
    requires Linked(h, segs) && k + 1 < |segs|
    ensures var a, next, after := Addr(h.start, segs, k), Addr(h.start, segs, k + 1), NextAddr(h.start, segs, k + 1);
      && Get(h.words, a) == segs[k].length && Get(h.words, a + 8) == next && next == a + HEADER + segs[k].length
      && Get(h.words, a + 16) == PrevAddr(h.start, segs, k) && Get(h.words, a + 24) == Flag(segs[k].free)
      && Get(h.words, next) == segs[k + 1].length && Get(h.words, next + 8) == after
      && (segs[k + 1].free ==> Get(h.words, next + 24) != 0)
      && (after == 0 || after >= next + HEADER) && next != 0
      && after == if k + 2 < |segs| then Addr(h.start, segs, k + 2) else 0
  {
    HeaderOf(h, segs, k);
    HeaderOf(h, segs, k + 1);
    AddrFacts(h.start, segs, k);
    AddrFacts(h.start, segs, k + 1);
    hide Addr;
  }

  lemma MergeNear(h: Heap, segs: seq<Seg>, k: nat, a: nat)
    requires Linked(h, segs) && k + 1 < |segs| && segs[k + 1].free && a == Addr(h.start, segs, k)
    ensures Header(CombineForward(h, Intended, a).words, a, MergeAt(segs, k)[k].length, NextAddr(h.start, segs, k + 1),
                   PrevAddr(h.start, segs, k), segs[k].free)
  {
    hide CombineForward, Linked, Addr, NextAddr, PrevAddr;
    MergeReads(h, segs, k);
    MergeWords(h, a, Addr(h.start, segs, k + 1), NextAddr(h.start, segs, k + 1));
  }

  lemma MergeNext(h: Heap, segs: seq<Seg>, k: nat, a: nat)
    requires Linked(h, segs) && k + 2 < |segs| && segs[k + 1].free && a == Addr(h.start, segs, k)
    ensures Header(CombineForward(h, Intended, a).words, Addr(h.start, segs, k + 2), segs[k + 2].length,
                   NextAddr(h.start, segs, k + 2), a, segs[k + 2].free)
  {
    hide *;
    MergeReads(h, segs, k);
    HeaderOf(h, segs, k + 2);
    var after, v := Addr(h.start, segs, k + 2), CombineForward(h, Intended, a).words;
    HeaderNext(h.words, after, segs[k + 2].length, NextAddr(h.start, segs, k + 2), PrevAddr(h.start, segs, k + 2),
               segs[k + 2].free);
    AddrNotNull(h, segs, k + 2);
    MergeWords(h, a, Addr(h.start, segs, k + 1), after);
    HeaderMade(v, after, segs[k + 2].length, NextAddr(h.start, segs, k + 2), a, segs[k + 2].free);
  }

  lemma MergeFar(h: Heap, segs: seq<Seg>, k: nat, a: nat, i: nat)
    requires Linked(h, segs) && k + 1 < |segs| && segs[k + 1].free && a == Addr(h.start, segs, k)
    requires i < |segs| && (i < k || i > k + 2)
    ensures Header(CombineForward(h, Intended, a).words, Addr(h.start, segs, i), segs[i].length,
                   NextAddr(h.start, segs, i), PrevAddr(h.start, segs, i), segs[i].free)
  {
    hide *;
    MergeReads(h, segs, k);
    HeaderOf(h, segs, i);
    if i < k {
      AddrOrdered(h.start, segs, i, k);
      if k + 2 < |segs| {
        AddrOrdered(h.start, segs, i, k + 2);
      }
    } else {
      AddrOrdered(h.start, segs, k, i);
      AddrOrdered(h.start, segs, k + 2, i);
    }
    MergeKeepsHeader(h, a, Addr(h.start, segs, k + 1), NextAddr(h.start, segs, k + 1), Addr(h.start, segs, i));
    HeaderCopied(h.words, CombineForward(h, Intended, a).words, Addr(h.start, segs, i), segs[i].length,
                 NextAddr(h.start, segs, i), PrevAddr(h.start, segs, i), segs[i].free);
  }

  lemma MergeHeader(h: Heap, segs: seq<Seg>, k: nat, j: nat, a: nat)
    requires Linked(h, segs) && k + 1 < |segs| && segs[k + 1].free && j < |segs| - 1 && a == Addr(h.start, segs, k)
    ensures HeaderAt(CombineForward(h, Intended, a).words, h.start, MergeAt(segs, k), j)
  {
    MergeNeighbours(h.start, segs, k, j);
    MergeAddr(h.start, segs, k, if j <= k then j else j + 1);
    if j == k {
      MergeNear(h, segs, k, a);
    } else if j == k + 1 {
      MergeNext(h, segs, k, a);
    } else {
      MergeFar(h, segs, k, a, if j <= k then j else j + 1);
    }
    hide CombineForward;
    hide Addr;
    hide NextAddr;
    hide PrevAddr;
    hide Header;
    hide Linked;
  }

  /** `CombineForward` does nothing without a free successor, and its variants differ only in LastHdr. */
  lemma MergeVariants(h: Heap, seg: nat)
    ensures CombineForward(h, AsWritten, seg) == CombineForward(h, Intended, seg).(last := h.last)
    ensures CombineForward(h, Intended, seg).start == h.start && CombineForward(h, Intended, seg).end == h.end
    ensures Get(h.words, seg + 8) == 0 || Get(h.words, Get(h.words, seg + 8) + 24) == 0 ==>
      CombineForward(h, Intended, seg) == h
  {
  }

  /** In both variants the chain of `CombineForward` absorbs a free successor. */
  lemma MergeLinked(h: Heap, variant: Variant, segs: seq<Seg>, k: nat)
    requires Linked(h, segs) && k < |segs|
    ensures Linked(CombineForward(h, variant, Addr(h.start, segs, k)), MergeAt(segs, k))
    ensures CombineForward(h, variant, Addr(h.start, segs, k)).start == h.start
    ensures variant.AsWritten? ==> CombineForward(h, variant, Addr(h.start, segs, k)).last == h.last
  {
    var a := Addr(h.start, segs, k);
    MergeVariants(h, a);
    hide CombineForward;
    assert HeaderAt(h.words, h.start, segs, k);
    if k + 1 < |segs| {
      assert HeaderAt(h.words, h.start, segs, k + 1);
      if segs[k + 1].free {
        forall j | 0 <= j < |segs| - 1
          ensures HeaderAt(CombineForward(h, Intended, a).words, h.start, MergeAt(segs, k), j)
        {
          MergeHeader(h, segs, k, j, a);
        }
        MergeSpan(segs, k);
      }
    }
  }

  /** With its slip repaired, `CombineForward` keeps LastHdr at the final segment. */
  lemma MergeRepresents(h: Heap, segs: seq<Seg>, k: nat)
    requires Represents(h, segs) && k < |segs|
    ensures Represents(CombineForward(h, Intended, Addr(h.start, segs, k)), MergeAt(segs, k))
  {
    MergeLinked(h, Intended, segs, k);
    assert HeaderAt(h.words, h.start, segs, k);
    if k + 1 < |segs| {
      assert HeaderAt(h.words, h.start, segs, k + 1);
      if segs[k + 1].free {
        LastAfterMerge(h, segs, k);
        AddrFacts(h.start, segs, k);
      }
    }
    hide Linked;
  }

  lemma LastAfterMerge(h: Heap, segs: seq<Seg>, k: nat)
    requires Represents(h, segs) && k + 1 < |segs| && segs[k + 1].free
    ensures Addr(h.start, MergeAt(segs, k), |segs| - 2) == if k + 2 == |segs| then Addr(h.start, segs, k) else h.last
    ensures h.last == Addr(h.start, segs, k + 1) <==> k + 2 == |segs|
  {
    MergeAddr(h.start, segs, k, if k + 2 == |segs| then k else |segs| - 1);
    if k + 2 < |segs| {
      AddrOrdered(h.start, segs, k + 1, |segs| - 1);
    }
  }

  predicate AbsorbsLast(segs: seq<Seg>, k: nat) {
    k + 2 == |segs| && segs[k + 1].free
  }

  /** `CombineForward` as written keeps the heap well formed if and only if it does not absorb the last segment. */
  lemma MergeExactly(h: Heap, variant: Variant, segs: seq<Seg>, k: nat)
    requires Represents(h, segs) && k < |segs|
    ensures WellFormed(CombineForward(h, variant, Addr(h.start, segs, k))) <==>
      variant.Intended? || !AbsorbsLast(segs, k)
    ensures WellFormed(CombineForward(h, variant, Addr(h.start, segs, k))) ==>
      Represents(CombineForward(h, variant, Addr(h.start, segs, k)), MergeAt(segs, k))
  {
    var a := Addr(h.start, segs, k);
    MergeRepresents(h, segs, k);
    if variant.AsWritten? {
      MergeLinked(h, AsWritten, segs, k);
      if k + 1 < |segs| && segs[k + 1].free {
        LastAfterMerge(h, segs, k);
        AddrFacts(h.start, segs, k);
      }
      StaleLast(CombineForward(h, AsWritten, a), MergeAt(segs, k), AbsorbsLast(segs, k));
    }
    hide Linked;
    hide CombineForward;
  }

  lemma StaleLast(h: Heap, segs: seq<Seg>, stale: bool)
    requires Linked(h, segs) && (stale <==> h.last != Addr(h.start, segs, |segs| - 1))
    ensures WellFormed(h) <==> !stale
    ensures !stale ==> Represents(h, segs)
  {
    if stale {
      forall s | Represents(h, s)
        ensures false
      {
        RepresentationUnique(h, s, segs);
      }
    } else {
      assert Represents(h, segs);
    }
  }

  // ---- The free flag

  lemma MarkKeepsHeader(h: Heap, segs: seq<Seg>, k: nat, free: bool, j: nat)
    requires Linked(h, segs) && k < |segs| && j < |segs|
    ensures HeaderAt(Mark(h, Addr(h.start, segs, k), free).words, h.start, segs[k := segs[k].(free := free)], j)
  {
    hide *;
    var r := segs[k := segs[k].(free := free)];
    HeaderOf(h, segs, j);
    MarkNeighbours(h.start, segs, k, free, j);
    if j < k {
      AddrOrdered(h.start, segs, j, k);
    } else if k < j {
      AddrOrdered(h.start, segs, k, j);
    }
    MarkWords(h, Addr(h.start, segs, k), free, Addr(h.start, segs, j), segs[j].length, NextAddr(h.start, segs, j),
              PrevAddr(h.start, segs, j), segs[j].free);
    HeaderIs(Mark(h, Addr(h.start, segs, k), free).words, h.start, r, j);
  }

  lemma MarkNeighbours(start: nat, segs: seq<Seg>, k: nat, free: bool, j: nat)
    requires k < |segs| && j < |segs|
    ensures HEADER == 32
    ensures var r := segs[k := segs[k].(free := free)];
      && Addr(start, r, j) == Addr(start, segs, j) && r[j].length == segs[j].length
      && NextAddr(start, r, j) == NextAddr(start, segs, j) && PrevAddr(start, r, j) == PrevAddr(start, segs, j)
  {
    var r := segs[k := segs[k].(free := free)];
    SameLengths(segs[..j], r[..j]);
    if j > 0 {
      SameLengths(segs[..j - 1], r[..j - 1]);
    }
    if j + 1 < |segs| {
      SameLengths(segs[..j + 1], r[..j + 1]);
    }
    hide Span;
  }

  lemma MarkWords(h: Heap, a: nat, free: bool, b: nat, length: nat, next: nat, last: nat, was: bool)
    requires Header(h.words, b, length, next, last, was) && (a == b || a + HEADER <= b || b + HEADER <= a)
    ensures Header(Mark(h, a, free).words, b, length, next, last, if a == b then free else was)
  {
  }

  lemma MarkRepresents(h: Heap, segs: seq<Seg>, k: nat, free: bool)
    requires Represents(h, segs) && k < |segs|
    ensures Represents(Mark(h, Addr(h.start, segs, k), free), segs[k := segs[k].(free := free)])
  {
    var r := segs[k := segs[k].(free := free)];
    forall j | 0 <= j < |r|
      ensures HeaderAt(Mark(h, Addr(h.start, segs, k), free).words, h.start, r, j)
    {
      MarkKeepsHeader(h, segs, k, free, j);
    }
    FlagSpan(segs, k, free);
    SameLengths(segs[..|segs| - 1], r[..|segs| - 1]);
    hide HeaderAt;
  }

  // ---- free

  /** `CombineBackward` on segment k is `CombineForward` on a free predecessor. */
  lemma BackwardIsForward(h: Heap, variant: Variant, segs: seq<Seg>, k: nat)
    requires Linked(h, segs) && k < |segs|
    ensures CombineBackward(h, variant, Addr(h.start, segs, k)) ==
      if k > 0 && segs[k - 1].free then CombineForward(h, variant, Addr(h.start, segs, k - 1)) else h
  {
    assert HeaderAt(h.words, h.start, segs, k);
    if k > 0 {
      assert HeaderAt(h.words, h.start, segs, k - 1);
      AddrFacts(h.start, segs, k - 1);
    }
    hide CombineForward;
  }

  /** Does freeing segment k merge the last segment into another? */
  predicate FreeAbsorbsLast(segs: seq<Seg>, k: nat)
    requires k < |segs|
  {
    AbsorbsLast(segs, k) || (k + 1 == |segs| && k > 0 && segs[k - 1].free)
  }

  lemma MergeKeepsAddr(start: nat, segs: seq<Seg>, k: nat, j: nat)
    requires j <= k < |segs|
    ensures Addr(start, MergeAt(segs, k), j) == Addr(start, segs, j)
  {
    if k + 1 < |segs| && segs[k + 1].free {
      MergeAddr(start, segs, k, j);
    }
  }

  /** With its slip repaired, `free` marks the segment and merges it with its free neighbours. */
  lemma ReleaseRepresents(h: Heap, segs: seq<Seg>, k: nat)
    requires Represents(h, segs) && k < |segs|
    ensures Represents(Release(h, Intended, Addr(h.start, segs, k)), FreeAt(segs, k))
  {
    var a := Addr(h.start, segs, k);
    var freed := segs[k := segs[k].(free := true)];
    SameLengths(segs[..k], freed[..k]);
    MarkRepresents(h, segs, k, true);
    var marked := Mark(h, a, true);
    assert marked.start == h.start && Addr(h.start, freed, k) == a;
    MergeKeepsAddr(h.start, freed, k, k);
    hide Mark;
    hide CombineForward;
    hide CombineBackward;
    MergeRepresents(marked, freed, k);
    var forward := CombineForward(marked, Intended, a);
    var merged := MergeAt(freed, k);
    MergeLinked(marked, Intended, freed, k);
    BackwardIsForward(forward, Intended, merged, k);
    hide Linked;
    if k > 0 && merged[k - 1].free {
      MergeRepresents(forward, merged, k - 1);
    }
    hide Represents;
    hide Addr;
    hide MergeAt;
  }

  /**
   * `free` as written keeps the heap well formed if and only if it does not merge the last segment into another
   * one; with the slip repaired it always does.
   */
  lemma ReleaseExactly(h: Heap, variant: Variant, segs: seq<Seg>, k: nat)
    requires Represents(h, segs) && k < |segs|
    ensures WellFormed(Release(h, variant, Addr(h.start, segs, k))) <==>
      variant.Intended? || !FreeAbsorbsLast(segs, k)
    ensures WellFormed(Release(h, variant, Addr(h.start, segs, k))) ==>
      Represents(Release(h, variant, Addr(h.start, segs, k)), FreeAt(segs, k))
  {
    ReleaseRepresents(h, segs, k);
    if variant.AsWritten? {
      ReleaseAsWritten(h, segs, k);
      StaleLast(Release(h, AsWritten, Addr(h.start, segs, k)), FreeAt(segs, k), FreeAbsorbsLast(segs, k));
    }
    hide Release;
    hide Linked;
  }

  lemma ReleaseAsWritten(h: Heap, segs: seq<Seg>, k: nat)
    requires Represents(h, segs) && k < |segs|
    ensures Linked(Release(h, AsWritten, Addr(h.start, segs, k)), FreeAt(segs, k))
    ensures FreeAbsorbsLast(segs, k) <==>
      Release(h, AsWritten, Addr(h.start, segs, k)).last != Addr(h.start, FreeAt(segs, k), |FreeAt(segs, k)| - 1)
  {
    var a := Addr(h.start, segs, k);
    var freed := segs[k := segs[k].(free := true)];
    SameLengths(segs[..k], freed[..k]);
    MarkRepresents(h, segs, k, true);
    var marked := Mark(h, a, true);
    FreeLast(h.start, segs, k);
    MergeKeepsAddr(h.start, freed, k, k);
    assert marked.last == h.last && marked.start == h.start && Addr(h.start, freed, k) == a;
    hide Mark;
    hide CombineForward;
    hide CombineBackward;
    MergeLinked(marked, AsWritten, freed, k);
    var forward := CombineForward(marked, AsWritten, a);
    var merged := MergeAt(freed, k);
    BackwardIsForward(forward, AsWritten, merged, k);
    if k > 0 && merged[k - 1].free {
      MergeLinked(forward, AsWritten, merged, k - 1);
    }
    assert Release(h, AsWritten, a).last == h.last;
    hide Linked;
    hide Addr;
    hide MergeAt;
  }

  /** Where the last segment ends up when segment k is freed. */
  lemma FreeLast(start: nat, segs: seq<Seg>, k: nat)
    requires k < |segs|
    ensures |FreeAt(segs, k)| > 0
    ensures FreeAbsorbsLast(segs, k) <==>
      Addr(start, segs, |segs| - 1) != Addr(start, FreeAt(segs, k), |FreeAt(segs, k)| - 1)
  {
    hide *;
    var freed := segs[k := segs[k].(free := true)];
    var merged := MergeAt(freed, k);
    FreeStages(start, segs, k);
    MergeLast(start, freed, k);
    if k > 0 && merged[k - 1].free {
      MergeLast(start, merged, k - 1);
    }
  }

  /** `free` as one or two merges, and when one of them absorbs the last segment. */
  lemma FreeStages(start: nat, segs: seq<Seg>, k: nat)
    requires k < |segs|
    ensures var freed := segs[k := segs[k].(free := true)];
      var merged := MergeAt(freed, k);
      && k < |merged| && Addr(start, freed, |segs| - 1) == Addr(start, segs, |segs| - 1)
      && FreeAt(segs, k) == (if k > 0 && merged[k - 1].free then MergeAt(merged, k - 1) else merged)
      && (FreeAbsorbsLast(segs, k) <==>
          AbsorbsLast(freed, k) || (k > 0 && merged[k - 1].free && AbsorbsLast(merged, k - 1)))
  {
    var freed := segs[k := segs[k].(free := true)];
    SameLengths(segs[..|segs| - 1], freed[..|segs| - 1]);
    if k > 0 {
      MergeLastBefore(start, freed, k);
    }
  }

  lemma MergeLast(start: nat, segs: seq<Seg>, k: nat)
    requires k < |segs|
    ensures |MergeAt(segs, k)| > 0
    ensures AbsorbsLast(segs, k) <==>
      Addr(start, segs, |segs| - 1) != Addr(start, MergeAt(segs, k), |MergeAt(segs, k)| - 1)
    ensures Addr(start, MergeAt(segs, k), |MergeAt(segs, k)| - 1) <= Addr(start, segs, |segs| - 1)
  {
    if k + 1 < |segs| && segs[k + 1].free {
      MergeAddr(start, segs, k, if k + 2 == |segs| then k else |segs| - 1);
      AddrOrdered(start, segs, k, k + 1);
    }
  }

  lemma MergeLastBefore(start: nat, segs: seq<Seg>, k: nat)
    requires 0 < k < |segs|
    ensures AbsorbsLast(MergeAt(segs, k), k - 1) <==>
      MergeAt(segs, k)[k].free && (k + 1 == |segs| || (k + 2 == |segs| && segs[k + 1].free))
  {
  }
}
