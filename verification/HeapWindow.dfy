/**
 * The heap's pages among the others. `MapMemory` reads and writes tables at their physical addresses, through the
 * mapping that it builds, and the heap's addresses lie in the part of it that maps memory to itself.
 */
module HeapWindows {
  import opened Units
  import opened FrameLedger
  import opened Paging
  import opened PageTree
  import opened MapMemory
  import opened AddressSpace
  import opened KernelBoot

  /** Frame f holds a table. */
  ghost predicate TableAt(memory: seq<Table>, root: nat, f: nat) {
    exists q :: Reaches(memory, root, q) && Follow(memory, root, q) == f
  }

  /** Every table is found at its physical address. */
  ghost predicate TablesReachable(memory: seq<Table>, root: nat) {
    forall f: nat :: TableAt(memory, root, f) ==> Translate(memory, root, f * 4096) == Mapped(f, true)
  }

  /** The mappings of `initializeHeap` and `ExpandHeap`: n pages from page number `page` on, each to a requested one. */
  function HeapActs(y: System, root: nat, page: nat, n: nat): seq<Act>
    requires Sized(y)
  {
    if n == 0 then []
    else
      var before := HeapActs(y, root, page, n - 1);
      before + HeapPage(RunActs(y, root, before), page + n - 1)
  }

  function HeapPage(z: System, page: nat): seq<Act> {
    [Allocate(RequestPage), MapPage(page * 4096, Request(z.frames).1)]
  }

  /** Pages are left for all of that. */
  ghost predicate HeapFits(y: System, root: nat, page: nat, n: nat)
    requires Sized(y)
  {
    n > 0 ==>
      && HeapFits(y, root, page, n - 1)
      && PageFits(RunActs(y, root, HeapActs(y, root, page, n - 1)), root, page + n - 1)
  }

  ghost predicate PageFits(z: System, root: nat, page: nat)
    requires Sized(z)
  {
    FreeCount(z.frames) > 0 && Enough(Perform(z, root, Allocate(RequestPage)), root, page * 4096)
  }

  /** What is mapped after n pages: the window leads to locked frames that hold no table, the rest is as it was. */
  ghost predicate WindowMapped(z: System, root: nat, flat: Flat, after: Flat, page: nat, n: nat) {
    && Good(z, root) && Refines(z, root, after)
    && (forall g: nat :: !(page <= g < page + n) ==> Look(after, g) == Look(flat, g))
    && (forall g: nat :: page <= g < page + n ==> PayloadAt(z, root, after, g))
  }

  ghost predicate PayloadAt(z: System, root: nat, flat: Flat, g: nat) {
    g in flat && flat[g] < |z.frames.bits| && z.frames.bits[flat[g]] && !TableAt(z.memory, root, flat[g])
  }

  /** Mapping makes no locked frame a table, and frees none. */
  lemma MapTablesFromFree(y: System, root: nat, v: nat, p: nat, f: nat)
    requires Good(y, root) && Enough(y, root, v) && f < |y.frames.bits| && y.frames.bits[f]
    ensures |Map(y, root, Path(v), p).frames.bits| == |y.frames.bits| && Map(y, root, Path(v), p).frames.bits[f]
    ensures TableAt(Map(y, root, Path(v), p).memory, root, f) ==> TableAt(y.memory, root, f)
  {
    var tables :| Proper(y.memory, tables, root, y.frames.bits);
    MissingIsAbsent(y.memory, tables, root, y.frames.bits, Path(v), 3);
    var named := MapKeepsTree(y, tables, root, Path(v), p);
    var z := Map(y, root, Path(v), p);
    hide Map, Path, Proper, Reaches, Follow;
    if TableAt(z.memory, root, f) {
      var q :| Reaches(z.memory, root, q) && Follow(z.memory, root, q) == f;
      NamedIsReachable(z.memory, named, root, z.frames.bits, q);
      NamedIsReachable(y.memory, tables, root, y.frames.bits, q);
    }
  }

  /** A page requested and mapped at `page`. */
  function OnePage(z: System, root: nat, page: nat): System
    requires Sized(z)
  {
    Perform(Perform(z, root, Allocate(RequestPage)), root, MapPage(page * 4096, Request(z.frames).1))
  }

  lemma GoodFacts(z: System, root: nat)
    requires Good(z, root)
    ensures Sized(z) && 0 < |z.frames.bits| <= ADDRESSES && z.frames.bits[0]
    ensures forall f: nat :: TableAt(z.memory, root, f) ==> 0 < f < z.frames.Limit() && z.frames.bits[f]
  {
    var tables :| Proper(z.memory, tables, root, z.frames.bits);
    forall f: nat | TableAt(z.memory, root, f)
      ensures 0 < f < z.frames.Limit() && z.frames.bits[f]
    {
      var q :| Reaches(z.memory, root, q) && Follow(z.memory, root, q) == f;
      NamedIsReachable(z.memory, tables, root, z.frames.bits, q);
    }
    hide Reaches, Follow;
  }

  /** The request alone: a page that is free and so no table, locked now. */
  lemma RequestStep(z: System, root: nat, flat: Flat)
    requires Good(z, root) && Refines(z, root, flat) && FreeCount(z.frames) > 0
    ensures var x, g := Perform(z, root, Allocate(RequestPage)), Request(z.frames).1 / 4096;
      && Good(x, root) && Refines(x, root, flat) && x.memory == z.memory
      && g < |z.frames.bits| && !z.frames.bits[g] && !TableAt(z.memory, root, g)
      && x.frames.bits == z.frames.bits[g := true]
  {
    GoodFacts(z, root);
    RequestUsesOne(z.frames);
    ActKeepsTreeExactly(z, root, Allocate(RequestPage));
    ActRefinesFlat(z, root, Allocate(RequestPage), flat);
    hide Good, Refines, Request, TableAt;
  }

  lemma PageStep(z: System, root: nat, flat: Flat, page: nat)
    requires Good(z, root) && Refines(z, root, flat) && PageFits(z, root, page) && page < 0x10_0000_0000
    ensures var x, g := OnePage(z, root, page), Request(z.frames).1 / 4096;
      && Good(x, root) && Refines(x, root, flat[page := g]) && PayloadAt(x, root, flat[page := g], page)
    ensures forall f: nat :: f < |z.frames.bits| && z.frames.bits[f] && !TableAt(z.memory, root, f) ==>
      LockedAside(OnePage(z, root, page), root, f)
    ensures var g := Request(z.frames).1 / 4096; g < |z.frames.bits| && !z.frames.bits[g]
    ensures KeepsLocked(z, OnePage(z, root, page))
  {
    hide *;
    GoodFacts(z, root);
    PageFitsIs(z, root, page);
    RequestStep(z, root, flat);
    var a, g := Perform(z, root, Allocate(RequestPage)), Request(z.frames).1 / 4096;
    var act := MapPage(page * 4096, Request(z.frames).1);
    GoodFacts(a, root);
    OnePageIs(z, root, page, g, flat);
    ActKeepsTreeExactly(a, root, act);
    ActRefinesFlat(a, root, act, flat);
    forall f: nat | f < |a.frames.bits| && a.frames.bits[f] && !TableAt(a.memory, root, f)
      ensures LockedAside(OnePage(z, root, page), root, f)
    {
      MapTablesFromFree(a, root, page * 4096, g, f);
      LockedIs(OnePage(z, root, page), root, f);
    }
    assert LockedAside(OnePage(z, root, page), root, g);
    PayloadIs(OnePage(z, root, page), root, flat[page := g], page);
    forall f: nat | f < |z.frames.bits| && z.frames.bits[f]
      ensures f < |OnePage(z, root, page).frames.bits| && OnePage(z, root, page).frames.bits[f]
    {
      MapTablesFromFree(a, root, page * 4096, g, f);
    }
    KeepsLockedIs(z, OnePage(z, root, page));
  }

  /** No frame is given back. */
  ghost predicate KeepsLocked(y: System, z: System) {
    forall f: nat :: f < |y.frames.bits| && y.frames.bits[f] ==> f < |z.frames.bits| && z.frames.bits[f]
  }

  lemma KeepsLockedIs(y: System, z: System)
    ensures KeepsLocked(y, z) <==>
      forall f: nat :: f < |y.frames.bits| && y.frames.bits[f] ==> f < |z.frames.bits| && z.frames.bits[f]
  {
  }

  /** A locked frame without a table. */
  ghost predicate LockedAside(z: System, root: nat, f: nat) {
    f < |z.frames.bits| && z.frames.bits[f] && !TableAt(z.memory, root, f)
  }

  lemma LockedIs(z: System, root: nat, f: nat)
    requires f < |z.frames.bits| && z.frames.bits[f] && !TableAt(z.memory, root, f)
    ensures LockedAside(z, root, f)
  {
  }

  lemma PayloadIs(z: System, root: nat, flat: Flat, g: nat)
    ensures PayloadAt(z, root, flat, g) <==> g in flat && LockedAside(z, root, flat[g])
  {
    hide TableAt;
  }

  lemma PageFitsIs(z: System, root: nat, page: nat)
    requires Sized(z) && PageFits(z, root, page)
    ensures FreeCount(z.frames) > 0
    ensures ActFits(Perform(z, root, Allocate(RequestPage)), root, MapPage(page * 4096, Request(z.frames).1))
    ensures Enough(Perform(z, root, Allocate(RequestPage)), root, page * 4096)
  {
    hide Enough, Perform, Request;
  }

  lemma OnePageIs(z: System, root: nat, page: nat, g: nat, flat: Flat)
    requires Sized(z) && page < 0x10_0000_0000 && g == Request(z.frames).1 / 4096 < ADDRESSES
    ensures OnePage(z, root, page)
         == Perform(Perform(z, root, Allocate(RequestPage)), root, MapPage(page * 4096, Request(z.frames).1))
         == Map(Perform(z, root, Allocate(RequestPage)), root, Path(page * 4096), g)
    ensures FlatAct(flat, MapPage(page * 4096, Request(z.frames).1)) == flat[page := g]
  {
    hide Map, Path, Request;
    assert page * 4096 / 0x1000 == page;
  }

  // ---- All pages of the window

  lemma RunTwoMore(y: System, root: nat, acts: seq<Act>, a: Act, b: Act)
    requires Sized(y)
    ensures RunActs(y, root, acts + [a, b]) == Perform(Perform(RunActs(y, root, acts), root, a), root, b)
  {
    hide Perform;
    var all := acts + [a, b];
    assert all[..|all| - 1] == acts + [a] && (acts + [a])[..|acts + [a]| - 1] == acts;
    assert RunActs(y, root, all) == Perform(RunActs(y, root, acts + [a]), root, b);
  }

  lemma HeapStep(y: System, root: nat, page: nat, n: nat)
    requires Sized(y) && n > 0 && HeapFits(y, root, page, n)
    ensures HeapFits(y, root, page, n - 1)
    ensures var z := RunActs(y, root, HeapActs(y, root, page, n - 1));
      && PageFits(z, root, page + n - 1)
      && RunActs(y, root, HeapActs(y, root, page, n)) == OnePage(z, root, page + n - 1)
  {
    hide PageFits, RunActs, Request, Perform;
    var before := HeapActs(y, root, page, n - 1);
    var z := RunActs(y, root, before);
    RunTwoMore(y, root, before, Allocate(RequestPage), MapPage((page + n - 1) * 4096, Request(z.frames).1));
  }

  lemma {:induction false} WindowMaps(y: System, root: nat, flat: Flat, page: nat, n: nat) returns (after: Flat)
    requires Good(y, root) && Refines(y, root, flat) && HeapFits(y, root, page, n) && page + n <= 0x10_0000_0000
    ensures WindowMapped(RunActs(y, root, HeapActs(y, root, page, n)), root, flat, after, page, n)
    ensures FreshWindow(y, after, page, n) && KeepsLocked(y, RunActs(y, root, HeapActs(y, root, page, n)))
    decreases n
  {
    hide *;
    if n == 0 {
      NoActs(y, root, page);
      after := flat;
      NothingMapped(y, root, flat, page);
      KeepsLockedIs(y, y);
    } else {
      GoodFacts(y, root);
      HeapStep(y, root, page, n);
      var before := WindowMaps(y, root, flat, page, n - 1);
      var z := RunActs(y, root, HeapActs(y, root, page, n - 1));
      WindowFacts(z, root, flat, before, page, n - 1);
      GoodFacts(z, root);
      PageStep(z, root, before, page + n - 1);
      after := before[page + n - 1 := Request(z.frames).1 / 4096];
      WindowGrows(z, OnePage(z, root, page + n - 1), root, flat, before, Request(z.frames).1 / 4096, page, n);
      SameBits(y, root, HeapActs(y, root, page, n - 1));
      FreshGrows(y, z, root, flat, before, Request(z.frames).1 / 4096, page, n);
      KeepsLockedIs(y, z);
      KeepsLockedIs(z, OnePage(z, root, page + n - 1));
      KeepsLockedIs(y, OnePage(z, root, page + n - 1));
    }
  }

  /** The window's frames were free before, and no two of its pages share one. */
  ghost predicate FreshWindow(y: System, after: Flat, page: nat, n: nat) {
    && (forall g: nat :: page <= g < page + n ==> FreshAt(y, after, g))
    && forall g: nat, h: nat :: page <= g < h < page + n ==>
         (FreshAt(y, after, g) && FreshAt(y, after, h) && after[g] != after[h])
  }

  ghost predicate FreshAt(y: System, after: Flat, g: nat) {
    g in after && after[g] < |y.frames.bits| && !y.frames.bits[after[g]]
  }

  lemma FreshGrows(y: System, z: System, root: nat, flat: Flat, before: Flat, spare: nat, page: nat, n: nat)
    requires n > 0 && WindowMapped(z, root, flat, before, page, n - 1) && FreshWindow(y, before, page, n - 1)
    requires spare < |z.frames.bits| == |y.frames.bits| && !z.frames.bits[spare] && KeepsLocked(y, z)
    ensures FreshWindow(y, before[page + n - 1 := spare], page, n)
  {
    hide Good, Refines, TableAt;
    var after := before[page + n - 1 := spare];
    forall g: nat | page <= g < page + n
      ensures FreshAt(y, after, g) && (g < page + n - 1 ==> after[g] != spare)
    {
      if g < page + n - 1 {
        assert FreshAt(y, before, g) && PayloadAt(z, root, before, g);
      }
    }
  }

  lemma NoActs(y: System, root: nat, page: nat)
    requires Good(y, root)
    ensures Sized(y) && RunActs(y, root, HeapActs(y, root, page, 0)) == y
  {
    hide ProperTree;
  }

  lemma NothingMapped(y: System, root: nat, flat: Flat, page: nat)
    requires Good(y, root) && Refines(y, root, flat)
    ensures WindowMapped(y, root, flat, flat, page, 0) && FreshWindow(y, flat, page, 0)
  {
    hide Good, Refines;
  }

  lemma WindowFacts(z: System, root: nat, flat: Flat, after: Flat, page: nat, n: nat)
    requires WindowMapped(z, root, flat, after, page, n)
    ensures Good(z, root) && Refines(z, root, after)
    ensures forall g: nat :: !(page <= g < page + n) ==> Look(after, g) == Look(flat, g)
    ensures forall g: nat :: page <= g < page + n ==> PayloadAt(z, root, after, g)
  {
    hide Good, Refines, PayloadAt;
  }

  lemma WindowGrows(z: System, x: System, root: nat, flat: Flat, before: Flat, spare: nat, page: nat, n: nat)
    requires n > 0 && WindowMapped(z, root, flat, before, page, n - 1)
    requires var after := before[page + n - 1 := spare];
      Good(x, root) && Refines(x, root, after) && PayloadAt(x, root, after, page + n - 1)
    requires forall f: nat :: f < |z.frames.bits| && z.frames.bits[f] && !TableAt(z.memory, root, f) ==>
      LockedAside(x, root, f)
    ensures WindowMapped(x, root, flat, before[page + n - 1 := spare], page, n)
  {
    hide Good, Refines, TableAt;
    var after := before[page + n - 1 := spare];
    forall g: nat | page <= g < page + n
      ensures PayloadAt(x, root, after, g)
    {
      if g < page + n - 1 {
        assert PayloadAt(z, root, before, g);
        assert LockedAside(x, root, before[g]);
      }
    }
    hide PayloadAt;
  }

  /**
   * After the heap's window is mapped, `MapMemory` still finds every table if and only if none lies in the window and
   * all were mapped to themselves before.
   */
  lemma TablesReachableExactly(y: System, root: nat, flat: Flat, page: nat, n: nat)
    requires Good(y, root) && Refines(y, root, flat) && HeapFits(y, root, page, n) && page + n <= 0x10_0000_0000
    requires |y.frames.bits| <= 0x10_0000_0000
    ensures var z := RunActs(y, root, HeapActs(y, root, page, n));
      TablesReachable(z.memory, root) <==>
        forall f: nat :: TableAt(z.memory, root, f) ==> !(page <= f < page + n) && Look(flat, f) == Mapped(f, true)
  {
    hide *;
    GoodFacts(y, root);
    var after := WindowMaps(y, root, flat, page, n);
    var z := RunActs(y, root, HeapActs(y, root, page, n));
    WindowFacts(z, root, flat, after, page, n);
    GoodFacts(z, root);
    SameBits(y, root, HeapActs(y, root, page, n));
    forall f: nat | TableAt(z.memory, root, f)
      ensures Translate(z.memory, root, f * 4096) == Mapped(f, true) <==>
        !(page <= f < page + n) && Look(flat, f) == Mapped(f, true)
    {
      TableTranslates(z, root, after, f);
      if page <= f < page + n {
        PayloadIs(z, root, after, f);
        LockedAsideMeans(z, root, after[f]);
        LookIs(after, f);
      }
    }
    ReachableIs(z.memory, root);
  }

  /** Page g leads to a frame that was free before, is locked now, and holds no table. */
  ghost predicate LeadsToFresh(y: System, z: System, root: nat, g: nat) {
    var t := Translate(z.memory, root, g * 4096);
    && t.Mapped? && t.writable && t.frame < |y.frames.bits| == |z.frames.bits|
    && !y.frames.bits[t.frame] && z.frames.bits[t.frame] && !TableAt(z.memory, root, t.frame)
  }

  /** So does every page that is mapped for the heap, and no two of them lead to the same frame. */
  lemma HeapPagesAreFresh(y: System, root: nat, flat: Flat, page: nat, n: nat)
    requires Good(y, root) && Refines(y, root, flat) && HeapFits(y, root, page, n) && page + n <= 0x10_0000_0000
    ensures var z := RunActs(y, root, HeapActs(y, root, page, n));
      && (forall g: nat :: page <= g < page + n ==> LeadsToFresh(y, z, root, g))
      && (forall g: nat, h: nat :: page <= g < h < page + n ==>
            Translate(z.memory, root, g * 4096) != Translate(z.memory, root, h * 4096))
  {
    hide *;
    GoodFacts(y, root);
    var after := WindowMaps(y, root, flat, page, n);
    var z := RunActs(y, root, HeapActs(y, root, page, n));
    SameBits(y, root, HeapActs(y, root, page, n));
    forall g: nat | page <= g < page + n
      ensures LeadsToFresh(y, z, root, g) && g in after && Translate(z.memory, root, g * 4096) == Mapped(after[g], true)
    {
      FreshPage(y, z, root, flat, after, page, n, g);
    }
    forall g: nat, h: nat | page <= g < h < page + n
      ensures after[g] != after[h]
    {
      FreshMeans(y, after, page, n, g, h);
    }
  }

  lemma FreshPage(y: System, z: System, root: nat, flat: Flat, after: Flat, page: nat, n: nat, g: nat)
    requires WindowMapped(z, root, flat, after, page, n) && FreshWindow(y, after, page, n)
    requires page <= g < page + n <= 0x10_0000_0000 && |y.frames.bits| == |z.frames.bits|
    ensures LeadsToFresh(y, z, root, g) && g in after && Translate(z.memory, root, g * 4096) == Mapped(after[g], true)
  {
    assert PayloadAt(z, root, after, g) && FreshAt(y, after, g);
    TableTranslates(z, root, after, g);
    hide Good, Refines, Translate, TableAt;
  }

  lemma FreshMeans(y: System, after: Flat, page: nat, n: nat, g: nat, h: nat)
    requires FreshWindow(y, after, page, n) && page <= g < h < page + n
    ensures g in after && h in after && after[g] != after[h]
  {
    assert FreshAt(y, after, g) && FreshAt(y, after, h);
  }

  lemma SameBits(y: System, root: nat, acts: seq<Act>)
    requires Sized(y)
    ensures |RunActs(y, root, acts).frames.bits| == |y.frames.bits|
    ensures forall s: Frames :: s.Limit() == |s.bits| - 1
  {
    hide RunActs;
  }

  lemma TableTranslates(z: System, root: nat, flat: Flat, f: nat)
    requires Refines(z, root, flat) && f < 0x10_0000_0000
    ensures Translate(z.memory, root, f * 4096) == Look(flat, f)
  {
    assert PageOf(f * 4096) == f;
    hide Translate, Look, PageOf;
  }

  lemma LockedAsideMeans(z: System, root: nat, f: nat)
    requires LockedAside(z, root, f)
    ensures !TableAt(z.memory, root, f)
  {
    hide TableAt;
  }

  lemma LookIs(flat: Flat, g: nat)
    requires g in flat && flat[g] != g
    ensures Look(flat, g) != Mapped(g, true)
  {
  }

  lemma ReachableIs(memory: seq<Table>, root: nat)
    ensures TablesReachable(memory, root) <==>
      forall f: nat :: TableAt(memory, root, f) ==> Translate(memory, root, f * 4096) == Mapped(f, true)
  {
    hide TableAt, Translate;
  }

  // ---- After boot

  /** Below the higher half the boot loops map memory to itself and nothing else. */
  lemma BootLook(memory: nat, pmrs: seq<Pmr>, physicalBase: nat, virtualBase: nat, f: nat)
    requires memory <= 0x8000_0000_0000 && f < HIGHER_PAGE
    requires !Touches(PmrActs(pmrs, physicalBase, virtualBase), f)
    ensures Look(FlatRun(map[], BootActs(memory, pmrs, physicalBase, virtualBase)), f)
         == if f * 4096 < memory then Mapped(f, true) else Fault
  {
    var s, n := Steps(memory), memory / 4096;
    StepsReach(memory, f);
    var loops, pmr := IdentityActs(s) + HigherActs(n), PmrActs(pmrs, physicalBase, virtualBase);
    hide FlatRun, HigherPage, PageOf, IdentityActs, HigherActs, PmrActs;
    FlatRunConcat(map[], loops, pmr);
    UntouchedFlat(FlatRun(map[], loops), pmr, f);
    FlatRunConcat(map[], IdentityActs(s), HigherActs(n));
    NotHigher(n, f);
    HigherFlat(FlatRun(map[], IdentityActs(s)), n, f);
    IdentityFlat(s, f);
  }

  /**
   * Once `initializeHeap(0x1000000, ..)` and later expansions have mapped n pages, `MapMemory` still finds every table
   * if and only if all tables lie below the end of memory and none in those n pages of it. Protected ranges must lie in
   * the higher half, where the boot protocol has them.
   */
  lemma HeapHidesTablesExactly(y: System, root: nat, memory: nat, pmrs: seq<Pmr>, physicalBase: nat, virtualBase: nat,
                               n: nat)
    requires Good(y, root) && Refines(y, root, map[]) && |y.frames.bits| <= HIGHER_PAGE
    requires Fits(y, root, BootActs(memory, pmrs, physicalBase, virtualBase))
    requires memory <= 0x8000_0000_0000 && 0x1000 + n <= 0x10_0000_0000
    requires forall g: nat :: g < HIGHER_PAGE ==> !Touches(PmrActs(pmrs, physicalBase, virtualBase), g)
    requires HeapFits(RunActs(y, root, BootActs(memory, pmrs, physicalBase, virtualBase)), root, 0x1000, n)
    ensures var b := RunActs(y, root, BootActs(memory, pmrs, physicalBase, virtualBase));
      var z := RunActs(b, root, HeapActs(b, root, 0x1000, n));
      TablesReachable(z.memory, root) <==>
        forall f: nat :: TableAt(z.memory, root, f) ==> f * 4096 < memory && !(0x1000 <= f < 0x1000 + n)
  {
    var acts := BootActs(memory, pmrs, physicalBase, virtualBase);
    var flat := FlatRun(map[], acts);
    var b := RunActs(y, root, acts);
    RunIsGood(y, root, acts);
    RunRefinesFlat(y, root, acts, map[]);
    SameBits(y, root, acts);
    assert |y.frames.bits| <= 0x10_0000_0000;
    hide *;
    TablesReachableExactly(b, root, flat, 0x1000, n);
    var z := RunActs(b, root, HeapActs(b, root, 0x1000, n));
    WindowIsGood(b, root, flat, 0x1000, n);
    GoodFacts(z, root);
    forall f: nat | TableAt(z.memory, root, f)
      ensures Look(flat, f) == Mapped(f, true) <==> f * 4096 < memory
    {
      BelowHigherPage(y, z, f);
      BootLook(memory, pmrs, physicalBase, virtualBase, f);
    }
  }

  lemma WindowIsGood(y: System, root: nat, flat: Flat, page: nat, n: nat)
    requires Good(y, root) && Refines(y, root, flat) && HeapFits(y, root, page, n) && page + n <= 0x10_0000_0000
    ensures var z := RunActs(y, root, HeapActs(y, root, page, n));
      Good(z, root) && |z.frames.bits| == |y.frames.bits|
  {
    hide *;
    GoodFacts(y, root);
    var after := WindowMaps(y, root, flat, page, n);
    WindowFacts(RunActs(y, root, HeapActs(y, root, page, n)), root, flat, after, page, n);
    SameBits(y, root, HeapActs(y, root, page, n));
  }

  lemma BelowHigherPage(y: System, z: System, f: nat)
    requires |y.frames.bits| <= HIGHER_PAGE && |z.frames.bits| == |y.frames.bits| && f < z.frames.Limit()
    ensures f < HIGHER_PAGE
  {
  }

  /** In particular an outermost table in the window, which RootInHeapWindow shows to happen, is lost. */
  lemma RootInWindowIsLost(y: System, root: nat, flat: Flat, page: nat, n: nat)
    requires Good(y, root) && Refines(y, root, flat) && HeapFits(y, root, page, n) && page + n <= 0x10_0000_0000
    requires |y.frames.bits| <= 0x10_0000_0000 && page <= root < page + n
    ensures !TablesReachable(RunActs(y, root, HeapActs(y, root, page, n)).memory, root)
  {
    hide *;
    TablesReachableExactly(y, root, flat, page, n);
    GoodFacts(y, root);
    WindowIsGood(y, root, flat, page, n);
    RootIsTable(RunActs(y, root, HeapActs(y, root, page, n)), root);
  }

  lemma RootIsTable(z: System, root: nat)
    requires Good(z, root)
    ensures TableAt(z.memory, root, root)
  {
    var tables :| Proper(z.memory, tables, root, z.frames.bits);
    NamedIsReachable(z.memory, tables, root, z.frames.bits, []);
    assert tables[[]] == root;
    hide Reaches, Follow;
  }
}
