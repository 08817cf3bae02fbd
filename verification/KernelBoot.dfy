/** The mapping loops of `KernelStart` (kernel.cpp, lines 63 to 80). */
module KernelBoot {
  import opened Units
  import opened FrameLedger
  import opened Paging
  import opened PageTree
  import opened MapMemory
  import opened AddressSpace
  import opened PageFrameAllocators
  import opened PageTableManagers

  const HIGHER_HALF := 0xffff_8000_0000_0000
  const HIGHER_PAGE := 0x8_0000_0000  // page number of the higher half, 2^35

  /** A protected memory range of the boot protocol. */
  datatype Pmr = Pmr(base: nat, length: nat)

  function IdentityActs(pages: nat): (acts: seq<Act>)
    ensures |acts| == pages
  {
    if pages == 0 then [] else IdentityActs(pages - 1) + [MapPage((pages - 1) * 4096, (pages - 1) * 4096)]
  }

  function HigherActs(pages: nat): (acts: seq<Act>)
    ensures |acts| == pages
  {
    if pages == 0 then []
    else HigherActs(pages - 1) + [MapPage(Plus((pages - 1) * 4096, HIGHER_HALF), (pages - 1) * 4096)]
  }

  /** How many steps of 4096 the loop over a region of `length` bytes takes. */
  function Steps(length: nat): nat {
    (length + 4095) / 4096
  }

  lemma StepsReach(length: nat, i: nat)
    ensures i < Steps(length) <==> i * 4096 < length
  {
  }

  function PmrPages(base: nat, physicalBase: nat, virtualBase: nat, pages: nat): (acts: seq<Act>)
    ensures |acts| == pages
  {
    if pages == 0 then []
    else
      var v := base + (pages - 1) * 4096;
      PmrPages(base, physicalBase, virtualBase, pages - 1) + [MapPage(v, Plus(physicalBase, v - virtualBase))]
  }

  function PmrActs(pmrs: seq<Pmr>, physicalBase: nat, virtualBase: nat): seq<Act> {
    if pmrs == [] then []
    else
      var p := pmrs[|pmrs| - 1];
      PmrActs(pmrs[..|pmrs| - 1], physicalBase, virtualBase) +
      PmrPages(p.base, physicalBase, virtualBase, Steps(p.length))
  }

  /** All three loops, for `memory` bytes. */
  function BootActs(memory: nat, pmrs: seq<Pmr>, physicalBase: nat, virtualBase: nat): seq<Act> {
    IdentityActs(Steps(memory)) + HigherActs(memory / 4096) + PmrActs(pmrs, physicalBase, virtualBase)
  }

  // ---- The flat map the loops build

  lemma {:induction false} FlatRunConcat(flat: Flat, a: seq<Act>, b: seq<Act>)
    ensures FlatRun(flat, a + b) == FlatRun(FlatRun(flat, a), b)
  {
    if b == [] {
      assert a + b == a;
    } else {
      var n := |b| - 1;
      FlatRunConcat(flat, a, b[..n]);
      assert (a + b)[..|a + b| - 1] == a + b[..n];
    }
  }

  lemma IdentityAct(flat: Flat, t: nat)
    requires t < 0x10_0000_0000
    ensures FlatAct(flat, MapPage(t * 4096, t * 4096)) == flat[t := t]
  {
    assert t * 4096 / 4096 == t;
  }

  /** The identity loop maps exactly the pages below `pages`, each to itself. */
  lemma {:induction false} IdentityFlat(pages: nat, g: nat)
    requires pages <= 0x10_0000_0000
    ensures Look(FlatRun(map[], IdentityActs(pages)), g) == if g < pages then Mapped(g, true) else Fault
  {
    hide PageOf;
    if pages > 0 {
      IdentityFlat(pages - 1, g);
      assert IdentityActs(pages)[..pages - 1] == IdentityActs(pages - 1);
      IdentityAct(FlatRun(map[], IdentityActs(pages - 1)), pages - 1);
    }
  }

  /** Where the higher-half loop maps page t of memory; it wraps at 2^36 pages. */
  function HigherPage(t: nat): nat {
    (HIGHER_PAGE + t) % 0x10_0000_0000
  }

  lemma HigherPageInjective(s: nat, t: nat)
    requires s < 0x10_0000_0000 && t < 0x10_0000_0000 && HigherPage(s) == HigherPage(t)
    ensures s == t
  {
  }

  lemma HigherPageOf(t: nat)
    requires t < 0x10_0000_0000
    ensures PageOf(Plus(t * 4096, HIGHER_HALF)) == HigherPage(t)
  {
    var v := Plus(t * 4096, HIGHER_HALF);
    if t < HIGHER_PAGE {
      assert v == (HIGHER_PAGE * 0x1_ffff + t) * 4096 by { assert HIGHER_PAGE * 0x1_ffff * 4096 == HIGHER_HALF; }
    } else {
      assert v == (t - HIGHER_PAGE) * 4096;
    }
  }

  lemma HigherAct(flat: Flat, t: nat)
    requires t < 0x10_0000_0000
    ensures FlatAct(flat, MapPage(Plus(t * 4096, HIGHER_HALF), t * 4096)) == flat[HigherPage(t) := t]
  {
    HigherPageOf(t);
    assert t * 4096 / 4096 == t;
  }

  /** The page of memory, if any, that the higher-half loop puts at page g. */
  ghost predicate HigherSource(pages: nat, g: nat, t: nat) {
    t < pages && HigherPage(t) == g
  }

  /** The higher-half loop changes only its own pages. */
  lemma {:induction false} HigherFlat(flat: Flat, pages: nat, g: nat)
    requires pages <= 0x10_0000_0000
    ensures (forall t :: !HigherSource(pages, g, t)) ==> Look(FlatRun(flat, HigherActs(pages)), g) == Look(flat, g)
    ensures forall t :: HigherSource(pages, g, t) ==> Look(FlatRun(flat, HigherActs(pages)), g) == Mapped(t, true)
  {
    if pages > 0 {
      var t := pages - 1;
      HigherFlat(flat, t, g);
      assert HigherActs(pages)[..t] == HigherActs(t);
      HigherAct(FlatRun(flat, HigherActs(t)), t);
      if HigherPage(t) == g {
        forall s | HigherSource(pages, g, s)
          ensures s == t
        {
          HigherPageInjective(s, t);
        }
        assert HigherSource(pages, g, t);
      } else {
        hide HigherPage;
        assert forall s :: HigherSource(pages, g, s) <==> HigherSource(t, g, s);
      }
    }
  }

  /**
   * After the first two loops, the lower half still maps every page of memory to itself, a last part of one included,
   * if and only if memory ends by 2^47 bytes; up to there the higher half maps the whole pages once more.
   */
  lemma MemoryIsMappedTwice(memory: nat)
    requires memory <= 0x1_0000_0000_0000
    ensures (forall t: nat :: t * 4096 < memory ==>
        Look(FlatRun(map[], IdentityActs(Steps(memory)) + HigherActs(memory / 4096)), t) == Mapped(t, true))
      <==> memory <= 0x8000_0000_0000
    ensures memory <= 0x8000_0000_0000 ==> forall t: nat :: t < memory / 4096 ==>
      Look(FlatRun(map[], IdentityActs(Steps(memory)) + HigherActs(memory / 4096)), HIGHER_PAGE + t) == Mapped(t, true)
  {
    var s, n := Steps(memory), memory / 4096;
    FlatRunConcat(map[], IdentityActs(s), HigherActs(n));
    if memory <= 0x8000_0000_0000 {
      forall t: nat | t * 4096 < memory
        ensures Look(FlatRun(map[], IdentityActs(s) + HigherActs(n)), t) == Mapped(t, true)
      {
        StepsReach(memory, t);
        LowPageMapped(s, n, t);
      }
      forall t: nat | t < n
        ensures Look(FlatRun(map[], IdentityActs(s) + HigherActs(n)), HIGHER_PAGE + t) == Mapped(t, true)
      {
        HigherPageMapped(s, n, t);
      }
    } else {
      HigherFlat(FlatRun(map[], IdentityActs(s)), n, HIGHER_PAGE);
      assert HigherSource(n, HIGHER_PAGE, 0);
      assert HIGHER_PAGE * 4096 < memory;
    }
  }

  lemma LowPageMapped(s: nat, n: nat, t: nat)
    requires t < s <= HIGHER_PAGE && n <= HIGHER_PAGE
    ensures Look(FlatRun(FlatRun(map[], IdentityActs(s)), HigherActs(n)), t) == Mapped(t, true)
  {
    NotHigher(n, t);
    hide HigherPage, FlatRun;
    IdentityFlat(s, t);
    HigherFlat(FlatRun(map[], IdentityActs(s)), n, t);
  }

  lemma HigherPageMapped(s: nat, n: nat, t: nat)
    requires t < n <= HIGHER_PAGE
    ensures Look(FlatRun(FlatRun(map[], IdentityActs(s)), HigherActs(n)), HIGHER_PAGE + t) == Mapped(t, true)
  {
    assert HigherSource(n, HIGHER_PAGE + t, t);
    hide HigherPage, FlatRun;
    HigherFlat(FlatRun(map[], IdentityActs(s)), n, HIGHER_PAGE + t);
  }

  lemma NotHigher(n: nat, g: nat)
    requires g < HIGHER_PAGE && n <= HIGHER_PAGE
    ensures forall s :: !HigherSource(n, g, s)
  {
  }

  /** Later mappings leave the pages they do not name alone. */
  lemma {:induction false} UntouchedFlat(flat: Flat, acts: seq<Act>, g: nat)
    requires forall a :: a in acts && a.MapPage? ==> PageOf(a.virtualAddress) != g
    ensures Look(FlatRun(flat, acts), g) == Look(flat, g)
  {
    if acts != [] {
      UntouchedFlat(flat, acts[..|acts| - 1], g);
    }
  }

  ghost predicate Touches(acts: seq<Act>, g: nat) {
    exists a :: a in acts && a.MapPage? && PageOf(a.virtualAddress) == g
  }

  /**
   * The result of the three loops on an empty tree with enough frames, for memory of at most 2^47 bytes: each page of
   * memory is reachable at its own address, and if it is whole at the higher-half address, writable, unless a later
   * protected range names that same page.
   */
  lemma BootTranslates(y: System, root: nat, memory: nat, pmrs: seq<Pmr>, physicalBase: nat, virtualBase: nat, a: nat)
    requires Good(y, root) && Refines(y, root, map[])
    requires Fits(y, root, BootActs(memory, pmrs, physicalBase, virtualBase))
    requires a < memory <= 0x8000_0000_0000
    ensures !Touches(PmrActs(pmrs, physicalBase, virtualBase), a / 4096) ==>
      Translate(RunActs(y, root, BootActs(memory, pmrs, physicalBase, virtualBase)).memory, root, a)
        == Mapped(a / 4096, true)
    ensures a / 4096 < memory / 4096 && !Touches(PmrActs(pmrs, physicalBase, virtualBase), HIGHER_PAGE + a / 4096) ==>
      Translate(RunActs(y, root, BootActs(memory, pmrs, physicalBase, virtualBase)).memory, root, a + HIGHER_HALF)
        == Mapped(a / 4096, true)
  {
    hide PageOf, RunActs, Fits, Good, Translate, FlatRun;
    var acts := BootActs(memory, pmrs, physicalBase, virtualBase);
    var loops := IdentityActs(Steps(memory)) + HigherActs(memory / 4096);
    var pmr := PmrActs(pmrs, physicalBase, virtualBase);
    RunRefinesFlat(y, root, acts, map[]);
    assert acts == loops + pmr;
    FlatRunConcat(map[], loops, pmr);
    MemoryIsMappedTwice(memory);
    HigherAddress(a);
    assert a / 4096 * 4096 < memory;
    if !Touches(pmr, a / 4096) {
      UntouchedFlat(FlatRun(map[], loops), pmr, a / 4096);
    }
    if !Touches(pmr, HIGHER_PAGE + a / 4096) {
      UntouchedFlat(FlatRun(map[], loops), pmr, HIGHER_PAGE + a / 4096);
    }
  }

  lemma HigherAddress(a: nat)
    requires a < 0x8000_0000_0000
    ensures PageOf(a) == a / 4096 && PageOf(a + HIGHER_HALF) == HIGHER_PAGE + a / 4096
  {
    assert HIGHER_HALF == (HIGHER_PAGE * 0x1_ffff) * 4096;
    assert (a + HIGHER_HALF) / 0x1000 == a / 0x1000 + HIGHER_PAGE * 0x1_ffff;
  }

  lemma {:induction false} BootActsMap(memory: nat, pmrs: seq<Pmr>, physicalBase: nat, virtualBase: nat)
    ensures forall a :: a in BootActs(memory, pmrs, physicalBase, virtualBase) ==> a.MapPage?
  {
    LoopActsMap(Steps(memory));
    LoopActsMap(memory / 4096);
    PmrActsMap(pmrs, physicalBase, virtualBase);
  }

  lemma {:induction false} LoopActsMap(pages: nat)
    ensures forall a :: a in IdentityActs(pages) ==> a.MapPage?
    ensures forall a :: a in HigherActs(pages) ==> a.MapPage?
  {
    if pages > 0 {
      LoopActsMap(pages - 1);
    }
  }

  lemma {:induction false} PmrPagesMap(base: nat, physicalBase: nat, virtualBase: nat, pages: nat)
    ensures forall a :: a in PmrPages(base, physicalBase, virtualBase, pages) ==> a.MapPage?
  {
    if pages > 0 {
      PmrPagesMap(base, physicalBase, virtualBase, pages - 1);
    }
  }

  lemma {:induction false} PmrActsMap(pmrs: seq<Pmr>, physicalBase: nat, virtualBase: nat)
    ensures forall a :: a in PmrActs(pmrs, physicalBase, virtualBase) ==> a.MapPage?
  {
    if pmrs != [] {
      var p := pmrs[|pmrs| - 1];
      PmrActsMap(pmrs[..|pmrs| - 1], physicalBase, virtualBase);
      PmrPagesMap(p.base, physicalBase, virtualBase, Steps(p.length));
    }
  }

  /**
   * Starting from the cleared outermost table, the boot loops keep the tree proper throughout exactly when the free
   * frames are at least the number of distinct tables that the mapped pages need.
   */
  lemma BootFitsExactly(y: System, root: nat, memory: nat, pmrs: seq<Pmr>, physicalBase: nat, virtualBase: nat)
    requires Sized(y) && |y.frames.bits| <= ADDRESSES && y.frames.bits[0]
    requires 0 < root < y.frames.Limit() && y.frames.bits[root] && y.memory[root] == ZeroTable()
    ensures Fits(y, root, BootActs(memory, pmrs, physicalBase, virtualBase))
      <==> |AllPrefixes(BootActs(memory, pmrs, physicalBase, virtualBase))| <= FreeCount(y.frames)
  {
    var acts := BootActs(memory, pmrs, physicalBase, virtualBase);
    EmptyTree(y, root);
    BootActsMap(memory, pmrs, physicalBase, virtualBase);
    var named := MappingsFitExactly(y, map[[] := root], root, acts);
    NoEmptyPrefix(acts);
    assert AllPrefixes(acts) - {[]} == AllPrefixes(acts);
  }

  lemma {:induction false} NoEmptyPrefix(acts: seq<Act>)
    ensures [] !in AllPrefixes(acts)
  {
    if acts != [] {
      NoEmptyPrefix(acts[..|acts| - 1]);
    }
  }

  // ---- Runs in parts, and where the protected ranges lead

  lemma {:induction false} RunSplit(y: System, root: nat, a: seq<Act>, b: seq<Act>)
    requires Sized(y)
    ensures RunActs(y, root, a + b) == RunActs(RunActs(y, root, a), root, b)
    ensures Fits(y, root, a + b) <==> Fits(y, root, a) && Fits(RunActs(y, root, a), root, b)
  {
    hide ActFits;
    hide Perform;
    if b == [] {
      assert a + b == a;
    } else {
      var n := |b| - 1;
      RunSplit(y, root, a, b[..n]);
      assert (a + b)[..|a + b| - 1] == a + b[..n];
    }
  }

  /** Step i of range k is in it, and no later step of any range is on the same page. */
  ghost predicate LastStep(pmrs: seq<Pmr>, k: nat, i: nat) {
    && InRange(pmrs, k, i)
    && forall l: nat, j: nat :: InRange(pmrs, l, j) && (l > k || (l == k && j > i)) ==>
         PageOf(StepAddress(pmrs, l, j)) != PageOf(StepAddress(pmrs, k, i))
  }

  predicate InRange(pmrs: seq<Pmr>, k: nat, i: nat) {
    k < |pmrs| && i * 4096 < pmrs[k].length
  }

  function StepAddress(pmrs: seq<Pmr>, k: nat, i: nat): nat
    requires InRange(pmrs, k, i)
  {
    pmrs[k].base + i * 4096
  }

  /** Addresses on the page of v lead to where v lies behind the physical base, as far as behind the virtual one. */
  ghost predicate LeadsToKernel(memory: seq<Table>, root: nat, v: nat, physicalBase: nat, virtualBase: nat) {
    forall w: nat :: PageOf(w) == PageOf(v) ==>
      Translate(memory, root, w) == Mapped((physicalBase + v - virtualBase) % WORD / 4096 % ADDRESSES, true)
  }

  /** A mapping that does not name the page of v leaves it alone. */
  lemma ActElsewhere(y: System, root: nat, a: Act, v: nat, physicalBase: nat, virtualBase: nat)
    requires Good(y, root) && ActFits(y, root, a) && a.MapPage? && PageOf(a.virtualAddress) != PageOf(v)
    requires LeadsToKernel(y.memory, root, v, physicalBase, virtualBase)
    ensures LeadsToKernel(Perform(y, root, a).memory, root, v, physicalBase, virtualBase)
  {
    assert Sized(y);
    hide Map, Good, PageOf, Translate, Enough;
    forall w: nat | PageOf(w) == PageOf(v)
      ensures Translate(Perform(y, root, a).memory, root, w)
           == Mapped((physicalBase + v - virtualBase) % WORD / 4096 % ADDRESSES, true)
    {
      MapTranslates(y, root, a.virtualAddress, a.physicalAddress / 4096, w);
    }
  }

  lemma ActHere(y: System, root: nat, v: nat, physicalBase: nat, virtualBase: nat)
    requires Good(y, root) && ActFits(y, root, MapPage(v, Plus(physicalBase, v - virtualBase)))
    ensures LeadsToKernel(
      Perform(y, root, MapPage(v, Plus(physicalBase, v - virtualBase))).memory, root, v, physicalBase, virtualBase)
  {
    assert Sized(y);
    hide Map, Good, PageOf, Translate, Enough;
    var p := Plus(physicalBase, v - virtualBase);
    forall w: nat | PageOf(w) == PageOf(v)
      ensures Translate(Perform(y, root, MapPage(v, p)).memory, root, w) == Mapped(p / 4096 % ADDRESSES, true)
    {
      MapTranslates(y, root, v, p / 4096, w);
    }
  }

  lemma RunIsGood(y: System, root: nat, acts: seq<Act>)
    requires Good(y, root) && Fits(y, root, acts)
    ensures Good(RunActs(y, root, acts), root)
  {
    RunKeepsTreeExactly(y, root, acts);
    assert acts[..|acts|] == acts;
    hide Good, Fits, RunActs;
  }

  lemma OneMoreAct(y: System, root: nat, acts: seq<Act>, a: Act)
    requires Good(y, root) && Fits(y, root, acts + [a])
    ensures Fits(y, root, acts) && Good(RunActs(y, root, acts), root) && ActFits(RunActs(y, root, acts), root, a)
    ensures RunActs(y, root, acts + [a]) == Perform(RunActs(y, root, acts), root, a)
  {
    assert (acts + [a])[..|acts + [a]| - 1] == acts;
    hide ActFits, Perform, Good;
    RunIsGood(y, root, acts);
  }

  function PageBase(base: nat, j: nat): nat {
    base + j * 4096
  }

  lemma OneMorePage(base: nat, physicalBase: nat, virtualBase: nat, pages: nat)
    requires pages > 0
    ensures var a := PageBase(base, pages - 1);
      PmrPages(base, physicalBase, virtualBase, pages)
      == PmrPages(base, physicalBase, virtualBase, pages - 1) + [MapPage(a, Plus(physicalBase, a - virtualBase))]
  {
    hide Plus;
  }

  lemma NoPages(y: System, root: nat, base: nat, physicalBase: nat, virtualBase: nat)
    requires Sized(y)
    ensures RunActs(y, root, PmrPages(base, physicalBase, virtualBase, 0)) == y
  {
  }

  lemma GoodIsSized(y: System, root: nat)
    requires Good(y, root)
    ensures Sized(y)
  {
    hide ProperTree;
  }

  /** The pages of one range that leave the page of v alone. */
  lemma {:induction false} PagesElsewhere(
      y: System, root: nat, base: nat, physicalBase: nat, virtualBase: nat, pages: nat, v: nat)
    requires Good(y, root) && Fits(y, root, PmrPages(base, physicalBase, virtualBase, pages))
    requires LeadsToKernel(y.memory, root, v, physicalBase, virtualBase)
    requires forall j: nat :: j < pages ==> PageOf(PageBase(base, j)) != PageOf(v)
    ensures LeadsToKernel(RunActs(y, root, PmrPages(base, physicalBase, virtualBase, pages)).memory, root, v,
                          physicalBase, virtualBase)
    decreases pages
  {
    hide *;
    GoodIsSized(y, root);
    if pages == 0 {
      NoPages(y, root, base, physicalBase, virtualBase);
    } else {
      var before, a := PmrPages(base, physicalBase, virtualBase, pages - 1), PageBase(base, pages - 1);
      var act := MapPage(a, Plus(physicalBase, a - virtualBase));
      OneMorePage(base, physicalBase, virtualBase, pages);
      OneMoreAct(y, root, before, act);
      PagesElsewhere(y, root, base, physicalBase, virtualBase, pages - 1, v);
      ActElsewhere(RunActs(y, root, before), root, act, v, physicalBase, virtualBase);
    }
  }

  /** The pages of one range of which page i is the last on its page number. */
  lemma {:induction false} PagesHere(
      y: System, root: nat, base: nat, physicalBase: nat, virtualBase: nat, pages: nat, i: nat)
    requires Good(y, root) && Fits(y, root, PmrPages(base, physicalBase, virtualBase, pages)) && i < pages
    requires forall j: nat :: i < j < pages ==> PageOf(PageBase(base, j)) != PageOf(PageBase(base, i))
    ensures LeadsToKernel(RunActs(y, root, PmrPages(base, physicalBase, virtualBase, pages)).memory, root,
                          PageBase(base, i), physicalBase, virtualBase)
    decreases pages
  {
    hide *;
    GoodIsSized(y, root);
    var before, a := PmrPages(base, physicalBase, virtualBase, pages - 1), PageBase(base, pages - 1);
    var act := MapPage(a, Plus(physicalBase, a - virtualBase));
    OneMorePage(base, physicalBase, virtualBase, pages);
    OneMoreAct(y, root, before, act);
    if i == pages - 1 {
      ActHere(RunActs(y, root, before), root, a, physicalBase, virtualBase);
    } else {
      PagesHere(y, root, base, physicalBase, virtualBase, pages - 1, i);
      ActElsewhere(RunActs(y, root, before), root, act, PageBase(base, i), physicalBase, virtualBase);
    }
  }

  lemma {:induction false} PmrsLead(
      y: System, root: nat, pmrs: seq<Pmr>, physicalBase: nat, virtualBase: nat, k: nat, i: nat)
    requires Good(y, root) && Fits(y, root, PmrActs(pmrs, physicalBase, virtualBase)) && LastStep(pmrs, k, i)
    ensures LeadsToKernel(RunActs(y, root, PmrActs(pmrs, physicalBase, virtualBase)).memory, root,
                          StepAddress(pmrs, k, i), physicalBase, virtualBase)
    decreases |pmrs|
  {
    var n := |pmrs| - 1;
    var before, p := pmrs[..n], pmrs[n];
    var acts, pages := PmrActs(before, physicalBase, virtualBase), Steps(p.length);
    assert PmrActs(pmrs, physicalBase, virtualBase) == acts + PmrPages(p.base, physicalBase, virtualBase, pages);
    StepsOfLast(pmrs, k, i);
    hide *;
    GoodIsSized(y, root);
    RunSplit(y, root, acts, PmrPages(p.base, physicalBase, virtualBase, pages));
    RunIsGood(y, root, acts);
    if k == n {
      PagesHere(RunActs(y, root, acts), root, p.base, physicalBase, virtualBase, pages, i);
    } else {
      PmrsLead(y, root, before, physicalBase, virtualBase, k, i);
      PagesElsewhere(RunActs(y, root, acts), root, p.base, physicalBase, virtualBase, pages, StepAddress(pmrs, k, i));
    }
  }

  lemma StepsOfLast(pmrs: seq<Pmr>, k: nat, i: nat)
    requires LastStep(pmrs, k, i)
    ensures k < |pmrs| && InRange(pmrs, k, i) && StepAddress(pmrs, k, i) == PageBase(pmrs[k].base, i)
    ensures var n := |pmrs| - 1;
      if k == n
      then
        && i < Steps(pmrs[n].length)
        && forall j: nat :: i < j < Steps(pmrs[n].length) ==>
             PageOf(PageBase(pmrs[n].base, j)) != PageOf(PageBase(pmrs[n].base, i))
      else
        && LastStep(pmrs[..n], k, i) && StepAddress(pmrs[..n], k, i) == StepAddress(pmrs, k, i)
        && forall j: nat :: j < Steps(pmrs[n].length) ==>
             PageOf(PageBase(pmrs[n].base, j)) != PageOf(StepAddress(pmrs, k, i))
  {
    hide PageOf;
    var n := |pmrs| - 1;
    forall j: nat | j < Steps(pmrs[n].length)
      ensures InRange(pmrs, n, j) && StepAddress(pmrs, n, j) == PageBase(pmrs[n].base, j)
    {
      StepsReach(pmrs[n].length, j);
    }
    StepsReach(pmrs[k].length, i);
    if k < n {
      forall l: nat, j: nat | InRange(pmrs[..n], l, j)
        ensures InRange(pmrs, l, j) && StepAddress(pmrs[..n], l, j) == StepAddress(pmrs, l, j)
      {
      }
    }
  }

  /** Every last step of a range leads there. */
  ghost predicate RangesLead(memory: seq<Table>, root: nat, pmrs: seq<Pmr>, physicalBase: nat, virtualBase: nat) {
    forall k: nat, i: nat :: LastStep(pmrs, k, i) ==>
      LeadsToKernel(memory, root, StepAddress(pmrs, k, i), physicalBase, virtualBase)
  }
  /**
   * Where a protected range leads after boot: each of its pages, unless a later step of a range takes the same page, to
   * the frame as far behind the physical base as the page is behind the virtual one.
   */
  lemma BootMapsRanges(y: System, root: nat, memory: nat, pmrs: seq<Pmr>, physicalBase: nat, virtualBase: nat)
    requires Good(y, root) && Fits(y, root, BootActs(memory, pmrs, physicalBase, virtualBase))
    ensures RangesLead(RunActs(y, root, BootActs(memory, pmrs, physicalBase, virtualBase)).memory, root, pmrs,
                       physicalBase, virtualBase)
  {
    hide *;
    var loops := IdentityActs(Steps(memory)) + HigherActs(memory / 4096);
    var acts := PmrActs(pmrs, physicalBase, virtualBase);
    BootActsAre(memory, pmrs, physicalBase, virtualBase);
    GoodIsSized(y, root);
    RunSplit(y, root, loops, acts);
    RunIsGood(y, root, loops);
    AllRangesLead(RunActs(y, root, loops), root, pmrs, physicalBase, virtualBase);
  }

  lemma BootActsAre(memory: nat, pmrs: seq<Pmr>, physicalBase: nat, virtualBase: nat)
    ensures BootActs(memory, pmrs, physicalBase, virtualBase)
         == (IdentityActs(Steps(memory)) + HigherActs(memory / 4096)) + PmrActs(pmrs, physicalBase, virtualBase)
  {
    hide IdentityActs, HigherActs, PmrActs;
  }

  lemma AllRangesLead(y: System, root: nat, pmrs: seq<Pmr>, physicalBase: nat, virtualBase: nat)
    requires Good(y, root) && Fits(y, root, PmrActs(pmrs, physicalBase, virtualBase))
    ensures RangesLead(RunActs(y, root, PmrActs(pmrs, physicalBase, virtualBase)).memory, root, pmrs, physicalBase,
                       virtualBase)
  {
    forall k: nat, i: nat | LastStep(pmrs, k, i)
      ensures LeadsToKernel(RunActs(y, root, PmrActs(pmrs, physicalBase, virtualBase)).memory, root,
                            StepAddress(pmrs, k, i), physicalBase, virtualBase)
    {
      PmrsLead(y, root, pmrs, physicalBase, virtualBase, k, i);
    }
    hide Good, Fits, RunActs, PmrActs, LeadsToKernel;
  }


  // ---- The loops

  lemma {:induction false} IdentityPrefix(pages: nat, i: nat)
    requires i <= pages
    ensures IdentityActs(pages)[..i] == IdentityActs(i)
  {
    if i < pages {
      IdentityPrefix(pages - 1, i);
      assert IdentityActs(pages)[..i] == IdentityActs(pages - 1)[..i];
    }
  }

  lemma {:induction false} HigherPrefix(pages: nat, i: nat)
    requires i <= pages
    ensures HigherActs(pages)[..i] == HigherActs(i)
  {
    if i < pages {
      HigherPrefix(pages - 1, i);
      assert HigherActs(pages)[..i] == HigherActs(pages - 1)[..i];
    }
  }

  lemma {:induction false} PmrPrefix(base: nat, physicalBase: nat, virtualBase: nat, pages: nat, i: nat)
    requires i <= pages
    ensures PmrPages(base, physicalBase, virtualBase, pages)[..i] == PmrPages(base, physicalBase, virtualBase, i)
  {
    if i < pages {
      PmrPrefix(base, physicalBase, virtualBase, pages - 1, i);
      assert PmrPages(base, physicalBase, virtualBase, pages)[..i]
          == PmrPages(base, physicalBase, virtualBase, pages - 1)[..i];
    }
  }

  /** The next act of a fitting run fits where the run has got to. */
  lemma NextFits(y: System, root: nat, acts: seq<Act>, i: nat)
    requires Sized(y) && Fits(y, root, acts) && i < |acts|
    ensures ActFits(RunActs(y, root, acts[..i]), root, acts[i])
    ensures RunActs(y, root, acts[..i + 1]) == Perform(RunActs(y, root, acts[..i]), root, acts[i])
  {
    hide ActFits;
    hide Perform;
    RunSplit(y, root, acts[..i + 1], acts[i + 1..]);
    assert acts == acts[..i + 1] + acts[i + 1..];
    assert acts[..i + 1][..i] == acts[..i];
  }

  /** The loop variable of a loop over these bytes does not wrap around. */
  ghost predicate FitsWord(base: nat, length: nat) {
    base + length <= WORD - 4096
  }

  /** The loop variable after i steps of 4096 from `base`. */
  ghost function Stepped(base: nat, i: nat): (address: nat)
  {
    if i == 0 then base else Stepped(base, i - 1) + 0x1000
  }

  lemma {:induction false} SteppedValue(base: nat, i: nat)
    ensures Stepped(base, i) == base + i * 4096
  {
    if i > 0 {
      SteppedValue(base, i - 1);
    }
  }

  /** Does the loop over `length` bytes from `base` go on after i steps? */
  lemma GoesOn(base: nat, length: nat, i: nat, address: nat)
    requires address == Stepped(base, i)
    ensures address < base + length <==> i < Steps(length)
    ensures Stepped(base, i + 1) == address + 0x1000
  {
    SteppedValue(base, i);
    StepsReach(length, i);
  }

  /** The i-th act of the run maps `virtualAddress` to `physicalAddress`. */
  ghost predicate IsAct(acts: seq<Act>, i: nat, virtualAddress: nat, physicalAddress: nat) {
    i < |acts| && acts[i] == MapPage(virtualAddress, physicalAddress)
  }

  lemma IdentityNext(memory: nat, i: nat, t: nat)
    requires t == Stepped(0, i) && t < memory
    ensures IsAct(IdentityActs(Steps(memory)), i, t, t)
  {
    GoesOn(0, memory, i, t);
    SteppedValue(0, i);
    IdentityPrefix(Steps(memory), i + 1);
    assert IdentityActs(Steps(memory))[..i + 1][i] == IdentityActs(Steps(memory))[i];
  }

  lemma HigherNext(pages: nat, i: nat)
    requires i < pages
    ensures IsAct(HigherActs(pages), i, Plus(i * 4096, HIGHER_HALF), i * 4096)
  {
    HigherPrefix(pages, i + 1);
    assert HigherActs(pages)[..i + 1][i] == HigherActs(pages)[i];
  }

  /** The manager works on the tree below `root` and the machine is in state y. */
  ghost predicate At(manager: PageTableManager, root: nat, y: System)
    reads manager, manager.Allocator, manager.Allocator.PageBitmap, manager.Allocator.PageBitmap.Buffer, manager.Memory
  {
    manager.Valid() && manager.PML4 / 4096 == root && manager.State() == y
  }

  ghost predicate Before(root: nat, start: System, acts: seq<Act>) {
    Sized(start) && Fits(start, root, acts)
  }

  ghost function After(root: nat, start: System, acts: seq<Act>, i: nat): System
    requires Before(root, start, acts) && i <= |acts|
  {
    RunActs(start, root, acts[..i])
  }

  lemma AfterNone(root: nat, start: System, acts: seq<Act>)
    requires Before(root, start, acts)
    ensures After(root, start, acts, 0) == start && After(root, start, acts, |acts|) == RunActs(start, root, acts)
  {
    assert acts[..0] == [] && acts[..|acts|] == acts;
  }

  /** `MapMemory` for the next act of a fitting run. */
  method MapNext(manager: PageTableManager, virtualMemory: nat, physicalMemory: nat,
                 ghost root: nat, ghost start: System, ghost acts: seq<Act>, ghost i: nat)
    requires Before(root, start, acts) && IsAct(acts, i, virtualMemory, physicalMemory)
    requires At(manager, root, After(root, start, acts, i))
    modifies manager.Allocator, manager.Allocator.PageBitmap.Buffer, manager.Memory
    ensures manager.SameParts() && At(manager, root, After(root, start, acts, i + 1))
  {
    NextFits(start, root, acts, i);
    hide Good;
    hide Enough;
    hide RunActs;
    manager.MapMemory(virtualMemory, physicalMemory);
  }

  method MapIdentity(manager: PageTableManager, memory: nat, ghost root: nat, ghost start: System,
                     ghost acts: seq<Act>)
    requires FitsWord(0, memory) && acts == IdentityActs(Steps(memory))
    requires Before(root, start, acts) && At(manager, root, start)
    modifies manager.Allocator, manager.Allocator.PageBitmap.Buffer, manager.Memory
    ensures manager.SameParts() && At(manager, root, RunActs(start, root, acts))
  {
    ghost var i := 0;
    AfterNone(root, start, acts);
    GoesOn(0, memory, 0, 0);
    hide *;
    var t := 0;
    while t < memory
      invariant t == Stepped(0, i) && i <= |acts| && (t < memory <==> i < |acts|)
      invariant manager.SameParts() && At(manager, root, After(root, start, acts, i))
      decreases |acts| - i
    {
      IdentityNext(memory, i, t);
      MapNext(manager, t, t, root, start, acts, i);
      GoesOn(0, memory, i, t);
      t := t + 0x1000;
      i := i + 1;
      GoesOn(0, memory, i, t);
    }
  }

  method MapHigherHalf(manager: PageTableManager, memory: nat, ghost root: nat, ghost start: System,
                       ghost acts: seq<Act>)
    requires FitsWord(0, memory) && acts == HigherActs(memory / 4096)
    requires Before(root, start, acts) && At(manager, root, start)
    modifies manager.Allocator, manager.Allocator.PageBitmap.Buffer, manager.Memory
    ensures manager.SameParts() && At(manager, root, RunActs(start, root, acts))
  {
    AfterNone(root, start, acts);
    hide *;
    var i := 0;
    while i < memory / 0x1000
      invariant i <= memory / 4096 == |acts|
      invariant manager.SameParts() && At(manager, root, After(root, start, acts, i))
    {
      var physaddr := i * 0x1000;
      HigherNext(memory / 4096, i);
      MapNext(manager, Plus(physaddr, HIGHER_HALF), physaddr, root, start, acts, i);
      i := i + 1;
    }
  }

  /** `acts` maps the pages of a protected range in order. */
  ghost predicate IsPmrRun(acts: seq<Act>, pmr: Pmr, physicalBase: nat, virtualBase: nat) {
    |acts| == Steps(pmr.length) && forall i :: 0 <= i < |acts| ==> IsPmrAct(acts, pmr, physicalBase, virtualBase, i)
  }

  ghost predicate IsPmrAct(acts: seq<Act>, pmr: Pmr, physicalBase: nat, virtualBase: nat, i: nat) {
    var v := Stepped(pmr.base, i);
    IsAct(acts, i, v, Plus(physicalBase, v - virtualBase))
  }

  lemma PmrNext(acts: seq<Act>, pmr: Pmr, physicalBase: nat, virtualBase: nat, i: nat, v: nat)
    requires IsPmrRun(acts, pmr, physicalBase, virtualBase) && i < |acts| && v == Stepped(pmr.base, i)
    ensures IsAct(acts, i, v, Plus(physicalBase, v - virtualBase))
  {
    assert IsPmrAct(acts, pmr, physicalBase, virtualBase, i);
  }

  lemma PmrPagesAreRun(pmr: Pmr, physicalBase: nat, virtualBase: nat)
    ensures IsPmrRun(PmrPages(pmr.base, physicalBase, virtualBase, Steps(pmr.length)), pmr, physicalBase, virtualBase)
  {
    var acts := PmrPages(pmr.base, physicalBase, virtualBase, Steps(pmr.length));
    forall i | 0 <= i < |acts|
      ensures IsPmrAct(acts, pmr, physicalBase, virtualBase, i)
    {
      SteppedValue(pmr.base, i);
      PmrPrefix(pmr.base, physicalBase, virtualBase, Steps(pmr.length), i + 1);
      assert acts[..i + 1][i] == acts[i];
    }
  }

  method MapPmr(manager: PageTableManager, pmr: Pmr, physicalBase: nat, virtualBase: nat,
                ghost root: nat, ghost start: System, ghost acts: seq<Act>)
    requires FitsWord(pmr.base, pmr.length) && IsPmrRun(acts, pmr, physicalBase, virtualBase)
    requires Before(root, start, acts) && At(manager, root, start)
    modifies manager.Allocator, manager.Allocator.PageBitmap.Buffer, manager.Memory
    ensures manager.SameParts() && At(manager, root, RunActs(start, root, acts))
  {
    ghost var i := 0;
    AfterNone(root, start, acts);
    GoesOn(pmr.base, pmr.length, 0, pmr.base);
    hide *;
    var pmrVirtAddr := pmr.base;
    while pmrVirtAddr < pmr.base + pmr.length
      invariant pmrVirtAddr == Stepped(pmr.base, i) && i <= |acts|
      invariant pmrVirtAddr < pmr.base + pmr.length <==> i < |acts|
      invariant manager.SameParts() && At(manager, root, After(root, start, acts, i))
      decreases |acts| - i
    {
      GoesOn(pmr.base, pmr.length, i, pmrVirtAddr);
      PmrNext(acts, pmr, physicalBase, virtualBase, i, pmrVirtAddr);
      var physAddr := Plus(physicalBase, pmrVirtAddr - virtualBase);
      MapNext(manager, pmrVirtAddr, physAddr, root, start, acts, i);
      pmrVirtAddr := pmrVirtAddr + 0x1000;
      i := i + 1;
      GoesOn(pmr.base, pmr.length, i, pmrVirtAddr);
    }
  }

  lemma {:induction false} PmrActsPrefix(
      y: System, root: nat, pmrs: seq<Pmr>, physicalBase: nat, virtualBase: nat, i: nat)
    requires Sized(y) && i <= |pmrs| && Fits(y, root, PmrActs(pmrs, physicalBase, virtualBase))
    ensures Fits(y, root, PmrActs(pmrs[..i], physicalBase, virtualBase))
    decreases |pmrs|
  {
    hide Fits;
    hide RunActs;
    if i < |pmrs| {
      var n := |pmrs| - 1;
      var p := pmrs[n];
      RunSplit(y, root, PmrActs(pmrs[..n], physicalBase, virtualBase),
               PmrPages(p.base, physicalBase, virtualBase, Steps(p.length)));
      PmrActsPrefix(y, root, pmrs[..n], physicalBase, virtualBase, i);
      assert pmrs[..n][..i] == pmrs[..i];
    } else {
      assert pmrs[..i] == pmrs;
    }
  }

  lemma NextPmrFits(y: System, root: nat, pmrs: seq<Pmr>, physicalBase: nat, virtualBase: nat, i: nat)
    requires Sized(y) && i < |pmrs| && Fits(y, root, PmrActs(pmrs, physicalBase, virtualBase))
    ensures var done := RunActs(y, root, PmrActs(pmrs[..i], physicalBase, virtualBase));
      var pages := PmrPages(pmrs[i].base, physicalBase, virtualBase, Steps(pmrs[i].length));
      Fits(done, root, pages) &&
      RunActs(y, root, PmrActs(pmrs[..i + 1], physicalBase, virtualBase)) == RunActs(done, root, pages)
  {
    hide *;
    PmrActsPrefix(y, root, pmrs, physicalBase, virtualBase, i + 1);
    PmrActsNext(pmrs, physicalBase, virtualBase, i);
    RunSplit(y, root, PmrActs(pmrs[..i], physicalBase, virtualBase),
             PmrPages(pmrs[i].base, physicalBase, virtualBase, Steps(pmrs[i].length)));
  }

  lemma PmrActsNext(pmrs: seq<Pmr>, physicalBase: nat, virtualBase: nat, i: nat)
    requires i < |pmrs|
    ensures PmrActs(pmrs[..i + 1], physicalBase, virtualBase)
         == PmrActs(pmrs[..i], physicalBase, virtualBase)
            + PmrPages(pmrs[i].base, physicalBase, virtualBase, Steps(pmrs[i].length))
  {
    assert pmrs[..i + 1][..i] == pmrs[..i];
    hide PmrPages, Steps;
  }

  method MapPmrs(manager: PageTableManager, pmrs: seq<Pmr>, physicalBase: nat, virtualBase: nat,
                 ghost root: nat, ghost start: System)
    requires forall p :: p in pmrs ==> FitsWord(p.base, p.length)
    requires Before(root, start, PmrActs(pmrs, physicalBase, virtualBase)) && At(manager, root, start)
    modifies manager.Allocator, manager.Allocator.PageBitmap.Buffer, manager.Memory
    ensures manager.SameParts()
    ensures At(manager, root, RunActs(start, root, PmrActs(pmrs, physicalBase, virtualBase)))
  {
    hide At;
    for pmrIndex := 0 to |pmrs|
      invariant manager.SameParts()
      invariant At(manager, root, RunActs(start, root, PmrActs(pmrs[..pmrIndex], physicalBase, virtualBase)))
    {
      NextPmrFits(start, root, pmrs, physicalBase, virtualBase, pmrIndex);
      PmrPagesAreRun(pmrs[pmrIndex], physicalBase, virtualBase);
      MapPmr(manager, pmrs[pmrIndex], physicalBase, virtualBase, root,
             RunActs(start, root, PmrActs(pmrs[..pmrIndex], physicalBase, virtualBase)),
             PmrPages(pmrs[pmrIndex].base, physicalBase, virtualBase, Steps(pmrs[pmrIndex].length)));
    }
    assert pmrs[..|pmrs|] == pmrs;
  }

  /** Lines 63 to 80 of `KernelStart`: afterwards all protected ranges lead to the kernel. */
  method MapAtBoot(manager: PageTableManager, memory: nat, pmrs: seq<Pmr>, physicalBase: nat, virtualBase: nat)
    requires manager.Valid() && FitsWord(0, memory) && forall p :: p in pmrs ==> FitsWord(p.base, p.length)
    requires Fits(manager.State(), manager.PML4 / 4096, BootActs(memory, pmrs, physicalBase, virtualBase))
    modifies manager.Allocator, manager.Allocator.PageBitmap.Buffer, manager.Memory
    ensures manager.Valid() && manager.SameParts()
    ensures manager.State() ==
      RunActs(old(manager.State()), manager.PML4 / 4096, BootActs(memory, pmrs, physicalBase, virtualBase))
    ensures RangesLead(manager.Memory[..], manager.PML4 / 4096, pmrs, physicalBase, virtualBase)
  {
    BootMapsRanges(manager.State(), manager.PML4 / 4096, memory, pmrs, physicalBase, virtualBase);
    hide RangesLead;
    ghost var start, root := manager.State(), manager.PML4 / 4096;
    ghost var identity, higher := IdentityActs(Steps(memory)), HigherActs(memory / 4096);
    RunSplit(start, root, identity + higher, PmrActs(pmrs, physicalBase, virtualBase));
    RunSplit(start, root, identity, higher);
    hide RunActs;
    hide Fits;
    MapIdentity(manager, memory, root, start, identity);
    MapHigherHalf(manager, memory, root, RunActs(start, root, identity), higher);
    MapPmrs(manager, pmrs, physicalBase, virtualBase, root, RunActs(start, root, identity + higher));
  }
}
