/**
 * Runs of mapping and allocation, and the flat map from pages to frames that they refine; the boot loops of
 * `KernelStart` as one such run.
 */
module AddressSpace {
  import opened FrameLedger
  import opened Paging
  import opened PageTree
  import opened MapMemory

  datatype Act = MapPage(virtualAddress: nat, physicalAddress: nat) | Allocate(call: Call)

  function Perform(y: System, root: nat, a: Act): (z: System)
    requires Sized(y)
    ensures SameSize(y, z)
  {
    match a
    case MapPage(v, p) => Map(y, root, Path(v), p / 4096)
    case Allocate(c) => y.(frames := Step(y.frames, c).0)
  }

  function RunActs(y: System, root: nat, acts: seq<Act>): (z: System)
    requires Sized(y)
    ensures SameSize(y, z)
  {
    if acts == [] then y else Perform(RunActs(y, root, acts[..|acts| - 1]), root, acts[|acts| - 1])
  }

  /** Frame 0 and the frames of all tables. */
  ghost predicate HoldsTree(memory: seq<Table>, root: nat, f: nat) {
    f == 0 || exists q :: Reaches(memory, root, q) && Follow(memory, root, q) == f
  }

  /**
   * A mapping needs as many free frames as it finds tables missing; an allocator call must release neither the
   * frame of a table nor frame 0.
   */
  ghost predicate ActFits(y: System, root: nat, a: Act)
    requires Sized(y)
  {
    match a
    case MapPage(v, _) => Enough(y, root, v)
    case Allocate(c) => forall f: nat :: HoldsTree(y.memory, root, f) ==> !Releases(c, f)
  }

  ghost predicate Fits(y: System, root: nat, acts: seq<Act>)
    requires Sized(y)
  {
    acts == [] ||
    (Fits(y, root, acts[..|acts| - 1]) && ActFits(RunActs(y, root, acts[..|acts| - 1]), root, acts[|acts| - 1]))
  }

  /** Changing the bitmap keeps the tree proper exactly when the tables' frames and frame 0 stay locked. */
  lemma TreeNeedsItsFrames(memory: seq<Table>, root: nat, bits: seq<bool>, after: seq<bool>)
    requires ProperTree(memory, root, bits) && |after| == |bits|
    ensures ProperTree(memory, root, after) <==>
      forall f :: 0 <= f < |bits| && HoldsTree(memory, root, f) ==> after[f]
  {
    var tables :| Proper(memory, tables, root, bits);
    if forall f :: 0 <= f < |bits| && HoldsTree(memory, root, f) ==> after[f] {
      forall q | q in tables
        ensures after[tables[q]]
      {
        NamedIsReachable(memory, tables, root, bits, q);
        assert HoldsTree(memory, root, tables[q]);
      }
      assert HoldsTree(memory, root, 0);
      assert Proper(memory, tables, root, after);
    }
    if ProperTree(memory, root, after) {
      var named :| Proper(memory, named, root, after);
      forall f | 0 <= f < |bits| && HoldsTree(memory, root, f)
        ensures after[f]
      {
        if f != 0 {
          var q :| Reaches(memory, root, q) && Follow(memory, root, q) == f;
          NamedIsReachable(memory, named, root, after, q);
        }
      }
    }
  }

  lemma ActKeepsTreeExactly(y: System, root: nat, a: Act)
    requires Good(y, root)
    ensures Good(Perform(y, root, a), root) <==> ActFits(y, root, a)
  {
    match a
    case MapPage(v, p) =>
      MapKeepsTreeExactly(y, root, v, p / 4096);
    case Allocate(c) =>
      TreeNeedsItsFrames(y.memory, root, y.frames.bits, Step(y.frames, c).0.bits);
      forall f: nat | HoldsTree(y.memory, root, f)
        ensures f < y.frames.Limit() && y.frames.bits[f] && (Step(y.frames, c).0.bits[f] <==> !Releases(c, f))
      {
        TreeFrame(y, root, f);
        KeptExactly(y.frames, c, f);
      }
  }

  /** The frames of a tree lie in the bitmap and are locked. */
  lemma TreeFrame(y: System, root: nat, f: nat)
    requires Good(y, root) && HoldsTree(y.memory, root, f)
    ensures f < y.frames.Limit() && y.frames.bits[f]
  {
    var tables :| Proper(y.memory, tables, root, y.frames.bits);
    if f != 0 {
      var q :| Reaches(y.memory, root, q) && Follow(y.memory, root, q) == f;
      NamedIsReachable(y.memory, tables, root, y.frames.bits, q);
    }
  }

  /** A call keeps a locked frame locked exactly when it does not release it. */
  lemma KeptExactly(s: Frames, c: Call, f: nat)
    requires f < s.Limit() && s.bits[f]
    ensures Step(s, c).0.bits[f] <==> !Releases(c, f)
  {
    StepBit(s, c, f);
    hide Step;
  }

  /**
   * Every run of mappings and allocator calls: the tables are a proper tree after each of its steps if and only
   * if every mapping finds its frames and no call releases a table.
   */
  lemma {:induction false} RunKeepsTreeExactly(y: System, root: nat, acts: seq<Act>)
    requires Good(y, root)
    ensures Fits(y, root, acts) <==> forall k :: 0 <= k <= |acts| ==> Good(RunActs(y, root, acts[..k]), root)
  {
    hide ProperTree;
    hide ActFits;
    hide Perform;
    assert acts[..|acts|] == acts;
    if acts != [] {
      var n := |acts| - 1;
      RunKeepsTreeExactly(y, root, acts[..n]);
      forall k | 0 <= k <= n
        ensures acts[..n][..k] == acts[..k]
      {
      }
      if Good(RunActs(y, root, acts[..n]), root) {
        ActKeepsTreeExactly(RunActs(y, root, acts[..n]), root, acts[n]);
      }
    }
  }

  // ---- The flat map

  /** What software means by a mapping: pages to frames, later mappings overriding earlier ones. */
  type Flat = map<nat, nat>

  function FlatAct(flat: Flat, a: Act): Flat {
    match a
    case MapPage(v, p) => flat[PageOf(v) := p / 4096 % ADDRESSES]
    case Allocate(_) => flat
  }

  function FlatRun(flat: Flat, acts: seq<Act>): Flat {
    if acts == [] then flat else FlatAct(FlatRun(flat, acts[..|acts| - 1]), acts[|acts| - 1])
  }

  function Look(flat: Flat, page: nat): Mapping {
    if page in flat then Mapped(flat[page], true) else Fault
  }

  ghost predicate Refines(y: System, root: nat, flat: Flat) {
    forall v :: Translate(y.memory, root, v) == Look(flat, PageOf(v))
  }

  /** Every fitting run of mappings and allocator calls translates addresses exactly as the flat map says. */
  lemma {:induction false} RunRefinesFlat(y: System, root: nat, acts: seq<Act>, flat: Flat)
    requires Good(y, root) && Refines(y, root, flat) && Fits(y, root, acts)
    ensures Refines(RunActs(y, root, acts), root, FlatRun(flat, acts))
  {
    assert Sized(y);
    hide ActFits;
    hide Perform;
    hide Refines;
    hide Good;
    if acts != [] {
      var n := |acts| - 1;
      RunRefinesFlat(y, root, acts[..n], flat);
      RunKeepsTreeExactly(y, root, acts[..n]);
      assert acts[..n][..n] == acts[..n];
      ActRefinesFlat(RunActs(y, root, acts[..n]), root, acts[n], FlatRun(flat, acts[..n]));
    }
  }

  lemma ActRefinesFlat(y: System, root: nat, a: Act, flat: Flat)
    requires Good(y, root) && Refines(y, root, flat) && ActFits(y, root, a)
    ensures Refines(Perform(y, root, a), root, FlatAct(flat, a))
  {
    hide Map;
    hide ProperTree;
    hide Enough;
    if a.MapPage? {
      forall w: nat
        ensures Translate(Perform(y, root, a).memory, root, w) == Look(FlatAct(flat, a), PageOf(w))
      {
        MapTranslates(y, root, a.virtualAddress, a.physicalAddress / 4096, w);
      }
    }
  }

  /** A cleared, locked outermost table is a proper tree that maps nothing. */
  lemma EmptyTree(y: System, root: nat)
    requires Sized(y) && |y.frames.bits| <= ADDRESSES && y.frames.bits[0]
    requires 0 < root < y.frames.Limit() && y.frames.bits[root] && y.memory[root] == ZeroTable()
    ensures Good(y, root) && Refines(y, root, map[])
    ensures Proper(y.memory, map[[] := root], root, y.frames.bits)
  {
    var tables: Tables := map[[] := root];
    assert Proper(y.memory, tables, root, y.frames.bits);
    forall v: nat
      ensures Translate(y.memory, root, v) == Fault
    {
      TranslateIsLeaf(y.memory, tables, root, y.frames.bits, v);
    }
  }

  /** Eight pages, all taken, of which the first after page 0 holds an empty outermost table. */
  function FullSystem(): System {
    System(Frames(seq(9, _ => true), 0, 0, 0, 0), seq(8, _ => ZeroTable()))
  }

  lemma FullSystemIsFull()
    ensures var y := FullSystem();
      && Sized(y) && |y.frames.bits| <= ADDRESSES && y.frames.bits[0] && 1 < y.frames.Limit() && y.frames.bits[1]
      && y.memory[1] == ZeroTable() && FreeCount(y.frames) == 0
  {
    CountBound(FullSystem().frames.bits[..8]);
  }

  lemma OneTableAbsent(path: seq<nat>)
    requires |path| == 4
    ensures Absent(map[[] := 1], path, 3) > 0
  {
    assert Absent(map[[] := 1], path, 1) == 1;
  }

  /** With no page free, the first mapping links page 0 into an empty tree, which is no proper tree then. */
  lemma NullTableBreaksTree(v: nat, p: nat)
    ensures Good(FullSystem(), 1) && !Good(Map(FullSystem(), 1, Path(v), p), 1)
  {
    hide *;
    var y := FullSystem();
    FullSystemIsFull();
    EmptyTree(y, 1);
    OneTableAbsent(Path(v));
    MissingIsAbsent(y.memory, map[[] := 1], 1, y.frames.bits, Path(v), 3);
    EnoughIs(y, 1, v);
    MapKeepsTreeExactly(y, 1, v, p);
  }

  lemma EnoughIs(y: System, root: nat, v: nat)
    ensures Enough(y, root, v) <==> Missing(y.memory, root, Path(v), 3) <= FreeCount(y.frames)
  {
    hide Missing, FreeCount, Path;
  }

  // ---- How many frames a run of mappings needs

  /** The tables that mapping v walks through, the outermost one aside. */
  function Prefixes(v: nat): set<seq<nat>> {
    {Path(v)[..1], Path(v)[..2], Path(v)[..3]}
  }

  function AllPrefixes(acts: seq<Act>): set<seq<nat>> {
    if acts == [] then {}
    else
      var a := acts[|acts| - 1];
      AllPrefixes(acts[..|acts| - 1]) + if a.MapPage? then Prefixes(a.virtualAddress) else {}
  }

  lemma AbsentIsCount(tables: Tables, v: nat)
    ensures Absent(tables, Path(v), 3) == |Prefixes(v) - tables.Keys|
  {
    var path := Path(v);
    assert |path[..1]| == 1 && |path[..2]| == 2 && |path[..3]| == 3;
    CountThree(path[..1], path[..2], path[..3], tables.Keys);
    assert Absent(tables, path, 2) == Absent(tables, path, 1) + if path[..2] in tables then 0 else 1;
  }

  lemma CountThree(a: seq<nat>, b: seq<nat>, c: seq<nat>, t: set<seq<nat>>)
    requires a != b && a != c && b != c
    ensures |{a, b, c} - t| ==
      (if a in t then 0 else 1) + (if b in t then 0 else 1) + (if c in t then 0 else 1)
  {
    var x, y, z := {a} - t, {b} - t, {c} - t;
    CountOne(a, t);
    CountOne(b, t);
    CountOne(c, t);
    assert x !! y && (x + y) !! z;
    assert |x + y| == |x| + |y| && |(x + y) + z| == |x + y| + |z|;
    assert {a, b, c} - t == (x + y) + z;
  }

  lemma CountOne(a: seq<nat>, t: set<seq<nat>>)
    ensures |{a} - t| == if a in t then 0 else 1
  {
    assert {a} - t == if a in t then {} else {a};
  }

  lemma ExtendedKeys(y: System, tables: Tables, z: System, named: Tables, root: nat, v: nat)
    requires Proper(z.memory, named, root, z.frames.bits)
    requires Path(v)[..3] in named && Extends(tables, named, Path(v), 3)
    ensures named.Keys == tables.Keys + Prefixes(v)
  {
    hide Path;
    var path := Path(v);
    Ancestor(z.memory, named, root, z.frames.bits, path[..3], 1);
    Ancestor(z.memory, named, root, z.frames.bits, path[..3], 2);
    assert path[..3][..1] == path[..1] && path[..3][..2] == path[..2];
    KeysAlongPath(tables, named, path);
  }

  lemma KeysAlongPath(tables: Tables, named: Tables, path: seq<nat>)
    requires |path| == 4 && Extends(tables, named, path, 3)
    requires path[..1] in named && path[..2] in named && path[..3] in named
    ensures named.Keys == tables.Keys + {path[..1], path[..2], path[..3]}
  {
    forall q | q in named
      ensures q in tables || q == path[..1] || q == path[..2] || q == path[..3]
    {
      if q !in tables {
        var k :| 0 < k <= 3 && q == path[..k];
        assert k == 1 || k == 2 || k == 3;
      }
    }
  }

  lemma SplitCount(p: set<seq<nat>>, q: set<seq<nat>>, t: set<seq<nat>>)
    ensures |(p + q) - t| == |p - t| + |q - (t + p)| && (t + p) + q == t + (p + q)
  {
    assert (p + q) - t == (p - t) + (q - (t + p));
  }

  /**
   * A run of mappings fits if and only if the free frames are at least the number of distinct tables on its
   * pages' paths that do not exist yet.
   */
  lemma {:induction false} MappingsFitExactly(y: System, tables: Tables, root: nat, acts: seq<Act>)
    returns (named: Tables)
    requires Sized(y) && Proper(y.memory, tables, root, y.frames.bits)
    requires forall a :: a in acts ==> a.MapPage?
    ensures Fits(y, root, acts) <==> |AllPrefixes(acts) - tables.Keys| <= FreeCount(y.frames)
    ensures Fits(y, root, acts) ==>
      Proper(RunActs(y, root, acts).memory, named, root, RunActs(y, root, acts).frames.bits)
    ensures Fits(y, root, acts) ==> named.Keys == tables.Keys + AllPrefixes(acts)
    ensures Fits(y, root, acts) ==>
      FreeCount(RunActs(y, root, acts).frames) == FreeCount(y.frames) - |AllPrefixes(acts) - tables.Keys|
  {
    named := tables;
    hide Proper;
    hide Enough;
    hide Prefixes;
    if acts != [] {
      var n := |acts| - 1;
      var v := acts[n].virtualAddress;
      var mid := MappingsFitExactly(y, tables, root, acts[..n]);
      SplitCount(AllPrefixes(acts[..n]), Prefixes(v), tables.Keys);
      if Fits(y, root, acts[..n]) {
        named := OneMoreMapping(RunActs(y, root, acts[..n]), mid, root, v, acts[n].physicalAddress / 4096);
      }
    }
  }

  lemma OneMoreMapping(z: System, mid: Tables, root: nat, v: nat, p: nat) returns (named: Tables)
    requires Sized(z) && Proper(z.memory, mid, root, z.frames.bits)
    ensures Enough(z, root, v) <==> |Prefixes(v) - mid.Keys| <= FreeCount(z.frames)
    ensures Enough(z, root, v) ==>
      Proper(Map(z, root, Path(v), p).memory, named, root, Map(z, root, Path(v), p).frames.bits)
    ensures Enough(z, root, v) ==> named.Keys == mid.Keys + Prefixes(v)
    ensures Enough(z, root, v) ==>
      FreeCount(Map(z, root, Path(v), p).frames) == FreeCount(z.frames) - |Prefixes(v) - mid.Keys|
  {
    named := mid;
    MissingIsAbsent(z.memory, mid, root, z.frames.bits, Path(v), 3);
    AbsentIsCount(mid, v);
    if Enough(z, root, v) {
      named := MapKeepsTree(z, mid, root, Path(v), p);
      ExtendedKeys(z, mid, Map(z, root, Path(v), p), named, root, v);
    }
  }
}
