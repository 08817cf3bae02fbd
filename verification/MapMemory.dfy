/** `MapMemory` as a function on physical memory and the frame allocator, and what it does to the mapping. */
module MapMemory {
  import opened Units
  import opened FrameLedger
  import opened Paging
  import opened PageTree

  datatype System = System(frames: Frames, memory: seq<Table>)

  /** Physical memory reaches as far as the bitmap does. */
  ghost predicate Sized(y: System) {
    y.frames.Limit() <= |y.memory| && 0 < |y.memory|
  }

  ghost predicate SameSize(y: System, z: System) {
    |z.memory| == |y.memory| && |z.frames.bits| == |y.frames.bits|
  }

  lemma RequestInRange(s: Frames)
    ensures Request(s).1 % PAGE == 0 && (Request(s).1 == 0 || Request(s).1 / PAGE < s.Limit())
    ensures Request(s).0.hint <= s.hint
  {
    RequestTakesLowest(s);
  }

  /** One level of the walk: the next table, allocated, cleared and linked when the entry is not present. */
  function Next(y: System, frame: nat, i: nat): (r: (System, nat))
    requires Sized(y) && frame < |y.memory| && i < ENTRIES
    ensures SameSize(y, r.0) && r.0.frames.hint <= y.frames.hint
  {
    var e := y.memory[frame][i];
    if FlagBit(e, Present) then (y, AddressOf(e))
    else
      RequestInRange(y.frames);
      var (after, address) := Request(y.frames);
      (System(after, Grown(y.memory, frame, i, address / PAGE)), address / PAGE)
  }

  /** The descent through `n` levels along `path`: the system and the table reached. */
  function Descend(y: System, root: nat, path: seq<nat>, n: nat): (r: (System, nat))
    requires Sized(y) && IsPath(path) && n <= |path|
    ensures SameSize(y, r.0) && r.0.frames.hint <= y.frames.hint
  {
    if n == 0 then (y, root)
    else
      var (z, f) := Descend(y, root, path, n - 1);
      if f >= |z.memory| then (z, f) else Next(z, f, path[n - 1])
  }

  function Map(y: System, root: nat, path: seq<nat>, p: nat): (z: System)
    requires Sized(y) && IsPath(path) && |path| == 4
    ensures SameSize(y, z) && z.frames.hint <= y.frames.hint
  {
    var (z, f) := Descend(y, root, path, 3);
    if f >= |z.memory| then z
    else System(z.frames, LinkedInto(z.memory, f, path[3], Linked(z.memory[f][path[3]], p)))
  }

  // ---- Enough frames

  function FreeCount(s: Frames): nat {
    CountBound(s.bits[..s.Limit()]);
    s.Limit() - Count(s.bits[..s.Limit()])
  }

  lemma {:induction false} CountBound(bits: seq<bool>)
    ensures Count(bits) <= |bits|
    ensures Count(bits) == |bits| <==> forall i :: 0 <= i < |bits| ==> bits[i]
  {
    if bits != [] {
      CountBound(bits[..|bits| - 1]);
    }
  }

  /** A request succeeds exactly when a frame is free, and then uses up one; page 0 must be taken. */
  lemma RequestUsesOne(s: Frames)
    requires s.bits[0]
    ensures FreeCount(s) > 0 ==> Request(s).1 != 0 && LowestFree(s.bits, Request(s).1 / PAGE)
    ensures FreeCount(s) > 0 ==> Request(s).0.bits == s.bits[Request(s).1 / PAGE := true]
    ensures FreeCount(s) > 0 ==> FreeCount(Request(s).0) == FreeCount(s) - 1
    ensures FreeCount(s) == 0 ==> Request(s).1 == 0 && Request(s).0.bits == s.bits
  {
    RequestTakesLowest(s);
    hide Request;
    var n := s.Limit();
    CountBound(s.bits[..n]);
    if FreeCount(s) > 0 {
      var x := Request(s).1 / PAGE;
      assert exists i :: 0 <= i < n && !s.bits[..n][i];
      CountUpdate(s.bits[..n], x, true);
      assert Request(s).0.bits[..n] == s.bits[..n][x := true];
    }
  }

  /** How many tables the first `n` levels along `path` still lack. */
  ghost function Missing(memory: seq<Table>, root: nat, path: seq<nat>, n: nat): nat
    requires n <= |path|
  {
    if n == 0 then 0
    else Missing(memory, root, path, n - 1) + if Reaches(memory, root, path[..n]) then 0 else 1
  }

  ghost function Absent(tables: Tables, path: seq<nat>, n: nat): nat
    requires n <= |path|
  {
    if n == 0 then 0 else Absent(tables, path, n - 1) + if path[..n] in tables then 0 else 1
  }

  lemma {:induction false} MissingIsAbsent(memory: seq<Table>, tables: Tables, root: nat, bits: seq<bool>,
      path: seq<nat>, n: nat)
    requires Proper(memory, tables, root, bits) && n <= |path|
    ensures Missing(memory, root, path, n) == Absent(tables, path, n)
  {
    if n > 0 {
      MissingIsAbsent(memory, tables, root, bits, path, n - 1);
      NamedIsReachable(memory, tables, root, bits, path[..n]);
    }
  }

  // ---- Enough frames: the tree grows by what is missing

  ghost predicate Keeps(tables: Tables, named: Tables) {
    forall q :: q in tables ==> q in named && named[q] == tables[q]
  }

  /** `named` has the tables of `tables` and otherwise only tables along the first `n` levels of `path`. */
  ghost predicate Extends(tables: Tables, named: Tables, path: seq<nat>, n: nat)
    requires n <= |path|
  {
    && Keeps(tables, named)
    && (forall q :: q in named ==> q in tables || exists k :: 0 < k <= n && q == path[..k])
  }

  /** The system after a step shows every page the same entry, and changed no frame but tables. */
  ghost predicate SamePages(y: System, tables: Tables, z: System, named: Tables, root: nat)
    requires Sized(y) && Proper(y.memory, tables, root, y.frames.bits)
    requires Sized(z) && Proper(z.memory, named, root, z.frames.bits)
  {
    && (forall path :: IsPath(path) && |path| == 4 ==> Leaf(z.memory, named, path) == Leaf(y.memory, tables, path))
    && |z.memory| == |y.memory|
    && (forall f :: 0 <= f < |y.memory| && f !in named.Values ==> z.memory[f] == y.memory[f])
  }

  /** No page becomes free, and tables are added only in pages that were. */
  ghost predicate FromFree(y: System, tables: Tables, z: System, named: Tables) {
    && |z.frames.bits| == |y.frames.bits|
    && (forall f :: 0 <= f < |y.frames.bits| && y.frames.bits[f] ==> z.frames.bits[f])
    && (forall q :: q in named && q !in tables ==> named[q] < |y.frames.bits| && !y.frames.bits[named[q]])
  }

  lemma FromFreeTwice(y: System, tables: Tables, z: System, mid: Tables, x: System, named: Tables)
    requires FromFree(y, tables, z, mid) && FromFree(z, mid, x, named) && Keeps(mid, named)
    ensures FromFree(y, tables, x, named)
  {
  }

  lemma NextKeepsTree(y: System, tables: Tables, root: nat, q: seq<nat>, i: nat) returns (named: Tables)
    requires Sized(y) && Proper(y.memory, tables, root, y.frames.bits)
    requires q in tables && |q| < 3 && i < ENTRIES
    requires q + [i] in tables || FreeCount(y.frames) > 0
    ensures Proper(Next(y, tables[q], i).0.memory, named, root, Next(y, tables[q], i).0.frames.bits)
    ensures q + [i] in named && named[q + [i]] == Next(y, tables[q], i).1
    ensures named == tables[q + [i] := named[q + [i]]]
    ensures SamePages(y, tables, Next(y, tables[q], i).0, named, root)
    ensures FreeCount(Next(y, tables[q], i).0.frames) == FreeCount(y.frames) - if q + [i] in tables then 0 else 1
    ensures q + [i] in tables ==> named == tables
    ensures FromFree(y, tables, Next(y, tables[q], i).0, named)
  {
    assert EntryFits(y.memory, tables, q, i);
    CleanFlags(y.memory[tables[q]][i]);
    if q + [i] in tables {
      named := tables;
    } else {
      RequestUsesOne(y.frames);
      var spare := Request(y.frames).1 / PAGE;
      named := tables[q + [i] := spare];
      GrowKeepsTree(y.memory, tables, root, y.frames.bits, q, i, spare);
      GrowKeepsPages(y, tables, root, q, i, spare, Next(y, tables[q], i).0);
    }
  }

  lemma GrowKeepsPages(y: System, tables: Tables, root: nat, q: seq<nat>, i: nat, spare: nat, z: System)
    requires Sized(y) && Proper(y.memory, tables, root, y.frames.bits)
    requires q in tables && |q| < 3 && i < ENTRIES && q + [i] !in tables
    requires spare < |y.frames.bits| - 1 && !y.frames.bits[spare]
    requires z.memory == Grown(y.memory, tables[q], i, spare) && z.frames.bits == y.frames.bits[spare := true]
    requires Proper(z.memory, tables[q + [i] := spare], root, z.frames.bits)
    ensures SamePages(y, tables, z, tables[q + [i] := spare], root)
  {
    var named := tables[q + [i] := spare];
    forall path | IsPath(path) && |path| == 4
      ensures Leaf(z.memory, named, path) == Leaf(y.memory, tables, path)
    {
      GrowMovesNoPage(y.memory, tables, root, y.frames.bits, q, i, spare, path);
    }
    assert spare == named[q + [i]] && tables[q] == named[q];
  }

  lemma {:induction false} DescendKeepsTree(y: System, tables: Tables, root: nat, path: seq<nat>, n: nat)
    returns (named: Tables)
    requires Sized(y) && Proper(y.memory, tables, root, y.frames.bits)
    requires IsPath(path) && n <= 3 && n <= |path|
    requires Absent(tables, path, n) <= FreeCount(y.frames)
    ensures Proper(Descend(y, root, path, n).0.memory, named, root, Descend(y, root, path, n).0.frames.bits)
    ensures path[..n] in named && named[path[..n]] == Descend(y, root, path, n).1
    ensures Extends(tables, named, path, n)
    ensures SamePages(y, tables, Descend(y, root, path, n).0, named, root)
    ensures FreeCount(Descend(y, root, path, n).0.frames) == FreeCount(y.frames) - Absent(tables, path, n)
    ensures FromFree(y, tables, Descend(y, root, path, n).0, named)
  {
    if n == 0 {
      named := tables;
    } else {
      var mid := DescendKeepsTree(y, tables, root, path, n - 1);
      named := DescendOneMore(y, tables, Descend(y, root, path, n - 1).0, mid, root, path, n);
    }
  }

  lemma DescendOneMore(y: System, tables: Tables, z: System, mid: Tables, root: nat, path: seq<nat>, n: nat)
    returns (named: Tables)
    requires Sized(y) && Proper(y.memory, tables, root, y.frames.bits)
    requires IsPath(path) && 0 < n <= 3 && n <= |path| && path[..n - 1] in mid
    requires Descend(y, root, path, n - 1) == (z, mid[path[..n - 1]])
    requires Proper(z.memory, mid, root, z.frames.bits)
    requires Extends(tables, mid, path, n - 1) && SamePages(y, tables, z, mid, root) && FromFree(y, tables, z, mid)
    requires FreeCount(z.frames) == FreeCount(y.frames) - Absent(tables, path, n - 1)
    requires Absent(tables, path, n) <= FreeCount(y.frames)
    ensures Proper(Descend(y, root, path, n).0.memory, named, root, Descend(y, root, path, n).0.frames.bits)
    ensures path[..n] in named && named[path[..n]] == Descend(y, root, path, n).1
    ensures Extends(tables, named, path, n)
    ensures SamePages(y, tables, Descend(y, root, path, n).0, named, root)
    ensures FreeCount(Descend(y, root, path, n).0.frames) == FreeCount(y.frames) - Absent(tables, path, n)
    ensures FromFree(y, tables, Descend(y, root, path, n).0, named)
  {
    var q := path[..n - 1];
    PathStep(path, n);
    NewTableOnce(tables, mid, path, n);
    TableInMemory(z, mid, root, q);
    hide Proper;
    hide SamePages;
    hide Extends;
    hide FreeCount;
    hide FromFree;
    named := NextKeepsTree(z, mid, root, q, path[n - 1]);
    ExtendsOneMore(tables, mid, named, path, n);
    SamePagesCompose(y, tables, z, mid, Next(z, mid[q], path[n - 1]).0, named, root);
    FromFreeTwice(y, tables, z, mid, Next(z, mid[q], path[n - 1]).0, named);
  }

  lemma TableInMemory(y: System, tables: Tables, root: nat, q: seq<nat>)
    requires Sized(y) && Proper(y.memory, tables, root, y.frames.bits) && q in tables
    ensures 0 < tables[q] < |y.memory|
  {
  }

  lemma PathStep(path: seq<nat>, n: nat)
    requires 0 < n <= |path|
    ensures path[..n - 1] + [path[n - 1]] == path[..n]
  {
  }

  lemma NewTableOnce(tables: Tables, mid: Tables, path: seq<nat>, n: nat)
    requires 0 < n <= |path| && Extends(tables, mid, path, n - 1)
    ensures path[..n] in mid <==> path[..n] in tables
  {
    forall k | 0 < k <= n - 1
      ensures path[..n] != path[..k]
    {
      assert |path[..n]| != |path[..k]|;
    }
  }

  lemma ExtendsOneMore(tables: Tables, mid: Tables, named: Tables, path: seq<nat>, n: nat)
    requires 0 < n <= |path| && Extends(tables, mid, path, n - 1)
    requires path[..n] in named && named == mid[path[..n] := named[path[..n]]]
    requires path[..n] in mid ==> named == mid
    ensures Extends(tables, named, path, n) && Keeps(mid, named)
  {
    NewTableOnce(tables, mid, path, n);
  }

  lemma SamePagesCompose(y: System, tables: Tables, z: System, mid: Tables, x: System, named: Tables, root: nat)
    requires Sized(y) && Proper(y.memory, tables, root, y.frames.bits)
    requires Sized(z) && Proper(z.memory, mid, root, z.frames.bits)
    requires Sized(x) && Proper(x.memory, named, root, x.frames.bits)
    requires SamePages(y, tables, z, mid, root) && SamePages(z, mid, x, named, root)
    requires Keeps(mid, named)
    ensures SamePages(y, tables, x, named, root)
  {
    assert mid.Values <= named.Values;
  }

  /** Every page keeps its entry but `path`, whose entry is now frame p over the flags 3. */
  ghost predicate MapsOne(memory: seq<Table>, tables: Tables, after: seq<Table>, named: Tables, path: seq<nat>, p: nat)
    requires forall q :: q in tables ==> tables[q] < |memory|
    requires forall q :: q in named ==> named[q] < |after|
  {
    forall other :: IsPath(other) && |other| == 4 ==>
      Leaf(after, named, other) ==
        if other == path then p % ADDRESSES * 4096 + 3 else Leaf(memory, tables, other)
  }

  /** `MapMemory` is the walk and the entry written at its end. */
  lemma MapIs(y: System, root: nat, path: seq<nat>, p: nat)
    requires Sized(y) && IsPath(path) && |path| == 4 && Descend(y, root, path, 3).1 < |y.memory|
    ensures var (z, f) := Descend(y, root, path, 3);
      && f < |z.memory| && path[3] < ENTRIES
      && Map(y, root, path, p)
         == System(z.frames, LinkedInto(z.memory, f, path[3], Linked(z.memory[f][path[3]], p)))
  {
    hide Descend, LinkedInto, Linked;
  }

  lemma FromFreeFrames(y: System, tables: Tables, z: System, x: System, named: Tables)
    requires FromFree(y, tables, z, named) && x.frames == z.frames
    ensures FromFree(y, tables, x, named)
  {
  }

  /** With enough frames, mapping keeps the tree, adds the missing tables, and sets one entry. */
  lemma MapKeepsTree(y: System, tables: Tables, root: nat, path: seq<nat>, p: nat) returns (named: Tables)
    requires Sized(y) && Proper(y.memory, tables, root, y.frames.bits)
    requires IsPath(path) && |path| == 4
    requires Absent(tables, path, 3) <= FreeCount(y.frames)
    ensures Proper(Map(y, root, path, p).memory, named, root, Map(y, root, path, p).frames.bits)
    ensures path[..3] in named && Extends(tables, named, path, 3)
    ensures FreeCount(Map(y, root, path, p).frames) == FreeCount(y.frames) - Absent(tables, path, 3)
    ensures MapsOne(y.memory, tables, Map(y, root, path, p).memory, named, path, p)
    ensures forall f :: 0 <= f < |y.memory| && f !in named.Values ==> Map(y, root, path, p).memory[f] == y.memory[f]
    ensures FromFree(y, tables, Map(y, root, path, p), named)
  {
    hide *;
    named := DescendKeepsTree(y, tables, root, path, 3);
    var z := Descend(y, root, path, 3).0;
    DescendSized(y, root, path, 3);
    TableInMemory(z, named, root, path[..3]);
    MapIs(y, root, path, p);
    LeafIs(z.memory, named, path);
    SetLeafKeepsTree(z.memory, named, root, z.frames.bits, path, p);
    SetLeafMapsOne(y, tables, z, named, root, path, p);
    FromFreeFrames(y, tables, z, Map(y, root, path, p), named);
  }

  lemma SetLeafMapsOne(y: System, tables: Tables, z: System, named: Tables, root: nat, path: seq<nat>, p: nat)
    requires Sized(y) && Proper(y.memory, tables, root, y.frames.bits)
    requires Sized(z) && Proper(z.memory, named, root, z.frames.bits)
    requires IsPath(path) && |path| == 4 && path[..3] in named && SamePages(y, tables, z, named, root)
    ensures var e := Linked(Leaf(z.memory, named, path), p);
      MapsOne(y.memory, tables, LinkedInto(z.memory, named[path[..3]], path[3], e), named, path, p)
    ensures var e := Linked(Leaf(z.memory, named, path), p);
      forall f :: 0 <= f < |y.memory| && f !in named.Values ==>
        LinkedInto(z.memory, named[path[..3]], path[3], e)[f] == y.memory[f]
  {
    SetLeafKeepsTree(z.memory, named, root, z.frames.bits, path, p);
    forall other | IsPath(other) && |other| == 4
      ensures
        Leaf(LinkedInto(z.memory, named[path[..3]], path[3], Linked(Leaf(z.memory, named, path), p)), named, other) ==
          if other == path then p % ADDRESSES * 4096 + 3 else Leaf(y.memory, tables, other)
    {
      SetLeafChangesOnePage(z.memory, named, root, z.frames.bits, path, p, other);
    }
    assert named[path[..3]] in named.Values;
  }

  lemma SetLeafChangesOnePage(memory: seq<Table>, tables: Tables, root: nat, bits: seq<bool>, path: seq<nat>, p: nat,
                              other: seq<nat>)
    requires Proper(memory, tables, root, bits)
    requires IsPath(path) && |path| == 4 && path[..3] in tables && IsPath(other) && |other| == 4
    ensures
      Leaf(LinkedInto(memory, tables[path[..3]], path[3], Linked(Leaf(memory, tables, path), p)), tables, other) ==
        if other == path then Linked(Leaf(memory, tables, path), p) else Leaf(memory, tables, other)
  {
    SplitPath(path);
    SplitPath(other);
  }

  lemma SplitPath(path: seq<nat>)
    requires |path| == 4
    ensures path == path[..3] + [path[3]]
  {
  }

  // ---- Too few frames: frame 0 becomes a table

  /**
   * `x` is the proper system `z` after entry i of table `f` was linked to frame 0: nothing else differs outside
   * frame 0, which holds no address but 0, and no frame is free.
   */
  ghost predicate NullLinked(z: System, f: nat, i: nat, x: System)
    requires f < |z.memory| && i < ENTRIES
  {
    && Sized(x) && SameSize(z, x) && x.frames.bits == z.frames.bits && x.frames.bits[0] && FreeCount(x.frames) == 0
    && x.memory[f] == z.memory[f][i := 3]
    && (forall g :: 0 < g < |z.memory| && g != f ==> x.memory[g] == z.memory[g])
    && (forall j :: 0 <= j < ENTRIES ==> x.memory[0][j] == 0 || x.memory[0][j] == 3)
  }

  lemma NullEntries()
    ensures Linked(0, 0) == 3 && FlagBit(3, Present) && !FlagBit(0, Present) && AddressOf(3) == 0
  {
    LinkedClean(0, 0);
  }

  lemma FirstNullLink(z: System, tables: Tables, root: nat, q: seq<nat>, i: nat)
    requires Sized(z) && Proper(z.memory, tables, root, z.frames.bits)
    requires q in tables && |q| < 3 && i < ENTRIES && q + [i] !in tables && FreeCount(z.frames) == 0
    ensures NullLinked(z, tables[q], i, Next(z, tables[q], i).0) && Next(z, tables[q], i).1 == 0
  {
    assert EntryFits(z.memory, tables, q, i);
    NullEntries();
    RequestUsesOne(z.frames);
  }

  lemma StayNullLinked(z: System, f: nat, i: nat, x: System, j: nat)
    requires 0 < f < |z.memory| && i < ENTRIES && j < ENTRIES && NullLinked(z, f, i, x)
    ensures NullLinked(z, f, i, Next(x, 0, j).0) && Next(x, 0, j).1 == 0
  {
    NullEntries();
    RequestUsesOne(x.frames);
  }

  lemma {:induction false} DescendStaysNullLinked(y: System, root: nat, path: seq<nat>, k: nat, n: nat,
      z: System, f: nat)
    requires Sized(y) && IsPath(path) && 0 < k <= n <= |path| && 0 < f < |z.memory|
    requires NullLinked(z, f, path[k - 1], Descend(y, root, path, k).0) && Descend(y, root, path, k).1 == 0
    ensures NullLinked(z, f, path[k - 1], Descend(y, root, path, n).0) && Descend(y, root, path, n).1 == 0
    decreases n
  {
    if k < n {
      DescendStaysNullLinked(y, root, path, k, n - 1, z, f);
      StayNullLinked(z, f, path[k - 1], Descend(y, root, path, n - 1).0, path[n - 1]);
    }
  }

  /** The way to a table leads only through tables, so changes to other frames do not affect it. */
  lemma {:induction false} FollowUnchanged(memory: seq<Table>, tables: Tables, root: nat, bits: seq<bool>, q: seq<nat>,
                                           n: nat, i: nat, after: seq<Table>)
    requires Proper(memory, tables, root, bits) && q in tables && n <= |q| && i < ENTRIES && |after| == |memory|
    requires forall g :: 0 < g < |memory| && g != tables[q] ==> after[g] == memory[g]
    ensures q[..n] in tables && Follow(after, root, q[..n]) == Follow(memory, root, q[..n]) == tables[q[..n]]
    ensures n < |q| ==> after[Follow(after, root, q[..n])][q[n]] != 0
  {
    Ancestor(memory, tables, root, bits, q, n);
    if n > 0 {
      FollowUnchanged(memory, tables, root, bits, q, n - 1, i, after);
      Ancestor(memory, tables, root, bits, q, n - 1);
      assert q[..n - 1] != q by { assert |q[..n - 1]| < |q|; }
      assert q[..n][..n - 1] == q[..n - 1];
    }
    if n < |q| {
      NamedStep(memory, tables, root, bits, q, n);
      assert q[..n] != q by { assert |q[..n]| < |q|; }
    }
  }

  lemma NullLinkedIsImproper(z: System, tables: Tables, root: nat, q: seq<nat>, i: nat, after: System)
    requires Sized(z) && Proper(z.memory, tables, root, z.frames.bits) && q in tables && |q| < 3 && i < ENTRIES
    requires |after.memory| == |z.memory| && after.memory[tables[q]] == z.memory[tables[q]][i := 3]
    requires forall g :: 0 < g < |z.memory| && g != tables[q] ==> after.memory[g] == z.memory[g]
    ensures !ProperTree(after.memory, root, after.frames.bits)
  {
    forall n | 0 <= n <= |q|
      ensures Follow(after.memory, root, q[..n]) < |after.memory|
      ensures n < |q| ==> after.memory[Follow(after.memory, root, q[..n])][q[n]] != 0
    {
      FollowUnchanged(z.memory, tables, root, z.frames.bits, q, n, i, after.memory);
      Ancestor(z.memory, tables, root, z.frames.bits, q, n);
    }
    FollowUnchanged(z.memory, tables, root, z.frames.bits, q, |q|, i, after.memory);
    assert q[..|q|] == q;
    NullTableIsImproper(after.memory, root, after.frames.bits, q, i);
  }

  /** The level at which the frames run out. */
  lemma {:induction false} RunsOutAt(tables: Tables, path: seq<nat>, n: nat, free: nat) returns (k: nat)
    requires n <= |path| && Absent(tables, path, n) > free
    ensures 0 < k <= n && path[..k] !in tables && Absent(tables, path, k - 1) == free
  {
    if Absent(tables, path, n - 1) > free {
      k := RunsOutAt(tables, path, n - 1, free);
    } else {
      k := n;
    }
  }

  lemma MapWithoutFrames(y: System, tables: Tables, root: nat, path: seq<nat>, p: nat)
    requires Sized(y) && Proper(y.memory, tables, root, y.frames.bits)
    requires IsPath(path) && |path| == 4 && Absent(tables, path, 3) > FreeCount(y.frames)
    ensures !ProperTree(Map(y, root, path, p).memory, root, Map(y, root, path, p).frames.bits)
  {
    var k := RunsOutAt(tables, path, 3, FreeCount(y.frames));
    var named := DescendKeepsTree(y, tables, root, path, k - 1);
    NewTableOnce(tables, named, path, k);
    MapNullLinked(y, named, root, path, p, k);
  }

  lemma DescendSized(y: System, root: nat, path: seq<nat>, n: nat)
    requires Sized(y) && IsPath(path) && n <= |path|
    ensures Sized(Descend(y, root, path, n).0) && |Descend(y, root, path, n).0.memory| == |y.memory|
    ensures forall i :: 0 <= i < |path| ==> path[i] < ENTRIES
  {
    hide Descend;
  }

  lemma DescendLast(y: System, root: nat, path: seq<nat>, n: nat)
    requires Sized(y) && IsPath(path) && 0 < n <= |path|
    requires Descend(y, root, path, n - 1).1 < |Descend(y, root, path, n - 1).0.memory|
    ensures Descend(y, root, path, n)
         == Next(Descend(y, root, path, n - 1).0, Descend(y, root, path, n - 1).1, path[n - 1])
  {
    hide Next;
  }

  lemma MapNullLinked(y: System, named: Tables, root: nat, path: seq<nat>, p: nat, k: nat)
    requires Sized(y) && IsPath(path) && |path| == 4 && 0 < k <= 3
    requires path[..k - 1] in named && path[..k] !in named
    requires Descend(y, root, path, k - 1).1 == named[path[..k - 1]]
    requires Proper(Descend(y, root, path, k - 1).0.memory, named, root, Descend(y, root, path, k - 1).0.frames.bits)
    requires FreeCount(Descend(y, root, path, k - 1).0.frames) == 0
    ensures !ProperTree(Map(y, root, path, p).memory, root, Map(y, root, path, p).frames.bits)
  {
    hide Proper, Next, Descend, IsPath, ProperTree, Request, FreeCount;
    var (z, f) := Descend(y, root, path, k - 1);
    var q := path[..k - 1];
    DescendSized(y, root, path, k - 1);
    PathStep(path, k);
    TableInMemory(z, named, root, q);
    FirstNullLink(z, named, root, q, path[k - 1]);
    DescendLast(y, root, path, k);
    DescendStaysNullLinked(y, root, path, k, 3, z, f);
    NullLinkedIsImproper(z, named, root, q, path[k - 1], Map(y, root, path, p));
  }

  /** From a proper tree the descent never leaves memory, even when frame 0 becomes a table. */
  lemma DescendInRange(y: System, tables: Tables, root: nat, path: seq<nat>, n: nat)
    requires Sized(y) && Proper(y.memory, tables, root, y.frames.bits) && IsPath(path) && n <= 3 && n <= |path|
    ensures Descend(y, root, path, n).1 < |y.memory|
  {
    hide *;
    DescendSized(y, root, path, n);
    if Absent(tables, path, n) <= FreeCount(y.frames) {
      var named := DescendKeepsTree(y, tables, root, path, n);
      TableInMemory(Descend(y, root, path, n).0, named, root, path[..n]);
    } else {
      var k := RunsOutAt(tables, path, n, FreeCount(y.frames));
      var named := DescendKeepsTree(y, tables, root, path, k - 1);
      var (z, f) := Descend(y, root, path, k - 1);
      DescendSized(y, root, path, k - 1);
      NewTableOnce(tables, named, path, k);
      PathStep(path, k);
      TableInMemory(z, named, root, path[..k - 1]);
      FirstNullLink(z, named, root, path[..k - 1], path[k - 1]);
      DescendLast(y, root, path, k);
      DescendStaysNullLinked(y, root, path, k, n, z, f);
    }
  }

  // ---- The contract of MapMemory

  /** The tables below `root` form a proper tree whose frames are locked. */
  ghost predicate Good(y: System, root: nat) {
    Sized(y) && ProperTree(y.memory, root, y.frames.bits)
  }

  /** Does `MapMemory(v, ...)` find a frame for every table it has to create? */
  ghost predicate Enough(y: System, root: nat, v: nat) {
    Missing(y.memory, root, Path(v), 3) <= FreeCount(y.frames)
  }

  /**
   * Mapping v to the frame p keeps the tables a proper tree if and only if there are as many free frames as the
   * walk finds tables missing.
   */
  lemma MapKeepsTreeExactly(y: System, root: nat, v: nat, p: nat)
    requires Good(y, root)
    ensures Good(Map(y, root, Path(v), p), root) <==> Enough(y, root, v)
    ensures Enough(y, root, v) ==>
      FreeCount(Map(y, root, Path(v), p).frames) == FreeCount(y.frames) - Missing(y.memory, root, Path(v), 3)
  {
    var tables :| Proper(y.memory, tables, root, y.frames.bits);
    MissingIsAbsent(y.memory, tables, root, y.frames.bits, Path(v), 3);
    MapExactly(y, tables, root, Path(v), p);
  }

  lemma MapExactly(y: System, tables: Tables, root: nat, path: seq<nat>, p: nat)
    requires Sized(y) && Proper(y.memory, tables, root, y.frames.bits) && IsPath(path) && |path| == 4
    ensures Good(Map(y, root, path, p), root) <==> Absent(tables, path, 3) <= FreeCount(y.frames)
    ensures Absent(tables, path, 3) <= FreeCount(y.frames) ==>
      FreeCount(Map(y, root, path, p).frames) == FreeCount(y.frames) - Absent(tables, path, 3)
  {
    hide Proper;
    if Absent(tables, path, 3) <= FreeCount(y.frames) {
      var named := MapKeepsTree(y, tables, root, path, p);
    } else {
      MapWithoutFrames(y, tables, root, path, p);
    }
  }

  /**
   * After mapping v to frame p, the page of v translates to the low 40 bits of p, writable, and every page that
   * differs from v in bits 12 to 47 translates exactly as before.
   */
  lemma MapTranslates(y: System, root: nat, v: nat, p: nat, w: nat)
    requires Good(y, root) && Enough(y, root, v)
    ensures Translate(Map(y, root, Path(v), p).memory, root, w) ==
      if PageOf(w) == PageOf(v) then Mapped(p % ADDRESSES, true) else Translate(y.memory, root, w)
  {
    var tables :| Proper(y.memory, tables, root, y.frames.bits);
    MissingIsAbsent(y.memory, tables, root, y.frames.bits, Path(v), 3);
    var named := MapKeepsTree(y, tables, root, Path(v), p);
    EntryDecides(y, tables, Map(y, root, Path(v), p), named, root, v, p, w);
  }

  lemma EntryDecides(y: System, tables: Tables, after: System, named: Tables, root: nat, v: nat, p: nat, w: nat)
    requires Sized(y) && Proper(y.memory, tables, root, y.frames.bits)
    requires Sized(after) && Proper(after.memory, named, root, after.frames.bits)
    requires MapsOne(y.memory, tables, after.memory, named, Path(v), p)
    ensures Translate(after.memory, root, w) ==
      if PageOf(w) == PageOf(v) then Mapped(p % ADDRESSES, true) else Translate(y.memory, root, w)
  {
    TranslateIsLeaf(y.memory, tables, root, y.frames.bits, w);
    TranslateIsLeaf(after.memory, named, root, after.frames.bits, w);
    PathIsPage(v, w);
    LinkedClean(0, p);
    LinkedEntry(0, p);
    hide Proper;
    hide Path;
    assert IsPath(Path(w)) && |Path(w)| == 4;
  }

  /** Mapping writes no frame outside the tables it leaves behind. */
  lemma MapWritesOnlyTables(y: System, root: nat, v: nat, p: nat, f: nat)
    requires Good(y, root) && Enough(y, root, v) && f < |y.memory|
    requires forall q :: Reaches(Map(y, root, Path(v), p).memory, root, q) ==>
      Follow(Map(y, root, Path(v), p).memory, root, q) != f
    ensures Map(y, root, Path(v), p).memory[f] == y.memory[f]
  {
    var tables :| Proper(y.memory, tables, root, y.frames.bits);
    MissingIsAbsent(y.memory, tables, root, y.frames.bits, Path(v), 3);
    var named := MapKeepsTree(y, tables, root, Path(v), p);
    var after := Map(y, root, Path(v), p);
    if f in named.Values {
      var q :| q in named && named[q] == f;
      NamedIsReachable(after.memory, named, root, after.frames.bits, q);
    }
  }
}
