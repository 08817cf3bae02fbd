/** The page tables as a tree of frames, and why the processor's walk sees it as a flat map of pages. */
module PageTree {
  import opened Paging

  /** Which frame holds the table for each index prefix; the empty prefix is the outermost table. */
  type Tables = map<seq<nat>, nat>

  ghost predicate IsTable(q: seq<nat>) {
    |q| < 4 && forall i :: 0 <= i < |q| ==> q[i] < ENTRIES
  }

  /** Every entry is empty, or a frame number over the flags Present and ReadWrite. */
  ghost predicate CleanEntry(e: nat) {
    e == 0 || e == AddressOf(e) * 4096 + 3
  }

  /**
   * `tables` names exactly the tables reachable from `root`: distinct prefixes have distinct frames, each of them
   * is locked in the bitmap and is not frame 0, and an entry is present exactly when its table is named.
   */
  ghost predicate Proper(memory: seq<Table>, tables: Tables, root: nat, bits: seq<bool>) {
    && [] in tables && tables[[]] == root
    && |bits| > 0 && |bits| - 1 <= |memory| && |bits| <= ADDRESSES && bits[0]
    && (forall q :: q in tables ==> IsTable(q) && 0 < tables[q] < |bits| - 1 && bits[tables[q]])
    && (forall q :: q in tables && q != [] ==> q[..|q| - 1] in tables)
    && (forall q, r :: q in tables && r in tables && q != r ==> tables[q] != tables[r])
    && (forall q, i :: q in tables && 0 <= i < ENTRIES ==> EntryFits(memory, tables, q, i))
  }

  ghost predicate EntryFits(memory: seq<Table>, tables: Tables, q: seq<nat>, i: nat)
    requires q in tables && i < ENTRIES && tables[q] < |memory|
  {
    var e := memory[tables[q]][i];
    && CleanEntry(e)
    && (|q| < 3 ==> (e != 0 <==> q + [i] in tables))
    && (|q| < 3 && e != 0 ==> AddressOf(e) == tables[q + [i]])
  }

  /** Some naming of the tables makes the memory below `root` a proper tree. */
  ghost predicate ProperTree(memory: seq<Table>, root: nat, bits: seq<bool>) {
    exists tables :: Proper(memory, tables, root, bits)
  }

  /** The entry that maps `path`; zero while the table it belongs to does not exist. */
  ghost function Leaf(memory: seq<Table>, tables: Tables, path: seq<nat>): nat
    requires |path| == 4 && path[3] < ENTRIES
    requires path[..3] in tables ==> tables[path[..3]] < |memory|
  {
    if path[..3] in tables then memory[tables[path[..3]]][path[3]] else 0
  }

  function Decode(e: nat): Mapping {
    if FlagBit(e, Present) then Mapped(AddressOf(e), FlagBit(e, ReadWrite)) else Fault
  }

  lemma CleanFlags(e: nat)
    requires CleanEntry(e)
    ensures FlagBit(e, Present) <==> e != 0
    ensures FlagBit(e, ReadWrite) <==> e != 0
    ensures !FlagBit(e, LargerPages)
  {
    if e != 0 {
      var a := AddressOf(e);
      assert e / 2 == a * 2048 + 1;
      assert e / 0x80 == a * 32;
    }
  }

  lemma NoOrphans(memory: seq<Table>, tables: Tables, root: nat, bits: seq<bool>, q: seq<nat>, j: nat)
    requires Proper(memory, tables, root, bits) && q !in tables
    ensures q + [j] !in tables
  {
    assert (q + [j])[..|q + [j]| - 1] == q;
  }

  lemma AbsentBelow(memory: seq<Table>, tables: Tables, root: nat, bits: seq<bool>, path: seq<nat>, n: nat)
    requires Proper(memory, tables, root, bits) && |path| == 4 && n <= 3 && path[..n] !in tables
    ensures path[..3] !in tables
    decreases 3 - n
  {
    if n < 3 {
      NoOrphans(memory, tables, root, bits, path[..n], path[n]);
      assert path[..n] + [path[n]] == path[..n + 1];
      AbsentBelow(memory, tables, root, bits, path, n + 1);
    }
  }

  lemma {:induction false} WalkFrom(memory: seq<Table>, tables: Tables, root: nat, bits: seq<bool>, path: seq<nat>,
                                    k: nat)
    requires Proper(memory, tables, root, bits)
    requires IsPath(path) && |path| == 4 && k < 4 && path[..k] in tables
    ensures Walk(memory, tables[path[..k]], path[k..]) == Decode(Leaf(memory, tables, path))
    decreases 4 - k
  {
    var q, i := path[..k], path[k];
    var e := memory[tables[q]][i];
    assert EntryFits(memory, tables, q, i);
    CleanFlags(e);
    assert path[k..][0] == i && path[k..][1..] == path[k + 1..];
    if k < 3 {
      assert path[..k + 1] == q + [i];
      if e == 0 {
        AbsentBelow(memory, tables, root, bits, path, k + 1);
      } else {
        WalkFrom(memory, tables, root, bits, path, k + 1);
      }
    }
  }

  /** In a proper tree, the four-level walk is one lookup in a flat map from pages to entries. */
  lemma TranslateIsLeaf(memory: seq<Table>, tables: Tables, root: nat, bits: seq<bool>, v: nat)
    requires Proper(memory, tables, root, bits)
    ensures Translate(memory, root, v) == Decode(Leaf(memory, tables, Path(v)))
  {
    var path := Path(v);
    assert path[..0] == [] && path[0..] == path;
    WalkFrom(memory, tables, root, bits, path, 0);
  }

  // ---- Growing the tree

  function LinkedInto(memory: seq<Table>, frame: nat, i: nat, e: nat): seq<Table>
    requires frame < |memory| && i < ENTRIES
  {
    memory[frame := memory[frame][i := e]]
  }

  /** Memory after frame `spare` is cleared and entry i of table q is linked to it. */
  function Grown(memory: seq<Table>, frame: nat, i: nat, spare: nat): seq<Table>
    requires frame < |memory| && spare < |memory| && i < ENTRIES
  {
    LinkedInto(memory[spare := ZeroTable()], frame, i, Linked(memory[frame][i], spare))
  }

  lemma NamedChild(tables: Tables, q: seq<nat>, i: nat, spare: nat, r: seq<nat>, j: nat)
    ensures r + [j] in tables[q + [i] := spare] <==> r + [j] in tables || (r == q && j == i)
  {
    if r + [j] == q + [i] {
      assert (r + [j])[..|r|] == r && (q + [i])[..|q|] == q;
      assert (r + [j])[|r|] == j;
    }
  }

  /** An entry that keeps its value, its table and its child still fits. */
  lemma SameEntryFits(memory: seq<Table>, tables: Tables, after: seq<Table>, named: Tables, r: seq<nat>, j: nat)
    requires r in tables && r in named && named[r] == tables[r] && j < ENTRIES
    requires tables[r] < |memory| && tables[r] < |after| && after[tables[r]][j] == memory[tables[r]][j]
    requires EntryFits(memory, tables, r, j)
    requires r + [j] in named <==> r + [j] in tables
    requires r + [j] in tables ==> named[r + [j]] == tables[r + [j]]
    ensures EntryFits(after, named, r, j)
  {
  }

  /** The entries of the new table are empty. */
  lemma GrownNewEntry(memory: seq<Table>, tables: Tables, root: nat, bits: seq<bool>, q: seq<nat>, i: nat, spare: nat,
                      j: nat)
    requires Proper(memory, tables, root, bits)
    requires q in tables && |q| < 3 && i < ENTRIES && q + [i] !in tables && j < ENTRIES
    requires spare < |bits| - 1 && !bits[spare]
    ensures EntryFits(Grown(memory, tables[q], i, spare), tables[q + [i] := spare], q + [i], j)
  {
    hide Linked;
    NamedChild(tables, q, i, spare, q + [i], j);
    NoOrphans(memory, tables, root, bits, q + [i], j);
    assert tables[q] != spare;
    assert Grown(memory, tables[q], i, spare)[spare][j] == 0;
  }

  /** The entry above it leads there. */
  lemma GrownHere(memory: seq<Table>, tables: Tables, root: nat, bits: seq<bool>, q: seq<nat>, i: nat, spare: nat)
    requires Proper(memory, tables, root, bits)
    requires q in tables && |q| < 3 && i < ENTRIES && q + [i] !in tables
    requires spare < |bits| - 1 && !bits[spare]
    ensures EntryFits(Grown(memory, tables[q], i, spare), tables[q + [i] := spare], q, i)
  {
    hide Linked;
    assert EntryFits(memory, tables, q, i);
    LinkedClean(0, spare);
    assert (q + [i])[..|q|] == q;
    assert Grown(memory, tables[q], i, spare)[tables[q]][i] == spare * 4096 + 3;
  }

  lemma GrownEntry(memory: seq<Table>, tables: Tables, root: nat, bits: seq<bool>, q: seq<nat>, i: nat, spare: nat,
                   r: seq<nat>, j: nat)
    requires Proper(memory, tables, root, bits)
    requires q in tables && |q| < 3 && i < ENTRIES && q + [i] !in tables
    requires spare < |bits| - 1 && !bits[spare]
    requires r in tables[q + [i] := spare] && j < ENTRIES
    ensures EntryFits(Grown(memory, tables[q], i, spare), tables[q + [i] := spare], r, j)
  {
    var after, named := Grown(memory, tables[q], i, spare), tables[q + [i] := spare];
    hide Linked, CleanEntry;
    NamedChild(tables, q, i, spare, r, j);
    assert tables[q] != spare;
    if r == q + [i] {
      GrownNewEntry(memory, tables, root, bits, q, i, spare, j);
    } else if r == q && j == i {
      GrownHere(memory, tables, root, bits, q, i, spare);
    } else {
      assert EntryFits(memory, tables, r, j) && tables[r] != spare;
      SameEntryFits(memory, tables, after, named, r, j);
    }
  }

  /** A free frame linked into an empty entry extends the tree by one table. */
  lemma GrowKeepsTree(memory: seq<Table>, tables: Tables, root: nat, bits: seq<bool>, q: seq<nat>, i: nat, spare: nat)
    requires Proper(memory, tables, root, bits)
    requires q in tables && |q| < 3 && i < ENTRIES && q + [i] !in tables
    requires spare < |bits| - 1 && !bits[spare]
    ensures Proper(Grown(memory, tables[q], i, spare), tables[q + [i] := spare], root, bits[spare := true])
  {
    var after := Grown(memory, tables[q], i, spare);
    var named := tables[q + [i] := spare];
    forall r, j | r in named && 0 <= j < ENTRIES
      ensures EntryFits(after, named, r, j)
    {
      GrownEntry(memory, tables, root, bits, q, i, spare, r, j);
    }
    hide EntryFits;
    assert (q + [i])[..|q|] == q;
  }

  lemma GrowMovesNoPage(memory: seq<Table>, tables: Tables, root: nat, bits: seq<bool>, q: seq<nat>, i: nat, spare: nat,
                        path: seq<nat>)
    requires Proper(memory, tables, root, bits)
    requires q in tables && |q| < 3 && i < ENTRIES && q + [i] !in tables
    requires spare < |bits| - 1 && !bits[spare] && IsPath(path) && |path| == 4
    ensures Leaf(Grown(memory, tables[q], i, spare), tables[q + [i] := spare], path) == Leaf(memory, tables, path)
  {
    hide *;
    var r := path[..3];
    PathEnds(path);
    TablesApart(memory, tables, root, bits, q, spare);
    GrownTables(memory, tables[q], i, spare, spare);
    if r in tables {
      TablesApart(memory, tables, root, bits, r, spare);
    }
    LeafIs(memory, tables, path);
    LeafIs(Grown(memory, tables[q], i, spare), tables[q + [i] := spare], path);
    assert |r| == 3 && r != q;
    if r != q + [i] && r in tables {
      TwoTables(memory, tables, root, bits, r, q);
      GrownTables(memory, tables[q], i, spare, tables[r]);
    }
  }

  lemma PathEnds(path: seq<nat>)
    requires IsPath(path) && |path| == 4
    ensures path[3] < ENTRIES
  {
  }

  lemma LeafIs(memory: seq<Table>, tables: Tables, path: seq<nat>)
    requires |path| == 4 && path[3] < ENTRIES
    requires path[..3] in tables ==> tables[path[..3]] < |memory|
    ensures path[..3] in tables ==> Leaf(memory, tables, path) == memory[tables[path[..3]]][path[3]]
    ensures path[..3] !in tables ==> Leaf(memory, tables, path) == 0
  {
  }

  /** Clearing one frame and linking it into a table changes no other table. */
  lemma GrownTables(memory: seq<Table>, frame: nat, i: nat, spare: nat, g: nat)
    requires frame < |memory| && spare < |memory| && frame != spare && i < ENTRIES && g < |memory| && g != frame
    ensures |Grown(memory, frame, i, spare)| == |memory|
    ensures g == spare ==> forall j :: 0 <= j < ENTRIES ==> Grown(memory, frame, i, spare)[g][j] == 0
    ensures g != spare ==> Grown(memory, frame, i, spare)[g] == memory[g]
  {
    hide Linked;
  }

  lemma TablesApart(memory: seq<Table>, tables: Tables, root: nat, bits: seq<bool>, q: seq<nat>, spare: nat)
    requires Proper(memory, tables, root, bits) && q in tables && spare < |bits| - 1 && !bits[spare]
    ensures tables[q] != spare && tables[q] < |memory| && spare < |memory|
  {
  }

  lemma TwoTables(memory: seq<Table>, tables: Tables, root: nat, bits: seq<bool>, q: seq<nat>, r: seq<nat>)
    requires Proper(memory, tables, root, bits) && q in tables && r in tables && q != r
    ensures tables[q] != tables[r]
  {
  }

  lemma LinkedIsClean(e: nat, p: nat)
    requires CleanEntry(e)
    ensures Linked(e, p) == p % ADDRESSES * 4096 + 3 && CleanEntry(Linked(e, p))
  {
    hide Linked, FlagBit;
    LinkedEntry(e, p);
    LinkedClean(e, p);
  }

  /** Writing the entry of an existing innermost table keeps the tree and changes one page. */
  lemma SetLeafKeepsTree(memory: seq<Table>, tables: Tables, root: nat, bits: seq<bool>, path: seq<nat>, p: nat)
    requires Proper(memory, tables, root, bits)
    requires IsPath(path) && |path| == 4 && path[..3] in tables
    ensures Proper(LinkedInto(memory, tables[path[..3]], path[3], Linked(Leaf(memory, tables, path), p)),
                   tables, root, bits)
    ensures Linked(Leaf(memory, tables, path), p) == p % ADDRESSES * 4096 + 3
  {
    var q, i := path[..3], path[3];
    var e := memory[tables[q]][i];
    assert EntryFits(memory, tables, q, i);
    LinkedIsClean(e, p);
    var after := LinkedInto(memory, tables[q], i, Linked(e, p));
    forall r, j | r in tables && 0 <= j < ENTRIES
      ensures EntryFits(after, tables, r, j)
    {
      assert EntryFits(memory, tables, r, j);
      if r != q || j != i {
        SameEntryFits(memory, tables, after, tables, r, j);
      }
    }
  }

  // ---- Running out of frames

  /** The frame reached by following `q` from `root`. */
  ghost function Follow(memory: seq<Table>, root: nat, q: seq<nat>): nat
    requires IsPath(q)
  {
    if q == [] then root
    else
      var n := |q| - 1;
      var f := Follow(memory, root, q[..n]);
      if f < |memory| then AddressOf(memory[f][q[n]]) else 0
  }

  lemma {:induction false} FollowIsTable(memory: seq<Table>, tables: Tables, root: nat, bits: seq<bool>, q: seq<nat>)
    requires Proper(memory, tables, root, bits) && q in tables
    ensures Follow(memory, root, q) == tables[q]
  {
    if q != [] {
      var n := |q| - 1;
      FollowIsTable(memory, tables, root, bits, q[..n]);
      assert EntryFits(memory, tables, q[..n], q[n]);
      assert q[..n] + [q[n]] == q;
    }
  }

  /** `q` is the prefix of a table that exists: every entry on the way to it is present. */
  ghost predicate Reaches(memory: seq<Table>, root: nat, q: seq<nat>) {
    IsTable(q) &&
    (forall n :: 0 <= n <= |q| ==> Follow(memory, root, q[..n]) < |memory|) &&
    (forall n :: 0 <= n < |q| ==> memory[Follow(memory, root, q[..n])][q[n]] != 0)
  }

  lemma {:induction false} ReachableIsNamed(memory: seq<Table>, tables: Tables, root: nat, bits: seq<bool>, q: seq<nat>,
                                            n: nat)
    requires Proper(memory, tables, root, bits) && Reaches(memory, root, q) && n <= |q|
    ensures q[..n] in tables
  {
    if n > 0 {
      ReachableIsNamed(memory, tables, root, bits, q, n - 1);
      FollowIsTable(memory, tables, root, bits, q[..n - 1]);
      assert EntryFits(memory, tables, q[..n - 1], q[n - 1]);
      assert q[..n - 1] + [q[n - 1]] == q[..n];
    }
  }

  lemma Ancestor(memory: seq<Table>, tables: Tables, root: nat, bits: seq<bool>, q: seq<nat>, n: nat)
    requires Proper(memory, tables, root, bits) && q in tables && n <= |q|
    ensures q[..n] in tables && Follow(memory, root, q[..n]) == tables[q[..n]] < |memory|
    decreases |q| - n
  {
    if n < |q| {
      Ancestor(memory, tables, root, bits, q, n + 1);
      assert q[..n + 1][..n] == q[..n];
    } else {
      assert q[..n] == q;
    }
    FollowIsTable(memory, tables, root, bits, q[..n]);
  }

  lemma NamedStep(memory: seq<Table>, tables: Tables, root: nat, bits: seq<bool>, q: seq<nat>, n: nat)
    requires Proper(memory, tables, root, bits) && q in tables && n < |q|
    ensures Follow(memory, root, q[..n]) < |memory| && memory[Follow(memory, root, q[..n])][q[n]] != 0
  {
    Ancestor(memory, tables, root, bits, q, n);
    Ancestor(memory, tables, root, bits, q, n + 1);
    assert q[..n] + [q[n]] == q[..n + 1];
    assert EntryFits(memory, tables, q[..n], q[n]);
  }

  lemma NamedReaches(memory: seq<Table>, tables: Tables, root: nat, bits: seq<bool>, q: seq<nat>)
    requires Proper(memory, tables, root, bits) && q in tables
    ensures Reaches(memory, root, q)
  {
    forall n | 0 <= n <= |q|
      ensures Follow(memory, root, q[..n]) < |memory|
    {
      Ancestor(memory, tables, root, bits, q, n);
    }
    forall n | 0 <= n < |q|
      ensures memory[Follow(memory, root, q[..n])][q[n]] != 0
    {
      NamedStep(memory, tables, root, bits, q, n);
    }
  }

  /** In a proper tree the named tables are exactly the reachable ones. */
  lemma NamedIsReachable(memory: seq<Table>, tables: Tables, root: nat, bits: seq<bool>, q: seq<nat>)
    requires Proper(memory, tables, root, bits)
    ensures q in tables <==> Reaches(memory, root, q)
    ensures q in tables ==> Follow(memory, root, q) == tables[q]
  {
    hide Proper;
    hide Reaches;
    if q in tables {
      NamedReaches(memory, tables, root, bits, q);
      FollowIsTable(memory, tables, root, bits, q);
    }
    if Reaches(memory, root, q) {
      ReachableIsNamed(memory, tables, root, bits, q, |q|);
      assert q[..|q|] == q;
    }
  }

  lemma NoNullLink(memory: seq<Table>, tables: Tables, root: nat, bits: seq<bool>, q: seq<nat>, i: nat)
    requires Proper(memory, tables, root, bits) && Reaches(memory, root, q) && |q| < 3 && i < ENTRIES
    ensures Follow(memory, root, q) < |memory| && memory[Follow(memory, root, q)][i] != 3
  {
    NamedIsReachable(memory, tables, root, bits, q);
    assert EntryFits(memory, tables, q, i);
  }

  /** A reachable table entry that links frame 0 rules out every naming of the tables. */
  lemma NullTableIsImproper(memory: seq<Table>, root: nat, bits: seq<bool>, q: seq<nat>, i: nat)
    requires Reaches(memory, root, q) && |q| < 3 && i < ENTRIES
    requires Follow(memory, root, q) < |memory| && memory[Follow(memory, root, q)][i] == 3
    ensures !ProperTree(memory, root, bits)
  {
    forall tables | Proper(memory, tables, root, bits)
      ensures false
    {
      NoNullLink(memory, tables, root, bits, q, i);
    }
  }
}
