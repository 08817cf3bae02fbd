/** `kopen` of vfs.cpp: a canonical path, cut in place, and looked up component by component. */
module KernelOpens {
  import opened CStrings
  import opened Paths
  import opened Canonicalizers

  /** The fields of `fs_node_t` that lookups read; `finddir` tells whether the driver has one. */
  datatype FsNode = FsNode(directory: bool, finddir: bool, inode: nat)

  /** What the drivers' `finddir` functions return. */
  type Driver = (FsNode, string) -> Option<FsNode>

  /** `finddir_fs` */
  function FindDir(driver: Driver, node: FsNode, name: string): Option<FsNode> {
    if node.directory && node.finddir then driver(node, name) else None
  }

  /** Lookup of components one after the other; the empty path is the node itself. */
  function Walk(driver: Driver, node: FsNode, names: seq<string>): Option<FsNode>
    decreases |names|
  {
    if names == [] then Some(node)
    else
      match FindDir(driver, node, names[0])
      case None => None
      case Some(next) => Walk(driver, next, names[1..])
  }

  /** Lookup fails exactly when some step on the way does. */
  lemma {:induction false} WalkFailsExactly(driver: Driver, node: FsNode, names: seq<string>)
    ensures Walk(driver, node, names).None?
       <==> exists k | 0 <= k < |names| ::
              Walk(driver, node, names[..k]).Some?
              && FindDir(driver, Walk(driver, node, names[..k]).value, names[k]).None?
    decreases |names|
  {
    if Walk(driver, node, names).None? {
      var k := FirstFailure(driver, node, names);
    } else {
      forall k | 0 <= k < |names|
        ensures !(Walk(driver, node, names[..k]).Some?
                  && FindDir(driver, Walk(driver, node, names[..k]).value, names[k]).None?)
      {
        PrefixesSucceed(driver, node, names, k + 1);
        WalkOneMore(driver, node, names, k);
      }
    }
  }

  /** One more step. */
  function Then(driver: Driver, r: Option<FsNode>, name: string): Option<FsNode> {
    if r.None? then None else FindDir(driver, r.value, name)
  }

  lemma {:induction false} WalkOneMore(driver: Driver, node: FsNode, names: seq<string>, k: nat)
    requires k < |names|
    ensures Walk(driver, node, names[..k + 1]) == Then(driver, Walk(driver, node, names[..k]), names[k])
    decreases k
  {
    if k == 0 {
      assert names[..1][1..] == [];
    } else {
      assert names[..k + 1][1..] == names[1..][..k] && names[..k][1..] == names[1..][..k - 1];
      var next := FindDir(driver, node, names[0]);
      if next.Some? {
        WalkOneMore(driver, next.value, names[1..], k - 1);
      }
    }
  }

  lemma {:induction false} PrefixesSucceed(driver: Driver, node: FsNode, names: seq<string>, k: nat)
    requires k <= |names| && Walk(driver, node, names).Some?
    ensures Walk(driver, node, names[..k]).Some?
    decreases |names| - k
  {
    if k == |names| {
      assert names[..k] == names;
    } else {
      PrefixesSucceed(driver, node, names, k + 1);
      WalkOneMore(driver, node, names, k);
    }
  }

  lemma {:induction false} FirstFailure(driver: Driver, node: FsNode, names: seq<string>) returns (k: nat)
    requires Walk(driver, node, names).None?
    ensures k < |names| && Walk(driver, node, names[..k]).Some?
    ensures FindDir(driver, Walk(driver, node, names[..k]).value, names[k]).None?
    decreases |names|
  {
    k := |names| - 1;
    assert names[..k + 1] == names;
    WalkOneMore(driver, node, names, k);
    if Walk(driver, node, names[..k]).None? {
      var j := FirstFailure(driver, node, names[..k]);
      assert names[..k][..j] == names[..j];
      k := j;
    }
  }

  /** Opening a path below an opened one is opening the longer path. */
  lemma {:induction false} WalkAppend(driver: Driver, node: FsNode, a: seq<string>, b: seq<string>)
    ensures Walk(driver, node, a + b)
         == match Walk(driver, node, a) case None => None case Some(next) => Walk(driver, next, b)
    decreases |a|
  {
    if a == [] {
      assert a + b == b;
    } else {
      assert (a + b)[1..] == a[1..] + b;
      var next := FindDir(driver, node, a[0]);
      if next.Some? {
        WalkAppend(driver, next.value, a[1..], b);
      }
    }
  }

  /** A node that is no directory, or whose driver has no lookup, has nothing below it; others ask the driver. */
  lemma OnlyDirectoriesHaveEntries(driver: Driver, root: FsNode, a: seq<string>, name: string, b: seq<string>)
    requires Walk(driver, root, a).Some?
    ensures var node := Walk(driver, root, a).value;
      && (!node.directory || !node.finddir ==> Walk(driver, root, a + [name] + b) == None)
      && (node.directory && node.finddir ==> Walk(driver, root, a + [name]) == driver(node, name))
  {
    assert a + [name] + b == a + ([name] + b);
    assert ([name] + b)[0] == name && [name][1..] == [];
    WalkAppend(driver, root, a, [name] + b);
    WalkAppend(driver, root, a, [name]);
  }

  /** Opening `a/b`, for `b` that never goes up further than where it started, looks `b` up below what `a` opens. */
  lemma OpenBelow(driver: Driver, root: FsNode, a: string, b: string)
    requires a != "" && StaysBelow(Tokens(b, SEPARATORS), 0)
    ensures Walk(driver, root, Stack(SEPARATORS, a + [SEPARATOR] + b))
         == match Walk(driver, root, Stack(SEPARATORS, a))
            case None => None
            case Some(node) => Walk(driver, node, Resolve([], Tokens(b, SEPARATORS)))
  {
    var whole := a + [SEPARATOR] + b;
    TokensConcat(a, b);
    assert whole[0] == a[0];
    var start := if Relative(a) then Tokens(SEPARATORS, SEPARATORS) else [];
    ResolveAppend(start, Tokens(a, SEPARATORS), Tokens(b, SEPARATORS));
    ResolveBelow(Stack(SEPARATORS, a), [], Tokens(b, SEPARATORS));
    assert Stack(SEPARATORS, a) + [] == Stack(SEPARATORS, a);
    WalkAppend(driver, root, Stack(SEPARATORS, a), Resolve([], Tokens(b, SEPARATORS)));
    hide Tokens, Resolve, Walk;
  }

  ghost predicate LooksBelow(driver: Driver, root: FsNode, stack: seq<string>, tokens: seq<string>) {
    Walk(driver, root, Resolve(stack, tokens))
    == match Walk(driver, root, stack) case None => None case Some(node) => Walk(driver, node, Resolve([], tokens))
  }

  /** For all drivers and starting points that is so exactly for such components: `..` is resolved without a lookup. */
  lemma OpenBelowExactly(tokens: seq<string>)
    ensures StaysBelow(tokens, 0) <==>
      forall driver: Driver, root: FsNode, stack: seq<string> :: LooksBelow(driver, root, stack, tokens)
  {
    hide Resolve, StaysBelow;
    if StaysBelow(tokens, 0) {
      forall driver: Driver, root: FsNode, stack: seq<string>
        ensures LooksBelow(driver, root, stack, tokens)
      {
        ResolveBelow(stack, [], tokens);
        assert stack + [] == stack;
        WalkAppend(driver, root, stack, Resolve([], tokens));
      }
    } else {
      var name := NewName(tokens);
      NewNameIsNew(tokens);
      ResolveClimbs(name, [], tokens);
      var node := FsNode(true, true, 0);
      var driver: Driver := (n, s) => if s == name then None else Some(node);
      assert [name] + [] == [name];
      WalkFinds(driver, node, name, Resolve([name], tokens));
      assert Walk(driver, node, [name]).None?;
      assert !LooksBelow(driver, node, [name], tokens);
    }
  }

  lemma {:induction false} WalkFinds(driver: Driver, node: FsNode, name: string, names: seq<string>)
    requires name !in names && node.directory && node.finddir
    requires forall s: string :: s != name ==> driver(node, s) == Some(node)
    ensures Walk(driver, node, names) == Some(node)
    decreases |names|
  {
    if names != [] {
      WalkFinds(driver, node, name, names[1..]);
    }
  }

  // ---- Cutting

  function CutChar(c: char): char {
    if c == SEPARATOR then NUL else c
  }

  function Cut(s: string): (t: string)
    ensures |t| == |s|
  {
    if s == "" then "" else [CutChar(s[0])] + Cut(s[1..])
  }

  function Separators(s: string): nat {
    if s == "" then 0 else (if s[0] == SEPARATOR then 1 else 0) + Separators(s[1..])
  }

  lemma {:induction false} CutConcat(a: string, b: string)
    ensures Cut(a + b) == Cut(a) + Cut(b) && Separators(a + b) == Separators(a) + Separators(b)
  {
    if a == "" {
      assert a + b == b;
    } else {
      assert (a + b)[1..] == a[1..] + b;
      CutConcat(a[1..], b);
    }
  }

  lemma {:induction false} CutRun(t: string)
    requires SEPARATOR !in t
    ensures Cut(t) == t && Separators(t) == 0
  {
    if t != "" {
      CutRun(t[1..]);
    }
  }

  /** A joined path that was cut: every component behind a NUL. */
  lemma {:induction false} CutJoined(stack: seq<string>)
    requires Components(stack)
    ensures Separators(Joined(stack)) == |stack|
    ensures stack != [] ==> Cut(Joined(stack)) == [NUL] + stack[0] + Cut(Joined(stack[1..]))
    decreases |stack|
  {
    if stack != [] {
      CutJoined(stack[1..]);
      RunHasNoSeparator(stack[0]);
      CutRun(stack[0]);
      CutConcat(stack[0], Joined(stack[1..]));
      OneSeparator(stack[0] + Joined(stack[1..]));
      assert Joined(stack) == [SEPARATOR] + (stack[0] + Joined(stack[1..]));
      hide Cut, Separators, IsRun;
    }
  }

  lemma OneSeparator(s: string)
    ensures Cut([SEPARATOR] + s) == [NUL] + Cut(s) && Separators([SEPARATOR] + s) == 1 + Separators(s)
  {
    assert ([SEPARATOR] + s)[1..] == s;
  }

  lemma RunHasNoSeparator(t: string)
    requires IsRun(t, SEPARATORS)
    ensures SEPARATOR !in t && t != ""
  {
    assert SEPARATOR in SEPARATORS;
  }

  /** The in-place cut. */
  method CutPath(path: array<char>, path_len: nat) returns (path_depth: nat)
    requires path_len <= path.Length
    modifies path
    ensures path[..] == Cut(old(path[..path_len])) + old(path[path_len..])
    ensures path_depth == Separators(old(path[..path_len]))
  {
    hide *;
    path_depth := 0;
    var path_offset := 0;
    ghost var s := path[..path_len];
    CutNothing(path[..], path_len);
    while path_offset < path_len
      invariant path_offset <= path_len && path[path_offset..] == old(path[path_offset..])
      invariant path[..path_offset] == Cut(s[..path_offset])
      invariant path_depth == Separators(s[..path_offset])
    {
      CutOne(s, path_offset);
      assert path[path_offset] == path[path_offset..][0] == old(path[path_offset..])[0];
      if path[path_offset] == SEPARATOR {
        path[path_offset] := NUL;
        path_depth := path_depth + 1;
      }
      path_offset := path_offset + 1;
    }
    assert s[..path_len] == s;
  }

  lemma CutNothing(s: string, n: nat)
    requires n <= |s|
    ensures Cut(s[..n][..0]) == "" && Separators(s[..n][..0]) == 0
  {
  }

  lemma CutOne(s: string, k: nat)
    requires k < |s|
    ensures Cut(s[..k + 1]) == Cut(s[..k]) + [if s[k] == SEPARATOR then NUL else s[k]]
    ensures Separators(s[..k + 1]) == Separators(s[..k]) + if s[k] == SEPARATOR then 1 else 0
  {
    assert s[..k + 1] == s[..k] + [s[k]];
    CutConcat(s[..k], [s[k]]);
    assert [s[k]][1..] == "";
  }

  // ---- Opening

  /** In the cut path the next component starts behind a NUL and ends at one. */
  lemma NextComponent(s: seq<char>, offset: nat, stack: seq<string>)
    requires Components(stack) && stack != [] && offset < |s| && NUL !in stack[0]
    requires s[offset..] == Cut(Joined(stack)) + [NUL]
    ensures offset + |stack[0]| + 1 < |s| && Terminated(s, offset + 1) && Str(s, offset + 1) == stack[0]
    ensures s[offset + 1 + |stack[0]|..] == Cut(Joined(stack[1..])) + [NUL]
  {
    hide *;
    CutJoined(stack);
    RestOf(stack);
    StartsWithNul(stack[1..]);
    Slices(s, offset, stack[0], Cut(Joined(stack[1..])) + [NUL]);
  }

  lemma RestOf(stack: seq<string>)
    requires Components(stack) && stack != []
    ensures Components(stack[1..])
  {
    hide IsRun;
  }

  lemma Slices(s: seq<char>, offset: nat, t: string, rest: string)
    requires offset < |s| && s[offset..] == [NUL] + t + rest && rest != "" && rest[0] == NUL && NUL !in t
    ensures offset + |t| + 1 < |s| && Terminated(s, offset + 1) && Str(s, offset + 1) == t
    ensures s[offset + 1 + |t|..] == rest
  {
    var n := |t|;
    assert s[offset + 1..offset + 1 + n] == s[offset..][1..n + 1] == t;
    assert s[offset + 1 + n..] == s[offset..][n + 1..] == rest;
    assert s[offset + 1 + n] == rest[0];
    StrEnds(s, offset + 1, n);
  }

  lemma StartsWithNul(stack: seq<string>)
    requires Components(stack)
    ensures (Cut(Joined(stack)) + [NUL])[0] == NUL
  {
    CutJoined(stack);
  }

  /** The name at `i`, which drivers read through a pointer. */
  method NameAt(path: array<char>, i: nat) returns (name: string)
    requires Terminated(path[..], i)
    ensures name == Str(path[..], i)
  {
    var len := StrLen(path, i);
    StrIs(path[..], i);
    name := path[i..i + len];
  }

  lemma WalkFirst(driver: Driver, node: FsNode, names: seq<string>)
    requires names != []
    ensures FindDir(driver, node, names[0]).None? ==> Walk(driver, node, names) == None
    ensures FindDir(driver, node, names[0]).Some? ==>
      Walk(driver, node, names) == Walk(driver, FindDir(driver, node, names[0]).value, names[1..])
  {
  }

  lemma WalkNowhere(driver: Driver, node: FsNode)
    ensures Walk(driver, node, []) == Some(node)
  {
  }

  ghost predicate Named(stack: seq<string>) {
    Components(stack) && Lacks(stack, NUL)
  }

  lemma NamedFrom(stack: seq<string>, k: nat)
    requires Named(stack) && k < |stack|
    ensures Named(stack[k..]) && Components(stack[k..]) && NUL !in stack[k..][0]
  {
  }

  /** The search of `kopen` through a path that was cut. */
  method Search(driver: Driver, mount: FsNode, path: array<char>, path_depth: nat, ghost stack: seq<string>)
    returns (r: Option<FsNode>)
    requires Named(stack) && stack != [] && path_depth == |stack|
    requires path[..] == Cut(Joined(stack)) + [NUL]
    ensures r == Walk(driver, mount, stack)
  {
    hide *;
    var node_ptr := mount;
    var path_offset := 1;
    var depth := 0;
    assert stack[0..] == stack && path[..][0..] == path[..];
    while depth < path_depth
      invariant 0 <= depth < path_depth && 0 < path_offset <= path.Length
      invariant Walk(driver, mount, stack) == Walk(driver, node_ptr, stack[depth..])
      invariant path[..][path_offset - 1..] == Cut(Joined(stack[depth..])) + [NUL]
      decreases path_depth - depth
    {
      ghost var names := stack[depth..];
      NamedFrom(stack, depth);
      NextComponent(path[..], path_offset - 1, names);
      WalkFirst(driver, node_ptr, names);
      var name := NameAt(path, path_offset);
      var node_next := FindDir(driver, node_ptr, name);
      if node_next.None? {
        return None;
      }
      node_ptr := node_next.value;
      assert names[1..] == stack[depth + 1..];
      if depth == path_depth - 1 {
        assert names[1..] == [];
        WalkNowhere(driver, node_ptr);
        return Some(node_ptr);
      }
      path_offset := path_offset + |name| + 1;
      depth := depth + 1;
    }
    assert false;
    return None;
  }

  lemma OpenFacts(filename: string)
    requires NUL !in filename
    ensures Named(Stack(SEPARATORS, filename)) && NUL !in SEPARATORS
    ensures |Canonical(SEPARATORS, filename)| == 1 <==> Stack(SEPARATORS, filename) == []
    ensures Stack(SEPARATORS, filename) != [] ==>
      Canonical(SEPARATORS, filename) == Joined(Stack(SEPARATORS, filename))
    ensures Separators(Joined(Stack(SEPARATORS, filename))) == |Stack(SEPARATORS, filename)|
  {
    StackIsComponents(SEPARATORS, filename);
    StackLacks(SEPARATORS, filename);
    CutJoined(Stack(SEPARATORS, filename));
    JoinedIsLong(Stack(SEPARATORS, filename));
    hide Stack, Joined;
  }

  lemma JoinedIsLong(stack: seq<string>)
    requires Components(stack)
    ensures |Render(stack)| == 1 <==> stack == []
  {
    if stack != [] {
      RunHasNoSeparator(stack[0]);
    }
  }

  /**
   * `kopen` looks up the components of the canonical path one after the other from the root: nothing exactly when some
   * step finds nothing, and a copy of the root for the path that names it.
   */
  method KernelOpen(driver: Driver, fs_root: Option<FsNode>, filename: Option<array<char>>) returns (r: Option<FsNode>)
    requires filename.Some? ==> Terminated(filename.value[..], 0)
    ensures fs_root.None? || filename.None? ==> r == None
    ensures fs_root.Some? && filename.Some? ==>
      r == Walk(driver, fs_root.value, Stack(SEPARATORS, Str(filename.value[..], 0)))
  {
    hide *;
    if fs_root.None? || filename.None? {
      return None;
    }
    r := OpenFrom(driver, fs_root.value, filename.value);
  }

  /** ... once there are a file system and a name. */
  method OpenFrom(driver: Driver, root: FsNode, filename: array<char>) returns (r: Option<FsNode>)
    requires Terminated(filename[..], 0)
    ensures r == Walk(driver, root, Stack(SEPARATORS, Str(filename[..], 0)))
  {
    hide *;
    ghost var name := Str(filename[..], 0);
    ghost var stack := Stack(SEPARATORS, name);
    OpenFacts(name);
    WalkNowhere(driver, root);
    var cwd := RootDirectory();
    TextIs(cwd, SEPARATORS);
    var path := CanonicalizePath(cwd, filename);
    TextIs(path, Canonical(SEPARATORS, name));
    var path_len := StrLen(path, 0);
    if path_len == 1 {
      return Some(root);
    }
    TextParts(path, Canonical(SEPARATORS, name));
    var path_depth := CutPath(path, path_len);
    path[path_len] := NUL;
    assert path[..] == Cut(Joined(stack)) + [NUL];
    r := Search(driver, root, path, path_depth, stack);
  }

  method RootDirectory() returns (cwd: array<char>)
    ensures fresh(cwd) && IsText(cwd, SEPARATORS)
  {
    cwd := new char[2];
    cwd[0], cwd[1] := SEPARATOR, NUL;
    assert cwd[..] == SEPARATORS + [NUL];
  }

  lemma TextParts(a: array<char>, s: string)
    requires IsText(a, s)
    ensures a.Length == |s| + 1 && a[..|s|] == s && a[|s|..] == [NUL]
  {
    assert a[..|s|] == a[..][..|s|] && a[|s|..] == a[..][|s|..];
  }
}
