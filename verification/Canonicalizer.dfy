/** `canonicalize_path` of vfs.cpp. */
module Canonicalizers {
  import opened CStrings
  import opened Lists
  import opened Paths

  /** The buffer holds exactly the string and its NUL. */
  ghost predicate IsText(a: array<char>, s: string)
    reads a
  {
    a[..] == s + [NUL] && NUL !in s
  }

  lemma TextIs(a: array<char>, s: string)
    requires IsText(a, s)
    ensures Terminated(a[..], 0) && Str(a[..], 0) == s && a.Length == |s| + 1
  {
    assert a[..][|s|] == NUL;
    assert a[..][0..0 + |s|] == s;
    StrEnds(a[..], 0, |s|);
  }

  /** A fresh copy of a string: `malloc` and `memcpy`. */
  method CopyText(src: array<char>, i: nat) returns (path: array<char>)
    requires Terminated(src[..], i)
    ensures fresh(path) && IsText(path, Str(src[..], i))
  {
    var len := StrLen(src, i);
    StrIs(src[..], i);
    path := new char[len + 1];
    MemCpy(path, 0, src[i..i + len + 1]);
    assert src[i..i + len + 1] == Str(src[..], i) + [NUL];
  }

  /** A copy of a token; nothing writes to it, so it is a value from here on. */
  method TokenText(src: array<char>, i: nat) returns (s: string)
    requires Terminated(src[..], i)
    ensures s == Str(src[..], i)
  {
    var path := CopyText(src, i);
    s := path[..path.Length - 1];
  }

  /** The components of the working directory, pushed one after the other. */
  method PushAll(cwd: array<char>, out: LinkedList<string>)
    requires Terminated(cwd[..], 0) && out.Valid() && out.values == []
    modifies out, out.nodes
    ensures out.Valid() && out.values == Tokens(Str(cwd[..], 0), SEPARATORS)
    ensures fresh(set n | n in out.nodes && n !in old(out.nodes))
  {
    hide *;
    ghost var all := Tokens(Str(cwd[..], 0), SEPARATORS);
    var path := CopyText(cwd, 0);
    TextIs(path, Str(cwd[..], 0));
    var pch: Option<nat>, save: nat := StrTokR(path, Some(0), SEPARATORS, 0);
    while pch.Some?
      invariant out.Valid() && fresh(set n | n in out.nodes && n !in old(out.nodes))
      invariant save < path.Length && Terminated(path[..], save) && (pch.Some? ==> Terminated(path[..], pch.value))
      invariant out.values + Pending(path[..], pch, save, SEPARATORS) == all
      decreases |Pending(path[..], pch, save, SEPARATORS)|
    {
      PendingIs(path[..], pch, save, SEPARATORS);
      var s := TokenText(path, pch.value);
      out.Insert(s);
      pch, save := StrTokR(path, None, SEPARATORS, save);
    }
    PendingIs(path[..], pch, save, SEPARATORS);
  }

  /** The components of the new path, with `..` popping and `.` ignored. */
  method ResolveAll(input: array<char>, out: LinkedList<string>)
    requires Terminated(input[..], 0) && out.Valid()
    modifies out, out.nodes
    ensures out.Valid() && out.values == Resolve(old(out.values), Tokens(Str(input[..], 0), SEPARATORS))
    ensures fresh(set n | n in out.nodes && n !in old(out.nodes))
  {
    hide *;
    ghost var all := Resolve(out.values, Tokens(Str(input[..], 0), SEPARATORS));
    var path := CopyText(input, 0);
    TextIs(path, Str(input[..], 0));
    var pch: Option<nat>, save: nat := StrTokR(path, Some(0), SEPARATORS, 0);
    while pch.Some?
      invariant out.Valid() && fresh(set n | n in out.nodes && n !in old(out.nodes))
      invariant save < path.Length && Terminated(path[..], save) && (pch.Some? ==> Terminated(path[..], pch.value))
      invariant Resolve(out.values, Pending(path[..], pch, save, SEPARATORS)) == all
      decreases |Pending(path[..], pch, save, SEPARATORS)|
    {
      PendingIs(path[..], pch, save, SEPARATORS);
      ResolveFirst(out.values, Str(path[..], pch.value), Tokens(Str(path[..], save), SEPARATORS));
      ResolveOne(out, path, pch.value);
      pch, save := StrTokR(path, None, SEPARATORS, save);
    }
    PendingIs(path[..], pch, save, SEPARATORS);
    ResolveNone(out.values);
  }

  lemma ResolveFirst(stack: seq<string>, t: string, rest: seq<string>)
    ensures Resolve(stack, [t] + rest) == Resolve(Push(stack, t), rest)
  {
    assert ([t] + rest)[1..] == rest;
    hide Push;
  }

  lemma ResolveNone(stack: seq<string>)
    ensures Resolve(stack, []) == stack
  {
  }

  /** One component. */
  method ResolveOne(out: LinkedList<string>, path: array<char>, pch: nat)
    requires out.Valid() && Terminated(path[..], pch)
    modifies out, out.nodes
    ensures out.Valid() && out.values == Push(old(out.values), Str(path[..], pch))
    ensures fresh(set n | n in out.nodes && n !in old(out.nodes))
  {
    var up := StrCmp(path, pch, UP);
    var dot := StrCmp(path, pch, DOT);
    if up == 0 {
      var n := out.Pop();
    } else if dot == 0 {
    } else {
      var s := TokenText(path, pch);
      out.Insert(s);
    }
  }

  /** The bytes that joining takes, without the NUL. */
  method JoinedSize(out: LinkedList<string>) returns (size: nat)
    requires out.Valid()
    ensures size == |Joined(out.values)|
  {
    hide *;
    size := 0;
    var item := out.head;
    ghost var k := 0;
    ListEnds(out, 0);
    JoinedEnd(out.values);
    while item != null
      invariant k <= |out.nodes| == |out.values| && item == NodeAt(out.nodes, k)
      invariant size + |Joined(out.values[k..])| == |Joined(out.values)|
      decreases |out.nodes| - k
    {
      ListEnds(out, k);
      NodeFacts(out, k);
      JoinedNext(out.values, k);
      size := size + |item.value| + 1;
      item := item.next;
      k := k + 1;
    }
    ListEnds(out, k);
  }

  /** One component behind its separator, with a NUL that the next separator overwrites. */
  method JoinOne(output: array<char>, offset: nat, value: string) returns (next: nat)
    requires offset + |value| + 2 <= output.Length
    modifies output
    ensures next == offset + |value| + 1 && output[next] == NUL
    ensures output[..next] == old(output[..offset]) + [SEPARATOR] + value
  {
    output[offset] := SEPARATOR;
    MemCpy(output, offset + 1, value + [NUL]);
    next := offset + 1 + |value|;
    assert output[..next] == output[..][..next];
    assert output[next] == output[..][next];
  }

  lemma JoinedNext(values: seq<string>, k: nat)
    requires k < |values|
    ensures Joined(values[k..]) == [SEPARATOR] + values[k] + Joined(values[k + 1..])
  {
    assert values[k..][1..] == values[k + 1..];
  }

  lemma JoinedEnd(values: seq<string>)
    ensures Joined(values[|values|..]) == "" && Joined(values[0..]) == Joined(values)
  {
    assert values[0..] == values;
  }

  lemma JoinedPrefix(done: string, values: seq<string>, k: nat, whole: string)
    requires k < |values| && done + Joined(values[k..]) == whole
    ensures |done| + 1 + |values[k]| + |Joined(values[k + 1..])| == |whole|
    ensures done + [SEPARATOR] + values[k] + Joined(values[k + 1..]) == whole
  {
    JoinedNext(values, k);
    hide Joined;
  }

  /** The node at a position of a list, and what is behind it. */
  lemma NodeFacts(out: LinkedList<string>, k: nat)
    requires out.Valid() && k < |out.nodes|
    ensures |out.values| == |out.nodes| && out.nodes[k].value == out.values[k]
    ensures out.nodes[k].next == NodeAt(out.nodes, k + 1) && NodeAt(out.nodes, k) == out.nodes[k]
  {
    assert out.LinkedAt(out.nodes, k, out.values[k]);
  }

  lemma ListEnds(out: LinkedList<string>, k: nat)
    requires out.Valid() && k <= |out.nodes|
    ensures |out.values| == |out.nodes| && out.head == NodeAt(out.nodes, 0)
    ensures NodeAt(out.nodes, k) == null <==> k == |out.nodes|
  {
  }

  /** The joining loop, which fills the buffer exactly. */
  method Join(out: LinkedList<string>, output: array<char>)
    requires out.Valid() && out.values != [] && output.Length == |Joined(out.values)| + 1
    modifies output
    ensures output[..] == Joined(out.values) + [NUL]
  {
    hide *;
    ghost var whole, k := Joined(out.values), 0;
    assert output.Length == |whole| + 1;
    var output_offset := 0;
    var item := out.head;
    ListEnds(out, 0);
    JoinedEnd(out.values);
    while item != null
      invariant out.Valid() && k <= |out.nodes| == |out.values| && item == NodeAt(out.nodes, k)
      invariant 0 <= output_offset <= |whole| && output[..output_offset] + Joined(out.values[k..]) == whole
      invariant k > 0 ==> output[output_offset] == NUL
      decreases |out.nodes| - k
    {
      ListEnds(out, k);
      NodeFacts(out, k);
      JoinedPrefix(output[..output_offset], out.values, k, whole);
      output_offset := JoinOne(output, output_offset, item.value);
      item := item.next;
      k := k + 1;
    }
    ListEnds(out, k);
  }

  // ---- No NUL comes in between

  predicate Lacks(stack: seq<string>, c: char) {
    forall i | 0 <= i < |stack| :: c !in stack[i]
  }

  lemma {:induction false} TokensLack(s: string, c: char)
    requires c !in s
    ensures Lacks(Tokens(s, SEPARATORS), c)
    decreases |s|
  {
    hide Tokens, Span;
    var k := Span(s, SEPARATORS, true);
    if k == |s| {
      TokensNone(s, SEPARATORS);
    } else {
      var n := Span(s[k..], SEPARATORS, false);
      TokensSome(s, SEPARATORS, k, n);
      TokensLack(s[k + n..], c);
    }
  }

  lemma {:induction false} ResolveLacks(stack: seq<string>, tokens: seq<string>, c: char)
    requires Lacks(stack, c) && Lacks(tokens, c)
    ensures Lacks(Resolve(stack, tokens), c)
    decreases |tokens|
  {
    if tokens != [] {
      ResolveLacks(Push(stack, tokens[0]), tokens[1..], c);
    }
  }

  lemma {:induction false} JoinedLacks(stack: seq<string>, c: char)
    requires Lacks(stack, c) && c != SEPARATOR
    ensures c !in Joined(stack)
    decreases |stack|
  {
    if stack != [] {
      JoinedLacks(stack[1..], c);
    }
  }

  lemma CanonicalIs(cwd: string, input: string)
    requires NUL !in cwd && NUL !in input
    ensures NUL !in Canonical(cwd, input)
    ensures Canonical(cwd, input) == if Stack(cwd, input) == [] then [SEPARATOR] else Joined(Stack(cwd, input))
    ensures |Joined(Stack(cwd, input))| == 0 <==> Stack(cwd, input) == []
  {
    StackLacks(cwd, input);
    JoinedLacks(Stack(cwd, input), NUL);
    hide Tokens, Resolve;
  }

  lemma StackLacks(cwd: string, input: string)
    requires NUL !in cwd && NUL !in input
    ensures Lacks(Stack(cwd, input), NUL)
  {
    TokensLack(cwd, NUL);
    TokensLack(input, NUL);
    ResolveLacks(if Relative(input) then Tokens(cwd, SEPARATORS) else [], Tokens(input, SEPARATORS), NUL);
    hide Tokens, Resolve;
  }

  lemma StackIs(cwd: string, input: string)
    ensures Stack(cwd, input)
         == Resolve(if input != "" && input[0] != SEPARATOR then Tokens(cwd, SEPARATORS) else [],
                     Tokens(input, SEPARATORS))
  {
    hide Tokens, Resolve;
  }

  lemma IsTextOf(a: array<char>, s: string)
    requires a[..] == s + [NUL] && NUL !in s
    ensures IsText(a, s)
  {
  }

  /** The components that the two arguments name, on a list used as a stack. */
  method BuildStack(cwd: array<char>, input: array<char>) returns (out: LinkedList<string>)
    requires Terminated(cwd[..], 0) && Terminated(input[..], 0)
    ensures out.Valid() && out.values == Stack(Str(cwd[..], 0), Str(input[..], 0))
  {
    hide *;
    StrAt(input, 0);
    ghost var s := Str(input[..], 0);
    assert s != "" ==> input[0 + 0] == s[0];
    out := new LinkedList();
    var len := StrLen(input, 0);
    if len != 0 && input[0] != SEPARATOR {
      PushAll(cwd, out);
    }
    ResolveAll(input, out);
    StackIs(Str(cwd[..], 0), s);
  }

  /** `canonicalize_path`: the components folded over a stack, joined in a buffer of exactly their size. */
  method CanonicalizePath(cwd: array<char>, input: array<char>) returns (output: array<char>)
    requires Terminated(cwd[..], 0) && Terminated(input[..], 0)
    ensures fresh(output) && IsText(output, Canonical(Str(cwd[..], 0), Str(input[..], 0)))
  {
    hide *;
    var out := BuildStack(cwd, input);
    CanonicalIs(Str(cwd[..], 0), Str(input[..], 0));
    var size := JoinedSize(out);
    output := new char[size + 1];
    if size == 0 {
      output := new char[2];
      output[0] := SEPARATOR;
      output[1] := NUL;
      assert output[..] == [SEPARATOR] + [NUL];
    } else {
      Join(out, output);
    }
    IsTextOf(output, Canonical(Str(cwd[..], 0), Str(input[..], 0)));
  }
}
