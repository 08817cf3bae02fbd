/** What canonical paths are: stacks of components, joined by separators (vfs.cpp). */
module Paths {
  import opened CStrings

  const SEPARATOR: char := '/'
  const SEPARATORS: string := "/"
  const UP: string := ".."
  const DOT: string := "."

  /** One component applied to the stack. */
  function Push(stack: seq<string>, t: string): seq<string> {
    if t == UP then if stack == [] then [] else stack[..|stack| - 1]
    else if t == DOT then stack
    else stack + [t]
  }

  function Resolve(stack: seq<string>, tokens: seq<string>): seq<string>
    decreases |tokens|
  {
    if tokens == [] then stack else Resolve(Push(stack, tokens[0]), tokens[1..])
  }

  predicate Relative(input: string) {
    input != "" && input[0] != SEPARATOR
  }

  /** The components that a path names; those of the working directory are taken as they are. */
  function Stack(cwd: string, input: string): seq<string> {
    Resolve(if Relative(input) then Tokens(cwd, SEPARATORS) else [], Tokens(input, SEPARATORS))
  }

  function Joined(stack: seq<string>): string {
    if stack == [] then "" else [SEPARATOR] + stack[0] + Joined(stack[1..])
  }

  function Render(stack: seq<string>): string {
    if stack == [] then SEPARATORS else Joined(stack)
  }

  function Canonical(cwd: string, input: string): string {
    Render(Stack(cwd, input))
  }

  predicate Components(stack: seq<string>) {
    forall i | 0 <= i < |stack| :: IsRun(stack[i], SEPARATORS)
  }

  predicate IsDots(t: string) {
    t == UP || t == DOT
  }

  predicate Plain(stack: seq<string>) {
    forall i | 0 <= i < |stack| :: !IsDots(stack[i])
  }

  // ---- Folding

  lemma {:induction false} ResolveAppend(stack: seq<string>, a: seq<string>, b: seq<string>)
    ensures Resolve(stack, a + b) == Resolve(Resolve(stack, a), b)
    decreases |a|
  {
    if a == [] {
      assert a + b == b;
    } else {
      assert (a + b)[1..] == a[1..] + b;
      ResolveAppend(Push(stack, a[0]), a[1..], b);
    }
  }

  lemma {:induction false} ResolveKeepsComponents(stack: seq<string>, tokens: seq<string>)
    requires Components(stack) && Components(tokens)
    ensures Components(Resolve(stack, tokens))
    ensures Plain(stack) ==> Plain(Resolve(stack, tokens))
    decreases |tokens|
  {
    if tokens != [] {
      ResolveKeepsComponents(Push(stack, tokens[0]), tokens[1..]);
    }
  }

  /** Components without dots are only pushed; with dots some are not. */
  lemma {:induction false} ResolvePlain(stack: seq<string>, tokens: seq<string>)
    ensures Plain(tokens) ==> Resolve(stack, tokens) == stack + tokens
    ensures |Resolve(stack, tokens)| <= |stack| + |tokens|
    ensures !Plain(tokens) ==> |Resolve(stack, tokens)| < |stack| + |tokens|
    decreases |tokens|
  {
    if tokens != [] {
      ResolvePlain(Push(stack, tokens[0]), tokens[1..]);
      if Plain(tokens) {
        assert !IsDots(tokens[0]);
      }
    }
  }

  /** Below `depth` components the tokens never go up further than where they started. */
  predicate StaysBelow(tokens: seq<string>, depth: nat)
    decreases |tokens|
  {
    tokens == [] ||
    if tokens[0] == UP then depth > 0 && StaysBelow(tokens[1..], depth - 1)
    else StaysBelow(tokens[1..], if tokens[0] == DOT then depth else depth + 1)
  }

  /** Then they do to a stack what they do to an empty one above it. */
  lemma {:induction false} ResolveBelow(stack: seq<string>, above: seq<string>, tokens: seq<string>)
    requires StaysBelow(tokens, |above|)
    ensures Resolve(stack + above, tokens) == stack + Resolve(above, tokens)
    decreases |tokens|
  {
    if tokens != [] {
      assert Push(stack + above, tokens[0]) == stack + Push(above, tokens[0]);
      ResolveBelow(stack, Push(above, tokens[0]), tokens[1..]);
    }
  }

  /** Otherwise they take a component away, and none that they do not name can come back. */
  lemma {:induction false} ResolveClimbs(bottom: string, above: seq<string>, tokens: seq<string>)
    requires !StaysBelow(tokens, |above|) && bottom !in above && bottom !in tokens
    ensures bottom !in Resolve([bottom] + above, tokens)
    decreases |tokens|
  {
    if tokens[0] == UP && above == [] {
      assert Push([bottom] + above, tokens[0]) == [];
      ResolveNames([], tokens[1..], bottom);
    } else {
      assert Push([bottom] + above, tokens[0]) == [bottom] + Push(above, tokens[0]);
      ResolveClimbs(bottom, Push(above, tokens[0]), tokens[1..]);
    }
  }

  lemma {:induction false} ResolveNames(stack: seq<string>, tokens: seq<string>, name: string)
    requires name !in stack && name !in tokens
    ensures name !in Resolve(stack, tokens)
    decreases |tokens|
  {
    if tokens != [] {
      ResolveNames(Push(stack, tokens[0]), tokens[1..], name);
    }
  }

  /** A name longer than all of these. */
  function NewName(names: seq<string>): (name: string)
    ensures name != ""
  {
    if names == [] then "x" else NewName(names[1..]) + names[0]
  }

  lemma {:induction false} NewNameIsNew(names: seq<string>)
    ensures forall i | 0 <= i < |names| :: |names[i]| < |NewName(names)|
    ensures NewName(names) !in names
    decreases |names|
  {
    if names != [] {
      NewNameIsNew(names[1..]);
      forall i | 0 <= i < |names|
        ensures |names[i]| < |NewName(names)|
      {
        if i > 0 {
          assert names[i] == names[1..][i - 1];
        }
      }
    }
  }

  lemma StackIsComponents(cwd: string, input: string)
    ensures Components(Stack(cwd, input))
  {
    TokensAreRuns(cwd, SEPARATORS);
    TokensAreRuns(input, SEPARATORS);
    ResolveKeepsComponents(if Relative(input) then Tokens(cwd, SEPARATORS) else [], Tokens(input, SEPARATORS));
  }

  // ---- Splitting undoes joining

  lemma {:induction false} SpanOfRun(t: string, s: string)
    requires IsRun(t, SEPARATORS) && (s == "" || s[0] == SEPARATOR)
    ensures Span(t + s, SEPARATORS, false) == |t| && Span(t + s, SEPARATORS, true) == 0
  {
    SpanIs(t + s, SEPARATORS, false, |t|);
  }

  /** A component in front of a separator, or of nothing, is a token. */
  lemma TokensOfRun(t: string, s: string)
    requires IsRun(t, SEPARATORS) && (s == "" || s[0] == SEPARATOR)
    ensures Tokens(t + s, SEPARATORS) == [t] + Tokens(s, SEPARATORS)
  {
    hide *;
    SpanOfRun(t, s);
    RunIsNotEmpty(t);
    assert (t + s)[0..] == t + s;
    TokensSome(t + s, SEPARATORS, 0, |t|);
    assert (t + s)[0..|t|] == t && (t + s)[|t|..] == s;
  }

  lemma RunIsNotEmpty(t: string)
    requires IsRun(t, SEPARATORS)
    ensures t != ""
  {
  }

  lemma JoinedUnfolds(stack: seq<string>)
    requires Components(stack)
    ensures stack == [] ==> Joined(stack) == ""
    ensures stack != [] ==>
      Joined(stack) == [SEPARATOR] + stack[0] + Joined(stack[1..]) && Joined(stack)[0] == SEPARATOR
    ensures stack != [] ==> IsRun(stack[0], SEPARATORS) && Components(stack[1..])
  {
    hide IsRun;
  }

  lemma SeparatorIsDelimiter()
    ensures SEPARATOR in SEPARATORS
  {
  }

  lemma {:induction false} TokensOfJoined(stack: seq<string>)
    requires Components(stack)
    ensures Tokens(Joined(stack), SEPARATORS) == stack
    decreases |stack|
  {
    hide *;
    JoinedUnfolds(stack);
    if stack == [] {
      NoTokens();
    } else {
      var rest := Joined(stack[1..]);
      JoinedUnfolds(stack[1..]);
      TokensOfJoined(stack[1..]);
      TokensOfRun(stack[0], rest);
      SeparatorInFront(stack[0] + rest);
      assert [SEPARATOR] + (stack[0] + rest) == [SEPARATOR] + stack[0] + rest;
    }
  }

  lemma NoTokens()
    ensures Tokens("", SEPARATORS) == []
  {
    TokensNone("", SEPARATORS);
  }

  lemma SeparatorInFront(s: string)
    ensures Tokens([SEPARATOR] + s, SEPARATORS) == Tokens(s, SEPARATORS)
  {
    SeparatorIsDelimiter();
    hide *;
    assert ([SEPARATOR] + s)[1..] == s;
    TokensSkip([SEPARATOR] + s, SEPARATORS);
  }

  /** Splitting a canonical path gives back the components it was joined from. */
  lemma SplitUndoesJoin(cwd: string, input: string)
    ensures Tokens(Canonical(cwd, input), SEPARATORS) == Stack(cwd, input)
  {
    StackIsComponents(cwd, input);
    TokensOfRender(Stack(cwd, input));
  }

  lemma TokensOfRender(stack: seq<string>)
    requires Components(stack)
    ensures Tokens(Render(stack), SEPARATORS) == stack
  {
    if stack == [] {
      SpanIs(SEPARATORS, SEPARATORS, true, 1);
      TokensNone(SEPARATORS, SEPARATORS);
    } else {
      TokensOfJoined(stack);
    }
  }

  /** Rendering is injective. */
  lemma RenderInjective(a: seq<string>, b: seq<string>)
    requires Components(a) && Components(b) && Render(a) == Render(b)
    ensures a == b
  {
    TokensOfRender(a);
    TokensOfRender(b);
  }

  // ---- Canonical paths

  /** A canonical path is absolute, whatever it came from. */
  lemma CanonicalIsAbsolute(cwd: string, input: string)
    ensures Canonical(cwd, input) != "" && Canonical(cwd, input)[0] == '/' && !Relative(Canonical(cwd, input))
  {
    hide Stack;
  }

  /** Canonicalising again folds the same components once more. */
  lemma CanonicalAgain(cwd: string, input: string, other: string)
    ensures Stack(other, Canonical(cwd, input)) == Resolve([], Stack(cwd, input))
  {
    CanonicalIsAbsolute(cwd, input);
    SplitUndoesJoin(cwd, input);
    hide Canonical, Resolve, Tokens;
  }

  /**
   * Canonicalisation is idempotent exactly on results without dots, and these come only from a working directory that
   * has some.
   */
  lemma IdempotentExactly(cwd: string, input: string, other: string)
    ensures Canonical(other, Canonical(cwd, input)) == Canonical(cwd, input) <==> Plain(Stack(cwd, input))
  {
    var s := Stack(cwd, input);
    CanonicalAgain(cwd, input, other);
    StackIsComponents(cwd, input);
    ResolvePlain([], s);
    ResolveKeepsComponents([], s);
    assert [] + s == s;
    if Canonical(other, Canonical(cwd, input)) == Canonical(cwd, input) {
      RenderInjective(Resolve([], s), s);
    }
    hide Stack, Resolve, Render;
  }

  /** All paths canonicalise idempotently from a working directory without dots. */
  lemma PlainFromPlain(cwd: string, input: string)
    requires Plain(Tokens(cwd, SEPARATORS)) || !Relative(input)
    ensures Plain(Stack(cwd, input))
  {
    TokensAreRuns(cwd, SEPARATORS);
    TokensAreRuns(input, SEPARATORS);
    ResolveKeepsComponents(if Relative(input) then Tokens(cwd, SEPARATORS) else [], Tokens(input, SEPARATORS));
  }

  /** From any other, even a plain name does not. */
  lemma DotsFromDots(cwd: string)
    requires !Plain(Tokens(cwd, SEPARATORS))
    ensures !Plain(Stack(cwd, "x"))
  {
    SpanIs("x", SEPARATORS, false, 1);
    SpanIs("x", SEPARATORS, true, 0);
    assert "x"[0..] == "x" && "x"[0..1] == "x" && "x"[1..] == "";
    TokensSome("x", SEPARATORS, 0, 1);
    TokensNone("", SEPARATORS);
    assert Tokens("x", SEPARATORS) == ["x"];
    assert ["x"][1..] == [];
    assert Stack(cwd, "x") == Tokens(cwd, SEPARATORS) + ["x"];
    var i: nat :| i < |Tokens(cwd, SEPARATORS)| && IsDots(Tokens(cwd, SEPARATORS)[i]);
    assert Stack(cwd, "x")[i] == Tokens(cwd, SEPARATORS)[i];
  }

  // ---- Composition

  /** The tokens of two paths one after the other. */
  lemma {:induction false} TokensConcat(a: string, b: string)
    ensures Tokens(a + [SEPARATOR] + b, SEPARATORS) == Tokens(a, SEPARATORS) + Tokens(b, SEPARATORS)
    decreases |a|
  {
    hide *;
    if a == "" {
      NoTokens();
      assert a + [SEPARATOR] + b == [SEPARATOR] + b;
      SeparatorInFront(b);
    } else if a[0] == SEPARATOR {
      assert a == [SEPARATOR] + a[1..];
      assert a + [SEPARATOR] + b == [SEPARATOR] + (a[1..] + [SEPARATOR] + b);
      SeparatorInFront(a[1..]);
      SeparatorInFront(a[1..] + [SEPARATOR] + b);
      TokensConcat(a[1..], b);
    } else {
      var n := Span(a, SEPARATORS, false);
      RunInFront(a, b, n);
      TokensConcat(a[n..], b);
    }
  }

  lemma LeadingRun(a: string, n: nat)
    requires a != "" && a[0] != SEPARATOR && n == Span(a, SEPARATORS, false)
    ensures 0 < n <= |a| && IsRun(a[..n], SEPARATORS) && (a[n..] == "" || a[n..][0] == SEPARATOR)
  {
    SpanMeans(a, SEPARATORS, false);
    assert forall i | 0 <= i < n :: a[..n][i] == a[i];
    assert a[n..] == "" || a[n..][0] == a[n];
  }

  lemma RunInFront(a: string, b: string, n: nat)
    requires a != "" && a[0] != SEPARATOR && n == Span(a, SEPARATORS, false)
    ensures 0 < n <= |a|
    ensures Tokens(a, SEPARATORS) == [a[..n]] + Tokens(a[n..], SEPARATORS)
    ensures Tokens(a + [SEPARATOR] + b, SEPARATORS) == [a[..n]] + Tokens(a[n..] + [SEPARATOR] + b, SEPARATORS)
  {
    hide *;
    LeadingRun(a, n);
    TokensOfRun(a[..n], a[n..]);
    StartsWithSeparator(a[n..], b);
    TokensOfRun(a[..n], a[n..] + [SEPARATOR] + b);
    assert a[..n] + a[n..] == a;
    assert a[..n] + (a[n..] + [SEPARATOR] + b) == a + [SEPARATOR] + b;
  }

  lemma StartsWithSeparator(s: string, b: string)
    requires s == "" || s[0] == SEPARATOR
    ensures (s + [SEPARATOR] + b)[0] == SEPARATOR
  {
  }

  lemma ToName(t: string)
    requires t != "" && forall i | 0 <= i < |t| :: t[i] != '/'
    ensures IsRun(t, SEPARATORS)
  {
  }

  lemma ResolveNext(stack: seq<string>, t: string, tokens: seq<string>)
    ensures Resolve(stack, [t] + tokens) == Resolve(Push(stack, t), tokens)
    ensures Resolve(stack, []) == stack
  {
    assert ([t] + tokens)[1..] == tokens;
  }

  /** A name is what has no slash; it goes down, a dot stays, and two dots go up again, at the root nowhere. */
  lemma NamesAndDots(cwd: string, a: string, t: string)
    requires a != "" && a[0] == '/' && t != "" && forall i | 0 <= i < |t| :: t[i] != '/'
    ensures var stack := Stack(cwd, a);
      Stack(cwd, a + "/" + t) ==
        if t == "." then stack
        else if t != ".." then stack + [t]
        else if stack == [] then [] else stack[..|stack| - 1]
  {
    ToName(t);
    TokensConcat(a, t);
    TokensOfRun(t, "");
    NoTokens();
    assert t + "" == t && [t] + [] == [t];
    assert (a + "/" + t)[0] == a[0];
    ResolveAppend([], Tokens(a, SEPARATORS), [t]);
    ResolveNext(Stack(cwd, a), t, []);
    hide Tokens, Resolve;
  }

  /** Going to `a` and then to `b` is going to `a/b`. */
  lemma PathsCompose(cwd: string, a: string, b: string)
    requires a != "" && Relative(b)
    ensures Canonical(Canonical(cwd, a), b) == Canonical(cwd, a + [SEPARATOR] + b)
  {
    var whole := a + [SEPARATOR] + b;
    SplitUndoesJoin(cwd, a);
    TokensConcat(a, b);
    assert whole[0] == a[0];
    ResolveAppend(if Relative(a) then Tokens(cwd, SEPARATORS) else [], Tokens(a, SEPARATORS), Tokens(b, SEPARATORS));
    hide Tokens, Resolve, Render;
  }
}
