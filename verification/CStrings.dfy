/**
 * The string functions of string.cpp on NUL-terminated buffers. A pointer into a buffer is an index, and a null pointer
 * is `None`.
 */
module CStrings {
  datatype Option<T> = None | Some(value: T)

  const NUL: char := '\0'

  /** A string starts at `i`: some NUL follows. */
  ghost predicate Terminated(s: seq<char>, i: nat) {
    exists j: nat :: i <= j < |s| && s[j] == NUL
  }

  /** The string that starts at `i`. */
  function Str(s: seq<char>, i: nat): (r: string)
    ensures NUL !in r
    decreases |s| - i
  {
    if i < |s| && s[i] != NUL then [s[i]] + Str(s, i + 1) else []
  }

  /** How many characters at the start of `s` are in `set`, or are not. */
  function Span(s: string, chars: string, inside: bool): (n: nat)
    ensures n <= |s|
  {
    if s != [] && (s[0] in chars) == inside then 1 + Span(s[1..], chars, inside) else 0
  }

  // ---- Facts about strings in buffers

  /** A terminated string fills the buffer up to its NUL. */
  lemma {:induction false} StrIs(s: seq<char>, i: nat)
    requires Terminated(s, i)
    ensures i + |Str(s, i)| < |s| && s[i + |Str(s, i)|] == NUL && s[i..i + |Str(s, i)|] == Str(s, i)
    decreases |s| - i
  {
    if s[i] != NUL {
      StrIs(s, i + 1);
      assert s[i..i + |Str(s, i)|] == [s[i]] + s[i + 1..i + |Str(s, i)|];
    }
  }

  lemma {:induction false} StrEnds(s: seq<char>, i: nat, n: nat)
    requires i + n < |s| && s[i + n] == NUL && NUL !in s[i..i + n]
    ensures Str(s, i) == s[i..i + n]
    decreases n
  {
    if n > 0 {
      assert s[i] == s[i..i + n][0] && s[i + 1..i + n] == s[i..i + n][1..];
      StrEnds(s, i + 1, n - 1);
      assert s[i..i + n] == [s[i]] + s[i + 1..i + n];
    }
  }

  /** The rest of a string. */
  lemma {:induction false} StrDrop(s: seq<char>, i: nat, k: nat)
    requires k <= |Str(s, i)|
    ensures Str(s, i + k) == Str(s, i)[k..]
    decreases k
  {
    if k > 0 {
      StrDrop(s, i + 1, k - 1);
    }
  }

  lemma TerminatedDrop(s: seq<char>, i: nat, k: nat)
    requires Terminated(s, i) && k <= |Str(s, i)|
    ensures Terminated(s, i + k)
  {
    StrIs(s, i);
  }

  lemma {:induction false} SpanMeans(s: string, chars: string, inside: bool)
    ensures forall k | 0 <= k < Span(s, chars, inside) :: (s[k] in chars) == inside
    ensures Span(s, chars, inside) < |s| ==> (s[Span(s, chars, inside)] in chars) != inside
  {
    if s != [] && (s[0] in chars) == inside {
      SpanMeans(s[1..], chars, inside);
    }
  }

  lemma {:induction false} SpanIs(s: string, chars: string, inside: bool, n: nat)
    requires n <= |s| && forall k | 0 <= k < n :: (s[k] in chars) == inside
    requires n < |s| ==> (s[n] in chars) != inside
    ensures Span(s, chars, inside) == n
    decreases n
  {
    if n > 0 {
      SpanIs(s[1..], chars, inside, n - 1);
    }
  }

  /** The string in a buffer, character by character. */
  lemma StrAt(str: array<char>, i: nat)
    requires Terminated(str[..], i)
    ensures i + |Str(str[..], i)| < str.Length && str[i + |Str(str[..], i)|] == NUL
    ensures forall k | 0 <= k < |Str(str[..], i)| :: str[i + k] == Str(str[..], i)[k] != NUL
  {
    StrIs(str[..], i);
    forall k | 0 <= k < |Str(str[..], i)|
      ensures str[i + k] == Str(str[..], i)[k]
    {
      assert str[..][i..i + |Str(str[..], i)|][k] == str[i + k];
    }
  }

  lemma AtOffset(buf: array<char>, p: nat, k: nat)
    requires Terminated(buf[..], p) && k <= |Str(buf[..], p)|
    ensures p + k < buf.Length && (buf[p + k] == NUL <==> k == |Str(buf[..], p)|)
    ensures Terminated(buf[..], p + k) && Str(buf[..], p + k) == Str(buf[..], p)[k..]
  {
    StrAt(buf, p);
    StrDrop(buf[..], p, k);
    TerminatedDrop(buf[..], p, k);
  }

  // ---- The functions

  method StrLen(str: array<char>, i: nat) returns (len: nat)
    requires Terminated(str[..], i)
    ensures len == |Str(str[..], i)| && i + len < str.Length
    ensures str[i + len] == '\0' && '\0' !in str[i..i + len]
  {
    StrAt(str, i);
    StrIs(str[..], i);
    assert str[..][i..i + |Str(str[..], i)|] == str[i..i + |Str(str[..], i)|];
    AtOffset(str, i, 0);
    len := 0;
    while str[i + len] != NUL
      invariant len <= |Str(str[..], i)| && i + len < str.Length
      invariant str[i + len] == NUL <==> len == |Str(str[..], i)|
      decreases |Str(str[..], i)| - len
    {
      len := len + 1;
      AtOffset(str, i, len);
    }
  }

  /** Zero exactly on equal strings, and never positive: this `strcmp` does not order. */
  method StrCmp(p: array<char>, i: nat, q: string) returns (r: int)
    requires Terminated(p[..], i) && NUL !in q
    ensures r == if Str(p[..], i) == q then 0 else -1
  {
    ghost var s := Str(p[..], i);
    StrAt(p, i);
    AtOffset(p, i, 0);
    var k := 0;
    while p[i + k] != NUL || k < |q|
      invariant k <= |s| && k <= |q| && i + k < p.Length && s[..k] == q[..k]
      invariant p[i + k] == NUL <==> k == |s|
      decreases |q| - k
    {
      if p[i + k] != (if k < |q| then q[k] else NUL) {
        return -1;
      }
      k := k + 1;
      AtOffset(p, i, k);
    }
    assert s == s[..k] && q == q[..k];
    return 0;
  }

  /** `memcpy` of the bytes `src`. */
  method MemCpy(dst: array<char>, d: nat, src: seq<char>)
    requires d + |src| <= dst.Length
    modifies dst
    ensures dst[..] == old(dst[..d]) + src + old(dst[d + |src|..])
  {
    for k := 0 to |src|
      invariant forall x | 0 <= x < dst.Length ::
        dst[x] == if d <= x < d + k then src[x - d] else old(dst[x])
    {
      dst[d + k] := src[k];
    }
  }

  /** How many characters at the start of the string are in `accept`. */
  method StrSpn(str: array<char>, i: nat, accept: string) returns (size: nat)
    requires Terminated(str[..], i)
    ensures size == Span(Str(str[..], i), accept, true)
  {
    ghost var s := Str(str[..], i);
    StrAt(str, i);
    size := 0;
    var ptr := i;
    while str[ptr] != NUL
      invariant ptr == i + size && size <= |s| && forall k | 0 <= k < size :: s[k] in accept
      decreases |s| - size
    {
      var acc := 0;
      while acc < |accept|
        invariant acc <= |accept| && str[ptr] !in accept[..acc]
      {
        if str[ptr] == accept[acc] {
          break;
        }
        acc := acc + 1;
      }
      if acc == |accept| {
        assert accept[..acc] == accept;
        SpanIs(s, accept, true, size);
        return;
      } else {
        size := size + 1;
      }
      ptr := ptr + 1;
    }
    SpanIs(s, accept, true, size);
  }

  /** The first character of the string that is in `accept`. */
  method StrPBrk(str: array<char>, i: nat, accept: string) returns (r: Option<nat>)
    requires Terminated(str[..], i)
    ensures r == if Span(Str(str[..], i), accept, false) < |Str(str[..], i)|
                 then Some(i + Span(Str(str[..], i), accept, false)) else None
  {
    ghost var s := Str(str[..], i);
    StrAt(str, i);
    var p := i;
    while str[p] != NUL
      invariant i <= p <= i + |s| && forall k | 0 <= k < p - i :: s[k] !in accept
      decreases i + |s| - p
    {
      var acc := 0;
      while acc < |accept|
        invariant acc <= |accept| && str[p] !in accept[..acc]
      {
        if accept[acc] == str[p] {
          assert s[p - i] == accept[acc] && s[p - i] in accept;
          SpanIs(s, accept, false, p - i);
          return Some(p);
        }
        acc := acc + 1;
      }
      assert accept[..acc] == accept;
      p := p + 1;
    }
    AtOffset(str, i, p - i);
    SpanIs(s, accept, false, |s|);
    return None;
  }

  /** `lfind`, which trusts that the character occurs. */
  method LFind(str: array<char>, i: nat, accept: char) returns (p: nat)
    requires exists j: nat :: i <= j < str.Length && str[j] == accept
    ensures i <= p < str.Length && str[p] == accept && forall j | i <= j < p :: str[j] != accept
  {
    ghost var j: nat :| i <= j < str.Length && str[j] == accept;
    p := i;
    while str[p] != accept
      invariant i <= p <= j && forall x | i <= x < p :: str[x] != accept
      decreases j - p
    {
      p := p + 1;
    }
  }

  // ---- Tokens

  /** The maximal runs of characters that are no delimiters. */
  function Tokens(s: string, delim: string): (t: seq<string>)
    decreases |s|
  {
    var k := Span(s, delim, true);
    if k == |s| then []
    else
      var n := Span(s[k..], delim, false);
      SpanMeans(s, delim, true);
      SpanMeans(s[k..], delim, false);
      [s[k..k + n]] + Tokens(s[k + n..], delim)
  }

  lemma TokensNone(s: string, delim: string)
    requires Span(s, delim, true) == |s|
    ensures Tokens(s, delim) == []
  {
  }

  lemma TokensSome(s: string, delim: string, k: nat, n: nat)
    requires k == Span(s, delim, true) < |s| && n == Span(s[k..], delim, false)
    ensures 0 < n && k + n <= |s| && Tokens(s, delim) == [s[k..k + n]] + Tokens(s[k + n..], delim)
  {
    SpanMeans(s, delim, true);
    SpanMeans(s[k..], delim, false);
  }

  /** A component: not empty, and without delimiters. */
  predicate IsRun(t: string, delim: string) {
    t != "" && forall i | 0 <= i < |t| :: t[i] !in delim
  }

  /** Tokens are not empty and hold no delimiter. */
  lemma {:induction false} TokensAreRuns(s: string, delim: string)
    ensures forall i | 0 <= i < |Tokens(s, delim)| :: IsRun(Tokens(s, delim)[i], delim)
    decreases |s|
  {
    hide *;
    var k := Span(s, delim, true);
    if k == |s| {
      TokensNone(s, delim);
    } else {
      var n := Span(s[k..], delim, false);
      TokensSome(s, delim, k, n);
      TokensAreRuns(s[k + n..], delim);
      FirstIsRun(s, delim, k, n);
    }
  }

  lemma FirstIsRun(s: string, delim: string, k: nat, n: nat)
    requires k <= |s| && n == Span(s[k..], delim, false) > 0
    ensures k + n <= |s| && IsRun(s[k..k + n], delim)
  {
    SpanMeans(s[k..], delim, false);
    assert forall i | 0 <= i < n :: s[k..k + n][i] == s[k..][i];
  }

  /** A delimiter in front changes nothing. */
  lemma TokensSkip(s: string, delim: string)
    requires s != "" && s[0] in delim
    ensures Tokens(s, delim) == Tokens(s[1..], delim)
  {
    hide *;
    var t, k := s[1..], Span(s[1..], delim, true);
    SpanOne(s, delim);
    if k == |t| {
      TokensNone(t, delim);
      TokensNone(s, delim);
    } else {
      assert t[k..] == s[1 + k..];
      SameTokens(s, t, delim, k, Span(t[k..], delim, false));
    }
  }

  lemma SpanOne(s: string, delim: string)
    requires s != "" && s[0] in delim
    ensures Span(s, delim, true) == 1 + Span(s[1..], delim, true)
  {
  }

  lemma SameTokens(s: string, t: string, delim: string, k: nat, n: nat)
    requires s != "" && t == s[1..] && k == Span(t, delim, true) < |t| && Span(s, delim, true) == 1 + k
    requires n == Span(t[k..], delim, false) == Span(s[1 + k..], delim, false)
    ensures Tokens(s, delim) == Tokens(t, delim)
  {
    hide *;
    TokensSome(t, delim, k, n);
    TokensSome(s, delim, 1 + k, n);
    assert t[k..k + n] == s[1 + k..1 + k + n] && t[k + n..] == s[1 + k + n..];
  }

  /** What one call of `strtok_r` finds in the string `s`. */
  lemma FirstToken(s: string, delim: string, k: nat, n: nat)
    requires k == Span(s, delim, true) < |s| && n == Span(s[k..], delim, false)
    ensures n > 0 && k + n <= |s| && Tokens(s, delim) == [s[k..k + n]] + Tokens(s[k + n..], delim)
    ensures k + n < |s| ==> s[k + n] in delim && Tokens(s[k + n..], delim) == Tokens(s[k + n + 1..], delim)
  {
    TokensSome(s, delim, k, n);
    SpanMeans(s[k..], delim, false);
    hide *;
    if k + n < |s| {
      assert s[k..][n] == s[k + n];
      TokensSkip(s[k + n..], delim);
      assert s[k + n..][1..] == s[k + n + 1..];
    }
  }

  /** The second half of `strtok_r`: the run at `p` is cut off. */
  method CutToken(buf: array<char>, p: nat, delim: string) returns (saveptr: nat)
    requires Terminated(buf[..], p)
    modifies buf
    ensures saveptr < buf.Length && Terminated(buf[..], p) && Terminated(buf[..], saveptr)
    ensures Str(buf[..], p) == Str(old(buf[..]), p)[..Span(Str(old(buf[..]), p), delim, false)]
    ensures Str(buf[..], saveptr) == AfterRun(Str(old(buf[..]), p), Span(Str(old(buf[..]), p), delim, false))
  {
    ghost var s, before := Str(buf[..], p), buf[..];
    ghost var n := Span(s, delim, false);
    StrAt(buf, p);
    var str := StrPBrk(buf, p, delim);
    if str.None? {
      saveptr := LFind(buf, p, NUL);
      EndOfString(before, p, saveptr);
      assert s[..n] == s;
    } else {
      buf[str.value] := NUL;
      saveptr := str.value + 1;
      CutString(before, p, n);
      assert buf[..] == before[p + n := NUL];
    }
  }

  /** What is left of a string behind a run of `n` characters and one delimiter. */
  function AfterRun(s: string, n: nat): string
    requires n <= |s|
  {
    if n == |s| then "" else s[n + 1..]
  }

  lemma EndOfString(s: seq<char>, i: nat, e: nat)
    requires i <= e < |s| && s[e] == NUL && forall j | i <= j < e :: s[j] != NUL
    ensures Terminated(s, i) && Terminated(s, e) && Str(s, e) == ""
  {
  }

  lemma CutString(s: seq<char>, i: nat, n: nat)
    requires Terminated(s, i) && n < |Str(s, i)|
    ensures i + n + 1 < |s| && Terminated(s[i + n := NUL], i) && Terminated(s[i + n := NUL], i + n + 1)
    ensures Str(s[i + n := NUL], i) == Str(s, i)[..n]
    ensures Str(s[i + n := NUL], i + n + 1) == Str(s, i)[n + 1..]
  {
    StrIs(s, i);
    var t, m := s[i + n := NUL], |Str(s, i)|;
    assert t[i..i + n] == s[i..i + m][..n];
    StrEnds(t, i, n);
    assert t[i + n + 1..i + m] == s[i..i + m][n + 1..];
    StrEnds(t, i + n + 1, m - n - 1);
  }

  /** The token just found and those behind the save pointer. */
  function Pending(s: seq<char>, token: Option<nat>, save: nat, delim: string): seq<string> {
    if token.None? then [] else [Str(s, token.value)] + Tokens(Str(s, save), delim)
  }

  /**
   * `strtok_r`: the first maximal run of the string at `str`, or at `save` when `str` is null, cut off in place; the
   * remaining runs are those of the string at the new save pointer.
   */
  method StrTokR(buf: array<char>, str: Option<nat>, delim: string, save: nat)
    returns (token: Option<nat>, saveptr: nat)
    requires Terminated(buf[..], if str.Some? then str.value else save)
    modifies buf
    ensures saveptr < buf.Length && Terminated(buf[..], saveptr)
    ensures token.None? ==> buf[..] == old(buf[..])
    ensures token.Some? ==> Terminated(buf[..], token.value)
    ensures Pending(buf[..], token, saveptr, delim)
         == Tokens(Str(old(buf[..]), if str.Some? then str.value else save), delim)
  {
    hide *;
    var p := if str.Some? then str.value else save;
    ghost var before, s := buf[..], Str(buf[..], p);
    var skipped := StrSpn(buf, p, delim);
    AtOffset(buf, p, skipped);
    p := p + skipped;
    if buf[p] == NUL {
      TokensNone(s, delim);
      PendingIs(buf[..], None, p, delim);
      return None, p;
    }
    FirstToken(s, delim, skipped, Span(s[skipped..], delim, false));
    saveptr := CutToken(buf, p, delim);
    token := Some(p);
    AfterFirst(s, delim, skipped, Span(s[skipped..], delim, false));
    PendingIs(buf[..], token, saveptr, delim);
  }

  lemma PendingIs(s: seq<char>, token: Option<nat>, save: nat, delim: string)
    ensures Pending(s, token, save, delim)
         == if token.None? then [] else [Str(s, token.value)] + Tokens(Str(s, save), delim)
  {
  }

  lemma AfterFirst(s: string, delim: string, k: nat, n: nat)
    requires k < |s| && k + n <= |s|
    requires Tokens(s, delim) == [s[k..k + n]] + Tokens(s[k + n..], delim)
    requires k + n < |s| ==> s[k + n] in delim && Tokens(s[k + n..], delim) == Tokens(s[k + n + 1..], delim)
    ensures Tokens(s, delim) == [s[k..][..n]] + Tokens(AfterRun(s[k..], n), delim)
  {
    assert s[k..][..n] == s[k..k + n];
    if k + n < |s| {
      assert s[k..][n + 1..] == s[k + n + 1..];
    } else {
      assert s[k + n..] == "";
    }
    hide Tokens;
  }
}
