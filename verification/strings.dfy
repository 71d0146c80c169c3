/** Python `str` operations the pipeline relies on, over `seq<char>`. */
module Strings {

  /** `s.startswith(p)` */
  predicate StartsWith(s: string, p: string) {
    |p| <= |s| && s[..|p|] == p
  }

  /** `s.endswith(p)` */
  predicate EndsWith(s: string, p: string) {
    |p| <= |s| && s[|s| - |p|..] == p
  }

  /** `p in s`: `p` occurs at some position of `s` (the empty string occurs everywhere). */
  predicate Contains(s: string, p: string)
    decreases |s|
  {
    StartsWith(s, p) || (s != [] && Contains(s[1..], p))
  }

  /** The characters for which Python's `str.isspace` holds; `str.strip()` removes these. */
  predicate IsSpace(c: char) {
    || c == '\t' || c == '\n' || c == '\U{B}' || c == '\U{C}' || c == '\r'
    || ('\U{1C}' <= c <= '\U{1F}') || c == ' ' || c == '\U{85}' || c == '\U{A0}'
    || c == '\U{1680}' || ('\U{2000}' <= c <= '\U{200A}') || c == '\U{2028}'
    || c == '\U{2029}' || c == '\U{202F}' || c == '\U{205F}' || c == '\U{3000}'
  }

  /** `s.strip()`: `s` without its leading and trailing space characters. */
  function Strip(s: string): (r: string)
    ensures |r| <= |s|
    ensures r != [] ==> !IsSpace(r[0]) && !IsSpace(r[|r| - 1])
  {
    TrimEnd(TrimStart(s))
  }

  /** `Strip` removes only space characters, and only at the two ends. */
  lemma StripIsTrimmedSlice(s: string)
    ensures exists i, j | 0 <= i <= j <= |s| ::
              (&& Strip(s) == s[i..j]
               && (forall k | 0 <= k < i :: IsSpace(s[k]))
               && (forall k | j <= k < |s| :: IsSpace(s[k])))
  {
    var t := TrimStart(s);
    var i := |s| - |t|;
    assert Strip(s) == s[i..i + |Strip(s)|];
  }

  function TrimStart(s: string): (r: string)
    ensures |r| <= |s| && r == s[|s| - |r|..]
    ensures forall k | 0 <= k < |s| - |r| :: IsSpace(s[k])
    ensures r != [] ==> !IsSpace(r[0])
  {
    if s != [] && IsSpace(s[0]) then TrimStart(s[1..]) else s
  }

  function TrimEnd(s: string): (r: string)
    ensures |r| <= |s| && r == s[..|r|]
    ensures forall k | |r| <= k < |s| :: IsSpace(s[k])
    ensures r != [] ==> !IsSpace(r[|r| - 1])
  {
    if s != [] && IsSpace(s[|s| - 1]) then TrimEnd(s[..|s| - 1]) else s
  }

  /** `sep.join(parts)` */
  function Join(parts: seq<string>, sep: string): string {
    if |parts| == 0 then ""
    else if |parts| == 1 then parts[0]
    else parts[0] + sep + Join(parts[1..], sep)
  }

  /** The concatenation of all parts, `"".join(parts)`. */
  function Concat(parts: seq<string>): string {
    if parts == [] then "" else parts[0] + Concat(parts[1..])
  }

  /** Text added in front keeps an occurrence. */
  lemma {:induction false} ContainsAfter(pre: string, a: string, p: string)
    requires Contains(a, p)
    ensures Contains(pre + a, p)
    decreases |pre|
  {
    if pre != [] {
      ContainsAfter(pre[1..], a, p);
      assert (pre + a)[1..] == pre[1..] + a;
      assert Contains((pre + a)[1..], p);
    } else {
      assert pre + a == a;
    }
  }

  /** Text added behind keeps an occurrence. */
  lemma {:induction false} ContainsBefore(a: string, post: string, p: string)
    requires Contains(a, p)
    ensures Contains(a + post, p)
    decreases |a|
  {
    if StartsWith(a, p) {
      assert (a + post)[..|p|] == a[..|p|];
    } else {
      ContainsBefore(a[1..], post, p);
      assert (a + post)[1..] == a[1..] + post;
    }
  }

  /** An occurrence inside `a` is still an occurrence once text is added on either side. */
  lemma ContainsWithin(pre: string, a: string, post: string, p: string)
    requires Contains(a, p)
    ensures Contains(pre + a + post, p)
  {
    ContainsBefore(a, post, p);
    ContainsAfter(pre, a + post, p);
    assert pre + a + post == pre + (a + post);
  }

  lemma ContainsSelf(s: string)
    ensures Contains(s, s)
  {
    assert s[..|s|] == s;
  }

  lemma Prefixed(p: string, s: string)
    ensures StartsWith(p + s, p) && (p + s)[|p|..] == s
  {
  }

  lemma JoinTwo(a: string, rest: seq<string>, sep: string)
    requires rest != []
    ensures Join([a] + rest, sep) == a + sep + Join(rest, sep)
  {
    assert ([a] + rest)[1..] == rest;
  }

  lemma {:induction false} ConcatAppend(a: seq<string>, b: seq<string>)
    ensures Concat(a + b) == Concat(a) + Concat(b)
  {
    if a != [] {
      assert (a + b)[1..] == a[1..] + b;
      ConcatAppend(a[1..], b);
    } else {
      assert a + b == b;
    }
  }

  /** A text lacking a character of `p` does not contain `p`. */
  lemma {:induction false} MissingCharExcludes(s: string, p: string, c: char)
    requires c in p && c !in s
    ensures !Contains(s, p)
    decreases |s|
  {
    if s != [] {
      MissingCharExcludes(s[1..], p, c);
    }
  }

  /** An occurrence fits inside the text. */
  lemma {:induction false} ContainsFits(s: string, p: string)
    requires Contains(s, p)
    ensures |p| <= |s|
    decreases |s|
  {
    if !StartsWith(s, p) {
      ContainsFits(s[1..], p);
    }
  }
}
