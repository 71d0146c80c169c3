/** Placeholder substitution in prompt templates: chained `str.replace` calls. */
module Template {
  import opened Strings

  /** `s.replace(token, value)`: every non-overlapping occurrence of `token`, scanning
      from the left, becomes `value`. Every token the pipeline replaces is non-empty. */
  function Replace(s: string, token: string, value: string): string
    requires token != []
    decreases |s|
  {
    if s == [] then []
    else if StartsWith(s, token) then value + Replace(s[|token|..], token, value)
    else [s[0]] + Replace(s[1..], token, value)
  }

  /** `s.split(token)`: the text between the non-overlapping occurrences of `token`. */
  function SplitOn(s: string, token: string): (parts: seq<string>)
    requires token != []
    ensures |parts| >= 1
    decreases |s|
  {
    if s == [] then [""]
    else if StartsWith(s, token) then [""] + SplitOn(s[|token|..], token)
    else
      var p := SplitOn(s[1..], token);
      [[s[0]] + p[0]] + p[1..]
  }

  /** Replacing is splitting at the occurrences and joining the pieces with the value. */
  lemma {:induction false} ReplaceIsSplitJoin(s: string, token: string, value: string)
    requires token != []
    ensures Replace(s, token, value) == Join(SplitOn(s, token), value)
    decreases |s|
  {
    if s != [] {
      if StartsWith(s, token) {
        var rest := SplitOn(s[|token|..], token);
        ReplaceIsSplitJoin(s[|token|..], token, value);
        JoinTwo("", rest, value);
        assert "" + value + Join(rest, value) == value + Join(rest, value);
      } else {
        var p := SplitOn(s[1..], token);
        ReplaceIsSplitJoin(s[1..], token, value);
        SplitJoinCons(s[0], p, value);
      }
    }
  }

  lemma SplitJoinCons(c: char, p: seq<string>, value: string)
    requires p != []
    ensures Join([[c] + p[0]] + p[1..], value) == [c] + Join(p, value)
  {
    if |p| == 1 {
      assert Join([[c] + p[0]], value) == [c] + p[0];
    } else {
      JoinTwo([c] + p[0], p[1..], value);
      JoinTwo(p[0], p[1..], value);
      assert p == [p[0]] + p[1..];
    }
  }

  /** Splitting at a token and joining with the same token gives back the text. */
  lemma SplitJoinToken(s: string, token: string)
    requires token != []
    ensures Join(SplitOn(s, token), token) == s
  {
    ReplaceIsSplitJoin(s, token, token);
    ReplaceSelf(s, token);
  }

  /** Replacing a token by itself changes nothing. */
  lemma {:induction false} ReplaceSelf(s: string, token: string)
    requires token != []
    ensures Replace(s, token, token) == s
    decreases |s|
  {
    if s != [] {
      if StartsWith(s, token) {
        ReplaceSelf(s[|token|..], token);
        assert s == s[..|token|] + s[|token|..];
      } else {
        ReplaceSelf(s[1..], token);
        assert s == [s[0]] + s[1..];
      }
    }
  }

  /** Text without the token is returned unchanged. */
  lemma {:induction false} ReplaceAbsent(s: string, token: string, value: string)
    requires token != [] && !Contains(s, token)
    ensures Replace(s, token, value) == s
    decreases |s|
  {
    if s != [] {
      ReplaceAbsent(s[1..], token, value);
      assert s == [s[0]] + s[1..];
    }
  }

  /** Text holding the token gets the value in its place. */
  lemma {:induction false} ReplacePresent(s: string, token: string, value: string)
    requires token != [] && Contains(s, token)
    ensures Contains(Replace(s, token, value), value)
    decreases |s|
  {
    if StartsWith(s, token) {
      ContainsSelf(value);
      ContainsBefore(value, Replace(s[|token|..], token, value), value);
    } else {
      ReplacePresent(s[1..], token, value);
      ContainsAfter([s[0]], Replace(s[1..], token, value), value);
    }
  }

  const ContentToken := "{content}"
  const TreeToken := "{tree_structure}"
  const PathToken := "{relative_path}"

  /** The stage-1 user prompt: content, then tree, then relative path are substituted. */
  function RenderFilePrompt(template: string, content: string, tree: string, relativePath: string): string {
    Replace(Replace(Replace(template, ContentToken, content), TreeToken, tree), PathToken, relativePath)
  }

  /** The stage-2 user prompt: content, then tree are substituted. */
  function RenderAggregatePrompt(template: string, content: string, tree: string): string {
    Replace(Replace(template, ContentToken, content), TreeToken, tree)
  }

  /** A template holding no placeholder is sent as it is. */
  lemma RenderWithoutTokens(template: string, content: string, tree: string, relativePath: string)
    requires !Contains(template, ContentToken) && !Contains(template, TreeToken) && !Contains(template, PathToken)
    ensures RenderFilePrompt(template, content, tree, relativePath) == template
    ensures RenderAggregatePrompt(template, content, tree) == template
  {
    ReplaceAbsent(template, ContentToken, content);
    ReplaceAbsent(template, TreeToken, tree);
    ReplaceAbsent(template, PathToken, relativePath);
  }

  /** Text shorter than the token is returned unchanged. */
  lemma ReplaceShort(s: string, token: string, value: string)
    requires token != [] && |s| < |token|
    ensures Replace(s, token, value) == s
  {
    if s != [] {
      ReplaceShort(s[1..], token, value);
      assert s == [s[0]] + s[1..];
    }
  }

  lemma ReplaceWhole(token: string, value: string)
    requires token != []
    ensures Replace(token, token, value) == value
  {
    assert StartsWith(token, token);
    assert token[|token|..] == [];
    assert Replace([], token, value) == [];
    assert value + [] == value;
  }

  /** Text without an `o` holds no content placeholder. */
  lemma NoContentToken(s: string)
    requires 'o' !in s
    ensures !Contains(s, ContentToken)
  {
    assert ContentToken[2] == 'o';
    MissingCharExcludes(s, ContentToken, 'o');
  }

  lemma NoContentInPathToken()
    ensures !Contains(PathToken, ContentToken)
  {
    NoContentToken(PathToken);
  }

  lemma NoContentInTreeToken()
    ensures !Contains(TreeToken, ContentToken)
  {
    NoContentToken(TreeToken);
  }

  /** A template that is only the path placeholder becomes the relative path. */
  lemma RenderPathOnly(content: string, tree: string, relativePath: string)
    ensures RenderFilePrompt(PathToken, content, tree, relativePath) == relativePath
  {
    NoContentInPathToken();
    ReplaceAbsent(PathToken, ContentToken, content);
    ReplaceShort(PathToken, TreeToken, tree);
    ReplaceWhole(PathToken, relativePath);
  }

  /** Substitution is chained, not simultaneous: a placeholder inside the file content is
      expanded by the later path step. */
  lemma ContentPlaceholderIsExpanded(tree: string, relativePath: string)
    ensures RenderFilePrompt(ContentToken, PathToken, tree, relativePath) == relativePath
  {
    ReplaceWhole(ContentToken, PathToken);
    ReplaceShort(PathToken, TreeToken, tree);
    ReplaceWhole(PathToken, relativePath);
  }

  /** A placeholder inside a value substituted later is never expanded: the tree text of the
      stage-2 prompt keeps a `{content}` it holds. */
  lemma TreePlaceholderIsKept(content: string)
    ensures RenderAggregatePrompt(TreeToken, content, ContentToken) == ContentToken
  {
    NoContentInTreeToken();
    ReplaceAbsent(TreeToken, ContentToken, content);
    ReplaceWhole(TreeToken, ContentToken);
  }
}
