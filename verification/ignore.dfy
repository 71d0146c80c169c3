/** The inclusion filter of the pipeline: substring ignore patterns (a fixed base list
    extended from the project's `.gitignore`) and a suffix allow-list. */
module Ignore {
  import opened Strings
  import opened Wrappers
  import opened Seqs

  /** The patterns every run starts from: the version-control directory and its ignore file. */
  const BasePatterns: seq<string> := [".git", ".gitignore"]

  /** A stripped ignore-file line is kept unless it is empty or a `#` comment. */
  predicate IsPatternLine(stripped: string) {
    stripped != [] && stripped[0] != '#'
  }

  /** The lines of a file that are pattern lines once normalised by `strip`, normalised,
      in file order. The ignore file normalises by stripping whitespace (`FilePatterns`);
      the ordering and membership facts below hold whatever the normalisation is. */
  function Kept(strip: string -> string, lines: seq<string>): seq<string> {
    if lines == [] then []
    else
      var t := strip(lines[|lines| - 1]);
      Kept(strip, lines[..|lines| - 1]) + (if IsPatternLine(t) then [t] else [])
  }

  /** The patterns contributed by the ignore file's lines, in file order. */
  function FilePatterns(lines: seq<string>): seq<string> {
    Kept(Strip, lines)
  }

  /** The pattern list after loading: the base list, then the ignore file's patterns if the file exists. */
  function Patterns(ignoreFile: Option<seq<string>>): seq<string> {
    BasePatterns + (if ignoreFile.Some? then FilePatterns(ignoreFile.value) else [])
  }

  /** `load_gitignore`: reads the ignore file (given as its lines, or `None` when absent)
      line by line, appending every stripped non-empty, non-comment line. */
  method LoadGitignore(ignoreFile: Option<seq<string>>) returns (patterns: seq<string>)
    ensures ignoreFile.None? ==> patterns == BasePatterns
    ensures ignoreFile.Some? ==> patterns == BasePatterns + FilePatterns(ignoreFile.value)
  {
    patterns := BasePatterns;
    if ignoreFile.Some? {
      var lines := ignoreFile.value;
      var i := 0;
      while i < |lines|
        invariant 0 <= i <= |lines|
        invariant patterns == BasePatterns + FilePatterns(lines[..i])
      {
        var line := Strip(lines[i]);
        FilePatternsSnoc(lines, i);
        if IsPatternLine(line) {
          AppendAssoc(BasePatterns, FilePatterns(lines[..i]), [line]);
          patterns := patterns + [line];
        }
        i := i + 1;
      }
      TakeAll(lines);
    }
  }

  /** One more line read: it contributes its pattern, if any, after the earlier ones. */
  lemma FilePatternsSnoc(lines: seq<string>, i: nat)
    requires i < |lines|
    ensures IsPatternLine(Strip(lines[i])) ==>
      FilePatterns(lines[..i + 1]) == FilePatterns(lines[..i]) + [Strip(lines[i])]
    ensures !IsPatternLine(Strip(lines[i])) ==> FilePatterns(lines[..i + 1]) == FilePatterns(lines[..i])
  {
    KeptSnoc(Strip, lines, i);
  }

  lemma KeptSnoc(strip: string -> string, lines: seq<string>, i: nat)
    requires i < |lines|
    ensures Kept(strip, lines[..i + 1]) == Kept(strip, lines[..i]) +
      (if IsPatternLine(strip(lines[i])) then [strip(lines[i])] else [])
  {
    var next := lines[..i + 1];
    assert next[..|next| - 1] == lines[..i];
  }

  /** Exactly the stripped, non-empty, non-comment lines become patterns. */
  lemma FilePatternsMembers(lines: seq<string>)
    ensures forall k | 0 <= k < |lines| && IsPatternLine(Strip(lines[k])) ::
      Strip(lines[k]) in FilePatterns(lines)
    ensures forall p | p in FilePatterns(lines) ::
      IsPatternLine(p) && exists k | 0 <= k < |lines| :: Strip(lines[k]) == p
  {
    KeptComplete(Strip, lines);
    KeptSound(Strip, lines);
  }

  lemma {:induction false} KeptComplete(strip: string -> string, lines: seq<string>)
    ensures forall k | 0 <= k < |lines| && IsPatternLine(strip(lines[k])) ::
      strip(lines[k]) in Kept(strip, lines)
  {
    if lines != [] {
      var init := lines[..|lines| - 1];
      KeptComplete(strip, init);
      var t := strip(lines[|lines| - 1]);
      var tail := if IsPatternLine(t) then [t] else [];
      assert Kept(strip, lines) == Kept(strip, init) + tail;
      forall k | 0 <= k < |lines| && IsPatternLine(strip(lines[k]))
        ensures strip(lines[k]) in Kept(strip, lines)
      {
        if k < |init| {
          assert init[k] == lines[k];
          assert strip(lines[k]) in Kept(strip, init);
        } else {
          assert strip(lines[k]) in tail;
        }
      }
    }
  }

  lemma {:induction false} KeptSound(strip: string -> string, lines: seq<string>)
    ensures forall p | p in Kept(strip, lines) ::
      IsPatternLine(p) && exists k | 0 <= k < |lines| :: strip(lines[k]) == p
  {
    if lines != [] {
      var init := lines[..|lines| - 1];
      KeptSound(strip, init);
      var t := strip(lines[|lines| - 1]);
      forall p | p in Kept(strip, lines)
        ensures IsPatternLine(p) && exists k | 0 <= k < |lines| :: strip(lines[k]) == p
      {
        if p in Kept(strip, init) {
          var k :| 0 <= k < |init| && strip(init[k]) == p;
          assert lines[k] == init[k];
        } else {
          assert p == t;
        }
      }
    }
  }

  /** Reading more of the file never removes or reorders the patterns already loaded. */
  lemma FilePatternsGrow(lines: seq<string>, i: nat)
    requires i <= |lines|
    ensures FilePatterns(lines[..i]) <= FilePatterns(lines)
  {
    KeptGrow(Strip, lines, i);
  }

  lemma {:induction false} KeptGrow(strip: string -> string, lines: seq<string>, i: nat)
    requires i <= |lines|
    ensures Kept(strip, lines[..i]) <= Kept(strip, lines)
    decreases |lines| - i
  {
    if i < |lines| {
      KeptGrow(strip, lines, i + 1);
      assert lines[..i + 1][..i] == lines[..i];
    } else {
      assert lines[..i] == lines;
    }
  }

  /** Some pattern is a substring of `path`. */
  function MatchesAny(path: string, patterns: seq<string>): bool {
    if patterns == [] then false
    else Contains(path, patterns[0]) || MatchesAny(path, patterns[1..])
  }

  lemma {:induction false} MatchesAnyMeans(path: string, patterns: seq<string>)
    ensures MatchesAny(path, patterns) <==> exists i | 0 <= i < |patterns| :: Contains(path, patterns[i])
  {
    if patterns != [] {
      MatchesAnyMeans(path, patterns[1..]);
      if !Contains(path, patterns[0]) && exists i | 0 <= i < |patterns| :: Contains(path, patterns[i]) {
        var i :| 0 <= i < |patterns| && Contains(path, patterns[i]);
        assert patterns[1..][i - 1] == patterns[i];
      }
    }
  }

  /** `path.endswith(tuple(suffixes))` */
  function EndsWithAny(path: string, suffixes: seq<string>): bool {
    if suffixes == [] then false
    else EndsWith(path, suffixes[0]) || EndsWithAny(path, suffixes[1..])
  }

  lemma {:induction false} EndsWithAnyMeans(path: string, suffixes: seq<string>)
    ensures EndsWithAny(path, suffixes) <==> exists j | 0 <= j < |suffixes| :: EndsWith(path, suffixes[j])
  {
    if suffixes != [] {
      EndsWithAnyMeans(path, suffixes[1..]);
      if !EndsWith(path, suffixes[0]) && exists j | 0 <= j < |suffixes| :: EndsWith(path, suffixes[j]) {
        var j :| 0 <= j < |suffixes| && EndsWith(path, suffixes[j]);
        assert suffixes[1..][j - 1] == suffixes[j];
      }
    }
  }

  /** `should_ignore`: a pattern match ignores the path whatever its suffix; otherwise
      only paths ending in an allow-listed suffix are kept. */
  function ShouldIgnore(patterns: seq<string>, suffixes: seq<string>, path: string): bool {
    if MatchesAny(path, patterns) then true
    else if EndsWithAny(path, suffixes) then false
    else true
  }

  /** A path is ignored exactly when some pattern occurs in it or no allowed suffix ends it. */
  lemma ShouldIgnoreMeans(patterns: seq<string>, suffixes: seq<string>, path: string)
    ensures ShouldIgnore(patterns, suffixes, path) <==>
      || (exists i | 0 <= i < |patterns| :: Contains(path, patterns[i]))
      || !(exists j | 0 <= j < |suffixes| :: EndsWith(path, suffixes[j]))
  {
    MatchesAnyMeans(path, patterns);
    EndsWithAnyMeans(path, suffixes);
  }

  /** Whatever the ignore file says and whatever suffixes are allowed, a path containing
      `.git` is ignored. */
  lemma GitPathsIgnored(ignoreFile: Option<seq<string>>, suffixes: seq<string>, path: string)
    requires Contains(path, ".git")
    ensures ShouldIgnore(Patterns(ignoreFile), suffixes, path)
  {
    assert Patterns(ignoreFile)[0] == ".git";
    ShouldIgnoreMeans(Patterns(ignoreFile), suffixes, path);
  }

  /** A non-comment ignore-file line excludes every path containing it, allow-listed or not. */
  lemma IgnoreFileLineExcludes(lines: seq<string>, k: nat, suffixes: seq<string>, path: string)
    requires k < |lines| && IsPatternLine(Strip(lines[k]))
    requires Contains(path, Strip(lines[k]))
    ensures ShouldIgnore(Patterns(Some(lines)), suffixes, path)
  {
    var p, fp := Strip(lines[k]), FilePatterns(lines);
    assert p in fp by { FilePatternsMembers(lines); }
    var i :| 0 <= i < |fp| && fp[i] == p;
    assert Patterns(Some(lines)) == BasePatterns + fp;
    assert (BasePatterns + fp)[|BasePatterns| + i] == p;
    ShouldIgnoreMeans(Patterns(Some(lines)), suffixes, path);
  }
}
