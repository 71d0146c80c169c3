/** POSIX `os.path` string operations. */
module Paths {
  import opened Strings
  import opened Seqs

  /** `p.startswith("/")`: an absolute path. */
  predicate IsAbsolute(p: string) {
    p != [] && p[0] == '/'
  }

  /** `p.endswith("/")` */
  predicate EndsInSlash(p: string) {
    p != [] && p[|p| - 1] == '/'
  }

  /** `os.path.join(a, b)` on POSIX: an absolute `b` discards `a`; a separator is
      inserted unless `a` is empty or already ends with one. */
  function Join(a: string, b: string): string {
    if IsAbsolute(b) then b
    else if a == [] || EndsInSlash(a) then a + b
    else a + "/" + b
  }

  /** The joined path ends with `b`, and starts with `a` unless `b` is absolute. */
  lemma JoinShape(a: string, b: string)
    ensures EndsWith(Join(a, b), b)
    ensures !IsAbsolute(b) ==> StartsWith(Join(a, b), a)
    ensures !IsAbsolute(b) && a != [] && !EndsInSlash(a) ==> Join(a, b) == a + "/" + b
  {
  }

  /** Index just past the last `/` in `p`, or 0 when there is none. */
  function AfterLastSlash(p: string): (k: nat)
    ensures k <= |p|
    ensures k > 0 ==> p[k - 1] == '/'
    ensures forall j | k <= j < |p| :: p[j] != '/'
  {
    if p == [] then 0
    else if p[|p| - 1] == '/' then |p|
    else AfterLastSlash(p[..|p| - 1])
  }

  /** `os.path.basename(p)`: what follows the last separator. */
  function Basename(p: string): (r: string)
    ensures EndsWith(p, r)
    ensures '/' !in r
    ensures |r| < |p| ==> p[|p| - |r| - 1] == '/'
  {
    p[AfterLastSlash(p)..]
  }

  /** The basename of a path ending in a separator-free suffix keeps that suffix. */
  lemma BasenameAppend(p: string, suffix: string)
    requires '/' !in suffix
    ensures Basename(p + suffix) == Basename(p) + suffix
  {
    var k := AfterLastSlash(p);
    AfterLastSlashAppend(p, suffix);
    assert (p + suffix)[k..] == p[k..] + suffix;
  }

  lemma AfterLastSlashAppend(p: string, suffix: string)
    requires '/' !in suffix
    ensures AfterLastSlash(p + suffix) == AfterLastSlash(p)
    decreases |suffix|
  {
    if suffix != [] {
      var init := suffix[..|suffix| - 1];
      assert (p + suffix)[..|p + suffix| - 1] == p + init;
      assert suffix[|suffix| - 1] in suffix;
      assert '/' !in init by {
        forall k | 0 <= k < |init| ensures init[k] != '/' {
          assert init[k] == suffix[k];
        }
      }
      AfterLastSlashAppend(p, init);
      assert (p + suffix)[|p + suffix| - 1] == suffix[|suffix| - 1];
    } else {
      assert p + suffix == p;
    }
  }

  /** `p.split("/")` */
  function SplitSlash(p: string): (parts: seq<string>)
    ensures parts != []
    ensures forall c | c in parts :: '/' !in c
  {
    if p == [] then [""]
    else
      var rest := SplitSlash(p[1..]);
      if p[0] == '/' then [""] + rest else [[p[0]] + rest[0]] + rest[1..]
  }

  /** `"/".join(parts)` */
  function JoinSlash(parts: seq<string>): string {
    Strings.Join(parts, "/")
  }

  /** Joining the pieces with `/` gives the path back. */
  lemma {:induction false} SplitSlashJoin(p: string)
    ensures JoinSlash(SplitSlash(p)) == p
  {
    if p != [] {
      var rest := SplitSlash(p[1..]);
      SplitSlashJoin(p[1..]);
      assert p == [p[0]] + p[1..];
      if p[0] == '/' {
        JoinTwo("", rest, "/");
      } else if |rest| > 1 {
        assert rest == [rest[0]] + rest[1..];
        JoinTwo(rest[0], rest[1..], "/");
        JoinTwo([p[0]] + rest[0], rest[1..], "/");
      }
    }
  }

  /** A name without separators is a single piece. */
  lemma {:induction false} SplitSlashName(n: string)
    requires '/' !in n
    ensures SplitSlash(n) == [n]
  {
    if n != [] {
      assert n[0] in n;
      assert '/' !in n[1..] by {
        forall j | 0 <= j < |n[1..]| ensures n[1..][j] != '/' {
          assert n[1..][j] in n;
        }
      }
      SplitSlashName(n[1..]);
      assert n == [n[0]] + n[1..];
    }
  }

  /** A separator splits the path into the pieces on either side. */
  lemma {:induction false} SplitSlashAppend(a: string, b: string)
    ensures SplitSlash(a + "/" + b) == SplitSlash(a) + SplitSlash(b)
    decreases |a|
  {
    var s := a + "/" + b;
    if a == [] {
      assert s[1..] == b;
    } else {
      assert s[0] == a[0] && s[1..] == a[1..] + "/" + b;
      SplitSlashAppend(a[1..], b);
    }
  }

  /** The component loop of `posixpath.normpath`: empty and `.` components are skipped;
      `..` removes the component before it, except that a leading `..` stays in a relative
      path, is dropped at the root of a rooted one, and one `..` never removes another. */
  function Resolve(comps: seq<string>, rooted: bool, kept: seq<string>): seq<string>
    decreases |comps|
  {
    if comps == [] then kept
    else Resolve(comps[1..], rooted, ResolveStep(comps[0], rooted, kept))
  }

  /** What one component does to the components kept so far. */
  function ResolveStep(c: string, rooted: bool, kept: seq<string>): seq<string> {
    if c == "" || c == "." then kept
    else if c != ".." || (!rooted && kept == []) || (kept != [] && Last(kept) == "..") then kept + [c]
    else if kept != [] then kept[..|kept| - 1]
    else kept
  }

  /** The components resolve one after the other. */
  lemma {:induction false} ResolveAppend(x: seq<string>, y: seq<string>, rooted: bool, kept: seq<string>)
    ensures Resolve(x + y, rooted, kept) == Resolve(y, rooted, Resolve(x, rooted, kept))
    decreases |x|
  {
    if x == [] {
      assert x + y == y;
    } else {
      assert (x + y)[0] == x[0] && (x + y)[1..] == x[1..] + y;
      ResolveAppend(x[1..], y, rooted, ResolveStep(x[0], rooted, kept));
    }
  }

  /** How many leading separators `normpath` keeps: two exactly when there are exactly
      two, otherwise one when the path is rooted. */
  function LeadingSlashes(p: string): nat {
    if |p| >= 2 && p[0] == '/' && p[1] == '/' && (|p| == 2 || p[2] != '/') then 2
    else if p != [] && p[0] == '/' then 1
    else 0
  }

  /** The separators `normpath` keeps at the start of `p`. */
  function Root(p: string): (r: string)
    ensures |r| == LeadingSlashes(p)
    ensures forall j | 0 <= j < |r| :: r[j] == '/'
  {
    seq(LeadingSlashes(p), _ => '/')
  }

  /** The components of `p` that survive normalisation. */
  function Components(p: string): seq<string> {
    Resolve(SplitSlash(p), LeadingSlashes(p) > 0, [])
  }

  /** `os.path.normpath(p)` on POSIX. */
  function Normpath(p: string): string {
    var r := Root(p) + JoinSlash(Components(p));
    if r == [] then "." else r
  }

  /** `os.path.basename(os.path.normpath(p))`: the project name. */
  function ProjectName(p: string): (r: string)
    ensures '/' !in r
  {
    Basename(Normpath(p))
  }

  /** The project name is the last component that survives normalisation. */
  lemma ProjectNameOfResolved(p: string, n: string)
    requires n != [] && '/' !in n
    requires Components(p) != [] && Last(Components(p)) == n
    ensures ProjectName(p) == n
  {
    var pre := Root(p);
    var comps := Components(p);
    var init := comps[..|comps| - 1];
    assert comps == init + [n];
    JoinSlashSnoc(init, n);
    var dir := if init == [] then pre else pre + JoinSlash(init) + "/";
    assert pre + JoinSlash(comps) == dir + n;
    assert |dir + n| > 0;
    assert Normpath(p) == dir + n;
    assert dir == [] || EndsInSlash(dir);
    BasenameAfterDirectory(dir, n);
  }

  /** A separator-free name after a directory is the basename. */
  lemma BasenameAfterDirectory(dir: string, n: string)
    requires dir == [] || EndsInSlash(dir)
    requires '/' !in n
    ensures Basename(dir + n) == n
  {
    BasenameOfDirectory(dir);
    BasenameAppend(dir, n);
  }

  lemma {:induction false} JoinSlashSnoc(init: seq<string>, n: string)
    ensures JoinSlash(init + [n]) == if init == [] then n else JoinSlash(init) + "/" + n
    decreases |init|
  {
    if |init| == 1 {
      assert init + [n] == [init[0]] + [n];
      JoinTwo(init[0], [n], "/");
    } else if |init| > 1 {
      var rest := init[1..];
      assert init + [n] == [init[0]] + (rest + [n]);
      JoinTwo(init[0], rest + [n], "/");
      JoinSlashSnoc(rest, n);
      assert init == [init[0]] + rest;
      JoinTwo(init[0], rest, "/");
    }
  }

  /** The project name of `a/n` and of `a/n/` is `n` for a name `n` that normalisation
      keeps, whatever `a` is. */
  lemma ProjectNameOfChild(a: string, n: string)
    requires n != [] && '/' !in n && n != "." && n != ".."
    ensures ProjectName(a + "/" + n) == n
    ensures ProjectName(a + "/" + n + "/") == n
  {
    SplitSlashName(n);
    ChildFile(a, n);
    ChildDirectory(a, n);
  }

  lemma ChildFile(a: string, n: string)
    requires n != [] && '/' !in n && n != "." && n != ".."
    requires SplitSlash(n) == [n]
    ensures ProjectName(a + "/" + n) == n
  {
    var p := a + "/" + n;
    SplitSlashAppend(a, n);
    ResolveLastName(SplitSlash(a), [n], n, LeadingSlashes(p) > 0);
    ProjectNameOfResolved(p, n);
  }

  lemma ChildDirectory(a: string, n: string)
    requires n != [] && '/' !in n && n != "." && n != ".."
    requires SplitSlash(n) == [n]
    ensures ProjectName(a + "/" + n + "/") == n
  {
    var q := a + "/" + n + "/";
    SplitDirectory(a, n);
    ResolveLastName(SplitSlash(a), [n, ""], n, LeadingSlashes(q) > 0);
    ProjectNameOfResolved(q, n);
  }

  /** A trailing separator adds one empty piece. */
  lemma SplitDirectory(a: string, n: string)
    requires SplitSlash(n) == [n]
    ensures SplitSlash(a + "/" + n + "/") == SplitSlash(a) + [n, ""]
  {
    assert a + "/" + n + "/" == a + "/" + (n + "/" + "");
    SplitSlashAppend(n, "");
    SplitSlashAppend(a, n + "/" + "");
  }

  /** Normalisation decides the name where the last component alone would not: `.` and
      `..` components are resolved, the empty path is `.`, and the root has no name. */
  lemma ProjectNameExamples()
    ensures ProjectName("proj/.") == "proj"
    ensures ProjectName("a/b/..") == "a"
    ensures ProjectName("") == "."
    ensures ProjectName("/") == ""
  {
    TrailingDot();
    TrailingParent();
    EmptyAndRoot();
  }

  lemma TrailingDot()
    ensures ProjectName("proj/.") == "proj"
  {
    assert "proj/." == "proj" + "/" + ".";
    SplitSlashName("proj");
    SplitSlashName(".");
    SplitSlashAppend("proj", ".");
    ProjectNameOfResolved("proj/.", "proj");
  }

  lemma TrailingParent()
    ensures ProjectName("a/b/..") == "a"
  {
    SplitParent();
    assert Resolve(["a", "b", ".."], false, []) == ["a"];
    ProjectNameOfResolved("a/b/..", "a");
  }

  lemma SplitParent()
    ensures SplitSlash("a/b/..") == ["a", "b", ".."]
  {
    assert "a/b/.." == "a" + "/" + ("b" + "/" + "..");
    SplitSlashName("a");
    SplitSlashName("b");
    SplitSlashName("..");
    SplitSlashAppend("b", "..");
    SplitSlashAppend("a", "b/..");
  }

  lemma EmptyAndRoot()
    ensures ProjectName("") == "."
    ensures ProjectName("/") == ""
  {
    assert SplitSlash("") == [""];
    assert Resolve([""], false, []) == [];
    assert Normpath("") == ".";
    assert AfterLastSlash(".") == 0;
    assert "/" == "" + "/" + "";
    SplitSlashAppend("", "");
    assert LeadingSlashes("/") == 1;
    assert Resolve(["", ""], true, []) == [];
    assert Normpath("/") == "/";
    BasenameOfDirectory("/");
  }

  /** After a kept name, an empty component leaves the name last. */
  lemma ResolveLastName(x: seq<string>, tail: seq<string>, n: string, rooted: bool)
    requires n != "" && n != "." && n != ".."
    requires tail == [n] || tail == [n, ""]
    ensures var comps := Resolve(x + tail, rooted, []); comps != [] && Last(comps) == n
  {
    ResolveAppend(x, tail, rooted, []);
    var k := Resolve(x, rooted, []);
    assert ResolveStep(n, rooted, k) == k + [n];
    if tail == [n, ""] {
      assert tail[1..] == [""];
      assert Resolve([""], rooted, k + [n]) == k + [n];
    }
  }

  /** Text appended to the joined component can be appended before joining, unless that
      would turn an empty component into an absolute one. */
  lemma JoinAppend(a: string, b: string, c: string)
    requires b != [] || !IsAbsolute(c)
    ensures Join(a, b + c) == Join(a, b) + c
  {
    if b != [] {
      assert (b + c)[0] == b[0];
    } else {
      assert b + c == c;
    }
  }

  /** Joining a directory with a separator-free name gives a path whose basename is the name. */
  lemma BasenameOfJoin(root: string, name: string)
    requires name != [] && '/' !in name
    ensures Basename(Join(root, name)) == name
  {
    assert !IsAbsolute(name) by {
      assert name[0] in name;
    }
    var dir := if root == [] || EndsInSlash(root) then root else root + "/";
    assert Join(root, name) == dir + name;
    assert dir == [] || EndsInSlash(dir);
    BasenameOfDirectory(dir);
    BasenameAppend(dir, name);
  }

  /** A path that is empty or ends in a separator has an empty basename. */
  lemma BasenameOfDirectory(dir: string)
    requires dir == [] || EndsInSlash(dir)
    ensures Basename(dir) == []
  {
  }
}
