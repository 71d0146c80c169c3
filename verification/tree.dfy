/** The tree renderer: a directory listing drawn with box-drawing connectors, entries
    sorted by name at every level, and every entry whose joined path contains `.git`
    left out together with everything below it. */
module Tree {
  import opened Strings
  import opened Seqs
  import Paths

  /** A directory entry as the filesystem lists it. */
  datatype Node = File(name: string) | Dir(name: string, children: seq<Node>)

  /** Python's ordering of `str`: lexicographic by code point. */
  predicate NameLe(a: string, b: string) {
    if a == [] then true
    else if b == [] then false
    else if a[0] != b[0] then a[0] < b[0]
    else NameLe(a[1..], b[1..])
  }

  lemma NameLeTotal(a: string, b: string)
    ensures NameLe(a, b) || NameLe(b, a)
  {
  }

  lemma NameLeTrans(a: string, b: string, c: string)
    requires NameLe(a, b) && NameLe(b, c)
    ensures NameLe(a, c)
  {
  }

  predicate SortedByName(s: seq<Node>) {
    forall i, j | 0 <= i < j < |s| :: NameLe(s[i].name, s[j].name)
  }

  function Insert(x: Node, s: seq<Node>): (r: seq<Node>)
    requires SortedByName(s)
    ensures SortedByName(r)
    ensures multiset(r) == multiset(s) + multiset{x}
  {
    if s == [] then [x]
    else if NameLe(x.name, s[0].name) then
      InsertFront(x, s);
      [x] + s
    else
      var t := Insert(x, s[1..]);
      NameLeTotal(x.name, s[0].name);
      InsertBehind(x, s, t);
      [s[0]] + t
  }

  /** An entry no greater than the first of a sorted listing sorts in front of it. */
  lemma InsertFront(x: Node, s: seq<Node>)
    requires SortedByName(s) && s != [] && NameLe(x.name, s[0].name)
    ensures SortedByName([x] + s)
    ensures multiset([x] + s) == multiset(s) + multiset{x}
  {
    forall j | 0 <= j < |s| ensures NameLe(x.name, s[j].name) {
      if j > 0 {
        NameLeTrans(x.name, s[0].name, s[j].name);
      }
    }
  }

  /** The first entry of a sorted listing stays in front of the rest with `x` inserted,
      when it is no greater than `x`. */
  lemma InsertBehind(x: Node, s: seq<Node>, t: seq<Node>)
    requires SortedByName(s) && s != [] && NameLe(s[0].name, x.name)
    requires SortedByName(t) && multiset(t) == multiset(s[1..]) + multiset{x}
    ensures SortedByName([s[0]] + t)
    ensures multiset([s[0]] + t) == multiset(s) + multiset{x}
  {
    assert s == [s[0]] + s[1..];
    forall j | 0 <= j < |t| ensures NameLe(s[0].name, t[j].name) {
      assert t[j] in multiset(t);
      if t[j] != x {
        assert t[j] in multiset(s[1..]);
        var k :| 0 <= k < |s[1..]| && s[1..][k] == t[j];
        assert s[k + 1] == t[j];
      }
    }
  }

  /** `sorted(...)` by name. */
  function SortByName(s: seq<Node>): (r: seq<Node>)
    ensures SortedByName(r)
    ensures multiset(r) == multiset(s)
  {
    if s == [] then []
    else
      assert s == [s[0]] + s[1..];
      Insert(s[0], SortByName(s[1..]))
  }

  /** The tree with every directory's entries in sorted order, as the renderer visits them. */
  function SortTree(n: Node): (r: Node)
    ensures r.name == n.name && r.Dir? == n.Dir?
    decreases n, 0
  {
    match n
    case File(_) => n
    case Dir(name, children) => Dir(name, SortLevel(children))
  }

  /** One directory's entries, each sorted below, then sorted by name. */
  function SortLevel(items: seq<Node>): (r: seq<Node>)
    ensures SortedByName(r)
    ensures multiset(r) == multiset(SortEach(items))
    decreases items, 1
  {
    SortByName(SortEach(items))
  }

  function SortEach(items: seq<Node>): (r: seq<Node>)
    ensures |r| == |items|
    ensures forall k | 0 <= k < |items| :: r[k] == SortTree(items[k])
    decreases items, 0
  {
    if items == [] then [] else [SortTree(items[0])] + SortEach(items[1..])
  }

  const Tee: string := "├── "
  const Corner: string := "└── "

  /** The connector of an entry: a corner for the last entry of its directory listing. */
  function Connector(last: bool): string {
    if last then Corner else Tee
  }

  /** What an entry adds to the prefix of the entries below it. */
  function Indent(last: bool): (r: string)
    ensures |r| == 4
  {
    if last then "    " else "│   "
  }

  /** `".git" in item_path`: the renderer's own, always active, exclusion. */
  predicate Hidden(dir: string, item: Node) {
    Contains(Paths.Join(dir, item.name), ".git")
  }

  /** `build_tree(dir, prefix)` from the `i`-th entry on, over entries already in sorted
      order: one block of lines per entry that is not excluded. The drawing is written for
      any exclusion rule `excluded(dir, entry)`; the renderer's own rule is `Hidden`, which
      `GenerateTree` passes in, and the shape lemmas below hold whatever the rule. */
  function Lines(excluded: (string, Node) -> bool, dir: string, prefix: string, items: seq<Node>, i: nat): seq<string>
    requires i <= |items|
    decreases items, |items| - i, 2
  {
    if i == |items| then []
    else (if excluded(dir, items[i]) then [] else Block(excluded, dir, prefix, items, i)) + Lines(excluded, dir, prefix, items, i + 1)
  }

  /** The lines of the `i`-th entry: its own line, then the entries below it when it is a
      directory. Whether an entry is last is decided among ALL entries, excluded ones included. */
  function Block(excluded: (string, Node) -> bool, dir: string, prefix: string, items: seq<Node>, i: nat): seq<string>
    requires i < |items|
    decreases items, |items| - i, 1
  {
    var last := i == |items| - 1;
    [prefix + Connector(last) + items[i].name] + Below(excluded, dir, prefix, items, i)
  }

  function Below(excluded: (string, Node) -> bool, dir: string, prefix: string, items: seq<Node>, i: nat): seq<string>
    requires i < |items|
    decreases items, |items| - i, 0
  {
    match items[i]
    case File(_) => []
    case Dir(name, children) =>
      Lines(excluded, Paths.Join(dir, name), prefix + Indent(i == |items| - 1), children, 0)
  }

  /** Each line followed by a newline, as written to the tree file. */
  function Unlines(lines: seq<string>): string {
    if lines == [] then "" else lines[0] + "\n" + Unlines(lines[1..])
  }

  /** `generate_tree_structure`: the project's basename and a separator, then the tree. */
  function GenerateTree(projectPath: string, listing: seq<Node>): (r: string)
    ensures StartsWith(r, Paths.Basename(projectPath) + "/\n")
  {
    Paths.Basename(projectPath) + "/\n" + Unlines(Lines(Hidden, projectPath, "", SortLevel(listing), 0))
  }

  // ---------------------------------------------------------------------------
  // The shape of the rendered lines

  /** `line` is an entry drawn directly at depth `prefix`. */
  predicate IsEntryAt(prefix: string, line: string) {
    StartsWith(line, prefix + Tee) || StartsWith(line, prefix + Corner)
  }

  /** The entries drawn directly at depth `prefix`, with the prefix removed. */
  function LevelOf(prefix: string, lines: seq<string>): seq<string> {
    if lines == [] then []
    else
      (if IsEntryAt(prefix, lines[0]) then [lines[0][|prefix|..]] else [])
      + LevelOf(prefix, lines[1..])
  }

  /** What one directory's own entries should look like: connector and name of every
      entry that is not excluded, the corner going to the entry that is last in the listing. */
  function Visible(excluded: (string, Node) -> bool, dir: string, items: seq<Node>, i: nat): seq<string>
    requires i <= |items|
    decreases |items| - i
  {
    if i == |items| then []
    else
      (if excluded(dir, items[i]) then [] else [Connector(i == |items| - 1) + items[i].name])
      + Visible(excluded, dir, items, i + 1)
  }

  lemma {:induction false} LevelOfAppend(prefix: string, a: seq<string>, b: seq<string>)
    ensures LevelOf(prefix, a + b) == LevelOf(prefix, a) + LevelOf(prefix, b)
  {
    if a != [] {
      assert (a + b)[0] == a[0];
      assert (a + b)[1..] == a[1..] + b;
      LevelOfAppend(prefix, a[1..], b);
    } else {
      assert a + b == b;
    }
  }

  /** Lines drawn one level deeper contribute no entry at this level. */
  lemma {:induction false} LevelOfDeeper(prefix: string, last: bool, lines: seq<string>)
    requires forall l | l in lines :: StartsWith(l, prefix + Indent(last))
    ensures LevelOf(prefix, lines) == []
  {
    if lines != [] {
      var l := lines[0];
      assert l in lines;
      var deeper := prefix + Indent(last);
      assert l[..|deeper|] == deeper;
      assert l[|prefix|] == deeper[|prefix|] == Indent(last)[0];
      assert !IsEntryAt(prefix, l) by {
        if StartsWith(l, prefix + Tee) {
          assert l[|prefix|] == (prefix + Tee)[|prefix|] == Tee[0];
        }
        if StartsWith(l, prefix + Corner) {
          assert l[|prefix|] == (prefix + Corner)[|prefix|] == Corner[0];
        }
      }
      LevelOfDeeper(prefix, last, lines[1..]);
    }
  }

  /** Every line drawn for a directory starts with that directory's prefix. */
  lemma {:induction false} LinesHavePrefix(excluded: (string, Node) -> bool, dir: string, prefix: string, items: seq<Node>, i: nat)
    requires i <= |items|
    ensures forall l | l in Lines(excluded, dir, prefix, items, i) :: StartsWith(l, prefix)
    decreases items, |items| - i, 1
  {
    if i < |items| {
      LinesHavePrefix(excluded, dir, prefix, items, i + 1);
      if !excluded(dir, items[i]) {
        BlockHasPrefix(excluded, dir, prefix, items, i);
      }
    } else {
      assert Lines(excluded, dir, prefix, items, i) == [];
    }
  }

  lemma {:induction false} BlockHasPrefix(excluded: (string, Node) -> bool, dir: string, prefix: string, items: seq<Node>, i: nat)
    requires i < |items|
    ensures forall l | l in Block(excluded, dir, prefix, items, i) :: StartsWith(l, prefix)
    decreases items, |items| - i, 0
  {
    var last := i == |items| - 1;
    var entry := prefix + Connector(last) + items[i].name;
    assert entry[..|prefix|] == prefix;
    if items[i].Dir? {
      var deeper := prefix + Indent(last);
      LinesHavePrefix(excluded, Paths.Join(dir, items[i].name), deeper, items[i].children, 0);
      assert Below(excluded, dir, prefix, items, i) == Lines(excluded, Paths.Join(dir, items[i].name), deeper, items[i].children, 0);
      forall l | l in Below(excluded, dir, prefix, items, i) ensures StartsWith(l, prefix) {
        assert l[..|prefix|] == deeper[..|prefix|];
      }
    }
  }

  /** The lines below an entry are drawn one level deeper than the entry itself. */
  lemma BelowIsDeeper(excluded: (string, Node) -> bool, dir: string, prefix: string, items: seq<Node>, i: nat)
    requires i < |items|
    ensures forall l | l in Below(excluded, dir, prefix, items, i) :: StartsWith(l, prefix + Indent(i == |items| - 1))
  {
    if items[i].Dir? {
      var deeper := prefix + Indent(i == |items| - 1);
      LinesHavePrefix(excluded, Paths.Join(dir, items[i].name), deeper, items[i].children, 0);
      assert Below(excluded, dir, prefix, items, i) == Lines(excluded, Paths.Join(dir, items[i].name), deeper, items[i].children, 0);
    }
  }

  /** An entry's own line counts at its level, with its connector and name. */
  lemma EntryLevel(prefix: string, last: bool, name: string)
    ensures LevelOf(prefix, [prefix + Connector(last) + name]) == [Connector(last) + name]
  {
    var entry := prefix + Connector(last) + name;
    Prefixed(prefix + Connector(last), name);
    Prefixed(prefix, Connector(last) + name);
    assert prefix + (Connector(last) + name) == entry;
    assert [entry][1..] == [];
  }

  /** The entries drawn directly under a directory are exactly its non-hidden entries, in
      sorted order, each with the connector its position in the full listing gives it. */
  lemma {:induction false} LevelIsVisible(excluded: (string, Node) -> bool, dir: string, prefix: string, items: seq<Node>, i: nat)
    requires i <= |items|
    ensures LevelOf(prefix, Lines(excluded, dir, prefix, items, i)) == Visible(excluded, dir, items, i)
    decreases |items| - i
  {
    if i < |items| {
      LevelIsVisible(excluded, dir, prefix, items, i + 1);
      LevelStep(excluded, dir, prefix, items, i);
    } else {
      LinesEnd(excluded, dir, prefix, items, i);
      VisibleEnd(excluded, dir, items, i);
    }
  }

  /** The level of a listing from entry `i` on, given the level from entry `i + 1` on. */
  lemma LevelStep(excluded: (string, Node) -> bool, dir: string, prefix: string, items: seq<Node>, i: nat)
    requires i < |items|
    requires LevelOf(prefix, Lines(excluded, dir, prefix, items, i + 1)) == Visible(excluded, dir, items, i + 1)
    ensures LevelOf(prefix, Lines(excluded, dir, prefix, items, i)) == Visible(excluded, dir, items, i)
  {
    var rest := Lines(excluded, dir, prefix, items, i + 1);
    LinesStep(excluded, dir, prefix, items, i);
    if !excluded(dir, items[i]) {
      var block := Block(excluded, dir, prefix, items, i);
      LevelOfAppend(prefix, block, rest);
      BlockLevel(excluded, dir, prefix, items, i);
    }
  }

  /** One step of the walk over a listing: a hidden entry draws nothing and is not visible. */
  lemma LinesStep(excluded: (string, Node) -> bool, dir: string, prefix: string, items: seq<Node>, i: nat)
    requires i < |items|
    ensures excluded(dir, items[i]) ==>
      Lines(excluded, dir, prefix, items, i) == Lines(excluded, dir, prefix, items, i + 1) && Visible(excluded, dir, items, i) == Visible(excluded, dir, items, i + 1)
    ensures !excluded(dir, items[i]) ==>
      && Lines(excluded, dir, prefix, items, i) == Block(excluded, dir, prefix, items, i) + Lines(excluded, dir, prefix, items, i + 1)
      && Visible(excluded, dir, items, i) == [Connector(i == |items| - 1) + items[i].name] + Visible(excluded, dir, items, i + 1)
  {
    if excluded(dir, items[i]) {
      assert Lines(excluded, dir, prefix, items, i) == [] + Lines(excluded, dir, prefix, items, i + 1);
      assert Visible(excluded, dir, items, i) == [] + Visible(excluded, dir, items, i + 1);
    }
  }

  /** A block contributes exactly its entry's own line to its level. */
  lemma BlockLevel(excluded: (string, Node) -> bool, dir: string, prefix: string, items: seq<Node>, i: nat)
    requires i < |items|
    ensures LevelOf(prefix, Block(excluded, dir, prefix, items, i)) == [Connector(i == |items| - 1) + items[i].name]
  {
    var last := i == |items| - 1;
    var entry := prefix + Connector(last) + items[i].name;
    var below := Below(excluded, dir, prefix, items, i);
    LevelOfAppend(prefix, [entry], below);
    EntryLevel(prefix, last, items[i].name);
    BelowIsDeeper(excluded, dir, prefix, items, i);
    LevelOfDeeper(prefix, last, below);
  }


  /** When the last entry of a listing is hidden, no entry of that directory gets the corner. */
  lemma {:induction false} HiddenLastMeansNoCorner(excluded: (string, Node) -> bool, dir: string, items: seq<Node>, i: nat)
    requires i <= |items|
    requires |items| > 0 && excluded(dir, items[|items| - 1])
    ensures forall e | e in Visible(excluded, dir, items, i) :: StartsWith(e, Tee) && !StartsWith(e, Corner)
    decreases |items| - i
  {
    if i < |items| {
      HiddenLastMeansNoCorner(excluded, dir, items, i + 1);
      HiddenLastStep(excluded, dir, items, i);
    } else {
      VisibleEnd(excluded, dir, items, i);
    }
  }

  lemma HiddenLastStep(excluded: (string, Node) -> bool, dir: string, items: seq<Node>, i: nat)
    requires i < |items| && excluded(dir, items[|items| - 1])
    requires forall e | e in Visible(excluded, dir, items, i + 1) :: StartsWith(e, Tee) && !StartsWith(e, Corner)
    ensures forall e | e in Visible(excluded, dir, items, i) :: StartsWith(e, Tee) && !StartsWith(e, Corner)
  {
    if excluded(dir, items[i]) {
      assert Visible(excluded, dir, items, i) == [] + Visible(excluded, dir, items, i + 1);
    } else {
      VisibleStep(excluded, dir, items, i);
      TeeLine(items[i].name);
    }
  }

  lemma TeeLine(name: string)
    ensures StartsWith(Tee + name, Tee) && !StartsWith(Tee + name, Corner)
  {
    Prefixed(Tee, name);
    assert (Tee + name)[0] != Corner[0];
  }

  lemma VisibleLast(excluded: (string, Node) -> bool, dir: string, items: seq<Node>)
    requires |items| > 0 && !excluded(dir, items[|items| - 1])
    ensures Visible(excluded, dir, items, |items| - 1) == [Corner + items[|items| - 1].name]
    ensures Last(Visible(excluded, dir, items, |items| - 1)) == Corner + items[|items| - 1].name
  {
    assert Visible(excluded, dir, items, |items|) == [];
  }

  lemma VisibleStep(excluded: (string, Node) -> bool, dir: string, items: seq<Node>, i: nat)
    requires i < |items| - 1
    ensures Visible(excluded, dir, items, i)
         == (if excluded(dir, items[i]) then [] else [Tee + items[i].name]) + Visible(excluded, dir, items, i + 1)
  {
  }

  /** When the last entry is not hidden, the corner goes to it ... */
  lemma {:induction false} ShownLastGetsCorner(excluded: (string, Node) -> bool, dir: string, items: seq<Node>, i: nat)
    requires i < |items|
    requires !excluded(dir, items[|items| - 1])
    ensures Visible(excluded, dir, items, i) != []
    ensures Last(Visible(excluded, dir, items, i)) == Corner + items[|items| - 1].name
    decreases |items| - i
  {
    if i < |items| - 1 {
      ShownLastGetsCorner(excluded, dir, items, i + 1);
      ShownLastStep(excluded, dir, items, i);
    } else {
      VisibleLast(excluded, dir, items);
    }
  }

  lemma ShownLastStep(excluded: (string, Node) -> bool, dir: string, items: seq<Node>, i: nat)
    requires i < |items| - 1
    requires Visible(excluded, dir, items, i + 1) != [] && Last(Visible(excluded, dir, items, i + 1)) == Corner + items[|items| - 1].name
    ensures Visible(excluded, dir, items, i) != [] && Last(Visible(excluded, dir, items, i)) == Corner + items[|items| - 1].name
  {
    VisibleStep(excluded, dir, items, i);
    LastOfAppend(if excluded(dir, items[i]) then [] else [Tee + items[i].name], Visible(excluded, dir, items, i + 1));
  }

  /** Every entry but the last starts with the tee. */
  predicate TeesBeforeLast(entries: seq<string>) {
    forall k | 0 <= k < |entries| - 1 :: StartsWith(entries[k], Tee)
  }

  /** ... and to it only: every other entry of the directory gets the tee. */
  lemma {:induction false} OthersGetTee(excluded: (string, Node) -> bool, dir: string, items: seq<Node>, i: nat)
    requires i <= |items|
    ensures TeesBeforeLast(Visible(excluded, dir, items, i))
    decreases |items| - i
  {
    if i < |items| - 1 {
      OthersGetTee(excluded, dir, items, i + 1);
      OthersStep(excluded, dir, items, i);
    } else if i == |items| - 1 {
      VisibleLength(excluded, dir, items, i);
    } else {
      VisibleEnd(excluded, dir, items, i);
    }
  }

  lemma OthersStep(excluded: (string, Node) -> bool, dir: string, items: seq<Node>, i: nat)
    requires i < |items| - 1
    requires TeesBeforeLast(Visible(excluded, dir, items, i + 1))
    ensures TeesBeforeLast(Visible(excluded, dir, items, i))
  {
    var v, w := Visible(excluded, dir, items, i), Visible(excluded, dir, items, i + 1);
    VisibleStep(excluded, dir, items, i);
    forall k | 0 <= k < |v| - 1
      ensures StartsWith(v[k], Tee)
    {
      if excluded(dir, items[i]) {
        assert v[k] == w[k];
      } else if k == 0 {
        TeeLine(items[i].name);
      } else {
        assert v[k] == w[k - 1];
      }
    }
  }

  lemma LinesEnd(excluded: (string, Node) -> bool, dir: string, prefix: string, items: seq<Node>, i: nat)
    requires i == |items|
    ensures Lines(excluded, dir, prefix, items, i) == []
  {
  }

  lemma VisibleEnd(excluded: (string, Node) -> bool, dir: string, items: seq<Node>, i: nat)
    requires i == |items|
    ensures Visible(excluded, dir, items, i) == []
  {
  }

  lemma VisibleLength(excluded: (string, Node) -> bool, dir: string, items: seq<Node>, i: nat)
    requires i <= |items|
    ensures |Visible(excluded, dir, items, i)| <= |items| - i
    decreases |items| - i
  {
    if i < |items| {
      VisibleLength(excluded, dir, items, i + 1);
    }
  }

  /** Under a path that already contains `.git` nothing is drawn at all. */
  lemma {:induction false} GitDirDrawsNothing(dir: string, prefix: string, items: seq<Node>, i: nat)
    requires i <= |items|
    requires Contains(dir, ".git")
    requires forall k | 0 <= k < |items| :: !Paths.IsAbsolute(items[k].name)
    ensures Lines(Hidden, dir, prefix, items, i) == []
    decreases |items| - i
  {
    if i < |items| {
      var path := Paths.Join(dir, items[i].name);
      assert [] + dir + path[|dir|..] == path;
      ContainsWithin([], dir, path[|dir|..], ".git");
      assert Hidden(dir, items[i]);
      GitDirDrawsNothing(dir, prefix, items, i + 1);
      assert Lines(Hidden, dir, prefix, items, i) == [] + Lines(Hidden, dir, prefix, items, i + 1);
    } else {
      assert Lines(Hidden, dir, prefix, items, i) == [];
    }
  }

  /** Sorting a listing keeps the names it had. */
  lemma SortLevelNames(listing: seq<Node>, k: nat)
    requires k < |SortLevel(listing)|
    ensures exists j | 0 <= j < |listing| :: SortLevel(listing)[k].name == listing[j].name
  {
    var x := SortLevel(listing)[k];
    assert x in multiset(SortLevel(listing));
    assert x in multiset(SortEach(listing));
    var j :| 0 <= j < |SortEach(listing)| && SortEach(listing)[j] == x;
    assert x.name == listing[j].name;
  }

  /** A project whose own path contains `.git` renders as its header line alone. */
  lemma GitProjectRendersHeaderOnly(projectPath: string, listing: seq<Node>)
    requires Contains(projectPath, ".git")
    requires forall k | 0 <= k < |listing| :: '/' !in listing[k].name
    ensures GenerateTree(projectPath, listing) == Paths.Basename(projectPath) + "/\n"
  {
    var items := SortLevel(listing);
    forall k | 0 <= k < |items| ensures !Paths.IsAbsolute(items[k].name) {
      SortLevelNames(listing, k);
      var j :| 0 <= j < |listing| && items[k].name == listing[j].name;
      var nm := items[k].name;
      if nm != [] {
        assert nm[0] in nm;
      }
    }
    GitDirDrawsNothing(projectPath, "", items, 0);
  }

  /** The header uses the basename of the path as given, so a trailing separator leaves it empty. */
  lemma TrailingSeparatorEmptiesHeader()
    ensures GenerateTree("proj/", []) == "/\n"
  {
    assert Paths.Basename("proj/") == [];
  }
}
