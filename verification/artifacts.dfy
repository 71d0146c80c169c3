/** Names of the files the pipeline writes under its output directory, how the aggregate
    stage selects the per-file analyses of one analyzer, and the text it builds from them. */
module Artifacts {
  import opened Strings
  import Paths

  /** `results-<project name>` */
  function OutputDir(projectName: string): string {
    "results-" + projectName
  }

  /** `<output>/tree.txt` */
  function TreePath(out: string): string {
    Paths.Join(out, "tree.txt")
  }

  /** What follows the relative path in a stage-1 artifact name: `-<analyzer>.md`. */
  function Marker(analyzer: string): string {
    "-" + analyzer + ".md"
  }

  /** The stage-1 artifact of one source file and one analyzer: `<output>/<relative>-<analyzer>.md`. */
  function Stage1Path(out: string, relativePath: string, analyzer: string): string {
    Paths.Join(out, relativePath + Marker(analyzer))
  }

  /** `<output>/high_level_analysis_<analyzer>.md` */
  function AggregatePath(out: string, analyzer: string): string {
    Paths.Join(out, AggregateName(analyzer))
  }

  function AggregateName(analyzer: string): string {
    "high_level_analysis_" + analyzer + ".md"
  }

  /** The aggregate stage takes a file found under the output directory when its name
      contains the marker anywhere, not only at its end. */
  predicate Selected(fileName: string, analyzer: string) {
    Contains(fileName, Marker(analyzer))
  }

  /** `file_path[:-len(marker)]`: the path without as many trailing characters as the
      marker has; Python gives the empty string when the path is shorter. */
  function Label(filePath: string, analyzer: string): (r: string)
    ensures |Marker(analyzer)| <= |filePath| ==> |r| + |Marker(analyzer)| == |filePath| && StartsWith(filePath, r)
    ensures |filePath| < |Marker(analyzer)| ==> r == []
  {
    var n := |Marker(analyzer)|;
    if n <= |filePath| then filePath[..|filePath| - n] else []
  }

  // ---------------------------------------------------------------------------
  // Naming properties

  /** A stage-1 artifact is the joined relative path followed by the marker. */
  lemma Stage1PathShape(out: string, relativePath: string, analyzer: string)
    ensures Stage1Path(out, relativePath, analyzer) == Paths.Join(out, relativePath) + Marker(analyzer)
  {
    assert Marker(analyzer)[..1] == "-";
    Paths.JoinAppend(out, relativePath, Marker(analyzer));
  }

  lemma MarkerHasNoSlash(analyzer: string)
    requires '/' !in analyzer
    ensures '/' !in Marker(analyzer)
  {
    var m := Marker(analyzer);
    forall j | 0 <= j < |m| ensures m[j] != '/' {
      if 1 <= j < 1 + |analyzer| {
        assert m[j] == analyzer[j - 1];
        assert analyzer[j - 1] in analyzer;
      }
    }
  }

  /** Every stage-1 artifact of an analyzer is selected for it, and its label is the
      analysed file's path under the output directory. */
  lemma OwnArtifactSelected(out: string, relativePath: string, analyzer: string)
    requires '/' !in analyzer
    ensures Selected(Paths.Basename(Stage1Path(out, relativePath, analyzer)), analyzer)
    ensures Label(Stage1Path(out, relativePath, analyzer), analyzer) == Paths.Join(out, relativePath)
  {
    var m := Marker(analyzer);
    var x := Paths.Join(out, relativePath);
    Stage1PathShape(out, relativePath, analyzer);
    MarkerHasNoSlash(analyzer);
    Paths.BasenameAppend(x, m);
    ContainsSelf(m);
    ContainsAfter(Paths.Basename(x), m, m);
    LabelDropsMarker(x, analyzer);
  }

  lemma LabelDropsMarker(x: string, analyzer: string)
    ensures Label(x + Marker(analyzer), analyzer) == x
  {
    var m := Marker(analyzer);
    assert (x + m)[..|x + m| - |m|] == x;
  }

  /** Two different (file, analyzer) pairs share an artifact when one analyzer name
      continues the other's after a hyphen. */
  lemma ArtifactCollision(out: string, relativePath: string, other: string, analyzer: string)
    ensures Stage1Path(out, relativePath + "-" + other, analyzer)
         == Stage1Path(out, relativePath, other + "-" + analyzer)
  {
    assert relativePath + "-" + other + Marker(analyzer) == relativePath + Marker(other + "-" + analyzer);
  }

  /** The artifacts of analyzer `<other>-<name>` are also selected for analyzer `<name>`,
      labelled as if the analysed file were named `<relative>-<other>`. */
  lemma HyphenSuffixLeak(out: string, relativePath: string, other: string, analyzer: string)
    requires '/' !in analyzer
    ensures var p := Stage1Path(out, relativePath, other + "-" + analyzer);
      && Selected(Paths.Basename(p), analyzer)
      && Label(p, analyzer) == Paths.Join(out, relativePath + "-" + other)
  {
    ArtifactCollision(out, relativePath, other, analyzer);
    OwnArtifactSelected(out, relativePath + "-" + other, analyzer);
  }

  /** With hyphen-free analyzer names, different (file, analyzer) pairs never share an
      artifact name. */
  lemma HyphenFreeNamesAreDistinct(r1: string, a1: string, r2: string, a2: string)
    requires '-' !in a1 && '-' !in a2
    requires r1 + Marker(a1) == r2 + Marker(a2)
    ensures r1 == r2 && a1 == a2
  {
    var s := r1 + Marker(a1);
    LastHyphen(r1, a1);
    LastHyphen(r2, a2);
    assert |r1| == |r2|;
    assert r1 == s[..|r1|] == r2;
    assert a1 == s[|r1| + 1..|s| - 3] == a2;
  }

  /** The marker's hyphen is the last one of an artifact name with a hyphen-free analyzer. */
  lemma LastHyphen(r: string, a: string)
    requires '-' !in a
    ensures var s := r + Marker(a);
      s[|r|] == '-' && forall j | |r| < j < |s| :: s[j] != '-'
  {
    var s := r + Marker(a);
    forall j | |r| < j < |s| ensures s[j] != '-' {
      if j <= |r| + |a| {
        assert s[j] == a[j - |r| - 1];
        assert a[j - |r| - 1] in a;
      }
    }
  }

  /** The tree file is never selected. */
  lemma TreeFileNeverSelected(analyzer: string)
    ensures !Selected("tree.txt", analyzer)
  {
    MissingCharExcludes("tree.txt", Marker(analyzer), '-');
  }

  /** An aggregate analysis is never selected for its own analyzer: the marker's hyphen would
      have to fall in the hyphen-free prefix. */
  lemma AggregateNeverSelected(analyzer: string)
    ensures !Selected(AggregateName(analyzer), analyzer)
  {
    assert AggregateName(analyzer) == "high_level_analysis_" + (analyzer + ".md");
    NoMarkerAfter("high_level_analysis_", analyzer);
  }

  lemma {:induction false} NoMarkerAfter(x: string, analyzer: string)
    requires '-' !in x
    ensures !Contains(x + (analyzer + ".md"), Marker(analyzer))
    decreases |x|
  {
    var s := x + (analyzer + ".md");
    var m := Marker(analyzer);
    if Contains(s, m) {
      if StartsWith(s, m) {
        MarkerStartsWithHyphen(s, analyzer);
      } else if x == [] {
        assert Contains(s[1..], m);
        ContainsFits(s[1..], m);
      } else {
        assert s[1..] == x[1..] + (analyzer + ".md");
        assert '-' !in x[1..] by {
          assert forall j | 0 <= j < |x| - 1 :: x[1..][j] == x[j + 1];
        }
        NoMarkerAfter(x[1..], analyzer);
      }
    }
  }

  lemma MarkerStartsWithHyphen(s: string, analyzer: string)
    requires StartsWith(s, Marker(analyzer))
    ensures s != [] && s[0] == '-'
  {
    assert s[0] == s[..|Marker(analyzer)|][0];
  }

  /** Stage-1 artifacts and the aggregate analyses never overwrite the tree file. */
  lemma TreeFileKept(out: string, relativePath: string, analyzer: string)
    ensures Stage1Path(out, relativePath, analyzer) != TreePath(out)
    ensures AggregatePath(out, analyzer) != TreePath(out)
  {
    var p := Stage1Path(out, relativePath, analyzer);
    var m := relativePath + Marker(analyzer);
    assert m[|m| - 1] == 'd';
    assert p[|p| - 1] == m[|m| - 1];
    var t := TreePath(out);
    assert t[|t| - 1] == 't';
    var a := AggregatePath(out, analyzer);
    var g := AggregateName(analyzer);
    assert a[|a| - 1] == g[|g| - 1] == 'd';
  }

  // ---------------------------------------------------------------------------
  // Aggregation

  /** A file met by the walk over the output directory, with the text it holds. */
  datatype OutputFile = OutputFile(root: string, name: string, text: string)

  function PathOf(f: OutputFile): string {
    Paths.Join(f.root, f.name)
  }

  /** The files selected for an analyzer, in walk order. */
  function SelectedFiles(walk: seq<OutputFile>, analyzer: string): (r: seq<OutputFile>)
    ensures |r| <= |walk|
  {
    if walk == [] then []
    else
      var rest := SelectedFiles(walk[1..], analyzer);
      if Selected(walk[0].name, analyzer) then [walk[0]] + rest else rest
  }

  /** Exactly the walked files whose name holds the marker are selected. */
  lemma {:induction false} SelectedFilesMembers(walk: seq<OutputFile>, analyzer: string)
    ensures forall f | f in SelectedFiles(walk, analyzer) :: f in walk && Selected(f.name, analyzer)
    ensures forall f | f in walk && Selected(f.name, analyzer) :: f in SelectedFiles(walk, analyzer)
  {
    if walk != [] {
      SelectedFilesMembers(walk[1..], analyzer);
      assert walk == [walk[0]] + walk[1..];
    }
  }

  /** What one selected file contributes: its label line, its text and a spacer. */
  function Summary(f: OutputFile, analyzer: string): seq<string> {
    ["Filename: " + Label(PathOf(f), analyzer), f.text, "\n\n\n"]
  }

  /** `analysis_summaries[analyzer]` after the walk. */
  function SummaryParts(walk: seq<OutputFile>, analyzer: string): seq<string> {
    if walk == [] then []
    else
      var own := if Selected(walk[0].name, analyzer) then Summary(walk[0], analyzer) else [];
      own + SummaryParts(walk[1..], analyzer)
  }

  /** The `{content}` value of the aggregate prompt. */
  function AggregateContent(walk: seq<OutputFile>, analyzer: string): string {
    Join(SummaryParts(walk, analyzer), "\n\n")
  }

  /** The summary list holds three entries per selected file, in walk order. */
  lemma {:induction false} SummaryLayout(walk: seq<OutputFile>, analyzer: string)
    ensures |SummaryParts(walk, analyzer)| == 3 * |SelectedFiles(walk, analyzer)|
  {
    if walk != [] {
      SummaryLayout(walk[1..], analyzer);
    }
  }

  /** The entries of the `k`-th selected file: its label line, its text, the spacer. */
  lemma {:induction false} SummaryEntries(walk: seq<OutputFile>, analyzer: string, k: nat)
    requires k < |SelectedFiles(walk, analyzer)|
    ensures 3 * k + 3 <= |SummaryParts(walk, analyzer)|
    ensures SummaryParts(walk, analyzer)[3 * k..3 * k + 3] == Summary(SelectedFiles(walk, analyzer)[k], analyzer)
  {
    SummaryLayout(walk, analyzer);
    var parts := SummaryParts(walk, analyzer);
    var sel := SelectedFiles(walk, analyzer);
    var rest := SelectedFiles(walk[1..], analyzer);
    var tail := SummaryParts(walk[1..], analyzer);
    SummaryLayout(walk[1..], analyzer);
    if !Selected(walk[0].name, analyzer) {
      assert sel == rest;
      assert parts == tail;
      SummaryEntries(walk[1..], analyzer, k);
    } else {
      var head := Summary(walk[0], analyzer);
      assert parts == head + tail;
      assert sel == [walk[0]] + rest;
      if k > 0 {
        SummaryEntries(walk[1..], analyzer, k - 1);
        var j := 3 * (k - 1);
        assert tail[j..j + 3] == Summary(rest[k - 1], analyzer);
        assert sel[k] == rest[k - 1];
        ShiftedSlice(head, tail, j);
        assert j + 3 == 3 * k && j + 6 == 3 * k + 3;
      } else {
        assert parts[0..3] == head;
      }
    }
  }

  lemma ShiftedSlice(a: seq<string>, b: seq<string>, j: nat)
    requires j + 3 <= |b| && |a| == 3
    ensures (a + b)[j + 3..j + 6] == b[j..j + 3]
  {
  }

  /** With nothing selected the aggregate content is empty; otherwise it starts with the
      label line of the first selected file. */
  lemma AggregateContentStart(walk: seq<OutputFile>, analyzer: string)
    ensures var sel := SelectedFiles(walk, analyzer);
      && (sel == [] ==> AggregateContent(walk, analyzer) == "")
      && (sel != [] ==> StartsWith(AggregateContent(walk, analyzer), "Filename: " + Label(PathOf(sel[0]), analyzer)))
  {
    SummaryLayout(walk, analyzer);
    var parts := SummaryParts(walk, analyzer);
    if |parts| > 1 {
      SummaryEntries(walk, analyzer, 0);
      assert parts[0] == parts[..3][0];
      JoinTwo(parts[0], parts[1..], "\n\n");
      assert parts == [parts[0]] + parts[1..];
      var c := AggregateContent(walk, analyzer);
      assert c[..|parts[0]|] == parts[0];
    }
  }
}
