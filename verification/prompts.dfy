/** Analyzer discovery and prompt loading. An analyzer is a directory under `analyzer/`
    holding one prompt file per stage. */
module Prompts {
  import opened Strings
  import opened Wrappers
  import Paths

  const AnalyzerRoot := "analyzer"

  /** `discover_analyzers`: the joined path of every listed name that is a directory,
      in listing order. `listing` is what `os.listdir` returned for the analyzer root,
      `dirs` the paths `os.path.isdir` accepts. */
  function DiscoverAnalyzers(listing: seq<string>, dirs: set<string>): (analyzers: seq<string>)
    ensures |analyzers| <= |listing|
    ensures forall d | d in analyzers :: d in dirs
    ensures forall n | n in listing :: Paths.Join(AnalyzerRoot, n) in dirs ==> Paths.Join(AnalyzerRoot, n) in analyzers
    ensures forall d | d in analyzers :: exists n | n in listing :: d == Paths.Join(AnalyzerRoot, n)
  {
    DiscoverFacts(listing, dirs);
    Discover(listing, dirs)
  }

  /** The directory of a listed name, when it is one. */
  function DiscoverHead(name: string, dirs: set<string>): seq<string> {
    var d := Paths.Join(AnalyzerRoot, name);
    if d in dirs then [d] else []
  }

  /** The loop of `discover_analyzers`, name by name. */
  function Discover(listing: seq<string>, dirs: set<string>): seq<string> {
    if listing == [] then [] else DiscoverHead(listing[0], dirs) + Discover(listing[1..], dirs)
  }

  lemma {:induction false} DiscoverFacts(listing: seq<string>, dirs: set<string>)
    ensures var r := Discover(listing, dirs);
      && |r| <= |listing|
      && (forall d | d in r :: d in dirs)
      && (forall n | n in listing :: Paths.Join(AnalyzerRoot, n) in dirs ==> Paths.Join(AnalyzerRoot, n) in r)
      && (forall d | d in r :: exists n | n in listing :: d == Paths.Join(AnalyzerRoot, n))
  {
    if listing != [] {
      var rest := Discover(listing[1..], dirs);
      var d := Paths.Join(AnalyzerRoot, listing[0]);
      DiscoverFacts(listing[1..], dirs);
      DiscoverStep(listing, dirs, rest, d);
      assert Discover(listing, dirs) == if d in dirs then [d] + rest else rest;
    }
  }

  /** One more listed name: its directory, when it is one, goes in front of the others. */
  lemma DiscoverStep(listing: seq<string>, dirs: set<string>, rest: seq<string>, d: string)
    requires listing != [] && d == Paths.Join(AnalyzerRoot, listing[0])
    requires |rest| <= |listing[1..]|
    requires forall e | e in rest :: e in dirs
    requires forall n | n in listing[1..] :: Paths.Join(AnalyzerRoot, n) in dirs ==> Paths.Join(AnalyzerRoot, n) in rest
    requires forall e | e in rest :: exists n | n in listing[1..] :: e == Paths.Join(AnalyzerRoot, n)
    ensures var r := if d in dirs then [d] + rest else rest;
      && |r| <= |listing|
      && (forall e | e in r :: e in dirs)
      && (forall n | n in listing :: Paths.Join(AnalyzerRoot, n) in dirs ==> Paths.Join(AnalyzerRoot, n) in r)
      && (forall e | e in r :: exists n | n in listing :: e == Paths.Join(AnalyzerRoot, n))
  {
    var r := if d in dirs then [d] + rest else rest;
    assert listing == [listing[0]] + listing[1..];
    forall e | e in r ensures exists n | n in listing :: e == Paths.Join(AnalyzerRoot, n) {
      if e != d {
        var n :| n in listing[1..] && e == Paths.Join(AnalyzerRoot, n);
        assert n in listing;
      } else {
        assert listing[0] in listing;
      }
    }
  }

  /** Discovery over two listings in a row is discovery over each, in that order: names
      are taken in listing order and each at most once per listing. */
  lemma DiscoverAppend(a: seq<string>, b: seq<string>, dirs: set<string>)
    ensures DiscoverAnalyzers(a + b, dirs) == DiscoverAnalyzers(a, dirs) + DiscoverAnalyzers(b, dirs)
  {
    DiscoverConcat(a, b, dirs);
  }

  lemma {:induction false} DiscoverConcat(a: seq<string>, b: seq<string>, dirs: set<string>)
    ensures Discover(a + b, dirs) == Discover(a, dirs) + Discover(b, dirs)
    decreases |a|
  {
    if a == [] {
      assert a + b == b;
    } else {
      assert (a + b)[0] == a[0] && (a + b)[1..] == a[1..] + b;
      DiscoverConcat(a[1..], b, dirs);
      var head := DiscoverHead(a[0], dirs);
      assert head + (Discover(a[1..], dirs) + Discover(b, dirs))
          == (head + Discover(a[1..], dirs)) + Discover(b, dirs);
    }
  }

  /** A single listed name yields its directory exactly when it is one. */
  lemma DiscoverOne(name: string, dirs: set<string>)
    ensures DiscoverAnalyzers([name], dirs)
         == if Paths.Join(AnalyzerRoot, name) in dirs then [Paths.Join(AnalyzerRoot, name)] else []
  {
    assert [name][1..] == [];
    assert Discover([name], dirs) == DiscoverHead(name, dirs) + [];
  }

  /** The names of one directory listing are distinct, non-empty and free of `/`, so the
      analyzers discovered from it have pairwise different basenames, each a listed name. */
  lemma DiscoveredBasenamesDistinct(listing: seq<string>, dirs: set<string>)
    requires forall p, q | 0 <= p < q < |listing| :: listing[p] != listing[q]
    requires forall n | n in listing :: n != [] && '/' !in n
    ensures NamesDiffer(Paths.Basename, DiscoverAnalyzers(listing, dirs))
    ensures forall d | d in DiscoverAnalyzers(listing, dirs) :: Paths.Basename(d) in listing
  {
    forall n | n in listing ensures Paths.Basename(Paths.Join(AnalyzerRoot, n)) == n {
      AnalyzerName(n);
    }
    DiscoveredNamesDistinct(Paths.Basename, listing, dirs);
  }

  /** The same for any naming of directories that gives back the listed name. */
  lemma {:induction false} DiscoveredNamesDistinct(name: string -> string, listing: seq<string>, dirs: set<string>)
    requires forall p, q | 0 <= p < q < |listing| :: listing[p] != listing[q]
    requires forall n | n in listing :: name(Paths.Join(AnalyzerRoot, n)) == n
    ensures NamesDiffer(name, Discover(listing, dirs))
    ensures forall d | d in Discover(listing, dirs) :: name(d) in listing
  {
    if listing != [] {
      var rest := Discover(listing[1..], dirs);
      var d := Paths.Join(AnalyzerRoot, listing[0]);
      ListingTail(listing);
      assert forall n | n in listing[1..] :: n in listing;
      DiscoveredNamesDistinct(name, listing[1..], dirs);
      assert listing[0] in listing;
      if d in dirs {
        assert Discover(listing, dirs) == [d] + rest;
        NamesCons(name, d, rest, listing[0], listing[1..]);
      } else {
        assert Discover(listing, dirs) == rest;
      }
    }
  }

  /** The tail of a listing of distinct names is one too, and lacks the first name. */
  lemma ListingTail(listing: seq<string>)
    requires listing != []
    requires forall p, q | 0 <= p < q < |listing| :: listing[p] != listing[q]
    ensures forall p, q | 0 <= p < q < |listing[1..]| :: listing[1..][p] != listing[1..][q]
    ensures listing[0] !in listing[1..]
  {
    forall p, q | 0 <= p < q < |listing[1..]| ensures listing[1..][p] != listing[1..][q] {
      assert listing[1..][p] == listing[p + 1] && listing[1..][q] == listing[q + 1];
    }
    forall j | 0 <= j < |listing[1..]| ensures listing[1..][j] != listing[0] {
      assert listing[1..][j] == listing[j + 1];
    }
  }

  /** No two of the directories get the same name. */
  predicate NamesDiffer(name: string -> string, a: seq<string>) {
    forall p, q | 0 <= p < q < |a| :: name(a[p]) != name(a[q])
  }

  /** Names that differ from one another stay so with a new name in front. */
  lemma NamesCons(name: string -> string, d: string, rest: seq<string>, x: string, names: seq<string>)
    requires name(d) == x && x !in names
    requires forall e | e in rest :: name(e) in names
    requires NamesDiffer(name, rest)
    ensures NamesDiffer(name, [d] + rest)
  {
    var a := [d] + rest;
    forall p, q | 0 <= p < q < |a| ensures name(a[p]) != name(a[q]) {
      assert a[q] == rest[q - 1] && rest[q - 1] in rest;
      if p > 0 {
        assert a[p] == rest[p - 1];
      }
    }
  }

  /** A listed name that is neither empty nor a path is the basename of its analyzer directory. */
  lemma AnalyzerName(name: string)
    requires name != [] && '/' !in name
    ensures Paths.Join(AnalyzerRoot, name) == "analyzer/" + name
    ensures Paths.Basename(Paths.Join(AnalyzerRoot, name)) == name
  {
    assert !Paths.IsAbsolute(name) by {
      assert name[0] in name;
    }
    assert AnalyzerRoot[|AnalyzerRoot| - 1] == 'r';
    Paths.JoinShape(AnalyzerRoot, name);
    assert AnalyzerRoot + "/" == "analyzer/";
    Paths.BasenameOfJoin(AnalyzerRoot, name);
  }

  /** The decimal digits of a stage number, as an f-string formats it. */
  function Decimal(n: nat): string {
    var d := [(('0' as int) + n % 10) as char];
    if n < 10 then d else Decimal(n / 10) + d
  }

  /** A stage number is written as a non-empty run of decimal digits. */
  lemma {:induction false} DecimalDigits(n: nat)
    ensures Decimal(n) != [] && forall j | 0 <= j < |Decimal(n)| :: '0' <= Decimal(n)[j] <= '9'
  {
    if n >= 10 {
      DecimalDigits(n / 10);
    }
  }

  /** The number a run of decimal digits denotes. */
  function DigitsValue(s: string): nat {
    if s == [] then 0
    else
      var d := (s[|s| - 1] as int) - ('0' as int);
      DigitsValue(s[..|s| - 1]) * 10 + (if 0 <= d then d else 0)
  }

  /** The stage numeral denotes the stage number. */
  lemma {:induction false} DecimalValue(n: nat)
    ensures DigitsValue(Decimal(n)) == n
  {
    var d := [(('0' as int) + n % 10) as char];
    if n >= 10 {
      DecimalValue(n / 10);
      var s := Decimal(n / 10) + d;
      assert s[..|s| - 1] == Decimal(n / 10);
    }
  }

  /** The two stage files an analyzer directory holds. */
  lemma StagePathsNamed(analyzerDir: string)
    ensures StagePath(analyzerDir, 1) == Paths.Join(analyzerDir, "stage1.toml")
    ensures StagePath(analyzerDir, 2) == Paths.Join(analyzerDir, "stage2.toml")
  {
    assert Decimal(1) == "1";
    assert Decimal(2) == "2";
  }

  /** The parsed stage file: tables of string entries. */
  type StageDoc = map<string, map<string, string>>

  datatype Prompt = Prompt(system: string, user: string)

  datatype LoadError = StageFileMissing(path: string)

  /** `<analyzerDir>/stage<N>.toml` */
  function StagePath(analyzerDir: string, stage: nat): string {
    Paths.Join(analyzerDir, "stage" + Decimal(stage) + ".toml")
  }

  /** `prompts.get(table, {}).get('content', '')` */
  function ContentOf(doc: StageDoc, table: string): string {
    if table in doc && "content" in doc[table] then doc[table]["content"] else ""
  }

  /** `load_prompt(analyzer_dir, stage)`: `stageFiles` maps each existing stage-file path
      to its parsed contents; a missing file is an error, missing entries read as empty. */
  function LoadPrompt(stageFiles: map<string, StageDoc>, analyzerDir: string, stage: nat): (r: Result<Prompt, LoadError>)
    ensures r.Failure? <==> StagePath(analyzerDir, stage) !in stageFiles
    ensures r.Failure? ==> r.error == StageFileMissing(StagePath(analyzerDir, stage))
  {
    var path := StagePath(analyzerDir, stage);
    if path !in stageFiles then Failure(StageFileMissing(path))
    else
      var doc := stageFiles[path];
      Success(Prompt(ContentOf(doc, "system"), ContentOf(doc, "user")))
  }

  /** An existing stage file yields its `system` and `user` contents, each empty when the
      table or its `content` entry is absent. */
  lemma LoadPromptContents(stageFiles: map<string, StageDoc>, analyzerDir: string, stage: nat, doc: StageDoc)
    requires StagePath(analyzerDir, stage) in stageFiles && stageFiles[StagePath(analyzerDir, stage)] == doc
    ensures LoadPrompt(stageFiles, analyzerDir, stage).Success?
    ensures var p := LoadPrompt(stageFiles, analyzerDir, stage).value;
      && ("system" in doc && "content" in doc["system"] ==> p.system == doc["system"]["content"])
      && ("system" !in doc || "content" !in doc["system"] ==> p.system == "")
      && ("user" in doc && "content" in doc["user"] ==> p.user == doc["user"]["content"])
      && ("user" !in doc || "content" !in doc["user"] ==> p.user == "")
  {
  }

  /** The aggregate stage reads its prompt from `analyzer/<name>`, which is the directory
      discovery found for that name, so both stages read the same analyzer's files. */
  lemma SameAnalyzerBothStages(stageFiles: map<string, StageDoc>, name: string, stage: nat)
    requires name != [] && '/' !in name
    ensures LoadPrompt(stageFiles, "analyzer/" + name, stage)
         == LoadPrompt(stageFiles, Paths.Join(AnalyzerRoot, name), stage)
  {
    AnalyzerName(name);
  }
}
