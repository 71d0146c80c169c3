/** The aggregate stage (`perform_high_level_analysis`): one summary per distinct analyzer
    name, built from the stage-1 artifacts found under the output directory, then one
    generated report per name. */
module HighLevel {
  import opened Wrappers
  import opened Seqs
  import opened Strings
  import Paths
  import Markdown
  import Template
  import Prompts
  import Artifacts
  import opened Pipeline

  /** `os.path.basename` of every analyzer directory, in discovery order. */
  function Basenames(analyzers: seq<string>): (r: seq<string>)
    ensures |r| == |analyzers|
  {
    if analyzers == [] then []
    else Basenames(analyzers[..|analyzers| - 1]) + [Paths.Basename(analyzers[|analyzers| - 1])]
  }

  lemma {:induction false} BasenamesIndex(analyzers: seq<string>, k: nat)
    requires k < |analyzers|
    ensures Basenames(analyzers)[k] == Paths.Basename(analyzers[k])
  {
    if k < |analyzers| - 1 {
      var init := analyzers[..|analyzers| - 1];
      BasenamesIndex(init, k);
      assert init[k] == analyzers[k];
    }
  }

  /** The keys a dictionary ends up with when `xs` are inserted in order: each value at its
      first insertion. */
  function Dedup<T(==)>(xs: seq<T>): seq<T> {
    if xs == [] then []
    else
      var keys := Dedup(xs[..|xs| - 1]);
      if xs[|xs| - 1] in keys then keys else keys + [xs[|xs| - 1]]
  }

  /** Every inserted value is a key, every key was inserted, and no key repeats. */
  lemma {:induction false} DedupMembers<T>(xs: seq<T>)
    ensures forall x :: x in Dedup(xs) <==> x in xs
    ensures forall p, q | 0 <= p < q < |Dedup(xs)| :: Dedup(xs)[p] != Dedup(xs)[q]
    ensures |Dedup(xs)| <= |xs|
  {
    if xs != [] {
      var init := xs[..|xs| - 1];
      DedupMembers(init);
      assert xs == init + [xs[|xs| - 1]];
    }
  }

  /** Inserting pairwise different values keeps them all, in order. */
  lemma {:induction false} DedupOfDistinct<T>(xs: seq<T>)
    requires forall p, q | 0 <= p < q < |xs| :: xs[p] != xs[q]
    ensures Dedup(xs) == xs
  {
    if xs != [] {
      var init := xs[..|xs| - 1];
      DedupOfDistinct(init);
      assert xs[|xs| - 1] !in init;
      assert xs == init + [xs[|xs| - 1]];
    }
  }

  /** A value inserted twice yields one key only. */
  lemma {:induction false} DedupRepeat<T>(xs: seq<T>, p: nat, q: nat)
    requires p < q < |xs| && xs[p] == xs[q]
    ensures |Dedup(xs)| < |xs|
  {
    var init := xs[..|xs| - 1];
    DedupMembers(init);
    if q == |xs| - 1 {
      assert init[p] == xs[q];
    } else {
      assert init[p] == xs[p] && init[q] == xs[q];
      DedupRepeat(init, p, q);
    }
  }

  /** The keys of `analysis_summaries`: the analyzers' basenames, each at its first
      insertion. */
  function DistinctNames(analyzers: seq<string>): seq<string> {
    Dedup(Basenames(analyzers))
  }

  lemma BasenamesMembers(analyzers: seq<string>)
    ensures forall n :: n in Basenames(analyzers) <==>
      exists k | 0 <= k < |analyzers| :: Paths.Basename(analyzers[k]) == n
  {
    var bs := Basenames(analyzers);
    forall n ensures n in bs <==> exists k | 0 <= k < |analyzers| :: Paths.Basename(analyzers[k]) == n {
      if n in bs {
        var k :| 0 <= k < |bs| && bs[k] == n;
        BasenamesIndex(analyzers, k);
      }
      if exists k | 0 <= k < |analyzers| :: Paths.Basename(analyzers[k]) == n {
        var k :| 0 <= k < |analyzers| && Paths.Basename(analyzers[k]) == n;
        BasenamesIndex(analyzers, k);
        assert bs[k] in bs;
      }
    }
  }

  /** A name is a key exactly when some analyzer directory has it as basename, and keys
      are pairwise different. */
  lemma DistinctNamesKeys(analyzers: seq<string>)
    ensures forall n :: n in DistinctNames(analyzers) <==>
      exists k | 0 <= k < |analyzers| :: Paths.Basename(analyzers[k]) == n
    ensures forall p, q | 0 <= p < q < |DistinctNames(analyzers)| ::
      DistinctNames(analyzers)[p] != DistinctNames(analyzers)[q]
  {
    var keys := DistinctNames(analyzers);
    BasenamesMembers(analyzers);
    assert forall n :: n in keys <==> n in Basenames(analyzers) by {
      DedupMembers(Basenames(analyzers));
    }
    assert forall p, q | 0 <= p < q < |keys| :: keys[p] != keys[q] by {
      DedupMembers(Basenames(analyzers));
    }
  }

  /** With pairwise different basenames every analyzer gets its own key, in discovery order. */
  lemma DistinctNamesOfDistinct(analyzers: seq<string>)
    requires forall p, q | 0 <= p < q < |analyzers| :: Paths.Basename(analyzers[p]) != Paths.Basename(analyzers[q])
    ensures |DistinctNames(analyzers)| == |analyzers|
    ensures forall k | 0 <= k < |analyzers| :: DistinctNames(analyzers)[k] == Paths.Basename(analyzers[k])
  {
    var bs := Basenames(analyzers);
    forall k | 0 <= k < |analyzers| ensures bs[k] == Paths.Basename(analyzers[k]) {
      BasenamesIndex(analyzers, k);
    }
    DedupOfDistinct(bs);
  }

  /** Two analyzer directories with the same basename share one key, so one report. */
  lemma DistinctNamesShared(analyzers: seq<string>, p: nat, q: nat)
    requires p < q < |analyzers| && Paths.Basename(analyzers[p]) == Paths.Basename(analyzers[q])
    ensures |DistinctNames(analyzers)| < |analyzers|
  {
    BasenamesIndex(analyzers, p);
    BasenamesIndex(analyzers, q);
    DedupRepeat(Basenames(analyzers), p, q);
  }

  /** Analyzers discovered from one listing of distinct, non-empty, slash-free names get one
      key each, in discovery order: the shared-key case never arises from `os.listdir`. */
  lemma DiscoveredAnalyzersOwnKeys(listing: seq<string>, dirs: set<string>)
    requires forall p, q | 0 <= p < q < |listing| :: listing[p] != listing[q]
    requires forall n | n in listing :: n != [] && '/' !in n
    ensures var a := Prompts.DiscoverAnalyzers(listing, dirs);
      && |DistinctNames(a)| == |a|
      && forall k | 0 <= k < |a| :: DistinctNames(a)[k] == Paths.Basename(a[k])
  {
    var a := Prompts.DiscoverAnalyzers(listing, dirs);
    Prompts.DiscoveredBasenamesDistinct(listing, dirs);
    assert Prompts.NamesDiffer(Paths.Basename, a);
    DistinctNamesOfDistinct(a);
  }

  /** `f"analyzer/{analyzer_name}"`: the aggregate stage rebuilds the directory from the name. */
  function NameDir(name: string): string {
    "analyzer/" + name
  }

  /** One report: load the stage-2 prompt of `analyzer/<name>`, substitute the joined
      summaries and the tree, generate, normalise and name the report. */
  function Aggregate(run: Run, outWalk: seq<Artifacts.OutputFile>, name: string): (r: Result<Write, Prompts.LoadError>)
    ensures r.Failure? <==> Prompts.StagePath(NameDir(name), 2) !in run.stageFiles
    ensures r.Success? ==> r.value.path == Artifacts.AggregatePath(run.out, name)
  {
    var prompt :- Prompts.LoadPrompt(run.stageFiles, NameDir(name), 2);
    var user := Template.RenderAggregatePrompt(prompt.user, Artifacts.AggregateContent(outWalk, name), run.tree);
    Success(Write(Artifacts.AggregatePath(run.out, name), Markdown.Format(run.generate(prompt.system, user))))
  }

  function AggregateAll(run: Run, outWalk: seq<Artifacts.OutputFile>, names: seq<string>): (r: seq<Result<Write, Prompts.LoadError>>)
    ensures |r| == |names|
  {
    if names == [] then [] else [Aggregate(run, outWalk, names[0])] + AggregateAll(run, outWalk, names[1..])
  }

  lemma {:induction false} AggregateAllIndex(run: Run, outWalk: seq<Artifacts.OutputFile>, names: seq<string>, k: nat)
    requires k < |names|
    ensures AggregateAll(run, outWalk, names)[k] == Aggregate(run, outWalk, names[k])
  {
    if k > 0 {
      AggregateAllIndex(run, outWalk, names[1..], k - 1);
    }
  }

  /** The inner walk: the three entries of every selected file, in walk order. */
  method CollectSummaries(outWalk: seq<Artifacts.OutputFile>, name: string) returns (parts: seq<string>)
    ensures parts == Artifacts.SummaryParts(outWalk, name)
  {
    parts := [];
    var k := 0;
    while k < |outWalk|
      invariant 0 <= k <= |outWalk|
      invariant parts == Artifacts.SummaryParts(outWalk[..k], name)
    {
      var f := outWalk[k];
      SummaryPartsSnoc(outWalk, k, name);
      if Artifacts.Selected(f.name, name) {
        var caption := Artifacts.Label(Artifacts.PathOf(f), name);
        parts := parts + ["Filename: " + caption];
        parts := parts + [f.text];
        parts := parts + ["\n\n\n"];
      }
      k := k + 1;
    }
    assert outWalk[..k] == outWalk;
  }

  lemma {:induction false} SummaryPartsAppend(a: seq<Artifacts.OutputFile>, b: seq<Artifacts.OutputFile>, name: string)
    ensures Artifacts.SummaryParts(a + b, name) == Artifacts.SummaryParts(a, name) + Artifacts.SummaryParts(b, name)
  {
    if a != [] {
      assert (a + b)[0] == a[0];
      assert (a + b)[1..] == a[1..] + b;
      SummaryPartsAppend(a[1..], b, name);
    } else {
      assert a + b == b;
    }
  }

  lemma SummaryPartsSnoc(walk: seq<Artifacts.OutputFile>, k: nat, name: string)
    requires k < |walk|
    ensures Artifacts.SummaryParts(walk[..k + 1], name) == Artifacts.SummaryParts(walk[..k], name) +
      (if Artifacts.Selected(walk[k].name, name) then Artifacts.Summary(walk[k], name) else [])
  {
    TakeSnoc(walk, k);
    SummaryPartsAppend(walk[..k], [walk[k]], name);
    assert [walk[k]][1..] == [];
  }

  /** `perform_high_level_analysis`: collect the summaries per distinct name, then write
      one report per name in key order; the first missing stage-2 file aborts the run. */
  method HighLevelAnalysis(run: Run, outWalk: seq<Artifacts.OutputFile>) returns (o: Outcome)
    ensures o == RunAll(AggregateAll(run, outWalk, DistinctNames(run.analyzers)))
  {
    var names: seq<string> := [];
    var summaries: map<string, seq<string>> := map[];
    var i := 0;
    while i < |run.analyzers|
      invariant 0 <= i <= |run.analyzers|
      invariant names == Dedup(Basenames(run.analyzers[..i]))
      invariant forall n | n in names :: n in summaries && summaries[n] == Artifacts.SummaryParts(outWalk, n)
    {
      var name := Paths.Basename(run.analyzers[i]);
      var parts := CollectSummaries(outWalk, name);
      summaries := summaries[name := parts];
      var next := run.analyzers[..i + 1];
      assert next[..|next| - 1] == run.analyzers[..i];
      assert Basenames(next) == Basenames(run.analyzers[..i]) + [name];
      if name !in names {
        names := names + [name];
      }
      i := i + 1;
    }
    assert run.analyzers[..i] == run.analyzers;

    ghost var results := AggregateAll(run, outWalk, names);
    var writes: seq<Write> := [];
    var j := 0;
    assert results[..0] == [];
    while j < |names|
      invariant 0 <= j <= |names|
      invariant RunAll(results[..j]) == Outcome(writes, None)
    {
      var name := names[j];
      var content := Join(summaries[name], "\n\n");
      var loaded := Prompts.LoadPrompt(run.stageFiles, NameDir(name), 2);
      AggregateAllIndex(run, outWalk, names, j);
      if loaded.Failure? {
        AbortAt(results, j, writes);
        return Outcome(writes, Some(loaded.error));
      }
      var user := Template.RenderAggregatePrompt(loaded.value.user, content, run.tree);
      var report := Markdown.Format(run.generate(loaded.value.system, user));
      TakeSnoc(results, j);
      RunAllSnoc(results[..j], results[j], writes);
      writes := writes + [Write(Artifacts.AggregatePath(run.out, name), report)];
      j := j + 1;
    }
    assert results[..j] == results;
    o := Outcome(writes, None);
  }

  /** A stage-1 artifact the output walk meets is summarised for its analyzer, under the
      analysed file's path inside the output directory. */
  lemma ArtifactIsSummarised(outWalk: seq<Artifacts.OutputFile>, f: Artifacts.OutputFile, out: string, relativePath: string, analyzer: string)
    requires f in outWalk && f.name != [] && '/' !in f.name && '/' !in analyzer
    requires Artifacts.PathOf(f) == Artifacts.Stage1Path(out, relativePath, analyzer)
    ensures f in Artifacts.SelectedFiles(outWalk, analyzer)
    ensures Artifacts.Summary(f, analyzer)[0] == "Filename: " + Paths.Join(out, relativePath)
  {
    Paths.BasenameOfJoin(f.root, f.name);
    Artifacts.OwnArtifactSelected(out, relativePath, analyzer);
    Artifacts.SelectedFilesMembers(outWalk, analyzer);
  }
}
