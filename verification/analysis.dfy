/** `ProjectAnalyzer.analyze`: set up the output directory, load the ignore patterns, write
    the tree, analyse every file with every analyzer, then write one aggregate report per
    analyzer name. A run is one sequence of writes that stops at the first missing prompt
    file. */
module Analysis {
  import opened Wrappers
  import opened Seqs
  import Paths
  import Ignore
  import Tree
  import Prompts
  import Artifacts
  import opened Pipeline
  import opened HighLevel

  /** What a run reads from outside the program: the project path and the listing the tree
      is drawn from, the ignore file's lines if it exists, the suffix allow-list, the
      analyzer root's listing and which of its entries are directories, the stage files,
      the walks over the project and over the output directory, and the language model. */
  datatype Environment = Environment(
    projectPath: string,
    projectListing: seq<Tree.Node>,
    ignoreFile: Option<seq<string>>,
    suffixes: seq<string>,
    analyzerListing: seq<string>,
    analyzerDirs: set<string>,
    stageFiles: map<string, Prompts.StageDoc>,
    walk: seq<SourceFile>,
    outWalk: seq<Artifacts.OutputFile>,
    generate: Generator)

  /** The analyzer's state once `__init__`, `load_gitignore` and `generate_tree_structure`
      have run. */
  function Configure(env: Environment): Run {
    Run(
      Artifacts.OutputDir(Paths.ProjectName(env.projectPath)),
      Ignore.Patterns(env.ignoreFile),
      env.suffixes,
      Prompts.DiscoverAnalyzers(env.analyzerListing, env.analyzerDirs),
      env.stageFiles,
      Tree.GenerateTree(env.projectPath, env.projectListing),
      env.generate)
  }

  function TreeWrite(run: Run): Write {
    Write(Artifacts.TreePath(run.out), run.tree)
  }

  /** Every step of a run in order: the tree, the stage-1 tasks, the aggregate reports. */
  function Steps(run: Run, walk: seq<SourceFile>, outWalk: seq<Artifacts.OutputFile>): seq<Result<Write, Prompts.LoadError>> {
    [Success(TreeWrite(run))] + AnalyzeAll(run, Tasks(run, walk)) + AggregateAll(run, outWalk, DistinctNames(run.analyzers))
  }

  /** `analyze`: the stages in order; a missing stage file ends the run with what was
      written before it. */
  method AnalyzeProject(env: Environment) returns (o: Outcome)
    ensures o == RunAll(Steps(Configure(env), env.walk, env.outWalk))
  {
    var out := Artifacts.OutputDir(Paths.ProjectName(env.projectPath));
    var analyzers := Prompts.DiscoverAnalyzers(env.analyzerListing, env.analyzerDirs);
    var patterns := Ignore.LoadGitignore(env.ignoreFile);
    assert patterns == Ignore.Patterns(env.ignoreFile) by {
      if env.ignoreFile.None? {
        assert Ignore.BasePatterns + [] == Ignore.BasePatterns;
      }
    }
    var tree := Tree.GenerateTree(env.projectPath, env.projectListing);
    var run := Run(out, patterns, env.suffixes, analyzers, env.stageFiles, tree, env.generate);
    assert run == Configure(env);
    var treeWrite := Write(Artifacts.TreePath(out), tree);

    RunAllThree(treeWrite, AnalyzeAll(run, Tasks(run, env.walk)), AggregateAll(run, env.outWalk, DistinctNames(run.analyzers)));

    var first := AnalyzeFiles(run, env.walk);
    if first.error.Some? {
      return Outcome([treeWrite] + first.writes, first.error);
    }
    var second := HighLevelAnalysis(run, env.outWalk);
    o := Outcome([treeWrite] + first.writes + second.writes, second.error);
  }

  // ---------------------------------------------------------------------------
  // What a run does

  /** A run made of one successful write and two batches: the second batch runs only when
      the first did not fail. */
  lemma RunAllThree(x: Write, a: seq<Result<Write, Prompts.LoadError>>, b: seq<Result<Write, Prompts.LoadError>>)
    ensures RunAll([Success(x)] + a + b) ==
      if RunAll(a).error.Some? then Outcome([x] + RunAll(a).writes, RunAll(a).error)
      else Outcome([x] + RunAll(a).writes + RunAll(b).writes, RunAll(b).error)
  {
    RunAllSnoc([], Success(x), []);
    RunAllAppend([Success(x)], a);
    RunAllAppend([Success(x)] + a, b);
  }

  /** Stage 1 completes exactly when every task's analyzer has its stage-1 file. */
  lemma {:induction false} Stage1Succeeds(run: Run, tasks: seq<Task>)
    ensures RunAll(AnalyzeAll(run, tasks)).error.None? <==>
      forall t | t in tasks :: Prompts.StagePath(t.analyzerDir, 1) in run.stageFiles
  {
    if tasks != [] {
      Stage1Succeeds(run, tasks[1..]);
      assert tasks == [tasks[0]] + tasks[1..];
      assert AnalyzeAll(run, tasks)[1..] == AnalyzeAll(run, tasks[1..]);
    }
  }

  /** Stage 2 completes exactly when every name has its stage-2 file under `analyzer/`. */
  lemma {:induction false} Stage2Succeeds(run: Run, outWalk: seq<Artifacts.OutputFile>, names: seq<string>)
    ensures RunAll(AggregateAll(run, outWalk, names)).error.None? <==>
      forall n | n in names :: Prompts.StagePath(NameDir(n), 2) in run.stageFiles
  {
    if names != [] {
      Stage2Succeeds(run, outWalk, names[1..]);
      assert names == [names[0]] + names[1..];
      assert AggregateAll(run, outWalk, names)[1..] == AggregateAll(run, outWalk, names[1..]);
    }
  }

  /** A run ends without error exactly when every task's stage-1 file and every name's
      stage-2 file exists. */
  lemma RunSucceedsIff(run: Run, walk: seq<SourceFile>, outWalk: seq<Artifacts.OutputFile>)
    ensures RunAll(Steps(run, walk, outWalk)).error.None? <==>
      && (forall t | t in Tasks(run, walk) :: Prompts.StagePath(t.analyzerDir, 1) in run.stageFiles)
      && (forall n | n in DistinctNames(run.analyzers) :: Prompts.StagePath(NameDir(n), 2) in run.stageFiles)
  {
    var tasks, names := Tasks(run, walk), DistinctNames(run.analyzers);
    RunAllThree(TreeWrite(run), AnalyzeAll(run, tasks), AggregateAll(run, outWalk, names));
    Stage1Succeeds(run, tasks);
    Stage2Succeeds(run, outWalk, names);
  }

  function PathsOf(writes: seq<Write>): seq<string> {
    if writes == [] then [] else [writes[0].path] + PathsOf(writes[1..])
  }

  /** The stage-1 artifact of every task, in task order. */
  function ArtifactPaths(run: Run, tasks: seq<Task>): seq<string> {
    if tasks == [] then []
    else [Artifacts.Stage1Path(run.out, tasks[0].file.relative, Paths.Basename(tasks[0].analyzerDir))] + ArtifactPaths(run, tasks[1..])
  }

  /** The report of every name, in key order. */
  function ReportPaths(out: string, names: seq<string>): seq<string> {
    if names == [] then [] else [Artifacts.AggregatePath(out, names[0])] + ReportPaths(out, names[1..])
  }

  lemma {:induction false} PathsOfAppend(a: seq<Write>, b: seq<Write>)
    ensures PathsOf(a + b) == PathsOf(a) + PathsOf(b)
  {
    if a != [] {
      assert (a + b)[0] == a[0];
      assert (a + b)[1..] == a[1..] + b;
      PathsOfAppend(a[1..], b);
    } else {
      assert a + b == b;
    }
  }

  /** A complete stage 1 writes exactly the tasks' artifacts, in task order. */
  lemma {:induction false} Stage1Paths(run: Run, tasks: seq<Task>)
    requires RunAll(AnalyzeAll(run, tasks)).error.None?
    ensures PathsOf(RunAll(AnalyzeAll(run, tasks)).writes) == ArtifactPaths(run, tasks)
  {
    if tasks != [] {
      Stage1Step(run, tasks);
      Stage1Paths(run, tasks[1..]);
    }
  }

  lemma Stage1Step(run: Run, tasks: seq<Task>)
    requires tasks != [] && RunAll(AnalyzeAll(run, tasks)).error.None?
    ensures RunAll(AnalyzeAll(run, tasks[1..])).error.None?
    ensures var w := RunAll(AnalyzeAll(run, tasks)).writes;
      && w != []
      && w[0].path == Artifacts.Stage1Path(run.out, tasks[0].file.relative, Paths.Basename(tasks[0].analyzerDir))
      && w[1..] == RunAll(AnalyzeAll(run, tasks[1..])).writes
  {
    var a := AnalyzeAll(run, tasks);
    assert a[1..] == AnalyzeAll(run, tasks[1..]);
  }

  /** A complete stage 2 writes exactly the names' reports, in key order. */
  lemma {:induction false} Stage2Paths(run: Run, outWalk: seq<Artifacts.OutputFile>, names: seq<string>)
    requires RunAll(AggregateAll(run, outWalk, names)).error.None?
    ensures PathsOf(RunAll(AggregateAll(run, outWalk, names)).writes) == ReportPaths(run.out, names)
  {
    if names != [] {
      var b := AggregateAll(run, outWalk, names);
      assert b[1..] == AggregateAll(run, outWalk, names[1..]);
      Stage2Paths(run, outWalk, names[1..]);
    }
  }

  /** A complete run writes the tree first, then every task's artifact in task order, then
      every name's report in key order, and nothing else. */
  lemma CompleteRunWrites(run: Run, walk: seq<SourceFile>, outWalk: seq<Artifacts.OutputFile>)
    requires RunAll(Steps(run, walk, outWalk)).error.None?
    ensures var o := RunAll(Steps(run, walk, outWalk));
      && o.writes != [] && o.writes[0] == TreeWrite(run)
      && PathsOf(o.writes) ==
           [Artifacts.TreePath(run.out)] + ArtifactPaths(run, Tasks(run, walk)) + ReportPaths(run.out, DistinctNames(run.analyzers))
  {
    var tasks, names := Tasks(run, walk), DistinctNames(run.analyzers);
    var a, b := AnalyzeAll(run, tasks), AggregateAll(run, outWalk, names);
    RunAllThree(TreeWrite(run), a, b);
    var wa, wb := RunAll(a).writes, RunAll(b).writes;
    Stage1Paths(run, tasks);
    Stage2Paths(run, outWalk, names);
    PathsOfAppend([TreeWrite(run)] + wa, wb);
    PathsOfAppend([TreeWrite(run)], wa);
    assert PathsOf([TreeWrite(run)]) == [Artifacts.TreePath(run.out)] + PathsOf([]);
  }

  /** A missing stage-1 file for some task aborts the run before any report is written:
      after the tree come only the artifacts of the first tasks, fewer than there are
      tasks, and the error is stage 1's. */
  lemma Stage1FailureSkipsReports(run: Run, walk: seq<SourceFile>, outWalk: seq<Artifacts.OutputFile>, t: Task)
    requires t in Tasks(run, walk) && Prompts.StagePath(t.analyzerDir, 1) !in run.stageFiles
    ensures var o := RunAll(Steps(run, walk, outWalk));
      && o.error.Some?
      && 1 <= |o.writes| <= |Tasks(run, walk)|
      && o.writes[0] == TreeWrite(run)
    ensures var o := RunAll(Steps(run, walk, outWalk));
      var stage1 := RunAll(AnalyzeAll(run, Tasks(run, walk)));
      o.writes == [TreeWrite(run)] + stage1.writes && o.error == stage1.error
    ensures var o := RunAll(Steps(run, walk, outWalk));
      var tasks := Tasks(run, walk);
      forall k | 1 <= k < |o.writes| ::
        o.writes[k].path == Artifacts.Stage1Path(run.out, tasks[k - 1].file.relative, Paths.Basename(tasks[k - 1].analyzerDir))
  {
    var tasks, names := Tasks(run, walk), DistinctNames(run.analyzers);
    var a, b := AnalyzeAll(run, tasks), AggregateAll(run, outWalk, names);
    var o, s1 := RunAll(Steps(run, walk, outWalk)), RunAll(a);
    assert s1.error.Some? && |s1.writes| < |tasks| by {
      Stage1Succeeds(run, tasks);
      RunAllShape(a);
    }
    assert o == Outcome([TreeWrite(run)] + s1.writes, s1.error) by {
      RunAllThree(TreeWrite(run), a, b);
    }
    Stage1PrefixPaths(run, tasks);
    AfterTree(run, tasks, o.writes, s1.writes);
  }

  /** The writes after the tree are stage 1's, shifted by one. */
  lemma AfterTree(run: Run, tasks: seq<Task>, ws: seq<Write>, w: seq<Write>)
    requires ws == [TreeWrite(run)] + w && |w| <= |tasks|
    requires forall k | 0 <= k < |w| ::
      w[k].path == Artifacts.Stage1Path(run.out, tasks[k].file.relative, Paths.Basename(tasks[k].analyzerDir))
    ensures forall k | 1 <= k < |ws| ::
      ws[k].path == Artifacts.Stage1Path(run.out, tasks[k - 1].file.relative, Paths.Basename(tasks[k - 1].analyzerDir))
  {
    forall k | 1 <= k < |ws|
      ensures ws[k].path == Artifacts.Stage1Path(run.out, tasks[k - 1].file.relative, Paths.Basename(tasks[k - 1].analyzerDir))
    {
      assert ws[k] == w[k - 1];
    }
  }

  /** Whatever stage 1 writes, complete or not, is the artifacts of its first tasks in order. */
  lemma Stage1PrefixPaths(run: Run, tasks: seq<Task>)
    ensures var w := RunAll(AnalyzeAll(run, tasks)).writes;
      && |w| <= |tasks|
      && forall k | 0 <= k < |w| ::
           w[k].path == Artifacts.Stage1Path(run.out, tasks[k].file.relative, Paths.Basename(tasks[k].analyzerDir))
  {
    var a := AnalyzeAll(run, tasks);
    var w := RunAll(a).writes;
    RunAllShape(a);
    forall k | 0 <= k < |w|
      ensures w[k].path == Artifacts.Stage1Path(run.out, tasks[k].file.relative, Paths.Basename(tasks[k].analyzerDir))
    {
      AnalyzeAllIndex(run, tasks, k);
    }
  }

  /** When every discovered analyzer has both stage files, the run completes. */
  lemma ReadyAnalyzersComplete(run: Run, walk: seq<SourceFile>, outWalk: seq<Artifacts.OutputFile>)
    requires forall a | a in run.analyzers :: Prompts.StagePath(a, 1) in run.stageFiles
    requires forall a | a in run.analyzers :: Prompts.StagePath(NameDir(Paths.Basename(a)), 2) in run.stageFiles
    ensures RunAll(Steps(run, walk, outWalk)).error.None?
  {
    TasksMembers(run, walk);
    DistinctNamesKeys(run.analyzers);
    RunSucceedsIff(run, walk, outWalk);
  }

  /** One analysed file is enough for an analyzer without a stage-1 file to abort the run. */
  lemma MissingStage1Aborts(run: Run, walk: seq<SourceFile>, outWalk: seq<Artifacts.OutputFile>, f: SourceFile, a: string)
    requires f in walk && Analysed(run, f)
    requires a in run.analyzers && Prompts.StagePath(a, 1) !in run.stageFiles
    ensures RunAll(Steps(run, walk, outWalk)).error.Some?
  {
    TasksMembers(run, walk);
    Stage1FailureSkipsReports(run, walk, outWalk, Task(f, a));
  }
}
