/** The orchestration of a run: the stage-1 loop over files and analyzers, the aggregate
    stage per analyzer, and the whole analysis in order. Every text the language model
    produces comes from an uninterpreted generator. */
module Pipeline {
  import opened Wrappers
  import opened Seqs
  import opened Strings
  import Paths
  import Ignore
  import Tree
  import Markdown
  import Template
  import Prompts
  import Artifacts

  /** A file written by the run. */
  datatype Write = Write(path: string, text: string)

  /** A file the walk over the project meets: its directory and name, its path relative to
      the project (`os.path.relpath`), whether `is_text_file` accepts it, and its text. */
  datatype SourceFile = SourceFile(root: string, name: string, relative: string, isText: bool, content: string)

  function FilePath(f: SourceFile): string {
    Paths.Join(f.root, f.name)
  }

  /** The language-model call: from a system and a user prompt to the answer's text. */
  type Generator = (string, string) -> string

  /** What every step of a run reads. */
  datatype Run = Run(
    out: string,
    patterns: seq<string>,
    suffixes: seq<string>,
    analyzers: seq<string>,
    stageFiles: map<string, Prompts.StageDoc>,
    tree: string,
    generate: Generator)

  /** One write per result, stopping at the first failure, which aborts the run. */
  datatype Outcome = Outcome(writes: seq<Write>, error: Option<Prompts.LoadError>)

  function RunAll(results: seq<Result<Write, Prompts.LoadError>>): Outcome {
    if results == [] then Outcome([], None)
    else if results[0].Failure? then Outcome([], Some(results[0].error))
    else
      var o := RunAll(results[1..]);
      Outcome([results[0].value] + o.writes, o.error)
  }

  /** The writes are the successes before the first failure, which is the reported error;
      without a failure every result is written. */
  lemma {:induction false} RunAllShape(results: seq<Result<Write, Prompts.LoadError>>)
    ensures var o := RunAll(results);
      && |o.writes| <= |results|
      && (forall k | 0 <= k < |o.writes| :: results[k] == Success(o.writes[k]))
      && (o.error.None? <==> forall k | 0 <= k < |results| :: results[k].Success?)
      && (o.error.None? ==> |o.writes| == |results|)
      && (o.error.Some? ==> |o.writes| < |results| && results[|o.writes|] == Failure(o.error.value))
  {
    if results != [] && results[0].Success? {
      var o := RunAll(results[1..]);
      RunAllShape(results[1..]);
      assert forall k | 1 <= k < |results| :: results[k] == results[1..][k - 1];
    }
  }

  /** Running two batches is running the first, then the second unless the first failed. */
  lemma {:induction false} RunAllAppend(a: seq<Result<Write, Prompts.LoadError>>, b: seq<Result<Write, Prompts.LoadError>>)
    ensures var oa := RunAll(a);
      RunAll(a + b) == if oa.error.Some? then oa else Outcome(oa.writes + RunAll(b).writes, RunAll(b).error)
  {
    if a != [] {
      FirstOfAppend(a, b);
      RunAllAppend(a[1..], b);
    } else {
      assert a + b == b;
    }
  }

  // ---------------------------------------------------------------------------
  // Stage 1: `analyze_files`, `analyze_file`, `analyze_file_with_analyzer`

  /** The walk's file is analysed when it is not ignored and is a text file. */
  predicate Analysed(run: Run, f: SourceFile) {
    !Ignore.ShouldIgnore(run.patterns, run.suffixes, FilePath(f)) && f.isText
  }

  /** One file with one analyzer directory. */
  datatype Task = Task(file: SourceFile, analyzerDir: string)

  /** The tasks of a walk, files outermost and analyzers innermost, both in order. */
  function Tasks(run: Run, walk: seq<SourceFile>): seq<Task> {
    if walk == [] then []
    else
      var f := walk[|walk| - 1];
      Tasks(run, walk[..|walk| - 1]) + Own(run, f)
  }

  /** The tasks of one walked file: one per analyzer if it is analysed, none otherwise. */
  function Own(run: Run, f: SourceFile): seq<Task> {
    if Analysed(run, f) then TasksOf(f, run.analyzers) else []
  }

  function TasksOf(f: SourceFile, analyzers: seq<string>): (r: seq<Task>)
    ensures |r| == |analyzers|
  {
    if analyzers == [] then [] else [Task(f, analyzers[0])] + TasksOf(f, analyzers[1..])
  }

  /** The analysed files of a walk, in walk order. */
  function AnalysedFiles(run: Run, walk: seq<SourceFile>): seq<SourceFile> {
    if walk == [] then []
    else
      var f := walk[|walk| - 1];
      AnalysedFiles(run, walk[..|walk| - 1]) + (if Analysed(run, f) then [f] else [])
  }

  /** `analyze_file_with_analyzer`: load the stage-1 prompt, substitute the placeholders,
      generate, normalise the markdown and name the artifact. */
  function Analyze(run: Run, t: Task): (r: Result<Write, Prompts.LoadError>)
    ensures r.Failure? <==> Prompts.StagePath(t.analyzerDir, 1) !in run.stageFiles
    ensures r.Success? ==> r.value.path == Artifacts.Stage1Path(run.out, t.file.relative, Paths.Basename(t.analyzerDir))
  {
    var prompt :- Prompts.LoadPrompt(run.stageFiles, t.analyzerDir, 1);
    var f := t.file;
    var user := Template.RenderFilePrompt(prompt.user, f.content, run.tree, f.relative);
    var analysis := Markdown.Format(run.generate(prompt.system, user));
    Success(Write(Artifacts.Stage1Path(run.out, f.relative, Paths.Basename(t.analyzerDir)), analysis))
  }

  function AnalyzeAll(run: Run, tasks: seq<Task>): (r: seq<Result<Write, Prompts.LoadError>>)
    ensures |r| == |tasks|
  {
    if tasks == [] then [] else [Analyze(run, tasks[0])] + AnalyzeAll(run, tasks[1..])
  }

  lemma {:induction false} AnalyzeAllAppend(run: Run, a: seq<Task>, b: seq<Task>)
    ensures AnalyzeAll(run, a + b) == AnalyzeAll(run, a) + AnalyzeAll(run, b)
  {
    if a != [] {
      FirstOfAppend(a, b);
      AnalyzeAllAppend(run, a[1..], b);
    } else {
      assert a + b == b;
    }
  }

  lemma {:induction false} TasksAppend(run: Run, a: seq<SourceFile>, b: seq<SourceFile>)
    ensures Tasks(run, a + b) == Tasks(run, a) + Tasks(run, b)
    decreases |b|
  {
    if b == [] {
      assert a + b == a;
    } else {
      var init := b[..|b| - 1];
      LastOfAppend(a, b);
      TasksAppend(run, a, init);
      AppendAssoc(Tasks(run, a), Tasks(run, init), Own(run, b[|b| - 1]));
    }
  }

  lemma {:induction false} TasksOfAppend(f: SourceFile, a: seq<string>, b: seq<string>)
    ensures TasksOf(f, a + b) == TasksOf(f, a) + TasksOf(f, b)
  {
    if a != [] {
      FirstOfAppend(a, b);
      TasksOfAppend(f, a[1..], b);
    } else {
      assert a + b == b;
    }
  }

  /** The walk grows by one file: its tasks, if any, come after the earlier files' tasks. */
  lemma TasksSnoc(run: Run, walk: seq<SourceFile>, i: nat)
    requires i < |walk|
    ensures Tasks(run, walk[..i + 1]) ==
      Tasks(run, walk[..i]) + Own(run, walk[i])
  {
    var w := walk[..i + 1];
    assert w[..|w| - 1] == walk[..i];
  }

  lemma TasksOfSnoc(f: SourceFile, analyzers: seq<string>, j: nat)
    requires j < |analyzers|
    ensures TasksOf(f, analyzers[..j + 1]) == TasksOf(f, analyzers[..j]) + [Task(f, analyzers[j])]
  {
    TakeSnoc(analyzers, j);
    TasksOfAppend(f, analyzers[..j], [analyzers[j]]);
    assert TasksOf(f, [analyzers[j]]) == [Task(f, analyzers[j])] + TasksOf(f, []);
  }

  /** One more result: it fails the run or adds its write. */
  lemma RunAllSnoc(results: seq<Result<Write, Prompts.LoadError>>, r: Result<Write, Prompts.LoadError>, writes: seq<Write>)
    requires RunAll(results) == Outcome(writes, None)
    ensures RunAll(results + [r]) ==
      if r.Failure? then Outcome(writes, Some(r.error)) else Outcome(writes + [r.value], None)
  {
    RunAllAppend(results, [r]);
    assert [r][1..] == [];
    assert RunAll([r]) == if r.Failure? then Outcome([], Some(r.error)) else Outcome([r.value], None);
  }

  /** One more task: it fails the run or adds its write. */
  lemma AnalyzeStep(run: Run, before: seq<Task>, t: Task, writes: seq<Write>)
    requires RunAll(AnalyzeAll(run, before)) == Outcome(writes, None)
    ensures var r := Analyze(run, t);
      RunAll(AnalyzeAll(run, before + [t])) ==
        if r.Failure? then Outcome(writes, Some(r.error)) else Outcome(writes + [r.value], None)
  {
    var r := Analyze(run, t);
    AnalyzeAllAppend(run, before, [t]);
    assert AnalyzeAll(run, [t]) == [r] + AnalyzeAll(run, []);
    assert AnalyzeAll(run, [t]) == [r];
    RunAllSnoc(AnalyzeAll(run, before), r, writes);
  }

  /** A failed run stays failed, with the same writes, whatever tasks follow. */
  lemma FailureStays(run: Run, p: seq<Task>, q: seq<Task>)
    requires RunAll(AnalyzeAll(run, p)).error.Some?
    ensures RunAll(AnalyzeAll(run, p + q)) == RunAll(AnalyzeAll(run, p))
  {
    AnalyzeAllAppend(run, p, q);
    RunAllAppend(AnalyzeAll(run, p), AnalyzeAll(run, q));
  }

  /** `analyze_file` for a file that passed both checks: every analyzer in order, after
      the tasks `before` already ran with the writes `writes`. */
  method AnalyzeFile(run: Run, f: SourceFile, before: seq<Task>, writes: seq<Write>) returns (o: Outcome)
    requires RunAll(AnalyzeAll(run, before)) == Outcome(writes, None)
    ensures o == RunAll(AnalyzeAll(run, before + TasksOf(f, run.analyzers)))
  {
    var ws := writes;
    var j := 0;
    assert run.analyzers[..0] == [];
    assert before + TasksOf(f, []) == before;
    while j < |run.analyzers|
      invariant 0 <= j <= |run.analyzers|
      invariant RunAll(AnalyzeAll(run, before + TasksOf(f, run.analyzers[..j]))) == Outcome(ws, None)
    {
      var t := Task(f, run.analyzers[j]);
      var r := Analyze(run, t);
      ghost var done := before + TasksOf(f, run.analyzers[..j]);
      TasksOfSnoc(f, run.analyzers, j);
      AppendAssoc(before, TasksOf(f, run.analyzers[..j]), [t]);
      AnalyzeStep(run, done, t, ws);
      if r.Failure? {
        o := Outcome(ws, Some(r.error));
        AbortInFile(run, f, before, j, o);
        return;
      }
      ws := ws + [r.value];
      j := j + 1;
    }
    TakeAll(run.analyzers);
    o := Outcome(ws, None);
  }

  lemma AbortInFile(run: Run, f: SourceFile, before: seq<Task>, j: nat, o: Outcome)
    requires j < |run.analyzers|
    requires RunAll(AnalyzeAll(run, before + TasksOf(f, run.analyzers[..j + 1]))) == o && o.error.Some?
    ensures RunAll(AnalyzeAll(run, before + TasksOf(f, run.analyzers))) == o
  {
    var a := run.analyzers;
    assert a == a[..j + 1] + a[j + 1..];
    TasksOfAppend(f, a[..j + 1], a[j + 1..]);
    AppendAssoc(before, TasksOf(f, a[..j + 1]), TasksOf(f, a[j + 1..]));
    FailureStays(run, before + TasksOf(f, a[..j + 1]), TasksOf(f, a[j + 1..]));
  }

  /** `analyze_files`: walk the project; for each file that is not ignored and is text, run
      every analyzer in order. The first missing stage file aborts the whole run. */
  method AnalyzeFiles(run: Run, walk: seq<SourceFile>) returns (o: Outcome)
    ensures o == RunAll(AnalyzeAll(run, Tasks(run, walk)))
  {
    var writes: seq<Write> := [];
    var i := 0;
    while i < |walk|
      invariant 0 <= i <= |walk|
      invariant RunAll(AnalyzeAll(run, Tasks(run, walk[..i]))) == Outcome(writes, None)
    {
      var fileRun := AnalyzeWalked(run, walk[i], Tasks(run, walk[..i]), writes);
      TasksSnoc(run, walk, i);
      if fileRun.error.Some? {
        AbortInWalk(run, walk, i + 1);
        return fileRun;
      }
      writes := fileRun.writes;
      i := i + 1;
    }
    TakeAll(walk);
    o := Outcome(writes, None);
  }

  /** One file of the walk: skipped unless it is analysed. */
  method AnalyzeWalked(run: Run, f: SourceFile, before: seq<Task>, writes: seq<Write>) returns (o: Outcome)
    requires RunAll(AnalyzeAll(run, before)) == Outcome(writes, None)
    ensures o == RunAll(AnalyzeAll(run, before + Own(run, f)))
  {
    if Analysed(run, f) {
      o := AnalyzeFile(run, f, before, writes);
    } else {
      assert before + Own(run, f) == before;
      o := Outcome(writes, None);
    }
  }

  lemma AbortInWalk(run: Run, walk: seq<SourceFile>, i: nat)
    requires i <= |walk| && RunAll(AnalyzeAll(run, Tasks(run, walk[..i]))).error.Some?
    ensures RunAll(AnalyzeAll(run, Tasks(run, walk))) == RunAll(AnalyzeAll(run, Tasks(run, walk[..i])))
  {
    SplitAt(walk, i);
    TasksAppend(run, walk[..i], walk[i..]);
    FailureStays(run, Tasks(run, walk[..i]), Tasks(run, walk[i..]));
  }

  /** A result that fails after a successful prefix ends the run with the prefix's writes. */
  lemma AbortAt(results: seq<Result<Write, Prompts.LoadError>>, j: nat, writes: seq<Write>)
    requires j < |results| && results[j].Failure?
    requires RunAll(results[..j]) == Outcome(writes, None)
    ensures RunAll(results) == Outcome(writes, Some(results[j].error))
  {
    assert results == results[..j] + results[j..];
    RunAllAppend(results[..j], results[j..]);
    assert results[j..][0] == results[j];
  }

  lemma {:induction false} AnalyzeAllIndex(run: Run, tasks: seq<Task>, k: nat)
    requires k < |tasks|
    ensures AnalyzeAll(run, tasks)[k] == Analyze(run, tasks[k])
  {
    if k > 0 {
      AnalyzeAllIndex(run, tasks[1..], k - 1);
    }
  }

  lemma {:induction false} TasksOfIndex(f: SourceFile, analyzers: seq<string>, j: nat)
    requires j < |analyzers|
    ensures TasksOf(f, analyzers)[j] == Task(f, analyzers[j])
  {
    if j > 0 {
      TasksOfIndex(f, analyzers[1..], j - 1);
    }
  }

  /** The tasks of a list of files: each file's analyzers in order, file after file. */
  function Blocks(files: seq<SourceFile>, analyzers: seq<string>): seq<Task> {
    if files == [] then [] else TasksOf(files[0], analyzers) + Blocks(files[1..], analyzers)
  }

  lemma {:induction false} BlocksSnoc(files: seq<SourceFile>, f: SourceFile, analyzers: seq<string>)
    ensures Blocks(files + [f], analyzers) == Blocks(files, analyzers) + TasksOf(f, analyzers)
  {
    if files == [] {
      assert [f][1..] == [];
      assert Blocks([f], analyzers) == TasksOf(f, analyzers) + [];
    } else {
      assert (files + [f])[0] == files[0];
      assert (files + [f])[1..] == files[1..] + [f];
      BlocksSnoc(files[1..], f, analyzers);
    }
  }

  /** `analyze_files` interleaves filtering and analysing; the same tasks arise from filtering
      the walk first and then pairing every analysed file with every analyzer, files
      outermost. */
  lemma {:induction false} TasksAreBlocks(run: Run, walk: seq<SourceFile>)
    ensures Tasks(run, walk) == Blocks(AnalysedFiles(run, walk), run.analyzers)
  {
    if walk != [] {
      var init, f := walk[..|walk| - 1], walk[|walk| - 1];
      TasksAreBlocks(run, init);
      if Analysed(run, f) {
        BlocksSnoc(AnalysedFiles(run, init), f, run.analyzers);
      } else {
        assert Tasks(run, walk) == Tasks(run, init) + [] == Tasks(run, init);
        assert AnalysedFiles(run, walk) == AnalysedFiles(run, init) + [] == AnalysedFiles(run, init);
      }
    }
  }

  lemma {:induction false} TasksOfMembers(f: SourceFile, analyzers: seq<string>)
    ensures forall t :: t in TasksOf(f, analyzers) <==> t.file == f && t.analyzerDir in analyzers
  {
    if analyzers != [] {
      TasksOfMembers(f, analyzers[1..]);
      assert analyzers == [analyzers[0]] + analyzers[1..];
    }
  }

  lemma {:induction false} BlocksMembers(files: seq<SourceFile>, analyzers: seq<string>)
    ensures forall t :: t in Blocks(files, analyzers) <==> t.file in files && t.analyzerDir in analyzers
  {
    if files != [] {
      BlocksMembers(files[1..], analyzers);
      TasksOfMembers(files[0], analyzers);
      assert files == [files[0]] + files[1..];
    }
  }

  lemma {:induction false} AnalysedFilesMembers(run: Run, walk: seq<SourceFile>)
    ensures forall f :: f in AnalysedFiles(run, walk) <==> f in walk && Analysed(run, f)
  {
    if walk != [] {
      var init := walk[..|walk| - 1];
      AnalysedFilesMembers(run, init);
      assert walk == init + [walk[|walk| - 1]];
    }
  }

  /** Every analysed file meets every analyzer, and nothing else is analysed. */
  lemma TasksMembers(run: Run, walk: seq<SourceFile>)
    ensures forall t :: t in Tasks(run, walk) <==>
      t.file in walk && Analysed(run, t.file) && t.analyzerDir in run.analyzers
  {
    TasksAreBlocks(run, walk);
    BlocksMembers(AnalysedFiles(run, walk), run.analyzers);
    AnalysedFilesMembers(run, walk);
  }
}
