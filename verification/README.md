# Project analyzer pipeline: a Dafny model

This project models the core of `ProjectAnalyzer` in `main.py`. That class analyses a
source tree with a language model. A run does the following, in order:

1. It recreates the output directory `results-<project name>`.
2. It loads the ignore patterns, which are the fixed `.git` and `.gitignore` plus the
   project's `.gitignore` lines.
3. It writes `tree.txt`, a box-drawing listing of the project.
4. Stage 1: every file that is not ignored and is text goes to every analyzer found under
   `analyzer/`. Each pair gives one report, `<relative path>-<analyzer>.md`.
5. Stage 2: for every analyzer name, it collects the stage-1 reports whose file name
   contains `-<name>.md`. These feed one aggregate report, `high_level_analysis_<name>.md`.

Every generated text passes through `format_markdown` before it is written.

Each module follows one part of the program:

| module | models |
|---|---|
| `Strings`, `Paths`, `Seqs`, `Wrappers` | the Python `str` and POSIX `os.path` operations the program uses, and small sequence and result helpers |
| `Ignore` | `load_gitignore` and `should_ignore` |
| `Tree` | `generate_tree_structure` and its inner `build_tree`, over a `Node` datatype (`File` or `Dir` with children) |
| `Markdown` | `str.splitlines`, `textwrap.wrap(line, width=80)` with its default options (whitespace munging, splitting into chunks, greedy filling with long-word cutting and whitespace dropping), and `format_markdown` |
| `Template` | `str.replace` and the chained placeholder substitution of both stages |
| `Prompts` | `discover_analyzers` and `load_prompt` |
| `Artifacts` | report paths, the stage-2 selection test, the label sliced off a report path, and the aggregate prompt content |
| `Pipeline` | the stage-1 loops (`analyze_files`, `analyze_file`, `analyze_file_with_analyzer`) |
| `HighLevel` | `perform_high_level_analysis` |
| `Analysis` | `analyze`: all stages in order |

A run is modelled as a sequence of writes. Each step either adds one write or raises
`FileNotFoundError` for a missing `stage<N>.toml`. The first such error ends the run, and
the writes made before it stay. The other ways the program can abort are assumed away
(see "Left out"):

- every analysed file decodes as UTF-8;
- every call to the language model returns, and its answer is text;
- every stage file is valid TOML, its `system` and `user` entries are tables, and their
  `content` entries are strings.

The model treats some things as data, given from outside the program:

- the language model, an uninterpreted function from a system prompt and a user prompt to
  the answer;
- the parsed stage files, a map from path to tables of strings;
- the directory listings and walks;
- the `is_text_file` verdicts.

## Model

| member | source | states |
|---|---|---|
| Strings.StripIsTrimmedSlice | main.py:78 | `line.strip()` is a slice of the line: only whitespace is removed, and only at the two ends |
| Paths.JoinShape | main.py:68 | `os.path.join(a, b)` ends with `b`; it starts with `a` unless `b` is absolute; with a `b` that is not absolute and a non-empty `a` not ending in `/` it is `a + "/" + b` |
| Paths.Basename | main.py:135 | `os.path.basename` is a slash-free suffix of the path, preceded by a `/` when shorter than the path |
| Paths.BasenameOfJoin | main.py:239 | the basename of a directory joined with a slash-free, non-empty name is that name |
| Paths.BasenameOfDirectory | main.py:114 | a path that is empty or ends in `/` has an empty basename |
| Paths.JoinAppend | main.py:150 | appending text to the joined component equals appending it to the joined path (the case of an empty component followed by an absolute text aside) |
| Paths.ProjectName | main.py:53 | the project name, `os.path.basename(os.path.normpath(path))`, holds no separator |
| Paths.SplitSlashJoin | main.py:53 | the pieces `normpath` splits a path into at `/` join back to the path |
| Paths.SplitSlashAppend | main.py:53 | a separator splits a path into the pieces of either side |
| Paths.ResolveAppend | main.py:53 | `normpath` resolves the components one after the other, left to right |
| Paths.ProjectNameOfResolved | main.py:53 | the project name is the last component that survives normalisation |
| Paths.ProjectNameOfChild | main.py:53 | the project name of `a/n` and of `a/n/` is `n`, for any `a` and any non-empty, slash-free `n` other than `.` and `..` |
| Paths.ProjectNameExamples | main.py:53 | `proj/.` is named `proj`, `a/b/..` is named `a`, the empty path is named `.`, and `/` has the empty name |
| Ignore.LoadGitignore | main.py:73-80 | without an ignore file the patterns are `[".git", ".gitignore"]`; with one they are that base list followed by the file's patterns in file order |
| Ignore.FilePatternsSnoc | main.py:77-80 | reading one more line appends its stripped text exactly when it is non-empty and not a `#` comment, and leaves the list alone otherwise |
| Ignore.FilePatternsMembers | main.py:77-80 | every stripped, non-empty, non-comment line is a pattern, and every pattern is such a stripped line |
| Ignore.FilePatternsGrow | main.py:77-80 | the patterns read from a prefix of the file are a prefix of the final list: loading never removes or reorders a pattern |
| Ignore.MatchesAnyMeans | main.py:84-86 | the pattern loop returns true exactly when some pattern is a substring of the path |
| Ignore.EndsWithAnyMeans | main.py:87 | `path.endswith(tuple(suffixes))` holds exactly when some suffix ends the path |
| Ignore.ShouldIgnoreMeans | main.py:83-89 | a path is ignored exactly when some pattern occurs in it or no allowed suffix ends it |
| Ignore.GitPathsIgnored | main.py:55 | whatever the ignore file and the suffix list, a path containing `.git` is ignored |
| Ignore.IgnoreFileLineExcludes | main.py:78-86 | a pattern line of the ignore file excludes every path containing it, allow-listed suffix or not |
| Prompts.DiscoverAnalyzers | main.py:63-71 | discovery returns exactly the joined `analyzer/<name>` paths of listed names that are directories, and no more entries than were listed |
| Prompts.DiscoverAppend | main.py:66-71 | discovery over two listings in a row is discovery over the first followed by discovery over the second: listing order and multiplicity are kept |
| Prompts.DiscoverOne | main.py:67-70 | one listed name yields `[analyzer/<name>]` when that is a directory and nothing otherwise |
| Prompts.DiscoveredBasenamesDistinct | main.py:66-71 | from a listing of distinct, non-empty, slash-free names, the discovered analyzers have pairwise different basenames, each a listed name |
| Prompts.DiscoverStep | main.py:67-70 | one more listed name keeps the discovery properties: its directory is added exactly when it is one |
| Prompts.AnalyzerName | main.py:68 | a listed slash-free, non-empty name gives the directory `analyzer/<name>`, whose basename is the name again |
| Prompts.DecimalDigits | main.py:39 | the stage number is written as a non-empty run of decimal digits |
| Prompts.DecimalValue | main.py:39 | the digits written for a stage number denote that number |
| Prompts.StagePathsNamed | main.py:39 | the stage files are `<dir>/stage1.toml` and `<dir>/stage2.toml` |
| Prompts.LoadPrompt | main.py:37-46 | loading fails exactly when `<dir>/stage<N>.toml` is missing, and the error names that path |
| Prompts.LoadPromptContents | main.py:43-46 | an existing stage file yields the `content` of its `system` and `user` tables, each `""` when the table or the entry is absent |
| Prompts.SameAnalyzerBothStages | main.py:256-257 | the stage-2 directory rebuilt from the name is the one discovery found, so both stages read the same analyzer's files |
| Template.ReplaceIsSplitJoin | main.py:137 | `s.replace(t, v)` equals splitting `s` at the non-overlapping occurrences of `t` and joining the pieces with `v` |
| Template.SplitJoinToken | main.py:137 | splitting at a token and joining with that token gives back the text |
| Template.ReplaceSelf | main.py:137 | replacing a token by itself changes nothing |
| Template.ReplaceAbsent | main.py:137 | text without the token is returned unchanged |
| Template.ReplacePresent | main.py:137 | text holding the token holds the value after replacement |
| Template.RenderWithoutTokens | main.py:137 | a template with none of `{content}`, `{tree_structure}`, `{relative_path}` is sent unchanged by both stages |
| Template.RenderPathOnly | main.py:137 | a template that is just `{relative_path}` becomes the relative path, whatever the content and tree |
| Template.ContentPlaceholderIsExpanded | main.py:137 | file content holding `{relative_path}` has it replaced by the path: substitution is chained, not simultaneous |
| Template.TreePlaceholderIsKept | main.py:258 | a `{content}` inside the tree text survives stage 2, because it is inserted after the content step |
| Artifacts.Label | main.py:246 | the label is the path minus as many trailing characters as `-<name>.md` has; it is a prefix of the path, and empty when the path is shorter |
| Artifacts.Stage1PathShape | main.py:150 | the stage-1 report path is the joined relative path followed by `-<analyzer>.md` |
| Artifacts.OwnArtifactSelected | main.py:244-246 | every stage-1 report of analyzer `n` is selected for `n`, and its label is `output_dir/relative_path` |
| Artifacts.LabelDropsMarker | main.py:246 | the label of any text followed by `-<name>.md` is that text |
| Artifacts.ArtifactCollision | main.py:150 | file `f-x` with analyzer `a` and file `f` with analyzer `x-a` are written to the same path |
| Artifacts.HyphenSuffixLeak | main.py:244-246 | analyzer `a` selects the reports of analyzer `x-a` and labels them with a wrong file name |
| Artifacts.HyphenFreeNamesAreDistinct | main.py:150 | with hyphen-free analyzer names, different (file, analyzer) pairs get different report paths |
| Artifacts.TreeFileNeverSelected | main.py:244 | `tree.txt` is never selected for any analyzer |
| Artifacts.AggregateNeverSelected | main.py:270 | an aggregate report `high_level_analysis_<n>.md` is never selected for `n` |
| Artifacts.TreeFileKept | main.py:150 | no stage-1 or aggregate report is written over `tree.txt` |
| Artifacts.SelectedFilesMembers | main.py:242-244 | the selected files are exactly the walked files whose name contains `-<name>.md` |
| Artifacts.SummaryLayout | main.py:248-250 | `k` selected files give a summary list of `3k` entries |
| Artifacts.SummaryEntries | main.py:248-250 | entries `3k` to `3k+2` are the label line, the contents and `"\n\n\n"` of the `k`-th selected file |
| Artifacts.AggregateContentStart | main.py:255 | with no selected file the aggregate content is empty; otherwise it starts with the first selected file's label line |
| Tree.SortByName | main.py:96 | `sorted(...)` yields a permutation of the entries, ordered by name |
| Tree.SortLevel | main.py:96 | each directory's entries are a sorted permutation of its children, each sorted in turn |
| Tree.SortLevelNames | main.py:96 | sorting a listing invents no name |
| Tree.Indent | main.py:105-108 | the prefix of a directory's children is exactly four characters longer |
| Tree.GenerateTree | main.py:113-115 | the tree text starts with the project path's basename and `/\n` |
| Tree.LinesHavePrefix | main.py:103-108 | every line drawn for a directory starts with that directory's prefix |
| Tree.BelowIsDeeper | main.py:105-111 | the lines below an entry start with its prefix plus the entry's four-character indent |
| Tree.EntryLevel | main.py:104-107 | an entry's own line is drawn at its level with its connector and name |
| Tree.LevelIsVisible | main.py:97-108 | the lines drawn directly at a directory's level are exactly its non-hidden entries in sorted order, each with the connector its index in the full listing gives |
| Tree.HiddenLastMeansNoCorner | main.py:100-104 | when the last listed entry is hidden, no entry of that directory gets `└── ` |
| Tree.ShownLastGetsCorner | main.py:103-104 | when the last entry is shown, the directory's last drawn entry is it, with `└── ` |
| Tree.OthersGetTee | main.py:106-107 | every drawn entry but the last starts with `├── ` |
| Tree.VisibleLength | main.py:97-101 | a directory draws at most as many entries as it lists |
| Tree.GitDirDrawsNothing | main.py:98-101 | under a path containing `.git` nothing is drawn |
| Tree.GitProjectRendersHeaderOnly | main.py:113-115 | a project whose path contains `.git` renders as its header line alone |
| Tree.TrailingSeparatorEmptiesHeader | main.py:114 | a project path ending in `/` gives the header `/` |
| Markdown.SplitLines | main.py:179 | no line of `splitlines()` contains a line boundary |
| Markdown.SplitLinesFirst | main.py:179 | a break-free line followed by `\n` is split off as the first line |
| Markdown.SplitJoin | main.py:179 | splitting break-free lines joined by `\n` gives them back when the last is non-empty |
| Markdown.ReadBack | main.py:191 | splitting `"\n".join(f)` gives back `f`, except that a final empty line is lost |
| Markdown.MungeFlat | main.py:188 | `textwrap`'s whitespace munging turns a line without line boundaries into text without tabs or line boundaries, and leaves such text as it is |
| Markdown.SqueezeMunge | main.py:188 | munging (tab expansion to 8 columns, whitespace replaced by spaces) keeps every non-space character, in order |
| Markdown.MungeSpace | main.py:188 | a line of ASCII whitespace munges to spaces only |
| Markdown.ChunksFacts | main.py:188 | the chunks a line is split into are non-empty and make up the line; those of a flat line are flat |
| Markdown.ChunksCons | main.py:188 | a maximal run of whitespace, or of other characters, is the first chunk (splitting at hyphens and em-dashes left out) |
| Markdown.Fit | main.py:188 | a line takes the longest prefix of the chunks whose total width fits: one more chunk would overflow |
| Markdown.FillLines | main.py:188 | every emitted line has 1 to `width` columns, and is flat when the chunks are |
| Markdown.FillKeepsCharacters | main.py:188 | filling keeps every non-space character, in order |
| Markdown.FillKeepsWords | main.py:188 | when only whitespace chunks are wider than a line, the emitted lines hold the other chunks whole and in order |
| Markdown.FillBlankChunk | main.py:188 | a single whitespace chunk emits no line |
| Markdown.FillShort | main.py:188 | chunks that fit on one line are that line, less a final whitespace chunk, and no line when nothing else is left |
| Markdown.WrapShape | main.py:188 | every line of `textwrap.wrap(line, 80)` has 1 to 80 columns; for a line without line boundaries they hold no tab or line boundary |
| Markdown.WrapKeepsCharacters | main.py:188 | `textwrap.wrap(line, 80)` keeps every non-space character of the line, in order |
| Markdown.WrapKeepsWords | main.py:188 | when no word is wider than 80 columns, the wrapped lines hold exactly the line's words, whole and in order (splitting at hyphens and em-dashes left out) |
| Markdown.WrapBlank | main.py:188 | a line of ASCII whitespace wraps to no line; a line with a non-space character wraps to at least one |
| Markdown.WrapShort | main.py:188 | a flat line of at most 80 columns wraps to itself less a final whitespace chunk: indentation and inner spacing are kept |
| Markdown.WrapFixes | main.py:188 | a flat line of 1 to 80 columns wraps to itself exactly when it does not end in a whitespace chunk; otherwise it loses characters; no wrapped line is empty |
| Markdown.WrapFixesLine | main.py:188 | a flat line of 1 to 80 columns ending in a non-space character wraps to itself |
| Markdown.BlockShape | main.py:182-189 | a heading becomes `["", line, ""]`; any other line becomes lines of 1 to 80 columns with its non-space characters in order, flat when the line has no line boundary; an ASCII-whitespace line emits nothing and a line with a non-space character emits something |
| Markdown.FormatLinesAppend | main.py:182-189 | formatting works line by line: the output of a concatenation is the concatenation of the outputs |
| Markdown.EmptyLineVanishes | main.py:188-189 | an empty input line emits nothing |
| Markdown.FormatReadBack | main.py:178-191 | the formatted lines can be read back from the output, except a final empty one |
| Markdown.FormatLinesFixed | main.py:182-189 | non-heading lines that wrap to themselves are left as they are |
| Markdown.UnsettledMeans | main.py:183-188 | a line a second pass would change is exactly a non-heading line one of whose wrapped lines starts with `#` or ends in a whitespace chunk |
| Markdown.FormatLinesTwice | main.py:182-189 | line formatting is idempotent when no line is unsettled |
| Markdown.Reformat | main.py:178-191 | formatting the output again is formatting the formatted lines again |
| Markdown.FormatIdempotent | main.py:178-191 | `format_markdown` is idempotent on text with no unsettled line |
| Markdown.FormatLinesAgain | main.py:182-189 | a second pass never removes an empty line and never adds a character; an unsettled line makes it add two empty lines or remove a character |
| Markdown.FormatIdempotentIff | main.py:178-191 | formatting twice equals formatting once exactly when no input line is unsettled |
| Markdown.KeptLine | main.py:183-191 | a one-line text of at most 80 columns that is not a heading, holds no tab or line boundary and ends in a non-space character formats to itself |
| Markdown.IndentationKept | main.py:183-191 | ` #x` formats to itself: the first line keeps its indentation, so it never becomes a heading |
| Markdown.SpacingKept | main.py:183-191 | `a  b` formats to itself: spacing inside a line is kept |
| Markdown.ContinuationHash | main.py:183-191 | 78 columns of text, a space and `#x` wrap to the text and `#x`; the output `<text>\n#x` formats again to `<text>\n\n#x\n` |
| Markdown.TrailingSpace | main.py:188 | a 79-column word, a space and an 81-column word wrap to the first word with its space, then 80 and 1 columns of the second; the first line wraps again without the space |
| Markdown.UnsettledExamples | main.py:183-188 | `a` repeated 78 times before ` #x`, and 79 `a`s, a space and 81 `b`s, are unsettled lines |
| Pipeline.RunAllShape | main.py:40-41 | the writes are the successful results before the first failure, which is the error reported; without a failure every result is written |
| Pipeline.RunAllAppend | main.py:275-281 | running two stages is running the first, then the second unless the first raised |
| Pipeline.Analyze | main.py:133-155 | one stage-1 task fails exactly when the analyzer's `stage1.toml` is missing; otherwise it writes `output_dir/<relative path>-<analyzer name>.md` |
| Pipeline.FailureStays | main.py:40-41 | once a task has raised, later tasks change neither the writes nor the error |
| Pipeline.AnalyzeFile | main.py:173-176 | the analyzer loop of one file runs that file's tasks in analyzer order, stopping at the first failure |
| Pipeline.AnalyzeWalked | main.py:157-176 | a walked file contributes its tasks when it is analysed, and nothing otherwise |
| Pipeline.AnalyzeFiles | main.py:193-203 | the stage-1 loops produce the run of every task of the walk, files outermost and analyzers innermost |
| Pipeline.AbortInWalk | main.py:193-203 | a failure within the first `i` walked files is the outcome of the whole walk |
| Pipeline.AnalysedFilesMembers | main.py:157-164 | a file is analysed exactly when it is walked, not ignored and text |
| Pipeline.TasksAreBlocks | main.py:193-203 | the interleaved loop makes the same tasks as pairing the analysed files with every analyzer, files outermost |
| Pipeline.TasksMembers | main.py:193-203 | a task exists exactly for each analysed file with each discovered analyzer |
| HighLevel.BasenamesMembers | main.py:239 | a name is in the basename list exactly when it is the basename of some analyzer directory |
| HighLevel.DedupMembers | main.py:238-240 | the dictionary's keys are exactly the inserted names, without repeats and no more than were inserted |
| HighLevel.DedupOfDistinct | main.py:238-240 | pairwise different names all become keys, in insertion order |
| HighLevel.DedupRepeat | main.py:238-240 | a name inserted twice yields fewer keys than insertions |
| HighLevel.DistinctNamesKeys | main.py:238-240 | a name is a summary key exactly when some analyzer directory has it as basename, and the keys are pairwise different |
| HighLevel.DistinctNamesOfDistinct | main.py:238-240 | with pairwise different basenames every analyzer gets its own key, in discovery order |
| HighLevel.DistinctNamesShared | main.py:238-240 | two analyzer directories with the same basename share one key, so one report |
| HighLevel.DiscoveredAnalyzersOwnKeys | main.py:238-240 | analyzers discovered from one listing of distinct, non-empty, slash-free names get one key each, in discovery order |
| HighLevel.Aggregate | main.py:254-273 | a report fails exactly when `analyzer/<name>/stage2.toml` is missing; otherwise it is written to `output_dir/high_level_analysis_<name>.md` |
| HighLevel.CollectSummaries | main.py:242-250 | the output walk yields the label, contents and separator of every selected file, in walk order |
| HighLevel.HighLevelAnalysis | main.py:235-273 | the aggregate stage runs one report per distinct name, in key order, stopping at the first missing stage file |
| HighLevel.ArtifactIsSummarised | main.py:244-248 | a stage-1 report met by the output walk is summarised for its analyzer, under the analysed file's path inside the output directory |
| Analysis.AnalyzeProject | main.py:275-281 | a run writes the tree, then runs stage 1, then stage 2, and stops at the first missing stage file |
| Analysis.Stage1Succeeds | main.py:193-203 | stage 1 completes exactly when every task's analyzer has a `stage1.toml` |
| Analysis.Stage2Succeeds | main.py:254-257 | stage 2 completes exactly when every name has a `stage2.toml` under `analyzer/` |
| Analysis.RunSucceedsIff | main.py:275-281 | with every analysed file decoding as UTF-8, every language-model call returning text and every stage file well formed, a run ends without error exactly when every task's stage-1 file and every name's stage-2 file exist |
| Analysis.Stage1Paths | main.py:150-154 | a complete stage 1 writes exactly the tasks' report paths, in task order |
| Analysis.Stage2Paths | main.py:270-272 | a complete stage 2 writes exactly the names' aggregate paths, in key order |
| Analysis.CompleteRunWrites | main.py:275-281 | a complete run writes `tree.txt` first, then every task's report in task order, then every name's aggregate report, and nothing else |
| Analysis.Stage1PrefixPaths | main.py:150-154 | whatever stage 1 writes, complete or aborted, is the artifacts of its first tasks in task order, no more than there are tasks |
| Analysis.Stage1FailureSkipsReports | main.py:280-281 | a missing stage-1 file for some task aborts the run with stage 1's error; the writes are the tree followed by the artifacts of the first tasks, in task order and fewer than there are tasks, so no aggregate report is written |
| Analysis.ReadyAnalyzersComplete | main.py:275-281 | with every analysed file decoding as UTF-8, every language-model call returning text and every stage file well formed, the run completes when every discovered analyzer has both stage files |
| Analysis.MissingStage1Aborts | main.py:40-41 | one analysed file and one analyzer without `stage1.toml` are enough to abort the run |

## Surprising behaviour of the code

The model follows the code. It proves each of these consequences of it:

- Formatting twice can change the text again. `format_markdown` pads heading lines with
  empty lines (main.py:183-186) and wraps the others (main.py:188). But `textwrap` drops
  the space at the start of a continuation line, so a line of 78 columns of text, a
  space and `#x` formats to two lines. A second pass then sets the `#x` line off as a
  heading (`Markdown.ContinuationHash`). A line that fills 80 columns up to a space
  before a word too long for any line keeps that trailing space, and a second pass
  removes it (`Markdown.TrailingSpace`). Formatting is idempotent exactly when no input
  line is unsettled in one of these two ways (`Markdown.FormatIdempotentIff`,
  `Markdown.UnsettledMeans`). Indentation on a first line is kept, so ` #x` is no
  heading and stays as it is (`Markdown.IndentationKept`).
- Placeholders are filled by chained `str.replace` calls (main.py:137, 258), so what one
  step inserts is seen by the next. A `{relative_path}` inside the file content is
  expanded (`Template.ContentPlaceholderIsExpanded`). A `{content}` inside the tree is
  not, because the tree is inserted after the content (`Template.TreePlaceholderIsKept`).
- Reports are named `<relative path>-<analyzer>.md` (main.py:150), and stage 2 labels a
  selected report by slicing exactly `-<name>.md` off its end (main.py:246). So the
  selection test is evidently meant to match that suffix, but it tests containment
  (main.py:244). Analyzer names where one is a hyphen suffix of another collide: they
  write to the same report path (`Artifacts.ArtifactCollision`), and they select and
  mislabel each other's reports (`Artifacts.HyphenSuffixLeak`).
- A missing stage file raises `FileNotFoundError` (main.py:40-41), and nothing between
  `load_prompt` and `analyze` (main.py:275-281) catches it. One analyzer without a stage
  file therefore ends the whole run, not only its own reports
  (`Analysis.MissingStage1Aborts`, `Analysis.Stage1FailureSkipsReports`).

Stage 2 runs once per distinct basename, because the summaries are dictionary keys, and
analyzers sharing a basename would share a report (`HighLevel.DistinctNamesShared`). This
never happens: the analyzers come from one `os.listdir`, whose names are distinct and hold
no `/`, so every analyzer gets its own key and its own report
(`HighLevel.DiscoveredAnalyzersOwnKeys`).

## Left out

- The OpenAI client, `chat_completion_create` and `log_request` (main.py:13-35). These are
  network and logging I/O. The language model is an uninterpreted `Generator` function.
- TOML parsing of the suffix asset (main.py:18) and of the stage files (main.py:43). The
  suffix list is a parameter. A stage file is a map of tables of strings.
- `is_text_file` (main.py:122-131). It does MIME guessing and UTF-8 decoding; each walked
  file carries its verdict as a field.
- Filesystem effects are left out: `rmtree`/`makedirs` (main.py:58-61, 151) and every file
  read and write. Writes are collected in a sequence.
- The order of `os.listdir` and `os.walk` (main.py:67, 96, 194, 242) is given as data, and
  so are `os.path.relpath` (main.py:201) and `os.path.isdir` (main.py:69, 110). A tree
  listing is a `Node` value.
- The output-directory walk of stage 2 is given as data, not derived from the stage-1
  writes. The model does not decide whether the output directory lies inside the project
  walk.
- `read_tree_file` (main.py:117-120) returns the text `generate_tree_structure` wrote, so
  the model reuses that text directly.
- The repeated `should_ignore` check in `analyze_file` (main.py:162-164) always passes once
  `analyze_files` has checked it. The model checks each file once, and `is_text_file`
  comes second, which does not change the outcome.
- `analyze_tree` (main.py:205-233) is dead code: its call is commented out at main.py:279.
- `parse_arguments`, `main` and every `print` (main.py:284-297) are left out.
- Markdown.Wrap: `textwrap` also splits words after hyphens and around em-dashes
  (`break_on_hyphens`), and cuts an over-long word after its last hyphen that fits. The
  model splits only at whitespace and cuts over-long words at the column limit. So any
  hyphenated or em-dashed word that crosses the end of a line is broken differently,
  whatever its length: for 74 `a`s, a space and `goof-ball`, `textwrap` gives the `a`s,
  a space and `goof-` on the first line and `ball` on the second, and the model moves
  all of `goof-ball` to the second line.
- Markdown.ChunksCons: `textwrap` also ends a chunk after a hyphen inside a word and
  around an em-dash, so a maximal run of other characters is one chunk only when it holds
  no such break.
- Markdown.WrapKeepsWords: because hyphen and em-dash splitting is left out, the wrapped
  lines of `textwrap` keep a hyphenated or em-dashed word whole only when it does not cross
  the end of a line; the model keeps every word of at most 80 columns whole.
- Undecodable files: `is_text_file` accepts a file on its MIME type alone
  (main.py:124-125), and `analyze_file` then reads it as UTF-8 (main.py:168-169). A file
  that is not valid UTF-8 raises `UnicodeDecodeError` there, which ends the run. The model
  assumes every analysed file decodes: `Pipeline.SourceFile.content` is its text.
- Failing language-model calls: `chat_completion_create` (main.py:32-35) can raise, and the
  exception propagates out of `analyze` from either stage (main.py:139-145, 260-266). An
  answer whose content is `None` (main.py:147, 268) makes `format_markdown` raise
  (main.py:179). The model assumes every call returns text: `Pipeline.Generator` is a total
  function to strings.
- Malformed stage files: `toml.load` raises on a file that is not valid TOML (main.py:43);
  `.get('content', '')` raises when the `system` or `user` entry is not a table
  (main.py:44-45); `.replace` raises when the user `content` is not a string (main.py:137,
  258). The model assumes well-formed stage files: a stage file is a map of tables of
  strings.
- Analysis.RunSucceedsIff: because of the assumptions above, it states when a run
  completes only for runs in which every analysed file decodes, every language-model call
  returns text and every stage file is well formed. A run that aborts for one of those
  reasons is not represented.
- Analysis.ReadyAnalyzersComplete: the same assumptions apply.
- Pipeline.Analyze: the written text is the formatted answer of the uninterpreted
  generator, so the contract states only when the step fails and where it writes.
- HighLevel.Aggregate: for the same reason the contract states only when the report fails
  and where it is written. The prompt content is described by the `Artifacts` summary
  lemmas.
