/** The markdown normaliser applied to every generated text: headings are set off by blank
    lines, every other line is word-wrapped to 80 columns. */
module Markdown {
  import opened Strings
  import opened Seqs

  /** The column limit of `textwrap.wrap(line, width=80)`. */
  const Width: nat := 80

  // ---------------------------------------------------------------------------
  // Splitting into lines: `str.splitlines()`

  /** The line boundaries `str.splitlines` recognises (`\r\n` counts as one). */
  predicate IsLineBreak(c: char) {
    || c == '\n' || c == '\r' || c == '\U{B}' || c == '\U{C}'
    || ('\U{1C}' <= c <= '\U{1E}') || c == '\U{85}' || c == '\U{2028}' || c == '\U{2029}'
  }

  predicate NoBreak(l: string) {
    forall j | 0 <= j < |l| :: !IsLineBreak(l[j])
  }

  /** The first line boundary at or after `i`, or `|s|` when there is none. */
  function LineEnd(s: string, i: nat): (k: nat)
    requires i <= |s|
    ensures i <= k <= |s|
    ensures forall j | i <= j < k :: !IsLineBreak(s[j])
    ensures k < |s| ==> IsLineBreak(s[k])
    decreases |s| - i
  {
    if i == |s| || IsLineBreak(s[i]) then i else LineEnd(s, i + 1)
  }

  /** `s.splitlines()`: the text between boundaries; a final boundary opens no further line. */
  function SplitLines(s: string): (lines: seq<string>)
    ensures forall l | l in lines :: NoBreak(l)
    decreases |s|
  {
    if s == [] then []
    else
      var k := LineEnd(s, 0);
      if k == |s| then [s]
      else
        var next := if s[k] == '\r' && k + 1 < |s| && s[k + 1] == '\n' then k + 2 else k + 1;
        [s[..k]] + SplitLines(s[next..])
  }

  /** `"\n".join(lines)` */
  function JoinLines(lines: seq<string>): string {
    Join(lines, "\n")
  }

  lemma {:induction false} LineEndAt(s: string, i: nat, k: nat)
    requires i <= k < |s|
    requires forall j | i <= j < k :: !IsLineBreak(s[j])
    requires IsLineBreak(s[k])
    ensures LineEnd(s, i) == k
    decreases k - i
  {
    if i < k {
      LineEndAt(s, i + 1, k);
    }
  }

  lemma {:induction false} LineEndNone(s: string, i: nat)
    requires i <= |s|
    requires forall j | i <= j < |s| :: !IsLineBreak(s[j])
    ensures LineEnd(s, i) == |s|
    decreases |s| - i
  {
    if i < |s| {
      LineEndNone(s, i + 1);
    }
  }

  lemma SplitLinesFirst(l: string, rest: string)
    requires NoBreak(l)
    ensures SplitLines(l + "\n" + rest) == [l] + SplitLines(rest)
  {
    var s := l + "\n" + rest;
    forall j | 0 <= j < |l| ensures !IsLineBreak(s[j]) {
      assert s[j] == l[j];
    }
    LineEndAt(s, 0, |l|);
    assert s[..|l|] == l;
    assert s[|l| + 1..] == rest;
  }

  lemma SplitLinesSingle(l: string)
    requires l != [] && NoBreak(l)
    ensures SplitLines(l) == [l]
  {
    LineEndNone(l, 0);
  }

  /** Splitting undoes joining when the last line is not empty. */
  lemma {:induction false} SplitJoin(lines: seq<string>)
    requires lines != [] && lines[|lines| - 1] != []
    requires forall l | l in lines :: NoBreak(l)
    ensures SplitLines(JoinLines(lines)) == lines
  {
    if |lines| == 1 {
      SplitLinesSingle(lines[0]);
    } else {
      var rest := lines[1..];
      assert rest[|rest| - 1] == lines[|lines| - 1];
      JoinTwo(lines[0], rest, "\n");
      SplitLinesFirst(lines[0], JoinLines(rest));
      SplitJoin(rest);
      Uncons(lines);
    }
  }

  /** Splitting undoes joining with a final newline, whatever the last line is. */
  lemma {:induction false} SplitJoinNewline(lines: seq<string>)
    requires lines != []
    requires forall l | l in lines :: NoBreak(l)
    ensures SplitLines(JoinLines(lines) + "\n") == lines
  {
    if |lines| == 1 {
      SplitLinesFirst(lines[0], []);
      assert lines[0] + "\n" + [] == JoinLines(lines) + "\n";
    } else {
      var rest := lines[1..];
      JoinTwo(lines[0], rest, "\n");
      assert lines == [lines[0]] + rest;
      assert JoinLines(lines) + "\n" == lines[0] + "\n" + (JoinLines(rest) + "\n");
      SplitLinesFirst(lines[0], JoinLines(rest) + "\n");
      SplitJoinNewline(rest);
    }
  }

  lemma {:induction false} JoinLinesSnoc(lines: seq<string>, l: string)
    requires lines != []
    ensures JoinLines(lines + [l]) == JoinLines(lines) + "\n" + l
  {
    if |lines| == 1 {
      assert lines + [l] == [lines[0]] + [l];
      JoinTwo(lines[0], [l], "\n");
    } else {
      assert (lines + [l])[1..] == lines[1..] + [l];
      JoinLinesSnoc(lines[1..], l);
    }
  }

  // ---------------------------------------------------------------------------
  // Munging: `_munge_whitespace` with the default `expand_tabs` and `replace_whitespace`

  /** The whitespace `textwrap` recognises: the ASCII whitespace characters only. */
  predicate IsWrapSpace(c: char) {
    c == '\t' || c == '\n' || c == '\U{B}' || c == '\U{C}' || c == '\r' || c == ' '
  }

  function Spaces(n: nat): string {
    seq(n, _ => ' ')
  }

  /** `s.expandtabs(8)` from column `col`: a tab becomes the spaces up to the next multiple
      of 8 columns, and a newline or carriage return starts column 0 again. */
  function ExpandTabs(s: string, col: nat): string
    decreases |s|
  {
    if s == [] then []
    else if s[0] == '\t' then Spaces(8 - col % 8) + ExpandTabs(s[1..], col + 8 - col % 8)
    else [s[0]] + ExpandTabs(s[1..], if s[0] == '\n' || s[0] == '\r' then 0 else col + 1)
  }

  /** `translate` with `unicode_whitespace_trans`: every ASCII whitespace character (tab,
      line feed, vertical tab, form feed, carriage return, space) becomes a space. */
  function Blanked(s: string): string {
    if s == [] then [] else [if IsWrapSpace(s[0]) then ' ' else s[0]] + Blanked(s[1..])
  }

  /** `_munge_whitespace(text)` */
  function Munge(s: string): string {
    Blanked(ExpandTabs(s, 0))
  }

  /** A character munging leaves alone that is no line boundary: anything but a tab or a
      line break. */
  predicate IsFlat(c: char) {
    !IsLineBreak(c) && c != '\t'
  }

  predicate Flat(s: string) {
    forall j | 0 <= j < |s| :: IsFlat(s[j])
  }

  lemma FlatAppend(a: string, b: string)
    requires Flat(a) && Flat(b)
    ensures Flat(a + b)
  {
    forall j | 0 <= j < |a + b| ensures IsFlat((a + b)[j]) {
      if j < |a| {
        assert (a + b)[j] == a[j];
      } else {
        assert (a + b)[j] == b[j - |a|];
      }
    }
  }

  lemma FlatSlice(s: string, i: nat, k: nat)
    requires i <= k <= |s| && Flat(s)
    ensures Flat(s[i..k])
  {
    forall j | 0 <= j < k - i ensures IsFlat(s[i..k][j]) {
      assert s[i..k][j] == s[i + j];
    }
  }

  lemma NoBreakTail(s: string)
    requires s != [] && NoBreak(s)
    ensures NoBreak(s[1..]) && !IsLineBreak(s[0])
  {
    forall j | 0 <= j < |s| - 1 ensures !IsLineBreak(s[1..][j]) {
      assert s[1..][j] == s[j + 1];
    }
  }

  lemma FlatTail(s: string)
    requires s != [] && Flat(s)
    ensures Flat(s[1..]) && IsFlat(s[0])
  {
    FlatSlice(s, 1, |s|);
  }

  /** Expanding the tabs of a line without line boundaries leaves neither boundaries nor tabs. */
  lemma {:induction false} ExpandTabsFlat(s: string, col: nat)
    requires NoBreak(s)
    ensures Flat(ExpandTabs(s, col))
    decreases |s|
  {
    if s != [] {
      NoBreakTail(s);
      var next := if s[0] == '\t' then col + 8 - col % 8 else col + 1;
      var head := if s[0] == '\t' then Spaces(8 - col % 8) else [s[0]];
      ExpandTabsFlat(s[1..], next);
      assert ExpandTabs(s, col) == head + ExpandTabs(s[1..], next);
      FlatAppend(head, ExpandTabs(s[1..], next));
    }
  }

  /** Expanding the tabs of a text without tabs changes nothing. */
  lemma {:induction false} ExpandTabsNone(s: string, col: nat)
    requires Flat(s)
    ensures ExpandTabs(s, col) == s
    decreases |s|
  {
    if s != [] {
      FlatTail(s);
      ExpandTabsNone(s[1..], col + 1);
    }
  }

  /** In a flat text every whitespace character already is a space. */
  lemma {:induction false} BlankedFlat(s: string)
    requires Flat(s)
    ensures Blanked(s) == s
    decreases |s|
  {
    if s != [] {
      FlatTail(s);
      BlankedFlat(s[1..]);
    }
  }

  /** Munging a line without line boundaries gives a flat text; a flat text is munged to itself. */
  lemma MungeFlat(s: string)
    ensures NoBreak(s) ==> Flat(Munge(s))
    ensures Flat(s) ==> Munge(s) == s
  {
    if NoBreak(s) {
      ExpandTabsFlat(s, 0);
      BlankedFlat(ExpandTabs(s, 0));
    }
    if Flat(s) {
      ExpandTabsNone(s, 0);
      BlankedFlat(s);
    }
  }

  lemma {:induction false} ExpandTabsSpace(s: string, col: nat)
    requires forall j | 0 <= j < |s| :: IsWrapSpace(s[j])
    ensures forall j | 0 <= j < |ExpandTabs(s, col)| :: IsWrapSpace(ExpandTabs(s, col)[j])
    decreases |s|
  {
    if s != [] {
      var next := if s[0] == '\t' then col + 8 - col % 8 else if s[0] == '\n' || s[0] == '\r' then 0 else col + 1;
      var head := if s[0] == '\t' then Spaces(8 - col % 8) else [s[0]];
      assert forall j | 0 <= j < |s| - 1 :: s[1..][j] == s[j + 1];
      ExpandTabsSpace(s[1..], next);
      var t := ExpandTabs(s[1..], next);
      assert ExpandTabs(s, col) == head + t;
      forall j | 0 <= j < |head + t| ensures IsWrapSpace((head + t)[j]) {
        if j >= |head| {
          assert (head + t)[j] == t[j - |head|];
        }
      }
    }
  }

  lemma {:induction false} BlankedSpace(s: string)
    requires forall j | 0 <= j < |s| :: IsWrapSpace(s[j])
    ensures Blanked(s) == Spaces(|s|)
    decreases |s|
  {
    if s != [] {
      assert forall j | 0 <= j < |s| - 1 :: s[1..][j] == s[j + 1];
      BlankedSpace(s[1..]);
    }
  }

  /** A line of whitespace munges to spaces only. */
  lemma MungeSpace(s: string)
    requires forall j | 0 <= j < |s| :: IsWrapSpace(s[j])
    ensures Munge(s) == Spaces(|ExpandTabs(s, 0)|)
  {
    ExpandTabsSpace(s, 0);
    BlankedSpace(ExpandTabs(s, 0));
  }

  // ---------------------------------------------------------------------------
  // What wrapping keeps

  /** `s` without its space characters (`str.isspace`): the characters wrapping must keep,
      in order. */
  function Squeeze(s: string): string {
    if s == [] then [] else (if IsSpace(s[0]) then [] else [s[0]]) + Squeeze(s[1..])
  }

  lemma {:induction false} SqueezeAppend(a: string, b: string)
    ensures Squeeze(a + b) == Squeeze(a) + Squeeze(b)
  {
    if a != [] {
      assert (a + b)[1..] == a[1..] + b;
      SqueezeAppend(a[1..], b);
    } else {
      assert a + b == b;
    }
  }

  /** `chunk.strip() == ''`: the chunk is all space characters. */
  predicate IsBlank(c: string) {
    forall j | 0 <= j < |c| :: IsSpace(c[j])
  }

  /** `IsBlank` is the `strip()` test the wrapper applies. */
  lemma BlankIsStripEmpty(c: string)
    ensures IsBlank(c) <==> Strip(c) == []
  {
  }

  lemma BlankSlice(c: string, i: nat, k: nat)
    requires i <= k <= |c| && IsBlank(c)
    ensures IsBlank(c[i..k])
  {
    forall j | 0 <= j < k - i ensures IsSpace(c[i..k][j]) {
      assert c[i..k][j] == c[i + j];
    }
  }

  lemma {:induction false} SqueezeBlank(c: string)
    requires IsBlank(c)
    ensures Squeeze(c) == []
    decreases |c|
  {
    if c != [] {
      BlankSlice(c, 1, |c|);
      SqueezeBlank(c[1..]);
    }
  }

  lemma SqueezeSpaces(n: nat)
    ensures Squeeze(Spaces(n)) == []
  {
    SqueezeBlank(Spaces(n));
  }

  lemma {:induction false} SqueezeExpand(s: string, col: nat)
    ensures Squeeze(ExpandTabs(s, col)) == Squeeze(s)
    decreases |s|
  {
    if s != [] {
      var next := if s[0] == '\t' then col + 8 - col % 8 else if s[0] == '\n' || s[0] == '\r' then 0 else col + 1;
      var head := if s[0] == '\t' then Spaces(8 - col % 8) else [s[0]];
      SqueezeExpand(s[1..], next);
      assert ExpandTabs(s, col) == head + ExpandTabs(s[1..], next);
      SqueezeAppend(head, ExpandTabs(s[1..], next));
      if s[0] == '\t' {
        SqueezeSpaces(8 - col % 8);
      } else {
        assert Squeeze(head) == if IsSpace(s[0]) then [] else [s[0]];
      }
    }
  }

  lemma {:induction false} SqueezeBlanked(s: string)
    ensures Squeeze(Blanked(s)) == Squeeze(s)
    decreases |s|
  {
    if s != [] {
      SqueezeBlanked(s[1..]);
    }
  }

  /** Munging only turns space characters into spaces. */
  lemma SqueezeMunge(s: string)
    ensures Squeeze(Munge(s)) == Squeeze(s)
  {
    SqueezeBlanked(ExpandTabs(s, 0));
    SqueezeExpand(s, 0);
  }

  /** A character that is not a space survives squeezing. */
  lemma {:induction false} SqueezeKeeps(s: string, j: nat)
    requires j < |s| && !IsSpace(s[j])
    ensures Squeeze(s) != []
    decreases j
  {
    if j > 0 && IsSpace(s[0]) {
      assert s[1..][j - 1] == s[j];
      SqueezeKeeps(s[1..], j - 1);
    }
  }

  // ---------------------------------------------------------------------------
  // Chunks: `_split` on whitespace

  /** The end of the run from `i` of characters that are all whitespace or all not. */
  function RunEnd(s: string, i: nat): (k: nat)
    requires i < |s|
    ensures i < k <= |s|
    ensures forall j | i <= j < k :: IsWrapSpace(s[j]) == IsWrapSpace(s[i])
    ensures k < |s| ==> IsWrapSpace(s[k]) != IsWrapSpace(s[i])
    decreases |s| - i
  {
    if i + 1 == |s| || IsWrapSpace(s[i + 1]) != IsWrapSpace(s[i]) then i + 1 else RunEnd(s, i + 1)
  }

  /** `_split(text)`: the maximal runs of whitespace and of other characters, in order. */
  function Chunks(s: string): seq<string>
    decreases |s|
  {
    if s == [] then [] else var k := RunEnd(s, 0); [s[..k]] + Chunks(s[k..])
  }

  lemma ConcatCons(x: string, ys: seq<string>)
    ensures Concat([x] + ys) == x + Concat(ys)
  {
    assert ([x] + ys)[1..] == ys;
  }

  lemma ConcatOne(x: string)
    ensures Concat([x]) == x
  {
    assert [x][1..] == [];
  }

  /** The chunks of a text are non-empty and make up the text; those of a flat text are flat. */
  lemma {:induction false} ChunksFacts(s: string)
    ensures Concat(Chunks(s)) == s
    ensures forall c | c in Chunks(s) :: c != []
    ensures Flat(s) ==> forall c | c in Chunks(s) :: Flat(c)
    decreases |s|
  {
    if s != [] {
      var k := RunEnd(s, 0);
      ChunksFacts(s[k..]);
      ConcatCons(s[..k], Chunks(s[k..]));
      assert s == s[..k] + s[k..];
      if Flat(s) {
        FlatSlice(s, 0, k);
        FlatSlice(s, k, |s|);
      }
    }
  }

  lemma {:induction false} RunEndAt(s: string, i: nat, k: nat)
    requires i < k <= |s|
    requires forall j | i <= j < k :: IsWrapSpace(s[j]) == IsWrapSpace(s[i])
    requires k < |s| ==> IsWrapSpace(s[k]) != IsWrapSpace(s[i])
    ensures RunEnd(s, i) == k
    decreases k - i
  {
    if i + 1 < k {
      RunEndAt(s, i + 1, k);
    }
  }

  /** A run followed by text of the other kind is the first chunk. */
  lemma ChunksCons(a: string, t: string)
    requires a != [] && forall j | 0 <= j < |a| :: IsWrapSpace(a[j]) == IsWrapSpace(a[0])
    requires t != [] ==> IsWrapSpace(t[0]) != IsWrapSpace(a[0])
    ensures Chunks(a + t) == [a] + Chunks(t)
  {
    var s := a + t;
    RunEndAt(s, 0, |a|);
    assert s[..|a|] == a && s[|a|..] == t;
  }

  // ---------------------------------------------------------------------------
  // Filling: `_wrap_chunks` with the default `drop_whitespace` and `break_long_words`

  lemma ConcatSplit(ds: seq<string>, n: nat)
    requires n < |ds|
    ensures Concat(ds) == Concat(ds[..n]) + (ds[n] + Concat(ds[n + 1..]))
  {
    assert ds == ds[..n] + ds[n..];
    ConcatAppend(ds[..n], ds[n..]);
    assert ds[n..] == [ds[n]] + ds[n + 1..];
    ConcatCons(ds[n], ds[n + 1..]);
  }

  lemma ConcatPrefix(ds: seq<string>, n: nat)
    requires n <= |ds|
    ensures |Concat(ds[..n])| <= |Concat(ds)|
  {
    assert ds == ds[..n] + ds[n..];
    ConcatAppend(ds[..n], ds[n..]);
  }

  /** How many chunks, from the first, fit in `room` columns: `cur_len + len(chunk) <= width`. */
  function Fit(cs: seq<string>, room: nat): (n: nat)
    ensures n <= |cs|
    ensures |Concat(cs[..n])| <= room
    ensures n < |cs| ==> |Concat(cs[..n])| + |cs[n]| > room
    decreases |cs|
  {
    if cs == [] || |cs[0]| > room then 0
    else
      var m := Fit(cs[1..], room - |cs[0]|);
      assert cs[..m + 1] == [cs[0]] + cs[1..][..m];
      ConcatCons(cs[0], cs[1..][..m]);
      1 + m
  }

  /** Chunks that fit altogether are all taken. */
  lemma FitAll(cs: seq<string>, room: nat)
    requires |Concat(cs)| <= room
    ensures Fit(cs, room) == |cs|
  {
    var n := Fit(cs, room);
    if n < |cs| {
      ConcatSplit(cs, n);
    }
  }

  /** The chunks left once a line has been emitted and a leading whitespace chunk dropped. */
  function Lead(cs: seq<string>, started: bool): seq<string> {
    if cs != [] && started && IsBlank(cs[0]) then cs[1..] else cs
  }

  /** The chunks a line gathers from `ds`: as many whole chunks as fit, then, when the next
      chunk fits on no line, as much of it as fits (`_handle_long_word`). */
  function LineOf(ds: seq<string>, width: nat): seq<string> {
    var n := Fit(ds, width);
    if n < |ds| && |ds[n]| > width then ds[..n] + [ds[n][..width - |Concat(ds[..n])|]] else ds[..n]
  }

  /** The chunks left for the following lines. */
  function RestOf(ds: seq<string>, width: nat): seq<string> {
    var n := Fit(ds, width);
    if n < |ds| && |ds[n]| > width then [ds[n][width - |Concat(ds[..n])|..]] + ds[n + 1..] else ds[n..]
  }

  /** A line without its last chunk when that chunk is whitespace. */
  function TrimLast(line: seq<string>): seq<string> {
    if line != [] && IsBlank(Last(line)) then line[..|line| - 1] else line
  }

  /** Every line takes something: the chunks left are fewer or shorter. */
  lemma Progress(cs: seq<string>, started: bool, width: nat)
    requires width > 0 && cs != []
    ensures var rest := RestOf(Lead(cs, started), width);
      |Concat(rest)| + |rest| < |Concat(cs)| + |cs|
  {
    var ds := Lead(cs, started);
    if ds != cs {
      ConcatCons(cs[0], cs[1..]);
      Uncons(cs);
    }
    assert |Concat(ds)| + |ds| <= |Concat(cs)| + |cs|;
    var n := Fit(ds, width);
    if n < |ds| {
      ConcatSplit(ds, n);
      if |ds[n]| > width {
        var k := width - |Concat(ds[..n])|;
        ConcatCons(ds[n][k..], ds[n + 1..]);
      } else {
        assert ds[n..] == [ds[n]] + ds[n + 1..];
        ConcatCons(ds[n], ds[n + 1..]);
      }
    }
  }

  /** `_wrap_chunks(chunks)`, each line kept as the chunks it joins; `started` says whether a
      line has been emitted, after which a leading whitespace chunk is dropped. A line is
      emitted when anything is left of it once a final whitespace chunk is dropped. */
  function Fill(cs: seq<string>, width: nat, started: bool): seq<seq<string>>
    requires width > 0
    decreases |Concat(cs)| + |cs|
  {
    if cs == [] then []
    else
      var ds := Lead(cs, started);
      var line := TrimLast(LineOf(ds, width));
      var rest := RestOf(ds, width);
      Progress(cs, started, width);
      if line == [] then Fill(rest, width, started) else [line] + Fill(rest, width, true)
  }

  /** `''.join(cur_line)` for every line. */
  function JoinEach(lines: seq<seq<string>>): seq<string> {
    if lines == [] then [] else [Concat(lines[0])] + JoinEach(lines[1..])
  }

  function Flatten(lines: seq<seq<string>>): seq<string> {
    if lines == [] then [] else lines[0] + Flatten(lines[1..])
  }

  lemma JoinEachCons(line: seq<string>, tail: seq<seq<string>>)
    ensures JoinEach([line] + tail) == [Concat(line)] + JoinEach(tail)
    ensures Flatten([line] + tail) == line + Flatten(tail)
  {
    assert ([line] + tail)[1..] == tail;
  }

  // Facts about one line's worth of chunks

  /** The pieces around a chunk cut after its first `k` characters make up the chunks. */
  lemma CutPieces(ds: seq<string>, n: nat, k: nat)
    requires n < |ds| && k <= |ds[n]|
    ensures Concat(ds[..n] + [ds[n][..k]]) + Concat([ds[n][k..]] + ds[n + 1..]) == Concat(ds)
    ensures |Concat(ds[..n] + [ds[n][..k]])| == |Concat(ds[..n])| + k
  {
    var a, p, q, b := ds[..n], ds[n][..k], ds[n][k..], ds[n + 1..];
    assert Concat(ds) == Concat(a) + (ds[n] + Concat(b)) by {
      ConcatSplit(ds, n);
    }
    assert Concat(a + [p]) == Concat(a) + p by {
      ConcatAppend(a, [p]);
      ConcatOne(p);
    }
    assert Concat([q] + b) == q + Concat(b) by {
      ConcatCons(q, b);
    }
    assert ds[n] == p + q;
    assert Concat(a) + p + (q + Concat(b)) == Concat(a) + ((p + q) + Concat(b));
  }

  /** A line and the chunks left make up the chunks it was taken from, and the line fits. */
  lemma StepSplit(ds: seq<string>, width: nat)
    ensures Concat(LineOf(ds, width)) + Concat(RestOf(ds, width)) == Concat(ds)
    ensures |Concat(LineOf(ds, width))| <= width
  {
    var n := Fit(ds, width);
    if n < |ds| && |ds[n]| > width {
      CutPieces(ds, n, width - |Concat(ds[..n])|);
    } else {
      assert ds == ds[..n] + ds[n..];
      ConcatAppend(ds[..n], ds[n..]);
    }
  }

  lemma StepFlat(ds: seq<string>, width: nat)
    requires forall c | c in ds :: Flat(c)
    ensures forall c | c in LineOf(ds, width) :: Flat(c)
    ensures forall c | c in RestOf(ds, width) :: Flat(c)
  {
    var n := Fit(ds, width);
    assert forall c | c in ds[..n] :: c in ds;
    assert forall c | c in ds[n..] :: c in ds;
    if n < |ds| && |ds[n]| > width {
      var k := width - |Concat(ds[..n])|;
      assert ds[n] in ds;
      FlatSlice(ds[n], 0, k);
      FlatSlice(ds[n], k, |ds[n]|);
      assert forall c | c in ds[n + 1..] :: c in ds;
    }
  }

  /** Without empty chunks, every line starts with a non-empty chunk and leaves no empty one. */
  lemma StepNonEmpty(ds: seq<string>, width: nat)
    requires width > 0
    requires forall c | c in ds :: c != []
    ensures forall c | c in RestOf(ds, width) :: c != []
    ensures ds != [] ==> LineOf(ds, width) != [] && LineOf(ds, width)[0] != []
  {
    var n := Fit(ds, width);
    assert forall c | c in ds[n..] :: c in ds;
    if ds != [] {
      assert ds[0] in ds;
    }
    if n < |ds| && |ds[n]| > width {
      var k := width - |Concat(ds[..n])|;
      var rest := [ds[n][k..]] + ds[n + 1..];
      assert rest[0] != [];
      assert forall c | c in rest :: c == rest[0] || c in rest[1..];
      assert forall c | c in rest[1..] :: c in ds;
    }
  }

  /** The chunks that are not whitespace, in order. */
  function NonBlank(cs: seq<string>): seq<string> {
    if cs == [] then [] else (if IsBlank(cs[0]) then [] else [cs[0]]) + NonBlank(cs[1..])
  }

  lemma {:induction false} NonBlankAppend(a: seq<string>, b: seq<string>)
    ensures NonBlank(a + b) == NonBlank(a) + NonBlank(b)
  {
    if a != [] {
      assert (a + b)[1..] == a[1..] + b;
      NonBlankAppend(a[1..], b);
    } else {
      assert a + b == b;
    }
  }

  lemma NonBlankOne(c: string)
    ensures NonBlank([c]) == if IsBlank(c) then [] else [c]
  {
    assert [c][1..] == [];
  }

  lemma {:induction false} NonBlankMember(cs: seq<string>, c: string)
    requires c in cs && !IsBlank(c)
    ensures c in NonBlank(cs)
  {
    if cs[0] != c {
      assert c in cs[1..];
      NonBlankMember(cs[1..], c);
    }
  }

  /** Cutting a whitespace chunk leaves the other chunks as they were. */
  lemma CutBlank(ds: seq<string>, n: nat, k: nat)
    requires n < |ds| && k <= |ds[n]| && IsBlank(ds[n])
    ensures NonBlank(ds[..n] + [ds[n][..k]]) + NonBlank([ds[n][k..]] + ds[n + 1..]) == NonBlank(ds)
    ensures IsBlank(ds[n][k..])
  {
    var a, p, q, b := ds[..n], ds[n][..k], ds[n][k..], ds[n + 1..];
    BlankSlice(ds[n], 0, k);
    BlankSlice(ds[n], k, |ds[n]|);
    assert IsBlank(p) && IsBlank(q);
    assert NonBlank(ds) == NonBlank(a) + NonBlank(b) by {
      assert ds == a + ([ds[n]] + b);
      NonBlankAppend(a, [ds[n]] + b);
      NonBlankAppend([ds[n]], b);
      NonBlankOne(ds[n]);
    }
    assert NonBlank(a + [p]) == NonBlank(a) by {
      NonBlankAppend(a, [p]);
      NonBlankOne(p);
    }
    assert NonBlank([q] + b) == NonBlank(b) by {
      NonBlankAppend([q], b);
      NonBlankOne(q);
    }
  }

  /** When only whitespace chunks are too wide for a line, no other chunk is cut. */
  lemma StepWords(ds: seq<string>, width: nat)
    requires forall c | c in ds :: |c| > width ==> IsBlank(c)
    ensures NonBlank(LineOf(ds, width)) + NonBlank(RestOf(ds, width)) == NonBlank(ds)
    ensures forall c | c in RestOf(ds, width) :: |c| > width ==> IsBlank(c)
  {
    var n := Fit(ds, width);
    if n < |ds| && |ds[n]| > width {
      var k := width - |Concat(ds[..n])|;
      assert ds[n] in ds;
      CutBlank(ds, n, k);
      var rest := [ds[n][k..]] + ds[n + 1..];
      assert forall c | c in rest :: c == rest[0] || c in rest[1..];
      assert forall c | c in rest[1..] :: c in ds;
    } else {
      assert ds == ds[..n] + ds[n..];
      NonBlankAppend(ds[..n], ds[n..]);
      assert forall c | c in ds[n..] :: c in ds;
    }
  }

  /** Dropping a final whitespace chunk keeps what matters of a line. */
  lemma TrimFacts(line: seq<string>)
    ensures Squeeze(Concat(TrimLast(line))) == Squeeze(Concat(line))
    ensures NonBlank(TrimLast(line)) == NonBlank(line)
    ensures |Concat(TrimLast(line))| <= |Concat(line)|
    ensures TrimLast(line) != [] ==> TrimLast(line)[0] == line[0]
    ensures forall c | c in TrimLast(line) :: c in line
  {
    if line != [] && IsBlank(Last(line)) {
      var init := line[..|line| - 1];
      assert line == init + [Last(line)];
      ConcatAppend(init, [Last(line)]);
      ConcatOne(Last(line));
      SqueezeAppend(Concat(init), Last(line));
      SqueezeBlank(Last(line));
      NonBlankAppend(init, [Last(line)]);
      NonBlankOne(Last(line));
    }
  }

  /** The leading whitespace chunk `Lead` drops holds no character that must be kept. */
  lemma LeadFacts(cs: seq<string>, started: bool)
    ensures Squeeze(Concat(Lead(cs, started))) == Squeeze(Concat(cs))
    ensures NonBlank(Lead(cs, started)) == NonBlank(cs)
    ensures forall c | c in Lead(cs, started) :: c in cs
  {
    if cs != [] && started && IsBlank(cs[0]) {
      Uncons(cs);
      ConcatCons(cs[0], cs[1..]);
      SqueezeAppend(cs[0], Concat(cs[1..]));
      SqueezeBlank(cs[0]);
      NonBlankAppend([cs[0]], cs[1..]);
      NonBlankOne(cs[0]);
    }
  }

  // Facts about all the lines

  /** Every line is 1 to `width` columns, and flat when the chunks are. */
  lemma {:induction false} FillLines(cs: seq<string>, width: nat, started: bool)
    requires width > 0
    requires forall c | c in cs :: c != []
    ensures forall l | l in JoinEach(Fill(cs, width, started)) :: 0 < |l| <= width
    ensures (forall c | c in cs :: Flat(c)) ==>
      forall l | l in JoinEach(Fill(cs, width, started)) :: Flat(l)
    decreases |Concat(cs)| + |cs|
  {
    if cs != [] {
      var ds := Lead(cs, started);
      var whole := LineOf(ds, width);
      var line := TrimLast(whole);
      var rest := RestOf(ds, width);
      Progress(cs, started, width);
      LeadFacts(cs, started);
      StepNonEmpty(ds, width);
      StepSplit(ds, width);
      TrimFacts(whole);
      var next := if line == [] then started else true;
      FillLines(rest, width, next);
      if (forall c | c in cs :: Flat(c)) {
        StepFlat(ds, width);
        FlatConcat(line);
      }
      if line != [] {
        JoinEachCons(line, Fill(rest, width, next));
        ConcatCons(line[0], line[1..]);
        Uncons(line);
      }
    }
  }

  lemma {:induction false} FlatConcat(cs: seq<string>)
    requires forall c | c in cs :: Flat(c)
    ensures Flat(Concat(cs))
  {
    if cs != [] {
      assert cs[0] in cs;
      assert forall c | c in cs[1..] :: c in cs;
      FlatConcat(cs[1..]);
      FlatAppend(cs[0], Concat(cs[1..]));
    }
  }

  /** Filling keeps every non-space character, in order. */
  lemma {:induction false} FillKeepsCharacters(cs: seq<string>, width: nat, started: bool)
    requires width > 0
    ensures Squeeze(Concat(JoinEach(Fill(cs, width, started)))) == Squeeze(Concat(cs))
    decreases |Concat(cs)| + |cs|
  {
    if cs != [] {
      var ds := Lead(cs, started);
      var whole := LineOf(ds, width);
      var line := TrimLast(whole);
      var rest := RestOf(ds, width);
      Progress(cs, started, width);
      var next := if line == [] then started else true;
      FillKeepsCharacters(rest, width, next);
      LeadFacts(cs, started);
      StepSplit(ds, width);
      TrimFacts(whole);
      SqueezeAppend(Concat(whole), Concat(rest));
      if line != [] {
        var tail := Fill(rest, width, true);
        JoinEachCons(line, tail);
        ConcatCons(Concat(line), JoinEach(tail));
        SqueezeAppend(Concat(line), Concat(JoinEach(tail)));
      }
    }
  }

  /** When only whitespace chunks are too wide for a line, the lines hold the non-whitespace
      chunks whole and in order. */
  lemma {:induction false} FillKeepsWords(cs: seq<string>, width: nat, started: bool)
    requires width > 0
    requires forall c | c in cs :: |c| > width ==> IsBlank(c)
    ensures NonBlank(Flatten(Fill(cs, width, started))) == NonBlank(cs)
    decreases |Concat(cs)| + |cs|
  {
    if cs != [] {
      var ds := Lead(cs, started);
      var whole := LineOf(ds, width);
      var line := TrimLast(whole);
      var rest := RestOf(ds, width);
      Progress(cs, started, width);
      LeadFacts(cs, started);
      StepWords(ds, width);
      TrimFacts(whole);
      var next := if line == [] then started else true;
      FillKeepsWords(rest, width, next);
      if line != [] {
        JoinEachCons(line, Fill(rest, width, true));
        NonBlankAppend(line, Flatten(Fill(rest, width, true)));
      }
    }
  }

  /** A single whitespace chunk emits no line. */
  lemma {:induction false} FillBlankChunk(c: string, width: nat, started: bool)
    requires width > 0 && IsBlank(c)
    ensures Fill([c], width, started) == []
    decreases |c|
  {
    var ds := Lead([c], started);
    if ds == [c] {
      assert Fit([c], width) == (if |c| <= width then 1 else 0);
      if |c| > width {
        BlankSlice(c, 0, width);
        BlankSlice(c, width, |c|);
        assert LineOf(ds, width) == [c[..width]];
        assert RestOf(ds, width) == [c[width..]];
        FillBlankChunk(c[width..], width, started);
      } else {
        assert LineOf(ds, width) == [c];
        assert RestOf(ds, width) == [];
      }
    }
  }

  /** Chunks that fit on one line are that line, less a final whitespace chunk. */
  lemma FillShort(cs: seq<string>, width: nat)
    requires width > 0 && |Concat(cs)| <= width
    ensures Fill(cs, width, false) == if TrimLast(cs) == [] then [] else [TrimLast(cs)]
  {
    if cs != [] {
      FitAll(cs, width);
      assert LineOf(cs, width) == cs;
      assert RestOf(cs, width) == [];
    }
  }

  // ---------------------------------------------------------------------------
  // `textwrap.wrap(line, width=80)`

  /** The lines of `textwrap.wrap(line, width)`, each as the chunks it joins. */
  function WrapChunks(line: string, width: nat): seq<seq<string>>
    requires width > 0
  {
    Fill(Chunks(Munge(line)), width, false)
  }

  /** `textwrap.wrap(line, width)` */
  function Wrap(line: string, width: nat): seq<string>
    requires width > 0
  {
    JoinEach(WrapChunks(line, width))
  }

  /** The words of a line: its chunks that are not all space. */
  function Words(line: string): seq<string> {
    NonBlank(Chunks(Munge(line)))
  }

  /** Every wrapped line has 1 to 80 columns; for a line without line boundaries they hold
      neither tabs nor line boundaries. */
  lemma WrapShape(line: string)
    ensures forall l | l in Wrap(line, Width) :: 0 < |l| <= Width
    ensures NoBreak(line) ==> forall l | l in Wrap(line, Width) :: Flat(l)
  {
    ChunksFacts(Munge(line));
    MungeFlat(line);
    FillLines(Chunks(Munge(line)), Width, false);
  }

  /** Wrapping keeps every non-space character of the line, in order. */
  lemma WrapKeepsCharacters(line: string)
    ensures Squeeze(Concat(Wrap(line, Width))) == Squeeze(line)
  {
    FillKeepsCharacters(Chunks(Munge(line)), Width, false);
    ChunksFacts(Munge(line));
    SqueezeMunge(line);
  }

  /** When no word is wider than 80 columns, no word is cut: the wrapped lines are made of
      the line's words, whole and in order, and of whitespace. */
  lemma WrapKeepsWords(line: string)
    requires forall w | w in Words(line) :: |w| <= Width
    ensures NonBlank(Flatten(WrapChunks(line, Width))) == Words(line)
  {
    var cs := Chunks(Munge(line));
    forall c | c in cs && |c| > Width ensures IsBlank(c) {
      if !IsBlank(c) {
        NonBlankMember(cs, c);
      }
    }
    FillKeepsWords(cs, Width, false);
  }

  /** A whitespace line emits nothing; a line with a non-space character emits something. */
  lemma WrapBlank(line: string)
    ensures (forall j | 0 <= j < |line| :: IsWrapSpace(line[j])) ==> Wrap(line, Width) == []
    ensures (exists j | 0 <= j < |line| :: !IsSpace(line[j])) ==> Wrap(line, Width) != []
  {
    if forall j | 0 <= j < |line| :: IsWrapSpace(line[j]) {
      MungeSpace(line);
      var m := Munge(line);
      if m != [] {
        RunEndAt(m, 0, |m|);
        assert m[..|m|] == m && m[|m|..] == [];
        assert Chunks(m) == [m];
        FillBlankChunk(m, Width, false);
      }
    }
    if j :| 0 <= j < |line| && !IsSpace(line[j]) {
      SqueezeKeeps(line, j);
      WrapKeepsCharacters(line);
    }
  }

  /** A flat line of at most `width` columns is one line, less a final whitespace chunk. */
  lemma WrapShort(l: string, width: nat)
    requires width > 0 && |l| <= width && Flat(l)
    ensures Wrap(l, width) == if TrimLast(Chunks(l)) == [] then [] else [Concat(TrimLast(Chunks(l)))]
  {
    var cs := Chunks(l);
    var t := TrimLast(cs);
    assert WrapChunks(l, width) == Fill(cs, width, false) by {
      MungeFlat(l);
    }
    assert Fill(cs, width, false) == if t == [] then [] else [t] by {
      ChunksFacts(l);
      FillShort(cs, width);
    }
    if t != [] {
      JoinEachCons(t, []);
      assert [t] == [t] + [];
    }
  }

  /** The line's last chunk is whitespace. */
  predicate EndsBlank(l: string) {
    Chunks(l) != [] && IsBlank(Last(Chunks(l)))
  }

  /** A flat line of 1 to 80 columns wraps to itself exactly when it does not end in a
      whitespace chunk; otherwise it loses characters. */
  lemma WrapFixes(l: string)
    requires 0 < |l| <= Width && Flat(l)
    ensures Wrap(l, Width) == [l] <==> !EndsBlank(l)
    ensures Wrap(l, Width) != [l] ==> |Concat(Wrap(l, Width))| < |l|
    ensures forall p | p in Wrap(l, Width) :: p != ""
  {
    WrapShort(l, Width);
    ChunksFacts(l);
    var cs := Chunks(l);
    if EndsBlank(l) {
      TrimShorter(cs);
      var t := TrimLast(cs);
      if t != [] {
        ConcatOne(Concat(t));
      }
    } else {
      assert TrimLast(cs) == cs;
      ConcatOne(l);
    }
  }

  /** Dropping a final whitespace chunk loses characters but never empties a line. */
  lemma TrimShorter(cs: seq<string>)
    requires cs != [] && IsBlank(Last(cs))
    requires forall c | c in cs :: c != []
    ensures |Concat(TrimLast(cs))| < |Concat(cs)|
    ensures TrimLast(cs) != [] ==> Concat(TrimLast(cs)) != []
  {
    var init := cs[..|cs| - 1];
    assert cs == init + [Last(cs)];
    ConcatAppend(init, [Last(cs)]);
    ConcatOne(Last(cs));
    assert Last(cs) in cs;
    if init != [] {
      ConcatCons(init[0], init[1..]);
      assert init == [init[0]] + init[1..];
      assert init[0] in cs;
    }
  }

  /** A flat line of 1 to 80 columns ending in a character that is not a space wraps to
      itself: indentation and the spacing inside are kept. */
  lemma WrapFixesLine(l: string)
    requires 0 < |l| <= Width && Flat(l) && !IsSpace(l[|l| - 1])
    ensures Wrap(l, Width) == [l]
  {
    ChunksFacts(l);
    var cs := Chunks(l);
    assert Last(cs) in cs;
    ConcatLast(cs);
    assert !IsSpace(Last(cs)[|Last(cs)| - 1]);
    WrapFixes(l);
  }

  /** The last character of joined chunks is the last character of the last chunk. */
  lemma ConcatLast(cs: seq<string>)
    requires cs != [] && Last(cs) != []
    ensures Concat(cs) != [] && Concat(cs)[|Concat(cs)| - 1] == Last(cs)[|Last(cs)| - 1]
  {
    var init := cs[..|cs| - 1];
    assert cs == init + [Last(cs)];
    ConcatAppend(init, [Last(cs)]);
    ConcatOne(Last(cs));
  }

  // ---------------------------------------------------------------------------
  // `format_markdown`

  /** `line.startswith("#")` */
  predicate IsHeading(line: string) {
    line != [] && line[0] == '#'
  }

  /** What one input line becomes: a heading between two empty lines, any other line wrapped. */
  function Block(line: string): seq<string> {
    if IsHeading(line) then ["", line, ""] else Wrap(line, Width)
  }

  function FormatLines(lines: seq<string>): seq<string> {
    if lines == [] then [] else Block(lines[0]) + FormatLines(lines[1..])
  }

  /** `format_markdown(content)` */
  function Format(content: string): string {
    JoinLines(FormatLines(SplitLines(content)))
  }

  // ---------------------------------------------------------------------------
  // What formatting does to each line, and to the whole text

  /** Per input line: a heading stays as it is between two empty lines; any other line
      becomes lines of 1 to 80 columns keeping its non-space characters in order, flat when
      the line holds no line boundary; a whitespace line emits nothing, and a line with a
      non-space character emits something. */
  lemma BlockShape(line: string)
    ensures IsHeading(line) ==> Block(line) == ["", line, ""]
    ensures !IsHeading(line) ==>
      && (forall l | l in Block(line) :: 0 < |l| <= Width)
      && (NoBreak(line) ==> forall l | l in Block(line) :: Flat(l))
      && Squeeze(Concat(Block(line))) == Squeeze(line)
    ensures (forall j | 0 <= j < |line| :: IsWrapSpace(line[j])) ==> Block(line) == []
    ensures (exists j | 0 <= j < |line| :: !IsSpace(line[j])) ==> Block(line) != []
  {
    if !IsHeading(line) {
      WrapShape(line);
      WrapKeepsCharacters(line);
      WrapBlank(line);
    }
  }

  lemma {:induction false} FormatLinesAppend(a: seq<string>, b: seq<string>)
    ensures FormatLines(a + b) == FormatLines(a) + FormatLines(b)
  {
    if a != [] {
      assert (a + b)[1..] == a[1..] + b;
      FormatLinesAppend(a[1..], b);
    } else {
      assert a + b == b;
    }
  }

  lemma BlockOfEmpty()
    ensures Block("") == []
  {
    assert Chunks(Munge("")) == [];
  }

  lemma EmptyLineVanishes()
    ensures FormatLines([""]) == []
  {
    BlockOfEmpty();
    assert FormatLines([""]) == Block("") + FormatLines([]);
  }

  lemma FlatNoBreak(l: string)
    requires Flat(l)
    ensures NoBreak(l)
  {
  }

  lemma {:induction false} FormatLinesNoBreak(lines: seq<string>)
    requires forall l | l in lines :: NoBreak(l)
    ensures forall l | l in FormatLines(lines) :: NoBreak(l)
  {
    if lines != [] {
      FormatLinesNoBreak(lines[1..]);
      assert lines[0] in lines;
      if !IsHeading(lines[0]) {
        WrapShape(lines[0]);
      }
    }
  }

  /** Joined lines can be read back, except that a final empty line is not seen. */
  lemma ReadBack(f: seq<string>)
    requires forall l | l in f :: NoBreak(l)
    ensures SplitLines(JoinLines(f)) == if f != [] && f[|f| - 1] == "" then f[..|f| - 1] else f
  {
    if f != [] {
      if f[|f| - 1] == "" {
        if |f| > 1 {
          var g := f[..|f| - 1];
          assert f == g + [""];
          JoinLinesSnoc(g, "");
          assert JoinLines(f) == JoinLines(g) + "\n";
          assert forall l | l in g :: l in f;
          SplitJoinNewline(g);
        } else {
          assert JoinLines(f) == "";
        }
      } else {
        SplitJoin(f);
      }
    }
  }

  /** The formatted lines can be read back from the text: `Format` only joins them. */
  lemma FormatReadBack(content: string)
    ensures var f := FormatLines(SplitLines(content));
      SplitLines(Format(content)) == if f != [] && f[|f| - 1] == "" then f[..|f| - 1] else f
  {
    FormatLinesNoBreak(SplitLines(content));
    ReadBack(FormatLines(SplitLines(content)));
  }

  // ---------------------------------------------------------------------------
  // Formatting twice

  /** A non-heading line that a second pass would change: one of its wrapped lines starts
      with `#`, or does not wrap to itself. */
  predicate Unsettled(line: string) {
    !IsHeading(line) && exists w | w in Wrap(line, Width) :: IsHeading(w) || Wrap(w, Width) != [w]
  }

  /** A line without line boundaries is unsettled exactly when one of its wrapped lines
      starts with `#` or ends in a whitespace chunk. */
  lemma UnsettledMeans(line: string)
    requires NoBreak(line)
    ensures Unsettled(line) <==>
      !IsHeading(line) && exists w | w in Wrap(line, Width) :: IsHeading(w) || EndsBlank(w)
  {
    WrapShape(line);
    forall w | w in Wrap(line, Width) ensures Wrap(w, Width) != [w] <==> EndsBlank(w) {
      WrapFixes(w);
    }
  }

  /** Lines that are not headings and wrap to themselves are left as they are. */
  lemma {:induction false} FormatLinesFixed(ls: seq<string>)
    requires forall l | l in ls :: !IsHeading(l) && Wrap(l, Width) == [l]
    ensures FormatLines(ls) == ls
  {
    if ls != [] {
      assert ls[0] in ls;
      FormatLinesFixed(ls[1..]);
      Uncons(ls);
    }
  }

  lemma FormatHeadingBlock(line: string)
    requires IsHeading(line)
    ensures FormatLines(["", line, ""]) == ["", line, ""]
  {
    BlockOfEmpty();
    assert ["", line, ""] == [""] + [line] + [""];
    FormatLinesAppend([""] + [line], [""]);
    FormatLinesAppend([""], [line]);
    assert FormatLines([line]) == Block(line) + FormatLines([]);
  }

  lemma BlockReformat(line: string)
    requires !Unsettled(line)
    ensures FormatLines(Block(line)) == Block(line)
  {
    if IsHeading(line) {
      FormatHeadingBlock(line);
    } else {
      FormatLinesFixed(Block(line));
    }
  }

  lemma {:induction false} FormatLinesTwice(lines: seq<string>)
    requires forall l | l in lines :: !Unsettled(l)
    ensures FormatLines(FormatLines(lines)) == FormatLines(lines)
  {
    if lines != [] {
      assert lines[0] in lines;
      BlockReformat(lines[0]);
      FormatLinesTwice(lines[1..]);
      FormatLinesAppend(Block(lines[0]), FormatLines(lines[1..]));
    }
  }

  lemma DropFinalEmpty(f: seq<string>)
    requires f != [] && f[|f| - 1] == ""
    ensures FormatLines(f[..|f| - 1]) == FormatLines(f)
  {
    assert f == f[..|f| - 1] + [""];
    FormatLinesAppend(f[..|f| - 1], [""]);
    EmptyLineVanishes();
  }

  /** Lines read back from a formatted text format to the same lines as the text did. */
  lemma Reformat(content: string)
    ensures FormatLines(SplitLines(Format(content))) == FormatLines(FormatLines(SplitLines(content)))
  {
    var f := FormatLines(SplitLines(content));
    FormatReadBack(content);
    if f != [] && f[|f| - 1] == "" {
      DropFinalEmpty(f);
    }
  }

  /** Formatting is idempotent when no line is unsettled. */
  lemma FormatIdempotent(content: string)
    requires forall l | l in SplitLines(content) :: !Unsettled(l)
    ensures Format(Format(content)) == Format(content)
  {
    Reformat(content);
    FormatLinesTwice(SplitLines(content));
  }

  // Two measures of a list of lines: a second pass never removes empty lines and never adds
  // characters; an unsettled line makes it add two empty lines or remove a character.

  function Empties(ls: seq<string>): nat {
    if ls == [] then 0 else (if ls[0] == "" then 1 else 0) + Empties(ls[1..])
  }

  lemma {:induction false} EmptiesAppend(a: seq<string>, b: seq<string>)
    ensures Empties(a + b) == Empties(a) + Empties(b)
  {
    if a != [] {
      assert (a + b)[1..] == a[1..] + b;
      EmptiesAppend(a[1..], b);
    } else {
      assert a + b == b;
    }
  }

  /** Measures of a list of lines with one line in front. */
  lemma MeasuresCons(x: seq<string>, y: seq<string>)
    ensures Empties(x + y) == Empties(x) + Empties(y)
    ensures |Concat(x + y)| == |Concat(x)| + |Concat(y)|
  {
    EmptiesAppend(x, y);
    ConcatAppend(x, y);
  }

  /** What a second pass does to one line the wrapper emitted. */
  lemma WrappedLineAgain(w: string)
    requires 0 < |w| <= Width && Flat(w)
    ensures |Concat(Block(w))| <= |w|
    ensures IsHeading(w) ==> Empties(Block(w)) == 2
    ensures !IsHeading(w) && Wrap(w, Width) != [w] ==> |Concat(Block(w))| < |w|
  {
    if IsHeading(w) {
      assert Block(w) == [""] + [w] + [""];
      MeasuresCons([""] + [w], [""]);
      MeasuresCons([""], [w]);
      ConcatCons(w, []);
      ConcatCons("", []);
    } else {
      WrapFixes(w);
      if Wrap(w, Width) == [w] {
        ConcatCons(w, []);
      }
    }
  }

  /** What a second pass does to the lines the wrapper emitted. */
  lemma {:induction false} WrappedAgain(ws: seq<string>)
    requires forall w | w in ws :: 0 < |w| <= Width && Flat(w)
    ensures Empties(ws) == 0
    ensures |Concat(FormatLines(ws))| <= |Concat(ws)|
    ensures (exists w | w in ws :: IsHeading(w)) ==> Empties(FormatLines(ws)) >= 2
    ensures (exists w | w in ws :: !IsHeading(w) && Wrap(w, Width) != [w]) ==>
      |Concat(FormatLines(ws))| < |Concat(ws)|
  {
    if ws != [] {
      var w := ws[0];
      assert w in ws;
      assert forall v | v in ws[1..] :: v in ws;
      assert forall v | v in ws :: v == w || v in ws[1..];
      WrappedLineAgain(w);
      WrappedAgain(ws[1..]);
      MeasuresCons(Block(w), FormatLines(ws[1..]));
      ConcatCons(w, ws[1..]);
    }
  }

  /** What a second pass does to the lines of one input line. */
  lemma BlockAgain(line: string)
    requires NoBreak(line)
    ensures Empties(FormatLines(Block(line))) >= Empties(Block(line))
    ensures |Concat(FormatLines(Block(line)))| <= |Concat(Block(line))|
    ensures Unsettled(line) ==>
      || Empties(FormatLines(Block(line))) >= Empties(Block(line)) + 2
      || |Concat(FormatLines(Block(line)))| < |Concat(Block(line))|
  {
    if IsHeading(line) {
      FormatHeadingBlock(line);
    } else {
      WrapShape(line);
      WrappedAgain(Wrap(line, Width));
    }
  }

  /** A second pass over formatted lines never removes empty lines and never adds
      characters; an unsettled input line makes it add two empty lines or remove a character. */
  lemma {:induction false} FormatLinesAgain(lines: seq<string>)
    requires forall l | l in lines :: NoBreak(l)
    ensures Empties(FormatLines(FormatLines(lines))) >= Empties(FormatLines(lines))
    ensures |Concat(FormatLines(FormatLines(lines)))| <= |Concat(FormatLines(lines))|
    ensures (exists l | l in lines :: Unsettled(l)) ==>
      || Empties(FormatLines(FormatLines(lines))) >= Empties(FormatLines(lines)) + 2
      || |Concat(FormatLines(FormatLines(lines)))| < |Concat(FormatLines(lines))|
  {
    if lines != [] {
      var b := Block(lines[0]);
      var rest := FormatLines(lines[1..]);
      assert lines[0] in lines;
      assert forall l | l in lines[1..] :: l in lines;
      assert forall l | l in lines :: l == lines[0] || l in lines[1..];
      BlockAgain(lines[0]);
      FormatLinesAgain(lines[1..]);
      FormatLinesAppend(b, rest);
      MeasuresCons(b, rest);
      MeasuresCons(FormatLines(b), FormatLines(rest));
    }
  }

  /** Reading lines back loses at most one final empty line and no character. */
  lemma ReadBackMeasures(f: seq<string>)
    ensures var g := if f != [] && f[|f| - 1] == "" then f[..|f| - 1] else f;
      Empties(g) <= Empties(f) <= Empties(g) + 1 && |Concat(g)| == |Concat(f)|
  {
    if f != [] && f[|f| - 1] == "" {
      var g := f[..|f| - 1];
      assert f == g + [""];
      MeasuresCons(g, [""]);
      ConcatCons("", []);
    }
  }

  /** Formatting twice equals formatting once exactly when no line is unsettled. */
  lemma FormatIdempotentIff(content: string)
    ensures Format(Format(content)) == Format(content) <==>
      forall l | l in SplitLines(content) :: !Unsettled(l)
  {
    if forall l | l in SplitLines(content) :: !Unsettled(l) {
      FormatIdempotent(content);
    } else {
      var f := FormatLines(SplitLines(content));
      var h := FormatLines(f);
      FormatLinesAgain(SplitLines(content));
      FormatLinesNoBreak(SplitLines(content));
      FormatLinesNoBreak(f);
      FormatReadBack(content);
      Reformat(content);
      assert Format(Format(content)) == JoinLines(h);
      ReadBack(h);
      ReadBackMeasures(h);
      ReadBackMeasures(f);
    }
  }

  // ---------------------------------------------------------------------------
  // Examples

  function Repeat(c: char, n: nat): string {
    seq(n, _ => c)
  }

  lemma RepeatSolid(c: char, n: nat)
    requires n > 0 && !IsSpace(c) && !IsLineBreak(c) && c != '#'
    ensures |Repeat(c, n)| == n && Solid(Repeat(c, n)) && Repeat(c, n)[0] != '#'
  {
  }

  /** Indentation and the spacing inside a line are kept. */
  lemma IndentationKept()
    ensures Format(" #x") == " #x"
  {
    KeptLine(" #x");
  }

  /** The double space inside a line is kept. */
  lemma SpacingKept()
    ensures Format("a  b") == "a  b"
  {
    KeptLine("a  b");
  }

  lemma KeptLine(l: string)
    requires 0 < |l| <= Width && Flat(l) && !IsSpace(l[|l| - 1]) && l[0] != '#'
    ensures Format(l) == l
  {
    SplitLinesSingle(l);
    WrapFixesLine(l);
    assert FormatLines([l]) == Block(l) + FormatLines([]);
  }

  /** Text with neither space characters nor line boundaries. */
  predicate Solid(u: string) {
    forall j | 0 <= j < |u| :: !IsSpace(u[j]) && !IsLineBreak(u[j])
  }

  lemma SolidRun(u: string)
    requires u != [] && Solid(u)
    ensures Flat(u) && !IsBlank(u)
    ensures forall j | 0 <= j < |u| :: IsWrapSpace(u[j]) == IsWrapSpace(u[0])
  {
    assert !IsSpace(u[0]);
  }

  lemma WrapSolid(u: string)
    requires 0 < |u| <= Width && Solid(u)
    ensures Wrap(u, Width) == [u]
  {
    SolidRun(u);
    WrapFixesLine(u);
  }

  /** The chunks of `u + " " + t` for solid `u` and `t`. */
  lemma ChunksSpaced(u: string, t: string)
    requires u != [] && t != [] && Solid(u) && Solid(t)
    ensures Chunks(u + " " + t) == [u, " ", t]
    ensures Flat(u + " " + t)
  {
    ChunksSolid(t);
    ChunksSpaceSolid(t);
    assert Chunks(u + (" " + t)) == [u, " ", t] by {
      SolidRun(u);
      ChunksCons(u, " " + t);
    }
    assert u + " " + t == u + (" " + t);
    FlatSpaced(u, t);
  }

  lemma ChunksSolid(t: string)
    requires t != [] && Solid(t)
    ensures Chunks(t) == [t]
  {
    SolidRun(t);
    ChunksCons(t, []);
    assert t + [] == t;
  }

  lemma ChunksSpaceSolid(t: string)
    requires t != [] && Solid(t) && Chunks(t) == [t]
    ensures Chunks(" " + t) == [" ", t]
  {
    SolidRun(t);
    ChunksCons(" ", t);
  }

  lemma FlatSpaced(u: string, t: string)
    requires u != [] && t != [] && Solid(u) && Solid(t)
    ensures Flat(u + " " + t)
  {
    SolidRun(u);
    SolidRun(t);
    FlatAppend(u, " ");
    FlatAppend(u + " ", t);
  }

  /** A line whose words fill 79 columns before `#x`: the second wrapped line starts with
      `#`, so a second pass sets it off as a heading. */
  lemma ContinuationHash(u: string)
    requires |u| == 78 && Solid(u) && u[0] != '#'
    ensures Wrap(u + " #x", Width) == [u, "#x"]
    ensures Format(u + " #x") == u + "\n#x"
    ensures Format(Format(u + " #x")) == u + "\n\n#x\n"
    ensures Unsettled(u + " #x")
  {
    ContinuationWrap(u);
    ContinuationFormat(u);
    ContinuationReformat(u);
    assert "#x" in Wrap(u + " #x", Width);
  }

  lemma ContinuationFormat(u: string)
    requires |u| == 78 && Solid(u) && u[0] != '#'
    ensures Format(u + " #x") == u + "\n#x"
  {
    var s := u + " #x";
    ContinuationWrap(u);
    FlatNoBreak(s);
    SplitLinesSingle(s);
    assert s[0] == u[0];
    assert Block(s) == [u, "#x"];
    assert FormatLines([s]) == Block(s) + FormatLines([]);
    assert FormatLines(SplitLines(s)) == [u, "#x"];
    JoinTwo(u, ["#x"], "\n");
    assert JoinLines([u, "#x"]) == u + "\n" + "#x";
  }

  lemma ContinuationReformat(u: string)
    requires |u| == 78 && Solid(u) && u[0] != '#'
    ensures Format(u + "\n#x") == u + "\n\n#x\n"
  {
    SplitContinued(u);
    BlockSolid(u);
    FormatHashLine();
    assert [u, "#x"][1..] == ["#x"];
    assert FormatLines([u, "#x"]) == [u] + ["", "#x", ""];
    JoinHeadingAfter(u);
  }

  lemma SplitContinued(u: string)
    requires |u| == 78 && Solid(u)
    ensures SplitLines(u + "\n#x") == [u, "#x"]
  {
    assert NoBreak(u) by {
      SolidRun(u);
      FlatNoBreak(u);
    }
    assert SplitLines("#x") == ["#x"] by {
      SplitLinesSingle("#x");
    }
    assert u + "\n#x" == u + "\n" + "#x";
    SplitLinesFirst(u, "#x");
  }

  lemma BlockSolid(u: string)
    requires 0 < |u| <= Width && Solid(u) && u[0] != '#'
    ensures Block(u) == [u]
  {
    WrapSolid(u);
  }

  lemma FormatHashLine()
    ensures FormatLines(["#x"]) == ["", "#x", ""]
  {
    assert ["#x"][1..] == [];
  }

  lemma JoinHeadingAfter(u: string)
    ensures JoinLines([u, "", "#x", ""]) == u + "\n\n#x\n"
  {
    JoinTwo(u, ["", "#x", ""], "\n");
    JoinTwo("", ["#x", ""], "\n");
    JoinTwo("#x", [""], "\n");
    assert JoinLines([u, "", "#x", ""]) == u + "\n" + ("" + "\n" + ("#x" + "\n" + ""));
  }

  lemma ContinuationWrap(u: string)
    requires |u| == 78 && Solid(u)
    ensures Flat(u + " #x")
    ensures Wrap(u + " #x", Width) == [u, "#x"]
  {
    var s := u + " #x";
    assert s == u + " " + "#x";
    ChunksSpaced(u, "#x");
    MungeFlat(s);
    var cs := [u, " ", "#x"];
    assert Chunks(Munge(s)) == cs;
    ContinuationFill(u);
    assert WrapChunks(s, Width) == [[u], ["#x"]];
    JoinEachCons([u], [["#x"]]);
    JoinEachCons(["#x"], []);
    ConcatOne(u);
    ConcatOne("#x");
  }

  lemma ContinuationFill(u: string)
    requires |u| == 78 && Solid(u)
    ensures Fill([u, " ", "#x"], Width, false) == [[u], ["#x"]]
  {
    var cs := [u, " ", "#x"];
    SolidRun(u);
    assert Fit(["#x"], 1) == 0;
    assert cs[1..] == [" ", "#x"] && cs[1..][1..] == ["#x"];
    assert Fit(cs, Width) == 2;
    assert LineOf(cs, Width) == [u, " "];
    assert RestOf(cs, Width) == ["#x"];
    assert TrimLast([u, " "]) == [u];
    assert !IsSpace("#x"[0]);
    FillOne("#x", Width, true);
  }

  /** One step of `Fill`, with the line and the rest named by the caller. */
  lemma FillStep(cs: seq<string>, width: nat, started: bool, line: seq<string>, rest: seq<string>)
    requires width > 0 && cs != []
    requires line == TrimLast(LineOf(Lead(cs, started), width))
    requires rest == RestOf(Lead(cs, started), width)
    ensures Fill(cs, width, started) ==
      if line == [] then Fill(rest, width, started) else [line] + Fill(rest, width, true)
  {
  }

  /** One word that fits is one line. */
  lemma FillOne(w: string, width: nat, started: bool)
    requires 0 < |w| <= width && !IsBlank(w)
    ensures Fill([w], width, started) == [[w]]
  {
    ConcatOne(w);
    FitAll([w], width);
    assert Lead([w], started) == [w];
    assert LineOf([w], width) == [w];
    assert RestOf([w], width) == [];
    assert TrimLast([w]) == [w];
  }

  /** A line filled to 80 columns by a space before an over-long word: the first wrapped
      line keeps that space, and a second pass drops it. */
  lemma TrailingSpace(u: string, v: string)
    requires |u| == 79 && |v| == 81 && Solid(u) && Solid(v) && u[0] != '#'
    ensures Wrap(u + " " + v, Width) == [u + " ", v[..80], v[80..]]
    ensures Wrap(u + " ", Width) == [u]
    ensures Unsettled(u + " " + v)
  {
    TrailingWrap(u, v);
    TrailingShort(u);
    assert u + " " in Wrap(u + " " + v, Width);
  }

  lemma TrailingWrap(u: string, v: string)
    requires |u| == 79 && |v| == 81 && Solid(u) && Solid(v)
    ensures Wrap(u + " " + v, Width) == [u + " ", v[..80], v[80..]]
  {
    var s := u + " " + v;
    ChunksSpaced(u, v);
    MungeFlat(s);
    TrailingFill(u, v);
    assert WrapChunks(s, Width) == [[u, " "], [v[..80]], [v[80..]]];
    JoinEachThree([u, " "], [v[..80]], [v[80..]]);
    ConcatCons(u, [" "]);
    ConcatOne(" ");
    ConcatOne(v[..80]);
    ConcatOne(v[80..]);
  }

  lemma JoinEachThree(a: seq<string>, b: seq<string>, c: seq<string>)
    ensures JoinEach([a, b, c]) == [Concat(a), Concat(b), Concat(c)]
  {
    assert JoinEach([c]) == [Concat(c)] by {
      JoinEachCons(c, []);
      assert [c] == [c] + [];
    }
    assert JoinEach([b, c]) == [Concat(b), Concat(c)] by {
      JoinEachCons(b, [c]);
      assert [b, c] == [b] + [c];
    }
    JoinEachCons(a, [b, c]);
    assert [a, b, c] == [a] + [b, c];
  }

  lemma TrailingFill(u: string, v: string)
    requires |u| == 79 && |v| == 81 && Solid(u) && Solid(v)
    ensures Fill([u, " ", v], Width, false) == [[u, " "], [v[..80]], [v[80..]]]
  {
    var cs := [u, " ", v];
    TrailingLine(u, v);
    assert Lead(cs, false) == cs;
    assert TrimLast([u, " ", ""]) == [u, " "];
    FillStep(cs, Width, false, [u, " "], [v]);
    LongWordFill(v);
  }

  /** The first line takes `u`, the space and none of `v`. */
  lemma TrailingLine(u: string, v: string)
    requires |u| == 79 && |v| == 81 && Solid(u) && Solid(v)
    ensures LineOf([u, " ", v], Width) == [u, " ", ""]
    ensures RestOf([u, " ", v], Width) == [v]
  {
    TrailingLineOf(u, v);
    TrailingRestOf(u, v);
  }

  lemma TrailingFit(u: string, v: string)
    requires |u| == 79 && |v| == 81 && Solid(u) && Solid(v)
    ensures Fit([u, " ", v], Width) == 2
    ensures Concat([u, " ", v][..2]) == u + " "
  {
    var cs := [u, " ", v];
    assert cs[1..] == [" ", v] && cs[1..][1..] == [v];
    assert Fit([v], 0) == 0;
    assert Fit([" ", v], 1) == 1;
    assert cs[..2] == [u, " "];
    ConcatCons(u, [" "]);
    ConcatOne(" ");
  }

  lemma TrailingLineOf(u: string, v: string)
    requires |u| == 79 && |v| == 81 && Solid(u) && Solid(v)
    ensures LineOf([u, " ", v], Width) == [u, " ", ""]
  {
    TrailingFit(u, v);
    assert [u, " ", v][..2] == [u, " "];
    assert v[..0] == "";
  }

  lemma TrailingRestOf(u: string, v: string)
    requires |u| == 79 && |v| == 81 && Solid(u) && Solid(v)
    ensures RestOf([u, " ", v], Width) == [v]
  {
    TrailingFit(u, v);
    assert v[0..] == v;
    assert [u, " ", v][3..] == [];
  }

  lemma LongWordFill(v: string)
    requires |v| == 81 && Solid(v)
    ensures Fill([v], Width, true) == [[v[..80]], [v[80..]]]
  {
    SolidRun(v);
    var tail := v[80..];
    assert !IsSpace(tail[0]);
    FillOne(tail, Width, true);
    assert Fit([v], Width) == 0;
    assert LineOf([v], Width) == [v[..80]];
    assert RestOf([v], Width) == [tail] + [];
    assert !IsSpace(v[..80][0]);
  }

  lemma TrailingShort(u: string)
    requires |u| == 79 && Solid(u)
    ensures Wrap(u + " ", Width) == [u]
  {
    var w := u + " ";
    FlatAppend(u, " ");
    SolidRun(u);
    ChunksCons(" ", []);
    ChunksCons(u, " ");
    assert " " + [] == " ";
    WrapShort(w, Width);
    assert TrimLast(Chunks(w)) == [u];
    ConcatOne(u);
  }

  /** Concrete instances of the two ways a line can be unsettled. */
  lemma UnsettledExamples()
    ensures Unsettled(Repeat('a', 78) + " #x")
    ensures Unsettled(Repeat('a', 79) + " " + Repeat('b', 81))
  {
    UnsettledHash();
    UnsettledTrailing();
  }

  lemma UnsettledHash()
    ensures Unsettled(Repeat('a', 78) + " #x")
  {
    RepeatSolid('a', 78);
    ContinuationHash(Repeat('a', 78));
  }

  lemma UnsettledTrailing()
    ensures Unsettled(Repeat('a', 79) + " " + Repeat('b', 81))
  {
    RepeatSolid('a', 79);
    RepeatSolid('b', 81);
    TrailingSpace(Repeat('a', 79), Repeat('b', 81));
  }
}
