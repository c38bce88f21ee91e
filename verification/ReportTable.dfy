/** The rendered table of recorded results, which reads back as the rows it was made from. */
module ReportTable {
  import opened Options
  import opened AsciiText
  import opened Sequences

  function Replace(s: string, c: char, with: string): string {
    if s == "" then "" else (if s[0] == c then with else [s[0]]) + Replace(s[1..], c, with)
  }

  /** Escaped for a cell of a table. */
  function Markdown(s: string): string {
    Replace(Replace(s, '|', "\\|"), '\n', " ")
  }

  function Escaped(cells: seq<string>): (r: seq<string>)
    ensures |r| == |cells|
    ensures forall i | 0 <= i < |cells| :: r[i] == Markdown(cells[i])
  {
    seq(|cells|, i requires 0 <= i < |cells| => Markdown(cells[i]))
  }

  function RenderRow(cells: seq<string>): string {
    "| " + Join(Escaped(cells), " | ") + " |"
  }

  // Reading a table: section 4.10 of GitHub Flavored Markdown.

  /** The pieces between the pipes that no backslash precedes; `before` is the character before `s`. */
  function SplitRow(s: string, before: char): (r: seq<string>)
    ensures r != []
  {
    if s == "" then [""]
    else if s[0] == '|' && before != '\\' then [""] + SplitRow(s[1..], '|')
    else
      var rest := SplitRow(s[1..], s[0]);
      [[s[0]] + rest[0]] + rest[1..]
  }

  function Unescape(s: string): string {
    if s == "" then ""
    else if |s| > 1 && s[..2] == "\\|" then "|" + Unescape(s[2..])
    else [s[0]] + Unescape(s[1..])
  }

  /** The text of a piece: unescaped, without the space at its either end. */
  function CellText(piece: string): string {
    var s := Unescape(piece);
    if |s| >= 2 && s[0] == ' ' && s[|s| - 1] == ' ' then s[1..|s| - 1] else s
  }

  /** The cells of a row: what lies between its first and its last pipe. */
  function ReadRow(line: string): seq<string> {
    var pieces := SplitRow(line, '\n');
    if |pieces| < 2 then []
    else seq(|pieces| - 2, i requires 0 <= i < |pieces| - 2 => CellText(pieces[i + 1]))
  }

  /** A cell as the table can show it: on one line. */
  function Flat(s: string): string {
    Replace(s, '\n', " ")
  }

  // One character at a time.

  /** What becomes of one character. */
  function Code(c: char): string {
    if c == '|' then ['\\', '|'] else if c == '\n' then [' '] else [c]
  }

  lemma {:induction false} ReplaceAppend(a: string, b: string, c: char, with: string)
    ensures Replace(a + b, c, with) == Replace(a, c, with) + Replace(b, c, with)
  {
    if a == "" {
      assert a + b == b;
    } else {
      ReplaceAppend(a[1..], b, c, with);
      assert (a + b)[1..] == a[1..] + b;
      Associative(if a[0] == c then with else [a[0]], Replace(a[1..], c, with), Replace(b, c, with));
    }
  }

  lemma CodeOf(c: char)
    ensures Replace(if c == '|' then "\\|" else [c], '\n', " ") == Code(c)
  {
    if c == '|' {
      assert "\\|"[1..] == "|" && "|"[1..] == "";
      assert Replace("|", '\n', " ") == "|";
    }
  }

  lemma {:induction false} MarkdownStep(s: string)
    requires s != ""
    ensures Markdown(s) == Code(s[0]) + Markdown(s[1..])
  {
    var head, rest := if s[0] == '|' then "\\|" else [s[0]], Replace(s[1..], '|', "\\|");
    assert Replace(s, '|', "\\|") == head + rest;
    CodeOf(s[0]);
    hide Replace, Code;
    ReplaceAppend(head, rest, '\n', " ");
  }

  /** `text` goes at the front of the first piece. */
  function Grow(text: string, pieces: seq<string>): seq<string>
    requires pieces != []
  {
    [text + pieces[0]] + pieces[1..]
  }

  lemma SplitOn(c: char, s: string, before: char)
    ensures SplitRow([c] + s, before)
            == if c == '|' && before != '\\' then [""] + SplitRow(s, c) else Grow([c], SplitRow(s, c))
  {
    assert ([c] + s)[1..] == s;
  }

  lemma GrowTwice(a: string, b: string, pieces: seq<string>)
    requires pieces != []
    ensures Grow(a, Grow(b, pieces)) == Grow(a + b, pieces)
  {
    Associative(a, b, pieces[0]);
  }

  lemma SplitBar(s: string, before: char)
    ensures SplitRow(['\\', '|'] + s, before) == Grow(['\\', '|'], SplitRow(s, '|'))
  {
    hide *;
    SplitOn('|', s, '\\');
    SplitOn('\\', ['|'] + s, before);
    GrowTwice(['\\'], ['|'], SplitRow(s, '|'));
    Associative(['\\'], ['|'], s);
    assert ['\\'] + ['|'] == ['\\', '|'];
  }

  lemma SplitCode(c: char, s: string, before: char)
    ensures exists last :: SplitRow(Code(c) + s, before) == Grow(Code(c), SplitRow(s, last))
  {
    if c == '|' {
      SplitBar(s, before);
      hide SplitRow;
      assert SplitRow(Code(c) + s, before) == Grow(Code(c), SplitRow(s, '|'));
    } else {
      SplitOn(Code(c)[0], s, before);
      hide SplitRow;
      assert SplitRow(Code(c) + s, before) == Grow(Code(c), SplitRow(s, Code(c)[0]));
    }
  }

  lemma {:induction false} SplitMarkdown(s: string, tail: string, before: char)
    requires tail != "" && tail[0] == ' '
    ensures SplitRow(Markdown(s) + tail, before) == Grow(Markdown(s), SplitRow(tail, '\n'))
  {
    var rest := SplitRow(tail, '\n');
    if s == "" {
      SplitOn(tail[0], tail[1..], before);
      SplitOn(tail[0], tail[1..], '\n');
      assert tail == [tail[0]] + tail[1..];
      assert Markdown(s) + tail == tail && Markdown(s) + rest[0] == rest[0];
    } else {
      MarkdownStep(s);
      var code, m := Code(s[0]), Markdown(s[1..]);
      SplitCode(s[0], m + tail, before);
      var last :| SplitRow(code + (m + tail), before) == Grow(code, SplitRow(m + tail, last));
      SplitMarkdown(s[1..], tail, last);
      Associative(code, m, tail);
      Associative(code, m, rest[0]);
      hide SplitRow, Markdown, Code;
    }
  }

  lemma UnescapeOn(c: char, s: string)
    ensures c == '\\' && s != "" && s[0] == '|' ==> Unescape([c] + s) == "|" + Unescape(s[1..])
    ensures c != '\\' || s == "" || s[0] != '|' ==> Unescape([c] + s) == [c] + Unescape(s)
  {
    var all := [c] + s;
    assert all[1..] == s;
    if s != "" {
      assert all[..2] == [c, s[0]] && all[2..] == s[1..];
    }
  }

  lemma UnescapeCode(c: char, s: string)
    requires s == "" || s[0] != '|'
    ensures Unescape(Code(c) + s) == [if c == '\n' then ' ' else c] + Unescape(s)
  {
    UnescapeOn('\\', ['|'] + s);
    UnescapeOn(if c == '\n' then ' ' else c, s);
    hide Unescape;
    assert (['|'] + s)[1..] == s;
    assert c == '|' ==> Code(c) + s == ['\\'] + (['|'] + s);
  }

  lemma {:induction false} UnescapeMarkdown(s: string, tail: string)
    requires tail == "" || tail[0] != '|'
    ensures Unescape(Markdown(s) + tail) == Flat(s) + Unescape(tail)
    ensures Markdown(s) + tail == "" || (Markdown(s) + tail)[0] != '|'
  {
    if s == "" {
      assert Markdown(s) + tail == tail && Flat(s) + Unescape(tail) == Unescape(tail);
    } else {
      MarkdownStep(s);
      var code, m := Code(s[0]), Markdown(s[1..]);
      var flat := [if s[0] == '\n' then ' ' else s[0]];
      assert Flat(s) == flat + Flat(s[1..]);
      UnescapeMarkdown(s[1..], tail);
      UnescapeCode(s[0], m + tail);
      Associative(code, m, tail);
      Associative(flat, Flat(s[1..]), Unescape(tail));
      hide Unescape, Markdown, Flat;
    }
  }

  predicate OneLine(s: string) {
    '\n' !in s
  }

  lemma {:induction false} MarkdownIsOneLine(s: string)
    ensures '\n' !in Markdown(s)
    ensures '\r' !in s ==> '\r' !in Markdown(s)
  {
    if s != "" {
      MarkdownStep(s);
      MarkdownIsOneLine(s[1..]);
    }
  }

  /** A row is a bar, then for every cell a space, its escaped text, a space and a bar. */
  function Cells(cells: seq<string>): string {
    if cells == [] then "" else [' '] + (Markdown(cells[0]) + ([' '] + (['|'] + Cells(cells[1..]))))
  }

  lemma {:induction false} RowIsCells(cells: seq<string>)
    requires cells != []
    ensures " " + Join(Escaped(cells), " | ") + " |" == Cells(cells)
  {
    if |cells| > 1 {
      assert Escaped(cells)[1..] == Escaped(cells[1..]);
      RowIsCells(cells[1..]);
    }
  }

  /** What splitting leaves of a cell. */
  function Piece(cell: string): string {
    [' '] + (Markdown(cell) + [' '])
  }

  lemma SplitCell(cell: string, rest: string)
    ensures SplitRow([' '] + (Markdown(cell) + ([' '] + (['|'] + rest))), '|') == [Piece(cell)] + SplitRow(rest, '|')
  {
    var end := [' '] + (['|'] + rest);
    SplitOn('|', rest, ' ');
    SplitOn(' ', ['|'] + rest, '\n');
    SplitMarkdown(cell, end, ' ');
    SplitOn(' ', Markdown(cell) + end, '|');
    hide SplitRow, Markdown;
    assert [' '] + "" == [' '];
    assert SplitRow(end, '\n') == [[' ']] + SplitRow(rest, '|');
  }

  lemma {:induction false} SplitCells(cells: seq<string>)
    ensures var pieces := SplitRow(Cells(cells), '|');
            && |pieces| == |cells| + 1
            && forall i | 0 <= i < |cells| :: pieces[i] == Piece(cells[i])
  {
    if cells != [] {
      var rest := Cells(cells[1..]);
      SplitCells(cells[1..]);
      SplitCell(cells[0], rest);
      hide SplitRow, Piece, Markdown;
    }
  }

  lemma TextOfCell(cell: string)
    ensures CellText(Piece(cell)) == Flat(cell)
  {
    var m := Markdown(cell);
    UnescapeMarkdown(cell, " ");
    UnescapeOn(' ', "");
    UnescapeOn(' ', m + " ");
    hide Unescape, Markdown, Flat;
    assert [' '] + "" == " ";
    assert [' '] + (Flat(cell) + " ") == " " + Flat(cell) + " ";
  }

  function FlatRow(cells: seq<string>): (r: seq<string>)
    ensures |r| == |cells| && forall i | 0 <= i < |cells| :: r[i] == Flat(cells[i])
  {
    seq(|cells|, i requires 0 <= i < |cells| => Flat(cells[i]))
  }

  lemma SplitRenderedRow(cells: seq<string>)
    requires cells != []
    ensures SplitRow(RenderRow(cells), '\n') == [""] + SplitRow(Cells(cells), '|')
  {
    var joined := Join(Escaped(cells), " | ");
    RowIsCells(cells);
    BarFirst(joined);
    SplitOn('|', Cells(cells), '\n');
    hide SplitRow, Cells, Join, Escaped;
  }

  lemma BarFirst(joined: string)
    ensures "| " + joined + " |" == ['|'] + (" " + joined + " |")
  {
  }

  lemma PiecesOfRow(cells: seq<string>)
    requires cells != []
    ensures var pieces := SplitRow(RenderRow(cells), '\n');
            && |pieces| == |cells| + 2
            && forall i | 0 <= i < |cells| :: pieces[i + 1] == Piece(cells[i])
  {
    SplitRenderedRow(cells);
    SplitCells(cells);
    hide *;
  }

  /** A rendered row reads back as its cells, whatever bars, backslashes and line breaks they hold. */
  lemma RowReadsBack(cells: seq<string>)
    requires cells != []
    ensures ReadRow(RenderRow(cells)) == FlatRow(cells)
  {
    PiecesOfRow(cells);
    hide SplitRow, RenderRow, CellText, Piece, Flat;
    forall i | 0 <= i < |cells| ensures CellText(Piece(cells[i])) == Flat(cells[i]) {
      TextOfCell(cells[i]);
    }
  }

  // The report.

  datatype Result = Result(caseId: string, outcome: string, definition: string)

  datatype Outcome = Suite(name: string, outcome: string) | Cases(results: seq<Result>)

  /** A recorded run; `digest` is the shortened hash of its environment. */
  datatype RunRecord = RunRecord(
    runId: string, commit: string, sourceState: string, definitions: string, dirty: bool,
    environment: string, models: seq<string>, digest: string, outcome: Outcome)

  type Row = seq<string>

  /** The seven cells of one entry of a run. */
  function RowOf(run: RunRecord, name: string, outcome: string, definition: string): Row {
    [run.runId,
     run.commit + " (" + run.sourceState + ")",
     run.definitions + (if run.dirty then " (dirty)" else ""),
     name, outcome, definition,
     run.environment + "; " + Join(run.models, ", ") + "; context " + run.digest]
  }

  /** `definition` compared with that of the case as it stands. */
  function DefinitionState(cases: map<string, string>, r: Result): string
    requires r.caseId in cases
  {
    if cases[r.caseId] == r.definition then "current definition" else "changed definition"
  }

  /** What a reader of the row learns: which build, which cases' text, what ran, how it went and where. */
  lemma RowShows(run: RunRecord, name: string, outcome: string, definition: string)
    ensures var row := RowOf(run, name, outcome, definition);
            && |row| == 7 && row[0] == run.runId && row[3] == name && row[4] == outcome && row[5] == definition
            && run.commit < row[1] && row[1][|run.commit|..] == " (" + run.sourceState + ")"
            && run.definitions <= row[2] && row[2][|run.definitions|..] == (if run.dirty then " (dirty)" else "")
            && run.environment < row[6]
            && row[6][|run.environment|..] == "; " + Join(run.models, ", ") + "; context " + run.digest
  {
    var row := RowOf(run, name, outcome, definition);
    hide Join;
    assert row[6] == run.environment + ("; " + Join(run.models, ", ") + "; context " + run.digest);
    assert row[1] == run.commit + (" (" + run.sourceState + ")");
  }

  /** A case's definition counts as current exactly when it is the one the result was recorded with. */
  lemma DefinitionStateTells(cases: map<string, string>, r: Result)
    requires r.caseId in cases
    ensures DefinitionState(cases, r) == "current definition" <==> cases[r.caseId] == r.definition
    ensures DefinitionState(cases, r) == "changed definition" <==> cases[r.caseId] != r.definition
  {
    assert "current definition"[1] != "changed definition"[1];
  }

  /** The rows of some results; a selected result of an unknown case is an error. */
  function CaseRows(run: RunRecord, results: seq<Result>, cases: map<string, string>, only: string): Option<seq<Row>> {
    if results == [] then Some([])
    else
      var last := results[|results| - 1];
      var before := CaseRows(run, results[..|results| - 1], cases, only);
      if before.None? || (only != "" && last.caseId != only) then before
      else if last.caseId !in cases then None
      else Some(before.value + [RowOf(run, last.caseId, last.outcome, DefinitionState(cases, last))])
  }

  function RunRows(run: RunRecord, cases: map<string, string>, commit: string, only: string): Option<seq<Row>> {
    if commit != "" && run.commit != commit then Some([])
    else match run.outcome
         case Suite(name, outcome) => if only != "" then Some([]) else Some([RowOf(run, name, outcome, "automated suite")])
         case Cases(results) => CaseRows(run, results, cases, only)
  }

  /** The rows of all runs, in order. */
  function Rows(runs: seq<RunRecord>, cases: map<string, string>, commit: string, only: string): Option<seq<Row>> {
    if runs == [] then Some([])
    else
      var before := Rows(runs[..|runs| - 1], cases, commit, only);
      var last := RunRows(runs[|runs| - 1], cases, commit, only);
      if before.None? || last.None? then None else Some(before.value + last.value)
  }

  const HEADING := "# Version-linked QA results"
  const SCOPE := ["Scoped case/suite outcomes; ", "no automatic catalog-area ", "pass claims."]
  const TITLES := ["| Run | Application commit ", "| Test-definition commit ", "| Case or suite | Result ", "| Definition | Environment |"]
  const RULE := "|---|---|---|---|---|---|---|"

  function Header(): (r: seq<string>)
    ensures |r| == 6
  {
    [HEADING, "", Join(SCOPE, ""), "", Join(TITLES, ""), RULE]
  }

  lemma {:induction false} JoinIsOneLine(parts: seq<string>)
    requires forall part | part in parts :: OneLine(part)
    ensures OneLine(Join(parts, ""))
  {
    if parts != [] {
      assert OneLine(parts[0]);
      JoinIsOneLine(parts[1..]);
    }
  }

  lemma HeaderLines()
    ensures forall line | line in Header() :: OneLine(line)
  {
    ScopeLine();
    TitlesLine();
    hide Join;
  }

  lemma TitlesLine()
    ensures OneLine(Join(TITLES, ""))
  {
    JoinIsOneLine(TITLES);
  }

  lemma ScopeLine()
    ensures OneLine(Join(SCOPE, ""))
  {
    JoinIsOneLine(SCOPE);
  }

  function Rendered(rows: seq<Row>): (r: seq<string>)
    ensures |r| == |rows| && forall i | 0 <= i < |rows| :: r[i] == RenderRow(rows[i])
  {
    seq(|rows|, i requires 0 <= i < |rows| => RenderRow(rows[i]))
  }

  const NOTE := ["", "No recorded results match this exact application revision/case."]

  function Note(rows: seq<Row>): seq<string> {
    if rows == [] then NOTE else []
  }

  function Report(rows: seq<Row>): string {
    Join(Header() + Rendered(rows) + Note(rows), "\n") + "\n"
  }

  /** The rows of one run, or an error. */
  method EntriesOf(run: RunRecord, cases: map<string, string>, only: string) returns (entries: Option<seq<Row>>)
    ensures entries == RunRows(run, cases, "", only)
  {
    hide RowOf, DefinitionState;
    match run.outcome
    case Suite(name, outcome) =>
      entries := Some(if only != "" then [] else [RowOf(run, name, outcome, "automated suite")]);
    case Cases(results) =>
      var rows: seq<Row> := [];
      for k := 0 to |results|
        invariant CaseRows(run, results[..k], cases, only) == Some(rows)
      {
        var result := results[k];
        assert results[..k + 1][..k] == results[..k] && results[..k + 1][k] == result;
        if only != "" && only != result.caseId {
          continue;
        }
        if result.caseId !in cases {
          CaseRowsFailOnce(run, results, cases, only, k + 1);
          return None;
        }
        rows := rows + [RowOf(run, result.caseId, result.outcome, DefinitionState(cases, result))];
      }
      assert results[..|results|] == results;
      entries := Some(rows);
  }

  /** `render_report`, over the runs in the order it sorts them into. */
  method RenderReport(runs: seq<RunRecord>, cases: map<string, string>, commit: string, only: string)
    returns (report: Option<string>)
    ensures var rows := Rows(runs, cases, commit, only);
            report == if rows.None? then None else Some(Report(rows.value))
  {
    assert runs[..0] == [] && Rows(runs[..0], cases, commit, only) == Some([]);
    RenderedNone();
    hide RenderRow, Join, Header, CaseRows, RunRows, RowOf, Rendered;
    var lines := Header();
    var count := 0;
    ghost var rows: seq<Row> := [];
    for i := 0 to |runs|
      invariant Rows(runs[..i], cases, commit, only) == Some(rows)
      invariant lines == Header() + Rendered(rows) && count == |rows|
    {
      RowsNext(runs, cases, commit, only, i);
      if commit != "" && runs[i].commit != commit {
        assert rows + [] == rows;
        continue;
      }
      var entries := EntriesOf(runs[i], cases, only);
      if entries.None? {
        RowsFailOnce(runs, cases, commit, only, i + 1);
        return None;
      }
      RenderedAppend(Header(), rows, entries.value);
      lines := AppendRows(lines, entries.value);
      count := count + |entries.value|;
      rows := rows + entries.value;
    }
    assert runs[..|runs|] == runs;
    if count == 0 {
      lines := lines + NOTE;
    }
    assert lines == Header() + Rendered(rows) + Note(rows);
    report := Some(Join(lines, "\n") + "\n");
  }

  /** The loop over the entries of one run. */
  method AppendRows(lines: seq<string>, entries: seq<Row>) returns (more: seq<string>)
    ensures more == lines + Rendered(entries)
  {
    hide RenderRow;
    more := lines;
    RenderedNone();
    assert entries[..0] == [] && lines + [] == lines;
    for k := 0 to |entries|
      invariant more == lines + Rendered(entries[..k])
    {
      RenderedMore(entries[..k], entries[k]);
      Associative(lines, Rendered(entries[..k]), [RenderRow(entries[k])]);
      more := more + [RenderRow(entries[k])];
      assert entries[..k + 1] == entries[..k] + [entries[k]];
    }
    assert entries[..|entries|] == entries;
  }

  lemma RenderedAppend(head: seq<string>, rows: seq<Row>, more: seq<Row>)
    ensures head + Rendered(rows) + Rendered(more) == head + Rendered(rows + more)
  {
    hide RenderRow;
    assert Rendered(rows + more) == Rendered(rows) + Rendered(more);
  }

  lemma RenderedMore(rows: seq<Row>, row: Row)
    ensures Rendered(rows + [row]) == Rendered(rows) + [RenderRow(row)]
  {
    hide RenderRow;
  }

  lemma RenderedNone()
    ensures Rendered([]) == [] && Header() + [] == Header()
  {
  }

  lemma RowsNext(runs: seq<RunRecord>, cases: map<string, string>, commit: string, only: string, i: nat)
    requires i < |runs|
    ensures var before, here := Rows(runs[..i], cases, commit, only), RunRows(runs[i], cases, commit, only);
            Rows(runs[..i + 1], cases, commit, only)
            == if before.None? || here.None? then None else Some(before.value + here.value)
  {
    assert runs[..i + 1][..i] == runs[..i];
  }

  /** An error in the first results is one in all of them. */
  lemma {:induction false} CaseRowsFailOnce(
    run: RunRecord, results: seq<Result>, cases: map<string, string>, only: string, k: nat)
    requires k <= |results|
    ensures CaseRows(run, results[..k], cases, only).None? ==> CaseRows(run, results, cases, only).None?
  {
    if k == |results| {
      assert results[..k] == results;
    } else {
      var most := results[..|results| - 1];
      CaseRowsFailOnce(run, most, cases, only, k);
      assert most[..k] == results[..k];
    }
  }

  lemma {:induction false} RowsFailOnce(
    runs: seq<RunRecord>, cases: map<string, string>, commit: string, only: string, k: nat)
    requires k <= |runs|
    ensures Rows(runs[..k], cases, commit, only).None? ==> Rows(runs, cases, commit, only).None?
  {
    if k == |runs| {
      assert runs[..k] == runs;
    } else {
      var most := runs[..|runs| - 1];
      RowsFailOnce(most, cases, commit, only, k);
      assert most[..k] == runs[..k];
    }
  }

  function Lines(s: string): (r: seq<string>)
    ensures r != []
  {
    if s == "" then [""]
    else
      var rest := Lines(s[1..]);
      if s[0] == '\n' then [""] + rest else [[s[0]] + rest[0]] + rest[1..]
  }

  lemma {:induction false} LinesOf(line: string, tail: string)
    requires OneLine(line)
    ensures Lines(line + ['\n'] + tail) == [line] + Lines(tail)
  {
    var s := line + ['\n'] + tail;
    if line == "" {
      assert s == ['\n'] + tail && s[1..] == tail;
    } else {
      LinesOf(line[1..], tail);
      assert s[1..] == line[1..] + ['\n'] + tail;
      assert [line[0]] + line[1..] == line;
    }
  }

  lemma {:induction false} LinesOfJoin(parts: seq<string>)
    requires parts != [] && forall part | part in parts :: OneLine(part)
    ensures Lines(Join(parts, "\n") + "\n") == parts + [""]
  {
    assert OneLine(parts[0]);
    if |parts| == 1 {
      LinesOf(parts[0], "");
      assert parts[0] + ['\n'] + "" == Join(parts, "\n") + "\n";
    } else {
      var rest := Join(parts[1..], "\n") + "\n";
      LinesOf(parts[0], rest);
      LinesOfJoin(parts[1..]);
      assert parts[0] + ['\n'] + rest == Join(parts, "\n") + "\n";
      hide Lines, Join;
      assert [parts[0]] + (parts[1..] + [""]) == parts + [""];
    }
  }

  lemma {:induction false} CellsAreOneLine(cells: seq<string>)
    ensures '\n' !in Cells(cells)
  {
    if cells != [] {
      MarkdownIsOneLine(cells[0]);
      CellsAreOneLine(cells[1..]);
    }
  }

  lemma RowIsOneLine(cells: seq<string>)
    requires cells != []
    ensures OneLine(RenderRow(cells))
  {
    RowIsCells(cells);
    CellsAreOneLine(cells);
    assert RenderRow(cells) == "|" + Cells(cells);
  }

  lemma RenderedAreOneLine(rows: seq<Row>)
    requires forall row | row in rows :: |row| > 0
    ensures forall line | line in Rendered(rows) :: OneLine(line)
  {
    hide RenderRow;
    forall k | 0 <= k < |rows| ensures OneLine(RenderRow(rows[k])) {
      assert rows[k] in rows;
      RowIsOneLine(rows[k]);
    }
  }

  lemma LinesOfReport(rows: seq<Row>)
    requires rows != [] && forall row | row in rows :: |row| > 0
    ensures Lines(Report(rows)) == Header() + Rendered(rows) + [""]
  {
    RenderedAreOneLine(rows);
    HeaderLines();
    hide ReadRow, RenderRow, Header, FlatRow, Join, Lines, OneLine;
    var parts := Header() + Rendered(rows);
    assert parts + Note(rows) == parts;
    LinesOfJoin(parts);
  }

  /** Below its header a report has one line for every row, and that line reads back as the row. */
  lemma ReportReadsBack(rows: seq<Row>, k: nat)
    requires k < |rows| && forall row | row in rows :: |row| > 0
    ensures var lines := Lines(Report(rows)); |lines| == 6 + |rows| + 1 && ReadRow(lines[6 + k]) == FlatRow(rows[k])
  {
    var row := rows[k];
    assert row in rows;
    LinesOfReport(rows);
    RowReadsBack(row);
    Between(Header(), Rendered(rows), [""], k);
    assert Rendered(rows)[k] == RenderRow(row);
    hide *;
  }

  lemma Between(a: seq<string>, b: seq<string>, c: seq<string>, k: nat)
    requires k < |b|
    ensures (a + b + c)[|a| + k] == b[k] && |a + b + c| == |a| + |b| + |c|
  {
  }

  predicate InScope(row: Row, runs: seq<RunRecord>, commit: string, only: string) {
    exists run | run in runs ::
      && (commit == "" || run.commit == commit)
      && |row| == 7 && row[0] == run.runId
      && match run.outcome
         case Suite(name, outcome) => only == "" && row[3] == name && row[4] == outcome
         case Cases(results) =>
           && (only == "" || row[3] == only)
           && exists r | r in results :: r.caseId == row[3] && r.outcome == row[4]
  }

  predicate Reports(row: Row, run: RunRecord, r: Result, only: string) {
    && |row| == 7 && row[0] == run.runId && (only == "" || row[3] == only)
    && row[3] == r.caseId && row[4] == r.outcome
  }

  lemma {:induction false} CaseRowsInScope(run: RunRecord, results: seq<Result>, cases: map<string, string>, only: string)
    requires CaseRows(run, results, cases, only).Some?
    ensures forall row | row in CaseRows(run, results, cases, only).value ::
              exists r | r in results :: Reports(row, run, r, only)
  {
    if results != [] {
      var most, last := results[..|results| - 1], results[|results| - 1];
      CaseRowsInScope(run, most, cases, only);
      assert last in results && forall r | r in most :: r in results;
      assert last.caseId in cases && (only == "" || last.caseId == only) ==>
          Reports(RowOf(run, last.caseId, last.outcome, DefinitionState(cases, last)), run, last, only);
      hide Reports, RowOf, DefinitionState;
    }
  }

  /** Every row of a report is a recorded outcome of exactly the commit and the case asked for. */
  lemma {:induction false} RowsInScope(runs: seq<RunRecord>, cases: map<string, string>, commit: string, only: string)
    requires Rows(runs, cases, commit, only).Some?
    ensures forall row | row in Rows(runs, cases, commit, only).value :: InScope(row, runs, commit, only)
  {
    if runs != [] {
      var most, last := runs[..|runs| - 1], runs[|runs| - 1];
      RowsInScope(most, cases, commit, only);
      if last.outcome.Cases? && (commit == "" || last.commit == commit) {
        CaseRowsInScope(last, last.outcome.results, cases, only);
      }
      assert forall row | row in RunRows(last, cases, commit, only).value :: InScope(row, [last], commit, only);
      forall row | row in Rows(runs, cases, commit, only).value ensures InScope(row, runs, commit, only) {
        if row in RunRows(last, cases, commit, only).value {
          assert InScope(row, [last], commit, only);
          assert last in runs;
        } else {
          assert InScope(row, most, commit, only);
        }
      }
    }
  }

  lemma {:induction false} CaseReported(run: RunRecord, results: seq<Result>, cases: map<string, string>, only: string, r: Result)
    requires CaseRows(run, results, cases, only).Some? && r in results && (only == "" || r.caseId == only)
    ensures r.caseId in cases
    ensures RowOf(run, r.caseId, r.outcome, DefinitionState(cases, r)) in CaseRows(run, results, cases, only).value
  {
    hide RowOf, DefinitionState;
    var most, last := results[..|results| - 1], results[|results| - 1];
    if r != last {
      assert results == most + [last];
      CaseReported(run, most, cases, only, r);
    }
  }

  /** And no recorded outcome of that commit and case is missing from it. */
  lemma {:induction false} Reported(
    runs: seq<RunRecord>, cases: map<string, string>, commit: string, only: string, run: RunRecord, row: Row)
    requires Rows(runs, cases, commit, only).Some? && run in runs && (commit == "" || run.commit == commit)
    requires match run.outcome
             case Suite(name, outcome) => only == "" && row == RowOf(run, name, outcome, "automated suite")
             case Cases(results) =>
               exists r | r in results && r.caseId in cases :: (only == "" || r.caseId == only)
                 && row == RowOf(run, r.caseId, r.outcome, DefinitionState(cases, r))
    ensures row in Rows(runs, cases, commit, only).value
  {
    hide RowOf, DefinitionState;
    var most, last := runs[..|runs| - 1], runs[|runs| - 1];
    if run != last {
      assert runs == most + [last];
      Reported(most, cases, commit, only, run, row);
    } else if run.outcome.Cases? {
      var r :| r in run.outcome.results && r.caseId in cases && (only == "" || r.caseId == only)
        && row == RowOf(run, r.caseId, r.outcome, DefinitionState(cases, r));
      CaseReported(run, run.outcome.results, cases, only, r);
    }
  }
}
