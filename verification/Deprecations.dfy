/**
 Deprecation records: the published page they are printed on and read back from
 (tools/deprecations.py), and the notice a record must give (core/deprecation.py).
 */
module Deprecations {
  import opened Wrappers
  import Text
  import opened ReleaseNumbers

  datatype Record = Record(name: string, since: string, removal: string, alternative: string, reason: Option<string>)

  const DASH := "\U{2014}"

  // The page's fixed lines, each as the runs of text it is put together from.
  const TITLE := ["# Deprecations"]
  const BLANK: seq<string> := []
  const PURPOSE := [
    "Every public name ", "scheduled for removal, ", "generated from the ", "`@deprecate` ", "records by"]
  const COMMAND := ["`make deprecations`. ", "Do not edit by hand."]
  const ADVICE := ["Set `TESSERIX_ADK_", "DEPRECATIONS_AS_ERRORS=1` ", "in your CI to fail on ", "these before the"]
  const POLICY := ["removal lands. The policy ", "behind the dates is in ", "[versioning.md]", "(versioning.md)."]
  const OPENING := [TITLE, BLANK, PURPOSE, COMMAND, BLANK, ADVICE, POLICY, BLANK]

  const HEADING := ["| Symbol | ", "Deprecated in | ", "Removed in | ", "Use instead | Why |"]
  const RULE := ["| --- | --- | ", "--- | --- | --- |"]
  const EMPTY := ["No deprecations are live."]

  function Lines(lines: seq<seq<string>>, rest: string): string {
    if lines == [] then rest else Text.Join("", lines[0]) + "\n" + Lines(lines[1..], rest)
  }

  // ---------------------------------------------------------------- printing

  function ReasonCell(r: Record): string {
    if r.reason.None? || r.reason.value == "" then DASH else r.reason.value
  }

  function Cells(r: Record): seq<string> {
    [" `" + r.name + "` ", " " + r.since + " ", " " + r.removal + " ", " `" + r.alternative + "` ",
     " " + ReasonCell(r) + " "]
  }

  /** One table row, without its line end. */
  function Row(r: Record): string {
    "|" + Text.Join("|", Cells(r)) + "|"
  }

  function Rows(records: seq<Record>): string {
    if records == [] then "" else Row(records[0]) + "\n" + Rows(records[1..])
  }

  function Render(records: seq<Record>): string {
    Lines(OPENING, if records == [] then Lines([EMPTY], "") else Lines([HEADING, RULE], Rows(records)))
  }

  // ---------------------------------------------------------------- reading

  /** A table row that does not have five cells. */
  datatype ParseError = WrongCells(line: string)

  const ROW_START := "| `"

  predicate Bar(c: char) {
    c == '|'
  }

  predicate Tick(c: char) {
    c == '`'
  }

  function Stripped(cell: string): string {
    Text.Strip(cell, Text.IsSpace)
  }

  function ReadRow(line: string): Result<Record, ParseError> {
    var cells := Text.Split(Text.Strip(line, Bar), "|");
    if |cells| != 5 then Err(WrongCells(line))
    else
      var reason := Stripped(cells[4]);
      Ok(Record(
        Text.Strip(Stripped(cells[0]), Tick), Stripped(cells[1]), Stripped(cells[2]),
        Text.Strip(Stripped(cells[3]), Tick), if reason == DASH then None else Some(reason)))
  }

  /** The records of a page's lines, or the first row that cannot be read. */
  function ReadLines(lines: seq<string>): Result<seq<Record>, ParseError> {
    if lines == [] then Ok([])
    else if !(ROW_START <= lines[0]) then ReadLines(lines[1..])
    else
      match ReadRow(lines[0])
      case Err(e) => Err(e)
      case Ok(r) =>
        match ReadLines(lines[1..])
        case Err(e) => Err(e)
        case Ok(rest) => Ok([r] + rest)
  }

  function Read(page: string): Result<seq<Record>, ParseError> {
    ReadLines(Text.SplitLines(page))
  }

  method Parse(page: string) returns (r: Result<seq<Record>, ParseError>)
    ensures r == Read(page)
  {
    var records: seq<Record> := [];
    var lines := Text.SplitLines(page);
    assert lines[0..] == lines && forall rest :: records + rest == rest;
    for i := 0 to |lines|
      invariant ReadLines(lines) == Prefixed(records, ReadLines(lines[i..]))
    {
      var line := lines[i];
      assert lines[i..][0] == line && lines[i..][1..] == lines[i + 1..];
      if !(ROW_START <= line) {
        continue;
      }
      var record := ReadRow(line);
      if record.Err? {
        return Err(record.error);
      }
      ghost var rest := ReadLines(lines[i + 1..]);
      assert rest.Ok? ==> records + ([record.value] + rest.value) == records + [record.value] + rest.value;
      records := records + [record.value];
    }
    assert records + [] == records;
    return Ok(records);
  }

  function Prefixed(records: seq<Record>, r: Result<seq<Record>, ParseError>): Result<seq<Record>, ParseError> {
    match r case Err(e) => Err(e) case Ok(rest) => Ok(records + rest)
  }

  // ---------------------------------------------------------------- round trips

  predicate Plain(cell: string) {
    '|' !in cell && Text.OneLine(cell)
  }

  /** Cells a row can carry: no bar, no line break, and nothing that stripping would take off. */
  predicate Fits(r: Record) {
    Plain(r.name) && Text.Trimmed(r.name, Tick) &&
    Plain(r.alternative) && Text.Trimmed(r.alternative, Tick) &&
    Plain(r.since) && Text.Trimmed(r.since, Text.IsSpace) &&
    Plain(r.removal) && Text.Trimmed(r.removal, Text.IsSpace) &&
    (r.reason.Some? ==> Plain(r.reason.value) && Text.Trimmed(r.reason.value, Text.IsSpace))
  }

  /** An empty reason and the dash both mean no reason. */
  function Normal(r: Record): Record {
    r.(reason := if r.reason == Some("") || r.reason == Some(DASH) then None else r.reason)
  }

  predicate WellFormed(r: Record) {
    Fits(r) && Normal(r) == r
  }

  function NormalAll(records: seq<Record>): (r: seq<Record>)
    ensures |r| == |records| && forall i :: 0 <= i < |r| ==> r[i] == Normal(records[i])
  {
    seq(|records|, i requires 0 <= i < |records| => Normal(records[i]))
  }

  lemma PlainJoins(a: string, b: string)
    requires Plain(a) && Plain(b)
    ensures Plain(a + b)
  {
  }

  lemma SpacedCell(s: string)
    requires Plain(s)
    ensures Plain(" " + s + " ") && Text.Separable(" " + s + " ", "|")
    ensures Text.Trimmed(s, Text.IsSpace) ==> Stripped(" " + s + " ") == s
  {
    PlainJoins(" ", s);
    PlainJoins(" " + s, " ");
    Text.FreeIsSeparable(" " + s + " ", "|");
    if Text.Trimmed(s, Text.IsSpace) {
      Text.StripPadded(" ", s, " ", Text.IsSpace);
    }
  }

  lemma TickedCell(s: string)
    requires Plain(s) && Text.Trimmed(s, Tick)
    ensures Plain(" `" + s + "` ") && Text.Separable(" `" + s + "` ", "|")
    ensures Text.Strip(Stripped(" `" + s + "` "), Tick) == s
  {
    var ticked := "`" + s + "`";
    PlainJoins("`", s);
    PlainJoins("`" + s, "`");
    assert " `" + s + "` " == " " + ticked + " ";
    SpacedCell(ticked);
    Text.StripPadded("`", s, "`", Tick);
  }

  lemma CellsFit(r: Record)
    requires Fits(r)
    ensures forall i :: 0 <= i < 5 ==> Plain(Cells(r)[i]) && Text.Separable(Cells(r)[i], "|")
  {
    TickedCell(r.name);
    SpacedCell(r.since);
    SpacedCell(r.removal);
    TickedCell(r.alternative);
    SpacedCell(ReasonCell(r));
  }

  lemma RowInside(r: Record)
    requires Fits(r)
    ensures Text.Strip(Row(r), Bar) == Text.Join("|", Cells(r)) && Text.Split(Text.Join("|", Cells(r)), "|") == Cells(r)
  {
    var inner := Text.Join("|", Cells(r));
    CellsFit(r);
    Text.SplitJoin(Cells(r), "|");
    JoinEnds(Cells(r));
    Text.StripPadded("|", inner, "|", Bar);
  }

  lemma {:induction false} JoinEnds(cells: seq<string>)
    requires cells != [] && forall i :: 0 <= i < |cells| ==>
      cells[i] != "" && !Bar(cells[i][0]) && !Bar(cells[i][|cells[i]| - 1])
    ensures Text.Join("|", cells) != "" && Text.Trimmed(Text.Join("|", cells), Bar)
  {
    if |cells| > 1 {
      JoinEnds(cells[1..]);
    }
  }

  lemma RowReadsBack(r: Record)
    requires Fits(r)
    ensures ReadRow(Row(r)) == Ok(Normal(r))
  {
    RowInside(r);
    TickedCell(r.name);
    SpacedCell(r.since);
    SpacedCell(r.removal);
    TickedCell(r.alternative);
    SpacedCell(ReasonCell(r));
    assert Text.Trimmed(ReasonCell(r), Text.IsSpace);
  }

  lemma RowIsLine(r: Record)
    requires Fits(r)
    ensures Text.OneLine(Row(r)) && ROW_START <= Row(r)
  {
    CellsFit(r);
    JoinIsOneLine(Cells(r));
    PlainStart(r);
  }

  lemma {:induction false} JoinIsOneLine(cells: seq<string>)
    requires forall i :: 0 <= i < |cells| ==> Text.OneLine(cells[i])
    ensures Text.OneLine(Text.Join("|", cells))
  {
    if |cells| > 1 {
      JoinIsOneLine(cells[1..]);
      assert Text.OneLine(cells[0]);
    }
  }

  lemma PlainStart(r: Record)
    ensures ROW_START <= Row(r)
  {
    var cells := Cells(r);
    assert cells[0][0] == ' ' && cells[0][1] == '`';
    assert Row(r)[1] == ' ' && Row(r)[2] == '`';
  }

  lemma OneRow(r: Record, rest: string)
    requires Fits(r)
    ensures Read(Row(r) + "\n" + rest) == Prefixed([Normal(r)], Read(rest))
  {
    RowIsLine(r);
    Text.FirstLine(Row(r), rest);
    RowReadsBack(r);
  }

  lemma {:induction false} RowsReadBack(records: seq<Record>)
    requires forall i :: 0 <= i < |records| ==> Fits(records[i])
    ensures Read(Rows(records)) == Ok(NormalAll(records))
  {
    if records == [] {
      assert NormalAll(records) == [];
    } else {
      OneRow(records[0], Rows(records[1..]));
      RowsReadBack(records[1..]);
      NormalFirst(records);
    }
  }

  lemma NormalFirst(records: seq<Record>)
    requires records != []
    ensures NormalAll(records) == [Normal(records[0])] + NormalAll(records[1..])
  {
  }

  lemma LineIsSkipped(line: string, rest: string)
    requires Text.OneLine(line) && !(ROW_START <= line)
    ensures Read(line + "\n" + rest) == Read(rest)
  {
    Text.FirstLine(line, rest);
  }

  /** A line of runs of text that is no table row. */
  predicate NoRow(runs: seq<string>) {
    Text.OneLine(Text.Join("", runs)) && !(ROW_START <= Text.Join("", runs))
  }

  lemma {:induction false} LinesAreSkipped(lines: seq<seq<string>>, rest: string)
    requires forall i :: 0 <= i < |lines| ==> NoRow(lines[i])
    ensures Read(Lines(lines, rest)) == Read(rest)
  {
    if lines != [] {
      assert NoRow(lines[0]);
      LineIsSkipped(Text.Join("", lines[0]), Lines(lines[1..], rest));
      LinesAreSkipped(lines[1..], rest);
    }
  }

  predicate Ascii(text: string) {
    forall i :: 0 <= i < |text| ==> ' ' <= text[i] <= '~'
  }

  lemma {:induction false} RunsAreAscii(runs: seq<string>)
    requires forall i :: 0 <= i < |runs| ==> Ascii(runs[i])
    ensures Ascii(Text.Join("", runs))
  {
    if |runs| > 1 {
      RunsAreAscii(runs[1..]);
      assert Ascii(runs[0]);
      assert Text.Join("", runs) == runs[0] + Text.Join("", runs[1..]);
    }
  }

  /** Printable runs that do not start with a bar, or whose bar opens no code name. */
  lemma RunsAreNoRow(runs: seq<string>)
    requires forall i :: 0 <= i < |runs| ==> Ascii(runs[i])
    requires runs != [] ==> |runs[0]| >= 3 && (runs[0][0] != '|' || runs[0][2] != '`')
    ensures NoRow(runs)
  {
    RunsAreAscii(runs);
    var text := Text.Join("", runs);
    if runs != [] {
      assert text[0] == runs[0][0] && text[2] == runs[0][2];
      assert ROW_START[0] == '|' && ROW_START[2] == '`';
    }
  }

  lemma OpeningLines()
    ensures NoRow(TITLE) && NoRow(BLANK) && NoRow(COMMAND)
  {
    RunsAreNoRow(TITLE);
    RunsAreNoRow(BLANK);
    RunsAreNoRow(COMMAND);
  }

  lemma PurposeLine()
    ensures NoRow(PURPOSE)
  {
    RunsAreNoRow(PURPOSE);
  }

  lemma AdviceLine()
    ensures NoRow(ADVICE)
  {
    RunsAreNoRow(ADVICE);
  }

  lemma PolicyLine()
    ensures NoRow(POLICY)
  {
    RunsAreNoRow(POLICY);
  }

  lemma HeadingLine()
    ensures NoRow(HEADING)
  {
    RunsAreNoRow(HEADING);
  }

  lemma RuleLine()
    ensures NoRow(RULE)
  {
    RunsAreNoRow(RULE);
  }

  lemma EmptyLine()
    ensures NoRow(EMPTY)
  {
    RunsAreNoRow(EMPTY);
  }

  lemma OpeningIsSkipped(rest: string)
    ensures Read(Lines(OPENING, rest)) == Read(rest)
  {
    OpeningLines();
    PurposeLine();
    AdviceLine();
    PolicyLine();
    EightLines(TITLE, BLANK, PURPOSE, COMMAND, ADVICE, POLICY, rest);
  }

  lemma EightLines(
    a: seq<string>, b: seq<string>, c: seq<string>, d: seq<string>, e: seq<string>, f: seq<string>, rest: string)
    requires NoRow(a) && NoRow(b) && NoRow(c) && NoRow(d) && NoRow(e) && NoRow(f)
    ensures Read(Lines([a, b, c, d, b, e, f, b], rest)) == Read(rest)
  {
    LinesAreSkipped([a, b, c, d, b, e, f, b], rest);
  }

  lemma HeadIsSkipped(rest: string)
    ensures Read(Lines([HEADING, RULE], rest)) == Read(rest)
    ensures Read(Lines([EMPTY], rest)) == Read(rest)
  {
    HeadingLine();
    RuleLine();
    EmptyLine();
    LinesAreSkipped([HEADING, RULE], rest);
    LinesAreSkipped([EMPTY], rest);
  }

  lemma PageHoldsRows(records: seq<Record>)
    ensures Read(Render(records)) == Read(Rows(records))
  {
    HeadIsSkipped(Rows(records));
    OpeningIsSkipped(if records == [] then Lines([EMPTY], "") else Lines([HEADING, RULE], Rows(records)));
  }

  /** What a page is read back as: the records, with an empty or dashed reason read as none. */
  lemma RenderReadsBack(records: seq<Record>)
    requires forall i :: 0 <= i < |records| ==> Fits(records[i])
    ensures Read(Render(records)) == Ok(NormalAll(records))
  {
    PageHoldsRows(records);
    RowsReadBack(records);
  }

  lemma StrippedIsPlain(cell: string, drop: char -> bool)
    requires Plain(cell)
    ensures Plain(Text.Strip(cell, drop)) && Text.Trimmed(Text.Strip(cell, drop), drop)
  {
    Text.StripTrims(cell, drop);
  }

  /** A record read from one line always fits a row again. */
  lemma ReadRowFits(line: string)
    requires Text.OneLine(line) && ReadRow(line).Ok?
    ensures Fits(ReadRow(line).value)
  {
    var inner := Text.Strip(line, Bar);
    Text.StripTrims(line, Bar);
    var cells := Text.Split(inner, "|");
    forall i | 0 <= i < 5 ensures Plain(cells[i]) {
      CellIsPlain(inner, i);
    }
    StrippedIsPlain(cells[0], Text.IsSpace);
    StrippedIsPlain(Stripped(cells[0]), Tick);
    StrippedIsPlain(cells[1], Text.IsSpace);
    StrippedIsPlain(cells[2], Text.IsSpace);
    StrippedIsPlain(cells[3], Text.IsSpace);
    StrippedIsPlain(Stripped(cells[3]), Tick);
    StrippedIsPlain(cells[4], Text.IsSpace);
  }

  lemma CellIsPlain(inner: string, i: nat)
    requires Text.OneLine(inner) && i < |Text.Split(inner, "|")|
    ensures Plain(Text.Split(inner, "|")[i])
  {
    var cell := Text.Split(inner, "|")[i];
    Text.SplitParts(inner, "|");
    Text.SplitCharacters(inner, "|", i);
    forall k | 0 <= k < |cell| ensures cell[k] != '|' {
      assert !Text.At(cell, "|", k);
      assert cell[k..k + 1] == [cell[k]];
    }
  }

  lemma {:induction false} ReadLinesFit(lines: seq<string>)
    requires (forall i :: 0 <= i < |lines| ==> Text.OneLine(lines[i])) && ReadLines(lines).Ok?
    ensures forall i :: 0 <= i < |ReadLines(lines).value| ==> Fits(ReadLines(lines).value[i])
  {
    if lines != [] {
      if ROW_START <= lines[0] {
        ReadRowFits(lines[0]);
      }
      ReadLinesFit(lines[1..]);
    }
  }

  /** A page gives back exactly the records it was rendered from, when and only when every record is well formed. */
  lemma ReadUndoesRender(records: seq<Record>)
    ensures Read(Render(records)) == Ok(records) <==> forall i :: 0 <= i < |records| ==> WellFormed(records[i])
  {
    if Read(Render(records)) == Ok(records) {
      Text.LinesAreOneLine(Render(records));
      ReadLinesFit(Text.SplitLines(Render(records)));
      RenderReadsBack(records);
      assert forall i :: 0 <= i < |records| ==> NormalAll(records)[i] == records[i];
    }
    if forall i :: 0 <= i < |records| ==> WellFormed(records[i]) {
      RenderReadsBack(records);
      assert NormalAll(records) == records;
    }
  }

  lemma {:induction false} RowsOfNormal(records: seq<Record>)
    ensures Rows(NormalAll(records)) == Rows(records)
  {
    if records != [] {
      RowsOfNormal(records[1..]);
      assert NormalAll(records)[1..] == NormalAll(records[1..]);
      assert Cells(Normal(records[0])) == Cells(records[0]);
    }
  }

  /** Rendering what was read changes nothing more, even where a reason was normalised away. */
  lemma RenderAfterReadIsStable(records: seq<Record>)
    requires forall i :: 0 <= i < |records| ==> Fits(records[i])
    ensures Read(Render(records)).Ok? && Render(Read(Render(records)).value) == Render(records)
  {
    RenderReadsBack(records);
    RowsOfNormal(records);
  }

  // ---------------------------------------------------------------- the notice a record gives

  const MINIMUM_WINDOW_MINORS := 2

  datatype WindowError = NotAfter | NotBreaking | TooShort

  /** Is this removal far enough after the announcement, in a release that may break? */
  function CheckWindow(announced: Release, scheduled: Release): Outcome<WindowError> {
    if AtMost(scheduled, announced) then Fail(NotAfter)
    else if !(if announced.major != 0 then scheduled.minor == 0 && scheduled.patch == 0 else scheduled.patch == 0)
    then Fail(NotBreaking)
    else if announced.major == 0 && scheduled.minor as int - announced.minor as int < MINIMUM_WINDOW_MINORS
    then Fail(TooShort)
    else Pass
  }

  // ---------------------------------------------------------------- rows that were not printed here

  /** A row whose last cell is empty is read as a record with an empty reason, not as one without. */
  lemma EmptyCellIsEmptyReason(r: Record)
    requires Fits(r)
    ensures var cells := [
        " `" + r.name + "` ", " " + r.since + " ", " " + r.removal + " ", " `" + r.alternative + "` ", "  "];
      ReadRow("|" + Text.Join("|", cells) + "|") == Ok(r.(reason := Some("")))
  {
    var cells := [" `" + r.name + "` ", " " + r.since + " ", " " + r.removal + " ", " `" + r.alternative + "` ", "  "];
    TickedCell(r.name);
    SpacedCell(r.since);
    SpacedCell(r.removal);
    TickedCell(r.alternative);
    SpacedCell("");
    assert " " + "" + " " == "  ";
    CellsInside(cells);
  }

  lemma CellsInside(cells: seq<string>)
    requires cells != [] && forall i :: 0 <= i < |cells| ==>
      cells[i] != "" && !Bar(cells[i][0]) && !Bar(cells[i][|cells[i]| - 1]) && Text.Separable(cells[i], "|")
    ensures Text.Split(Text.Strip("|" + Text.Join("|", cells) + "|", Bar), "|") == cells
  {
    Text.SplitJoin(cells, "|");
    JoinEnds(cells);
    Text.StripPadded("|", Text.Join("|", cells), "|", Bar);
  }

  /** A row is read exactly when it has five cells. */
  lemma FiveCellsAreRead(cells: seq<string>)
    requires cells != [] && forall i :: 0 <= i < |cells| ==>
      cells[i] != "" && !Bar(cells[i][0]) && !Bar(cells[i][|cells[i]| - 1]) && Text.Separable(cells[i], "|")
    ensures ReadRow("|" + Text.Join("|", cells) + "|").Ok? <==> |cells| == 5
  {
    CellsInside(cells);
  }

  /** Without a reason, or with an empty one, the last cell of a printed row is a dash. */
  lemma NoReasonIsDash(r: Record)
    ensures r.reason == None || r.reason == Some("") ==> Cells(r)[4] == " \U{2014} "
  {
  }

  /** What is wrong with a removal date: not after the announcement, no breaking release, or too soon before 1.0. */
  lemma WindowFaults(announced: Release, scheduled: Release)
    ensures CheckWindow(announced, scheduled) == Fail(NotAfter) <==> !Less(announced, scheduled)
    ensures CheckWindow(announced, scheduled) == Fail(NotBreaking) <==>
      Less(announced, scheduled) && (scheduled.patch > 0 || (announced.major >= 1 && scheduled.minor > 0))
    ensures CheckWindow(announced, scheduled) == Fail(TooShort) <==>
      Less(announced, scheduled) && scheduled.patch == 0 && announced.major == 0 &&
      scheduled.minor < announced.minor + 2
  {
  }

  // ---------------------------------------------------------------- the page

  function Texts(lines: seq<seq<string>>): (r: seq<string>)
    ensures |r| == |lines| && forall i :: 0 <= i < |r| ==> r[i] == Text.Join("", lines[i])
  {
    seq(|lines|, i requires 0 <= i < |lines| => Text.Join("", lines[i]))
  }

  function RowsOf(records: seq<Record>): (r: seq<string>)
    ensures |r| == |records| && forall i :: 0 <= i < |r| ==> r[i] == Row(records[i])
  {
    seq(|records|, i requires 0 <= i < |records| => Row(records[i]))
  }

  predicate NoRows(lines: seq<seq<string>>) {
    forall i :: 0 <= i < |lines| ==> NoRow(lines[i])
  }

  /** One text a line, and then the rest. */
  function Stacked(texts: seq<string>, rest: string): string {
    if texts == [] then rest else texts[0] + "\n" + Stacked(texts[1..], rest)
  }

  lemma {:induction false} StackedLines(texts: seq<string>, rest: string)
    requires forall i :: 0 <= i < |texts| ==> Text.OneLine(texts[i])
    ensures Text.SplitLines(Stacked(texts, rest)) == texts + Text.SplitLines(rest)
  {
    if texts == [] {
      assert texts + Text.SplitLines(rest) == Text.SplitLines(rest);
    } else {
      StackedLines(texts[1..], rest);
      Text.FirstLine(texts[0], Stacked(texts[1..], rest));
      Prepended(texts, Text.SplitLines(rest));
    }
  }

  lemma Prepended(texts: seq<string>, more: seq<string>)
    requires texts != []
    ensures [texts[0]] + (texts[1..] + more) == texts + more
  {
  }

  lemma {:induction false} LinesAreStacked(lines: seq<seq<string>>, rest: string)
    ensures Lines(lines, rest) == Stacked(Texts(lines), rest)
  {
    if lines != [] {
      LinesAreStacked(lines[1..], rest);
      assert Texts(lines)[1..] == Texts(lines[1..]);
    }
  }

  lemma FixedLines(lines: seq<seq<string>>, rest: string)
    requires NoRows(lines)
    ensures Text.SplitLines(Lines(lines, rest)) == Texts(lines) + Text.SplitLines(rest)
  {
    LinesAreStacked(lines, rest);
    forall i | 0 <= i < |lines| ensures Text.OneLine(Texts(lines)[i]) {
      assert NoRow(lines[i]);
    }
    StackedLines(Texts(lines), rest);
  }

  lemma {:induction false} RowsAreStacked(records: seq<Record>)
    ensures Rows(records) == Stacked(RowsOf(records), "")
  {
    if records != [] {
      RowsAreStacked(records[1..]);
      assert RowsOf(records)[1..] == RowsOf(records[1..]);
    }
  }

  lemma RowLines(records: seq<Record>)
    requires forall i :: 0 <= i < |records| ==> Fits(records[i])
    ensures Text.SplitLines(Rows(records)) == RowsOf(records)
  {
    RowsAreStacked(records);
    forall i | 0 <= i < |records| ensures Text.OneLine(RowsOf(records)[i]) {
      RowIsLine(records[i]);
    }
    StackedLines(RowsOf(records), "");
  }

  lemma EightFixed(
    a: seq<string>, b: seq<string>, c: seq<string>, d: seq<string>, e: seq<string>, f: seq<string>)
    requires NoRow(a) && NoRow(b) && NoRow(c) && NoRow(d) && NoRow(e) && NoRow(f)
    ensures NoRows([a, b, c, d, b, e, f, b])
  {
  }

  lemma OpeningIsFixed()
    ensures NoRows(OPENING)
  {
    OpeningLines();
    PurposeLine();
    AdviceLine();
    PolicyLine();
    EightFixed(TITLE, BLANK, PURPOSE, COMMAND, ADVICE, POLICY);
  }

  /** Line by line: the opening, then that nothing is live, or else the head of the table and each record's row. */
  lemma PageLines(records: seq<Record>)
    requires forall i :: 0 <= i < |records| ==> Fits(records[i])
    ensures Text.SplitLines(Render(records)) == Texts(OPENING) +
      if records == [] then Texts([["No deprecations are live."]])
      else
        Texts([["| Symbol | ", "Deprecated in | ", "Removed in | ", "Use instead | Why |"], RULE]) + RowsOf(records)
  {
    OpeningIsFixed();
    FixedLines(OPENING, if records == [] then Lines([EMPTY], "") else Lines([HEADING, RULE], Rows(records)));
    BodyLines(records);
  }

  lemma BodyLines(records: seq<Record>)
    requires forall i :: 0 <= i < |records| ==> Fits(records[i])
    ensures Text.SplitLines(Lines([EMPTY], "")) == Texts([EMPTY])
    ensures Text.SplitLines(Lines([HEADING, RULE], Rows(records))) == Texts([HEADING, RULE]) + RowsOf(records)
  {
    HeadingLine();
    RuleLine();
    EmptyLine();
    OneFixed(EMPTY);
    TwoFixed(HEADING, RULE, Rows(records));
    RowLines(records);
  }

  lemma OneFixed(a: seq<string>)
    requires NoRow(a)
    ensures Text.SplitLines(Lines([a], "")) == Texts([a])
  {
    FixedLines([a], "");
  }

  lemma TwoFixed(a: seq<string>, b: seq<string>, rest: string)
    requires NoRow(a) && NoRow(b)
    ensures Text.SplitLines(Lines([a, b], rest)) == Texts([a, b]) + Text.SplitLines(rest)
  {
    FixedLines([a, b], rest);
  }
}
