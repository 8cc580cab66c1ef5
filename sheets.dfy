/**
 * The spreadsheet text both tools build with a `StringBuilder`: every cell
 * is appended followed by a separator (',' or '\t'), and every row ends
 * with `AppendLine()`. A reader that splits lines and cells recovers the
 * rows, provided no cell holds the separator or a line feed.
 */
module Sheets {
  import opened Common
  import opened Text

  /** One row as appended: each cell followed by `sep`, then the line break. */
  function RenderRow(cells: seq<string>, sep: char): string {
    Terminated(cells, sep) + NewLine
  }

  /** All rows, in order. */
  function RenderTable(rows: seq<seq<string>>, sep: char): string {
    if |rows| == 0 then ""
    else RenderTable(rows[..|rows| - 1], sep) + RenderRow(rows[|rows| - 1], sep)
  }

  lemma RenderTableSnoc(rows: seq<seq<string>>, row: seq<string>, sep: char)
    ensures RenderTable(rows + [row], sep) == RenderTable(rows, sep) + RenderRow(row, sep)
  {
    assert (rows + [row])[..|rows|] == rows;
  }

  /** A rendered table begins with its first row. */
  lemma {:induction false} RenderTableStartsWithFirstRow(rows: seq<seq<string>>, sep: char)
    requires |rows| > 0
    ensures var first := RenderRow(rows[0], sep);
      |RenderTable(rows, sep)| >= |first| && RenderTable(rows, sep)[..|first|] == first
  {
    var first := RenderRow(rows[0], sep);
    var init := rows[..|rows| - 1];
    if |rows| == 1 {
      assert RenderTable(rows, sep) == RenderTable(init, sep) + first;
    } else {
      RenderTableStartsWithFirstRow(init, sep);
      assert init[0] == rows[0];
      var t := RenderTable(init, sep);
      assert (t + RenderRow(rows[|rows| - 1], sep))[..|first|] == t[..|first|];
    }
  }

  /** No cell holds the separator or a line feed. */
  predicate PlainCells(rows: seq<seq<string>>, sep: char) {
    forall i, j | 0 <= i < |rows| && 0 <= j < |rows[i]| :: sep !in rows[i][j] && '\n' !in rows[i][j]
  }

  /** A line without its final carriage return, split into cells, the empty tail after the last separator dropped. */
  function ParseLine(line: string, sep: char): seq<string> {
    var body := if |line| > 0 && line[|line| - 1] == '\r' then line[..|line| - 1] else line;
    var parts := Split(body, sep);
    parts[..|parts| - 1]
  }

  /** The reader: one row per line feed-terminated line. */
  function ParseTable(s: string, sep: char): seq<seq<string>> {
    var lines := Split(s, '\n');
    seq(|lines| - 1, i requires 0 <= i < |lines| - 1 => ParseLine(lines[i], sep))
  }

  /** The lines of a rendered table, each still carrying its carriage return. */
  function Lines(rows: seq<seq<string>>, sep: char): seq<string> {
    seq(|rows|, i requires 0 <= i < |rows| => Terminated(rows[i], sep) + "\r")
  }

  lemma {:induction false} RenderTableLines(rows: seq<seq<string>>, sep: char)
    ensures RenderTable(rows, sep) == Terminated(Lines(rows, sep), '\n')
  {
    if |rows| > 0 {
      RenderTableLines(rows[..|rows| - 1], sep);
      assert Lines(rows, sep)[..|rows| - 1] == Lines(rows[..|rows| - 1], sep);
    }
  }

  /** A character that neither the cells nor the terminator hold is absent from the result. */
  lemma {:induction false} TerminatedAvoids(xs: seq<string>, t: char, c: char)
    requires c != t && forall i | 0 <= i < |xs| :: c !in xs[i]
    ensures c !in Terminated(xs, t)
  {
    if |xs| > 0 {
      TerminatedAvoids(xs[..|xs| - 1], t, c);
    }
  }

  /** Reading back a rendered table gives its rows. */
  lemma TableRoundTrip(rows: seq<seq<string>>, sep: char)
    requires sep != '\n'
    requires PlainCells(rows, sep)
    ensures ParseTable(RenderTable(rows, sep), sep) == rows
  {
    var lines := Lines(rows, sep);
    forall i | 0 <= i < |lines|
      ensures '\n' !in lines[i]
    {
      TerminatedAvoids(rows[i], sep, '\n');
    }
    RenderTableLines(rows, sep);
    SplitTerminated(lines, '\n');
    forall i | 0 <= i < |rows|
      ensures ParseLine(lines[i], sep) == rows[i]
    {
      assert lines[i][..|lines[i]| - 1] == Terminated(rows[i], sep);
      SplitTerminated(rows[i], sep);
    }
  }

  /** A run of cell writes: each cell appended with the separator after it. */
  method AppendCells(sb: string, cells: seq<string>, sep: char) returns (sb': string)
    ensures sb' == sb + Terminated(cells, sep)
  {
    sb' := sb;
    for i := 0 to |cells|
      invariant sb' == sb + Terminated(cells[..i], sep)
    {
      assert cells[..i + 1][..i] == cells[..i];
      sb' := sb' + cells[i] + [sep];
    }
    assert cells[..|cells|] == cells;
  }
}
