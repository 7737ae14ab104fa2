/** `parse_tsv` of `engine/prompts/mysql.py`, and what its output means for the wire. */
module Tsv {
  import opened Text
  import opened Mysql

  /** The characters `str.splitlines` ends a line at. */
  predicate IsLineBreak(c: char) {
    '\n' <= c <= '\r' || '\U{1C}' <= c <= '\U{1E}' || c == '\U{85}' || c == '\U{2028}' || c == '\U{2029}'
  }

  /** `s.splitlines()`, with `line` read of the current line. */
  function LinesFrom(s: string, line: string): seq<string> {
    if s == "" then (if line == "" then [] else [line])
    else if !IsLineBreak(s[0]) then LinesFrom(s[1..], line + [s[0]])
    else if s[0] == '\r' && |s| > 1 && s[1] == '\n' then [line] + LinesFrom(s[2..], "")
    else [line] + LinesFrom(s[1..], "")
  }

  function NonBlank(lines: seq<string>): (r: seq<string>)
    ensures forall l | l in r :: l in lines && StripSpace(l) != ""
  {
    if lines == [] then []
    else (if StripSpace(lines[0]) == "" then [] else [lines[0]]) + NonBlank(lines[1..])
  }

  predicate SaysOk(text: string) {
    |text| == 2 && text[0] in "oO" && text[1] in "kK"
  }

  /** Cut or filled up with empty cells to the width. */
  function Fit(row: seq<string>, width: nat): (r: seq<string>)
    ensures |r| == width
    ensures forall i | 0 <= i < width :: r[i] == if i < |row| then row[i] else ""
  {
    (row + seq(width, _ => ""))[..width]
  }

  function FitAll(lines: seq<string>, width: nat): (rows: seq<seq<string>>)
    ensures |rows| == |lines|
    ensures forall i | 0 <= i < |rows| :: rows[i] == Fit(Split(lines[i], '\t'), width)
  {
    if lines == [] then [] else [Fit(Split(lines[0], '\t'), width)] + FitAll(lines[1..], width)
  }

  function ParseTsv(text: string): Option<(seq<string>, seq<seq<string>>)> {
    var stripped := StripSpace(text);
    if stripped == "" || SaysOk(stripped) then None
    else
      var lines := NonBlank(LinesFrom(stripped, ""));
      if lines == [] then None
      else
        var columns := Split(lines[0], '\t');
        Some((columns, FitAll(lines[1..], |columns|)))
  }

  lemma {:induction false} LinesHaveNoBreaks(s: string, line: string)
    requires forall c | c in line :: !IsLineBreak(c)
    ensures forall l, c | l in LinesFrom(s, line) && c in l :: !IsLineBreak(c)
    decreases |s|
  {
    if s != "" {
      if !IsLineBreak(s[0]) {
        LinesHaveNoBreaks(s[1..], line + [s[0]]);
      } else if s[0] == '\r' && |s| > 1 && s[1] == '\n' {
        LinesHaveNoBreaks(s[2..], "");
      } else {
        LinesHaveNoBreaks(s[1..], "");
      }
    }
  }

  /** A parsed answer is a rectangle with at least one column, whatever the model wrote. */
  lemma ParsedIsRectangular(text: string)
    ensures ParseTsv(text).Some? ==>
      var (columns, rows) := ParseTsv(text).value;
      |columns| >= 1 && forall i | 0 <= i < |rows| :: |rows[i]| == |columns|
  {
  }

  ghost predicate IsCell(cell: string) {
    '\t' !in cell && forall c | c in cell :: !IsLineBreak(c)
  }

  lemma CellsOfLine(line: string, width: nat)
    requires forall c | c in line :: !IsLineBreak(c)
    ensures forall cell | cell in Split(line, '\t') :: IsCell(cell)
    ensures forall i | 0 <= i < width :: IsCell(Fit(Split(line, '\t'), width)[i])
  {
    SplitHasNoSeparator(line, '\t');
    SplitIsPart(line, '\t');
    assert IsCell("");
    forall cell | cell in Split(line, '\t') ensures IsCell(cell) {}
  }

  lemma {:induction false} SplitIsPart(s: string, d: char)
    ensures forall p, c | p in Split(s, d) && c in p :: c in s
  {
    if s != "" {
      SplitIsPart(s[1..], d);
      var rest := Split(s[1..], d);
      forall p, c | p in Split(s, d) && c in p ensures c in s {
        if s[0] != d && p == [s[0]] + rest[0] {
          assert c == s[0] || c in rest[0];
        } else {
          assert p in rest || p == "";
        }
      }
    }
  }

  /** No cell of a parsed answer holds a tab or a line break, so cells cannot run into one another. */
  lemma ParsedCellsAreClean(text: string)
    ensures ParseTsv(text).Some? ==>
      var (columns, rows) := ParseTsv(text).value;
      && (forall i | 0 <= i < |columns| :: IsCell(columns[i]))
      && (forall i, j | 0 <= i < |rows| && 0 <= j < |rows[i]| :: IsCell(rows[i][j]))
  {
    hide IsCell, StripSpace;
    if ParseTsv(text).Some? {
      var (columns, rows) := ParseTsv(text).value;
      LinesHaveNoBreaks(StripSpace(text), "");
      var lines := NonBlank(LinesFrom(StripSpace(text), ""));
      CellsOfLine(lines[0], 0);
      forall i, j | 0 <= i < |rows| && 0 <= j < |rows[i]| ensures IsCell(rows[i][j]) {
        assert lines[1..][i] in lines;
        CellsOfLine(lines[1..][i], |columns|);
      }
    }
  }

  // Which text is a table, and which

  lemma {:induction false} NonBlankAppend(a: seq<string>, b: seq<string>)
    ensures NonBlank(a + b) == NonBlank(a) + NonBlank(b)
  {
    hide StripSpace;
    if a == [] {
      assert a + b == b;
    } else {
      assert (a + b)[0] == a[0] && (a + b)[1..] == a[1..] + b;
      NonBlankAppend(a[1..], b);
      var first := if StripSpace(a[0]) == "" then [] else [a[0]];
      assert first + (NonBlank(a[1..]) + NonBlank(b)) == first + NonBlank(a[1..]) + NonBlank(b);
    }
  }

  /** Blank lines are dropped, wherever they stand; the others stay in order. */
  lemma NonBlankOne(line: string, rest: seq<string>)
    ensures NonBlank([line] + rest) == (if StripSpace(line) == "" then [] else [line]) + NonBlank(rest)
  {
    hide StripSpace;
    assert ([line] + rest)[1..] == rest;
  }

  lemma {:induction false} LinesAre(a: string, br: string, b: string, line: string)
    requires forall c | c in a :: !IsLineBreak(c)
    requires br == "\r\n" || (|br| == 1 && IsLineBreak(br[0]) && (br[0] == '\r' ==> b == "" || b[0] != '\n'))
    ensures LinesFrom(a + (br + b), line) == [line + a] + LinesFrom(b, "")
    ensures LinesFrom(a, line) == if line + a == "" then [] else [line + a]
    decreases |a|
  {
    hide IsLineBreak;
    if a == "" {
      assert a + (br + b) == br + b && line + a == line;
      AtBreak(br, b, line);
    } else {
      assert a[0] in a;
      assert (a + (br + b))[1..] == a[1..] + (br + b) && line + [a[0]] + a[1..] == line + a;
      LinesAre(a[1..], br, b, line + [a[0]]);
    }
  }

  lemma AtBreak(br: string, b: string, line: string)
    requires br == "\r\n" || (|br| == 1 && IsLineBreak(br[0]) && (br[0] == '\r' ==> b == "" || b[0] != '\n'))
    ensures LinesFrom(br + b, line) == [line] + LinesFrom(b, "")
  {
    assert (br + b)[|br|..] == b;
  }

  lemma BreaksAreSpaces(c: char)
    ensures IsLineBreak(c) ==> IsSpace(c)
  {
  }

  lemma {:induction false} FirstLineIsNot(s: string, line: string)
    requires StripSpace(line) != ""
    ensures LinesFrom(s, line) != [] && exists rest :: LinesFrom(s, line)[0] == line + rest
    decreases |s|
  {
    hide StripSpace;
    assert StripSpace("") == "" by { NothingIsStripped(); }
    if s == "" || IsLineBreak(s[0]) {
      assert line + "" == line;
    } else {
      LettersStay(line, s[0]);
      FirstLineIsNot(s[1..], line + [s[0]]);
      var rest :| LinesFrom(s, line)[0] == line + [s[0]] + rest;
      assert line + [s[0]] + rest == line + ([s[0]] + rest);
    }
  }

  lemma NothingIsStripped()
    ensures StripSpace("") == ""
  {
  }

  /** Text with something in it other than blanks. */
  lemma NotBlankMeans(s: string)
    ensures StripSpace(s) != "" <==> exists i :: 0 <= i < |s| && !IsSpace(s[i])
  {
    hide IsSpace;
    LStripFacts(s, IsSpace);
    var l := LStrip(s, IsSpace);
    RStripFacts(l, IsSpace);
    if StripSpace(s) != "" {
      assert !IsSpace(s[|s| - |l|]);
    }
    if i :| 0 <= i < |s| && !IsSpace(s[i]) {
      assert l != "" && !IsSpace(l[0]);
    }
  }

  lemma LettersStay(line: string, c: char)
    requires StripSpace(line) != ""
    ensures StripSpace(line + [c]) != ""
  {
    hide StripSpace;
    NotBlankMeans(line);
    NotBlankMeans(line + [c]);
    var i :| 0 <= i < |line| && !IsSpace(line[i]);
    assert (line + [c])[i] == line[i];
  }

  lemma SomethingIsLeft(stripped: string)
    requires stripped != "" && !IsSpace(stripped[0])
    ensures NonBlank(LinesFrom(stripped, "")) != []
  {
    hide IsLineBreak, IsSpace, StripSpace;
    var c := stripped[0];
    BreaksAreSpaces(c);
    assert StripSpace([c]) != "" by { NotBlankMeans([c]); assert [c][0] == c; }
    FirstLineIsNot(stripped[1..], [c]);
    var lines := LinesFrom(stripped[1..], [c]);
    assert "" + [c] == [c];
    var rest :| lines[0] == [c] + rest;
    NotBlankMeans(lines[0]);
    assert lines[0][0] == c;
    assert lines == [lines[0]] + lines[1..];
    NonBlankOne(lines[0], lines[1..]);
  }

  /** The model's text is no table exactly when it is blank or a lone "ok", in any case. */
  lemma NoTableMeans(text: string)
    ensures ParseTsv(text).None? <==> StripSpace(text) in {"", "ok", "Ok", "oK", "OK"}
  {
    hide LinesFrom, NonBlank, IsSpace, FitAll;
    var stripped := StripSpace(text);
    OkMeans(stripped);
    if stripped != "" {
      LStripFacts(text, IsSpace);
      RStripFacts(LStrip(text, IsSpace), IsSpace);
      assert stripped[0] == LStrip(text, IsSpace)[0];
      SomethingIsLeft(stripped);
    }
  }

  lemma OkMeans(s: string)
    ensures SaysOk(s) <==> s in {"ok", "Ok", "oK", "OK"}
  {
    if |s| == 2 {
      assert s == [s[0], s[1]];
      assert "ok" == ['o', 'k'] && "Ok" == ['O', 'k'] && "oK" == ['o', 'K'] && "OK" == ['O', 'K'];
    }
  }

  /** The first line that is not blank names the columns, each further one is a row, its cells in order, the
      missing ones empty. */
  lemma TableIs(text: string)
    ensures ParseTsv(text).Some? ==>
      var (columns, rows) := ParseTsv(text).value; var lines := NonBlank(LinesFrom(StripSpace(text), ""));
      && lines != [] && columns == Split(lines[0], '\t') && |rows| == |lines| - 1
      && forall i, j | 0 <= i < |rows| && 0 <= j < |rows[i]| ::
        var cells := Split(lines[i + 1], '\t'); rows[i][j] == if j < |cells| then cells[j] else ""
  {
    hide LinesFrom, NonBlank, Split, StripSpace, SaysOk;
  }

  function Written(rows: seq<seq<string>>): seq<string> {
    if rows == [] then [] else [Join(rows[0], "\t")] + Written(rows[1..])
  }

  ghost predicate IsTableText(rows: seq<seq<string>>, width: nat) {
    && width >= 1
    && (forall i, j | 0 <= i < |rows| && 0 <= j < |rows[i]| :: IsCell(rows[i][j]))
    && (forall i | 0 <= i < |rows| :: |rows[i]| == width && StripSpace(Join(rows[i], "\t")) != "")
  }

  lemma {:induction false} JoinOfCells(row: seq<string>)
    requires forall j | 0 <= j < |row| :: IsCell(row[j])
    ensures forall c | c in Join(row, "\t") :: !IsLineBreak(c)
  {
    assert !IsLineBreak('\t');
    if |row| > 1 {
      JoinOfCells(row[1..]);
    }
  }

  lemma {:induction false} LinesOfWritten(rows: seq<seq<string>>, width: nat)
    requires IsTableText(rows, width)
    ensures NonBlank(LinesFrom(Join(Written(rows), "\n"), "")) == Written(rows)
  {
    if rows != [] {
      hide LinesFrom, StripSpace, NonBlank, IsCell;
      LinesOfWritten(rows[1..], width);
      var line := Join(rows[0], "\t");
      JoinOfCells(rows[0]);
      assert Written(rows)[1..] == Written(rows[1..]);
      OneMoreLine(line, Written(rows[1..]));
      assert Written(rows) == [line] + Written(rows[1..]);
    }
  }

  lemma OneMoreLine(line: string, rest: seq<string>)
    requires StripSpace(line) != "" && forall c | c in line :: !IsLineBreak(c)
    ensures NonBlank(LinesFrom(Join([line] + rest, "\n"), "")) == [line] + NonBlank(LinesFrom(Join(rest, "\n"), ""))
  {
    hide LinesFrom, StripSpace, NonBlank, IsLineBreak;
    assert IsLineBreak('\n') by { NewlineBreaks(); }
    assert ([line] + rest)[1..] == rest && "" + line == line;
    LinesAre(line, "\n", Join(rest, "\n"), "");
    EmptyIsNoLine(line);
    if rest == [] {
      NothingHasNoLines();
      NonBlankOne(line, []);
      assert [line] + [] == [line];
    } else {
      var text := Join(rest, "\n");
      assert line + "\n" + text == line + ("\n" + text);
      NonBlankOne(line, LinesFrom(text, ""));
    }
  }

  lemma NothingHasNoLines()
    ensures LinesFrom("", "") == [] && NonBlank([]) == []
  {
  }

  lemma {:induction false} FitOfWritten(rows: seq<seq<string>>, width: nat)
    requires IsTableText(rows, width)
    ensures FitAll(Written(rows), width) == rows
  {
    if rows != [] {
      hide Fit, Split, StripSpace, IsCell, Join;
      OneRow(rows[0], width);
      FitOfWritten(rows[1..], width);
      assert Written(rows)[1..] == Written(rows[1..]);
      assert rows == [rows[0]] + rows[1..];
    }
  }

  lemma EmptyIsNoLine(line: string)
    requires StripSpace(line) != ""
    ensures line != ""
  {
  }

  lemma NewlineBreaks()
    ensures IsLineBreak('\n')
  {
  }

  lemma OneRow(row: seq<string>, width: nat)
    requires |row| == width >= 1 && forall j | 0 <= j < |row| :: IsCell(row[j])
    ensures Fit(Split(Join(row, "\t"), '\t'), width) == row
  {
    hide Split, Join, IsLineBreak;
    SplitJoin(row, '\t');
  }

  /** A table of clean cells that is written out line by line is read back cell for cell, as long as no line is
      blank and the text does not say "ok". */
  lemma TableReadsBack(columns: seq<string>, rows: seq<seq<string>>)
    requires IsTableText([columns] + rows, |columns|)
    ensures var text := Join(Written([columns] + rows), "\n");
      StripSpace(text) == text && text !in {"", "ok", "Ok", "oK", "OK"} ==> ParseTsv(text) == Some((columns, rows))
  {
    hide LinesFrom, NonBlank, IsCell, StripSpace, Join, IsTableText;
    var all := [columns] + rows;
    var text := Join(Written(all), "\n");
    LinesOfWritten(all, |columns|);
    OkMeans(text);
    FirstRowIs(columns, rows);
  }

  lemma FirstRowIs(columns: seq<string>, rows: seq<seq<string>>)
    requires IsTableText([columns] + rows, |columns|)
    ensures var all := [columns] + rows; var written := Written(all);
      && written != [] && Split(written[0], '\t') == columns && FitAll(written[1..], |columns|) == rows
  {
    hide Join, Split, Fit, IsCell, FitAll, StripSpace, IsTableText;
    var all := [columns] + rows;
    assert all[0] == columns && all[1..] == rows;
    RestIsTable(columns, rows);
    FitOfWritten(rows, |columns|);
    CellsHaveNoTab(columns);
    assert columns != [] by { assert |columns| >= 1; }
    SplitJoin(columns, '\t');
  }

  lemma RestIsTable(columns: seq<string>, rows: seq<seq<string>>)
    requires IsTableText([columns] + rows, |columns|)
    ensures IsTableText(rows, |columns|) && |columns| >= 1
    ensures forall j | 0 <= j < |columns| :: IsCell(columns[j])
  {
    hide Join, IsCell, StripSpace;
    var all := [columns] + rows;
    assert all[0] == columns;
    assert forall i | 0 <= i < |rows| :: rows[i] == all[i + 1];
  }

  lemma CellsHaveNoTab(row: seq<string>)
    requires forall j | 0 <= j < |row| :: IsCell(row[j])
    ensures forall p | p in row :: '\t' !in p
  {
  }

  // To the wire

  /** Text to bytes; the encoding is left open. */
  function Cells(encode: string -> Bytes, row: seq<string>): (r: Row)
    ensures |r| == |row|
    ensures forall i | 0 <= i < |r| :: r[i] == Some(encode(row[i]))
  {
    if row == [] then [] else [Some(encode(row[0]))] + Cells(encode, row[1..])
  }

  function CellRows(encode: string -> Bytes, rows: seq<seq<string>>): (r: seq<Row>)
    ensures |r| == |rows|
    ensures forall i | 0 <= i < |r| :: r[i] == Cells(encode, rows[i])
  {
    if rows == [] then [] else [Cells(encode, rows[0])] + CellRows(encode, rows[1..])
  }

  function Names(encode: string -> Bytes, columns: seq<string>): (r: seq<Bytes>)
    ensures |r| == |columns|
    ensures forall i | 0 <= i < |r| :: r[i] == encode(columns[i])
  {
    if columns == [] then [] else [encode(columns[0])] + Names(encode, columns[1..])
  }

  lemma {:induction false} FilledCells(row: Row)
    requires forall i | 0 <= i < |row| :: row[i].Some?
    ensures Filled(row) == row
  {
    if row != [] {
      FilledCells(row[1..]);
      assert row == [row[0]] + row[1..];
    }
  }

  lemma {:induction false} FilledCellRows(rows: seq<Row>)
    requires forall i, j | 0 <= i < |rows| && 0 <= j < |rows[i]| :: rows[i][j].Some?
    ensures FilledAll(rows) == rows
  {
    if rows != [] {
      FilledCells(rows[0]);
      FilledCellRows(rows[1..]);
      assert rows == [rows[0]] + rows[1..];
    }
  }

  /** From the model's text to the client's table: whatever `parse_tsv` makes of the text arrives cell
      for cell, as long as each packet fits its frame. */
  lemma ParsedTableReachesClient(encode: string -> Bytes, text: string, rest: Bytes)
    requires ParseTsv(text).Some?
    requires |ParseTsv(text).value.0| < 0x1_0000_0000_0000_0000
    requires forall c | c in Names(encode, ParseTsv(text).value.0) :: Fits(ColumnDef(c))
    requires forall r | r in CellRows(encode, ParseTsv(text).value.1) :: Fits(RowPacket(r))
    ensures var (columns, rows) := ParseTsv(text).value;
      var table := Table(Names(encode, columns), CellRows(encode, rows));
      ReadTable(FrameAll(ResultSet(table.columns, table.rows), 1) + rest) == Some((table, rest))
  {
    hide ParseTsv, ReadTable, ColumnDef, RowPacket, ResultSet, FrameAll, Names, CellRows;
    ParsedIsRectangular(text);
    var (columns, rows) := ParseTsv(text).value;
    var names, cells := Names(encode, columns), CellRows(encode, rows);
    FilledCellRows(cells);
    ResultSetReadsBack(names, cells, rest);
  }
}
