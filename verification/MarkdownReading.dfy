/**
 The table read back: cut at its delimiters and unescaped, each line gives the record's cells, line breaks as
 spaces.
 */
module MarkdownReading {
  import opened Wrappers
  import opened Strings
  import opened Csv
  import opened CsvRoundTrip
  import opened Markdown

  // ---- a reader of table lines ----

  /** The line cut at its delimiters, by a reader that takes a pipe after a backslash as text. */
  function Cut(s: string, hides: bool): (pieces: seq<string>)
    ensures pieces != []
  {
    if s == "" then [""] else
      var rest := Cut(s[1..], Hides(s[0], hides, AnyBackslash));
      if s[0] == '|' && !hides then [""] + rest else [[s[0]] + rest[0]] + rest[1..]
  }

  /** A hidden pipe is a pipe. */
  function Unescape(s: string): string {
    if s == "" then ""
    else if s[0] == '\\' && |s| > 1 && s[1] == '|' then ['|'] + Unescape(s[2..])
    else [s[0]] + Unescape(s[1..])
  }

  /** A piece without the blank at each end. */
  function Inner(piece: string): string {
    if |piece| >= 2 then piece[1..|piece| - 1] else ""
  }

  function ReadCells(pieces: seq<string>): seq<string> {
    seq(|pieces|, i requires 0 <= i < |pieces| => Unescape(Inner(pieces[i])))
  }

  /** The cells of a line: what stands between its first and its last delimiter. */
  function ReadLine(line: string): seq<string> {
    var pieces := Cut(line, false);
    if |pieces| < 2 then [] else ReadCells(pieces[1..|pieces| - 1])
  }

  // ---- what the escape keeps ----

  /** The text with its line feeds as blanks. */
  function OnOne(s: string): (r: string)
    ensures |r| == |s|
    ensures forall i :: 0 <= i < |s| ==> r[i] == if s[i] == '\n' then ' ' else s[i]
  {
    seq(|s|, i requires 0 <= i < |s| => if s[i] == '\n' then ' ' else s[i])
  }

  lemma {:induction false} UnescapeUndoesEscape(s: string)
    ensures Unescape(Escape(s)) == OnOne(s)
    ensures s != "" ==> Escape(s) != "" && Escape(s)[0] != '|'
  {
    if s != "" {
      var one, rest := EscapeOne(s[0]), Escape(s[1..]);
      UnescapeUndoesEscape(s[1..]);
      assert OnOne(s) == [if s[0] == '\n' then ' ' else s[0]] + OnOne(s[1..]);
      if s[0] == '|' {
        assert (one + rest)[2..] == rest;
      } else {
        assert (one + rest)[1..] == rest;
        if rest == "" { assert s[1..] == ""; }
      }
    } else {
      assert OnOne(s) == "";
    }
  }

  // ---- cutting a printed line ----

  lemma CutChar(c: char, rest: string, s: string, hides: bool)
    requires s == [c] + rest && !(c == '|' && !hides)
    ensures var cut := Cut(rest, Hides(c, hides, AnyBackslash));
      Cut(s, hides) == [[c] + cut[0]] + cut[1..]
  {
    assert s[1..] == rest;
  }

  lemma PrependFirst(c: char, a: string, cut: seq<string>, longer: seq<string>)
    requires cut != [] && longer == [a + cut[0]] + cut[1..]
    ensures [[c] + longer[0]] + longer[1..] == [([c] + a) + cut[0]] + cut[1..]
  {
    assert [c] + (a + cut[0]) == ([c] + a) + cut[0];
  }

  lemma {:induction false} CutBehind(a: string, b: string, hides: bool)
    requires BarePipes(a, hides, AnyBackslash) == 0
    ensures var rest := Cut(b, HidesAfter(a, hides, AnyBackslash));
      Cut(a + b, hides) == [a + rest[0]] + rest[1..]
    decreases |a|
  {
    var rest := Cut(b, HidesAfter(a, hides, AnyBackslash));
    if a == "" {
      assert a + b == b && a + rest[0] == rest[0];
    } else {
      var tail, next := a[1..], Hides(a[0], hides, AnyBackslash);
      CutBehind(tail, b, next);
      assert a + b == [a[0]] + (tail + b);
      CutChar(a[0], tail + b, a + b, hides);
      PrependFirst(a[0], tail, rest, Cut(tail + b, next));
      assert [a[0]] + tail == a;
    }
  }

  lemma CutAtBar(rest: string)
    ensures Cut("|" + rest, false) == [""] + Cut(rest, false)
  {
    var s := "|" + rest;
    assert s[1..] == rest;
  }

  /** A cell between blanks and the bar behind it. */
  lemma CutCell(cell: string, rest: string)
    requires BarePipes(cell, false, AnyBackslash) == 0
    ensures Cut(" " + cell + " |" + rest, false) == [" " + cell + " "] + Cut(rest, false)
  {
    var blank, spaced := " ", " " + cell + " ";
    BarePipesOfOne(blank, false, AnyBackslash);
    BarePipesAppend(blank, cell, false, AnyBackslash);
    BarePipesAppend(blank + cell, blank, false, AnyBackslash);
    BarePipesOfOne(blank, HidesAfter(blank + cell, false, AnyBackslash), AnyBackslash);
    assert " " + cell + " |" + rest == spaced + ("|" + rest);
    CutBehind(spaced, "|" + rest, false);
    CutAtBar(rest);
    assert spaced + "" == spaced;
  }

  /** The cells with a blank at each end. */
  function Spaced(cells: seq<string>): seq<string> {
    seq(|cells|, i requires 0 <= i < |cells| => " " + cells[i] + " ")
  }

  predicate AllQuiet(cells: seq<string>) {
    forall i :: 0 <= i < |cells| ==> BarePipes(cells[i], false, AnyBackslash) == 0
  }

  lemma {:induction false} CutCells(cells: seq<string>)
    requires cells != [] && AllQuiet(cells)
    ensures Cut(" " + Join(cells, " | ") + " |", false) == Spaced(cells) + [""]
  {
    if |cells| == 1 {
      CutCell(cells[0], "");
      assert " " + cells[0] + " |" + "" == " " + cells[0] + " |";
      assert Spaced(cells) == [" " + cells[0] + " "];
    } else {
      var rest := cells[1..];
      CutCells(rest);
      var after := " " + Join(rest, " | ") + " |";
      CutCell(cells[0], after);
      JoinedBlank(cells[0], Join(rest, " | "), after);
      assert Spaced(cells) == [" " + cells[0] + " "] + Spaced(rest);
    }
  }

  lemma JoinedBlank(first: string, rest: string, after: string)
    requires after == " " + rest + " |"
    ensures " " + (first + " | " + rest) + " |" == " " + first + " |" + after
  {
  }

  lemma CutLine(cells: seq<string>)
    requires cells != [] && AllQuiet(cells)
    ensures Cut(Line(cells), false) == [""] + (Spaced(cells) + [""])
  {
    var after := " " + Join(cells, " | ") + " |";
    CutCells(cells);
    assert Line(cells) == "|" + after;
    CutAtBar(after);
  }

  lemma ReadCut(line: string, middle: seq<string>)
    requires Cut(line, false) == [""] + (middle + [""])
    ensures ReadLine(line) == ReadCells(middle)
  {
    var pieces := Cut(line, false);
    assert pieces[1..|pieces| - 1] == middle;
  }

  lemma SpacedInner(cell: string)
    ensures Inner(" " + cell + " ") == cell
  {
    var piece := " " + cell + " ";
    assert piece[1..|piece| - 1] == cell;
  }

  /** A printed record is read back cell by cell. */
  lemma LineReadsBack(row: Record)
    requires row != []
    ensures |ReadLine(Line(Cells(row)))| == |row|
    ensures forall i :: 0 <= i < |row| ==> ReadLine(Line(Cells(row)))[i] == OnOne(row[i])
  {
    var cells := Cells(row);
    forall i | 0 <= i < |cells| ensures BarePipes(cells[i], false, AnyBackslash) == 0 {
      EscapeHidesPipes(row[i], false, AnyBackslash);
    }
    CutLine(cells);
    ReadCut(Line(cells), Spaced(cells));
    forall i | 0 <= i < |row| ensures Unescape(Inner(Spaced(cells)[i])) == OnOne(row[i]) {
      SpacedInner(cells[i]);
      UnescapeUndoesEscape(row[i]);
    }
  }

  /** The cells are the record's, line breaks as blanks, and empty ones up to the width. */
  ghost predicate ReadsAs(cells: seq<string>, row: Record, width: nat) {
    && |cells| == Max(|row|, width)
    && (forall i :: 0 <= i < |row| ==> cells[i] == OnOne(row[i]))
    && (forall i :: |row| <= i < |cells| ==> cells[i] == "")
  }

  lemma RecordReadsBack(row: Record, width: nat)
    requires width > 0
    ensures ReadsAs(ReadLine(Line(Cells(Padded(row, width)))), row, width)
  {
    var padded := Padded(row, width);
    LineReadsBack(padded);
    assert forall i :: 0 <= i < |row| ==> padded[i] == row[i];
    assert forall i :: |row| <= i < |padded| ==> padded[i] == "";
  }

  lemma RecordLineIs(rows: Grid, k: nat)
    requires rows != [] && k < |rows|
    ensures |Lines(rows)| == |rows| + 1
    ensures Lines(rows)[if k == 0 then 0 else k + 1] == Line(Cells(Padded(rows[k], |rows[0]|)))
  {
    if k == 0 { assert Padded(rows[0], |rows[0]|) == rows[0]; }
  }

  /**
   The table loses nothing but line breaks: read line by line, without a carriage return in a cell, it gives the header
   and every record back, short ones with empty cells up to the header's width.
   */
  lemma TableReadsBack(rows: Grid, k: nat)
    requires rows != [] && rows[0] != [] && !AnyReturn(rows) && k < |rows|
    ensures |TextLines(Table(rows))| == |rows| + 1
    ensures ReadsAs(ReadLine(TextLines(Table(rows))[if k == 0 then 0 else k + 1]), rows[k], |rows[0]|)
  {
    LinesAreSeen(rows);
    RecordLineIs(rows, k);
    RecordReadsBack(rows[k], |rows[0]|);
  }

  /** The second line is dashes, one group per header cell. */
  lemma RuleReadsBack(rows: Grid)
    requires rows != [] && rows[0] != [] && !AnyReturn(rows)
    ensures |TextLines(Table(rows))| == |rows| + 1
    ensures |ReadLine(TextLines(Table(rows))[1])| == |rows[0]|
    ensures forall i :: 0 <= i < |rows[0]| ==> ReadLine(TextLines(Table(rows))[1])[i] == "---"
  {
    LinesAreSeen(rows);
    var dashes: Record := seq(|rows[0]|, _ => "---");
    var dash := "---";
    assert Escape(dash) == dash by {
      assert dash[1..] == "--" && dash[1..][1..] == "-" && dash[1..][1..][1..] == "";
      assert Escape("--"[1..]) == "-";
    }
    assert Cells(dashes) == dashes;
    LineReadsBack(dashes);
    assert Lines(rows)[1] == Rule(|rows[0]|) == Line(dashes);
    assert OnOne(dash) == dash;
  }
}
