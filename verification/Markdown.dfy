/**
 The extractor's Markdown table: one line per record, its cells escaped, and what readers of Markdown make of
 the lines and the pipes.
 */
module Markdown {
  import opened Wrappers
  import opened Strings
  import opened Csv
  import opened CsvRoundTrip

  /** Both replacements of the cell escape: a pipe gets a backslash, a line break becomes a space. */
  function EscapeOne(c: char): (r: string)
    ensures |r| == if c == '|' then 2 else 1
  {
    if c == '|' then "\\|" else if c == '\n' then " " else [c]
  }

  function Escape(s: string): string {
    if s == "" then ""
    else EscapeOne(s[0]) + Escape(s[1..])
  }

  function Cells(row: Record): seq<string> {
    seq(|row|, i requires 0 <= i < |row| => Escape(row[i]))
  }

  function Line(cells: seq<string>): string {
    "| " + Join(cells, " | ") + " |"
  }

  function Rule(width: nat): string {
    Line(seq(width, _ => "---"))
  }

  function Padded(row: Record, width: nat): (r: Record)
    ensures |r| == Max(|row|, width) && row <= r
  {
    row + seq(Max(|row|, width) - |row|, _ => "")
  }

  function Max(a: int, b: int): int { if a >= b then a else b }

  function BodyLines(header: Record, body: Grid): seq<string> {
    seq(|body|, i requires 0 <= i < |body| => Line(Cells(Padded(body[i], |header|))))
  }

  function Lines(rows: Grid): seq<string>
    requires rows != []
  {
    [Line(Cells(rows[0])), Rule(|rows[0]|)] + BodyLines(rows[0], rows[1..])
  }

  function Table(rows: Grid): string {
    if rows == [] then "" else Join(Lines(rows), "\n")
  }

  /** The inner loop: empty cells up to the header's width. */
  method Pad(row: Record, width: nat) returns (padded: Record)
    ensures padded == Padded(row, width)
  {
    padded := row;
    while |padded| < width
      invariant padded == row + seq(|padded| - |row|, _ => "")
      invariant |row| <= |padded| <= Max(|row|, width)
    {
      padded := padded + [""];
    }
  }

  method ToMarkdownTable(rows: Grid) returns (text: string)
    ensures text == Table(rows)
  {
    if rows == [] {
      return "";
    }
    var header, body := rows[0], rows[1..];
    var lines := [Line(Cells(header)), Rule(|header|)];
    for i := 0 to |body|
      invariant lines == [Line(Cells(header)), Rule(|header|)] + BodyLines(header, body)[..i]
    {
      var padded := Pad(body[i], |header|);
      lines := lines + [Line(Cells(padded))];
    }
    assert lines == Lines(rows);
    return Join(lines, "\n");
  }

  // ---- columns ----

  /**
   How a reader tells which pipes are text. Some take a pipe as text after any backslash; others, such as marked,
   only after an odd number of them, the earlier ones hiding each other (section 2.4 of CommonMark).
   */
  datatype Reader = AnyBackslash | CountsBackslashes

  /** Whether a pipe right after `c` is hidden, when one right before `c` is (`hides`) or is not. */
  predicate Hides(c: char, hides: bool, reader: Reader) {
    c == '\\' && (reader.AnyBackslash? || !hides)
  }

  /** The pipes that delimit cells, reading on where a pipe would be hidden or not. */
  function BarePipes(s: string, hides: bool, reader: Reader): nat {
    if s == "" then 0
    else (if s[0] == '|' && !hides then 1 else 0) + BarePipes(s[1..], Hides(s[0], hides, reader), reader)
  }

  function HidesAfter(s: string, hides: bool, reader: Reader): bool {
    if s == "" then hides else HidesAfter(s[1..], Hides(s[0], hides, reader), reader)
  }

  lemma {:induction false} BarePipesAppend(a: string, b: string, hides: bool, reader: Reader)
    ensures BarePipes(a + b, hides, reader)
      == BarePipes(a, hides, reader) + BarePipes(b, HidesAfter(a, hides, reader), reader)
    ensures HidesAfter(a + b, hides, reader) == HidesAfter(b, HidesAfter(a, hides, reader), reader)
  {
    if a == "" {
      assert a + b == b;
    } else {
      assert (a + b)[1..] == a[1..] + b;
      BarePipesAppend(a[1..], b, Hides(a[0], hides, reader), reader);
    }
  }

  lemma BarePipesOfOne(s: string, hides: bool, reader: Reader)
    requires |s| == 1
    ensures BarePipes(s, hides, reader) == if s[0] == '|' && !hides then 1 else 0
    ensures HidesAfter(s, hides, reader) == Hides(s[0], hides, reader)
  {
    assert s[1..] == "";
  }

  lemma BarePipesOfTwo(s: string, hides: bool, reader: Reader)
    requires |s| == 2 && s[0] != '|'
    ensures BarePipes(s, hides, reader) == if s[1] == '|' && !Hides(s[0], hides, reader) then 1 else 0
    ensures HidesAfter(s, hides, reader) == Hides(s[1], Hides(s[0], hides, reader), reader)
  {
    BarePipesOfOne(s[1..], Hides(s[0], hides, reader), reader);
  }

  /** The bar between two cells delimits once, whatever the cell before ends in. */
  lemma BarePipesOfGap(hides: bool, reader: Reader)
    ensures BarePipes(" | ", hides, reader) == 1 && !HidesAfter(" | ", hides, reader)
  {
    var gap, bar, blank := " | ", "| ", " ";
    assert gap[1..] == bar && bar[1..] == blank;
    BarePipesOfOne(blank, false, reader);
  }

  // ---- pipes the escape fails to hide ----

  /** How many backslashes stand right before place `i`. */
  function Backslashes(s: string, i: nat): nat
    requires i <= |s|
  {
    if i == 0 || s[i - 1] != '\\' then 0 else 1 + Backslashes(s, i - 1)
  }

  /** Some pipe of the cell follows an odd number of backslashes. */
  predicate HasOddPipe(cell: string) {
    exists i :: 0 <= i < |cell| && cell[i] == '|' && Backslashes(cell, i) % 2 == 1
  }

  /** How many pipes follow an odd number of backslashes, when `odd` says it of those right before the text. */
  function OddPipes(s: string, odd: bool): nat {
    if s == "" then 0 else (if s[0] == '|' && odd then 1 else 0) + OddPipes(s[1..], s[0] == '\\' && !odd)
  }

  lemma {:induction false} OddPipesFrom(s: string, i: nat)
    requires i <= |s|
    ensures OddPipes(s[i..], Backslashes(s, i) % 2 == 1) == 0 <==>
      forall j :: i <= j < |s| && s[j] == '|' ==> Backslashes(s, j) % 2 == 0
    decreases |s| - i
  {
    if i < |s| {
      assert s[i..][1..] == s[i + 1..];
      OddPipesFrom(s, i + 1);
    }
  }

  lemma OddPipesCounted(s: string)
    ensures OddPipes(s, false) > 0 <==> HasOddPipe(s)
  {
    OddPipesFrom(s, 0);
    assert s[0..] == s;
  }

  lemma EscapeOneHides(c: char, hides: bool, reader: Reader)
    ensures BarePipes(EscapeOne(c), hides, reader) == if c == '|' && hides && reader.CountsBackslashes? then 1 else 0
    ensures HidesAfter(EscapeOne(c), hides, reader) == Hides(c, hides, reader)
  {
    if c == '|' {
      BarePipesOfTwo(EscapeOne(c), hides, reader);
    } else {
      BarePipesOfOne(EscapeOne(c), hides, reader);
    }
  }

  /**
   The escaped cell shows a bare pipe for every pipe after an odd number of backslashes, to a reader that counts them.
   */
  lemma {:induction false} EscapeHidesPipes(s: string, hides: bool, reader: Reader)
    ensures BarePipes(Escape(s), hides, reader) == if reader.AnyBackslash? then 0 else OddPipes(s, hides)
    ensures '\n' !in Escape(s)
  {
    if s != "" {
      BarePipesAppend(EscapeOne(s[0]), Escape(s[1..]), hides, reader);
      EscapeOneHides(s[0], hides, reader);
      EscapeHidesPipes(s[1..], Hides(s[0], hides, reader), reader);
    }
  }

  // ---- the delimiters of a line ----

  function InnerPipes(cells: seq<string>, reader: Reader): nat {
    if cells == [] then 0 else BarePipes(cells[0], false, reader) + InnerPipes(cells[1..], reader)
  }

  predicate OnOneLine(cells: seq<string>) {
    forall i :: 0 <= i < |cells| ==> '\n' !in cells[i]
  }

  lemma {:induction false} JoinedCells(cells: seq<string>, reader: Reader)
    requires OnOneLine(cells)
    ensures BarePipes(Join(cells, " | "), false, reader)
      == InnerPipes(cells, reader) + if cells == [] then 0 else |cells| - 1
    ensures '\n' !in Join(cells, " | ")
  {
    if |cells| == 1 {
      assert InnerPipes(cells[1..], reader) == 0;
    } else if |cells| > 1 {
      var rest := Join(cells[1..], " | ");
      JoinedCells(cells[1..], reader);
      BarePipesAppend(cells[0] + " | ", rest, false, reader);
      BarePipesAppend(cells[0], " | ", false, reader);
      BarePipesOfGap(HidesAfter(cells[0], false, reader), reader);
    }
  }

  lemma LineEnds(inner: string, reader: Reader)
    ensures BarePipes("| " + inner + " |", false, reader) == 2 + BarePipes(inner, false, reader)
  {
    var open, close := "| ", " |";
    BarePipesAppend(open + inner, close, false, reader);
    BarePipesAppend(open, inner, false, reader);
    assert open[1..] == " ";
    BarePipesOfOne(open[1..], false, reader);
    BarePipesOfTwo(close, HidesAfter(open + inner, false, reader), reader);
  }

  /** A line of cells has one delimiter more than it has cells, and those inside cells; and it is one line. */
  lemma LineDelimiters(cells: seq<string>, reader: Reader)
    requires OnOneLine(cells)
    ensures BarePipes(Line(cells), false, reader) == InnerPipes(cells, reader) + if cells == [] then 2 else |cells| + 1
    ensures '\n' !in Line(cells)
  {
    JoinedCells(cells, reader);
    LineEnds(Join(cells, " | "), reader);
  }

  /** Some cell of the record holds a pipe after an odd number of backslashes. */
  predicate OddPipeIn(row: Record) {
    exists i :: 0 <= i < |row| && HasOddPipe(row[i])
  }

  lemma OddPipeCons(first: string, rest: Record)
    ensures OddPipeIn([first] + rest) <==> HasOddPipe(first) || OddPipeIn(rest)
  {
    var all := [first] + rest;
    if OddPipeIn(rest) {
      var i :| 0 <= i < |rest| && HasOddPipe(rest[i]);
      assert all[i + 1] == rest[i];
    }
    if HasOddPipe(first) { assert HasOddPipe(all[0]); }
  }

  /** The cells of a record show delimiters of their own exactly when the reader counts and one has an odd pipe. */
  lemma {:induction false} CellsPipes(row: Record, reader: Reader)
    ensures OnOneLine(Cells(row))
    ensures InnerPipes(Cells(row), reader) > 0 <==> reader.CountsBackslashes? && OddPipeIn(row)
  {
    if row != [] {
      var first, rest := row[0], row[1..];
      assert row == [first] + rest && Cells(row) == [Escape(first)] + Cells(rest);
      CellsPipes(rest, reader);
      OddPipeCons(first, rest);
      EscapeHidesPipes(first, false, reader);
      OddPipesCounted(first);
    }
  }

  lemma EmptyHasNoOddPipe()
    ensures !HasOddPipe("")
  {
  }

  lemma PaddedPipes(row: Record, width: nat)
    ensures OddPipeIn(Padded(row, width)) <==> OddPipeIn(row)
  {
    var padded := Padded(row, width);
    if OddPipeIn(row) {
      var i :| 0 <= i < |row| && HasOddPipe(row[i]);
      assert padded[i] == row[i];
    }
    if OddPipeIn(padded) {
      var i :| 0 <= i < |padded| && HasOddPipe(padded[i]);
      assert i < |row| && padded[i] == row[i];
    }
  }

  lemma {:induction false} DashesPipes(n: nat, reader: Reader)
    ensures OnOneLine(seq(n, _ => "---")) && InnerPipes(seq(n, _ => "---"), reader) == 0
  {
    if n > 0 {
      var dashes := seq(n, _ => "---");
      assert dashes[1..] == seq(n - 1, _ => "---");
      DashesPipes(n - 1, reader);
      var dash := "---";
      BarePipesOfTwo(dash[1..], false, reader);
    }
  }

  /** The cells shown on line `k` of the table: the header, the rule, then the records padded to the header. */
  function Width(rows: Grid, k: nat): nat
    requires k <= |rows| && rows != []
  {
    if k <= 1 then |rows[0]| else Max(|rows[k - 1]|, |rows[0]|)
  }

  /** Line `k` shows further delimiters inside its cells. */
  predicate ShowsOddPipe(rows: Grid, k: nat, reader: Reader)
    requires k <= |rows| && rows != []
  {
    reader.CountsBackslashes? && k != 1 && OddPipeIn(rows[if k == 0 then 0 else k - 1])
  }

  lemma RecordLine(row: Record, width: nat, reader: Reader)
    requires width > 0
    ensures '\n' !in Line(Cells(Padded(row, width)))
    ensures var pipes := BarePipes(Line(Cells(Padded(row, width))), false, reader); var cells := Max(|row|, width);
      if reader.CountsBackslashes? && OddPipeIn(row) then pipes > cells + 1 else pipes == cells + 1
  {
    var padded := Padded(row, width);
    PaddedPipes(row, width);
    CellsPipes(padded, reader);
    LineDelimiters(Cells(padded), reader);
  }

  lemma LineFacts(rows: Grid, k: nat, reader: Reader)
    requires rows != [] && rows[0] != [] && k <= |rows|
    ensures |Lines(rows)| == |rows| + 1 && '\n' !in Lines(rows)[k]
    ensures var pipes := BarePipes(Lines(rows)[k], false, reader);
      if ShowsOddPipe(rows, k, reader) then pipes > Width(rows, k) + 1 else pipes == Width(rows, k) + 1
  {
    var header := rows[0];
    if k == 0 {
      assert Padded(header, |header|) == header;
      RecordLine(header, |header|, reader);
    } else if k == 1 {
      DashesPipes(|header|, reader);
      LineDelimiters(seq(|header|, _ => "---"), reader);
    } else {
      assert Lines(rows)[k] == Line(Cells(Padded(rows[k - 1], |header|)));
      RecordLine(rows[k - 1], |header|, reader);
    }
  }

  // ---- the lines a reader of the table sees ----

  /**
   How many characters end a line here, in CommonMark (section 2.1): a line feed, a carriage return that no
   line feed follows, or both together. Nothing elsewhere.
   */
  function BreakAt(s: string, i: nat): nat
    requires i < |s|
  {
    if s[i] == '\n' then 1
    else if s[i] == '\r' then (if i + 1 < |s| && s[i + 1] == '\n' then 2 else 1)
    else 0
  }

  /** The text cut at its line endings. */
  function TextLines(s: string): (lines: seq<string>)
    ensures lines != []
  {
    if s == "" then [""]
    else
      var rest := TextLines(s[if BreakAt(s, 0) > 0 then BreakAt(s, 0) else 1..]);
      if BreakAt(s, 0) > 0 then [""] + rest else [[s[0]] + rest[0]] + rest[1..]
  }

  predicate EndsBefore(end: string, rest: string) {
    end == "\n" || end == "\r\n" || (end == "\r" && !("\n" <= rest))
  }

  lemma EndAtOnce(end: string, rest: string)
    requires EndsBefore(end, rest)
    ensures TextLines(end + rest) == [""] + TextLines(rest)
  {
    assert (end + rest)[|end|..] == rest;
  }

  /** Each of the three endings ends one line, and the lines after it are those of the rest. */
  lemma {:induction false} LineEndsExactly(line: string, end: string, rest: string)
    requires '\n' !in line && '\r' !in line && EndsBefore(end, rest)
    ensures TextLines(line + (end + rest)) == [line] + TextLines(rest)
  {
    if line == "" {
      EndAtOnce(end, rest);
      assert line + (end + rest) == end + rest;
    } else {
      LineEndsExactly(line[1..], end, rest);
      var text := line + (end + rest);
      assert text[0] == line[0] && text[1..] == line[1..] + (end + rest);
      assert [line[0]] + line[1..] == line;
    }
  }

  /** A text without line endings is one line; any other has more. */
  lemma {:induction false} OneLine(s: string)
    requires '\n' !in s
    ensures if '\r' in s then |TextLines(s)| > 1 else TextLines(s) == [s]
  {
    if s != "" {
      OneLine(s[1..]);
      assert s == [s[0]] + s[1..];
    }
  }

  /** Lines with one more line ending, or one more character, in front. */
  function Preceded(breaks: bool, c: char, lines: seq<string>): seq<string>
    requires lines != []
  {
    if breaks then [""] + lines else [[c] + lines[0]] + lines[1..]
  }

  lemma PrecededAppend(breaks: bool, c: char, lines: seq<string>, more: seq<string>)
    requires lines != []
    ensures Preceded(breaks, c, lines + more) == Preceded(breaks, c, lines) + more
  {
    assert (lines + more)[0] == lines[0] && (lines + more)[1..] == lines[1..] + more;
  }

  /** The lines of a text from those of what follows its first character or line ending. */
  lemma LinesStep(s: string, tail: string)
    requires s != "" && tail == s[if BreakAt(s, 0) > 0 then BreakAt(s, 0) else 1..]
    ensures TextLines(s) == Preceded(BreakAt(s, 0) > 0, s[0], TextLines(tail))
  {
  }

  lemma TailOfAppend(a: string, s: string, rest: string, tail: string)
    requires a != "" && a[|a| - 1] != '\r' && s == a + rest && rest != "" && rest[0] == '\n'
    requires tail == a[if BreakAt(a, 0) > 0 then BreakAt(a, 0) else 1..]
    ensures BreakAt(s, 0) == BreakAt(a, 0) && s[0] == a[0]
    ensures s[if BreakAt(s, 0) > 0 then BreakAt(s, 0) else 1..] == tail + rest
    ensures tail == "" || tail[|tail| - 1] != '\r'
  {
  }

  /** A line feed after a text that does not end in a carriage return ends that text's last line. */
  lemma {:induction false} LinesAppend(a: string, s: string, rest: string)
    requires a == "" || a[|a| - 1] != '\r'
    requires s == a + rest && rest != "" && rest[0] == '\n'
    ensures TextLines(s) == TextLines(a) + TextLines(rest[1..])
    decreases |a|
  {
    if a == "" {
      assert s == rest;
    } else {
      var tail := a[if BreakAt(a, 0) > 0 then BreakAt(a, 0) else 1..];
      TailOfAppend(a, s, rest, tail);
      LinesAppend(tail, tail + rest, rest);
      LinesStep(a, tail);
      LinesStep(s, tail + rest);
      PrecededAppend(BreakAt(a, 0) > 0, a[0], TextLines(tail), TextLines(rest[1..]));
    }
  }

  /** Each part a line of its own: none has a line feed, and none ends in a carriage return. */
  predicate AreLines(parts: seq<string>) {
    forall i :: 0 <= i < |parts| ==> '\n' !in parts[i] && parts[i] != "" && parts[i][|parts[i]| - 1] != '\r'
  }

  predicate HasReturn(parts: seq<string>) {
    exists i :: 0 <= i < |parts| && '\r' in parts[i]
  }

  lemma HasReturnCons(first: string, rest: seq<string>)
    ensures HasReturn([first] + rest) <==> '\r' in first || HasReturn(rest)
  {
    var all := [first] + rest;
    if HasReturn(rest) {
      var i :| 0 <= i < |rest| && '\r' in rest[i];
      assert all[i + 1] == rest[i];
    }
    if '\r' in first { assert '\r' in all[0]; }
  }

  lemma JoinLinesStep(parts: seq<string>, rest: seq<string>)
    requires |parts| > 1 && AreLines(parts) && rest == parts[1..]
    ensures TextLines(Join(parts, "\n")) == TextLines(parts[0]) + TextLines(Join(rest, "\n"))
  {
    var after := "\n" + Join(rest, "\n");
    assert after[1..] == Join(rest, "\n") && Join(parts, "\n") == parts[0] + after;
    LinesAppend(parts[0], parts[0] + after, after);
  }

  /** Joined by line feeds, the parts are the lines of the text exactly when none holds a carriage return. */
  lemma {:induction false} JoinedLines(parts: seq<string>)
    requires parts != [] && AreLines(parts)
    ensures if HasReturn(parts) then |TextLines(Join(parts, "\n"))| > |parts| else TextLines(Join(parts, "\n")) == parts
  {
    var first, rest := parts[0], parts[1..];
    assert parts == [first] + rest;
    HasReturnCons(first, rest);
    OneLine(first);
    if rest != [] {
      JoinedLines(rest);
      JoinLinesStep(parts, rest);
    }
  }

  // ---- carriage returns come from the cells ----

  lemma {:induction false} EscapeKeepsReturns(s: string)
    ensures '\r' in Escape(s) <==> '\r' in s
  {
    if s != "" {
      EscapeKeepsReturns(s[1..]);
      assert s == [s[0]] + s[1..];
    }
  }

  lemma {:induction false} JoinReturns(cells: seq<string>)
    ensures '\r' in Join(cells, " | ") <==> HasReturn(cells)
  {
    if |cells| == 1 {
      assert cells == [cells[0]];
      if '\r' in cells[0] { assert HasReturn(cells); }
    } else if |cells| > 1 {
      var rest := cells[1..];
      JoinReturns(rest);
      HasReturnCons(cells[0], rest);
      assert cells == [cells[0]] + rest;
    }
  }

  lemma LineReturns(cells: seq<string>)
    ensures '\r' in Line(cells) <==> HasReturn(cells)
    ensures Line(cells) != "" && Line(cells)[|Line(cells)| - 1] == '|'
  {
    JoinReturns(cells);
  }

  lemma CellsReturns(row: Record)
    ensures HasReturn(Cells(row)) <==> HasReturn(row)
  {
    forall i | 0 <= i < |row| ensures '\r' in Cells(row)[i] <==> '\r' in row[i] { EscapeKeepsReturns(row[i]); }
    if HasReturn(row) {
      var i :| 0 <= i < |row| && '\r' in row[i];
      assert '\r' in Cells(row)[i];
    }
  }

  lemma PaddedReturns(row: Record, width: nat)
    ensures HasReturn(Padded(row, width)) <==> HasReturn(row)
  {
    var padded := Padded(row, width);
    if HasReturn(row) {
      var i :| 0 <= i < |row| && '\r' in row[i];
      assert padded[i] == row[i];
    }
  }

  /** Some cell of the table holds a carriage return. */
  predicate AnyReturn(rows: Grid) {
    exists i :: 0 <= i < |rows| && HasReturn(rows[i])
  }

  lemma RecordReturns(row: Record, width: nat)
    ensures '\r' in Line(Cells(Padded(row, width))) <==> HasReturn(row)
    ensures var line := Line(Cells(Padded(row, width))); line != "" && line[|line| - 1] == '|'
  {
    PaddedReturns(row, width);
    CellsReturns(Padded(row, width));
    LineReturns(Cells(Padded(row, width)));
  }

  lemma RuleReturns(width: nat)
    ensures '\r' !in Rule(width) && Rule(width) != "" && Rule(width)[|Rule(width)| - 1] == '|'
  {
    LineReturns(seq(width, _ => "---"));
  }

  /** Line `k` holds a carriage return exactly when its record does; the rule never does. */
  lemma ReturnsOnLine(rows: Grid, k: nat)
    requires rows != [] && k <= |rows|
    ensures |Lines(rows)| == |rows| + 1
    ensures '\r' in Lines(rows)[k] <==> k != 1 && HasReturn(rows[if k == 0 then 0 else k - 1])
    ensures Lines(rows)[k] != "" && Lines(rows)[k][|Lines(rows)[k]| - 1] == '|'
  {
    var header := rows[0];
    if k == 0 {
      assert Padded(header, |header|) == header;
      RecordReturns(header, |header|);
    } else if k == 1 {
      RuleReturns(|header|);
    } else {
      assert Lines(rows)[k] == Line(Cells(Padded(rows[k - 1], |header|)));
      RecordReturns(rows[k - 1], |header|);
    }
  }

  lemma LinesReturn(rows: Grid)
    requires rows != []
    ensures HasReturn(Lines(rows)) <==> AnyReturn(rows)
  {
    var lines := Lines(rows);
    forall k | 0 <= k <= |rows| ensures '\r' in lines[k] <==> k != 1 && HasReturn(rows[if k == 0 then 0 else k - 1]) {
      ReturnsOnLine(rows, k);
    }
    if AnyReturn(rows) {
      var i :| 0 <= i < |rows| && HasReturn(rows[i]);
      assert '\r' in lines[if i == 0 then 0 else i + 1];
    }
  }

  // ---- the table is rectangular ----

  /** One line for each record and one for the rule, each with as many columns as the header has cells. */
  ghost predicate IsRectangular(text: string, rows: Grid, reader: Reader)
    requires rows != []
  {
    var lines := TextLines(text);
    |lines| == |rows| + 1
    && forall k :: 0 <= k < |lines| ==> BarePipes(lines[k], false, reader) == |rows[0]| + 1
  }

  /**
   Read line by line, the table shows the specified lines exactly when no cell holds a carriage return, and more
   otherwise.
   */
  lemma LinesAreSeen(rows: Grid)
    requires rows != [] && rows[0] != []
    ensures if AnyReturn(rows) then |TextLines(Table(rows))| > |rows| + 1 else TextLines(Table(rows)) == Lines(rows)
    ensures |Lines(rows)| == |rows| + 1
  {
    var lines := Lines(rows);
    forall k | 0 <= k < |lines| ensures '\n' !in lines[k] && lines[k] != "" && lines[k][|lines[k]| - 1] != '\r' {
      LineFacts(rows, k, AnyBackslash);
      ReturnsOnLine(rows, k);
    }
    LinesReturn(rows);
    JoinedLines(lines);
  }

  /** Some cell of the table holds a pipe after an odd number of backslashes. */
  predicate AnyOddPipe(rows: Grid) {
    exists i :: 0 <= i < |rows| && OddPipeIn(rows[i])
  }

  predicate NoLongRecord(rows: Grid)
    requires rows != []
  {
    forall i :: 0 <= i < |rows| ==> |rows[i]| <= |rows[0]|
  }

  /**
   The delimiters of record `i`'s line are right exactly when it is not longer than the header and has no odd pipe.
   */
  lemma RecordFits(rows: Grid, i: nat, reader: Reader)
    requires rows != [] && rows[0] != [] && i < |rows|
    ensures |Lines(rows)| == |rows| + 1
    ensures BarePipes(Lines(rows)[if i == 0 then 0 else i + 1], false, reader) == |rows[0]| + 1 <==>
      |rows[i]| <= |rows[0]| && (reader.CountsBackslashes? ==> !OddPipeIn(rows[i]))
  {
    LineFacts(rows, if i == 0 then 0 else i + 1, reader);
  }

  predicate LinesFit(rows: Grid, reader: Reader)
    requires rows != []
  {
    forall k :: 0 <= k < |Lines(rows)| ==> BarePipes(Lines(rows)[k], false, reader) == |rows[0]| + 1
  }

  lemma LinesFitExactly(rows: Grid, reader: Reader)
    requires rows != [] && rows[0] != []
    ensures LinesFit(rows, reader) <==> NoLongRecord(rows) && (reader.CountsBackslashes? ==> !AnyOddPipe(rows))
  {
    LineFacts(rows, 1, reader);
    forall i | 0 <= i < |rows|
      ensures BarePipes(Lines(rows)[if i == 0 then 0 else i + 1], false, reader) == |rows[0]| + 1 <==>
        |rows[i]| <= |rows[0]| && (reader.CountsBackslashes? ==> !OddPipeIn(rows[i]))
    {
      RecordFits(rows, i, reader);
    }
    if NoLongRecord(rows) && (reader.CountsBackslashes? ==> !AnyOddPipe(rows)) {
      forall k | 0 <= k <= |rows| ensures BarePipes(Lines(rows)[k], false, reader) == |rows[0]| + 1 {
        if k != 1 { RecordFits(rows, if k == 0 then 0 else k - 1, reader); }
      }
    }
  }

  /**
   The table is rectangular exactly when no record is longer than the header, short ones being padded and long
   ones not cut; no cell holds a carriage return, which the escape leaves alone; and, for a reader that counts
   backslashes, no cell holds a pipe after an odd number of them, to which the escape adds one.
   */
  lemma TableIsRectangular(rows: Grid, reader: Reader)
    requires rows != [] && rows[0] != []
    ensures IsRectangular(Table(rows), rows, reader) <==>
      !AnyReturn(rows) && NoLongRecord(rows) && (reader.CountsBackslashes? ==> !AnyOddPipe(rows))
  {
    LinesAreSeen(rows);
    LinesFitExactly(rows, reader);
  }

  lemma TwoCellsParseBack(table: Grid, cell: string)
    requires table == [[cell], ["c"]]
    ensures Parsed(Print(table, AllQuoted(table))) == table
  {
    ParseInvertsPrint(table, AllQuoted(table));
    assert "c" in table[1] && !IsBlank(table[1]);
  }

  /** A quoted carriage return is read as part of its cell and so breaks the printed table, for every reader. */
  lemma ReturnBreaksTable(table: Grid, cell: string, reader: Reader)
    requires table == [[cell], ["c"]] && '\r' in cell
    ensures Parsed(Print(table, AllQuoted(table))) == table
    ensures NoLongRecord(table) && !IsRectangular(Table(table), table, reader)
  {
    TwoCellsParseBack(table, cell);
    TableIsRectangular(table, reader);
    assert '\r' in table[0][0];
    assert HasReturn(table[0]);
  }

  /** A backslash before a pipe undoes the escape: the cell `\|` alone breaks the table for a reader that counts. */
  lemma OddPipeBreaksTable(table: Grid)
    requires table == [["\\|"], ["c"]]
    ensures Parsed(Print(table, AllQuoted(table))) == table
    ensures NoLongRecord(table) && !AnyReturn(table)
    ensures IsRectangular(Table(table), table, AnyBackslash) && !IsRectangular(Table(table), table, CountsBackslashes)
  {
    var cell := table[0][0];
    TwoCellsParseBack(table, cell);
    TableIsRectangular(table, AnyBackslash);
    TableIsRectangular(table, CountsBackslashes);
    assert Backslashes(cell, 1) == 1 && HasOddPipe(cell);
    assert OddPipeIn(table[0]);
  }
}
