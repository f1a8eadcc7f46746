/** The parser inverts every printing of RFC 4180. */
module CsvRoundTrip {
  import opened Wrappers
  import opened Csv

  /** Reading what follows `prefix` from its start does not depend on `prefix`. */
  lemma {:induction false} ScannedShift(prefix: string, input: string, i: nat, s: State)
    requires i <= |input|
    ensures Scanned(prefix + input, |prefix| + i, s) == Scanned(input, i, s)
    decreases |input| - i
  {
    if i < |input| {
      assert (prefix + input)[|prefix| + i] == input[i];
      ScannedShift(prefix, input, i + Width(input, i, s), Consumed(input, i, s));
    }
  }

  lemma ScannedRest(prefix: string, input: string, s: State)
    ensures Scanned(prefix + input, |prefix|, s) == Scanned(input, 0, s)
  {
    ScannedShift(prefix, input, 0, s);
  }

  /** One plain character outside quotes. */
  lemma ScanPlain(c: char, rest: string, s: State)
    requires !s.inQuotes
    ensures Scanned([c] + rest, 0, s) == Scanned(rest, 0, Consumed([c] + rest, 0, s))
  {
    ScannedRest([c], rest, Consumed([c] + rest, 0, s));
  }

  lemma {:induction false} ScanBare(field: string, rest: string, s: State)
    requires MayBeBare(field) && !s.inQuotes
    ensures Scanned(field + rest, 0, s) == Scanned(rest, 0, s.(field := s.field + field))
  {
    if field == "" {
      assert field + rest == rest && s.field + field == s.field;
    } else {
      assert field + rest == [field[0]] + (field[1..] + rest);
      assert field[0] in field && forall c :: c in field[1..] ==> c in field;
      ScanPlain(field[0], field[1..] + rest, s);
      ScanBare(field[1..], rest, s.(field := s.field + [field[0]]));
      assert s.field + [field[0]] + field[1..] == s.field + field;
    }
  }

  /** The inside of a quoted field, up to and with its closing quote. */
  lemma {:induction false} ScanQuoted(field: string, rest: string, s: State)
    requires s.inQuotes && (rest == "" || rest[0] != '"')
    ensures Scanned(Doubled(field) + "\"" + rest, 0, s)
      == Scanned(rest, 0, s.(field := s.field + field, inQuotes := false))
  {
    var input := Doubled(field) + "\"" + rest;
    if field == "" {
      assert input == "\"" + rest && s.field + field == s.field;
      ScannedRest("\"", rest, Consumed(input, 0, s));
    } else {
      var head := if field[0] == '"' then "\"\"" else [field[0]];
      var tail := Doubled(field[1..]) + "\"" + rest;
      assert input == head + tail;
      assert Width(input, 0, s) == |head|;
      ScannedRest(head, tail, Consumed(input, 0, s));
      ScanQuoted(field[1..], rest, s.(field := s.field + [field[0]]));
      assert s.field + [field[0]] + field[1..] == s.field + field;
    }
  }

  lemma ScanField(field: string, quoted: bool, rest: string, s: State)
    requires !s.inQuotes && (!quoted ==> MayBeBare(field)) && (rest == "" || rest[0] != '"')
    ensures Scanned(PrintField(field, quoted) + rest, 0, s) == Scanned(rest, 0, s.(field := s.field + field))
  {
    if quoted {
      var inner := Doubled(field) + "\"" + rest;
      assert PrintField(field, quoted) + rest == ['"'] + inner;
      ScanPlain('"', inner, s);
      ScanQuoted(field, rest, s.(inQuotes := true));
    } else {
      ScanBare(field, rest, s);
    }
  }

  /** A field, the comma after it, and what follows. */
  lemma ScanFieldAndComma(field: string, quoted: bool, rest: string, s: State)
    requires !s.inQuotes && s.field == "" && (!quoted ==> MayBeBare(field))
    ensures Scanned(PrintField(field, quoted) + ([','] + rest), 0, s) == Scanned(rest, 0, s.(row := s.row + [field]))
  {
    ScanField(field, quoted, [','] + rest, s);
    assert "" + field == field;
    ScanPlain(',', rest, s.(field := field));
  }

  lemma PrintFieldsHead(row: Record, quoted: seq<bool>, rest: string)
    requires |row| > 1 && |quoted| == |row|
    ensures PrintFields(row, quoted) + rest
      == PrintField(row[0], quoted[0]) + ([','] + (PrintFields(row[1..], quoted[1..]) + rest))
  {
  }

  /** All fields of a record: all but the last are in the row, the last is in the field. */
  lemma {:induction false} ScanFields(row: Record, quoted: seq<bool>, rest: string, s: State, open: State)
    requires row != [] && |quoted| == |row| && !s.inQuotes && s.field == ""
    requires forall j :: 0 <= j < |row| && !quoted[j] ==> MayBeBare(row[j])
    requires rest == "" || rest[0] != '"'
    requires open == s.(row := s.row + row[..|row| - 1], field := row[|row| - 1])
    ensures Scanned(PrintFields(row, quoted) + rest, 0, s) == Scanned(rest, 0, open)
    decreases row
  {
    if |row| == 1 {
      assert open == s.(field := s.field + row[0]);
      ScanField(row[0], quoted[0], rest, s);
    } else {
      var next := s.(row := s.row + [row[0]]);
      assert open == next.(row := next.row + row[1..][..|row| - 2], field := row[1..][|row| - 2]);
      ScanFields(row[1..], quoted[1..], rest, next, open);
      ScanFieldAndComma(row[0], quoted[0], PrintFields(row[1..], quoted[1..]) + rest, s);
      PrintFieldsHead(row, quoted, rest);
    }
  }

  lemma ScanEnd(end: string, rest: string, s: State)
    requires IsEnd(end) && !s.inQuotes
    ensures Scanned(end + rest, 0, s) == Scanned(rest, 0, State(s.rows + [s.row + [s.field]], [], "", false))
  {
    if end == "\n" {
      ScanPlain('\n', rest, s);
    } else {
      assert end + rest == ['\r'] + (['\n'] + rest);
      ScanPlain('\r', ['\n'] + rest, s);
      ScanPlain('\n', rest, s);
    }
  }

  lemma OpenRow(row: Record, s: State, open: State)
    requires row != [] && s.row == [] && open == s.(row := s.row + row[..|row| - 1], field := row[|row| - 1])
    ensures open.row + [open.field] == row
  {
  }

  lemma ScanRecord(row: Record, style: Style, rest: string, s: State)
    requires row != [] && |style.quoted| == |row| && IsEnd(style.end)
    requires forall j :: 0 <= j < |row| && !style.quoted[j] ==> MayBeBare(row[j])
    requires !s.inQuotes && s.field == "" && s.row == []
    ensures Scanned(PrintFields(row, style.quoted) + style.end + rest, 0, s)
      == Scanned(rest, 0, s.(rows := s.rows + [row]))
  {
    var after := style.end + rest;
    assert PrintFields(row, style.quoted) + style.end + rest == PrintFields(row, style.quoted) + after;
    var open := s.(row := s.row + row[..|row| - 1], field := row[|row| - 1]);
    ScanFields(row, style.quoted, after, s, open);
    ScanEnd(style.end, rest, open);
    OpenRow(row, s, open);
  }

  /** What is open after the last field of a record is closed to the record, unless that is a lone empty field. */
  lemma CloseRecord(row: Record, s: State, open: State)
    requires row != [] && s.row == []
    requires open == s.(row := s.row + row[..|row| - 1], field := row[|row| - 1])
    ensures Closed(open) == if row == [""] then s.rows else s.rows + [row]
  {
    assert open.row + [open.field] == row;
    if |row| == 1 { assert row == [row[0]]; }
  }

  /** A last record without line break is closed at the end of the input. */
  lemma ScanUnended(row: Record, quoted: seq<bool>, s: State)
    requires row != [] && |quoted| == |row| && !s.inQuotes && s.field == "" && s.row == []
    requires forall j :: 0 <= j < |row| && !quoted[j] ==> MayBeBare(row[j])
    ensures Closed(Scanned(PrintFields(row, quoted), 0, s)) == if row == [""] then s.rows else s.rows + [row]
  {
    var open := s.(row := s.row + row[..|row| - 1], field := row[|row| - 1]);
    var rest := "";
    ScanFields(row, quoted, rest, s, open);
    assert PrintFields(row, quoted) + rest == PrintFields(row, quoted);
    CloseRecord(row, s, open);
  }

  lemma DropsBlankLast(rows: Grid, row: Record)
    requires IsBlank(row)
    ensures DropTrailingBlank(rows + [row]) == DropTrailingBlank(rows)
  {
    assert (rows + [row])[..|rows|] == rows;
  }

  lemma PrintingTail(table: Grid, styles: seq<Style>)
    requires IsPrinting(table, styles) && table != []
    ensures IsPrinting(table[1..], styles[1..])
    ensures forall j :: 0 <= j < |table[0]| && !styles[0].quoted[j] ==> MayBeBare(table[0][j])
    ensures IsEnd(styles[0].end) || (|table| == 1 && styles[0].end == "")
  {
  }

  lemma ScanFirst(table: Grid, styles: seq<Style>, s: State)
    requires IsPrinting(table, styles) && table != [] && IsEnd(styles[0].end) && !s.inQuotes && s.field == ""
      && s.row == []
    ensures IsPrinting(table[1..], styles[1..])
    ensures Scanned(Print(table, styles), 0, s)
      == Scanned(Print(table[1..], styles[1..]), 0, s.(rows := s.rows + [table[0]]))
  {
    PrintingTail(table, styles);
    ScanRecord(table[0], styles[0], Print(table[1..], styles[1..]), s);
  }

  lemma ScanLast(table: Grid, styles: seq<Style>, s: State)
    requires IsPrinting(table, styles) && table != [] && !IsEnd(styles[0].end) && !s.inQuotes && s.field == ""
      && s.row == []
    ensures table == [table[0]]
    ensures Closed(Scanned(Print(table, styles), 0, s)) == if table[0] == [""] then s.rows else s.rows + [table[0]]
  {
    PrintingTail(table, styles);
    assert Print(table, styles) == PrintFields(table[0], styles[0].quoted);
    ScanUnended(table[0], styles[0].quoted, s);
  }

  /** Scanning a printed table appends its records, up to trailing blank ones. */
  lemma {:induction false} ScanTable(table: Grid, styles: seq<Style>, s: State, all: Grid)
    requires IsPrinting(table, styles) && !s.inQuotes && s.field == "" && s.row == [] && all == s.rows + table
    ensures DropTrailingBlank(Closed(Scanned(Print(table, styles), 0, s))) == DropTrailingBlank(all)
    decreases table
  {
    if table == [] {
      assert all == s.rows;
    } else if IsEnd(styles[0].end) {
      var next := s.(rows := s.rows + [table[0]]);
      assert all == next.rows + table[1..];
      ScanFirst(table, styles, s);
      ScanTable(table[1..], styles[1..], next, all);
    } else {
      ScanLast(table, styles, s);
      if table[0] == [""] { DropsBlankLast(s.rows, table[0]); }
    }
  }

  /** Parsing any printing of a table of non-empty records gives the table without its trailing blank records. */
  lemma ParseInvertsPrint(table: Grid, styles: seq<Style>)
    requires IsPrinting(table, styles)
    ensures Parsed(Print(table, styles)) == DropTrailingBlank(table)
  {
    ScanTable(table, styles, INITIAL, table);
  }

  // ---- printing what was parsed ----

  predicate NoEmptyRecord(rows: Grid) {
    forall i :: 0 <= i < |rows| ==> rows[i] != []
  }

  lemma {:induction false} ScannedHasNoEmptyRecord(input: string, i: nat, s: State)
    requires i <= |input| && NoEmptyRecord(s.rows)
    ensures NoEmptyRecord(Scanned(input, i, s).rows)
    decreases |input| - i
  {
    if i < |input| {
      ScannedHasNoEmptyRecord(input, i + Width(input, i, s), Consumed(input, i, s));
    }
  }

  /** Every field quoted, every record ended by LF. */
  function AllQuoted(table: Grid): (styles: seq<Style>)
    ensures |styles| == |table|
  {
    seq(|table|, i requires 0 <= i < |table| => Style(seq(|table[i]|, _ => true), "\n"))
  }

  lemma {:induction false} DropTrailingBlankTwice(rows: Grid)
    ensures DropTrailingBlank(DropTrailingBlank(rows)) == DropTrailingBlank(rows)
  {
    var kept := DropTrailingBlank(rows);
    if kept != [] { assert !IsBlank(kept[|kept| - 1]); }
  }

  lemma AllQuotedIsPrinting(table: Grid)
    requires NoEmptyRecord(table)
    ensures IsPrinting(table, AllQuoted(table))
  {
  }

  lemma ReprintParsesBack(table: Grid)
    requires NoEmptyRecord(table) && DropTrailingBlank(table) == table
    ensures IsPrinting(table, AllQuoted(table)) && Parsed(Print(table, AllQuoted(table))) == table
  {
    AllQuotedIsPrinting(table);
    ParseInvertsPrint(table, AllQuoted(table));
  }

  lemma ParsedFacts(input: string)
    ensures NoEmptyRecord(Parsed(input)) && DropTrailingBlank(Parsed(input)) == Parsed(input)
  {
    ScannedHasNoEmptyRecord(input, 0, INITIAL);
    DropTrailingBlankTwice(Closed(Scanned(input, 0, INITIAL)));
  }

  /** Whatever the input, well formed or not, printing its parse and parsing again changes nothing. */
  lemma ReparseIsStable(input: string)
    ensures NoEmptyRecord(Parsed(input))
    ensures IsPrinting(Parsed(input), AllQuoted(Parsed(input)))
    ensures Parsed(Print(Parsed(input), AllQuoted(Parsed(input)))) == Parsed(input)
  {
    ParsedFacts(input);
    ReprintParsesBack(Parsed(input));
  }

  // ---- the parser on any input, character by character ----

  /**
   Outside quotes a quote opens them, a comma ends the field, a line feed the record, a carriage return is passed over
   wherever it stands, and any other character is kept.
   */
  lemma BareExactly(c: char, rest: string, s: State)
    requires !s.inQuotes
    ensures Scanned([c] + rest, 0, s) == Scanned(rest, 0,
      if c == '"' then State(s.rows, s.row, s.field, true)
      else if c == ',' then State(s.rows, s.row + [s.field], "", false)
      else if c == '\n' then State(s.rows + [s.row + [s.field]], [], "", false)
      else if c == '\r' then s
      else State(s.rows, s.row, s.field + [c], false))
  {
    ScanPlain(c, rest, s);
  }

  /** Inside quotes everything is kept but a quote: two stand for one, and one alone closes. */
  lemma QuotedExactly(c: char, rest: string, s: State)
    requires s.inQuotes
    ensures c != '"' ==> Scanned([c] + rest, 0, s) == Scanned(rest, 0, State(s.rows, s.row, s.field + [c], true))
    ensures Scanned("\"\"" + rest, 0, s) == Scanned(rest, 0, State(s.rows, s.row, s.field + ['"'], true))
    ensures rest == "" || rest[0] != '"' ==>
      Scanned("\"" + rest, 0, s) == Scanned(rest, 0, State(s.rows, s.row, s.field, false))
  {
    ScannedRest([c], rest, State(s.rows, s.row, s.field + [c], true));
    ScannedRest("\"\"", rest, State(s.rows, s.row, s.field + ['"'], true));
    ScannedRest("\"", rest, State(s.rows, s.row, s.field, false));
  }

  /**
   At the end of the input what was read of a last record is kept, quotes closed or not; nothing read is no
   record.
   */
  lemma EndExactly(s: State)
    ensures Scanned("", 0, s) == s
    ensures s.field == "" && s.row == [] ==> Closed(s) == s.rows
    ensures s.field != "" || s.row != [] ==> Closed(s) == s.rows + [s.row + [s.field]]
  {
  }
}
