/**
 The CSV extractor's parser and the printer of RFC 4180. Section 2 of RFC 4180 lets every field
 be quoted, with quotes doubled; a field without comma, quote, CR or LF may be left bare; records
 end in a line break, which the last one may lack. The extractor also takes a lone LF.
 */
module Csv {
  import opened Wrappers

  type Record = seq<string>
  type Grid = seq<Record>

  // ---- the parser ----

  datatype State = State(rows: Grid, row: Record, field: string, inQuotes: bool)

  const INITIAL := State([], [], "", false)

  /** How many characters the parser takes at `i`: two at a doubled quote inside quotes, else one. */
  function Width(input: string, i: nat, s: State): nat
    requires i < |input|
  {
    if s.inQuotes && input[i] == '"' && i + 1 < |input| && input[i + 1] == '"' then 2 else 1
  }

  function Consumed(input: string, i: nat, s: State): State
    requires i < |input|
  {
    var c := input[i];
    if s.inQuotes then
      if c != '"' then s.(field := s.field + [c])
      else if i + 1 < |input| && input[i + 1] == '"' then s.(field := s.field + ['"'])
      else s.(inQuotes := false)
    else if c == '"' then s.(inQuotes := true)
    else if c == ',' then s.(row := s.row + [s.field], field := "")
    else if c == '\r' then s
    else if c == '\n' then State(s.rows + [s.row + [s.field]], [], "", false)
    else s.(field := s.field + [c])
  }

  function Scanned(input: string, i: nat, s: State): State
    requires i <= |input|
    decreases |input| - i
  {
    if i == |input| then s else Scanned(input, i + Width(input, i, s), Consumed(input, i, s))
  }

  /** The last record, when the input does not end right after a line break. */
  function Closed(s: State): Grid {
    if s.field != "" || s.row != [] then s.rows + [s.row + [s.field]] else s.rows
  }

  predicate IsBlank(row: Record) {
    forall f :: f in row ==> f == ""
  }

  function DropTrailingBlank(rows: Grid): (r: Grid)
    ensures r <= rows
    ensures r != [] ==> !IsBlank(r[|r| - 1])
    ensures forall i :: |r| <= i < |rows| ==> IsBlank(rows[i])
  {
    if rows != [] && IsBlank(rows[|rows| - 1]) then DropTrailingBlank(rows[..|rows| - 1]) else rows
  }

  function Parsed(input: string): Grid {
    DropTrailingBlank(Closed(Scanned(input, 0, INITIAL)))
  }

  method ParseCsv(input: string) returns (rows: Grid)
    ensures rows == Parsed(input)
  {
    rows := [];
    var row: Record, field: string, inQuotes := [], "", false;
    var i := 0;
    while i < |input|
      invariant 0 <= i <= |input|
      invariant Scanned(input, i, State(rows, row, field, inQuotes)) == Scanned(input, 0, INITIAL)
    {
      var ch := input[i];
      if inQuotes {
        if ch == '"' {
          if i + 1 < |input| && input[i + 1] == '"' {
            field := field + ['"'];
            i := i + 2;
            continue;
          }
          inQuotes := false;
          i := i + 1;
          continue;
        }
        field := field + [ch];
        i := i + 1;
        continue;
      }
      if ch == '"' {
        inQuotes := true;
        i := i + 1;
        continue;
      }
      if ch == ',' {
        row := row + [field];
        field := "";
        i := i + 1;
        continue;
      }
      if ch == '\r' {
        i := i + 1;
        continue;
      }
      if ch == '\n' {
        row := row + [field];
        rows := rows + [row];
        row := [];
        field := "";
        i := i + 1;
        continue;
      }
      field := field + [ch];
      i := i + 1;
    }
    if |field| > 0 || |row| > 0 {
      row := row + [field];
      rows := rows + [row];
    }
    while |rows| > 0
      invariant DropTrailingBlank(rows) == Parsed(input)
    {
      var last := rows[|rows| - 1];
      if IsBlank(last) {
        rows := rows[..|rows| - 1];
      } else {
        break;
      }
    }
  }

  // ---- the printer ----

  /** Whether each field of a record is quoted, and what ends the record. */
  datatype Style = Style(quoted: seq<bool>, end: string)

  predicate MayBeBare(field: string) {
    forall c :: c in field ==> c != ',' && c != '"' && c != '\r' && c != '\n'
  }

  predicate IsEnd(end: string) {
    end == "\n" || end == "\r\n"
  }

  /** A printing RFC 4180 allows: special fields are quoted, records end in a line break, the last one optionally. */
  ghost predicate IsPrinting(table: Grid, styles: seq<Style>) {
    && |styles| == |table|
    && (forall i :: 0 <= i < |table| ==> table[i] != [] && |styles[i].quoted| == |table[i]|)
    && (forall i, j :: 0 <= i < |table| && 0 <= j < |table[i]| && !styles[i].quoted[j] ==> MayBeBare(table[i][j]))
    && (forall i :: 0 <= i < |table| ==> IsEnd(styles[i].end) || (i == |table| - 1 && styles[i].end == ""))
  }

  function Doubled(field: string): string {
    if field == "" then "" else (if field[0] == '"' then "\"\"" else [field[0]]) + Doubled(field[1..])
  }

  function PrintField(field: string, quoted: bool): string {
    if quoted then "\"" + Doubled(field) + "\"" else field
  }

  function PrintFields(row: Record, quoted: seq<bool>): string
    requires row != [] && |quoted| == |row|
  {
    if |row| == 1 then PrintField(row[0], quoted[0])
    else PrintField(row[0], quoted[0]) + "," + PrintFields(row[1..], quoted[1..])
  }

  function Print(table: Grid, styles: seq<Style>): string
    requires |styles| == |table| && forall i :: 0 <= i < |table| ==> table[i] != [] && |styles[i].quoted| == |table[i]|
  {
    if table == [] then ""
    else PrintFields(table[0], styles[0].quoted) + styles[0].end + Print(table[1..], styles[1..])
  }
}
