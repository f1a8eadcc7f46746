/**
 What an upsert does to the table, row by row and column by column: which rows it inserts, which it updates, and
 where each value comes from.
 */
module UpsertEffects {
  import opened Wrappers
  import opened Strings
  import opened Sql
  import opened Upsert
  import opened UpsertAgreement

  // ---- the columns ----

  /**
   The conflict columns are the names in the comma-separated list, without white space around them; `id` by
   default.
   */
  lemma ConflictColumnsExactly(names: seq<string>)
    requires names != [] && Join(names, ",") != "" && forall i :: 0 <= i < |names| ==> ',' !in names[i]
    ensures ConflictColumns(None) == ["id"] && ConflictColumns(Some("")) == ["id"]
    ensures var keys := ConflictColumns(Some(Join(names, ",")));
      |keys| == |names| && forall i :: 0 <= i < |names| ==> keys[i] == Trim(names[i])
  {
    SplitJoin(names, ',');
  }

  /** The columns to update are the columns of the data that are no conflict column. */
  lemma {:induction false} NonConflictExactly(columns: seq<string>, keys: seq<string>, c: string)
    ensures c in NonConflict(columns, keys) <==> c in columns && c !in keys
  {
    if columns != [] {
      var front, last := columns[..|columns| - 1], columns[|columns| - 1];
      assert columns == front + [last];
      NonConflictExactly(front, keys, c);
    }
  }

  lemma NonConflictSnoc(front: seq<string>, last: string, all: seq<string>, keys: seq<string>)
    requires all == front + [last]
    ensures NonConflict(all, keys) == NonConflict(front, keys) + if last in keys then [] else [last]
  {
    assert all[..|all| - 1] == front;
  }

  /** They keep the order of the columns, and none is listed more often. */
  lemma {:induction false} NonConflictInOrder(a: seq<string>, b: seq<string>, keys: seq<string>)
    ensures NonConflict(a + b, keys) == NonConflict(a, keys) + NonConflict(b, keys)
    decreases |b|
  {
    if b == [] {
      assert a + b == a;
    } else {
      var front, last := b[..|b| - 1], b[|b| - 1];
      NonConflictInOrder(a, front, keys);
      NonConflictSnoc(front, last, b, keys);
      NonConflictSnoc(a + front, last, a + b, keys);
    }
  }

  // ---- the values ----

  /** What the statement writes for column `c` of row `i` in Postgres: nothing given is null. */
  lemma PostgresWritesExactly(data: seq<Input>, columns: seq<string>, arrayColumns: set<string>, i: nat, c: string)
    requires i < |data| && c in columns
    ensures Column(Bound(PostgresRows(data, arrayColumns), columns)[i], c) ==
      if c !in data[i] then Null
      else match data[i][c]
        case Plain(scalar) => scalar
        case Composite(true, json) => if c in arrayColumns then Elements(json) else Text(json)
        case Composite(false, json) => Text(json)
  {
  }

  lemma SqlServerWritesExactly(data: seq<Input>, columns: seq<string>, i: nat, c: string)
    requires i < |data| && c in columns
    ensures Column(Bound(SqlServerRows(data), columns)[i], c) ==
      if c !in data[i] then Null
      else match data[i][c] case Plain(scalar) => scalar case Composite(_, json) => Text(json)
  {
  }

  // ---- old rows ----

  /** No data row from `from` on has the key of the row. */
  ghost predicate NoMatchFrom(row: Row, rows: Rows, keys: seq<string>, from: nat) {
    forall i :: from <= i < |rows| ==> !SameKey(row, rows[i], keys)
  }

  /** Data row `i` is the last with the key of the row. */
  ghost predicate IsLastMatch(row: Row, rows: Rows, keys: seq<string>, i: nat) {
    i < |rows| && SameKey(row, rows[i], keys) && NoMatchFrom(row, rows, keys, i + 1)
  }

  /** Row `after` is row `before` with the given columns from the data row. */
  ghost predicate TakesFrom(after: Row, before: Row, source: Row, cols: seq<string>) {
    forall c :: Column(after, c) == if c in cols then Column(source, c) else Column(before, c)
  }

  lemma MergeRowAt(table: Rows, source: Row, keys: seq<string>, cols: seq<string>, m: nat)
    requires m < |table| && AvoidsKeys(cols, keys)
    ensures var merged := MergeRow(table, source, keys, Some(cols));
      && m < |merged|
      && (!SameKey(table[m], source, keys) ==> merged[m] == table[m])
      && (SameKey(table[m], source, keys) ==> TakesFrom(merged[m], table[m], source, cols))
      && (forall other :: SameKey(merged[m], other, keys) <==> SameKey(table[m], other, keys))
  {
    forall other ensures SameKey(Updated(table[m], source, cols), other, keys) <==> SameKey(table[m], other, keys) {
      UpdatedKeepsKey(table[m], source, other, cols, keys);
    }
  }

  lemma MatchTransfers(row: Row, row': Row, rows: Rows, keys: seq<string>, from: nat)
    requires forall other :: SameKey(row', other, keys) <==> SameKey(row, other, keys)
    ensures NoMatchFrom(row', rows, keys, from) <==> NoMatchFrom(row, rows, keys, from)
  {
  }

  lemma RestMatches(row: Row, rows: Rows, rest: Rows, keys: seq<string>, from: nat)
    requires rows != [] && rest == rows[1..]
    ensures NoMatchFrom(row, rest, keys, from) <==> NoMatchFrom(row, rows, keys, from + 1)
  {
    if NoMatchFrom(row, rest, keys, from) {
      forall i | from + 1 <= i < |rows| ensures !SameKey(row, rows[i], keys) { assert rows[i] == rest[i - 1]; }
    }
  }

  /** An old row that no data row matches stays as it is. */
  lemma {:induction false} UnmatchedStays(
    table: Rows, rows: Rows, keys: seq<string>, update: Option<seq<string>>, m: nat)
    requires m < |table| && (update.Some? ==> AvoidsKeys(update.value, keys))
    requires update.None? || NoMatchFrom(table[m], rows, keys, 0)
    ensures m < |MergeRows(table, rows, keys, update)| && MergeRows(table, rows, keys, update)[m] == table[m]
    decreases |rows|
  {
    if rows != [] {
      if update.Some? { MergeRowAt(table, rows[0], keys, update.value, m); }
      UnmatchedStays(MergeRow(table, rows[0], keys, update), rows[1..], keys, update, m);
    }
  }

  /** An old row takes the updated columns from the last data row with its key, and keeps the others. */
  lemma {:induction false} MatchedTakes(table: Rows, rows: Rows, keys: seq<string>, cols: seq<string>, m: nat, i: nat)
    requires m < |table| && i < |rows| && AvoidsKeys(cols, keys)
    requires SameKey(table[m], rows[i], keys) && NoMatchFrom(table[m], rows, keys, i + 1)
    ensures m < |MergeRows(table, rows, keys, Some(cols))|
    ensures TakesFrom(MergeRows(table, rows, keys, Some(cols))[m], table[m], rows[i], cols)
    decreases |rows|
  {
    var merged, rest := MergeRow(table, rows[0], keys, Some(cols)), rows[1..];
    MergeRowAt(table, rows[0], keys, cols, m);
    RestMatches(table[m], rows, rest, keys, i);
    MatchTransfers(table[m], merged[m], rest, keys, i);
    if i == 0 {
      UnmatchedStays(merged, rest, keys, Some(cols), m);
    } else {
      MatchedTakes(merged, rest, keys, cols, m, i - 1);
      MatchedAgain(MergeRows(merged, rest, keys, Some(cols))[m], merged[m], table[m], rows[0], rows[i], cols);
    }
  }

  lemma MatchedAgain(after: Row, between: Row, before: Row, first: Row, last: Row, cols: seq<string>)
    requires TakesFrom(after, between, last, cols)
    requires between == before || TakesFrom(between, before, first, cols)
    ensures TakesFrom(after, before, last, cols)
  {
  }

  // ---- new rows ----

  /** The data rows whose key neither a row of the table nor an earlier data row has, in order. */
  function Untaken(table: Rows, rows: Rows, keys: seq<string>): Rows {
    if rows == [] then [] else
      var front := rows[..|rows| - 1];
      Untaken(table, front, keys) + if IsTaken(table, rows, |rows| - 1, keys) then [] else [rows[|rows| - 1]]
  }

  lemma {:induction false} MergeRowsSnoc(
    table: Rows, rows: Rows, last: Row, keys: seq<string>, update: Option<seq<string>>)
    ensures MergeRows(table, rows + [last], keys, update)
      == MergeRow(MergeRows(table, rows, keys, update), last, keys, update)
    decreases |rows|
  {
    var all := rows + [last];
    if rows == [] {
      assert all == [last] && all[1..] == [];
    } else {
      assert all[1..] == rows[1..] + [last];
      MergeRowsSnoc(MergeRow(table, rows[0], keys, update), rows[1..], last, keys, update);
    }
  }

  /** A row is found in the table after the first data rows exactly when its key is taken. */
  ghost predicate FindsTaken(table: Rows, rows: Rows, after: Rows, keys: seq<string>) {
    forall row :: Match(after, row, keys).Some? <==> IsTaken(table, rows + [row], |rows|, keys)
  }

  lemma {:induction false} SameKeyIsFound(table: Rows, row: Row, keys: seq<string>, m: nat)
    requires m < |table| && SameKey(table[m], row, keys)
    ensures Match(table, row, keys).Some?
  {
  }

  lemma TakenSnoc(table: Rows, rows: Rows, last: Row, row: Row, keys: seq<string>)
    ensures IsTaken(table, (rows + [last]) + [row], |rows| + 1, keys) <==>
      IsTaken(table, rows + [row], |rows|, keys) || SameKey(last, row, keys)
  {
    var shorter, longer := rows + [row], (rows + [last]) + [row];
    assert longer[|rows|] == last && longer[|rows| + 1] == row && shorter[|rows|] == row;
    assert forall j :: 0 <= j < |rows| ==> longer[j] == rows[j] == shorter[j];
  }

  lemma FindsTakenStep(table: Rows, rows: Rows, last: Row, after: Rows, keys: seq<string>, update: Option<seq<string>>)
    requires FindsTaken(table, rows, after, keys) && (update.Some? ==> AvoidsKeys(update.value, keys))
    ensures FindsTaken(table, rows + [last], MergeRow(after, last, keys, update), keys)
  {
    var merged := MergeRow(after, last, keys, update);
    forall row
      ensures Match(merged, row, keys).Some? <==> IsTaken(table, (rows + [last]) + [row], |rows + [last]|, keys)
    {
      TakenSnoc(table, rows, last, row, keys);
      MergeFinds(after, last, row, keys, update);
    }
  }

  /** After a merge of `last`, a row is found exactly when it was before, or has the key of `last`. */
  lemma MergeFinds(table: Rows, last: Row, row: Row, keys: seq<string>, update: Option<seq<string>>)
    requires update.Some? ==> AvoidsKeys(update.value, keys)
    ensures Match(MergeRow(table, last, keys, update), row, keys).Some? <==>
      Match(table, row, keys).Some? || SameKey(last, row, keys)
  {
    var merged := MergeRow(table, last, keys, update);
    forall m | 0 <= m < |table| ensures SameKey(merged[m], row, keys) <==> SameKey(table[m], row, keys) {
      if update.Some? { MergeRowAt(table, last, keys, update.value, m); }
    }
    if Match(table, last, keys).Some? {
      var m := Match(table, last, keys).value;
      if SameKey(last, row, keys) { SameKeyTransfers(table[m], last, row, keys); }
    } else if SameKey(last, row, keys) {
      assert SameKey(merged[|table|], row, keys);
    }
  }

  lemma {:induction false} AlwaysFindsTaken(table: Rows, rows: Rows, keys: seq<string>, update: Option<seq<string>>)
    requires update.Some? ==> AvoidsKeys(update.value, keys)
    ensures FindsTaken(table, rows, MergeRows(table, rows, keys, update), keys)
    decreases |rows|
  {
    if rows == [] {
      forall row ensures Match(table, row, keys).Some? <==> IsTaken(table, [] + [row], 0, keys) {
        assert [] + [row] == [row];
      }
    } else {
      var front, last := rows[..|rows| - 1], rows[|rows| - 1];
      assert rows == front + [last];
      AlwaysFindsTaken(table, front, keys, update);
      MergeRowsSnoc(table, front, last, keys, update);
      FindsTakenStep(table, front, last, MergeRows(table, front, keys, update), keys, update);
    }
  }

  /** The table grows by one row for every untaken data row; without repeated keys they stand there as they came. */
  lemma {:induction false} NewRows(table: Rows, rows: Rows, keys: seq<string>, update: Option<seq<string>>)
    requires (update.Some? ==> AvoidsKeys(update.value, keys)) && (update.None? || DistinctKeys(rows, keys))
    ensures |table| <= |MergeRows(table, rows, keys, update)|
    ensures MergeRows(table, rows, keys, update)[|table|..] == Untaken(table, rows, keys)
    decreases |rows|
  {
    if rows != [] {
      var front, last := rows[..|rows| - 1], rows[|rows| - 1];
      assert rows == front + [last];
      var before := MergeRows(table, front, keys, update);
      NewRows(table, front, keys, update);
      MergeRowsSnoc(table, front, last, keys, update);
      AlwaysFindsTaken(table, front, keys, update);
      assert Match(before, last, keys).Some? <==> IsTaken(table, front + [last], |front|, keys);
      NewRowsStep(table, rows, front, last, before, keys, update);
    }
  }

  lemma NewRowsStep(table: Rows, rows: Rows, front: Rows, last: Row, before: Rows, keys: seq<string>,
    update: Option<seq<string>>)
    requires rows == front + [last] && |table| <= |before| && before[|table|..] == Untaken(table, front, keys)
    requires update.None? || (AvoidsKeys(update.value, keys) && DistinctKeys(rows, keys))
    requires Match(before, last, keys).Some? <==> IsTaken(table, rows, |front|, keys)
    ensures var after := MergeRow(before, last, keys, update);
      |table| <= |after| && after[|table|..] == Untaken(table, rows, keys)
  {
    var after := MergeRow(before, last, keys, update);
    assert rows[..|rows| - 1] == front && rows[|rows| - 1] == last;
    if Match(before, last, keys).Some? && update.Some? {
      forall m | |table| <= m < |before| ensures after[m] == before[m] {
        var k := UntakenIsFrom(table, front, keys, m - |table|);
        assert before[m] == before[|table|..][m - |table|] == front[k] == rows[k];
        assert !SameKey(rows[k], rows[|front|], keys);
      }
      assert after[|table|..] == before[|table|..];
    } else if Match(before, last, keys).None? {
      assert after[|table|..] == before[|table|..] + [last];
    }
  }

  lemma {:induction false} UntakenIsFrom(table: Rows, rows: Rows, keys: seq<string>, j: nat) returns (k: nat)
    requires j < |Untaken(table, rows, keys)|
    ensures k < |rows| && Untaken(table, rows, keys)[j] == rows[k] && !IsTaken(table, rows, k, keys)
  {
    var front := rows[..|rows| - 1];
    if j < |Untaken(table, front, keys)| {
      k := UntakenIsFrom(table, front, keys, j);
      assert forall i :: 0 <= i < |front| ==> front[i] == rows[i];
    } else {
      k := |rows| - 1;
    }
  }

  // ---- an upsert as a whole ----

  /**
   What became of the table: the untaken data rows follow the old rows; an old row takes its non-key columns from the
   last data row with its key, unless duplicates are ignored, and is unchanged otherwise.
   */
  ghost predicate Wrote(before: Rows, after: Rows, rows: Rows, columns: seq<string>, keys: seq<string>, ignore: bool) {
    && |before| <= |after|
    && (ignore || DistinctKeys(rows, keys) ==> after[|before|..] == Untaken(before, rows, keys))
    && (forall m :: 0 <= m < |before| && (ignore || NoMatchFrom(before[m], rows, keys, 0)) ==> after[m] == before[m])
    && (forall m, i, c :: 0 <= m < |before| && 0 <= i < |rows| && !ignore && IsLastMatch(before[m], rows, keys, i) ==>
          Column(after[m], c) == if c in columns && c !in keys then Column(rows[i], c) else Column(before[m], c))
  }

  lemma {:induction false} MergeRowsGrow(table: Rows, rows: Rows, keys: seq<string>, update: Option<seq<string>>)
    ensures |table| <= |MergeRows(table, rows, keys, update)|
    decreases |rows|
  {
    if rows != [] { MergeRowsGrow(MergeRow(table, rows[0], keys, update), rows[1..], keys, update); }
  }

  lemma MergesWrite(table: Rows, rows: Rows, columns: seq<string>, keys: seq<string>, ignore: bool,
    update: Option<seq<string>>)
    requires update == MergeUpdate(columns, keys, ignore)
    ensures Wrote(table, MergeRows(table, rows, keys, update), rows, columns, keys, ignore)
  {
    var after, cols := MergeRows(table, rows, keys, update), NonConflict(columns, keys);
    NonConflictAvoidsKeys(columns, keys);
    forall c ensures c in cols <==> c in columns && c !in keys { NonConflictExactly(columns, keys, c); }
    MergeRowsGrow(table, rows, keys, update);
    if ignore || DistinctKeys(rows, keys) { NewRows(table, rows, keys, update); }
    forall m | 0 <= m < |table| && (ignore || NoMatchFrom(table[m], rows, keys, 0)) ensures after[m] == table[m] {
      UnmatchedStays(table, rows, keys, update, m);
    }
    forall m, i, c | 0 <= m < |table| && 0 <= i < |rows| && !ignore && IsLastMatch(table[m], rows, keys, i)
      ensures Column(after[m], c) == if c in columns && c !in keys then Column(rows[i], c) else Column(table[m], c)
    {
      if update.None? {
        UnmatchedStays(table, rows, keys, update, m);
      } else {
        MatchedTakes(table, rows, keys, cols, m, i);
      }
    }
  }

  /** What a Postgres upsert that is carried out does. */
  lemma PostgresUpsertWrites(table: Rows, data: seq<Input>, arrayColumns: set<string>, columns: seq<string>,
    keys: seq<string>, ignore: bool)
    requires Unique(table, keys)
    ensures var rows := PostgresRows(data, arrayColumns);
      var outcome := RunOnConflict(table, PostgresUpsert(rows, columns, keys, ignore));
      outcome.Done? ==> Wrote(table, outcome.table, Bound(rows, columns), columns, keys, ignore)
  {
    var rows := PostgresRows(data, arrayColumns);
    SourceIsBound(rows, columns, keys, ignore);
    PostgresRefusesExactly(table, rows, columns, keys, ignore);
    if RunOnConflict(table, PostgresUpsert(rows, columns, keys, ignore)).Done? {
      MergesWrite(table, Bound(rows, columns), columns, keys, ignore, MergeUpdate(columns, keys, ignore));
      if ignore {
        DoNothingIsMerge(table, Bound(rows, columns), keys);
      } else {
        NonConflictAvoidsKeys(columns, keys);
        DoUpdateIsMerge(table, {}, Bound(rows, columns), keys, NonConflict(columns, keys));
      }
    }
  }

  /** What the MERGEs of a SQL Server upsert that is carried out do. */
  lemma SqlServerUpsertWrites(table: Rows, data: seq<Input>, columns: seq<string>, keys: seq<string>, ignore: bool)
    requires data != []
    ensures var rows := SqlServerRows(data);
      var outcome := RunMerges(table, SqlServerUpsert(rows, columns, keys, ignore));
      outcome.Done? ==> Wrote(table, outcome.table, Bound(rows, columns), columns, keys, ignore)
  {
    var rows := SqlServerRows(data);
    SourceIsBound(rows, columns, keys, ignore);
    SqlServerRefusesExactly(table, rows, columns, keys, ignore);
    if RunMerges(table, SqlServerUpsert(rows, columns, keys, ignore)).Done? {
      RunMergesIsMergeRows(table, rows, columns, keys, ignore);
      MergesWrite(table, Bound(rows, columns), columns, keys, ignore, MergeUpdate(columns, keys, ignore));
    }
  }
}
