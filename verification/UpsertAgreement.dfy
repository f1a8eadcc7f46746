/**
 What an upsert of the caller's data means in both dialects, from the rows given, each dialect serialising
 them its own way, to the table left behind.
 */
module UpsertAgreement {
  import opened Wrappers
  import opened Sql
  import opened Upsert

  // ---- the rows a statement writes ----

  /** What a statement over these columns writes of a row: a null where the row has no value. */
  function BoundRow(row: Row, columns: seq<string>): Row {
    map c | c in columns :: Column(row, c)
  }

  function Bound(rows: Rows, columns: seq<string>): Rows {
    seq(|rows|, i requires 0 <= i < |rows| => BoundRow(rows[i], columns))
  }

  lemma {:induction false} SourceRowIsBoundRow(row: Row, columns: seq<string>)
    ensures SourceRow(columns, ValuesOf(row, columns)) == BoundRow(row, columns)
  {
    if columns != [] {
      var front := columns[..|columns| - 1];
      assert ValuesOf(row, columns)[..|columns| - 1] == ValuesOf(row, front);
      SourceRowIsBoundRow(row, front);
      assert columns == front + [columns[|columns| - 1]];
    }
  }

  lemma SourceIsBound(rows: Rows, columns: seq<string>, keys: seq<string>, ignore: bool)
    ensures Source(PostgresUpsert(rows, columns, keys, ignore)) == Bound(rows, columns)
  {
    forall i | 0 <= i < |rows| ensures SourceRow(columns, ValuesOf(rows[i], columns)) == BoundRow(rows[i], columns) {
      SourceRowIsBoundRow(rows[i], columns);
    }
  }

  /** The row has an array for some array column among those written. */
  predicate HoldsArray(row: Input, columns: seq<string>, arrayColumns: set<string>) {
    exists c :: c in columns && c in arrayColumns && c in row && row[c].Composite? && row[c].isArray
  }

  predicate HasElements(row: Row) {
    exists c :: c in row && row[c].Elements?
  }

  /** The two dialects' rows differ where Postgres writes an array, and only there; SQL Server writes none. */
  lemma BoundRowsDiffer(row: Input, columns: seq<string>, arrayColumns: set<string>)
    ensures var p, s := BoundRow(PostgresRow(row, arrayColumns), columns), BoundRow(SqlServerRow(row), columns);
      && !HasElements(s)
      && (HasElements(p) <==> HoldsArray(row, columns, arrayColumns))
      && p.Keys == s.Keys
      && (forall c :: c in p && !p[c].Elements? ==> s[c] == p[c])
  {
    var p := BoundRow(PostgresRow(row, arrayColumns), columns);
    if HoldsArray(row, columns, arrayColumns) {
      var c :| c in columns && c in arrayColumns && c in row && row[c].Composite? && row[c].isArray;
      assert p[c].Elements?;
    }
  }

  /** The two lists of rows as the statements of both dialects write them. */
  ghost predicate AreWritten(p: Rows, s: Rows) {
    && |p| == |s|
    && (forall i :: 0 <= i < |s| ==> !HasElements(s[i]) && p[i].Keys == s[i].Keys)
    && (forall i, c :: 0 <= i < |p| && c in p[i] && !p[i][c].Elements? ==> s[i][c] == p[i][c])
  }

  lemma BoundAreWritten(data: seq<Input>, columns: seq<string>, arrayColumns: set<string>)
    ensures var p, s := Bound(PostgresRows(data, arrayColumns), columns), Bound(SqlServerRows(data), columns);
      AreWritten(p, s) && forall i :: 0 <= i < |data| ==>
        (HasElements(p[i]) <==> HoldsArray(data[i], columns, arrayColumns))
  {
    forall i | 0 <= i < |data| { BoundRowsDiffer(data[i], columns, arrayColumns); }
  }

  lemma SameWithoutElements(p: Rows, s: Rows, i: nat)
    requires AreWritten(p, s) && i < |p| && !HasElements(p[i])
    ensures p[i] == s[i]
  {
  }

  // ---- duplicates ignored ----

  /** An earlier row has the key of row `i`. */
  predicate Repeats(rows: Rows, i: nat, keys: seq<string>)
    requires i < |rows|
  {
    exists j :: 0 <= j < i && SameKey(rows[j], rows[i], keys)
  }

  predicate SameKeyValues(a: Row, b: Row, keys: seq<string>) {
    forall i :: 0 <= i < |keys| ==> Column(a, keys[i]) == Column(b, keys[i])
  }

  lemma {:induction false} FirstOfKey(rows: Rows, i: nat, keys: seq<string>) returns (j: nat)
    requires i < |rows|
    ensures j <= i && !Repeats(rows, j, keys) && (j == i || SameKey(rows[j], rows[i], keys))
    decreases i
  {
    if !Repeats(rows, i, keys) {
      j := i;
    } else {
      var k :| 0 <= k < i && SameKey(rows[k], rows[i], keys);
      j := FirstOfKey(rows, k, keys);
      if j != k { SameKeyTransfers(rows[j], rows[k], rows[i], keys); }
    }
  }

  /** Row `i` has the key of a row of the table, or of an earlier one. */
  predicate IsTaken(table: Rows, rows: Rows, i: nat, keys: seq<string>)
    requires i < |rows|
  {
    (exists m :: 0 <= m < |table| && SameKey(table[m], rows[i], keys)) || Repeats(rows, i, keys)
  }

  /** Where the rows of the two dialects differ, their keys agree and are taken already. */
  ghost predicate DifferOnlyWhenTaken(table: Rows, p: Rows, s: Rows, keys: seq<string>) {
    && |p| == |s|
    && forall i :: 0 <= i < |p| ==> p[i] == s[i] || (SameKeyValues(p[i], s[i], keys) && IsTaken(table, p, i, keys))
  }

  lemma {:induction false} MatchOfSameKey(table: Rows, a: Row, b: Row, keys: seq<string>)
    requires SameKeyValues(a, b, keys)
    ensures Match(table, a, keys) == Match(table, b, keys)
  {
    if table != [] { MatchOfSameKey(table[..|table| - 1], a, b, keys); }
  }

  /** A row taken before the first one is dealt with is taken after. */
  lemma StaysTaken(table: Rows, table': Rows, p: Rows, i: nat, keys: seq<string>)
    requires 0 < i < |p| && IsTaken(table, p, i, keys)
    requires table' == if Match(table, p[0], keys).Some? then table else table + [p[0]]
    ensures IsTaken(table', p[1..], i - 1, keys)
  {
    var rest := p[1..];
    if m :| 0 <= m < |table| && SameKey(table[m], p[i], keys) {
      assert SameKey(table'[m], rest[i - 1], keys);
    } else {
      var j :| 0 <= j < i && SameKey(p[j], p[i], keys);
      if j > 0 {
        assert SameKey(rest[j - 1], rest[i - 1], keys);
      } else if Match(table, p[0], keys).Some? {
        SameKeyTransfers(table[Match(table, p[0], keys).value], p[0], p[i], keys);
        assert false;
      } else {
        assert SameKey(table'[|table|], rest[i - 1], keys);
      }
    }
  }

  lemma RestDiffersOnlyWhenTaken(table: Rows, table': Rows, p: Rows, s: Rows, keys: seq<string>)
    requires p != [] && DifferOnlyWhenTaken(table, p, s, keys)
    requires table' == if Match(table, p[0], keys).Some? then table else table + [p[0]]
    ensures DifferOnlyWhenTaken(table', p[1..], s[1..], keys)
  {
    forall i | 0 < i < |p| && p[i] != s[i] ensures IsTaken(table', p[1..], i - 1, keys) {
      StaysTaken(table, table', p, i, keys);
    }
  }

  lemma {:induction false} SameInserts(table: Rows, p: Rows, s: Rows, keys: seq<string>)
    requires DifferOnlyWhenTaken(table, p, s, keys)
    ensures DoNothing(table, p, keys) == DoNothing(table, s, keys)
    decreases |p|
  {
    if p != [] {
      var table' := if Match(table, p[0], keys).Some? then table else table + [p[0]];
      RestDiffersOnlyWhenTaken(table, table', p, s, keys);
      SameInserts(table', p[1..], s[1..], keys);
      MatchOfSameKey(table, p[0], s[0], keys);
    }
  }

  lemma TakenByPlainRow(p: Rows, s: Rows, i: nat, keys: seq<string>)
    requires AreWritten(p, s) && i < |p| && Repeats(p, i, keys)
    requires forall j :: 0 <= j < |p| && HasElements(p[j]) ==> Repeats(p, j, keys)
    ensures SameKeyValues(p[i], s[i], keys)
  {
    var j := FirstOfKey(p, i, keys);
    forall k | 0 <= k < |keys| ensures Column(p[i], keys[k]) == Column(s[i], keys[k]) {
      assert Column(p[j], keys[k]) == Column(p[i], keys[k]) != Null;
      assert keys[k] in p[j] && !p[j][keys[k]].Elements?;
    }
  }

  lemma OnlyRepeatsDiffer(table: Rows, p: Rows, s: Rows, keys: seq<string>)
    requires AreWritten(p, s) && forall j :: 0 <= j < |p| && HasElements(p[j]) ==> Repeats(p, j, keys)
    ensures DoNothing(table, p, keys) == DoNothing(table, s, keys)
  {
    forall i | 0 <= i < |p|
      ensures p[i] == s[i] || (SameKeyValues(p[i], s[i], keys) && IsTaken(table, p, i, keys))
    {
      if HasElements(p[i]) { TakenByPlainRow(p, s, i, keys); } else { SameWithoutElements(p, s, i); }
    }
    SameInserts(table, p, s, keys);
  }

  lemma {:induction false} KeepsTable(table: Rows, rows: Rows, keys: seq<string>)
    ensures table <= DoNothing(table, rows, keys)
    decreases |rows|
  {
    if rows != [] {
      KeepsTable(if Match(table, rows[0], keys).Some? then table else table + [rows[0]], rows[1..], keys);
    }
  }

  lemma NotTakenLater(table: Rows, table': Rows, rows: Rows, i: nat, keys: seq<string>)
    requires 0 < i < |rows| && !IsTaken(table, rows, i, keys)
    requires table' == if Match(table, rows[0], keys).Some? then table else table + [rows[0]]
    ensures !IsTaken(table', rows[1..], i - 1, keys)
  {
    var rest := rows[1..];
    assert forall j :: 0 <= j < i - 1 ==> rest[j] == rows[j + 1];
    assert !SameKey(rows[0], rows[i], keys);
  }

  lemma HeadIsInserted(table: Rows, rows: Rows, keys: seq<string>)
    requires rows != [] && !IsTaken(table, rows, 0, keys)
    ensures rows[0] in DoNothing(table, rows, keys)
  {
    var table' := table + [rows[0]];
    KeepsTable(table', rows[1..], keys);
    assert table'[|table|] == rows[0];
    assert DoNothing(table, rows, keys)[|table|] == table'[|table|];
  }

  /** A row whose key is not taken is inserted. */
  lemma {:induction false} FirstIsInserted(table: Rows, rows: Rows, i: nat, keys: seq<string>)
    requires i < |rows| && !IsTaken(table, rows, i, keys)
    ensures rows[i] in DoNothing(table, rows, keys)
    decreases |rows|
  {
    if i == 0 {
      HeadIsInserted(table, rows, keys);
    } else {
      var table' := if Match(table, rows[0], keys).Some? then table else table + [rows[0]];
      NotTakenLater(table, table', rows, i, keys);
      FirstIsInserted(table', rows[1..], i - 1, keys);
    }
  }

  // ---- no array reaches a table through SQL Server ----

  predicate NoElements(rows: Rows) {
    forall i :: 0 <= i < |rows| ==> !HasElements(rows[i])
  }

  lemma {:induction false} MergedWithoutElements(table: Rows, source: Rows, keys: seq<string>,
    update: Option<seq<string>>)
    requires NoElements(table) && NoElements(source)
    ensures NoElements(MergeRows(table, source, keys, update))
    decreases |source|
  {
    if source != [] {
      assert NoElements(MergeRow(table, source[0], keys, update)) by {
        OneMergeWithoutElements(table, source[0], keys, update);
      }
      MergedWithoutElements(MergeRow(table, source[0], keys, update), source[1..], keys, update);
    }
  }

  lemma OneMergeWithoutElements(table: Rows, row: Row, keys: seq<string>, update: Option<seq<string>>)
    requires NoElements(table) && !HasElements(row)
    ensures NoElements(MergeRow(table, row, keys, update))
  {
    var merged := MergeRow(table, row, keys, update);
    forall i | 0 <= i < |merged| ensures !HasElements(merged[i]) {
      if i < |table| && update.Some? {
        assert !HasElements(Updated(table[i], row, update.value)) by {
          UpdatedWithoutElements(table[i], row, update.value);
        }
      }
    }
  }

  lemma UpdatedWithoutElements(target: Row, row: Row, cols: seq<string>)
    requires !HasElements(target) && !HasElements(row)
    ensures !HasElements(Updated(target, row, cols))
  {
  }

  /** No row of the table has the key of a row to come. */
  predicate NoneTaken(table: Rows, rows: Rows, keys: seq<string>) {
    forall m, i :: 0 <= m < |table| && 0 <= i < |rows| ==> !SameKey(table[m], rows[i], keys)
  }

  lemma NoneTakenLater(table: Rows, table': Rows, rows: Rows, rest: Rows, keys: seq<string>)
    requires rows != [] && rest == rows[1..] && table' == table + [rows[0]]
    requires DistinctKeys(rows, keys) && NoneTaken(table, rows, keys)
    ensures DistinctKeys(rest, keys) && NoneTaken(table', rest, keys)
  {
    forall m, i | 0 <= m < |table'| && 0 <= i < |rest| ensures !SameKey(table'[m], rest[i], keys) {
      assert rest[i] == rows[i + 1];
      assert if m < |table| then table'[m] == table[m] else table'[m] == rows[0];
    }
  }

  lemma MergesNewRow(table: Rows, table': Rows, rows: Rows, rest: Rows, keys: seq<string>, update: Option<seq<string>>)
    requires rows != [] && rest == rows[1..] && table' == table + [rows[0]] && NoneTaken(table, rows, keys)
    ensures MergeRows(table, rows, keys, update) == MergeRows(table', rest, keys, update)
  {
    assert Match(table, rows[0], keys).None?;
  }

  lemma AppendRest(table: Rows, table': Rows, rows: Rows, rest: Rows)
    requires rows != [] && rest == rows[1..] && table' == table + [rows[0]]
    ensures table' + rest == table + rows
  {
  }

  /** Rows with distinct keys, none in the table, are all inserted. */
  lemma {:induction false} AllInserted(table: Rows, rows: Rows, keys: seq<string>, update: Option<seq<string>>)
    requires DistinctKeys(rows, keys) && NoneTaken(table, rows, keys)
    ensures MergeRows(table, rows, keys, update) == table + rows
    decreases |rows|
  {
    if rows != [] {
      var table', rest := table + [rows[0]], rows[1..];
      NoneTakenLater(table, table', rows, rest, keys);
      MergesNewRow(table, table', rows, rest, keys, update);
      AllInserted(table', rest, keys, update);
      AppendRest(table, table', rows, rest);
    }
  }

  // ---- the two dialects ----

  /** From this table both dialects upsert the caller's data, and leave the same table. */
  ghost predicate AgreeFrom(table: Rows, data: seq<Input>, arrayColumns: set<string>, columns: seq<string>,
    keys: seq<string>, ignore: bool)
  {
    var pg := RunOnConflict(table, PostgresUpsert(PostgresRows(data, arrayColumns), columns, keys, ignore));
    pg.Done? && RunMerges(table, SqlServerUpsert(SqlServerRows(data), columns, keys, ignore)) == pg
  }

  ghost predicate AlwaysAgree(data: seq<Input>, arrayColumns: set<string>, columns: seq<string>, keys: seq<string>,
    ignore: bool)
  {
    forall table :: Unique(table, keys) ==> AgreeFrom(table, data, arrayColumns, columns, keys, ignore)
  }

  /** Neither dialect refuses the statement: `p` are the rows as Postgres writes them. */
  ghost predicate NeitherRefuses(p: Rows, columns: seq<string>, keys: seq<string>, ignore: bool) {
    && columns != [] && HasKeyColumns(columns, keys)
    && (ignore || (NonConflict(columns, keys) != [] && DistinctKeys(p, keys)))
  }

  /** The tables both dialects leave behind, when neither refuses. */
  lemma Outcomes(table: Rows, data: seq<Input>, arrayColumns: set<string>, columns: seq<string>, keys: seq<string>,
    ignore: bool)
    requires Unique(table, keys) && data != []
    ensures var p, s := Bound(PostgresRows(data, arrayColumns), columns), Bound(SqlServerRows(data), columns);
      var pg := RunOnConflict(table, PostgresUpsert(PostgresRows(data, arrayColumns), columns, keys, ignore));
      var ss := RunMerges(table, SqlServerUpsert(SqlServerRows(data), columns, keys, ignore));
      && (pg.Done? && ss.Done? <==> NeitherRefuses(p, columns, keys, ignore))
      && (pg.Done? && ss.Done? ==>
        && ss.table == MergeRows(table, s, keys, MergeUpdate(columns, keys, ignore))
        && pg.table ==
          if ignore then DoNothing(table, p, keys)
          else MergeRows(table, p, keys, Some(NonConflict(columns, keys))))
  {
    var pgRows, ssRows := PostgresRows(data, arrayColumns), SqlServerRows(data);
    SourceIsBound(pgRows, columns, keys, ignore);
    SourceIsBound(ssRows, columns, keys, ignore);
    PostgresRefusesExactly(table, pgRows, columns, keys, ignore);
    SqlServerRefusesExactly(table, ssRows, columns, keys, ignore);
    if NeitherRefuses(Bound(pgRows, columns), columns, keys, ignore) {
      RunMergesIsMergeRows(table, ssRows, columns, keys, ignore);
      if !ignore {
        NonConflictAvoidsKeys(columns, keys);
        DoUpdateIsMerge(table, {}, Bound(pgRows, columns), keys, NonConflict(columns, keys));
      }
    }
  }

  /** Some row with an array is written although no earlier row has its key. */
  ghost predicate WritesArray(p: Rows, keys: seq<string>, ignore: bool) {
    exists i :: 0 <= i < |p| && HasElements(p[i]) && !(ignore && Repeats(p, i, keys))
  }

  /** Written into an empty table, such a row is found there. */
  lemma ArrayIsWritten(p: Rows, i: nat, keys: seq<string>, ignore: bool, update: Option<seq<string>>)
    requires i < |p| && !(ignore && Repeats(p, i, keys)) && (ignore || DistinctKeys(p, keys))
    ensures p[i] in if ignore then DoNothing([], p, keys) else MergeRows([], p, keys, update)
  {
    if ignore {
      FirstIsInserted([], p, i, keys);
    } else {
      AllInserted([], p, keys, update);
      assert [] + p == p;
    }
  }

  lemma ArrayIsSeen(data: seq<Input>, arrayColumns: set<string>, columns: seq<string>, keys: seq<string>, ignore: bool)
    requires data != [] && NeitherRefuses(Bound(PostgresRows(data, arrayColumns), columns), columns, keys, ignore)
    requires WritesArray(Bound(PostgresRows(data, arrayColumns), columns), keys, ignore)
    ensures !AgreeFrom([], data, arrayColumns, columns, keys, ignore)
  {
    var p, s := Bound(PostgresRows(data, arrayColumns), columns), Bound(SqlServerRows(data), columns);
    Outcomes([], data, arrayColumns, columns, keys, ignore);
    BoundAreWritten(data, columns, arrayColumns);
    MergedWithoutElements([], s, keys, MergeUpdate(columns, keys, ignore));
    var i :| 0 <= i < |p| && HasElements(p[i]) && !(ignore && Repeats(p, i, keys));
    ArrayIsWritten(p, i, keys, ignore, Some(NonConflict(columns, keys)));
  }

  lemma AgreeWithoutArray(table: Rows, data: seq<Input>, arrayColumns: set<string>, columns: seq<string>,
    keys: seq<string>, ignore: bool)
    requires Unique(table, keys) && data != []
    requires NeitherRefuses(Bound(PostgresRows(data, arrayColumns), columns), columns, keys, ignore)
    requires !WritesArray(Bound(PostgresRows(data, arrayColumns), columns), keys, ignore)
    ensures AgreeFrom(table, data, arrayColumns, columns, keys, ignore)
  {
    var p, s := Bound(PostgresRows(data, arrayColumns), columns), Bound(SqlServerRows(data), columns);
    Outcomes(table, data, arrayColumns, columns, keys, ignore);
    BoundAreWritten(data, columns, arrayColumns);
    if ignore {
      OnlyRepeatsDiffer(table, p, s, keys);
      DoNothingIsMerge(table, s, keys);
    } else {
      forall i | 0 <= i < |p| ensures p[i] == s[i] { SameWithoutElements(p, s, i); }
      assert p == s;
    }
  }

  lemma WritesArrayExactly(data: seq<Input>, p: Rows, arrayColumns: set<string>, columns: seq<string>,
    keys: seq<string>, ignore: bool)
    requires p == Bound(PostgresRows(data, arrayColumns), columns)
    ensures WritesArray(p, keys, ignore) <==>
      exists i :: 0 <= i < |data| && HoldsArray(data[i], columns, arrayColumns) && !(ignore && Repeats(p, i, keys))
  {
    BoundAreWritten(data, columns, arrayColumns);
  }

  /**
   From every table with a unique key both dialects leave the same table exactly when neither refuses the data and
   no row holds an array for an array column it writes. When duplicates are ignored, such a row does no harm if an
   earlier row has its key.
   */
  lemma UpsertsMeanTheSameExactly(data: seq<Input>, arrayColumns: set<string>, columns: seq<string>, keys: seq<string>,
    ignore: bool)
    requires data != []
    ensures var p := Bound(PostgresRows(data, arrayColumns), columns);
      AlwaysAgree(data, arrayColumns, columns, keys, ignore) <==>
        && NeitherRefuses(p, columns, keys, ignore)
        && forall i :: 0 <= i < |data| && HoldsArray(data[i], columns, arrayColumns) ==> ignore && Repeats(p, i, keys)
  {
    var p := Bound(PostgresRows(data, arrayColumns), columns);
    Outcomes([], data, arrayColumns, columns, keys, ignore);
    assert Unique([], keys);
    WritesArrayExactly(data, p, arrayColumns, columns, keys, ignore);
    if NeitherRefuses(p, columns, keys, ignore) {
      if WritesArray(p, keys, ignore) {
        ArrayIsSeen(data, arrayColumns, columns, keys, ignore);
      } else {
        forall table | Unique(table, keys) ensures AgreeFrom(table, data, arrayColumns, columns, keys, ignore) {
          AgreeWithoutArray(table, data, arrayColumns, columns, keys, ignore);
        }
      }
    }
  }

  /** One new row with an array: neither dialect refuses it, and the tables differ. */
  lemma ArrayColumnDiffers(data: seq<Input>, columns: seq<string>, ignore: bool)
    requires data == [map["id" := Plain(Int(1)), "tags" := Composite(true, "[]")]] && columns == ["id", "tags"]
    ensures NeitherRefuses(Bound(PostgresRows(data, {"tags"}), columns), columns, ["id"], ignore)
    ensures !AgreeFrom([], data, {"tags"}, columns, ["id"], ignore)
  {
    var p := Bound(PostgresRows(data, {"tags"}), columns);
    assert columns == [columns[0]] + ["tags"] && columns[0] == "id" && columns[1] == "tags";
    assert NonConflict(columns, ["id"]) == ["tags"] by {
      assert columns[..1] == ["id"] && NonConflict(columns[..1], ["id"]) == NonConflict([], ["id"]) + [];
    }
    assert HoldsArray(data[0], columns, {"tags"});
    WritesArrayExactly(data, p, {"tags"}, columns, ["id"], ignore);
    assert !Repeats(p, 0, ["id"]);
    ArrayIsSeen(data, {"tags"}, columns, ["id"], ignore);
  }
}
