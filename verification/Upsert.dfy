/**
 Upserts: one multi-row INSERT ... ON CONFLICT in Postgres, one MERGE per row in SQL Server. A table is
 the list of its rows; the conflict columns form a unique key, in which null matches nothing.
 */
module Upsert {
  import opened Wrappers
  import opened Strings
  import opened Sql

  type Rows = seq<Row>

  /** INSERT INTO ... VALUES ... ON CONFLICT (keys) DO NOTHING, or DO UPDATE SET each column from EXCLUDED. */
  datatype OnConflict<P> = OnConflict(columns: seq<string>, values: seq<seq<P>>, keys: seq<string>,
    update: Option<seq<string>>)

  /** MERGE of one source row, with or without a WHEN MATCHED THEN UPDATE of the given columns. */
  datatype Merge<P> = Merge(columns: seq<string>, values: seq<P>, keys: seq<string>, update: Option<seq<string>>)

  datatype Outcome = Done(table: Rows) | Rejected

  // ---- values on their way to a column ----

  /** No JavaScript value but an array becomes an array column's value. */
  type Scalar = d: Datum | !d.Elements? witness Null

  /** A value as the caller gives it: a plain one, or an object or array, known by its JSON text. */
  datatype Value = Plain(scalar: Scalar) | Composite(isArray: bool, json: string)

  type Input = map<string, Value>

  /** Postgres takes an array as it is in an array column, and any other object or array as JSON text. */
  function WritePostgres(column: string, v: Value, arrayColumns: set<string>): Datum {
    match v
    case Plain(scalar) => scalar
    case Composite(isArray, json) => if isArray && column in arrayColumns then Elements(json) else Text(json)
  }

  function WriteSqlServer(v: Value): Datum {
    match v case Plain(scalar) => scalar case Composite(_, json) => Text(json)
  }

  function PostgresRow(row: Input, arrayColumns: set<string>): Row {
    map c | c in row :: WritePostgres(c, row[c], arrayColumns)
  }

  function PostgresRows(data: seq<Input>, arrayColumns: set<string>): Rows {
    seq(|data|, i requires 0 <= i < |data| => PostgresRow(data[i], arrayColumns))
  }

  function SqlServerRow(row: Input): Row {
    map c | c in row :: WriteSqlServer(row[c])
  }

  function SqlServerRows(data: seq<Input>): Rows {
    seq(|data|, i requires 0 <= i < |data| => SqlServerRow(data[i]))
  }

  /** Both dialects write the same rows exactly when no array stands in an array column. */
  lemma WritesAgreeExactly(data: seq<Input>, arrayColumns: set<string>)
    ensures PostgresRows(data, arrayColumns) == SqlServerRows(data) <==>
      forall i, c :: 0 <= i < |data| && c in data[i] && c in arrayColumns ==> data[i][c].Plain? || !data[i][c].isArray
  {
    var pg, ss := PostgresRows(data, arrayColumns), SqlServerRows(data);
    if pg == ss {
      forall i, c | 0 <= i < |data| && c in data[i] && c in arrayColumns
        ensures data[i][c].Plain? || !data[i][c].isArray
      {
        assert pg[i][c] == ss[i][c];
      }
    } else {
      var i :| 0 <= i < |data| && pg[i] != ss[i];
      assert exists c :: c in data[i] && pg[i][c] != ss[i][c];
    }
  }

  // ---- tables ----

  /** The row a list of columns and values describes. */
  function SourceRow(columns: seq<string>, values: seq<Datum>): Row
    requires |values| == |columns|
  {
    if columns == [] then map[]
    else SourceRow(columns[..|columns| - 1], values[..|columns| - 1])[columns[|columns| - 1] := values[|columns| - 1]]
  }

  /** Both rows have a value in every key column, and the same one. */
  predicate SameKey(a: Row, b: Row, keys: seq<string>) {
    forall i :: 0 <= i < |keys| ==> Column(a, keys[i]) != Null && Column(a, keys[i]) == Column(b, keys[i])
  }

  /** The key columns carry a unique index. */
  predicate Unique(table: Rows, keys: seq<string>) {
    forall i, j :: 0 <= i < j < |table| ==> !SameKey(table[i], table[j], keys)
  }

  function Match(table: Rows, row: Row, keys: seq<string>): (r: Option<nat>)
    ensures r.Some? ==> r.value < |table| && SameKey(table[r.value], row, keys)
    ensures r.None? ==> forall i :: 0 <= i < |table| ==> !SameKey(table[i], row, keys)
  {
    if table == [] then None
    else if SameKey(table[|table| - 1], row, keys) then Some(|table| - 1)
    else Match(table[..|table| - 1], row, keys)
  }

  /** The target row with the given columns taken from the source. */
  function Updated(target: Row, source: Row, cols: seq<string>): Row {
    target + map c | c in cols :: Column(source, c)
  }

  // ---- Postgres ----

  function DoNothing(table: Rows, source: Rows, keys: seq<string>): Rows
    decreases |source|
  {
    if source == [] then table
    else if Match(table, source[0], keys).Some? then DoNothing(table, source[1..], keys)
    else DoNothing(table + [source[0]], source[1..], keys)
  }

  /** A statement may not touch a row twice: `touched` are the rows it already inserted or updated. */
  function DoUpdate(table: Rows, touched: set<nat>, source: Rows, keys: seq<string>, cols: seq<string>): Outcome
    decreases |source|
  {
    if source == [] then Done(table)
    else match Match(table, source[0], keys)
      case None => DoUpdate(table + [source[0]], touched + {|table|}, source[1..], keys, cols)
      case Some(i) =>
        if i in touched then Rejected
        else DoUpdate(table[i := Updated(table[i], source[0], cols)], touched + {i}, source[1..], keys, cols)
  }

  predicate WellFormedInsert<P>(s: OnConflict<P>) {
    forall i :: 0 <= i < |s.values| ==> |s.values[i]| == |s.columns|
  }

  function Source(s: OnConflict<Datum>): Rows
    requires WellFormedInsert(s)
  {
    seq(|s.values|, i requires 0 <= i < |s.values| => SourceRow(s.columns, s.values[i]))
  }

  /** An empty column list and an empty SET list are syntax errors. */
  function RunOnConflict(table: Rows, s: OnConflict<Datum>): Outcome
    requires WellFormedInsert(s)
  {
    if s.columns == [] then Rejected
    else match s.update
    case None => Done(DoNothing(table, Source(s), s.keys))
    case Some(cols) => if cols == [] then Rejected else DoUpdate(table, {}, Source(s), s.keys, cols)
  }

  // ---- SQL Server ----

  predicate WellFormedMerge<P>(m: Merge<P>) {
    |m.values| == |m.columns|
  }

  function MergeRow(table: Rows, source: Row, keys: seq<string>, update: Option<seq<string>>): Rows {
    if Match(table, source, keys).None? then table + [source]
    else match update
      case None => table
      case Some(cols) =>
        seq(|table|, i requires 0 <= i < |table| =>
          if SameKey(table[i], source, keys) then Updated(table[i], source, cols) else table[i])
  }

  predicate HasKeyColumns(columns: seq<string>, keys: seq<string>) {
    forall i :: 0 <= i < |keys| ==> keys[i] in columns
  }

  /** The source has columns, and the ON clause may only name those. */
  function RunMerge(table: Rows, m: Merge<Datum>): Outcome
    requires WellFormedMerge(m)
  {
    if m.columns != [] && HasKeyColumns(m.columns, m.keys)
    then Done(MergeRow(table, SourceRow(m.columns, m.values), m.keys, m.update))
    else Rejected
  }

  function RunMerges(table: Rows, ms: seq<Merge<Datum>>): Outcome
    requires forall i :: 0 <= i < |ms| ==> WellFormedMerge(ms[i])
    decreases |ms|
  {
    if ms == [] then Done(table)
    else match RunMerge(table, ms[0])
      case Rejected => Rejected
      case Done(t) => RunMerges(t, ms[1..])
  }

  // ---- what the builders write, with the values in place ----

  /** The conflict columns: those named, or `id`. */
  function ConflictColumns(onConflict: Option<string>): seq<string> {
    match onConflict
    case None => ["id"]
    case Some(list) =>
      if list == "" then ["id"] else
        var parts := Split(list, ",");
        seq(|parts|, i requires 0 <= i < |parts| => Trim(parts[i]))
  }

  function NonConflict(columns: seq<string>, keys: seq<string>): seq<string> {
    if columns == [] then [] else
      var front, last := columns[..|columns| - 1], columns[|columns| - 1];
      NonConflict(front, keys) + if last in keys then [] else [last]
  }

  function ValuesOf(row: Row, columns: seq<string>): seq<Datum> {
    seq(|columns|, i requires 0 <= i < |columns| => Column(row, columns[i]))
  }

  function PostgresUpsert(data: Rows, columns: seq<string>, keys: seq<string>, ignore: bool): OnConflict<Datum> {
    OnConflict(columns, seq(|data|, i requires 0 <= i < |data| => ValuesOf(data[i], columns)), keys,
      if ignore then None else Some(NonConflict(columns, keys)))
  }

  function MergeUpdate(columns: seq<string>, keys: seq<string>, ignore: bool): Option<seq<string>> {
    if ignore || NonConflict(columns, keys) == [] then None else Some(NonConflict(columns, keys))
  }

  function SqlServerUpsert(data: Rows, columns: seq<string>, keys: seq<string>, ignore: bool): seq<Merge<Datum>> {
    seq(|data|, i requires 0 <= i < |data| =>
      Merge(columns, ValuesOf(data[i], columns), keys, MergeUpdate(columns, keys, ignore)))
  }

  // ---- placeholders ----

  /** `columns` are the first row's keys, each once, as Object.keys lists them. */
  ghost predicate ListsKeys(columns: seq<string>, data: seq<Input>) {
    data != [] && (set c | c in columns) == data[0].Keys && |columns| == |data[0].Keys|
  }

  predicate BoundTo<P(==)>(ps: seq<P>, env: map<P, Datum>, values: seq<Datum>) {
    |ps| == |values| && forall i :: 0 <= i < |ps| ==> ps[i] in env && env[ps[i]] == values[i]
  }

  lemma BoundToStable<P>(ps: seq<P>, env: map<P, Datum>, env': map<P, Datum>, values: seq<Datum>)
    requires BoundTo(ps, env, values) && Extends(env, env')
    ensures BoundTo(ps, env', values)
  {
  }

  /** The statement with placeholders says the same as the one with the values in place. */
  predicate InsertBoundTo<P(==)>(s: OnConflict<P>, env: map<P, Datum>, bound: OnConflict<Datum>) {
    && s.columns == bound.columns && s.keys == bound.keys && s.update == bound.update
    && |s.values| == |bound.values|
    && forall i :: 0 <= i < |s.values| ==> BoundTo(s.values[i], env, bound.values[i])
  }

  predicate MergeBoundTo<P(==)>(m: Merge<P>, env: map<P, Datum>, bound: Merge<Datum>) {
    m.columns == bound.columns && m.keys == bound.keys && m.update == bound.update
      && BoundTo(m.values, env, bound.values)
  }

  // ---- equivalence ----

  function MergeRows(table: Rows, source: Rows, keys: seq<string>, update: Option<seq<string>>): Rows
    decreases |source|
  {
    if source == [] then table else MergeRows(MergeRow(table, source[0], keys, update), source[1..], keys, update)
  }

  lemma {:induction false} RunMergesIsMergeRows(table: Rows, data: Rows, columns: seq<string>, keys: seq<string>,
    ignore: bool)
    requires columns != [] && HasKeyColumns(columns, keys)
    ensures RunMerges(table, SqlServerUpsert(data, columns, keys, ignore))
      == Done(MergeRows(table, Source(PostgresUpsert(data, columns, keys, ignore)), keys,
        MergeUpdate(columns, keys, ignore)))
    decreases |data|
  {
    var ms, source := SqlServerUpsert(data, columns, keys, ignore), Source(PostgresUpsert(data, columns, keys, ignore));
    if data != [] {
      assert ms[1..] == SqlServerUpsert(data[1..], columns, keys, ignore);
      assert source[1..] == Source(PostgresUpsert(data[1..], columns, keys, ignore));
      RunMergesIsMergeRows(MergeRow(table, source[0], keys, MergeUpdate(columns, keys, ignore)), data[1..], columns,
        keys, ignore);
    }
  }

  lemma SameKeyTransfers(a: Row, b: Row, c: Row, keys: seq<string>)
    requires SameKey(a, b, keys) && SameKey(b, c, keys)
    ensures SameKey(a, c, keys) && SameKey(b, a, keys)
  {
  }

  lemma {:induction false} NonConflictAvoidsKeys(columns: seq<string>, keys: seq<string>)
    ensures forall c :: c in NonConflict(columns, keys) ==> c !in keys
  {
    if columns != [] { NonConflictAvoidsKeys(columns[..|columns| - 1], keys); }
  }

  predicate AvoidsKeys(cols: seq<string>, keys: seq<string>) {
    forall c :: c in cols ==> c !in keys
  }

  /** Updating non-key columns keeps every key comparison. */
  lemma UpdatedKeepsKey(target: Row, source: Row, other: Row, cols: seq<string>, keys: seq<string>)
    requires AvoidsKeys(cols, keys)
    ensures SameKey(Updated(target, source, cols), other, keys) <==> SameKey(target, other, keys)
    ensures SameKey(other, Updated(target, source, cols), keys) <==> SameKey(other, target, keys)
  {
    var u := Updated(target, source, cols);
    assert forall i :: 0 <= i < |keys| ==> Column(u, keys[i]) == Column(target, keys[i]);
  }

  lemma InsertKeepsUnique(table: Rows, row: Row, keys: seq<string>)
    requires Unique(table, keys) && Match(table, row, keys).None?
    ensures Unique(table + [row], keys)
  {
  }

  lemma UpdateKeepsUnique(table: Rows, i: nat, source: Row, cols: seq<string>, keys: seq<string>)
    requires Unique(table, keys) && i < |table| && AvoidsKeys(cols, keys)
    ensures Unique(table[i := Updated(table[i], source, cols)], keys)
  {
    forall j | 0 <= j < |table| ensures j < i ==> !SameKey(table[j], Updated(table[i], source, cols), keys)
                                ensures i < j ==> !SameKey(Updated(table[i], source, cols), table[j], keys) {
      UpdatedKeepsKey(table[i], source, table[j], cols, keys);
    }
  }

  lemma OnlyMatch(table: Rows, row: Row, keys: seq<string>, i: nat, j: nat)
    requires Unique(table, keys) && i < |table| && j < |table|
    requires SameKey(table[i], row, keys) && SameKey(table[j], row, keys)
    ensures i == j
  {
    if i != j {
      SameKeyTransfers(table[i], row, table[j], keys) by { assert SameKey(row, table[j], keys); }
      SameKeyTransfers(table[j], row, table[i], keys) by { assert SameKey(row, table[i], keys); }
    }
  }

  lemma MergeRowAtMatch(table: Rows, row: Row, keys: seq<string>, cols: seq<string>)
    requires Unique(table, keys) && Match(table, row, keys).Some?
    ensures var i := Match(table, row, keys).value;
      MergeRow(table, row, keys, Some(cols)) == table[i := Updated(table[i], row, cols)]
  {
    var i := Match(table, row, keys).value;
    forall j | 0 <= j < |table| && SameKey(table[j], row, keys) ensures j == i { OnlyMatch(table, row, keys, i, j); }
  }

  lemma {:induction false} DoNothingIsMerge(table: Rows, source: Rows, keys: seq<string>)
    ensures DoNothing(table, source, keys) == MergeRows(table, source, keys, None)
    decreases |source|
  {
    if source != [] { DoNothingIsMerge(MergeRow(table, source[0], keys, None), source[1..], keys); }
  }

  predicate DistinctKeys(source: Rows, keys: seq<string>) {
    forall i, j :: 0 <= i < j < |source| ==> !SameKey(source[i], source[j], keys)
  }

  /** Some row still to come has the key of a row already touched, or of an earlier one still to come. */
  predicate Collides(table: Rows, touched: set<nat>, source: Rows, keys: seq<string>) {
    || !DistinctKeys(source, keys)
    || exists i, j :: i in touched && i < |table| && 0 <= j < |source| && SameKey(table[i], source[j], keys)
  }

  predicate InTable(touched: set<nat>, table: Rows) {
    forall i :: i in touched ==> i < |table|
  }

  lemma CollisionStaysAfterInsert(table: Rows, touched: set<nat>, source: Rows, keys: seq<string>)
    requires source != [] && Match(table, source[0], keys).None? && Collides(table, touched, source, keys)
    ensures Collides(table + [source[0]], touched + {|table|}, source[1..], keys)
  {
    var table', rest := table + [source[0]], source[1..];
    if !DistinctKeys(source, keys) {
      var i, j :| 0 <= i < j < |source| && SameKey(source[i], source[j], keys);
      if i == 0 {
        assert SameKey(table'[|table|], rest[j - 1], keys);
      } else {
        assert SameKey(rest[i - 1], rest[j - 1], keys);
      }
    } else {
      var i, j :| i in touched && i < |table| && 0 <= j < |source| && SameKey(table[i], source[j], keys);
      assert j > 0 && SameKey(table'[i], rest[j - 1], keys);
    }
  }

  lemma CollisionIsOldBeforeInsert(table: Rows, touched: set<nat>, source: Rows, keys: seq<string>)
    requires source != [] && InTable(touched, table)
      && Collides(table + [source[0]], touched + {|table|}, source[1..], keys)
    ensures Collides(table, touched, source, keys)
  {
    var table', touched', rest := table + [source[0]], touched + {|table|}, source[1..];
    if !DistinctKeys(rest, keys) {
      var i, j :| 0 <= i < j < |rest| && SameKey(rest[i], rest[j], keys);
      assert SameKey(source[i + 1], source[j + 1], keys);
    } else {
      var i, j :| i in touched' && i < |table'| && 0 <= j < |rest| && SameKey(table'[i], rest[j], keys);
      if i == |table| {
        assert SameKey(source[0], source[j + 1], keys);
      } else {
        assert SameKey(table[i], source[j + 1], keys);
      }
    }
  }

  /** After an insert, the rows to come collide exactly when they did before. */
  lemma CollidesAfterInsert(table: Rows, touched: set<nat>, source: Rows, keys: seq<string>)
    requires source != [] && Match(table, source[0], keys).None? && InTable(touched, table)
    ensures Collides(table + [source[0]], touched + {|table|}, source[1..], keys) <==>
      Collides(table, touched, source, keys)
  {
    if Collides(table, touched, source, keys) { CollisionStaysAfterInsert(table, touched, source, keys); }
    if Collides(table + [source[0]], touched + {|table|}, source[1..], keys) {
      CollisionIsOldBeforeInsert(table, touched, source, keys);
    }
  }

  /** The two tables compare alike with every row to come, and row `m` has the key of the first of them. */
  ghost predicate SameView(table: Rows, table': Rows, source: Rows, keys: seq<string>, m: nat) {
    && |table'| == |table| && m < |table| && source != []
    && (forall i, j :: 0 <= i < |table| && 0 <= j < |source| ==>
      (SameKey(table'[i], source[j], keys) <==> SameKey(table[i], source[j], keys)))
    && (forall j :: 0 <= j < |source| ==>
      (SameKey(table'[m], source[j], keys) <==> SameKey(source[0], source[j], keys)))
  }

  lemma UpdatedSameView(table: Rows, source: Rows, keys: seq<string>, cols: seq<string>, m: nat)
    requires source != [] && Match(table, source[0], keys) == Some(m) && AvoidsKeys(cols, keys)
    ensures SameView(table, table[m := Updated(table[m], source[0], cols)], source, keys, m)
  {
    forall j | 0 <= j < |source| {
      UpdatedKeepsKey(table[m], source[0], source[j], cols, keys);
    }
  }

  lemma CollisionStays(table: Rows, table': Rows, touched: set<nat>, source: Rows, keys: seq<string>, m: nat)
    requires SameView(table, table', source, keys, m) && m !in touched && Unique(table, keys)
    requires SameKey(table[m], source[0], keys) && Collides(table, touched, source, keys)
    ensures Collides(table', touched + {m}, source[1..], keys)
  {
    var rest := source[1..];
    if !DistinctKeys(source, keys) {
      var i, j :| 0 <= i < j < |source| && SameKey(source[i], source[j], keys);
      if i == 0 {
        assert SameKey(table'[m], rest[j - 1], keys);
      } else {
        assert SameKey(rest[i - 1], rest[j - 1], keys);
      }
    } else {
      var i, j :| i in touched && i < |table| && 0 <= j < |source| && SameKey(table[i], source[j], keys);
      if j == 0 { OnlyMatch(table, source[0], keys, i, m); }
      assert SameKey(table'[i], rest[j - 1], keys);
    }
  }

  lemma CollisionIsOld(table: Rows, table': Rows, touched: set<nat>, source: Rows, keys: seq<string>, m: nat)
    requires SameView(table, table', source, keys, m) && Collides(table', touched + {m}, source[1..], keys)
    ensures Collides(table, touched, source, keys)
  {
    var rest := source[1..];
    if !DistinctKeys(rest, keys) {
      var i, j :| 0 <= i < j < |rest| && SameKey(rest[i], rest[j], keys);
      assert SameKey(source[i + 1], source[j + 1], keys);
    } else {
      var i, j :| i in touched + {m} && i < |table'| && 0 <= j < |rest| && SameKey(table'[i], rest[j], keys);
      assert rest[j] == source[j + 1];
      if i == m {
        assert SameKey(source[0], source[j + 1], keys);
      } else {
        assert SameKey(table[i], source[j + 1], keys);
      }
    }
  }

  /** The same after an update of a row not touched before. */
  lemma CollidesAfterUpdate(table: Rows, touched: set<nat>, source: Rows, keys: seq<string>, cols: seq<string>, m: nat)
    requires source != [] && Match(table, source[0], keys) == Some(m) && m !in touched
    requires Unique(table, keys) && AvoidsKeys(cols, keys)
    ensures Collides(table[m := Updated(table[m], source[0], cols)], touched + {m}, source[1..], keys)
      <==> Collides(table, touched, source, keys)
  {
    var table' := table[m := Updated(table[m], source[0], cols)];
    UpdatedSameView(table, source, keys, cols, m);
    if Collides(table, touched, source, keys) { CollisionStays(table, table', touched, source, keys, m); }
    if Collides(table', touched + {m}, source[1..], keys) { CollisionIsOld(table, table', touched, source, keys, m); }
  }

  /** ON CONFLICT DO UPDATE is refused exactly on a collision, and is the sequence of MERGEs otherwise. */
  lemma {:induction false} DoUpdateIsMerge(table: Rows, touched: set<nat>, source: Rows, keys: seq<string>,
    cols: seq<string>)
    requires Unique(table, keys) && AvoidsKeys(cols, keys) && InTable(touched, table)
    ensures DoUpdate(table, touched, source, keys, cols)
      == if Collides(table, touched, source, keys) then Rejected else Done(MergeRows(table, source, keys, Some(cols)))
    decreases |source|
  {
    if source != [] {
      match Match(table, source[0], keys)
      case None =>
        InsertKeepsUnique(table, source[0], keys);
        CollidesAfterInsert(table, touched, source, keys);
        DoUpdateIsMerge(table + [source[0]], touched + {|table|}, source[1..], keys, cols);
      case Some(m) =>
        if m in touched {
          assert SameKey(table[m], source[0], keys);
        } else {
          UpdateKeepsUnique(table, m, source[0], cols, keys);
          CollidesAfterUpdate(table, touched, source, keys, cols, m);
          MergeRowAtMatch(table, source[0], keys, cols);
          DoUpdateIsMerge(table[m := Updated(table[m], source[0], cols)], touched + {m}, source[1..], keys, cols);
        }
    }
  }

  /**
   Postgres refuses the statement exactly when the data has no column, or when duplicates are not ignored and there is
   no other column to update or two rows of the data have the same key. A missing conflict column is a null key, which
   matches nothing.
   */
  lemma PostgresRefusesExactly(table: Rows, data: Rows, columns: seq<string>, keys: seq<string>, ignore: bool)
    requires Unique(table, keys)
    ensures RunOnConflict(table, PostgresUpsert(data, columns, keys, ignore)).Rejected? <==>
      columns == [] || (!ignore && (NonConflict(columns, keys) == []
        || !DistinctKeys(Source(PostgresUpsert(data, columns, keys, ignore)), keys)))
  {
    if !ignore {
      NonConflictAvoidsKeys(columns, keys);
      DoUpdateIsMerge(table, {}, Source(PostgresUpsert(data, columns, keys, ignore)), keys, NonConflict(columns, keys));
    }
  }

  /**
   SQL Server refuses the statements exactly when the data has no column, or lacks a conflict column, which each MERGE
   names.
   */
  lemma SqlServerRefusesExactly(table: Rows, data: Rows, columns: seq<string>, keys: seq<string>, ignore: bool)
    requires data != []
    ensures RunMerges(table, SqlServerUpsert(data, columns, keys, ignore)).Rejected? <==>
      columns == [] || exists key :: key in keys && key !in columns
  {
    assert HasKeyColumns(columns, keys) <==> forall key :: key in keys ==> key in columns;
    if columns != [] && HasKeyColumns(columns, keys) { RunMergesIsMergeRows(table, data, columns, keys, ignore); }
  }

  /** Both dialects upsert to the same table exactly when neither refuses. */
  lemma UpsertsAgreeExactly(table: Rows, data: Rows, columns: seq<string>, keys: seq<string>, ignore: bool)
    requires Unique(table, keys) && data != []
    ensures var pg, ss := RunOnConflict(table, PostgresUpsert(data, columns, keys, ignore)),
                          RunMerges(table, SqlServerUpsert(data, columns, keys, ignore));
      (pg.Done? && ss == pg) <==>
        && columns != [] && HasKeyColumns(columns, keys)
        && (ignore || (NonConflict(columns, keys) != []
                       && DistinctKeys(Source(PostgresUpsert(data, columns, keys, ignore)), keys)))
  {
    var source := Source(PostgresUpsert(data, columns, keys, ignore));
    PostgresRefusesExactly(table, data, columns, keys, ignore);
    SqlServerRefusesExactly(table, data, columns, keys, ignore);
    if columns != [] && HasKeyColumns(columns, keys) {
      RunMergesIsMergeRows(table, data, columns, keys, ignore);
      if ignore {
        DoNothingIsMerge(table, source, keys);
      } else {
        NonConflictAvoidsKeys(columns, keys);
        DoUpdateIsMerge(table, {}, source, keys, NonConflict(columns, keys));
      }
    }
  }
}
