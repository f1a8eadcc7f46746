/** The Postgres query builder: conditions over positional placeholders, numbered from 1. */
module PostgresBuilder {
  import opened Wrappers
  import opened Strings
  import opened Sql
  import opened Dialects
  import Upsert

  /** What `$1`, `$2`, ... stand for. */
  function Positions(params: seq<Datum>): map<nat, Datum> {
    map n: nat | 1 <= n <= |params| :: ParamAt(params, n)
  }

  function ParamAt(params: seq<Datum>, n: nat): Datum
    requires 1 <= n <= |params|
  {
    params[n - 1]
  }

  /** UPDATE: the columns set and their placeholders, and the conditions. */
  datatype Update = Update(sets: seq<(string, nat)>, conditions: seq<Cond<nat>>)

  class Builder {
    var conditions: seq<Cond<nat>>
    var params: seq<Datum>

    ghost predicate Valid()
      reads this
    {
      WhereResolves(conditions, Positions(params))
    }

    /** The conditions so far, with their parameters in place. */
    ghost function Where(): seq<Cond<Datum>>
      requires Valid()
      reads this
    {
      BindWhere(conditions, Positions(params))
    }

    constructor ()
      ensures Valid() && Where() == [] && params == []
    {
      conditions, params := [], [];
    }

    method NextParam(value: Datum) returns (p: nat)
      modifies this`params
      ensures params == old(params) + [value] && p == |params|
    {
      params := params + [value];
      return |params|;
    }

    method NextParams(values: seq<Datum>) returns (ps: seq<nat>)
      modifies this`params
      ensures params == old(params) + values
      ensures |ps| == |values| && forall i :: 0 <= i < |ps| ==> ps[i] == |old(params)| + 1 + i
    {
      ps := [];
      for i := 0 to |values|
        invariant params == old(params) + values[..i]
        invariant |ps| == i && forall k :: 0 <= k < i ==> ps[k] == |old(params)| + 1 + k
      {
        var p := NextParam(values[i]);
        ps := ps + [p];
      }
    }

    /** Push a condition whose parameters were just bound. */
    method PushCondition(c: Cond<nat>, ghost before: seq<Datum>)
      requires before <= params && WhereResolves(conditions, Positions(before)) && CondResolves(c, Positions(params))
      modifies this`conditions
      ensures Valid() && Where() == BindWhere(old(conditions), Positions(before)) + [BindCond(c, Positions(params))]
    {
      BindWhereSnoc(conditions, c, Positions(before), Positions(params));
      conditions := conditions + [c];
    }

    method Compared(col: string, op: Op, value: Datum)
      requires Valid()
      modifies this
      ensures Valid() && Where() == old(Where()) + [One(Compare(col, op, value))]
      ensures params == old(params) + [value]
    {
      ghost var before := params;
      var p := NextParam(value);
      PushCondition(One(Compare(col, op, p)), before);
    }

    method IsNullTest(col: string)
      requires Valid()
      modifies this`conditions
      ensures Valid() && Where() == old(Where()) + [One(IsNull(col))]
    {
      PushCondition(One(IsNull(col)), params);
    }

    method Eq(col: string, value: Datum)
      requires Valid()
      modifies this
      ensures Valid() && Where() == old(Where()) + Conds(Postgres, CallEq(col, value))
      ensures old(params) <= params
    {
      if value == Null { IsNullTest(col); } else { Compared(col, Op.Eq, value); }
    }

    method Neq(col: string, value: Datum)
      requires Valid()
      modifies this
      ensures Valid() && Where() == old(Where()) + Conds(Postgres, CallNeq(col, value))
      ensures old(params) <= params
    {
      if value == Null { PushCondition(One(IsNotNull(col)), params); } else { Compared(col, Op.Neq, value); }
    }

    /** gt, gte, lt, lte, like and ilike: one statement each, differing in the operator. */
    method Ordered(col: string, op: Op, value: Datum)
      requires Valid() && InScope(CallCompare(col, op, value))
      modifies this
      ensures Valid() && Where() == old(Where()) + Conds(Postgres, CallCompare(col, op, value))
      ensures old(params) <= params
    {
      Compared(col, op, value);
    }

    method In(col: string, values: seq<Datum>)
      requires Valid()
      modifies this
      ensures Valid() && Where() == old(Where()) + Conds(Postgres, CallIn(col, values))
      ensures old(params) <= params
    {
      if values == [] {
        PushCondition(One(Never), params);
        return;
      }
      ghost var before := params;
      var ps := NextParams(values);
      assert Lookup(ps, Positions(params)) == values;
      PushCondition(One(Test.In(col, ps)), before);
    }

    method Is(col: string)
      requires Valid()
      modifies this
      ensures Valid() && Where() == old(Where()) + Conds(Postgres, CallIsNull(col))
      ensures old(params) <= params
    {
      IsNullTest(col);
    }

    method NotCompared(col: string, op: Op, value: Datum)
      requires Valid()
      modifies this
      ensures Valid() && Where() == old(Where()) + [One(NotCompare(col, op, value))]
      ensures old(params) <= params
    {
      ghost var before := params;
      var p := NextParam(value);
      PushCondition(One(NotCompare(col, op, p)), before);
    }

    method NotInList(col: string, values: seq<Datum>)
      requires Valid()
      modifies this
      ensures Valid() && Where() == old(Where()) + [One(NotIn(col, values))]
      ensures old(params) <= params
    {
      ghost var before := params;
      var ps := NextParams(values);
      assert Lookup(ps, Positions(params)) == values;
      PushCondition(One(NotIn(col, ps)), before);
    }

    method Not(col: string, operator: string, arg: Arg)
      requires Valid() && InScope(CallNot(col, operator, arg))
      modifies this
      ensures Valid() && Where() == old(Where()) + Conds(Postgres, CallNot(col, operator, arg))
      ensures old(params) <= params
    {
      if operator == "is" {
        PushCondition(One(IsNotNull(col)), params);
      } else if operator == "eq" {
        NotCompared(col, Op.Eq, arg.value);
      } else if operator == "in" {
        if arg.values == [] { return; }
        NotInList(col, arg.values);
      } else {
        NotCompared(col, OperatorOf(operator), arg.value);
      }
    }

    /** One clause of a filter string; nothing for one the builder skips. */
    method FilterClauseToSql(c: Clause) returns (t: Option<Test<nat>>)
      modifies this`params
      ensures old(params) <= params
      ensures t.Some? <==> ClauseTest(Postgres, c).Some?
      ensures t.Some? ==>
        Resolves(t.value, Positions(params)) && Bind(t.value, Positions(params)) == ClauseTest(Postgres, c).value
    {
      match c.operator
      case "eq" =>
        if c.value == "null" { return Some(IsNull(c.column)); }
        if c.value == "true" { return Some(IsTruth(c.column, true)); }
        if c.value == "false" { return Some(IsTruth(c.column, false)); }
        var p := NextParam(Text(c.value));
        return Some(Compare(c.column, Op.Eq, p));
      case "neq" => var p := NextParam(Text(c.value)); return Some(Compare(c.column, Op.Neq, p));
      case "gt" => var p := NextParam(Text(c.value)); return Some(Compare(c.column, Gt, p));
      case "gte" => var p := NextParam(Text(c.value)); return Some(Compare(c.column, Gte, p));
      case "lt" => var p := NextParam(Text(c.value)); return Some(Compare(c.column, Lt, p));
      case "lte" => var p := NextParam(Text(c.value)); return Some(Compare(c.column, Lte, p));
      case "is" =>
        if c.value == "null" { return Some(IsNull(c.column)); }
        if c.value == "true" { return Some(IsTruth(c.column, true)); }
        if c.value == "false" { return Some(IsTruth(c.column, false)); }
        return None;
      case "like" => var p := NextParam(Text(c.value)); return Some(Compare(c.column, Like, p));
      case "ilike" => var p := NextParam(Text(c.value)); return Some(Compare(c.column, ILike, p));
      case _ => return None;
    }

    method OrPart(raw: string) returns (t: Option<Test<nat>>)
      modifies this`params
      ensures old(params) <= params
      ensures t.Some? <==> RawClauseTest(Postgres, raw).Some?
      ensures t.Some? ==>
        Resolves(t.value, Positions(params)) && Bind(t.value, Positions(params)) == RawClauseTest(Postgres, raw).value
    {
      var parsed := ParseFilterClause(Trim(raw));
      if parsed.None? { return None; }
      t := FilterClauseToSql(parsed.value);
    }

    /** The clauses of a filter string, each bound as it is read. */
    method OrParts(clauses: seq<string>) returns (parts: seq<Test<nat>>)
      modifies this`params
      ensures old(params) <= params
      ensures AllResolve(parts, Positions(params))
        && BindAll(parts, Positions(params)) == ClauseTests(Postgres, clauses)
    {
      parts := [];
      for i := 0 to |clauses|
        invariant old(params) <= params
        invariant AllResolve(parts, Positions(params))
        invariant BindAll(parts, Positions(params)) == ClauseTests(Postgres, clauses[..i])
      {
        assert clauses[..i + 1][..i] == clauses[..i];
        ghost var before := params;
        var t := OrPart(clauses[i]);
        BindAllStable(parts, Positions(before), Positions(params));
        if t.Some? {
          BindAllSnoc(parts, t.value, Positions(params));
          parts := parts + [t.value];
        }
      }
      assert clauses[..|clauses|] == clauses;
    }

    method Or(filters: string)
      requires Valid()
      modifies this
      ensures Valid() && Where() == old(Where()) + Conds(Postgres, CallOr(filters))
      ensures old(params) <= params
    {
      ghost var before := params;
      var parts := OrParts(Split(filters, ","));
      if |parts| > 0 {
        PushCondition(AnyOf(parts), before);
      } else {
        BindWhereStable(conditions, Positions(before), Positions(params));
      }
    }

    method Filter(col: string, operator: string, value: Datum)
      requires Valid() && InScope(CallFilter(col, operator, value))
      modifies this
      ensures Valid() && Where() == old(Where()) + Conds(Postgres, CallFilter(col, operator, value))
      ensures old(params) <= params
    {
      match operator
      case "eq" => Eq(col, value);
      case "neq" => Neq(col, value);
      case "gt" => Ordered(col, Gt, value);
      case "gte" => Ordered(col, Gte, value);
      case "lt" => Ordered(col, Lt, value);
      case "lte" => Ordered(col, Lte, value);
      case "like" => Ordered(col, Like, value);
      case "ilike" => Ordered(col, ILike, value);
      case "is" => Is(col);
      case _ => Compared(col, OperatorOf(operator), value);
    }

    method Match(query: seq<(string, Datum)>)
      requires Valid()
      modifies this
      ensures Valid() && Where() == old(Where()) + Conds(Postgres, CallMatch(query))
      ensures old(params) <= params
    {
      for i := 0 to |query|
        invariant Valid() && old(params) <= params
        invariant Where() == old(Where()) + MatchConds(query)[..i]
      {
        Eq(query[i].0, query[i].1);
      }
    }

    /** The assignments are bound after the conditions, whose parameters they leave alone. */
    method BuildUpdate(data: seq<(string, Upsert.Value)>, arrayColumns: set<string>) returns (u: Update)
      requires Valid()
      modifies this`params
      ensures Valid() && u.conditions == conditions && Where() == old(Where())
      ensures |u.sets| == |data|
      ensures forall i :: 0 <= i < |data| ==>
        && u.sets[i].0 == data[i].0 && u.sets[i].1 in Positions(params)
        && Positions(params)[u.sets[i].1] == Upsert.WritePostgres(data[i].0, data[i].1, arrayColumns)
    {
      ghost var before := params;
      var sets: seq<(string, nat)> := [];
      for i := 0 to |data|
        invariant before <= params && |sets| == i
        invariant forall k :: 0 <= k < i ==>
          && sets[k].0 == data[k].0 && sets[k].1 in Positions(params)
          && Positions(params)[sets[k].1] == Upsert.WritePostgres(data[k].0, data[k].1, arrayColumns)
      {
        var p := NextParam(Upsert.WritePostgres(data[i].0, data[i].1, arrayColumns));
        sets := sets + [(data[i].0, p)];
      }
      BindWhereStable(conditions, Positions(before), Positions(params));
      return Update(sets, conditions);
    }

    /** One INSERT with a value list per row, its placeholders numbered on from the earlier parameters. */
    method BuildUpsert(data: seq<Upsert.Input>, columns: seq<string>, onConflict: Option<string>, ignore: bool,
      arrayColumns: set<string>)
      returns (s: Upsert.OnConflict<nat>)
      requires Valid() && Upsert.ListsKeys(columns, data)
      modifies this`params
      ensures Valid() && Where() == old(Where())
      ensures Upsert.InsertBoundTo(s, Positions(params),
        Upsert.PostgresUpsert(Upsert.PostgresRows(data, arrayColumns), columns, Upsert.ConflictColumns(onConflict),
          ignore))
    {
      ghost var before := params;
      var rows := Upsert.PostgresRows(data, arrayColumns);
      var keys := Upsert.ConflictColumns(onConflict);
      var values: seq<seq<nat>> := [];
      for i := 0 to |rows|
        invariant before <= params && |values| == i
        invariant forall k :: 0 <= k < i ==>
          Upsert.BoundTo(values[k], Positions(params), Upsert.ValuesOf(rows[k], columns))
      {
        ghost var earlier := params;
        var ps := NextParams(Upsert.ValuesOf(rows[i], columns));
        forall k | 0 <= k < i ensures Upsert.BoundTo(values[k], Positions(params), Upsert.ValuesOf(rows[k], columns)) {
          Upsert.BoundToStable(values[k], Positions(earlier), Positions(params), Upsert.ValuesOf(rows[k], columns));
        }
        values := values + [ps];
      }
      BindWhereStable(conditions, Positions(before), Positions(params));
      return Upsert.OnConflict(columns, values, keys, if ignore then None else Some(Upsert.NonConflict(columns, keys)));
    }
  }

  /** Any chain of calls on a fresh builder: its WHERE, with the parameters it bound, is that of the whole chain. */
  method BuildChain(calls: seq<Call>) returns (b: Builder)
    requires AllInScope(calls)
    ensures fresh(b) && b.Valid() && b.Where() == ChainConds(Postgres, calls)
  {
    b := new Builder();
    for i := 0 to |calls|
      invariant fresh(b) && b.Valid() && b.Where() == ChainConds(Postgres, calls[..i])
    {
      assert calls[..i + 1][..i] == calls[..i];
      match calls[i]
      case CallEq(col, v) => b.Eq(col, v);
      case CallNeq(col, v) => b.Neq(col, v);
      case CallCompare(col, op, v) => b.Ordered(col, op, v);
      case CallIn(col, vs) => b.In(col, vs);
      case CallIsNull(col) => b.Is(col);
      case CallNot(col, operator, arg) => b.Not(col, operator, arg);
      case CallOr(filters) => b.Or(filters);
      case CallFilter(col, operator, v) => b.Filter(col, operator, v);
      case CallMatch(query) => b.Match(query);
    }
    assert calls[..|calls|] == calls;
  }
}
