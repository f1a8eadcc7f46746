/** The SQL Server query builder: conditions over named placeholders p0, p1, ... */
module SqlServerBuilder {
  import opened Wrappers
  import opened Strings
  import opened Sql
  import opened Dialects
  import Upsert

  function Name(i: nat): string {
    "p" + Decimal(i)
  }

  lemma NameInjective(i: nat, j: nat)
    requires Name(i) == Name(j)
    ensures i == j
  {
    assert Name(i)[1..] == Decimal(i) && Name(j)[1..] == Decimal(j);
    DecimalInjective(i, j);
  }

  /** UPDATE: the columns set and their placeholders, and the conditions. */
  datatype Update = Update(sets: seq<(string, string)>, conditions: seq<Cond<string>>)

  class Builder {
    var conditions: seq<Cond<string>>
    var paramMap: map<string, Datum>
    var paramCounter: nat

    /** Exactly the names handed out so far are bound. */
    ghost predicate NamesInUse()
      reads this
    {
      forall i: nat :: Name(i) in paramMap <==> i < paramCounter
    }

    ghost predicate Valid()
      reads this
    {
      NamesInUse() && WhereResolves(conditions, paramMap)
    }

    /** The conditions so far, with their parameters in place. */
    ghost function Where(): seq<Cond<Datum>>
      requires Valid()
      reads this
    {
      BindWhere(conditions, paramMap)
    }

    constructor ()
      ensures Valid() && Where() == [] && paramMap == map[]
    {
      conditions, paramMap, paramCounter := [], map[], 0;
    }

    method NextParam(value: Datum) returns (p: string)
      requires NamesInUse()
      modifies this`paramMap, this`paramCounter
      ensures NamesInUse() && Extends(old(paramMap), paramMap)
      ensures p in paramMap && paramMap[p] == value
    {
      p := Name(paramCounter);
      paramCounter := paramCounter + 1;
      paramMap := paramMap[p := value];
      forall i: nat | Name(i) == p ensures i == paramCounter - 1 { NameInjective(i, paramCounter - 1); }
    }

    method NextParams(values: seq<Datum>) returns (ps: seq<string>)
      requires NamesInUse()
      modifies this`paramMap, this`paramCounter
      ensures NamesInUse() && Extends(old(paramMap), paramMap)
      ensures |ps| == |values| && forall i :: 0 <= i < |ps| ==> ps[i] in paramMap && paramMap[ps[i]] == values[i]
    {
      ps := [];
      for i := 0 to |values|
        invariant NamesInUse() && Extends(old(paramMap), paramMap)
        invariant |ps| == i && forall k :: 0 <= k < i ==> ps[k] in paramMap && paramMap[ps[k]] == values[k]
      {
        var p := NextParam(values[i]);
        ps := ps + [p];
      }
    }

    /** Push a condition whose parameters were just bound. */
    method PushCondition(c: Cond<string>, ghost before: map<string, Datum>)
      requires NamesInUse() && Extends(before, paramMap) && WhereResolves(conditions, before)
        && CondResolves(c, paramMap)
      modifies this`conditions
      ensures Valid() && Where() == BindWhere(old(conditions), before) + [BindCond(c, paramMap)]
    {
      BindWhereSnoc(conditions, c, before, paramMap);
      conditions := conditions + [c];
    }

    method Compared(col: string, op: Op, value: Datum)
      requires Valid()
      modifies this
      ensures Valid() && Where() == old(Where()) + [One(Compare(col, op, value))]
    {
      ghost var before := paramMap;
      var p := NextParam(value);
      PushCondition(One(Compare(col, op, p)), before);
    }

    method IsNullTest(col: string)
      requires Valid()
      modifies this`conditions
      ensures Valid() && Where() == old(Where()) + [One(IsNull(col))]
    {
      PushCondition(One(IsNull(col)), paramMap);
    }

    method Eq(col: string, value: Datum)
      requires Valid()
      modifies this
      ensures Valid() && Where() == old(Where()) + Conds(SqlServer, CallEq(col, value))
    {
      if value == Null { IsNullTest(col); } else { Compared(col, Op.Eq, value); }
    }

    method Neq(col: string, value: Datum)
      requires Valid()
      modifies this
      ensures Valid() && Where() == old(Where()) + Conds(SqlServer, CallNeq(col, value))
    {
      if value == Null { PushCondition(One(IsNotNull(col)), paramMap); } else { Compared(col, Op.Neq, value); }
    }

    /** gt, gte, lt, lte, like and ilike; the last two are both written LIKE. */
    method Ordered(col: string, op: Op, value: Datum)
      requires Valid() && InScope(CallCompare(col, op, value))
      modifies this
      ensures Valid() && Where() == old(Where()) + Conds(SqlServer, CallCompare(col, op, value))
    {
      Compared(col, if op == ILike then Like else op, value);
    }

    method In(col: string, values: seq<Datum>)
      requires Valid()
      modifies this
      ensures Valid() && Where() == old(Where()) + Conds(SqlServer, CallIn(col, values))
    {
      if values == [] {
        PushCondition(One(Never), paramMap);
        return;
      }
      ghost var before := paramMap;
      var ps := NextParams(values);
      assert Lookup(ps, paramMap) == values;
      PushCondition(One(Test.In(col, ps)), before);
    }

    method Is(col: string)
      requires Valid()
      modifies this
      ensures Valid() && Where() == old(Where()) + Conds(SqlServer, CallIsNull(col))
    {
      IsNullTest(col);
    }

    method NotCompared(col: string, op: Op, value: Datum)
      requires Valid()
      modifies this
      ensures Valid() && Where() == old(Where()) + [One(NotCompare(col, op, value))]
    {
      ghost var before := paramMap;
      var p := NextParam(value);
      PushCondition(One(NotCompare(col, op, p)), before);
    }

    method NotInList(col: string, values: seq<Datum>)
      requires Valid()
      modifies this
      ensures Valid() && Where() == old(Where()) + [One(NotIn(col, values))]
    {
      ghost var before := paramMap;
      var ps := NextParams(values);
      assert Lookup(ps, paramMap) == values;
      PushCondition(One(NotIn(col, ps)), before);
    }

    method Not(col: string, operator: string, arg: Arg)
      requires Valid() && InScope(CallNot(col, operator, arg))
      modifies this
      ensures Valid() && Where() == old(Where()) + Conds(SqlServer, CallNot(col, operator, arg))
    {
      if operator == "is" {
        PushCondition(One(IsNotNull(col)), paramMap);
      } else if operator == "eq" {
        NotCompared(col, Op.Eq, arg.value);
      } else if operator == "in" {
        if arg.values == [] { return; }
        NotInList(col, arg.values);
      } else {
        NotCompared(col, Spelled(SqlServer, OperatorOf(operator)), arg.value);
      }
    }

    /** One clause of a filter string; nothing for one the builder skips. */
    method FilterClauseToSql(c: Clause) returns (t: Option<Test<string>>)
      requires NamesInUse()
      modifies this`paramMap, this`paramCounter
      ensures NamesInUse() && Extends(old(paramMap), paramMap)
      ensures t.Some? <==> ClauseTest(SqlServer, c).Some?
      ensures t.Some? ==> Resolves(t.value, paramMap) && Bind(t.value, paramMap) == ClauseTest(SqlServer, c).value
    {
      match c.operator
      case "eq" =>
        if c.value == "true" { return Some(EqualsBit(c.column, true)); }
        if c.value == "false" { return Some(EqualsBit(c.column, false)); }
        if c.value == "null" { return Some(IsNull(c.column)); }
        var p := NextParam(Text(c.value));
        return Some(Compare(c.column, Op.Eq, p));
      case "neq" => var p := NextParam(Text(c.value)); return Some(Compare(c.column, Op.Neq, p));
      case "gt" => var p := NextParam(Text(c.value)); return Some(Compare(c.column, Gt, p));
      case "gte" => var p := NextParam(Text(c.value)); return Some(Compare(c.column, Gte, p));
      case "lt" => var p := NextParam(Text(c.value)); return Some(Compare(c.column, Lt, p));
      case "lte" => var p := NextParam(Text(c.value)); return Some(Compare(c.column, Lte, p));
      case "is" =>
        if c.value == "null" { return Some(IsNull(c.column)); }
        if c.value == "true" { return Some(EqualsBit(c.column, true)); }
        if c.value == "false" { return Some(EqualsBit(c.column, false)); }
        return None;
      case "like" => var p := NextParam(Text(c.value)); return Some(Compare(c.column, Like, p));
      case "ilike" => var p := NextParam(Text(c.value)); return Some(Compare(c.column, Like, p));
      case _ => return None;
    }

    method OrPart(raw: string) returns (t: Option<Test<string>>)
      requires NamesInUse()
      modifies this`paramMap, this`paramCounter
      ensures NamesInUse() && Extends(old(paramMap), paramMap)
      ensures t.Some? <==> RawClauseTest(SqlServer, raw).Some?
      ensures t.Some? ==> Resolves(t.value, paramMap) && Bind(t.value, paramMap) == RawClauseTest(SqlServer, raw).value
    {
      var parsed := ParseFilterClause(Trim(raw));
      if parsed.None? { return None; }
      t := FilterClauseToSql(parsed.value);
    }

    /** The clauses of a filter string, each bound as it is read. */
    method OrParts(clauses: seq<string>) returns (parts: seq<Test<string>>)
      requires NamesInUse()
      modifies this`paramMap, this`paramCounter
      ensures NamesInUse() && Extends(old(paramMap), paramMap)
      ensures AllResolve(parts, paramMap) && BindAll(parts, paramMap) == ClauseTests(SqlServer, clauses)
    {
      parts := [];
      for i := 0 to |clauses|
        invariant NamesInUse() && Extends(old(paramMap), paramMap)
        invariant AllResolve(parts, paramMap)
        invariant BindAll(parts, paramMap) == ClauseTests(SqlServer, clauses[..i])
      {
        assert clauses[..i + 1][..i] == clauses[..i];
        ghost var before := paramMap;
        var t := OrPart(clauses[i]);
        BindAllStable(parts, before, paramMap);
        if t.Some? {
          BindAllSnoc(parts, t.value, paramMap);
          parts := parts + [t.value];
        }
      }
      assert clauses[..|clauses|] == clauses;
    }

    method Or(filters: string)
      requires Valid()
      modifies this
      ensures Valid() && Where() == old(Where()) + Conds(SqlServer, CallOr(filters))
    {
      ghost var before := paramMap;
      var parts := OrParts(Split(filters, ","));
      if |parts| > 0 {
        PushCondition(AnyOf(parts), before);
      } else {
        BindWhereStable(conditions, before, paramMap);
      }
    }

    method Filter(col: string, operator: string, value: Datum)
      requires Valid() && InScope(CallFilter(col, operator, value))
      modifies this
      ensures Valid() && Where() == old(Where()) + Conds(SqlServer, CallFilter(col, operator, value))
    {
      match operator
      case "eq" => Eq(col, value);
      case "neq" => Neq(col, value);
      case "gt" => Ordered(col, Gt, value);
      case "gte" => Ordered(col, Gte, value);
      case "lt" => Ordered(col, Lt, value);
      case "lte" => Ordered(col, Lte, value);
      case "like" => Ordered(col, Like, value);
      case "ilike" => Ordered(col, ILike, value);
      case "is" => Is(col);
      case _ => Compared(col, Spelled(SqlServer, OperatorOf(operator)), value);
    }

    method Match(query: seq<(string, Datum)>)
      requires Valid()
      modifies this
      ensures Valid() && Where() == old(Where()) + Conds(SqlServer, CallMatch(query))
    {
      for i := 0 to |query|
        invariant Valid()
        invariant Where() == old(Where()) + MatchConds(query)[..i]
      {
        Eq(query[i].0, query[i].1);
      }
    }

    /** The assignments are bound after the conditions, whose parameters they leave alone. */
    method BuildUpdate(data: seq<(string, Upsert.Value)>) returns (u: Update)
      requires Valid()
      modifies this`paramMap, this`paramCounter
      ensures Valid() && u.conditions == conditions && Where() == old(Where())
      ensures |u.sets| == |data|
      ensures forall i :: 0 <= i < |data| ==>
        u.sets[i].0 == data[i].0 && u.sets[i].1 in paramMap && paramMap[u.sets[i].1] == Upsert.WriteSqlServer(data[i].1)
    {
      ghost var before := paramMap;
      var sets: seq<(string, string)> := [];
      for i := 0 to |data|
        invariant NamesInUse() && Extends(before, paramMap) && |sets| == i
        invariant forall k :: 0 <= k < i ==>
          sets[k].0 == data[k].0 && sets[k].1 in paramMap && paramMap[sets[k].1] == Upsert.WriteSqlServer(data[k].1)
      {
        var p := NextParam(Upsert.WriteSqlServer(data[i].1));
        sets := sets + [(data[i].0, p)];
      }
      BindWhereStable(conditions, before, paramMap);
      return Update(sets, conditions);
    }

    /** One MERGE per row, each with its own placeholders. */
    method BuildUpsert(data: seq<Upsert.Input>, columns: seq<string>, onConflict: Option<string>, ignore: bool)
      returns (statements: seq<Upsert.Merge<string>>)
      requires Valid() && Upsert.ListsKeys(columns, data)
      modifies this`paramMap, this`paramCounter
      ensures Valid() && Where() == old(Where())
      ensures |statements| == |data|
      ensures forall i :: 0 <= i < |data| ==> Upsert.MergeBoundTo(statements[i], paramMap,
        Upsert.SqlServerUpsert(Upsert.SqlServerRows(data), columns, Upsert.ConflictColumns(onConflict), ignore)[i])
    {
      ghost var before := paramMap;
      var rows := Upsert.SqlServerRows(data);
      var keys := Upsert.ConflictColumns(onConflict);
      ghost var bound := Upsert.SqlServerUpsert(rows, columns, keys, ignore);
      statements := [];
      for i := 0 to |rows|
        invariant NamesInUse() && Extends(before, paramMap) && |statements| == i
        invariant forall k :: 0 <= k < i ==> Upsert.MergeBoundTo(statements[k], paramMap, bound[k])
      {
        ghost var earlier := paramMap;
        var ps := NextParams(Upsert.ValuesOf(rows[i], columns));
        forall k | 0 <= k < i ensures Upsert.MergeBoundTo(statements[k], paramMap, bound[k]) {
          Upsert.BoundToStable(statements[k].values, earlier, paramMap, bound[k].values);
        }
        statements := statements + [Upsert.Merge(columns, ps, keys, Upsert.MergeUpdate(columns, keys, ignore))];
      }
      BindWhereStable(conditions, before, paramMap);
    }
  }

  /** Any chain of calls on a fresh builder: its WHERE, with the parameters it bound, is that of the whole chain. */
  method BuildChain(calls: seq<Call>) returns (b: Builder)
    requires AllInScope(calls)
    ensures fresh(b) && b.Valid() && b.Where() == ChainConds(SqlServer, calls)
  {
    b := new Builder();
    for i := 0 to |calls|
      invariant fresh(b) && b.Valid() && b.Where() == ChainConds(SqlServer, calls[..i])
    {
      assert calls[..i + 1][..i] == calls[..i];
      match calls[i]
      case CallEq(col, v) => b.Eq(col, v);
      case CallNeq(col, v) => b.Neq(col, v);
      case CallCompare(col, op, v) => b.Ordered(col, op, v);
      case CallIn(col, vs) => b.In(col, vs);
      case CallIsNull(col) => b.Is(col);
      case CallNot(col, operator, arg) => b.Not(col, operator, arg);
      case CallOr(filters) => b.Or(filters);
      case CallFilter(col, operator, v) => b.Filter(col, operator, v);
      case CallMatch(query) => b.Match(query);
    }
    assert calls[..|calls|] == calls;
  }
}
