/**
 What each builder writes for a call, with the values in place, and what it means: both dialects
 accept exactly the rows the chain of calls asks for.
 */
module Dialects {
  import opened Wrappers
  import opened Strings
  import opened Sql

  datatype Dialect = Postgres | SqlServer

  function TruthTest(d: Dialect, col: string, value: bool): Test<Datum> {
    if d == Postgres then IsTruth(col, value) else EqualsBit(col, value)
  }

  /** SQL Server has no ILIKE and writes LIKE for both. */
  function Spelled(d: Dialect, op: Op): Op {
    if d == SqlServer && op == ILike then Like else op
  }

  function EqTest(col: string, v: Datum): Test<Datum> {
    if v == Null then IsNull(col) else Compare(col, Eq, v)
  }

  function NeqTest(col: string, v: Datum): Test<Datum> {
    if v == Null then IsNotNull(col) else Compare(col, Neq, v)
  }

  function InTest(col: string, vs: seq<Datum>): Test<Datum> {
    if vs == [] then Never else In(col, vs)
  }

  function ClauseTest(d: Dialect, c: Clause): Option<Test<Datum>> {
    if c.operator == "eq" || c.operator == "is" then
      if c.value == "null" then Some(IsNull(c.column))
      else if c.value == "true" then Some(TruthTest(d, c.column, true))
      else if c.value == "false" then Some(TruthTest(d, c.column, false))
      else if c.operator == "eq" then Some(Compare(c.column, Eq, Text(c.value)))
      else None
    else if c.operator in {"neq", "gt", "gte", "lt", "lte", "like", "ilike"} then
      Some(Compare(c.column, Spelled(d, OperatorOf(c.operator)), Text(c.value)))
    else None
  }

  function RawClauseTest(d: Dialect, raw: string): Option<Test<Datum>> {
    match ParseFilterClause(Trim(raw)) case None => None case Some(c) => ClauseTest(d, c)
  }

  function ClauseTests(d: Dialect, clauses: seq<string>): seq<Test<Datum>> {
    if clauses == [] then [] else
      var before := ClauseTests(d, clauses[..|clauses| - 1]);
      match RawClauseTest(d, clauses[|clauses| - 1]) case None => before case Some(t) => before + [t]
  }

  function OrConds(d: Dialect, filters: string): seq<Cond<Datum>> {
    var tests := ClauseTests(d, Split(filters, ","));
    if tests == [] then [] else [AnyOf(tests)]
  }

  function NotConds(d: Dialect, col: string, operator: string, arg: Arg): seq<Cond<Datum>>
    requires InScope(CallNot(col, operator, arg))
  {
    if operator == "is" then [One(IsNotNull(col))]
    else if operator == "in" then (if arg.values == [] then [] else [One(NotIn(col, arg.values))])
    else [One(NotCompare(col, Spelled(d, OperatorOf(operator)), arg.value))]
  }

  function FilterCond(d: Dialect, col: string, operator: string, v: Datum): Cond<Datum>
    requires InScope(CallFilter(col, operator, v))
  {
    if operator == "eq" then One(EqTest(col, v))
    else if operator == "neq" then One(NeqTest(col, v))
    else if operator == "is" then One(IsNull(col))
    else One(Compare(col, Spelled(d, OperatorOf(operator)), v))
  }

  function MatchConds(query: seq<(string, Datum)>): seq<Cond<Datum>> {
    seq(|query|, i requires 0 <= i < |query| => One(EqTest(query[i].0, query[i].1)))
  }

  /** The conditions one call appends. */
  function Conds(d: Dialect, call: Call): seq<Cond<Datum>>
    requires InScope(call)
  {
    match call
    case CallEq(col, v) => [One(EqTest(col, v))]
    case CallNeq(col, v) => [One(NeqTest(col, v))]
    case CallCompare(col, op, v) => [One(Compare(col, Spelled(d, op), v))]
    case CallIn(col, vs) => [One(InTest(col, vs))]
    case CallIsNull(col) => [One(IsNull(col))]
    case CallNot(col, operator, arg) => NotConds(d, col, operator, arg)
    case CallOr(filters) => OrConds(d, filters)
    case CallFilter(col, operator, v) => [FilterCond(d, col, operator, v)]
    case CallMatch(query) => MatchConds(query)
  }

  predicate AllInScope(calls: seq<Call>) {
    forall i :: 0 <= i < |calls| ==> InScope(calls[i])
  }

  function ChainConds(d: Dialect, calls: seq<Call>): seq<Cond<Datum>>
    requires AllInScope(calls)
  {
    if calls == [] then [] else ChainConds(d, calls[..|calls| - 1]) + Conds(d, calls[|calls| - 1])
  }

  // ---- three-valued algebra ----

  lemma {:induction false} EvalWhereAppend(a: seq<Cond<Datum>>, b: seq<Cond<Datum>>, row: Row, cmp: Compares)
    ensures EvalWhere(a + b, row, cmp) == And3(EvalWhere(a, row, cmp), EvalWhere(b, row, cmp))
  {
    if a == [] {
      assert a + b == b;
    } else {
      assert (a + b)[1..] == a[1..] + b;
      EvalWhereAppend(a[1..], b, row, cmp);
    }
  }

  lemma {:induction false} EvalAnyIsDisjunction(tests: seq<Test<Datum>>, ts: seq<Truth>, row: Row, cmp: Compares)
    requires Evaluates(tests, ts, row, cmp)
    ensures EvalAny(tests, row, cmp) == Disjunction(ts)
  {
    if tests != [] {
      EvalAnyIsDisjunction(tests[1..], ts[1..], row, cmp);
      assert ts == [ts[0]] + ts[1..];
    }
  }

  lemma {:induction false} EvalWhereIsConjunction(conds: seq<Cond<Datum>>, ts: seq<Truth>, row: Row, cmp: Compares)
    requires |ts| == |conds| && forall i :: 0 <= i < |ts| ==> ts[i] == EvalCond(conds[i], row, cmp)
    ensures EvalWhere(conds, row, cmp) == Conjunction(ts)
  {
    if conds != [] {
      EvalWhereIsConjunction(conds[1..], ts[1..], row, cmp);
      assert ts == [ts[0]] + ts[1..];
    }
  }

  predicate Found(x: Datum, vs: seq<Datum>, cmp: Compares) {
    exists v :: v in vs && v != Null && cmp(Eq, x, v)
  }

  lemma FoundCons(x: Datum, v: Datum, vs: seq<Datum>, cmp: Compares)
    ensures Found(x, [v] + vs, cmp) <==> (v != Null && cmp(Eq, x, v)) || Found(x, vs, cmp)
  {
    var all := [v] + vs;
    assert v in all && forall w :: w in vs ==> w in all;
  }

  lemma {:induction false} AnyEqualIsMembership(x: Datum, vs: seq<Datum>, cmp: Compares)
    ensures AnyEqual(x, vs, cmp) == Membership(x, vs, cmp)
  {
    if vs != [] {
      AnyEqualIsMembership(x, vs[1..], cmp);
      assert vs == [vs[0]] + vs[1..];
      FoundCons(x, vs[0], vs[1..], cmp);
    }
  }

  // ---- Postgres: the conditions have the very truth value the calls ask for ----

  lemma ParsedMeans(c: Clause, row: Row, cmp: Compares)
    ensures ClauseTest(Postgres, c).Some? <==> ParsedMeaning(c, row, cmp).Some?
    ensures ClauseTest(Postgres, c).Some? ==>
      Eval(ClauseTest(Postgres, c).value, row, cmp) == ParsedMeaning(c, row, cmp).value
  {
  }

  lemma ClauseMeans(raw: string, row: Row, cmp: Compares)
    ensures RawClauseTest(Postgres, raw).Some? <==> ClauseMeaning(raw, row, cmp).Some?
    ensures RawClauseTest(Postgres, raw).Some? ==>
      Eval(RawClauseTest(Postgres, raw).value, row, cmp) == ClauseMeaning(raw, row, cmp).value
  {
    match ParseFilterClause(Trim(raw))
    case None =>
    case Some(c) => ParsedMeans(c, row, cmp);
  }

  function Kept(t: Option<Truth>): seq<Truth> {
    match t case None => [] case Some(truth) => [truth]
  }

  lemma {:induction false} ClauseMeaningsSnoc(clauses: seq<string>, last: string, all: seq<string>, row: Row,
    cmp: Compares)
    requires all == clauses + [last]
    ensures ClauseMeanings(all, row, cmp) == ClauseMeanings(clauses, row, cmp) + Kept(ClauseMeaning(last, row, cmp))
  {
    if clauses == [] {
      assert all[1..] == [] && all[0] == last;
    } else {
      assert all[1..] == clauses[1..] + [last] && all[0] == clauses[0];
      ClauseMeaningsSnoc(clauses[1..], last, all[1..], row, cmp);
    }
  }

  /** Test by test, what is written evaluates to what is meant. */
  ghost predicate Evaluates(tests: seq<Test<Datum>>, ts: seq<Truth>, row: Row, cmp: Compares) {
    |ts| == |tests| && forall i :: 0 <= i < |ts| ==> ts[i] == Eval(tests[i], row, cmp)
  }

  lemma EvaluatesSnoc(tests: seq<Test<Datum>>, ts: seq<Truth>, more: Option<Test<Datum>>, meant: Option<Truth>,
    row: Row, cmp: Compares)
    requires Evaluates(tests, ts, row, cmp)
    requires more.Some? <==> meant.Some?
    requires more.Some? ==> Eval(more.value, row, cmp) == meant.value
    ensures Evaluates(match more case None => tests case Some(t) => tests + [t],
                      ts + Kept(meant), row, cmp)
  {
    assert ts + [] == ts;
  }

  lemma ClauseTestsSnoc(d: Dialect, front: seq<string>, last: string, all: seq<string>)
    requires all == front + [last]
    ensures ClauseTests(d, all) ==
      match RawClauseTest(d, last) case None => ClauseTests(d, front) case Some(t) => ClauseTests(d, front) + [t]
  {
    assert all[..|front|] == front;
  }

  lemma ClausesMeanSnoc(front: seq<string>, last: string, all: seq<string>, row: Row, cmp: Compares)
    requires all == front + [last] && Evaluates(ClauseTests(Postgres, front), ClauseMeanings(front, row, cmp), row, cmp)
    ensures Evaluates(ClauseTests(Postgres, all), ClauseMeanings(all, row, cmp), row, cmp)
  {
    ClauseTestsSnoc(Postgres, front, last, all);
    ClauseMeaningsSnoc(front, last, all, row, cmp);
    ClauseMeans(last, row, cmp);
    EvaluatesSnoc(ClauseTests(Postgres, front), ClauseMeanings(front, row, cmp),
      RawClauseTest(Postgres, last), ClauseMeaning(last, row, cmp), row, cmp);
  }

  lemma FrontAndLast(clauses: seq<string>, front: seq<string>, last: string)
    requires clauses != [] && front == clauses[..|clauses| - 1] && last == clauses[|clauses| - 1]
    ensures clauses == front + [last]
  {
  }

  lemma {:induction false} ClausesMean(clauses: seq<string>, row: Row, cmp: Compares)
    ensures Evaluates(ClauseTests(Postgres, clauses), ClauseMeanings(clauses, row, cmp), row, cmp)
  {
    if clauses == [] {
    } else {
      var front, last := clauses[..|clauses| - 1], clauses[|clauses| - 1];
      assert Evaluates(ClauseTests(Postgres, clauses), ClauseMeanings(clauses, row, cmp), row, cmp) by {
        FrontAndLast(clauses, front, last);
        ClausesMean(front, row, cmp);
        ClausesMeanSnoc(front, last, clauses, row, cmp);
      }
    }
  }

  lemma EvalOne(c: Cond<Datum>, row: Row, cmp: Compares)
    ensures EvalWhere([c], row, cmp) == EvalCond(c, row, cmp)
  {
    assert EvalWhere([c][1..], row, cmp) == True;
  }

  lemma NotMeans(col: string, operator: string, arg: Arg, row: Row, cmp: Compares)
    requires InScope(CallNot(col, operator, arg))
    ensures EvalWhere(NotConds(Postgres, col, operator, arg), row, cmp)
      == Meaning(CallNot(col, operator, arg), row, cmp)
  {
    var conds := NotConds(Postgres, col, operator, arg);
    if conds != [] {
      EvalOne(conds[0], row, cmp);
      assert conds == [conds[0]];
    }
    if operator == "in" { AnyEqualIsMembership(Column(row, col), arg.values, cmp); }
  }

  lemma OrMeans(filters: string, row: Row, cmp: Compares)
    ensures EvalWhere(OrConds(Postgres, filters), row, cmp) == Meaning(CallOr(filters), row, cmp)
  {
    var tests := ClauseTests(Postgres, Split(filters, ","));
    var meant := ClauseMeanings(Split(filters, ","), row, cmp);
    ClausesMean(Split(filters, ","), row, cmp);
    EvalAnyIsDisjunction(tests, meant, row, cmp);
    EvalOne(AnyOf(tests), row, cmp);
  }

  lemma MatchMeans(query: seq<(string, Datum)>, row: Row, cmp: Compares)
    ensures EvalWhere(MatchConds(query), row, cmp) == Meaning(CallMatch(query), row, cmp)
  {
    EvalWhereIsConjunction(MatchConds(query),
      seq(|query|, i requires 0 <= i < |query| => Equality(Column(row, query[i].0), query[i].1, cmp)), row, cmp);
  }

  /** One call, in Postgres, has exactly its meaning, unknown included. */
  lemma CallMeans(call: Call, row: Row, cmp: Compares)
    requires InScope(call)
    ensures EvalWhere(Conds(Postgres, call), row, cmp) == Meaning(call, row, cmp)
  {
    match call
    case CallNot(col, operator, arg) => NotMeans(col, operator, arg, row, cmp);
    case CallOr(filters) => OrMeans(filters, row, cmp);
    case CallMatch(query) => MatchMeans(query, row, cmp);
    case CallIn(col, vs) =>
      AnyEqualIsMembership(Column(row, col), vs, cmp);
      EvalOne(One(InTest(col, vs)), row, cmp);
    case _ => EvalOne(Conds(Postgres, call)[0], row, cmp);
  }

  ghost function Meanings(calls: seq<Call>, row: Row, cmp: Compares): seq<Truth>
    requires AllInScope(calls)
  {
    seq(|calls|, i requires 0 <= i < |calls| => Meaning(calls[i], row, cmp))
  }

  lemma ConjunctionSnoc(ts: seq<Truth>, t: Truth)
    ensures Conjunction(ts + [t]) == And3(Conjunction(ts), t)
  {
  }

  lemma MeaningsSnoc(calls: seq<Call>, row: Row, cmp: Compares)
    requires AllInScope(calls) && calls != []
    ensures Meanings(calls, row, cmp)
      == Meanings(calls[..|calls| - 1], row, cmp) + [Meaning(calls[|calls| - 1], row, cmp)]
  {
  }

  /** The whole WHERE of a Postgres chain is the three-valued conjunction of what the calls ask for. */
  lemma {:induction false} PostgresChainMeans(calls: seq<Call>, row: Row, cmp: Compares)
    requires AllInScope(calls)
    ensures EvalWhere(ChainConds(Postgres, calls), row, cmp) == Conjunction(Meanings(calls, row, cmp))
  {
    if calls != [] {
      var front, last := calls[..|calls| - 1], calls[|calls| - 1];
      PostgresChainMeans(front, row, cmp);
      CallMeans(last, row, cmp);
      EvalWhereAppend(ChainConds(Postgres, front), Conds(Postgres, last), row, cmp);
      MeaningsSnoc(calls, row, cmp);
      ConjunctionSnoc(Meanings(front, row, cmp), Meaning(last, row, cmp));
    }
  }

  // ---- both dialects accept the same rows ----

  predicate UsesILike(call: Call) {
    match call
    case CallCompare(_, op, _) => op == ILike
    case CallNot(_, operator, _) => operator == "ilike"
    case CallFilter(_, operator, _) => operator == "ilike"
    case CallOr(filters) =>
      exists i :: 0 <= i < |Split(filters, ",")| && ClauseOperator(Split(filters, ",")[i]) == "ilike"
    case _ => false
  }

  function ClauseOperator(raw: string): string {
    match ParseFilterClause(Trim(raw)) case None => "" case Some(c) => c.operator
  }

  /** The columns a filter string tests for true or false hold booleans or null; Postgres refuses others. */
  predicate TestsBooleans(call: Call, row: Row) {
    call.CallOr? ==>
      forall i :: 0 <= i < |Split(call.filters, ",")| ==> ClauseTestsBoolean(Split(call.filters, ",")[i], row)
  }

  predicate ClauseTestsBoolean(raw: string, row: Row) {
    match ParseFilterClause(Trim(raw)) case None => true case Some(c) => ParsedTestsBoolean(c, row)
  }

  predicate ParsedTestsBoolean(c: Clause, row: Row) {
    c.operator in {"eq", "is"} && c.value in {"true", "false"} ==>
      Column(row, c.column) == Null || Column(row, c.column).Bool?
  }

  /** The chains both dialects read alike on this row. */
  predicate Shared(calls: seq<Call>, row: Row) {
    forall i :: 0 <= i < |calls| ==> InScope(calls[i]) && !UsesILike(calls[i]) && TestsBooleans(calls[i], row)
  }

  lemma TruthTestsAgree(col: string, value: bool, row: Row, cmp: Compares)
    requires Column(row, col) == Null || Column(row, col).Bool?
    ensures Eval(TruthTest(Postgres, col, value), row, cmp) == True <==>
      Eval(TruthTest(SqlServer, col, value), row, cmp) == True
  {
  }

  lemma ParsedAgrees(c: Clause, row: Row, cmp: Compares)
    requires c.operator != "ilike" && ParsedTestsBoolean(c, row)
    ensures ClauseTest(Postgres, c).Some? <==> ClauseTest(SqlServer, c).Some?
    ensures ClauseTest(Postgres, c).Some? ==>
      (Eval(ClauseTest(Postgres, c).value, row, cmp) == True <==>
        Eval(ClauseTest(SqlServer, c).value, row, cmp) == True)
  {
    if c.operator in {"eq", "is"} && c.value in {"true", "false"} {
      TruthTestsAgree(c.column, c.value == "true", row, cmp);
    } else {
      assert ClauseTest(Postgres, c) == ClauseTest(SqlServer, c);
    }
  }

  lemma ClauseAgrees(raw: string, row: Row, cmp: Compares)
    requires ClauseOperator(raw) != "ilike" && ClauseTestsBoolean(raw, row)
    ensures RawClauseTest(Postgres, raw).Some? <==> RawClauseTest(SqlServer, raw).Some?
    ensures RawClauseTest(Postgres, raw).Some? ==>
      (Eval(RawClauseTest(Postgres, raw).value, row, cmp) == True <==>
        Eval(RawClauseTest(SqlServer, raw).value, row, cmp) == True)
  {
    match ParseFilterClause(Trim(raw))
    case None =>
    case Some(c) => ParsedAgrees(c, row, cmp);
  }

  lemma {:induction false} EvalAnySnoc(tests: seq<Test<Datum>>, t: Test<Datum>, row: Row, cmp: Compares)
    ensures EvalAny(tests + [t], row, cmp) == Or3(EvalAny(tests, row, cmp), Eval(t, row, cmp))
  {
    if tests == [] {
      assert tests + [t] == [t] && EvalAny([t][1..], row, cmp) == False;
    } else {
      assert (tests + [t])[1..] == tests[1..] + [t];
      EvalAnySnoc(tests[1..], t, row, cmp);
    }
  }

  /** Two lists of tests of the same length, true together. */
  predicate AgreeAny(a: seq<Test<Datum>>, b: seq<Test<Datum>>, row: Row, cmp: Compares) {
    |a| == |b| && (EvalAny(a, row, cmp) == True <==> EvalAny(b, row, cmp) == True)
  }

  lemma AgreeSnoc(a: seq<Test<Datum>>, t: Test<Datum>, b: seq<Test<Datum>>, u: Test<Datum>, row: Row, cmp: Compares)
    requires AgreeAny(a, b, row, cmp) && (Eval(t, row, cmp) == True <==> Eval(u, row, cmp) == True)
    ensures AgreeAny(a + [t], b + [u], row, cmp)
  {
    EvalAnySnoc(a, t, row, cmp);
    EvalAnySnoc(b, u, row, cmp);
  }

  lemma {:induction false} ClausesAgree(clauses: seq<string>, row: Row, cmp: Compares)
    requires forall i :: 0 <= i < |clauses| ==>
      ClauseOperator(clauses[i]) != "ilike" && ClauseTestsBoolean(clauses[i], row)
    ensures AgreeAny(ClauseTests(Postgres, clauses), ClauseTests(SqlServer, clauses), row, cmp)
  {
    if clauses != [] {
      var front, last := clauses[..|clauses| - 1], clauses[|clauses| - 1];
      ClausesAgree(front, row, cmp);
      ClauseAgrees(last, row, cmp);
      var t, u := RawClauseTest(Postgres, last), RawClauseTest(SqlServer, last);
      if t.Some? { AgreeSnoc(ClauseTests(Postgres, front), t.value, ClauseTests(SqlServer, front), u.value, row, cmp); }
    }
  }

  lemma CallAgrees(call: Call, row: Row, cmp: Compares)
    requires InScope(call) && !UsesILike(call) && TestsBooleans(call, row)
    ensures Accepts(Conds(Postgres, call), row, cmp) <==> Accepts(Conds(SqlServer, call), row, cmp)
  {
    match call
    case CallOr(filters) =>
      ClausesAgree(Split(filters, ","), row, cmp);
      EvalOne(AnyOf(ClauseTests(Postgres, Split(filters, ","))), row, cmp);
      EvalOne(AnyOf(ClauseTests(SqlServer, Split(filters, ","))), row, cmp);
    case _ =>
  }

  /**
   On the shared calls the two builders accept the same rows, though IS TRUE is false on null where `= 1` is unknown.
   */
  lemma {:induction false} DialectsAgree(calls: seq<Call>, row: Row, cmp: Compares)
    requires AllInScope(calls) && Shared(calls, row)
    ensures Accepts(ChainConds(Postgres, calls), row, cmp) <==> Accepts(ChainConds(SqlServer, calls), row, cmp)
  {
    if calls != [] {
      var front, last := calls[..|calls| - 1], calls[|calls| - 1];
      DialectsAgree(front, row, cmp);
      CallAgrees(last, row, cmp);
      EvalWhereAppend(ChainConds(Postgres, front), Conds(Postgres, last), row, cmp);
      EvalWhereAppend(ChainConds(SqlServer, front), Conds(SqlServer, last), row, cmp);
    }
  }

  /** A chain of shared calls accepts, in either dialect, exactly the rows for which every call's meaning is true. */
  lemma ChainAcceptsItsMeaning(d: Dialect, calls: seq<Call>, row: Row, cmp: Compares)
    requires AllInScope(calls) && Shared(calls, row)
    ensures Accepts(ChainConds(d, calls), row, cmp) <==>
      forall i :: 0 <= i < |calls| ==> Meaning(calls[i], row, cmp) == True
  {
    PostgresChainMeans(calls, row, cmp);
    DialectsAgree(calls, row, cmp);
    var ts := Meanings(calls, row, cmp);
    assert forall i :: 0 <= i < |calls| ==> ts[i] == Meaning(calls[i], row, cmp);
    if (forall i :: 0 <= i < |calls| ==> Meaning(calls[i], row, cmp) == True) {
      assert forall t :: t in ts ==> t == True;
    } else {
      var i :| 0 <= i < |calls| && Meaning(calls[i], row, cmp) != True;
      assert ts[i] in ts;
    }
  }

  /** `not eq null` binds a null and so accepts no row, unlike `neq null`, which accepts the rows with a value. */
  lemma NotEqNullAcceptsNothing(d: Dialect, col: string, row: Row, cmp: Compares)
    ensures !Accepts(Conds(d, CallNot(col, "eq", Scalar(Null))), row, cmp)
    ensures Accepts(Conds(d, CallNeq(col, Null)), row, cmp) <==> Column(row, col) != Null
  {
    EvalOne(One(NotCompare(col, Eq, Null)), row, cmp);
    EvalOne(One(IsNotNull(col)), row, cmp);
  }
}
