/**
 Conditions with placeholders, their value in SQL's three-valued logic, and what a chain of
 filter calls asks for. `Compares` stands for how the database compares two non-null values; it is the
 same parameter for both dialects.
 */
module Sql {
  import opened Wrappers
  import opened Strings

  /** A value the database holds; an array column's value is known by its JSON text. */
  datatype Datum = Null | Bool(b: bool) | Int(n: int) | Text(s: string) | Elements(json: string)

  type Row = map<string, Datum>

  datatype Op = Eq | Neq | Gt | Gte | Lt | Lte | Like | ILike

  type Compares = (Op, Datum, Datum) -> bool

  datatype Truth = True | False | Unknown

  function Not3(a: Truth): Truth {
    match a case True => False case False => True case Unknown => Unknown
  }

  function And3(a: Truth, b: Truth): Truth {
    if a == False || b == False then False else if a == True && b == True then True else Unknown
  }

  function Or3(a: Truth, b: Truth): Truth {
    Not3(And3(Not3(a), Not3(b)))
  }

  function ToTruth(b: bool): Truth { if b then True else False }

  function Column(row: Row, col: string): Datum {
    if col in row then row[col] else Null
  }

  function Compare3(x: Datum, op: Op, y: Datum, cmp: Compares): Truth {
    if x == Null || y == Null then Unknown else ToTruth(cmp(op, x, y))
  }

  // ---- conditions, with placeholders of type P or with the values in place ----

  datatype Test<P> =
    | Never                                  // 1 = 0
    | IsNull(col: string)
    | IsNotNull(col: string)
    | Compare(col: string, op: Op, arg: P)
    | NotCompare(col: string, op: Op, arg: P)
    | In(col: string, args: seq<P>)
    | NotIn(col: string, args: seq<P>)
    | IsTruth(col: string, value: bool)      // IS TRUE, IS FALSE
    | EqualsBit(col: string, value: bool)    // = 1, = 0

  datatype Cond<P> = One(test: Test<P>) | AnyOf(tests: seq<Test<P>>)

  function Args<P>(t: Test<P>): seq<P> {
    match t
    case Compare(_, _, arg) => [arg]
    case NotCompare(_, _, arg) => [arg]
    case In(_, args) => args
    case NotIn(_, args) => args
    case _ => []
  }

  predicate Resolves<P(==)>(t: Test<P>, env: map<P, Datum>) {
    forall p :: p in Args(t) ==> p in env
  }

  predicate AllResolve<P(==)>(tests: seq<Test<P>>, env: map<P, Datum>) {
    forall i :: 0 <= i < |tests| ==> Resolves(tests[i], env)
  }

  predicate CondResolves<P(==)>(c: Cond<P>, env: map<P, Datum>) {
    match c case One(t) => Resolves(t, env) case AnyOf(ts) => AllResolve(ts, env)
  }

  function Lookup<P(==)>(ps: seq<P>, env: map<P, Datum>): seq<Datum>
    requires forall p :: p in ps ==> p in env
  {
    seq(|ps|, i requires 0 <= i < |ps| => env[ps[i]])
  }

  /** The test with each placeholder replaced by the value bound to it. */
  function Bind<P(==)>(t: Test<P>, env: map<P, Datum>): Test<Datum>
    requires Resolves(t, env)
  {
    match t
    case Never => Never
    case IsNull(col) => IsNull(col)
    case IsNotNull(col) => IsNotNull(col)
    case Compare(col, op, arg) => assert arg in Args(t); Compare(col, op, env[arg])
    case NotCompare(col, op, arg) => assert arg in Args(t); NotCompare(col, op, env[arg])
    case In(col, args) => In(col, Lookup(args, env))
    case NotIn(col, args) => NotIn(col, Lookup(args, env))
    case IsTruth(col, value) => IsTruth(col, value)
    case EqualsBit(col, value) => EqualsBit(col, value)
  }

  function BindAll<P(==)>(tests: seq<Test<P>>, env: map<P, Datum>): seq<Test<Datum>>
    requires AllResolve(tests, env)
  {
    seq(|tests|, i requires 0 <= i < |tests| => Bind(tests[i], env))
  }

  function BindCond<P(==)>(c: Cond<P>, env: map<P, Datum>): Cond<Datum>
    requires CondResolves(c, env)
  {
    match c case One(t) => One(Bind(t, env)) case AnyOf(ts) => AnyOf(BindAll(ts, env))
  }

  ghost predicate Extends<P>(env: map<P, Datum>, env': map<P, Datum>) {
    forall p :: p in env ==> p in env' && env'[p] == env[p]
  }

  /** Binding more parameters does not change a condition built before. */
  lemma BindStable<P>(t: Test<P>, env: map<P, Datum>, env': map<P, Datum>)
    requires Resolves(t, env) && Extends(env, env')
    ensures Resolves(t, env') && Bind(t, env') == Bind(t, env)
  {
    forall p | p in Args(t) ensures p in env' && env'[p] == env[p] {}
    match t
    case In(_, args) => assert Lookup(args, env) == Lookup(args, env');
    case NotIn(_, args) => assert Lookup(args, env) == Lookup(args, env');
    case _ =>
  }

  lemma BindAllStable<P>(tests: seq<Test<P>>, env: map<P, Datum>, env': map<P, Datum>)
    requires AllResolve(tests, env) && Extends(env, env')
    ensures AllResolve(tests, env') && BindAll(tests, env') == BindAll(tests, env)
  {
    forall i | 0 <= i < |tests| ensures Resolves(tests[i], env') && Bind(tests[i], env') == Bind(tests[i], env) {
      BindStable(tests[i], env, env');
    }
  }

  lemma BindAllSnoc<P>(tests: seq<Test<P>>, t: Test<P>, env: map<P, Datum>)
    requires AllResolve(tests, env) && Resolves(t, env)
    ensures AllResolve(tests + [t], env) && BindAll(tests + [t], env) == BindAll(tests, env) + [Bind(t, env)]
  {
  }

  lemma BindCondStable<P>(c: Cond<P>, env: map<P, Datum>, env': map<P, Datum>)
    requires CondResolves(c, env) && Extends(env, env')
    ensures CondResolves(c, env') && BindCond(c, env') == BindCond(c, env)
  {
    match c
    case One(t) => BindStable(t, env, env');
    case AnyOf(ts) => BindAllStable(ts, env, env');
  }

  ghost predicate WhereResolves<P>(conds: seq<Cond<P>>, env: map<P, Datum>) {
    forall i :: 0 <= i < |conds| ==> CondResolves(conds[i], env)
  }

  ghost function BindWhere<P>(conds: seq<Cond<P>>, env: map<P, Datum>): seq<Cond<Datum>>
    requires WhereResolves(conds, env)
  {
    seq(|conds|, i requires 0 <= i < |conds| => BindCond(conds[i], env))
  }

  lemma BindWhereStable<P>(conds: seq<Cond<P>>, env: map<P, Datum>, env': map<P, Datum>)
    requires WhereResolves(conds, env) && Extends(env, env')
    ensures WhereResolves(conds, env') && BindWhere(conds, env') == BindWhere(conds, env)
  {
    forall i | 0 <= i < |conds|
      ensures CondResolves(conds[i], env') && BindCond(conds[i], env') == BindCond(conds[i], env)
    {
      BindCondStable(conds[i], env, env');
    }
  }

  /** Adding a condition, once its parameters are bound. */
  lemma BindWhereSnoc<P>(conds: seq<Cond<P>>, c: Cond<P>, env: map<P, Datum>, env': map<P, Datum>)
    requires WhereResolves(conds, env) && Extends(env, env') && CondResolves(c, env')
    ensures WhereResolves(conds + [c], env')
    ensures BindWhere(conds + [c], env') == BindWhere(conds, env) + [BindCond(c, env')]
  {
    BindWhereStable(conds, env, env');
  }

  // ---- evaluation ----

  /** Some value equals x: SQL's IN as a chain of OR. */
  function AnyEqual(x: Datum, values: seq<Datum>, cmp: Compares): Truth {
    if values == [] then False else Or3(Compare3(x, Eq, values[0], cmp), AnyEqual(x, values[1..], cmp))
  }

  function Eval(t: Test<Datum>, row: Row, cmp: Compares): Truth {
    match t
    case Never => False
    case IsNull(col) => ToTruth(Column(row, col) == Null)
    case IsNotNull(col) => ToTruth(Column(row, col) != Null)
    case Compare(col, op, v) => Compare3(Column(row, col), op, v, cmp)
    case NotCompare(col, op, v) => Not3(Compare3(Column(row, col), op, v, cmp))
    case In(col, vs) => AnyEqual(Column(row, col), vs, cmp)
    case NotIn(col, vs) => Not3(AnyEqual(Column(row, col), vs, cmp))
    case IsTruth(col, v) => ToTruth(Column(row, col) == Bool(v))
    case EqualsBit(col, v) =>
      match Column(row, col)
      case Null => Unknown
      case Bool(b) => ToTruth(b == v)
      case other => ToTruth(cmp(Eq, other, Int(if v then 1 else 0)))
  }

  function EvalAny(tests: seq<Test<Datum>>, row: Row, cmp: Compares): Truth {
    if tests == [] then False else Or3(Eval(tests[0], row, cmp), EvalAny(tests[1..], row, cmp))
  }

  function EvalCond(c: Cond<Datum>, row: Row, cmp: Compares): Truth {
    match c case One(t) => Eval(t, row, cmp) case AnyOf(ts) => EvalAny(ts, row, cmp)
  }

  /** The conditions joined by AND; none at all is an absent WHERE. */
  function EvalWhere(conds: seq<Cond<Datum>>, row: Row, cmp: Compares): Truth {
    if conds == [] then True else And3(EvalCond(conds[0], row, cmp), EvalWhere(conds[1..], row, cmp))
  }

  /** A query keeps the rows whose condition is true; false and unknown both drop them. */
  predicate Accepts(conds: seq<Cond<Datum>>, row: Row, cmp: Compares) {
    EvalWhere(conds, row, cmp) == True
  }

  // ---- filter strings: column.operator.value, separated by commas ----

  datatype Clause = Clause(column: string, operator: string, value: string)

  function ParseFilterClause(raw: string): Option<Clause> {
    match Find(raw, ".")
    case None => None
    case Some(i) =>
      var rest := raw[i + 1..];
      match Find(rest, ".")
      case None => None
      case Some(j) => Some(Clause(raw[..i], rest[..j], rest[j + 1..]))
  }

  // ---- the filter calls ----

  datatype Arg = Scalar(value: Datum) | List(values: seq<Datum>)

  datatype Call =
    | CallEq(col: string, value: Datum)
    | CallNeq(col: string, value: Datum)
    | CallCompare(col: string, op: Op, value: Datum) // gt, gte, lt, lte, like, ilike
    | CallIn(col: string, values: seq<Datum>)
    | CallIsNull(col: string)
    | CallNot(col: string, operator: string, arg: Arg)
    | CallOr(filters: string)
    | CallFilter(col: string, operator: string, value: Datum)
    | CallMatch(query: seq<(string, Datum)>)

  /** The calls in scope: boolean `is`, containment and inherited names are left out. */
  predicate InScope(call: Call) {
    match call
    case CallCompare(_, op, _) => op != Eq && op != Neq
    case CallNot(_, operator, arg) =>
      operator != "cs" && !IsInherited(operator) && (arg.List? <==> operator == "in")
        && (operator == "is" ==> arg == Scalar(Null))
    case CallFilter(_, operator, value) => operator != "cs" && operator != "cd" && !IsInherited(operator)
      && (operator == "is" ==> value == Null)
    case _ => true
  }

  /** An operator word, with `=` for one the builders do not know. */
  function OperatorOf(word: string): Op {
    if word == "neq" then Neq else if word == "gt" then Gt else if word == "gte" then Gte
    else if word == "lt" then Lt else if word == "lte" then Lte
    else if word == "like" then Like else if word == "ilike" then ILike else Eq
  }

  // ---- what a call asks for, without reference to how it is written in SQL ----

  /** Equal to one of the values; unknown when only a null could decide it. */
  ghost function Membership(x: Datum, values: seq<Datum>, cmp: Compares): Truth {
    if values == [] then False
    else if x != Null && (exists v :: v in values && v != Null && cmp(Eq, x, v)) then True
    else if x == Null || Null in values then Unknown
    else False
  }

  function Equality(x: Datum, v: Datum, cmp: Compares): Truth {
    if v == Null then ToTruth(x == Null) else Compare3(x, Eq, v, cmp)
  }

  function Difference(x: Datum, v: Datum, cmp: Compares): Truth {
    if v == Null then ToTruth(x != Null) else Compare3(x, Neq, v, cmp)
  }

  /** The truth a parsed clause asks for. */
  function ParsedMeaning(c: Clause, row: Row, cmp: Compares): Option<Truth> {
    var x := Column(row, c.column);
    if c.operator == "eq" || c.operator == "is" then
      if c.value == "null" then Some(ToTruth(x == Null))
      else if c.value == "true" then Some(ToTruth(x == Bool(true)))
      else if c.value == "false" then Some(ToTruth(x == Bool(false)))
      else if c.operator == "eq" then Some(Compare3(x, Eq, Text(c.value), cmp))
      else None
    else if c.operator in {"neq", "gt", "gte", "lt", "lte", "like", "ilike"} then
      Some(Compare3(x, OperatorOf(c.operator), Text(c.value), cmp))
    else None
  }

  /** One clause of a filter string, or nothing when the builders skip it. */
  function ClauseMeaning(raw: string, row: Row, cmp: Compares): Option<Truth> {
    match ParseFilterClause(Trim(raw)) case None => None case Some(c) => ParsedMeaning(c, row, cmp)
  }

  function ClauseMeanings(clauses: seq<string>, row: Row, cmp: Compares): seq<Truth> {
    if clauses == [] then [] else
      var rest := ClauseMeanings(clauses[1..], row, cmp);
      match ClauseMeaning(clauses[0], row, cmp) case None => rest case Some(t) => [t] + rest
  }

  /** True when some is, false when all are. */
  function Disjunction(ts: seq<Truth>): Truth {
    if True in ts then True else if Unknown in ts then Unknown else False
  }

  /** False when some is, true when all are. */
  function Conjunction(ts: seq<Truth>): Truth {
    if False in ts then False else if Unknown in ts then Unknown else True
  }

  ghost function Meaning(call: Call, row: Row, cmp: Compares): Truth
    requires InScope(call)
  {
    match call
    case CallEq(col, v) => Equality(Column(row, col), v, cmp)
    case CallNeq(col, v) => Difference(Column(row, col), v, cmp)
    case CallCompare(col, op, v) => Compare3(Column(row, col), op, v, cmp)
    case CallIn(col, vs) => Membership(Column(row, col), vs, cmp)
    case CallIsNull(col) => ToTruth(Column(row, col) == Null)
    case CallNot(col, operator, arg) =>
      if operator == "is" then ToTruth(Column(row, col) != Null)
      else if operator == "in" then Not3(Membership(Column(row, col), arg.values, cmp))
      else Not3(Compare3(Column(row, col), OperatorOf(operator), arg.value, cmp))
    case CallOr(filters) =>
      var ts := ClauseMeanings(Split(filters, ","), row, cmp);
      if ts == [] then True else Disjunction(ts)
    case CallFilter(col, operator, v) =>
      if operator == "eq" then Equality(Column(row, col), v, cmp)
      else if operator == "neq" then Difference(Column(row, col), v, cmp)
      else if operator == "is" then ToTruth(Column(row, col) == Null)
      else Compare3(Column(row, col), OperatorOf(operator), v, cmp)
    case CallMatch(query) =>
      Conjunction(seq(|query|, i requires 0 <= i < |query| => Equality(Column(row, query[i].0), query[i].1, cmp)))
  }

  // ---- filter strings and operator words, without the functions that read them ----

  lemma FirstDot(raw: string)
    ensures Find(raw, ".").None? ==> '.' !in raw
    ensures Find(raw, ".").Some? ==> var i := Find(raw, ".").value;
      i < |raw| && raw[i] == '.' && '.' !in raw[..i]
  {
    forall i: nat | i < |raw| && raw[i] == '.' ensures OccursAt(raw, ".", i) {
      assert raw[i..i + 1] == ".";
    }
    if Find(raw, ".").Some? {
      var i := Find(raw, ".").value;
      assert raw[i..i + 1][0] == '.';
    }
  }

  lemma DotBetween(raw: string, i: nat, front: string, rest: string)
    requires i < |raw| && raw[i] == '.' && front == raw[..i] && rest == raw[i + 1..]
    ensures raw == front + "." + rest
    ensures '.' !in front && '.' !in rest ==> forall k, l :: 0 <= k < l < |raw| && raw[k] == '.' ==> raw[l] != '.'
  {
    assert forall k :: 0 <= k < i ==> raw[k] == front[k];
    assert forall k :: i < k < |raw| ==> raw[k] == rest[k - i - 1];
  }

  /** A clause is read exactly from a text with two dots: the column, the operator, and all the rest as the value. */
  lemma FilterClauseExactly(raw: string)
    ensures match ParseFilterClause(raw)
      case Some(c) =>
        raw == c.column + "." + (c.operator + "." + c.value) && '.' !in c.column && '.' !in c.operator
      case None => forall k, l :: 0 <= k < l < |raw| && raw[k] == '.' ==> raw[l] != '.'
  {
    FirstDot(raw);
    if Find(raw, ".").Some? {
      var i := Find(raw, ".").value;
      var front, rest := raw[..i], raw[i + 1..];
      FirstDot(rest);
      DotBetween(raw, i, front, rest);
      if Find(rest, ".").Some? {
        var j := Find(rest, ".").value;
        DotBetween(rest, j, rest[..j], rest[j + 1..]);
      }
    }
  }

  /** The operator words and what they stand for; a word the builders do not know stands for equality. */
  lemma OperatorWords(word: string)
    ensures OperatorOf("eq") == Eq && OperatorOf("neq") == Neq
    ensures OperatorOf("gt") == Gt && OperatorOf("gte") == Gte && OperatorOf("lt") == Lt && OperatorOf("lte") == Lte
    ensures OperatorOf("like") == Like && OperatorOf("ilike") == ILike
    ensures word !in {"neq", "gt", "gte", "lt", "lte", "like", "ilike"} ==> OperatorOf(word) == Eq
  {
  }

  /** A filter string is read clause by clause between its commas. */
  lemma FilterStringExactly(clauses: seq<string>)
    requires clauses != [] && forall k :: 0 <= k < |clauses| ==> ',' !in clauses[k]
    ensures Split(Join(clauses, ","), ",") == clauses
  {
    SplitJoin(clauses, ',');
  }
}
