/**
 The lease-based job queue. Workers share one table and act on it only through three
 statements, each atomic: claim the oldest eligible row with a lease, extend a lease,
 and resolve the rows whose lease ran out. Rows another transaction has locked
 (`SKIP LOCKED`) are a parameter of each step.
 */
module JobQueue {
  import opened Wrappers
  import Strings

  /** A row id. Postgres orders uuids as 128-bit numbers. */
  type Id = nat

  /** Microseconds, the resolution of timestamptz. */
  type Time = int

  const SECOND: Time := 1_000_000

  datatype Status = Queued | Running | CancelRequested | Canceled | Failed | Completed

  datatype Row = Row(
    status: Status,
    worker: Option<string>,
    lease: Option<Time>,
    attempt: nat,
    maxAttempts: nat,
    queuedAt: Time,
    startedAt: Option<Time>,
    completedAt: Option<Time>,
    updatedAt: Time,
    error: Option<string>,
    tags: map<string, string>) // the table's other text columns

  type Table = map<Id, Row>

  datatype Only = Only(column: string, values: seq<string>)

  datatype QueueName = QueueName(schema: string, table: string)

  datatype QueueError =
    | InvalidIdentifier(name: QueueName)
    | WorkerRequired
    | NotAPositiveInteger(value: real)
    | InvalidColumn(column: string)

  /** The pattern ^[a-z_][a-z0-9_]*$ */
  predicate IsIdentifier(s: string) {
    s != ""
    && ('a' <= s[0] <= 'z' || s[0] == '_')
    && forall i :: 1 <= i < |s| ==> 'a' <= s[i] <= 'z' || '0' <= s[i] <= '9' || s[i] == '_'
  }

  predicate IsQualified(q: QueueName) {
    IsIdentifier(q.schema) && IsIdentifier(q.table)
  }

  predicate IsPositiveInteger(v: real) {
    v > 0.0 && v == v.Floor as real
  }

  predicate IsActive(s: Status) {
    s == Running || s == CancelRequested
  }

  predicate IsTerminal(s: Status) {
    s == Canceled || s == Failed || s == Completed
  }

  // ---- the three statements ----

  predicate Eligible(r: Row, only: Only) {
    r.status == Queued && only.column in r.tags && r.tags[only.column] in only.values
  }

  /** `ORDER BY queued_at, id`. */
  predicate NotAfter(t: Table, a: Id, b: Id)
    requires a in t && b in t
  {
    t[a].queuedAt < t[b].queuedAt || (t[a].queuedAt == t[b].queuedAt && a <= b)
  }

  /** The row the claim's subquery selects: first in order among the eligible rows it can lock. */
  predicate IsOldest(t: Table, only: Only, locked: set<Id>, id: Id) {
    id in t && id !in locked && Eligible(t[id], only)
    && forall other :: other in t && other !in locked && Eligible(t[other], only) ==> NotAfter(t, id, other)
  }

  function Claimed(r: Row, worker: string, seconds: int, now: Time): Row {
    r.(status := Running,
       worker := Some(worker),
       lease := Some(now + seconds * SECOND),
       attempt := r.attempt + 1,
       startedAt := if r.startedAt.None? then Some(now) else r.startedAt,
       updatedAt := now)
  }

  predicate ClaimStep(t: Table, t': Table, worker: string, seconds: int, only: Only,
                      now: Time, locked: set<Id>, claimed: Option<Id>)
  {
    match claimed
    case None => t' == t && forall id :: id in t && id !in locked ==> !Eligible(t[id], only)
    case Some(id) => IsOldest(t, only, locked, id) && t' == t[id := Claimed(t[id], worker, seconds, now)]
  }

  predicate Holds(t: Table, id: Id, worker: string) {
    id in t && t[id].worker == Some(worker) && IsActive(t[id].status)
  }

  function Extended(t: Table, id: Id, worker: string, seconds: int, now: Time): Table {
    if Holds(t, id, worker) then t[id := t[id].(lease := Some(now + seconds * SECOND), updatedAt := now)] else t
  }

  /** A null lease compares as unknown, so it never expires. */
  predicate Expired(r: Row, now: Time) {
    IsActive(r.status) && r.lease.Some? && r.lease.value < now
  }

  function Resolved(r: Row, now: Time): Row {
    var freed := r.(worker := None, lease := None, updatedAt := now);
    if r.status == CancelRequested then
      freed.(status := Canceled, completedAt := Some(now))
    else if r.attempt < r.maxAttempts then
      freed.(status := Queued)
    else
      freed.(status := Failed,
             error := Some("Worker lease expired after " + Strings.Decimal(r.attempt) + " attempt(s)"),
             completedAt := Some(now))
  }

  function ExpiredIds(t: Table, now: Time, locked: set<Id>): set<Id> {
    set id | id in t && id !in locked && Expired(t[id], now)
  }

  function Reclaimed(t: Table, now: Time, locked: set<Id>): Table {
    map id | id in t :: if id !in locked && Expired(t[id], now) then Resolved(t[id], now) else t[id]
  }

  // ---- what the statements say, column by column ----

  /** A name is made of lower-case letters, digits and underscores and starts with no digit. */
  lemma IdentifierExactly(s: string)
    ensures IsIdentifier(s) <==>
      && s != "" && !('0' <= s[0] <= '9')
      && forall c :: c in s ==> 'a' <= c <= 'z' || '0' <= c <= '9' || c == '_'
  {
    if s != "" && !IsIdentifier(s) {
      var i :| 0 <= i < |s| && !('a' <= s[i] <= 'z' || s[i] == '_' || (i > 0 && '0' <= s[i] <= '9'));
      assert s[i] in s;
    }
  }

  /**
   A queue name is sound exactly when neither of its two parts is empty, starts with a digit or holds another
   character.
   */
  lemma QualifiedExactly(q: QueueName)
    ensures IsQualified(q) <==> forall part | part in [q.schema, q.table] ::
      && part != "" && !('0' <= part[0] <= '9')
      && forall c :: c in part ==> 'a' <= c <= 'z' || '0' <= c <= '9' || c == '_'
  {
    IdentifierExactly(q.schema);
    IdentifierExactly(q.table);
    assert q.schema in [q.schema, q.table] && q.table in [q.schema, q.table];
  }

  /** The lease must be a whole number of seconds, at least one. */
  lemma PositiveIntegerExactly(whole: int, v: real)
    ensures IsPositiveInteger(whole as real) <==> whole >= 1
    ensures v != v.Floor as real ==> !IsPositiveInteger(v)
  {
  }

  /** The row waits for a worker that takes these column values, and no one has it locked. */
  ghost predicate IsWaiting(t: Table, only: Only, locked: set<Id>, id: Id) {
    && id in t && id !in locked && t[id].status == Queued
    && only.column in t[id].tags && t[id].tags[only.column] in only.values
  }

  /** No row waits that was queued before, or at the same time with a smaller id. */
  ghost predicate IsFirstWaiting(t: Table, only: Only, locked: set<Id>, id: Id) {
    && IsWaiting(t, only, locked, id)
    && forall other :: IsWaiting(t, only, locked, other) ==>
      t[id].queuedAt < t[other].queuedAt || (t[id].queuedAt == t[other].queuedAt && id <= other)
  }

  /** A claim gives the first waiting row to the worker, and changes nothing when no row waits. */
  lemma ClaimExactly(t: Table, t': Table, worker: string, seconds: int, only: Only, now: Time, locked: set<Id>,
    claimed: Option<Id>)
    requires ClaimStep(t, t', worker, seconds, only, now, locked, claimed)
    ensures claimed.None? ==> t' == t && forall id :: !IsWaiting(t, only, locked, id)
    ensures claimed.Some? ==>
      && IsFirstWaiting(t, only, locked, claimed.value)
      && var row := t[claimed.value];
        t' == t[claimed.value := row.(status := Running, worker := Some(worker), attempt := row.attempt + 1,
          lease := Some(now + seconds * 1_000_000), updatedAt := now,
          startedAt := if row.startedAt.Some? then row.startedAt else Some(now))]
  {
  }

  /** The row is held past its lease and free to be locked. */
  ghost predicate IsOverdue(t: Table, now: Time, locked: set<Id>, id: Id) {
    && id in t && id !in locked
    && t[id].status in {Running, CancelRequested} && t[id].lease.Some? && t[id].lease.value < now
  }

  /** An overdue row that was asked to cancel is canceled, one with attempts left is queued again, and the rest fail. */
  lemma ReclaimExactly(t: Table, now: Time, locked: set<Id>)
    ensures Reclaimed(t, now, locked).Keys == t.Keys
    ensures forall id :: id in t ==>
      var row, row' := t[id], Reclaimed(t, now, locked)[id];
      if !IsOverdue(t, now, locked, id) then row' == row
      else if row.status == CancelRequested then
        row' == row.(status := Canceled, worker := None, lease := None, completedAt := Some(now), updatedAt := now)
      else if row.attempt < row.maxAttempts then
        row' == row.(status := Queued, worker := None, lease := None, updatedAt := now)
      else
        row' == row.(status := Failed, worker := None, lease := None, completedAt := Some(now), updatedAt := now,
          error := Some("Worker lease expired after " + Strings.Decimal(row.attempt) + " attempt(s)"))
  {
  }

  // ---- the service ----

  /** A non-empty set of eligible rows has a first one, so the claim's subquery is well defined. */
  lemma {:induction false} OldestExists(t: Table, only: Only, locked: set<Id>, candidates: set<Id>) returns (id: Id)
    requires candidates != {}
    requires forall c :: c in candidates ==> c in t
    ensures id in candidates && forall c :: c in candidates ==> NotAfter(t, id, c)
  {
    var c :| c in candidates;
    if candidates == {c} {
      id := c;
    } else {
      var rest := candidates - {c};
      id := OldestExists(t, only, locked, rest);
      assert forall d :: d in candidates ==> d == c || d in rest;
      if !NotAfter(t, id, c) {
        id := c;
      }
    }
  }

  /** The set's elements in some order, as a query without ORDER BY returns its rows. */
  method AnyOrder(s: set<Id>) returns (q: seq<Id>)
    ensures |q| == |s| && (set id | id in q) == s
    ensures forall i, j :: 0 <= i < j < |q| ==> q[i] != q[j]
  {
    q := [];
    var rest := s;
    while rest != {}
      invariant rest <= s && |q| + |rest| == |s|
      invariant forall id :: id in q <==> id in s - rest
      invariant forall i, j :: 0 <= i < j < |q| ==> q[i] != q[j]
    {
      var id :| id in rest;
      q := q + [id];
      rest := rest - {id};
    }
  }

  datatype ReclaimResult = ReclaimResult(requeued: seq<Id>, failed: seq<Id>, canceled: seq<Id>)

  predicate Distinct(q: seq<Id>) {
    forall i, j :: 0 <= i < j < |q| ==> q[i] != q[j]
  }

  /** The ids in `q` are, without repetition, those of `ids` that `t'` holds with the given status. */
  ghost predicate ListsExactly(q: seq<Id>, ids: set<Id>, t': Table, status: Status) {
    Distinct(q) && forall id :: id in q <==> id in ids && id in t' && t'[id].status == status
  }

  /** The loop over the returned rows: each id goes into the list of its status. */
  method ByStatus(returned: seq<Id>, rows: Table, ghost ids: set<Id>) returns (r: ReclaimResult)
    requires Distinct(returned) && forall id :: id in returned <==> id in ids
    requires forall id :: id in returned ==> id in rows && rows[id].status in {Queued, Failed, Canceled}
    ensures ListsExactly(r.requeued, ids, rows, Queued)
    ensures ListsExactly(r.failed, ids, rows, Failed)
    ensures ListsExactly(r.canceled, ids, rows, Canceled)
  {
    var requeued: seq<Id>, failed: seq<Id>, canceled: seq<Id> := [], [], [];
    for i := 0 to |returned|
      invariant Distinct(requeued) && Distinct(failed) && Distinct(canceled)
      invariant forall id :: id in requeued <==> id in returned[..i] && rows[id].status == Queued
      invariant forall id :: id in failed <==> id in returned[..i] && rows[id].status == Failed
      invariant forall id :: id in canceled <==> id in returned[..i] && rows[id].status == Canceled
    {
      var id := returned[i];
      assert returned[..i + 1] == returned[..i] + [id];
      assert id in returned && id !in returned[..i];
      match rows[id].status
      case Queued => requeued := requeued + [id];
      case Failed => failed := failed + [id];
      case Canceled => canceled := canceled + [id];
    }
    assert returned[..|returned|] == returned;
    return ReclaimResult(requeued, failed, canceled);
  }

  class Service {
    var rows: Table

    constructor (rows: Table)
      ensures this.rows == rows
    {
      this.rows := rows;
    }

    method ClaimNext(queue: QueueName, worker: string, leaseSeconds: real, only: Only, now: Time, locked: set<Id>)
      returns (r: Result<Option<Row>, QueueError>)
      modifies this
      ensures r.Failure? ==> rows == old(rows)
      ensures r.Failure? <==>
        !IsQualified(queue) || worker == "" || !IsPositiveInteger(leaseSeconds) || !IsIdentifier(only.column)
      ensures !IsQualified(queue) ==> r == Failure(InvalidIdentifier(queue))
      ensures IsQualified(queue) && worker == "" ==> r == Failure(WorkerRequired)
      ensures IsQualified(queue) && worker != "" && !IsPositiveInteger(leaseSeconds) ==>
        r == Failure(NotAPositiveInteger(leaseSeconds))
      ensures r.Failure? && IsQualified(queue) && worker != "" && IsPositiveInteger(leaseSeconds) ==>
        r == Failure(InvalidColumn(only.column))
      ensures r.Success? && only.values == [] ==> r.value == None && rows == old(rows)
      ensures r.Success? && r.value.None? ==>
        rows == old(rows) && forall id :: !IsWaiting(rows, only, locked, id)
      ensures r.Success? && r.value.Some? ==>
        exists id :: IsFirstWaiting(old(rows), only, locked, id)
          && var row := old(rows)[id];
            && rows == old(rows)[id := r.value.value]
            && r.value.value == row.(status := Running, worker := Some(worker), attempt := row.attempt + 1,
              lease := Some(now + leaseSeconds.Floor * 1_000_000), updatedAt := now,
              startedAt := if row.startedAt.Some? then row.startedAt else Some(now))
      ensures r.Success? ==>
        exists claimed :: ClaimStep(old(rows), rows, worker, leaseSeconds.Floor, only, now, locked, claimed)
          && r.value == (match claimed case None => None case Some(id) => Some(rows[id]))
    {
      if !IsQualified(queue) { return Failure(InvalidIdentifier(queue)); }
      if worker == "" { return Failure(WorkerRequired); }
      if !IsPositiveInteger(leaseSeconds) { return Failure(NotAPositiveInteger(leaseSeconds)); }
      if !IsIdentifier(only.column) { return Failure(InvalidColumn(only.column)); }
      if only.values == [] {
        assert ClaimStep(rows, rows, worker, leaseSeconds.Floor, only, now, locked, None);
        return Success(None);
      }
      var candidates := set id | id in rows && id !in locked && Eligible(rows[id], only);
      if candidates == {} {
        assert forall id :: id in rows && id !in locked && Eligible(rows[id], only) ==> id in candidates;
        assert ClaimStep(rows, rows, worker, leaseSeconds.Floor, only, now, locked, None);
        return Success(None);
      }
      ghost var first := OldestExists(rows, only, locked, candidates);
      assert IsOldest(rows, only, locked, first) by {
        assert forall id :: id in rows && id !in locked && Eligible(rows[id], only) ==> id in candidates;
      }
      var id :| id in rows && IsOldest(rows, only, locked, id);
      rows := rows[id := Claimed(rows[id], worker, leaseSeconds.Floor, now)];
      assert ClaimStep(old(rows), rows, worker, leaseSeconds.Floor, only, now, locked, Some(id));
      ClaimExactly(old(rows), rows, worker, leaseSeconds.Floor, only, now, locked, Some(id));
      return Success(Some(rows[id]));
    }

    method Heartbeat(queue: QueueName, id: Id, worker: string, leaseSeconds: real, now: Time)
      returns (r: Result<bool, QueueError>)
      modifies this
      ensures r.Failure? ==> rows == old(rows)
      ensures r.Failure? <==> !IsQualified(queue) || !IsPositiveInteger(leaseSeconds)
      ensures r.Success? ==> rows == Extended(old(rows), id, worker, leaseSeconds.Floor, now)
      ensures r.Success? ==>
        (r.value <==>
          id in old(rows) && old(rows)[id].status in {Running, CancelRequested}
          && old(rows)[id].worker == Some(worker))
      ensures r.Success? && !r.value ==> rows == old(rows)
      ensures r.Success? && r.value ==>
        rows == old(rows)[id := old(rows)[id].(lease := Some(now + leaseSeconds.Floor * 1_000_000), updatedAt := now)]
    {
      if !IsQualified(queue) { return Failure(InvalidIdentifier(queue)); }
      if !IsPositiveInteger(leaseSeconds) { return Failure(NotAPositiveInteger(leaseSeconds)); }
      var held := Holds(rows, id, worker);
      if held {
        rows := rows[id := rows[id].(lease := Some(now + leaseSeconds.Floor * SECOND), updatedAt := now)];
      }
      return Success(held);
    }

    /**
     The three lists partition exactly the overdue rows no one else has locked, by what they were; every other row
     keeps its value.
     */
    method ReclaimExpired(queue: QueueName, now: Time, locked: set<Id>) returns (r: Result<ReclaimResult, QueueError>)
      modifies this
      ensures r.Failure? <==> !IsQualified(queue)
      ensures r.Failure? ==> rows == old(rows)
      ensures r.Success? ==> rows == Reclaimed(old(rows), now, locked)
      ensures r.Success? ==>
        var hit := ExpiredIds(old(rows), now, locked);
        && rows.Keys == old(rows).Keys
        && (forall id :: id in rows && id !in hit ==> rows[id] == old(rows)[id])
        && ListsExactly(r.value.requeued, hit, rows, Queued)
        && ListsExactly(r.value.failed, hit, rows, Failed)
        && ListsExactly(r.value.canceled, hit, rows, Canceled)
        && (forall id :: id in hit <==> id in r.value.requeued + r.value.failed + r.value.canceled)
      ensures r.Success? ==> forall id ::
        && (id in r.value.requeued <==>
              IsOverdue(old(rows), now, locked, id)
              && old(rows)[id].status == Running && old(rows)[id].attempt < old(rows)[id].maxAttempts)
        && (id in r.value.failed <==>
              IsOverdue(old(rows), now, locked, id)
              && old(rows)[id].status == Running && old(rows)[id].attempt >= old(rows)[id].maxAttempts)
        && (id in r.value.canceled <==>
              IsOverdue(old(rows), now, locked, id) && old(rows)[id].status == CancelRequested)
      ensures r.Success? ==> forall id :: id in r.value.requeued ==>
        rows[id] == old(rows)[id].(status := Queued, worker := None, lease := None, updatedAt := now)
      ensures r.Success? ==> forall id :: id in r.value.canceled ==>
        rows[id] == old(rows)[id].(status := Canceled, worker := None, lease := None, completedAt := Some(now),
          updatedAt := now)
      ensures r.Success? ==> forall id :: id in r.value.failed ==>
        rows[id] == old(rows)[id].(status := Failed, worker := None, lease := None, completedAt := Some(now),
          updatedAt := now,
          error := Some("Worker lease expired after " + Strings.Decimal(old(rows)[id].attempt) + " attempt(s)"))
    {
      if !IsQualified(queue) { return Failure(InvalidIdentifier(queue)); }
      ghost var before := rows;
      var hit := ExpiredIds(rows, now, locked);
      ReclaimExactly(rows, now, locked);
      rows := Reclaimed(rows, now, locked);
      var returned := AnyOrder(hit);
      assert forall id :: id in returned <==> id in hit;
      forall id | id in returned ensures id in rows && rows[id].status in {Queued, Failed, Canceled} {
        assert id in hit && rows[id] == Resolved(before[id], now);
      }
      var lists := ByStatus(returned, rows, hit);
      return Success(lists);
    }
  }
}
