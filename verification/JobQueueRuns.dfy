/**
 Runs of the job queue: any number of workers claiming, heartbeating and reclaiming, while
 the rest of the platform enqueues rows, asks for cancels, and finishes the rows it holds.
 */
module JobQueueRuns {
  import opened Wrappers
  import opened JobQueue
  import Strings

  datatype Step =
    | Claim(worker: string, seconds: int, only: Only, locked: set<Id>, claimed: Option<Id>)
    | Heartbeat(id: Id, worker: string, seconds: int, held: bool)
    | Reclaim(locked: set<Id>)
    | Enqueue(id: Id, maxAttempts: nat, tags: map<string, string>)
    | RequestCancel(id: Id)
    | Finish(id: Id, worker: string, outcome: Status, error: Option<string>)

  datatype Entry = Entry(at: Time, step: Step)

  function Fresh(maxAttempts: nat, tags: map<string, string>, now: Time): Row {
    Row(Queued, None, None, 0, maxAttempts, now, None, None, now, None, tags)
  }

  /** A queued row is canceled at once; a running one is asked to stop; anything else is left alone. */
  function CancelAsked(r: Row, now: Time): Row {
    if r.status == Queued then r.(status := Canceled, completedAt := Some(now), updatedAt := now)
    else if r.status == Running then r.(status := CancelRequested, updatedAt := now)
    else r
  }

  /** What the holding worker may write when it stops. */
  predicate MayFinish(from: Status, outcome: Status, error: Option<string>) {
    match outcome
    case Completed => from == Running && error.None?
    case Failed => IsActive(from) && error.Some?
    case Canceled => from == CancelRequested
    case _ => false
  }

  function Finished(r: Row, outcome: Status, error: Option<string>, now: Time): Row {
    r.(status := outcome, worker := None, lease := None, completedAt := Some(now), updatedAt := now,
       error := if outcome == Canceled then r.error else error)
  }

  ghost predicate Next(t: Table, e: Entry, t': Table) {
    match e.step
    case Claim(worker, seconds, only, locked, claimed) =>
      worker != "" && seconds > 0 && ClaimStep(t, t', worker, seconds, only, e.at, locked, claimed)
    case Heartbeat(id, worker, seconds, held) =>
      seconds > 0 && held == Holds(t, id, worker) && t' == Extended(t, id, worker, seconds, e.at)
    case Reclaim(locked) => t' == Reclaimed(t, e.at, locked)
    case Enqueue(id, maxAttempts, tags) =>
      maxAttempts >= 1 && id !in t && t' == t[id := Fresh(maxAttempts, tags, e.at)]
    case RequestCancel(id) => t' == if id in t then t[id := CancelAsked(t[id], e.at)] else t
    case Finish(id, worker, outcome, error) =>
      Holds(t, id, worker) && MayFinish(t[id].status, outcome, error)
      && t' == t[id := Finished(t[id], outcome, error, e.at)]
  }

  /** Each entry takes one table to the next, at times that never go back. */
  ghost predicate IsRun(tables: seq<Table>, log: seq<Entry>) {
    && |tables| == |log| + 1
    && (forall k :: 0 <= k < |log| ==> Next(tables[k], log[k], tables[k + 1]))
    && (forall k, l :: 0 <= k < l < |log| ==> log[k].at <= log[l].at)
  }

  // ---- the platform's own steps, column by column ----

  /** A new row is queued, unclaimed, with its full number of attempts. */
  lemma EnqueueExactly(t: Table, e: Entry, t': Table)
    requires Next(t, e, t') && e.step.Enqueue?
    ensures e.step.id !in t && t'.Keys == t.Keys + {e.step.id}
    ensures forall id :: id in t ==> t'[id] == t[id]
    ensures var row := t'[e.step.id];
      && row.status == Queued && row.worker == None && row.lease == None && row.attempt == 0
      && row.maxAttempts == e.step.maxAttempts && row.tags == e.step.tags && row.error == None
      && row.queuedAt == e.at && row.updatedAt == e.at && row.startedAt == None && row.completedAt == None
  {
  }

  /** A cancel request ends a queued row at once, asks the holder of a running one to stop, and changes no other. */
  lemma CancelExactly(t: Table, e: Entry, t': Table)
    requires Next(t, e, t') && e.step.RequestCancel?
    ensures t'.Keys == t.Keys && forall id :: id in t && id != e.step.id ==> t'[id] == t[id]
    ensures e.step.id in t ==>
      var row, row' := t[e.step.id], t'[e.step.id];
      match row.status
      case Queued => row' == row.(status := Canceled, completedAt := Some(e.at), updatedAt := e.at)
      case Running => row' == row.(status := CancelRequested, updatedAt := e.at)
      case _ => row' == row
  {
  }

  /**
   Only the worker that holds a row finishes it: completed when running, canceled when asked to, failed in both
   cases.
   */
  lemma FinishExactly(t: Table, e: Entry, t': Table)
    requires e.step.Finish?
    ensures Next(t, e, t') <==> (
      && e.step.id in t
      && var row, outcome := t[e.step.id], e.step.outcome;
        && (row.status == Running || row.status == CancelRequested) && row.worker == Some(e.step.worker)
        && ((outcome == Completed && row.status == Running && e.step.error == None)
            || (outcome == Failed && e.step.error.Some?)
            || (outcome == Canceled && row.status == CancelRequested))
        && t' == t[e.step.id := row.(status := outcome, worker := None, lease := None, completedAt := Some(e.at),
             updatedAt := e.at, error := if outcome == Canceled then row.error else e.step.error)])
  {
  }

  // ---- what every step keeps ----

  predicate RowInv(r: Row) {
    && r.maxAttempts >= 1
    && r.attempt <= r.maxAttempts
    && (r.status == Queued ==> r.attempt < r.maxAttempts)
    && (IsActive(r.status) <==> r.worker.Some?)
    && (IsActive(r.status) <==> r.lease.Some?)
    && (IsTerminal(r.status) <==> r.completedAt.Some?)
    && (r.attempt > 0 <==> r.startedAt.Some?)
    && (r.status == Failed ==> r.error.Some?)
  }

  ghost predicate Inv(t: Table) {
    forall id :: id in t ==> RowInv(t[id])
  }

  /** Each statement, and each step of the platform, keeps the invariant of a row it changes. */
  lemma ChangesKeepRowInv(r: Row, now: Time)
    requires RowInv(r)
    ensures forall worker, seconds :: r.status == Queued ==> RowInv(Claimed(r, worker, seconds, now))
    ensures Expired(r, now) ==> RowInv(Resolved(r, now))
    ensures RowInv(CancelAsked(r, now))
    ensures forall outcome, error :: MayFinish(r.status, outcome, error) ==> RowInv(Finished(r, outcome, error, now))
  {
  }

  lemma RowInvStep(t: Table, e: Entry, t': Table, id: Id)
    requires Inv(t) && Next(t, e, t') && id in t'
    ensures RowInv(t'[id])
  {
    if id in t {
      assert RowInv(t[id]);
      ChangesKeepRowInv(t[id], e.at);
    }
  }

  /** Every step keeps the row invariant: in particular a queued row always has attempts left. */
  lemma InvStep(t: Table, e: Entry, t': Table)
    requires Inv(t) && Next(t, e, t')
    ensures Inv(t')
  {
    forall id | id in t' ensures RowInv(t'[id]) { RowInvStep(t, e, t', id); }
  }

  lemma {:induction false} InvRun(tables: seq<Table>, log: seq<Entry>, k: nat)
    requires IsRun(tables, log) && Inv(tables[0]) && k <= |log|
    ensures Inv(tables[k])
  {
    if k > 0 {
      InvRun(tables, log, k - 1);
      assert Next(tables[k - 1], log[k - 1], tables[k]);
      InvStep(tables[k - 1], log[k - 1], tables[k]);
    }
  }

  /** A row is never lost, a terminal one never changes, the first start is kept, and every change is stamped. */
  lemma StepFrame(t: Table, e: Entry, t': Table, id: Id)
    requires Next(t, e, t') && id in t
    ensures id in t'
    ensures IsTerminal(t[id].status) ==> t'[id] == t[id]
    ensures t[id].startedAt.Some? ==> t'[id].startedAt == t[id].startedAt
    ensures t'[id] != t[id] ==> t'[id].updatedAt == e.at
    ensures t'[id].maxAttempts == t[id].maxAttempts && t'[id].queuedAt == t[id].queuedAt && t'[id].tags == t[id].tags
  {
  }

  /** Terminal rows never change again, over any run. */
  lemma {:induction false} TerminalFrozen(tables: seq<Table>, log: seq<Entry>, id: Id, i: nat, j: nat)
    requires IsRun(tables, log) && i <= j <= |log|
    requires id in tables[i] && IsTerminal(tables[i][id].status)
    ensures id in tables[j] && tables[j][id] == tables[i][id]
    decreases j - i
  {
    if i < j {
      assert Next(tables[i], log[i], tables[i + 1]);
      StepFrame(tables[i], log[i], tables[i + 1], id);
      TerminalFrozen(tables, log, id, i + 1, j);
    }
  }

  // ---- lease exclusion ----

  predicate Claims(e: Entry, id: Id) {
    e.step.Claim? && e.step.claimed == Some(id)
  }

  predicate Extends(e: Entry, id: Id) {
    e.step.Heartbeat? && e.step.id == id && e.step.held
  }

  /** The entry is a reclaim that puts the row back in the queue. */
  predicate Requeues(t: Table, e: Entry, id: Id) {
    e.step.Reclaim? && id in ExpiredIds(t, e.at, e.step.locked)
    && t[id].status == Running && t[id].attempt < t[id].maxAttempts
  }

  /** Those are the steps on which a running row becomes queued. */
  lemma RequeuesExactly(t: Table, e: Entry, t': Table, id: Id)
    requires Next(t, e, t') && id in t
    ensures Requeues(t, e, id) <==> t[id].status == Running && t'[id].status == Queued
  {
  }

  /** The lease end last set by the claim at `i` or by a heartbeat that succeeded between `i` and `j`. */
  function LeaseEnd(log: seq<Entry>, id: Id, i: nat, j: nat): Time
    requires i < j <= |log| && Claims(log[i], id)
  {
    if j == i + 1 then log[i].at + log[i].step.seconds * SECOND
    else if Extends(log[j - 1], id) then log[j - 1].at + log[j - 1].step.seconds * SECOND
    else LeaseEnd(log, id, i, j - 1)
  }

  /** The row is held by the claiming worker until that lease end, or it is terminal. */
  predicate HeldOrDone(t: Table, id: Id, worker: string, lease: Time) {
    id in t && t[id].status != Queued
    && (IsActive(t[id].status) ==> t[id].worker == Some(worker) && t[id].lease == Some(lease))
  }

  lemma HeldStep(t: Table, e: Entry, t': Table, id: Id, worker: string, lease: Time)
    requires Next(t, e, t') && HeldOrDone(t, id, worker, lease) && !Requeues(t, e, id)
    ensures HeldOrDone(t', id, worker, if Extends(e, id) then e.at + e.step.seconds * SECOND else lease)
    ensures Extends(e, id) ==> e.step.worker == worker
    ensures !Claims(e, id)
  {
  }

  lemma HeldFirst(t: Table, e: Entry, t': Table, id: Id)
    requires Next(t, e, t') && Claims(e, id)
    ensures HeldOrDone(t', id, e.step.worker, e.at + e.step.seconds * SECOND)
  {
  }

  lemma HeldOnce(tables: seq<Table>, log: seq<Entry>, id: Id, i: nat, j: nat)
    requires IsRun(tables, log) && i + 1 < j <= |log| && Claims(log[i], id) && !Requeues(tables[j - 1], log[j - 1], id)
    requires HeldOrDone(tables[j - 1], id, log[i].step.worker, LeaseEnd(log, id, i, j - 1))
    ensures HeldOrDone(tables[j], id, log[i].step.worker, LeaseEnd(log, id, i, j))
  {
    HeldStep(tables[j - 1], log[j - 1], tables[j], id, log[i].step.worker, LeaseEnd(log, id, i, j - 1));
  }

  lemma {:induction false} HeldUntil(tables: seq<Table>, log: seq<Entry>, id: Id, i: nat, j: nat)
    requires IsRun(tables, log) && i < j <= |log| && Claims(log[i], id)
    requires forall k :: i < k < j ==> !Requeues(tables[k], log[k], id)
    ensures HeldOrDone(tables[j], id, log[i].step.worker, LeaseEnd(log, id, i, j))
    decreases j
  {
    if j == i + 1 {
      HeldFirst(tables[i], log[i], tables[j], id);
    } else {
      HeldUntil(tables, log, id, i, j - 1);
      HeldOnce(tables, log, id, i, j);
    }
  }

  lemma NobodyElse(tables: seq<Table>, log: seq<Entry>, id: Id, i: nat, k: nat)
    requires IsRun(tables, log) && i < k < |log| && Claims(log[i], id)
    requires forall m :: i < m <= k ==> !Requeues(tables[m], log[m], id)
    ensures !Claims(log[k], id) && (Extends(log[k], id) ==> log[k].step.worker == log[i].step.worker)
  {
    HeldUntil(tables, log, id, i, k);
    HeldStep(tables[k], log[k], tables[k + 1], id, log[i].step.worker, LeaseEnd(log, id, i, k));
  }

  /** As long as no reclaim requeues it, a claimed row stays with its worker and no one claims it. */
  lemma HeldWhileNotReclaimed(tables: seq<Table>, log: seq<Entry>, id: Id, i: nat, j: nat)
    requires IsRun(tables, log) && i < j <= |log| && Claims(log[i], id)
    requires forall k :: i < k < j ==> !Requeues(tables[k], log[k], id)
    ensures HeldOrDone(tables[j], id, log[i].step.worker, LeaseEnd(log, id, i, j))
    ensures forall k :: i < k < j ==> !Claims(log[k], id)
    ensures forall k :: i < k < j && Extends(log[k], id) ==> log[k].step.worker == log[i].step.worker
  {
    HeldUntil(tables, log, id, i, j);
    forall k | i < k < j
      ensures !Claims(log[k], id) && (Extends(log[k], id) ==> log[k].step.worker == log[i].step.worker)
    {
      NobodyElse(tables, log, id, i, k);
    }
  }

  /** The first reclaim after `i` that requeues the row, if there is one before `j`. */
  lemma {:induction false} FirstRequeue(tables: seq<Table>, log: seq<Entry>, id: Id, i: nat, j: nat)
    returns (found: Option<nat>)
    requires IsRun(tables, log) && i < j <= |log|
    ensures found.None? ==> forall k :: i < k < j ==> !Requeues(tables[k], log[k], id)
    ensures found.Some? ==> i < found.value < j && Requeues(tables[found.value], log[found.value], id)
    ensures found.Some? ==> forall k :: i < k < found.value ==> !Requeues(tables[k], log[k], id)
    decreases j
  {
    if j == i + 1 {
      found := None;
    } else {
      found := FirstRequeue(tables, log, id, i, j - 1);
      if found.None? && Requeues(tables[j - 1], log[j - 1], id) {
        found := Some(j - 1);
      }
    }
  }

  /**
   Lease exclusion. Between two claims of the same row lies a reclaim that requeued it, run
   strictly after the lease end the first worker had last set, with every heartbeat on the row
   up to then being that worker's own.
   */
  lemma LeaseExclusion(tables: seq<Table>, log: seq<Entry>, id: Id, i: nat, j: nat) returns (k: nat)
    requires IsRun(tables, log) && i < j < |log|
    requires Claims(log[i], id) && Claims(log[j], id)
    ensures i < k < j && Requeues(tables[k], log[k], id)
    ensures LeaseEnd(log, id, i, k) < log[k].at <= log[j].at
    ensures forall m :: i < m < k ==> !Claims(log[m], id)
    ensures forall m :: i < m < k && Extends(log[m], id) ==> log[m].step.worker == log[i].step.worker
  {
    var found := FirstRequeue(tables, log, id, i, j);
    assert Next(tables[j], log[j], tables[j + 1]);
    if found.None? {
      HeldWhileNotReclaimed(tables, log, id, i, j);
      assert false;
    }
    k := found.value;
    HeldWhileNotReclaimed(tables, log, id, i, k);
  }

  // ---- bounded attempts ----

  /** How often a row was claimed. */
  function ClaimCount(log: seq<Entry>, id: Id): nat {
    if log == [] then 0
    else ClaimCount(log[..|log| - 1], id) + if Claims(log[|log| - 1], id) then 1 else 0
  }

  function AttemptOf(t: Table, id: Id): nat {
    if id in t then t[id].attempt else 0
  }

  lemma AttemptStep(t: Table, e: Entry, t': Table, id: Id)
    requires Next(t, e, t')
    ensures AttemptOf(t', id) == AttemptOf(t, id) + if Claims(e, id) then 1 else 0
  {
  }

  /** A row's attempt counter is exactly the number of times it was claimed. */
  lemma {:induction false} AttemptCountsClaims(tables: seq<Table>, log: seq<Entry>, id: Id, k: nat)
    requires IsRun(tables, log) && k <= |log|
    ensures AttemptOf(tables[k], id) == AttemptOf(tables[0], id) + ClaimCount(log[..k], id)
  {
    if k > 0 {
      AttemptCountsClaims(tables, log, id, k - 1);
      assert log[..k][..k - 1] == log[..k - 1];
      assert Next(tables[k - 1], log[k - 1], tables[k]);
      AttemptStep(tables[k - 1], log[k - 1], tables[k], id);
    }
  }

  lemma {:induction false} RowPersists(tables: seq<Table>, log: seq<Entry>, id: Id, i: nat, j: nat)
    requires IsRun(tables, log) && i <= j <= |log| && id in tables[i]
    ensures id in tables[j] && tables[j][id].maxAttempts == tables[i][id].maxAttempts
    decreases j - i
  {
    if i < j {
      assert Next(tables[i], log[i], tables[i + 1]);
      StepFrame(tables[i], log[i], tables[i + 1], id);
      RowPersists(tables, log, id, i + 1, j);
    }
  }

  predicate FailsOnExpiry(t: Table, e: Entry, t': Table, id: Id) {
    e.step.Reclaim? && id in t && id in t' && t[id].status == Running && t'[id].status == Failed
  }

  function ExpiryError(claims: nat): string {
    "Worker lease expired after " + Strings.Decimal(claims) + " attempt(s)"
  }

  /**
   No row is claimed more often than its max_attempts, and one that failed on expiry says how often it was claimed.
   */
  lemma BoundedAttempts(tables: seq<Table>, log: seq<Entry>, id: Id)
    requires IsRun(tables, log) && tables[0] == map[] && id in tables[|log|]
    ensures ClaimCount(log, id) == tables[|log|][id].attempt <= tables[|log|][id].maxAttempts
    ensures tables[|log|][id].status == Queued ==> ClaimCount(log, id) < tables[|log|][id].maxAttempts
    ensures forall k :: 0 <= k < |log| && FailsOnExpiry(tables[k], log[k], tables[k + 1], id) ==>
      ClaimCount(log[..k], id) == tables[k][id].maxAttempts
        && tables[k + 1][id].error == Some(ExpiryError(ClaimCount(log[..k], id)))
  {
    InvRun(tables, log, |log|);
    AttemptCountsClaims(tables, log, id, |log|);
    assert log[..|log|] == log;
    forall k | 0 <= k < |log| && FailsOnExpiry(tables[k], log[k], tables[k + 1], id)
      ensures ClaimCount(log[..k], id) == tables[k][id].maxAttempts
      ensures tables[k + 1][id].error == Some(ExpiryError(ClaimCount(log[..k], id)))
    {
      InvRun(tables, log, k);
      assert RowInv(tables[k][id]);
      AttemptCountsClaims(tables, log, id, k);
      assert Next(tables[k], log[k], tables[k + 1]);
    }
  }

  // ---- draining ----

  /** How many claims and reclaims a row can still take. */
  function Rank(r: Row): nat {
    if IsTerminal(r.status) || r.attempt > r.maxAttempts then 0
    else if r.status == Queued then 2 * (r.maxAttempts - r.attempt)
    else if r.status == Running then 2 * (r.maxAttempts - r.attempt) + 1
    else 1
  }

  ghost function Weight(t: Table): nat
    decreases |t|
  {
    if t == map[] then 0 else
      var id :| id in t;
      Rank(t[id]) + Weight(t - {id})
  }

  lemma {:induction false} WeightSplit(t: Table, id: Id)
    requires id in t
    ensures Weight(t) == Rank(t[id]) + Weight(t - {id})
    decreases |t|
  {
    var c :| c in t && Weight(t) == Rank(t[c]) + Weight(t - {c});
    if c != id {
      WeightSplit(t - {c}, id);
      WeightSplit(t - {id}, c);
      assert t - {c} - {id} == t - {id} - {c};
    }
  }

  lemma WeightUpdate(t: Table, id: Id, r: Row)
    ensures Weight(t[id := r]) + (if id in t then Rank(t[id]) else 0) == Weight(t) + Rank(r)
  {
    var t' := t[id := r];
    WeightSplit(t', id);
    if id in t {
      WeightSplit(t, id);
      assert t' - {id} == t - {id};
    } else {
      assert t' - {id} == t;
    }
  }

  lemma ReclaimSplit(t: Table, now: Time, locked: set<Id>, id: Id)
    requires id in t
    ensures Reclaimed(t - {id}, now, locked) == Reclaimed(t, now, locked) - {id}
    ensures ExpiredIds(t - {id}, now, locked) == ExpiredIds(t, now, locked) - {id}
  {
  }

  lemma ReclaimSpendsRow(t: Table, now: Time, locked: set<Id>, id: Id)
    requires id in t && RowInv(t[id])
    ensures id in Reclaimed(t, now, locked)
    ensures Rank(Reclaimed(t, now, locked)[id]) + (if id in ExpiredIds(t, now, locked) then 1 else 0) <= Rank(t[id])
  {
  }

  /** A reclaim takes at least one unit of weight from each row it resolves. */
  lemma {:induction false} ReclaimSpends(t: Table, now: Time, locked: set<Id>)
    requires Inv(t)
    ensures Weight(Reclaimed(t, now, locked)) + |ExpiredIds(t, now, locked)| <= Weight(t)
    decreases |t|
  {
    if t == map[] {
      assert Reclaimed(t, now, locked) == map[] && ExpiredIds(t, now, locked) == {};
    } else {
      var id :| id in t;
      ReclaimSpends(t - {id}, now, locked);
      ReclaimSplit(t, now, locked, id);
      WeightSplit(t, id);
      ReclaimSpendsRow(t, now, locked, id);
      WeightSplit(Reclaimed(t, now, locked), id);
    }
  }

  /** The rows one step moves forward: the one it claims, or those it resolves. */
  function Moved(t: Table, e: Entry): nat {
    match e.step
    case Claim(_, _, _, _, claimed) => if claimed.Some? then 1 else 0
    case Reclaim(locked) => |ExpiredIds(t, e.at, locked)|
    case _ => 0
  }

  /** The weight a step brings in: only enqueuing adds any. */
  function Added(e: Entry): nat {
    if e.step.Enqueue? then 2 * e.step.maxAttempts else 0
  }

  /** A claim takes one unit from its row; the other changes of one row give it none. */
  lemma RankOfChange(r: Row, now: Time)
    requires RowInv(r)
    ensures forall worker, seconds :: r.status == Queued ==> Rank(Claimed(r, worker, seconds, now)) + 1 <= Rank(r)
    ensures Rank(CancelAsked(r, now)) <= Rank(r)
    ensures forall outcome, error :: MayFinish(r.status, outcome, error) ==> Rank(Finished(r, outcome, error, now)) == 0
  {
  }

  lemma ClaimSpends(t: Table, e: Entry, t': Table)
    requires Inv(t) && Next(t, e, t') && e.step.Claim?
    ensures Weight(t') + Moved(t, e) <= Weight(t)
  {
    if e.step.claimed.Some? {
      var id := e.step.claimed.value;
      RankOfChange(t[id], e.at);
      WeightUpdate(t, id, Claimed(t[id], e.step.worker, e.step.seconds, e.at));
    }
  }

  /** A step that changes one row of the table and gives it no weight. */
  lemma ChangeSpends(t: Table, id: Id, r: Row)
    requires id in t && Rank(r) <= Rank(t[id])
    ensures Weight(t[id := r]) <= Weight(t)
  {
    WeightUpdate(t, id, r);
  }

  /** Weight never grows but by enqueuing, and falls by one for every row claimed or reclaimed. */
  lemma StepSpends(t: Table, e: Entry, t': Table)
    requires Inv(t) && Next(t, e, t')
    ensures Weight(t') + Moved(t, e) <= Weight(t) + Added(e)
  {
    match e.step
    case Claim(_, _, _, _, _) => ClaimSpends(t, e, t');
    case Heartbeat(id, _, _, held) => if held { ChangeSpends(t, id, t'[id]); }
    case Reclaim(locked) => ReclaimSpends(t, e.at, locked);
    case Enqueue(id, maxAttempts, tags) => WeightUpdate(t, id, Fresh(maxAttempts, tags, e.at));
    case RequestCancel(id) =>
      if id in t {
        RankOfChange(t[id], e.at);
        ChangeSpends(t, id, CancelAsked(t[id], e.at));
      }
    case Finish(id, _, _, _) =>
      RankOfChange(t[id], e.at);
      ChangeSpends(t, id, t'[id]);
  }

  ghost function TotalMoved(tables: seq<Table>, log: seq<Entry>): nat
    requires |log| <= |tables|
  {
    if log == [] then 0 else TotalMoved(tables, log[..|log| - 1]) + Moved(tables[|log| - 1], log[|log| - 1])
  }

  function TotalAdded(log: seq<Entry>): nat {
    if log == [] then 0 else TotalAdded(log[..|log| - 1]) + Added(log[|log| - 1])
  }

  /**
   Every run makes a bounded number of claims and reclaims: at most two per attempt enqueued, plus what it started with.
   */
  lemma {:induction false} RunSpends(tables: seq<Table>, log: seq<Entry>, k: nat)
    requires IsRun(tables, log) && Inv(tables[0]) && k <= |log|
    ensures Weight(tables[k]) + TotalMoved(tables, log[..k]) <= Weight(tables[0]) + TotalAdded(log[..k])
  {
    if k > 0 {
      RunSpends(tables, log, k - 1);
      assert log[..k][..k - 1] == log[..k - 1];
      InvRun(tables, log, k - 1);
      assert Next(tables[k - 1], log[k - 1], tables[k]);
      StepSpends(tables[k - 1], log[k - 1], tables[k]);
    }
  }

  ghost predicate IsDrained(t: Table) {
    forall id :: id in t ==> IsTerminal(t[id].status)
  }

  /**
   No row is ever stuck. Once the leases have run out, a table that a reclaim leaves as it is, and
   from which a worker serving every queued row gets nothing, holds only terminal rows.
   */
  lemma QuietMeansDrained(t: Table, now: Time, worker: string, seconds: int, only: Only)
    requires Inv(t)
    requires forall id :: id in t && t[id].lease.Some? ==> t[id].lease.value < now
    requires forall id :: id in t && t[id].status == Queued ==>
      only.column in t[id].tags && t[id].tags[only.column] in only.values
    requires Reclaimed(t, now, {}) == t
    requires ClaimStep(t, t, worker, seconds, only, now, {}, None)
    ensures IsDrained(t)
  {
    forall id | id in t ensures IsTerminal(t[id].status) {
      assert RowInv(t[id]);
      assert Expired(t[id], now) ==> Reclaimed(t, now, {})[id] == Resolved(t[id], now);
    }
  }

  /** A worker asking for these column values gets at every row that is still to be worked on. */
  ghost predicate Serves(only: Only, t: Table) {
    forall id :: id in t && !IsTerminal(t[id].status) ==>
      only.column in t[id].tags && t[id].tags[only.column] in only.values
  }

  /** Nothing happens but claims and reclaims, none before the time given. */
  predicate OnlyServed(log: seq<Entry>, from: Time) {
    forall k :: 0 <= k < |log| ==> (log[k].step.Claim? || log[k].step.Reclaim?) && from <= log[k].at
  }

  lemma RunLonger(t: Table, e: Entry, tables: seq<Table>, log: seq<Entry>, from: Time, longer: seq<Table>,
    entries: seq<Entry>)
    requires IsRun(tables, log) && Next(t, e, tables[0]) && OnlyServed(log, e.at)
    requires from <= e.at && (e.step.Claim? || e.step.Reclaim?)
    requires longer == [t] + tables && entries == [e] + log
    ensures IsRun(longer, entries) && OnlyServed(entries, from)
    ensures |entries| == |log| + 1 && longer[0] == t && longer[|entries|] == tables[|log|]
  {
    forall k | 0 <= k < |entries| ensures Next(longer[k], entries[k], longer[k + 1]) {
      if k == 0 {
        assert longer[0] == t && entries[0] == e && longer[1] == tables[0];
      } else {
        assert longer[k] == tables[k - 1] && entries[k] == log[k - 1] && longer[k + 1] == tables[k];
        assert Next(tables[k - 1], log[k - 1], tables[k]);
      }
    }
  }

  lemma ServesStep(t: Table, e: Entry, t': Table, only: Only)
    requires Next(t, e, t') && t'.Keys == t.Keys && Serves(only, t)
    ensures Serves(only, t')
  {
    forall id | id in t' && !IsTerminal(t'[id].status)
      ensures only.column in t'[id].tags && t'[id].tags[only.column] in only.values
    {
      StepFrame(t, e, t', id);
    }
  }

  /** A queued row lets some row be claimed. */
  lemma ClaimIsPossible(t: Table, id: Id, now: Time, worker: string, seconds: int, only: Only)
    returns (e: Entry, t': Table)
    requires Inv(t) && Serves(only, t) && id in t && t[id].status == Queued && worker != "" && seconds > 0
    ensures e.at == now && e.step.Claim? && Next(t, e, t') && t'.Keys == t.Keys && Weight(t') < Weight(t)
  {
    var candidates := set c | c in t && Eligible(t[c], only);
    assert id in candidates;
    var first := OldestExists(t, only, {}, candidates);
    assert forall c :: c in t && Eligible(t[c], only) ==> c in candidates;
    t' := t[first := Claimed(t[first], worker, seconds, now)];
    e := Entry(now, Claim(worker, seconds, only, {}, Some(first)));
    ClaimSpends(t, e, t');
  }

  /** Once the lease of an active row has run out, a reclaim resolves it. */
  lemma ReclaimIsPossible(t: Table, id: Id, from: Time) returns (e: Entry, t': Table)
    requires Inv(t) && id in t && IsActive(t[id].status)
    ensures from <= e.at && e.step.Reclaim? && Next(t, e, t') && t'.Keys == t.Keys && Weight(t') < Weight(t)
  {
    assert RowInv(t[id]);
    var now := if t[id].lease.value < from then from else t[id].lease.value + 1;
    e, t' := Entry(now, Reclaim({})), Reclaimed(t, now, {});
    assert id in ExpiredIds(t, now, {});
    ReclaimSpends(t, now, {});
  }

  /** A table with work left takes a step that lowers its weight. */
  lemma ServedStep(t: Table, from: Time, worker: string, seconds: int, only: Only) returns (e: Entry, t': Table)
    requires Inv(t) && Serves(only, t) && !IsDrained(t) && worker != "" && seconds > 0
    ensures from <= e.at && (e.step.Claim? || e.step.Reclaim?) && Next(t, e, t')
    ensures Inv(t') && Serves(only, t') && Weight(t') < Weight(t)
  {
    var id :| id in t && !IsTerminal(t[id].status);
    if t[id].status == Queued {
      e, t' := ClaimIsPossible(t, id, from, worker, seconds, only);
    } else {
      e, t' := ReclaimIsPossible(t, id, from);
    }
    InvStep(t, e, t');
    ServesStep(t, e, t', only);
  }

  /**
   The queue drains. From every table, at any time, claims and reclaims alone bring every row to a terminal status, in
   no more steps than the table's weight, even if no worker ever finishes a row.
   */
  lemma {:induction false} Drains(t: Table, from: Time, worker: string, seconds: int, only: Only)
    returns (tables: seq<Table>, log: seq<Entry>)
    requires Inv(t) && Serves(only, t) && worker != "" && seconds > 0
    ensures IsRun(tables, log) && tables[0] == t && IsDrained(tables[|log|])
    ensures OnlyServed(log, from) && |log| <= Weight(t)
    decreases Weight(t)
  {
    if IsDrained(t) {
      tables, log := [t], [];
    } else {
      var e, t' := ServedStep(t, from, worker, seconds, only);
      var rest, entries := Drains(t', e.at, worker, seconds, only);
      tables, log := [t] + rest, [e] + entries;
      RunLonger(t, e, rest, entries, from, tables, log);
    }
  }
}
