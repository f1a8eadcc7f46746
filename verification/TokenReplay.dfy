/** The used-token table of inbound callers: a token is let in once, though expired rows are pruned. */
module TokenReplay {
  import opened Wrappers

  /** Times are in milliseconds; the token's own are in seconds, as JSON numbers, fractions included. */
  datatype Token = Token(iss: string, jti: string, iat: real, exp: real, nbf: Option<real>, genuine: bool)

  datatype Caller = Caller(id: string, active: bool, rateLimitPerMinute: int)

  datatype Used = Used(expiresAt: int, usedAt: int)

  datatype AuthFailure =
    | NotHttpsIssuer
    | UnknownCaller
    | Suspended
    | DidNotVerify
    | LivesTooLong
    | BadJti
    | RateLimited
    | AlreadyUsed

  type Key = (string, string)

  const MAXIMUM_LIFETIME := 300.0
  const PRUNE_INTERVAL := 600_000
  const WINDOW := 60_000

  datatype State = State(callers: map<string, Caller>, used: map<Key, Used>, lastPruned: int)

  // ---- the checks ----

  predicate HasPrefix(s: string, prefix: string) {
    prefix <= s
  }

  /** What the token library checks beside the signature, issuer, audience and algorithm that `genuine` stands for. */
  predicate InTime(token: Token, now: nat) {
    var seconds := (now / 1000) as real;
    && token.exp > seconds && token.iat <= seconds && seconds - token.iat <= MAXIMUM_LIFETIME
    && (token.nbf.Some? ==> token.nbf.value <= seconds)
  }

  /** The time of expiry as it is recorded: in whole milliseconds, as `Date` keeps it. */
  function ExpiresAt(exp: real): int {
    (exp * 1000.0).Floor
  }

  function RecentUses(used: map<Key, Used>, callerId: string, since: int): nat {
    |set k | k in used && k.0 == callerId && used[k].usedAt >= since|
  }

  /** Why the token is refused; nothing when it is let in. */
  function Refusal(s: State, token: Token, now: nat): Option<AuthFailure> {
    if !HasPrefix(token.iss, "https://") then Some(NotHttpsIssuer)
    else if token.iss !in s.callers then Some(UnknownCaller)
    else
      var caller := s.callers[token.iss];
      if !caller.active then Some(Suspended)
      else if !token.genuine || !InTime(token, now) then Some(DidNotVerify)
      else if token.exp - token.iat > MAXIMUM_LIFETIME then Some(LivesTooLong)
      else if |token.jti| < 8 || |token.jti| > 200 then Some(BadJti)
      else if RecentUses(s.used, caller.id, now - WINDOW) >= caller.rateLimitPerMinute then Some(RateLimited)
      else if (caller.id, token.jti) in s.used then Some(AlreadyUsed)
      else None
  }

  function Pruned(used: map<Key, Used>, before: int): map<Key, Used> {
    map k | k in used && used[k].expiresAt >= before :: used[k]
  }

  function Claimed(s: State, token: Token, now: nat): map<Key, Used>
    requires token.iss in s.callers
  {
    s.used[(s.callers[token.iss].id, token.jti) := Used(ExpiresAt(token.exp), now)]
  }

  /** The state after a verify: a token let in is recorded, and every ten minutes the expired rows go. */
  function AfterVerify(s: State, token: Token, now: nat): State {
    if Refusal(s, token, now).Some? then s
    else if now - s.lastPruned > PRUNE_INTERVAL then s.(used := Pruned(Claimed(s, token, now), now), lastPruned := now)
    else s.(used := Claimed(s, token, now))
  }

  // ---- the service ----

  class CallerAuthService {
    var callers: map<string, Caller>
    var used: map<Key, Used>
    var lastPruned: int

    ghost function View(): State
      reads this
    {
      State(callers, used, lastPruned)
    }

    constructor (callers: map<string, Caller>, used: map<Key, Used>)
      ensures View() == State(callers, used, 0)
    {
      this.callers, this.used, this.lastPruned := callers, used, 0;
    }

    /** The insert fails on a row with the same caller and jti. */
    method ClaimToken(callerId: string, jti: string, expiresAt: int, now: nat) returns (ok: bool)
      modifies this`used
      ensures ok <==> (callerId, jti) !in old(used)
      ensures used == if ok then old(used)[(callerId, jti) := Used(expiresAt, now)] else old(used)
    {
      if (callerId, jti) in used { return false; }
      used := used[(callerId, jti) := Used(expiresAt, now)];
      return true;
    }

    method PruneExpiredTokens(before: int)
      modifies this`used
      ensures used == Pruned(old(used), before)
    {
      used := map k | k in used && !(used[k].expiresAt < before) :: used[k];
    }

    method VerifyWith(token: Token, now: nat) returns (failure: Option<AuthFailure>)
      ensures failure.None? <==>
        token.genuine && InTime(token, now) && token.exp - token.iat <= MAXIMUM_LIFETIME && 8 <= |token.jti| <= 200
      ensures token.iss in callers && callers[token.iss].active && HasPrefix(token.iss, "https://") && failure.Some? ==>
        failure == Refusal(View(), token, now)
    {
      if !token.genuine || !InTime(token, now) { return Some(DidNotVerify); }
      if token.exp - token.iat > MAXIMUM_LIFETIME { return Some(LivesTooLong); }
      if |token.jti| < 8 || |token.jti| > 200 { return Some(BadJti); }
      return None;
    }

    method Verify(token: Token, now: nat) returns (r: Result<Caller, AuthFailure>)
      modifies this`used, this`lastPruned
      ensures View() == AfterVerify(old(View()), token, now)
      ensures match old(Refusal(View(), token, now))
        case Some(failure) => r == Failure(failure)
        case None => token.iss in callers && r == Success(callers[token.iss])
    {
      if !HasPrefix(token.iss, "https://") { return Failure(NotHttpsIssuer); }
      if token.iss !in callers { return Failure(UnknownCaller); }
      var caller := callers[token.iss];
      if !caller.active { return Failure(Suspended); }
      var failure := VerifyWith(token, now);
      if failure.Some? { return Failure(failure.value); }
      if RecentUses(used, caller.id, now - WINDOW) >= caller.rateLimitPerMinute { return Failure(RateLimited); }
      var ok := ClaimToken(caller.id, token.jti, ExpiresAt(token.exp), now);
      if !ok { return Failure(AlreadyUsed); }
      if now - lastPruned > PRUNE_INTERVAL {
        lastPruned := now;
        PruneExpiredTokens(now);
      }
      return Success(caller);
    }
  }

  // ---- runs ----

  /**
   What may happen: a verify, a prune by another instance, or any change of the callers table that keeps the used
   tokens.
   */
  datatype Event =
    | Verify(token: Token, now: nat)
    | Prune(now: nat)
    | Callers(callers: map<string, Caller>, now: nat)

  function Next(s: State, e: Event): State {
    match e
    case Verify(token, now) => AfterVerify(s, token, now)
    case Prune(now) => s.(used := Pruned(s.used, now))
    case Callers(callers, _) => s.(callers := callers)
  }

  function Run(s: State, events: seq<Event>): State {
    if events == [] then s else Next(Run(s, events[..|events| - 1]), events[|events| - 1])
  }

  predicate Monotone(events: seq<Event>) {
    forall i, j :: 0 <= i < j < |events| ==> events[i].now <= events[j].now
  }

  /** The event at this place let its token in. */
  predicate Accepted(s: State, events: seq<Event>, i: nat)
    requires i < |events|
  {
    events[i].Verify? && Refusal(Run(s, events[..i]), events[i].token, events[i].now).None?
  }

  /** The caller, jti and exp that the event let in. */
  function Identity(s: State, events: seq<Event>, i: nat): (string, string, real)
    requires i < |events| && Accepted(s, events, i)
  {
    var token := events[i].token;
    (Run(s, events[..i]).callers[token.iss].id, token.jti, token.exp)
  }

  ghost predicate OnRecord(s: State, id: (string, string, real)) {
    (id.0, id.1) in s.used && s.used[(id.0, id.1)].expiresAt == ExpiresAt(id.2)
  }

  /** A token let in earlier is still on record with its own expiry, or it has expired. */
  ghost predicate Remembered(s: State, id: (string, string, real), now: int) {
    ExpiresAt(id.2) < now || OnRecord(s, id)
  }

  lemma RememberedAfterPrune(used: map<Key, Used>, key: Key, before: int)
    ensures key in Pruned(used, before) <==> key in used && used[key].expiresAt >= before
    ensures key in Pruned(used, before) ==> Pruned(used, before)[key] == used[key]
  {
  }

  lemma RememberStep(s: State, e: Event, id: (string, string, real), clock: int)
    requires clock <= e.now && Remembered(s, id, clock)
    ensures Remembered(Next(s, e), id, e.now)
  {
    var key := (id.0, id.1);
    match e
    case Verify(token, now) =>
      if Refusal(s, token, now).None? { RememberedAfterPrune(Claimed(s, token, now), key, now); }
    case Prune(now) => RememberedAfterPrune(s.used, key, now);
    case Callers(_, _) =>
  }

  lemma RememberFirst(s: State, token: Token, now: nat)
    requires Refusal(s, token, now).None?
    ensures Remembered(AfterVerify(s, token, now), (s.callers[token.iss].id, token.jti, token.exp), now)
  {
    RememberedAfterPrune(Claimed(s, token, now), (s.callers[token.iss].id, token.jti), now);
  }

  /** From the moment a token is let in it is remembered at every later time of the run. */
  lemma {:induction false} RememberedLater(s: State, events: seq<Event>, i: nat, n: nat)
    requires Monotone(events) && i < n <= |events| && Accepted(s, events, i)
    ensures Remembered(Run(s, events[..n]), Identity(s, events, i), events[n - 1].now)
  {
    assert events[..n][..n - 1] == events[..n - 1];
    if n == i + 1 {
      RememberFirst(Run(s, events[..i]), events[i].token, events[i].now);
    } else {
      RememberedLater(s, events, i, n - 1);
      RememberStep(Run(s, events[..n - 1]), events[n - 1], Identity(s, events, i), events[n - 2].now);
    }
  }

  // ---- replays ----

  /** The step deletes the rows that have expired. */
  predicate Prunes(s: State, e: Event) {
    e.Prune? || (e.Verify? && Refusal(s, e.token, e.now).None? && e.now - s.lastPruned > PRUNE_INTERVAL)
  }

  lemma OnlyPruningForgets(s: State, e: Event, id: (string, string, real))
    requires OnRecord(s, id) && !OnRecord(Next(s, e), id)
    ensures Prunes(s, e) && ExpiresAt(id.2) < e.now
  {
    match e
    case Verify(token, now) => RememberedAfterPrune(Claimed(s, token, now), (id.0, id.1), now);
    case Prune(now) => RememberedAfterPrune(s.used, (id.0, id.1), now);
    case Callers(_, _) =>
  }

  lemma ForgottenAtOnce(s: State, token: Token, now: nat)
    requires Refusal(s, token, now).None?
    ensures var id := (s.callers[token.iss].id, token.jti, token.exp);
      OnRecord(AfterVerify(s, token, now), id) || (Prunes(s, Verify(token, now)) && ExpiresAt(id.2) < now)
  {
    RememberedAfterPrune(Claimed(s, token, now), (s.callers[token.iss].id, token.jti), now);
  }

  /** A token let in at `i` and not on record at `n` was pruned in between, after it expired. */
  lemma {:induction false} ForgottenByPruning(s: State, events: seq<Event>, i: nat, n: nat) returns (k: nat)
    requires i < n <= |events| && Accepted(s, events, i) && !OnRecord(Run(s, events[..n]), Identity(s, events, i))
    ensures i <= k < n && Prunes(Run(s, events[..k]), events[k]) && ExpiresAt(events[i].token.exp) < events[k].now
    decreases n
  {
    assert events[..n][..n - 1] == events[..n - 1];
    if n == i + 1 {
      ForgottenAtOnce(Run(s, events[..i]), events[i].token, events[i].now);
      k := i;
    } else if OnRecord(Run(s, events[..n - 1]), Identity(s, events, i)) {
      OnlyPruningForgets(Run(s, events[..n - 1]), events[n - 1], Identity(s, events, i));
      k := n - 1;
    } else {
      k := ForgottenByPruning(s, events, i, n - 1);
    }
  }

  /**
   Between the recorded expiry and the next full second lies a millisecond: the row may be pruned while the token
   library, which counts in full seconds, still takes the token for valid.
   */
  predicate HasGap(exp: real) {
    exp > 0.0 && exp != exp.Floor as real && ExpiresAt(exp) % 1000 != 999
  }

  lemma GapExactly(exp: real, now: nat)
    requires exp > (now / 1000) as real && ExpiresAt(exp) < now
    ensures HasGap(exp) && now < (exp.Floor + 1) * 1000
  {
    var seconds := now / 1000;
    assert exp.Floor >= seconds;
    assert (exp.Floor as real) * 1000.0 <= exp * 1000.0;
    assert ExpiresAt(exp) >= exp.Floor * 1000;
  }

  /** A token let in a second time was pruned in between, after its expiry and before the next full second. */
  lemma ReplayNeedsPrune(s: State, events: seq<Event>, i: nat, j: nat) returns (k: nat)
    requires Monotone(events) && i < j < |events|
    requires Accepted(s, events, i) && Accepted(s, events, j) && Identity(s, events, i) == Identity(s, events, j)
    ensures i <= k < j && Prunes(Run(s, events[..k]), events[k])
    ensures ExpiresAt(events[i].token.exp) < events[k].now <= events[j].now < (events[i].token.exp.Floor + 1) * 1000
    ensures HasGap(events[i].token.exp)
  {
    k := ForgottenByPruning(s, events, i, j);
    GapExactly(events[j].token.exp, events[j].now);
  }

  /** No token is let in twice, unless its expiry leaves a gap; one in whole seconds never does. */
  lemma NoReplay(s: State, events: seq<Event>, i: nat, j: nat)
    requires Monotone(events) && i < j < |events|
    requires Accepted(s, events, i) && Accepted(s, events, j)
    ensures Identity(s, events, i) == Identity(s, events, j) ==> HasGap(events[i].token.exp)
    ensures events[i].token.exp == events[i].token.exp.Floor as real ==>
      Identity(s, events, i) != Identity(s, events, j)
  {
    if Identity(s, events, i) == Identity(s, events, j) {
      var k := ReplayNeedsPrune(s, events, i, j);
    }
  }

  /** Some run with a clock that never goes back lets one caller, jti and exp in twice. */
  ghost predicate LetInTwice(s: State, events: seq<Event>, exp: real) {
    exists i, j :: 0 <= i < j < |events| && Monotone(events) && Accepted(s, events, i) && Accepted(s, events, j)
      && Identity(s, events, i) == Identity(s, events, j) && events[i].token.exp == exp
  }

  ghost predicate MayBeLetInTwice(exp: real) {
    exists s, events :: LetInTwice(s, events, exp)
  }

  lemma NoUsesYet(used: map<Key, Used>, callerId: string, since: int)
    ensures used == map[] ==> RecentUses(used, callerId, since) == 0
  {
    var hits := set k | k in used && k.0 == callerId && used[k].usedAt >= since;
    assert hits <= used.Keys;
  }

  lemma GapTime(exp: real)
    requires HasGap(exp)
    ensures ExpiresAt(exp) >= 0 && (ExpiresAt(exp) + 1) / 1000 == exp.Floor
  {
    assert exp.Floor as real <= exp < exp.Floor as real + 1.0;
    assert exp.Floor * 1000 <= ExpiresAt(exp) < exp.Floor * 1000 + 1000;
  }

  /** Right after its recorded expiry a token with a gap is let in, recorded, and pruned away again. */
  lemma GapLetsIn(s: State, token: Token, now: nat)
    requires HasGap(token.exp) && now == ExpiresAt(token.exp) + 1 && HasPrefix(token.iss, "https://")
      && |token.jti| == 8
    requires token.iat == token.exp.Floor as real && token.nbf.None? && token.genuine
    requires token.iss in s.callers && s.callers[token.iss].active && s.callers[token.iss].rateLimitPerMinute > 0
    requires s.used == map[] && s.lastPruned == now
    ensures Refusal(s, token, now).None? && Next(AfterVerify(s, token, now), Prune(now)) == s
  {
    GapTime(token.exp);
    NoUsesYet(s.used, s.callers[token.iss].id, now - WINDOW);
  }

  lemma PrunedInGap(s: State, token: Token, now: nat, events: seq<Event>)
    requires Refusal(s, token, now).None? && Next(AfterVerify(s, token, now), Prune(now)) == s
    requires events == [Verify(token, now), Prune(now), Verify(token, now)]
    ensures LetInTwice(s, events, token.exp)
  {
    assert events[..0] == [] && events[..1] == [events[0]] && events[..2][..1] == events[..1];
    assert Run(s, events[..1]) == AfterVerify(s, token, now);
    assert Run(s, events[..2]) == s;
    assert Accepted(s, events, 0) && Accepted(s, events, 2);
  }

  /** A token can be let in twice exactly when its expiry leaves a gap. */
  lemma LetInTwiceExactly(exp: real)
    ensures MayBeLetInTwice(exp) <==> HasGap(exp)
  {
    if HasGap(exp) {
      GapTime(exp);
      var now := ExpiresAt(exp) + 1;
      var token := Token("https://a", "12345678", exp.Floor as real, exp, None, true);
      var s := State(map[token.iss := Caller("1", true, 1)], map[], now);
      GapLetsIn(s, token, now);
      PrunedInGap(s, token, now, [Verify(token, now), Prune(now), Verify(token, now)]);
    }
    if MayBeLetInTwice(exp) {
      var s, events: seq<Event> :| LetInTwice(s, events, exp);
      var i, j :| 0 <= i < j < |events| && Monotone(events) && Accepted(s, events, i) && Accepted(s, events, j)
        && Identity(s, events, i) == Identity(s, events, j) && events[i].token.exp == exp;
      NoReplay(s, events, i, j);
    }
  }

  /** The id under which an issuer's caller is registered, if it is. */
  function CallerId(s: State, iss: string): Option<string> {
    if iss in s.callers then Some(s.callers[iss].id) else None
  }

  lemma OnlyCallersChange(s: State, e: Event, iss: string)
    ensures CallerId(Next(s, e), iss) != CallerId(s, iss) ==> e.Callers?
  {
  }

  /** Between two moments with different ids for an issuer lies a change of the callers table that changes the id. */
  lemma {:induction false} IdChanges(s: State, events: seq<Event>, iss: string, i: nat, j: nat) returns (k: nat)
    requires i <= j <= |events| && CallerId(Run(s, events[..i]), iss) != CallerId(Run(s, events[..j]), iss)
    ensures i <= k < j && events[k].Callers?
    ensures CallerId(Run(s, events[..k]), iss) != CallerId(Run(s, events[..k + 1]), iss)
    decreases j
  {
    assert events[..j][..j - 1] == events[..j - 1];
    if CallerId(Run(s, events[..j - 1]), iss) != CallerId(Run(s, events[..j]), iss) {
      OnlyCallersChange(Run(s, events[..j - 1]), events[j - 1], iss);
      k := j - 1;
    } else {
      k := IdChanges(s, events, iss, i, j - 1);
    }
  }

  /** Without a gap, one issuer, jti and exp is let in twice only if in between the issuer's caller gets another id. */
  lemma ReplayNeedsNewCaller(s: State, events: seq<Event>, i: nat, j: nat) returns (k: nat)
    requires Monotone(events) && i < j < |events|
    requires Accepted(s, events, i) && Accepted(s, events, j)
    requires events[i].token.iss == events[j].token.iss && events[i].token.jti == events[j].token.jti
    requires events[i].token.exp == events[j].token.exp && !HasGap(events[i].token.exp)
    ensures i < k < j && events[k].Callers?
    ensures CallerId(Run(s, events[..k]), events[i].token.iss) != CallerId(Run(s, events[..k + 1]), events[i].token.iss)
  {
    NoReplay(s, events, i, j);
    k := IdChanges(s, events, events[i].token.iss, i, j);
  }

  /** The tokens let in so far, never pruned. */
  function LetInSoFar(s: State, events: seq<Event>, n: nat): set<(string, string, real)>
    requires n <= |events|
  {
    if n == 0 then {} else
      LetInSoFar(s, events, n - 1) + if Accepted(s, events, n - 1) then {Identity(s, events, n - 1)} else {}
  }

  lemma {:induction false} LetInAt(s: State, events: seq<Event>, n: nat, id: (string, string, real)) returns (i: nat)
    requires n <= |events| && id in LetInSoFar(s, events, n)
    ensures i < n && Accepted(s, events, i) && Identity(s, events, i) == id
  {
    if Accepted(s, events, n - 1) && Identity(s, events, n - 1) == id {
      i := n - 1;
    } else {
      i := LetInAt(s, events, n - 1, id);
    }
  }

  /**
   The pruned table refines the set that is never pruned: a token without a gap is let in only when it is not in that
   set, and every token let in is then added.
   */
  lemma RefinesNeverPruned(s: State, events: seq<Event>, n: nat)
    requires Monotone(events) && n < |events| && Accepted(s, events, n)
    ensures Identity(s, events, n) in LetInSoFar(s, events, n) ==> HasGap(events[n].token.exp)
    ensures LetInSoFar(s, events, n + 1) == LetInSoFar(s, events, n) + {Identity(s, events, n)}
  {
    if Identity(s, events, n) in LetInSoFar(s, events, n) {
      var i := LetInAt(s, events, n, Identity(s, events, n));
      NoReplay(s, events, i, n);
    }
  }

  // ---- refusals are earned ----

  predicate IsRowOf(id: (string, string, real), key: Key, row: Used) {
    (id.0, id.1) == key && ExpiresAt(id.2) == row.expiresAt
  }

  /** Some earlier event let in a token with this caller, jti and expiry, at this time. */
  ghost predicate LetIn(s: State, events: seq<Event>, key: Key, row: Used) {
    exists i :: 0 <= i < |events| && Accepted(s, events, i)
      && IsRowOf(Identity(s, events, i), key, row) && events[i].now == row.usedAt
  }

  lemma LetInLonger(s: State, events: seq<Event>, e: Event, key: Key, row: Used)
    requires LetIn(s, events, key, row)
    ensures LetIn(s, events + [e], key, row)
  {
    var longer := events + [e];
    var i :| 0 <= i < |events| && Accepted(s, events, i)
      && IsRowOf(Identity(s, events, i), key, row) && events[i].now == row.usedAt;
    assert longer[..i] == events[..i];
    assert Accepted(s, longer, i) && Identity(s, longer, i) == Identity(s, events, i);
  }

  lemma LetInNow(s: State, events: seq<Event>, token: Token, now: nat)
    requires Refusal(Run(s, events), token, now).None?
    ensures LetIn(s, events + [Verify(token, now)], (Run(s, events).callers[token.iss].id, token.jti),
      Used(ExpiresAt(token.exp), now))
  {
    var longer := events + [Verify(token, now)];
    assert longer[..|events|] == events;
    assert Accepted(s, longer, |events|);
    assert Identity(s, longer, |events|) == (Run(s, events).callers[token.iss].id, token.jti, token.exp);
  }

  /**
   Every row of the table was put there by an accepted verify of the run, so `AlreadyUsed` is said only of a jti let in
   before.
   */
  lemma {:induction false} RowsWereLetIn(s: State, events: seq<Event>, key: Key)
    requires s.used == map[] && key in Run(s, events).used
    ensures LetIn(s, events, key, Run(s, events).used[key])
  {
    if events != [] {
      var front, e := events[..|events| - 1], events[|events| - 1];
      assert events == front + [e];
      var before := Run(s, front);
      var row := Run(s, events).used[key];
      if key in before.used && before.used[key] == row {
        RowsWereLetIn(s, front, key);
        LetInLonger(s, front, e, key, row);
      } else {
        assert e.Verify? && Refusal(before, e.token, e.now).None?
          && key == (before.callers[e.token.iss].id, e.token.jti);
        LetInNow(s, front, e.token, e.now);
      }
    }
  }

  // ---- the table stays small ----

  /** No row is older than five minutes before the last prune. */
  ghost predicate Fresh(s: State) {
    forall k :: k in s.used ==>
      s.used[k].expiresAt <= s.used[k].usedAt + 300_000 && s.used[k].usedAt >= s.lastPruned - 300_000
  }

  lemma FreshStep(s: State, e: Event)
    requires Fresh(s) && s.lastPruned <= e.now
    ensures Fresh(Next(s, e)) && Next(s, e).lastPruned <= e.now
  {
    match e
    case Verify(token, now) =>
      if Refusal(s, token, now).None? {
        assert ExpiresAt(token.exp) <= now + 300_000 by {
          assert token.exp <= (now / 1000) as real + 300.0;
          assert token.exp * 1000.0 <= (now / 1000 * 1000 + 300_000) as real;
        }
      }
    case Prune(_) =>
    case Callers(_, _) =>
  }

  lemma {:induction false} FreshRun(s: State, events: seq<Event>)
    requires Monotone(events) && Fresh(s) && forall i :: 0 <= i < |events| ==> s.lastPruned <= events[i].now
    ensures Fresh(Run(s, events)) && (events != [] ==> Run(s, events).lastPruned <= events[|events| - 1].now)
  {
    if events != [] {
      var front := events[..|events| - 1];
      FreshRun(s, front);
      if front != [] { assert front[|front| - 1] == events[|events| - 2]; }
      FreshStep(Run(s, front), events[|events| - 1]);
    }
  }

  /** Right after a token is let in, the table holds no row used more than fifteen minutes before. */
  lemma TableIsRecent(s: State, events: seq<Event>, key: Key)
    requires Monotone(events) && Fresh(s) && forall i :: 0 <= i < |events| ==> s.lastPruned <= events[i].now
    requires events != [] && Accepted(s, events, |events| - 1) && key in Run(s, events).used
    ensures Run(s, events).used[key].usedAt >= events[|events| - 1].now - 900_000
  {
    FreshRun(s, events);
  }

  // ---- the checks, one by one ----

  /** The minute's count: a row counts for its caller exactly when it was used since the time given. */
  lemma RecentUsesExactly(used: map<Key, Used>, key: Key, row: Used, callerId: string, since: int)
    requires key !in used
    ensures RecentUses(map[], callerId, since) == 0
    ensures RecentUses(used[key := row], callerId, since)
      == RecentUses(used, callerId, since) + if key.0 == callerId && since <= row.usedAt then 1 else 0
  {
    var none: map<Key, Used> := map[];
    NoUsesYet(none, callerId, since);
    var before, after := UsesSince(used, callerId, since), UsesSince(used[key := row], callerId, since);
    assert RecentUses(used, callerId, since) == |before| && RecentUses(used[key := row], callerId, since) == |after|;
    assert key !in before;
    if key.0 == callerId && since <= row.usedAt { assert after == before + {key}; } else { assert after == before; }
  }

  function UsesSince(used: map<Key, Used>, callerId: string, since: int): set<Key> {
    set k | k in used && k.0 == callerId && used[k].usedAt >= since
  }

  /** Genuine, valid at this full second, and issued in the five minutes before it. */
  predicate Verifies(token: Token, seconds: int) {
    && token.genuine
    && token.exp > seconds as real
    && (token.nbf.Some? ==> token.nbf.value <= seconds as real)
    && seconds as real - 300.0 <= token.iat <= seconds as real
  }

  /** What the token itself must be: it verifies, lives at most five minutes and has a jti of 8 to 200 characters. */
  predicate IsGood(token: Token, now: nat) {
    && Verifies(token, now / 1000)
    && token.exp - token.iat <= 300.0
    && 8 <= |token.jti| <= 200
  }

  /** A token is let in exactly when a known, active caller sends a good one, new, within its limit for the minute. */
  lemma LetInExactly(s: State, token: Token, now: nat)
    ensures Refusal(s, token, now).None? <==>
      && "https://" <= token.iss && token.iss in s.callers && s.callers[token.iss].active
      && IsGood(token, now)
      && RecentUses(s.used, s.callers[token.iss].id, now - 60_000) < s.callers[token.iss].rateLimitPerMinute
      && (s.callers[token.iss].id, token.jti) !in s.used
  {
  }

  /** The first reason that applies is the one given. */
  lemma RefusedExactly(s: State, token: Token, now: nat)
    ensures !("https://" <= token.iss) <==> Refusal(s, token, now) == Some(NotHttpsIssuer)
    ensures "https://" <= token.iss ==> (token.iss !in s.callers <==> Refusal(s, token, now) == Some(UnknownCaller))
    ensures "https://" <= token.iss && token.iss in s.callers ==>
      var caller, refusal := s.callers[token.iss], Refusal(s, token, now);
      && (!caller.active <==> refusal == Some(Suspended))
      && (caller.active && IsGood(token, now) ==>
            && (refusal == Some(RateLimited) <==>
                  RecentUses(s.used, caller.id, now - 60_000) >= caller.rateLimitPerMinute)
            && (refusal == Some(AlreadyUsed) <==>
                  refusal != Some(RateLimited) && (caller.id, token.jti) in s.used))
      && var verifies := caller.active && Verifies(token, now / 1000);
      && (caller.active ==> (refusal == Some(DidNotVerify) <==> !verifies))
      && (refusal == Some(LivesTooLong) <==> verifies && token.exp - token.iat > 300.0)
      && (refusal == Some(BadJti) <==>
            verifies && token.exp - token.iat <= 300.0 && (|token.jti| < 8 || |token.jti| > 200))
  {
  }

  /** A token let in is recorded with its expiry and the time; after ten minutes the rows that have expired go. */
  lemma RecordedExactly(s: State, token: Token, now: nat)
    requires Refusal(s, token, now).None?
    ensures var key, after := (s.callers[token.iss].id, token.jti), AfterVerify(s, token, now);
      var recorded := s.used[key := Used((token.exp * 1000.0).Floor, now)];
      && after.callers == s.callers
      && (now - s.lastPruned <= 600_000 ==> after.used == recorded && after.lastPruned == s.lastPruned)
      && (now - s.lastPruned > 600_000 ==>
            && after.lastPruned == now
            && (forall k :: k in after.used <==> k in recorded && recorded[k].expiresAt >= now)
            && (forall k :: k in after.used ==> after.used[k] == recorded[k]))
  {
  }
}
