/**
 What the walker computes, said without walking: each stage's final state from the list of the rule
 firings that reached it. The walk is proved equal to this, and the invariants of a run follow.
 */
module WalkerSpec {
  import opened Wrappers
  import opened JsonValues
  import opened Walker

  // ---- positions in a list ----

  function LastIndex<T>(s: seq<T>, p: T -> bool): (r: Option<nat>)
    ensures r.Some? ==> r.value < |s| && p(s[r.value]) && forall i :: r.value < i < |s| ==> !p(s[i])
    ensures r.None? ==> forall i :: 0 <= i < |s| ==> !p(s[i])
  {
    if s == [] then None else if p(s[|s| - 1]) then Some(|s| - 1) else LastIndex(s[..|s| - 1], p)
  }

  function FirstIndex<T>(s: seq<T>, p: T -> bool): (r: Option<nat>)
    ensures r.Some? ==> r.value < |s| && p(s[r.value]) && forall i :: 0 <= i < r.value ==> !p(s[i])
    ensures r.None? ==> forall i :: 0 <= i < |s| ==> !p(s[i])
  {
    if s == [] then None else
      var r := FirstIndex(s[..|s| - 1], p);
      if r.Some? then r else if p(s[|s| - 1]) then Some(|s| - 1) else None
  }

  // ---- the declarative description of a stage ----

  predicate Ends(f: Firing) { f.kind == Complete || f.kind == Fail }

  predicate EndsWithTime(f: Firing) { Ends(f) && f.ts.Some? }

  predicate FailsWithMessage(f: Firing) { f.kind == Fail && f.message.Some? }

  /** The last complete or fail decides; otherwise any firing makes the stage active. */
  function StatusOf(fs: seq<Firing>): Status {
    match LastIndex(fs, Ends)
    case Some(i) => if fs[i].kind == Fail then Failed else Done
    case None => if fs == [] then Pending else Active
  }

  /** The time of the first firing, or else of the first complete or fail that has one. */
  function StartOf(fs: seq<Firing>): Option<Stamp> {
    if fs == [] then None
    else if fs[0].ts.Some? then fs[0].ts
    else match FirstIndex(fs, EndsWithTime) case Some(i) => fs[i].ts case None => None
  }

  function EndOf(fs: seq<Firing>): Option<Stamp> {
    match LastIndex(fs, EndsWithTime) case Some(i) => fs[i].ts case None => None
  }

  function ErrorOf(fs: seq<Firing>): Option<string> {
    match LastIndex(fs, FailsWithMessage) case Some(i) => fs[i].message case None => None
  }

  function Blank(d: StageDefinition): StageState {
    StageState(d.id, d.caption, d.description, Pending, None, None, None)
  }

  function DescribedBy(d: StageDefinition, fs: seq<Firing>): StageState {
    StageState(d.id, d.caption, d.description, StatusOf(fs), StartOf(fs), EndOf(fs), ErrorOf(fs))
  }

  predicate IsStage(m: Manifest, id: string) {
    exists i :: 0 <= i < |m.stages| && m.stages[i].id == id
  }

  predicate IsConditional(m: Manifest, id: string) {
    exists i :: 0 <= i < |m.stages| && m.stages[i].id == id && m.stages[i].conditional
  }

  /** Some unsuppressed event activates the stage. */
  predicate IsActivated(m: Manifest, events: seq<Event>, id: string) {
    exists i :: 0 <= i < |events| && !Suppressed(events[i], m.suppress) && Activates(events[i], m.activators, id)
  }

  /** A definition of the stage; a later definition with the same id replaces an earlier one. */
  function DefinitionOf(defs: seq<StageDefinition>, id: string): StageDefinition
    requires exists i :: 0 <= i < |defs| && defs[i].id == id
  {
    if defs[|defs| - 1].id == id then defs[|defs| - 1] else DefinitionOf(defs[..|defs| - 1], id)
  }

  function OneFiring(event: Event, rule: EventRule, id: string): seq<Firing> {
    if Matches(event, rule.when) && rule.stage == id then [FiringOf(event, rule)] else []
  }

  function RuleFirings(event: Event, rules: seq<EventRule>, id: string): seq<Firing> {
    if rules == [] then []
    else RuleFirings(event, rules[..|rules| - 1], id) + OneFiring(event, rules[|rules| - 1], id)
  }

  /**
   The firings that reach a stage: of unsuppressed events, and for a conditional stage from its activating event on.
   */
  function Firings(m: Manifest, events: seq<Event>, id: string): seq<Firing> {
    if events == [] then [] else
      var last := events[|events| - 1];
      Firings(m, events[..|events| - 1], id)
      + if !Suppressed(last, m.suppress) && (IsConditional(m, id) ==> IsActivated(m, events, id))
        then RuleFirings(last, m.rules, id) else []
  }

  function Described(m: Manifest, events: seq<Event>, id: string): StageState
    requires IsStage(m, id)
  {
    var s := DescribedBy(DefinitionOf(m.stages, id), Firings(m, events, id));
    if IsConditional(m, id) && !IsActivated(m, events, id) then s.(state := Skipped) else s
  }

  // ---- folding firings gives the description ----

  function Folded(s: StageState, fs: seq<Firing>): StageState {
    if fs == [] then s else Advanced(Folded(s, fs[..|fs| - 1]), fs[|fs| - 1])
  }

  lemma {:induction false} FoldedAppend(s: StageState, a: seq<Firing>, b: seq<Firing>)
    ensures Folded(s, a + b) == Folded(Folded(s, a), b)
  {
    if b == [] {
      assert a + b == a;
    } else {
      assert (a + b)[..|a + b| - 1] == a + b[..|b| - 1];
      FoldedAppend(s, a, b[..|b| - 1]);
    }
  }

  lemma StatusSnoc(fs: seq<Firing>, f: Firing, all: seq<Firing>, s: StageState)
    requires all == fs + [f] && s.state == StatusOf(fs)
    ensures Advanced(s, f).state == StatusOf(all)
  {
    assert all[..|fs|] == fs;
  }

  lemma StartSnoc(fs: seq<Firing>, f: Firing, all: seq<Firing>, s: StageState)
    requires all == fs + [f] && s.startedAt == StartOf(fs) && s.state == StatusOf(fs)
    ensures Advanced(s, f).startedAt == StartOf(all)
  {
    assert all[..|fs|] == fs;
    if fs != [] { assert all[0] == fs[0]; }
  }

  lemma EndSnoc(fs: seq<Firing>, f: Firing, all: seq<Firing>, s: StageState)
    requires all == fs + [f] && s.completedAt == EndOf(fs) && s.errorMessage == ErrorOf(fs)
    ensures Advanced(s, f).completedAt == EndOf(all) && Advanced(s, f).errorMessage == ErrorOf(all)
  {
    assert all[..|fs|] == fs;
  }

  /** Folding any list of firings gives its description. */
  lemma {:induction false} FoldedIsDescribed(d: StageDefinition, fs: seq<Firing>)
    ensures Folded(Blank(d), fs) == DescribedBy(d, fs)
  {
    if fs != [] {
      var front, last := fs[..|fs| - 1], fs[|fs| - 1];
      assert fs == front + [last];
      FoldedIsDescribed(d, front);
      var s := DescribedBy(d, front);
      StatusSnoc(front, last, fs, s);
      StartSnoc(front, last, fs, s);
      EndSnoc(front, last, fs, s);
    }
  }

  // ---- the walk, seen from one stage ----

  ghost predicate IdsMatch(s: State) {
    forall id :: id in s.stages ==> s.stages[id].id == id
  }

  lemma {:induction false} InitialFacts(defs: seq<StageDefinition>)
    ensures var s := Initial(defs);
      && |s.order| == |defs| && (forall i :: 0 <= i < |defs| ==> s.order[i] == defs[i].id)
      && s.activated == {} && IdsMatch(s)
      && (forall id :: id in s.stages <==> exists i :: 0 <= i < |defs| && defs[i].id == id)
      && (forall id :: id in s.stages ==> s.stages[id] == Blank(DefinitionOf(defs, id)))
  {
    if defs != [] {
      var front, last := defs[..|defs| - 1], defs[|defs| - 1];
      InitialFacts(front);
      forall id | id in Initial(front).stages ensures exists i :: 0 <= i < |defs| && defs[i].id == id {
        var i :| 0 <= i < |front| && front[i].id == id;
        assert defs[i].id == id;
      }
      forall id | exists i :: 0 <= i < |defs| && defs[i].id == id ensures id in Initial(defs).stages {
        var i :| 0 <= i < |defs| && defs[i].id == id;
        if i < |front| { assert front[i].id == id; }
      }
    }
  }

  lemma {:induction false} InitialConditional(defs: seq<StageDefinition>)
    ensures forall id :: id in Initial(defs).conditional <==>
      exists i :: 0 <= i < |defs| && defs[i].id == id && defs[i].conditional
  {
    if defs != [] {
      var front, last := defs[..|defs| - 1], defs[|defs| - 1];
      InitialConditional(front);
      forall id | id in Initial(front).conditional
        ensures exists i :: 0 <= i < |defs| && defs[i].id == id && defs[i].conditional
      {
        var i :| 0 <= i < |front| && front[i].id == id && front[i].conditional;
        assert defs[i] == front[i];
      }
      forall id | exists i :: 0 <= i < |defs| && defs[i].id == id && defs[i].conditional
        ensures id in Initial(defs).conditional
      {
        var i :| 0 <= i < |defs| && defs[i].id == id && defs[i].conditional;
        if i < |front| { assert front[i] == defs[i]; }
      }
    }
  }

  lemma FoldedOne(s: StageState, f: Firing)
    ensures Folded(s, [f]) == Advanced(s, f)
  {
    assert [f][..0] == [];
    assert Folded(s, [f][..0]) == s;
  }

  lemma RuleProjects(s: State, event: Event, rule: EventRule, id: string)
    requires IdsMatch(s) && id in s.stages
    ensures var s' := AfterRule(s, event, rule);
      IdsMatch(s') && id in s'.stages
      && s'.stages[id] == if IsOpen(s, id) then Folded(s.stages[id], OneFiring(event, rule, id)) else s.stages[id]
  {
    FoldedOne(s.stages[id], FiringOf(event, rule));
  }

  /** One event's rules, seen from one stage. */
  lemma {:induction false} RulesProject(s: State, event: Event, rules: seq<EventRule>, id: string)
    requires IdsMatch(s) && id in s.stages
    ensures var s' := AfterRules(s, event, rules);
      IdsMatch(s') && id in s'.stages
      && s'.stages[id] == if IsOpen(s, id) then Folded(s.stages[id], RuleFirings(event, rules, id)) else s.stages[id]
  {
    if rules != [] {
      var front, last := rules[..|rules| - 1], rules[|rules| - 1];
      RulesProject(s, event, front, id);
      AfterRulesFrame(s, event, front);
      RuleProjects(AfterRules(s, event, front), event, last, id);
      FoldedAppend(s.stages[id], RuleFirings(event, front, id), OneFiring(event, last, id));
    }
  }

  lemma IsActivatedSnoc(m: Manifest, front: seq<Event>, last: Event, id: string)
    ensures IsActivated(m, front + [last], id) <==>
      IsActivated(m, front, id) || (!Suppressed(last, m.suppress) && Activates(last, m.activators, id))
  {
    var events := front + [last];
    if IsActivated(m, front, id) {
      var i :| 0 <= i < |front| && !Suppressed(front[i], m.suppress) && Activates(front[i], m.activators, id);
      assert events[i] == front[i];
    }
    if !Suppressed(last, m.suppress) && Activates(last, m.activators, id) {
      assert events[|front|] == last;
    }
  }

  /** The activated set holds exactly the conditional stages some unsuppressed event activated. */
  lemma {:induction false} ActivatedProjects(m: Manifest, events: seq<Event>)
    ensures forall id :: id in Walked(m, events).activated <==>
      IsStage(m, id) && IsConditional(m, id) && IsActivated(m, events, id)
  {
    InitialFacts(m.stages);
    InitialConditional(m.stages);
    if events != [] {
      var front, last := events[..|events| - 1], events[|events| - 1];
      ActivatedProjects(m, front);
      assert events == front + [last];
      WalkFrame(Initial(m.stages), front, m);
      AfterRulesFrame(AfterActivators(Walked(m, front), last, m.activators), last, m.rules);
      forall id
        ensures id in Walked(m, events).activated <==>
          IsStage(m, id) && IsConditional(m, id) && IsActivated(m, events, id)
      {
        IsActivatedSnoc(m, front, last, id);
      }
    }
  }

  lemma OpenWhen(m: Manifest, events: seq<Event>, id: string)
    requires IsStage(m, id)
    ensures IsOpen(Walked(m, events), id) <==> (IsConditional(m, id) ==> IsActivated(m, events, id))
    ensures id in Walked(m, events).stages
    ensures id in Walked(m, events).conditional <==> IsConditional(m, id)
  {
    InitialFacts(m.stages);
    InitialConditional(m.stages);
    WalkFrame(Initial(m.stages), events, m);
    ActivatedProjects(m, events);
  }

  /** A stage's state during the walk is the fold of the firings that reached it. */
  lemma {:induction false} WalkProjects(m: Manifest, events: seq<Event>, id: string)
    requires IsStage(m, id)
    ensures IdsMatch(Walked(m, events)) && id in Walked(m, events).stages
    ensures Walked(m, events).stages[id] == DescribedBy(DefinitionOf(m.stages, id), Firings(m, events, id))
  {
    var d := DefinitionOf(m.stages, id);
    InitialFacts(m.stages);
    if events == [] {
      FoldedIsDescribed(d, []);
    } else {
      var front, last := events[..|events| - 1], events[|events| - 1];
      WalkProjects(m, front, id);
      OpenWhen(m, events, id);
      if !Suppressed(last, m.suppress) {
        var s := AfterActivators(Walked(m, front), last, m.activators);
        RulesProject(s, last, m.rules, id);
        AfterRulesFrame(s, last, m.rules);
        var more := if IsOpen(s, id) then RuleFirings(last, m.rules, id) else [];
        FoldedIsDescribed(d, Firings(m, front, id));
        FoldedAppend(Blank(d), Firings(m, front, id), more);
        FoldedIsDescribed(d, Firings(m, front, id) + more);
      } else {
        assert Firings(m, front, id) + [] == Firings(m, front, id);
      }
    }
  }

  lemma {:induction false} NoFiringBeforeActivation(m: Manifest, events: seq<Event>, id: string)
    requires IsConditional(m, id) && !IsActivated(m, events, id)
    ensures Firings(m, events, id) == []
  {
    if events != [] {
      var front, last := events[..|events| - 1], events[|events| - 1];
      assert events == front + [last];
      IsActivatedSnoc(m, front, last, id);
      NoFiringBeforeActivation(m, front, id);
    }
  }

  /** The walker returns, in manifest order, exactly the declarative description of every stage. */
  lemma WalkerRefinesDescription(m: Manifest, events: seq<Event>)
    ensures HasItsStages(Walked(m, events))
    ensures |Results(Walked(m, events))| == |m.stages|
    ensures forall i :: 0 <= i < |m.stages| ==>
      IsStage(m, m.stages[i].id) && Results(Walked(m, events))[i] == Described(m, events, m.stages[i].id)
  {
    WalkedHasItsStages(m, events);
    InitialFacts(m.stages);
    WalkFrame(Initial(m.stages), events, m);
    forall i | 0 <= i < |m.stages|
      ensures IsStage(m, m.stages[i].id) && Results(Walked(m, events))[i] == Described(m, events, m.stages[i].id)
    {
      var id := m.stages[i].id;
      assert IsStage(m, id);
      WalkProjects(m, events, id);
      OpenWhen(m, events, id);
      if IsConditional(m, id) && !IsActivated(m, events, id) {
        NoFiringBeforeActivation(m, events, id);
      }
      assert Walked(m, events).order[i] == id;
    }
  }

  // ---- invariants of a run ----

  /** A conditional stage not activated so far is pending, with nothing recorded. */
  lemma UnactivatedIsPending(m: Manifest, events: seq<Event>, id: string)
    requires IsStage(m, id) && id in Walked(m, events).conditional && id !in Walked(m, events).activated
    ensures id in Walked(m, events).stages && Walked(m, events).stages[id] == Blank(DefinitionOf(m.stages, id))
  {
    OpenWhen(m, events, id);
    NoFiringBeforeActivation(m, events, id);
    WalkProjects(m, events, id);
  }

  lemma {:induction false} FiringsGrow(m: Manifest, events: seq<Event>, more: seq<Event>, id: string)
    ensures Firings(m, events, id) <= Firings(m, events + more, id)
  {
    if more == [] {
      assert events + more == events;
    } else {
      assert (events + more)[..|events + more| - 1] == events + more[..|more| - 1];
      FiringsGrow(m, events, more[..|more| - 1], id);
    }
  }

  lemma {:induction false} EndedStaysEnded(a: seq<Firing>, b: seq<Firing>)
    requires a <= b
    ensures StatusOf(a) in {Done, Failed} ==> StatusOf(b) in {Done, Failed}
    ensures StartOf(a).Some? ==> StartOf(b) == StartOf(a)
  {
    if StatusOf(a) in {Done, Failed} {
      var i := LastIndex(a, Ends).value;
      assert Ends(b[i]);
    }
    if StartOf(a).Some? && a[0].ts.None? {
      var i := FirstIndex(a, EndsWithTime).value;
      assert EndsWithTime(b[i]);
      assert forall k :: 0 <= k < i ==> a[k] == b[k];
    }
  }

  /** As events arrive, an ended stage never goes back to pending or active, and a start once recorded is kept. */
  lemma StagesOnlyMoveOn(m: Manifest, events: seq<Event>, more: seq<Event>, id: string)
    requires IsStage(m, id)
    ensures id in Walked(m, events).stages && id in Walked(m, events + more).stages
    ensures var before, after := Walked(m, events).stages[id], Walked(m, events + more).stages[id];
      && (before.state in {Done, Failed} ==> after.state in {Done, Failed})
      && (before.startedAt.Some? ==> after.startedAt == before.startedAt)
  {
    WalkProjects(m, events, id);
    WalkProjects(m, events + more, id);
    FiringsGrow(m, events, more, id);
    EndedStaysEnded(Firings(m, events, id), Firings(m, events + more, id));
  }

  /** A walk can be resumed after any prefix. */
  lemma {:induction false} WalkResumes(s: State, events: seq<Event>, more: seq<Event>, m: Manifest)
    ensures WalkFrom(s, events + more, m) == WalkFrom(WalkFrom(s, events, m), more, m)
  {
    if more == [] {
      assert events + more == events;
    } else {
      assert (events + more)[..|events + more| - 1] == events + more[..|more| - 1];
      WalkResumes(s, events, more[..|more| - 1], m);
    }
  }

  function Unsuppressed(events: seq<Event>, m: Manifest): seq<Event> {
    if events == [] then [] else
      var front, last := Unsuppressed(events[..|events| - 1], m), events[|events| - 1];
      if Suppressed(last, m.suppress) then front else front + [last]
  }

  /** Suppressed events leave no trace: the walk is that of the other events. */
  lemma {:induction false} SuppressedLeavesNoTrace(s: State, events: seq<Event>, m: Manifest)
    ensures WalkFrom(s, events, m) == WalkFrom(s, Unsuppressed(events, m), m)
  {
    if events != [] {
      SuppressedLeavesNoTrace(s, events[..|events| - 1], m);
      var front, last := Unsuppressed(events[..|events| - 1], m), events[|events| - 1];
      if !Suppressed(last, m.suppress) { assert (front + [last])[..|front|] == front; }
    }
  }
}
