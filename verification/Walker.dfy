/** The presentation walker: a workflow's events, walked through its manifest into the state of each stage. */
module Walker {
  import opened Wrappers
  import opened JsonValues

  // ---- the manifest ----

  datatype StageDefinition = StageDefinition(id: string, caption: string, description: Option<string>,
    conditional: bool)

  /** What a payload field is compared with. */
  type Scalar = j: Json | !j.JArr? && !j.JObj? witness JNull

  datatype EventMatch = EventMatch(
    step: Option<string>, stepPrefix: Option<string>, hookEventType: Option<string>,
    payloadEquals: Option<seq<(string, Scalar)>>)

  datatype Kind = Start | Progress | Complete | Fail

  datatype EventRule = EventRule(stage: string, when: EventMatch, kind: Option<Kind>)

  datatype ActivatorRule = ActivatorRule(when: EventMatch, activatesStageIds: seq<string>,
    fromPayloadPath: Option<string>)

  datatype Manifest = Manifest(
    stages: seq<StageDefinition>, suppress: seq<EventMatch>, activators: seq<ActivatorRule>, rules: seq<EventRule>)

  // ---- events ----

  /** An event is a JSON object; the walker reads its named fields and paths into it. */
  type Event = Json

  predicate IsSet(o: Option<string>) {
    o.Some? && o.value != ""
  }

  function OrEmpty(o: Option<string>): string {
    match o case None => "" case Some(s) => s
  }

  predicate StartsWith(s: string, prefix: string) {
    |prefix| <= |s| && s[..|prefix|] == prefix
  }

  predicate EndsWith(s: string, suffix: string) {
    |suffix| <= |s| && s[|s| - |suffix|..] == suffix
  }

  predicate Matches(event: Event, m: EventMatch) {
    var hook, step := TextField(event, "hook_event_type"), TextField(event, "step");
    && (IsSet(m.hookEventType) ==> hook == m.hookEventType)
    && (IsSet(m.step) ==> step == m.step)
    && (IsSet(m.stepPrefix) ==> IsSet(step) && StartsWith(step.value, m.stepPrefix.value))
    && (m.payloadEquals.Some? ==>
      forall i :: 0 <= i < |m.payloadEquals.value| ==>
        ReadPath(event, m.payloadEquals.value[i].0) == Some(m.payloadEquals.value[i].1))
    && (IsSet(m.hookEventType) || IsSet(m.step) || IsSet(m.stepPrefix) || m.payloadEquals.Some?)
  }

  predicate Suppressed(event: Event, rules: seq<EventMatch>) {
    exists i :: 0 <= i < |rules| && Matches(event, rules[i])
  }

  predicate IsFailureEvent(event: Event) {
    var hook := OrEmpty(TextField(event, "hook_event_type"));
    EndsWith(hook, ".failed") || EndsWith(hook, ".error")
  }

  function InferKind(event: Event): Kind {
    var hook, step := OrEmpty(TextField(event, "hook_event_type")), OrEmpty(TextField(event, "step"));
    if EndsWith(hook, ".failed") || EndsWith(step, "_failed") then Fail
    else if EndsWith(hook, ".completed") || EndsWith(step, "_complete") then Complete
    else Progress
  }

  /** Failure events win over the rule's declared kind. */
  function KindOf(event: Event, rule: EventRule): Kind {
    if IsFailureEvent(event) then Fail
    else match rule.kind case Some(k) => k case None => InferKind(event)
  }

  /** A time as given, or the ISO form of a millisecond count. */
  datatype Stamp = IsoText(text: string) | IsoOfMillis(ms: real)

  function EventTimestamp(event: Event): Option<Stamp> {
    var created := TextField(event, "created_at");
    if IsSet(created) then Some(IsoText(created.value))
    else match Field(event, "timestamp") case Some(JNum(ms)) => Some(IsoOfMillis(ms)) case _ => None
  }

  // ---- stages ----

  datatype Status = Pending | Active | Done | Skipped | Failed

  datatype StageState = StageState(
    id: string, caption: string, description: Option<string>, state: Status,
    startedAt: Option<Stamp>, completedAt: Option<Stamp>, errorMessage: Option<string>)

  /** One rule matching one event, for the stage it names. */
  datatype Firing = Firing(kind: Kind, ts: Option<Stamp>, message: Option<string>)

  function FiringOf(event: Event, rule: EventRule): Firing {
    Firing(KindOf(event, rule), EventTimestamp(event), TextField(event, "message"))
  }

  function Later<T>(a: Option<T>, b: Option<T>): Option<T> {
    if b.Some? then b else a
  }

  function Advanced(s: StageState, f: Firing): StageState {
    match f.kind
    case Fail => s.(state := Failed, errorMessage := Later(s.errorMessage, f.message),
                    startedAt := Later(f.ts, s.startedAt), completedAt := Later(s.completedAt, f.ts))
    case Complete => s.(state := Done, startedAt := Later(f.ts, s.startedAt), completedAt := Later(s.completedAt, f.ts))
    case _ => if s.state == Pending then s.(state := Active, startedAt := Later(s.startedAt, f.ts)) else s
  }

  datatype State = State(stages: map<string, StageState>, activated: set<string>, order: seq<string>,
    conditional: set<string>)

  function Initial(defs: seq<StageDefinition>): State {
    if defs == [] then State(map[], {}, [], {}) else
      var s, d := Initial(defs[..|defs| - 1]), defs[|defs| - 1];
      s.(stages := s.stages[d.id := StageState(d.id, d.caption, d.description, Pending, None, None, None)],
         order := s.order + [d.id],
         conditional := if d.conditional then s.conditional + {d.id} else s.conditional)
  }

  function TextsOf(items: seq<Json>): seq<string> {
    if items == [] then []
    else if items[0].JStr? then [items[0].s] + TextsOf(items[1..])
    else TextsOf(items[1..])
  }

  /** The stage ids a matching activator names, listed and read from the event. */
  function NamedIds(event: Event, rule: ActivatorRule): seq<string> {
    var read := if IsSet(rule.fromPayloadPath) then ReadPath(event, rule.fromPayloadPath.value) else None;
    rule.activatesStageIds + match read case Some(JArr(items)) => TextsOf(items) case _ => []
  }

  predicate Activates(event: Event, rules: seq<ActivatorRule>, id: string) {
    exists i :: 0 <= i < |rules| && Matches(event, rules[i].when) && id in NamedIds(event, rules[i])
  }

  lemma ActivatesSnoc(event: Event, rules: seq<ActivatorRule>, i: nat)
    requires i < |rules|
    ensures forall id :: Activates(event, rules[..i + 1], id) <==>
      Activates(event, rules[..i], id) || (Matches(event, rules[i].when) && id in NamedIds(event, rules[i]))
  {
    forall id
      ensures Activates(event, rules[..i], id) || (Matches(event, rules[i].when) && id in NamedIds(event, rules[i]))
        ==> Activates(event, rules[..i + 1], id)
    {
      if Activates(event, rules[..i], id) {
        var k :| 0 <= k < i && Matches(event, rules[..i][k].when) && id in NamedIds(event, rules[..i][k]);
        assert rules[..i + 1][k] == rules[..i][k];
      } else {
        assert rules[..i + 1][i] == rules[i];
      }
    }
    forall id | Activates(event, rules[..i + 1], id)
      ensures Activates(event, rules[..i], id) || (Matches(event, rules[i].when) && id in NamedIds(event, rules[i]))
    {
      var k :| 0 <= k < i + 1 && Matches(event, rules[..i + 1][k].when) && id in NamedIds(event, rules[..i + 1][k]);
      if k < i { assert rules[..i][k] == rules[..i + 1][k]; }
    }
  }

  function AfterActivators(s: State, event: Event, rules: seq<ActivatorRule>): State {
    s.(activated := s.activated + set id | id in s.conditional && id in s.stages && Activates(event, rules, id))
  }

  predicate IsOpen(s: State, id: string) {
    id in s.conditional ==> id in s.activated
  }

  function AfterRule(s: State, event: Event, rule: EventRule): State {
    if Matches(event, rule.when) && rule.stage in s.stages && IsOpen(s, s.stages[rule.stage].id)
    then s.(stages := s.stages[rule.stage := Advanced(s.stages[rule.stage], FiringOf(event, rule))])
    else s
  }

  function AfterRules(s: State, event: Event, rules: seq<EventRule>): State {
    if rules == [] then s else AfterRule(AfterRules(s, event, rules[..|rules| - 1]), event, rules[|rules| - 1])
  }

  function AfterEvent(s: State, event: Event, m: Manifest): State {
    if Suppressed(event, m.suppress) then s
    else AfterRules(AfterActivators(s, event, m.activators), event, m.rules)
  }

  /** Walking on from a state: the walk can be resumed after any prefix. */
  function WalkFrom(s: State, events: seq<Event>, m: Manifest): State {
    if events == [] then s else AfterEvent(WalkFrom(s, events[..|events| - 1], m), events[|events| - 1], m)
  }

  function Finalized(s: State, id: string): StageState
    requires id in s.stages
  {
    if id in s.conditional && id !in s.activated && s.stages[id].state == Pending
    then s.stages[id].(state := Skipped) else s.stages[id]
  }

  predicate HasItsStages(s: State) {
    forall i :: 0 <= i < |s.order| ==> s.order[i] in s.stages
  }

  /** The final states, in manifest order. */
  function Results(s: State): seq<StageState>
    requires HasItsStages(s)
  {
    seq(|s.order|, i requires 0 <= i < |s.order| => Finalized(s, s.order[i]))
  }

  // ---- the walker ----

  /** What one firing does to a stage. */
  method AdvanceStage(before: StageState, kind: Kind, ts: Option<Stamp>, message: Option<string>)
    returns (stage: StageState)
    ensures stage == Advanced(before, Firing(kind, ts, message))
  {
    stage := before;
    if kind == Fail {
      stage := stage.(state := Failed);
      if message.Some? { stage := stage.(errorMessage := message); }
      if ts.Some? && stage.startedAt.None? { stage := stage.(startedAt := ts); }
      if ts.Some? { stage := stage.(completedAt := ts); }
      return;
    }
    if kind == Start || kind == Progress {
      if stage.state == Pending {
        stage := stage.(state := Active);
        if ts.Some? { stage := stage.(startedAt := ts); }
      }
      return;
    }
    stage := stage.(state := Done);
    if ts.Some? && stage.startedAt.None? { stage := stage.(startedAt := ts); }
    if ts.Some? { stage := stage.(completedAt := ts); }
  }

  /** The kind of a firing: a failing event fails the stage whatever the rule says. */
  method FiringKind(event: Event, rule: EventRule) returns (kind: Kind)
    ensures kind == KindOf(event, rule)
  {
    var eventIsFailure := IsFailureEvent(event);
    kind := if eventIsFailure then Fail else match rule.kind case Some(k) => k case None => InferKind(event);
  }

  class WalkerState {
    var stages: map<string, StageState>
    var activated: set<string>
    var order: seq<string>
    var conditional: set<string>

    ghost function View(): State
      reads this
    {
      State(stages, activated, order, conditional)
    }

    constructor (defs: seq<StageDefinition>)
      ensures View() == Initial(defs)
    {
      stages, activated, order, conditional := map[], {}, [], {};
      new;
      for i := 0 to |defs|
        invariant View() == Initial(defs[..i])
      {
        assert defs[..i + 1][..i] == defs[..i];
        var d := defs[i];
        stages := stages[d.id := StageState(d.id, d.caption, d.description, Pending, None, None, None)];
        order := order + [d.id];
        if d.conditional {
          conditional := conditional + {d.id};
        }
      }
      assert defs[..|defs|] == defs;
    }

    /** Add the ids that name conditional stages. */
    method ActivateAll(ids: seq<string>)
      modifies this`activated
      ensures activated == old(activated) + set id | id in conditional && id in stages && id in ids
    {
      for k := 0 to |ids|
        invariant activated == old(activated) + set id | id in conditional && id in stages && id in ids[..k]
      {
        assert ids[..k + 1] == ids[..k] + [ids[k]];
        if ids[k] in stages && ids[k] in conditional {
          activated := activated + {ids[k]};
        }
      }
      assert ids[..|ids|] == ids;
    }

    method RunActivators(event: Event, rules: seq<ActivatorRule>)
      modifies this`activated
      ensures View() == AfterActivators(old(View()), event, rules)
    {
      for i := 0 to |rules|
        invariant activated == old(activated) + set id | id in conditional && id in stages
          && Activates(event, rules[..i], id)
      {
        ActivatesSnoc(event, rules, i);
        if Matches(event, rules[i].when) {
          ActivateAll(NamedIds(event, rules[i]));
        }
      }
      assert rules[..|rules|] == rules;
    }

    method RunRules(event: Event, rules: seq<EventRule>)
      modifies this`stages
      ensures View() == AfterRules(old(View()), event, rules)
    {
      for i := 0 to |rules|
        invariant View() == AfterRules(old(View()), event, rules[..i])
      {
        assert rules[..i + 1][..i] == rules[..i];
        RunRule(event, rules[i]);
      }
      assert rules[..|rules|] == rules;
    }

    /** The body of the rule loop. */
    method RunRule(event: Event, rule: EventRule)
      modifies this`stages
      ensures View() == AfterRule(old(View()), event, rule)
    {
      if !Matches(event, rule.when) { return; }
      if rule.stage !in stages { return; }
      var stage := stages[rule.stage];
      if stage.id in conditional && stage.id !in activated { return; }
      var kind := FiringKind(event, rule);
      var ts := EventTimestamp(event);
      stage := AdvanceStage(stage, kind, ts, TextField(event, "message"));
      stages := stages[rule.stage := stage];
    }

    /** Conditional stages that never activated become skipped. */
    method Finalize()
      modifies this`stages
      ensures stages.Keys == old(stages.Keys)
      ensures forall id :: id in stages ==> stages[id] == Finalized(old(View()), id)
    {
      ghost var s := View();
      var rest := conditional;
      while rest != {}
        invariant rest <= conditional && stages.Keys == s.stages.Keys
        invariant forall id :: id in stages ==> stages[id] == if id in rest then s.stages[id] else Finalized(s, id)
      {
        var id :| id in rest;
        if id !in activated && id in stages && stages[id].state == Pending {
          stages := stages[id := stages[id].(state := Skipped)];
        }
        rest := rest - {id};
      }
    }
  }

  lemma {:induction false} InitialHasItsStages(defs: seq<StageDefinition>)
    ensures HasItsStages(Initial(defs))
  {
    if defs != [] { InitialHasItsStages(defs[..|defs| - 1]); }
  }

  lemma {:induction false} AfterRulesFrame(s: State, event: Event, rules: seq<EventRule>)
    ensures var s' := AfterRules(s, event, rules);
      s'.order == s.order && s'.conditional == s.conditional && s'.activated == s.activated
        && s'.stages.Keys == s.stages.Keys
  {
    if rules != [] { AfterRulesFrame(s, event, rules[..|rules| - 1]); }
  }

  /** Walking keeps the order, the conditional set and the stage ids, and only ever activates more. */
  lemma {:induction false} WalkFrame(s: State, events: seq<Event>, m: Manifest)
    ensures var s' := WalkFrom(s, events, m);
      s'.order == s.order && s'.conditional == s.conditional && s'.stages.Keys == s.stages.Keys
        && s.activated <= s'.activated
  {
    if events != [] {
      var front, last := events[..|events| - 1], events[|events| - 1];
      WalkFrame(s, front, m);
      AfterRulesFrame(AfterActivators(WalkFrom(s, front, m), last, m.activators), last, m.rules);
    }
  }

  function Walked(m: Manifest, events: seq<Event>): State {
    WalkFrom(Initial(m.stages), events, m)
  }

  lemma WalkedHasItsStages(m: Manifest, events: seq<Event>)
    ensures HasItsStages(Walked(m, events))
  {
    InitialHasItsStages(m.stages);
    WalkFrame(Initial(m.stages), events, m);
  }

  method PresentationWalker(m: Manifest, events: seq<Event>) returns (result: seq<StageState>)
    ensures HasItsStages(Walked(m, events)) && result == Results(Walked(m, events))
  {
    var state := new WalkerState(m.stages);
    for i := 0 to |events|
      invariant state.View() == Walked(m, events[..i])
    {
      assert events[..i + 1][..i] == events[..i];
      if Suppressed(events[i], m.suppress) { continue; }
      state.RunActivators(events[i], m.activators);
      state.RunRules(events[i], m.rules);
    }
    assert events[..|events|] == events;
    WalkedHasItsStages(m, events);
    state.Finalize();
    result := [];
    for i := 0 to |state.order|
      invariant result == Results(Walked(m, events))[..i]
    {
      result := result + [state.stages[state.order[i]]];
    }
  }
}
