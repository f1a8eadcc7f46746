/**
 What the words of a manifest mean for one event, said of the event's own fields: which events a rule matches, what
 a rule makes of its stage, and which stages an activator names.
 */
module WalkerRules {
  import opened Wrappers
  import opened Strings
  import opened JsonValues
  import opened Walker

  /** The event's field holds this text. */
  predicate HasText(event: Event, name: string, text: string) {
    event.JObj? && name in event.fields && event.fields[name] == JStr(text)
  }

  /** The event's field holds a text with this ending. */
  ghost predicate TextEnds(event: Event, name: string, ending: string) {
    exists front :: HasText(event, name, front + ending)
  }

  ghost predicate TextStarts(event: Event, name: string, start: string) {
    exists rest :: HasText(event, name, start + rest) && start + rest != ""
  }

  lemma TextFieldExactly(event: Event, name: string, text: string)
    ensures TextField(event, name) == Some(text) <==> HasText(event, name, text)
  {
  }

  lemma EndsExactly(event: Event, name: string, ending: string)
    requires ending != ""
    ensures EndsWith(OrEmpty(TextField(event, name)), ending) <==> TextEnds(event, name, ending)
  {
    var text := OrEmpty(TextField(event, name));
    if EndsWith(text, ending) {
      assert text == text[..|text| - |ending|] + ending;
      assert HasText(event, name, text[..|text| - |ending|] + ending);
    }
    if TextEnds(event, name, ending) {
      var front :| HasText(event, name, front + ending);
      assert text == front + ending;
    }
  }

  /** The event reports a failure: its hook type ends in `.failed` or `.error`. */
  ghost predicate ReportsFailure(event: Event) {
    TextEnds(event, "hook_event_type", ".failed") || TextEnds(event, "hook_event_type", ".error")
  }

  /**
   A failing event fails its stage whatever the rule says; else the rule decides; else the endings of hook and
   step.
   */
  lemma KindExactly(event: Event, rule: EventRule)
    ensures KindOf(event, rule) ==
      if ReportsFailure(event) then Fail
      else if rule.kind.Some? then rule.kind.value
      else if TextEnds(event, "step", "_failed") then Fail
      else if TextEnds(event, "hook_event_type", ".completed") || TextEnds(event, "step", "_complete") then Complete
      else Progress
  {
    EndsExactly(event, "hook_event_type", ".failed");
    EndsExactly(event, "hook_event_type", ".error");
    EndsExactly(event, "hook_event_type", ".completed");
    EndsExactly(event, "step", "_failed");
    EndsExactly(event, "step", "_complete");
  }

  /** Whether the rule's condition says anything: an empty text counts as none. */
  predicate Says(o: Option<string>) {
    o.Some? && o.value != ""
  }

  lemma PrefixExactly(event: Event, start: string)
    requires start != ""
    ensures (IsSet(TextField(event, "step")) && StartsWith(TextField(event, "step").value, start)) <==>
      TextStarts(event, "step", start)
  {
    var step := TextField(event, "step");
    if IsSet(step) && StartsWith(step.value, start) {
      assert step.value == start + step.value[|start|..];
      assert HasText(event, "step", start + step.value[|start|..]);
    }
    if TextStarts(event, "step", start) {
      var rest :| HasText(event, "step", start + rest) && start + rest != "";
      assert step == Some(start + rest);
    }
  }

  /** An event matches when it meets every condition given, and at least one is given. */
  lemma MatchesExactly(event: Event, m: EventMatch)
    ensures Matches(event, m) <==>
      && (Says(m.hookEventType) || Says(m.step) || Says(m.stepPrefix) || m.payloadEquals.Some?)
      && (Says(m.hookEventType) ==> HasText(event, "hook_event_type", m.hookEventType.value))
      && (Says(m.step) ==> HasText(event, "step", m.step.value))
      && (Says(m.stepPrefix) ==> TextStarts(event, "step", m.stepPrefix.value))
      && (m.payloadEquals.Some? ==> forall pair: (string, Scalar) :: pair in m.payloadEquals.value ==>
            ReadPath(event, pair.0) == Some(pair.1))
  {
    if Says(m.stepPrefix) { PrefixExactly(event, m.stepPrefix.value); }
    if m.payloadEquals.Some? {
      var pairs := m.payloadEquals.value;
      assert forall i :: 0 <= i < |pairs| ==> pairs[i] in pairs;
    }
  }

  lemma SuppressedExactly(event: Event, rules: seq<EventMatch>)
    ensures Suppressed(event, rules) <==> exists rule :: rule in rules && Matches(event, rule)
  {
    if rule :| rule in rules && Matches(event, rule) {
      var i :| 0 <= i < |rules| && rules[i] == rule;
    }
  }

  // ---- paths ----

  lemma {:induction false} NonEmptyAppend(a: seq<string>, b: seq<string>)
    ensures NonEmpty(a + b) == NonEmpty(a) + NonEmpty(b)
  {
    if a == [] {
      assert a + b == b;
    } else {
      assert (a + b)[1..] == a[1..] + b;
      NonEmptyAppend(a[1..], b);
    }
  }

  function Then(j: Option<Json>, path: string): Option<Json> {
    match j case None => None case Some(next) => ReadPath(next, path)
  }

  lemma {:induction false} ReadPartsAppend(j: Json, a: seq<string>, b: seq<string>)
    ensures ReadParts(j, a + b) == match ReadParts(j, a) case None => None case Some(next) => ReadParts(next, b)
    decreases |a|
  {
    if a == [] {
      assert a + b == b;
    } else {
      assert (a + b)[1..] == a[1..] + b;
      if Member(j, a[0]).Some? { ReadPartsAppend(Member(j, a[0]).value, a[1..], b); }
    }
  }

  /** A path is read one part at a time: what stands before the first slash, then the rest. */
  lemma PathStep(j: Json, first: string, rest: string)
    requires '/' !in first
    ensures ReadPath(j, first + "/" + rest) == Then(ReadPath(j, first), rest)
  {
    SplitHead(first, '/', rest);
    NotFound(first, "/");
    NonEmptyAppend([first], Split(rest, "/"));
    ReadPartsAppend(j, NonEmpty([first]), NonEmpty(Split(rest, "/")));
  }

  /** The part is the number of element `i`. */
  predicate IsNumber(items: seq<Json>, part: string, i: nat) {
    i < |items| && Decimal(i) == part
  }

  lemma {:induction false} ElementExactly(items: seq<Json>, part: string, from: nat)
    requires from <= |items|
    ensures Element(items, part, from).Some? <==> exists i: nat :: from <= i && IsNumber(items, part, i)
    ensures forall i: nat :: from <= i && IsNumber(items, part, i) ==> Element(items, part, from) == Some(items[i])
    decreases |items| - from
  {
    if from < |items| {
      if Decimal(from) == part {
        assert IsNumber(items, part, from);
        forall i: nat | from <= i && IsNumber(items, part, i) ensures i == from { DecimalInjective(i, from); }
      } else {
        ElementExactly(items, part, from + 1);
        assert !IsNumber(items, part, from);
      }
    }
  }

  /**
   A part on its own is the field of that name of an object, or the element with that number or the length of an
   array; an empty part is no part at all.
   */
  lemma PathOfOnePart(j: Json, part: string)
    requires '/' !in part
    ensures part == "" ==> ReadPath(j, part) == Some(j)
    ensures part != "" && j.JObj? ==>
      ReadPath(j, part) == if part in j.fields then Some(j.fields[part]) else None
    ensures part == "length" && j.JArr? ==> ReadPath(j, part) == Some(JNum(|j.items| as real))
    ensures part != "" && part != "length" && j.JArr? ==>
      && (ReadPath(j, part).Some? <==> exists i: nat :: IsNumber(j.items, part, i))
      && forall i: nat :: IsNumber(j.items, part, i) ==> ReadPath(j, part) == Some(j.items[i])
    ensures part != "" && !j.JObj? && !j.JArr? ==> ReadPath(j, part) == None
  {
    NotFound(part, "/");
    assert Split(part, "/") == [part];
    var parts := [part];
    assert parts[1..] == [] && NonEmpty(parts) == if part == "" then [] else parts;
    if j.JArr? { ElementExactly(j.items, part, 0); }
    if part != "" {
      assert ReadPath(j, part) == ReadParts(j, parts);
      if Member(j, part).Some? { assert ReadParts(Member(j, part).value, []) == Member(j, part); }
    }
  }

  // ---- activators ----

  lemma {:induction false} TextsExactly(items: seq<Json>, id: string)
    ensures id in TextsOf(items) <==> JStr(id) in items
  {
    if items != [] {
      TextsExactly(items[1..], id);
      assert items == [items[0]] + items[1..];
    }
  }

  /** An activator names the stages it lists, and those in the array of texts its payload path leads to. */
  lemma NamedExactly(event: Event, rule: ActivatorRule, id: string)
    ensures id in NamedIds(event, rule) <==>
      || id in rule.activatesStageIds
      || (Says(rule.fromPayloadPath)
          && exists items :: ReadPath(event, rule.fromPayloadPath.value) == Some(JArr(items)) && JStr(id) in items)
  {
    if Says(rule.fromPayloadPath) {
      match ReadPath(event, rule.fromPayloadPath.value)
      case Some(JArr(items)) => TextsExactly(items, id);
      case _ =>
    }
  }

  /** The activators add exactly the conditional stages that a matching one names. */
  lemma ActivatedExactly(s: State, event: Event, rules: seq<ActivatorRule>, id: string)
    ensures id in AfterActivators(s, event, rules).activated <==>
      || id in s.activated
      || (id in s.conditional && id in s.stages
          && exists rule :: rule in rules && Matches(event, rule.when) && id in NamedIds(event, rule))
    ensures AfterActivators(s, event, rules) == s.(activated := AfterActivators(s, event, rules).activated)
  {
    if rule :| rule in rules && Matches(event, rule.when) && id in NamedIds(event, rule) {
      var i :| 0 <= i < |rules| && rules[i] == rule;
    }
  }

  // ---- what a rule makes of its stage ----

  /** The time of an event: `created_at` if it is a text that says something, else its number of milliseconds. */
  lemma TimestampExactly(event: Event)
    ensures forall text :: HasText(event, "created_at", text) && text != "" ==>
      EventTimestamp(event) == Some(IsoText(text))
    ensures (forall text :: HasText(event, "created_at", text) ==> text == "") ==>
      EventTimestamp(event) ==
        if event.JObj? && "timestamp" in event.fields && event.fields["timestamp"].JNum?
        then Some(IsoOfMillis(event.fields["timestamp"].n)) else None
  {
    var created := TextField(event, "created_at");
    if created.Some? { assert HasText(event, "created_at", created.value); }
  }

  /** The rule reaches its stage: the event matches, the stage exists, and it is not waiting for an activator. */
  ghost predicate Reaches(s: State, event: Event, rule: EventRule) {
    && Matches(event, rule.when) && rule.stage in s.stages
    && !(s.stages[rule.stage].id in s.conditional && s.stages[rule.stage].id !in s.activated)
  }

  /** What the rule's kind does: failing and completing end the stage, starting and progress open a pending one. */
  lemma RuleExactly(s: State, event: Event, rule: EventRule)
    requires Reaches(s, event, rule)
    ensures var before, after := s.stages[rule.stage], AfterRule(s, event, rule).stages[rule.stage];
      && after.state == (
        match KindOf(event, rule)
        case Fail => Failed
        case Complete => Done
        case _ => if before.state == Pending then Active else before.state)
      && (KindOf(event, rule) == Fail ==>
            forall text :: HasText(event, "message", text) ==> after.errorMessage == Some(text))
      && (KindOf(event, rule) != Fail || (forall text :: !HasText(event, "message", text)) ==>
            after.errorMessage == before.errorMessage)
    ensures AfterRule(s, event, rule) ==
      s.(stages := s.stages[rule.stage := AfterRule(s, event, rule).stages[rule.stage]])
  {
    var message := TextField(event, "message");
    if message.Some? { assert HasText(event, "message", message.value); }
  }

  /** A rule that does not reach a stage changes nothing. */
  lemma OtherRules(s: State, event: Event, rule: EventRule)
    requires !Reaches(s, event, rule)
    ensures AfterRule(s, event, rule) == s
  {
  }

  lemma {:induction false} RulesKeepReach(s: State, event: Event, rules: seq<EventRule>, rule: EventRule)
    requires Reaches(s, event, rule)
    ensures Reaches(AfterRules(s, event, rules), event, rule)
  {
    if rules != [] { RulesKeepReach(s, event, rules[..|rules| - 1], rule); }
  }

  /** A failing event leaves every stage failed that one of its rules reaches, whatever kinds the rules declare. */
  lemma {:induction false} RulesFail(s: State, event: Event, rules: seq<EventRule>, i: nat)
    requires ReportsFailure(event) && i < |rules| && Reaches(s, event, rules[i])
    ensures rules[i].stage in AfterRules(s, event, rules).stages
    ensures AfterRules(s, event, rules).stages[rules[i].stage].state == Failed
  {
    var front, last := rules[..|rules| - 1], rules[|rules| - 1];
    KindExactly(event, last);
    if i == |rules| - 1 {
      RulesKeepReach(s, event, front, last);
      RuleExactly(AfterRules(s, event, front), event, last);
    } else {
      assert front[i] == rules[i];
      RulesFail(s, event, front, i);
    }
  }

  /**
   Failure wins. Once an unsuppressed event with a failing hook type has been walked, every stage that one of its
   matching rules could advance is failed.
   */
  lemma FailureWins(s: State, event: Event, m: Manifest, i: nat)
    requires ReportsFailure(event) && (forall rule :: rule in m.suppress ==> !Matches(event, rule))
    requires i < |m.rules| && Reaches(AfterActivators(s, event, m.activators), event, m.rules[i])
    ensures m.rules[i].stage in AfterEvent(s, event, m).stages
    ensures AfterEvent(s, event, m).stages[m.rules[i].stage].state == Failed
  {
    SuppressedExactly(event, m.suppress);
    RulesFail(AfterActivators(s, event, m.activators), event, m.rules, i);
  }
}
