/**
 The heading hierarchy of an offset: a map from level to heading, updated heading by heading, and what it holds in the
 end.
 */
module SectionPath {
  import opened Wrappers
  import opened Strings

  datatype Heading = Heading(level: nat, text: string, charOffset: int)

  // ---- the headings the path is made of ----

  function Prior(index: seq<Heading>, charOffset: int): seq<Heading> {
    if index == [] then []
    else (if index[0].charOffset <= charOffset then [index[0]] else []) + Prior(index[1..], charOffset)
  }

  /** No later heading of the list is as high as its first. */
  predicate FirstSurvives(hs: seq<Heading>)
    requires hs != []
  {
    forall j :: 1 <= j < |hs| ==> hs[j].level > hs[0].level
  }

  /** The headings not followed by one of equal or smaller level. */
  function Survivors(hs: seq<Heading>): seq<Heading> {
    if hs == [] then [] else
      var rest := Survivors(hs[1..]);
      if FirstSurvives(hs) then [hs[0]] + rest else rest
  }

  function Texts(hs: seq<Heading>): seq<string> {
    seq(|hs|, i requires 0 <= i < |hs| => hs[i].text)
  }

  predicate LevelsIncrease(hs: seq<Heading>) {
    forall i, j :: 0 <= i < j < |hs| ==> hs[i].level < hs[j].level
  }

  function Shallower(hs: seq<Heading>, level: nat): seq<Heading> {
    if hs == [] then [] else
      var front, last := Shallower(hs[..|hs| - 1], level), hs[|hs| - 1];
      if last.level < level then front + [last] else front
  }

  lemma {:induction false} ShallowerCons(h: Heading, hs: seq<Heading>, level: nat)
    ensures Shallower([h] + hs, level) == (if h.level < level then [h] else []) + Shallower(hs, level)
  {
    var all := [h] + hs;
    if hs == [] {
      assert all == [h] && all[..0] == [];
    } else {
      assert all[..|all| - 1] == [h] + hs[..|hs| - 1];
      ShallowerCons(h, hs[..|hs| - 1], level);
    }
  }

  lemma FirstSurvivesSnoc(hs: seq<Heading>, h: Heading)
    requires hs != []
    ensures FirstSurvives(hs + [h]) <==> FirstSurvives(hs) && h.level > hs[0].level
  {
    var all := hs + [h];
    assert all[|hs|] == h && all[0] == hs[0];
    assert forall j :: 1 <= j < |hs| ==> all[j] == hs[j];
  }

  lemma SurvivorsHead(hs: seq<Heading>, rest: seq<Heading>)
    requires hs != [] && rest == hs[1..]
    ensures Survivors(hs) == (if FirstSurvives(hs) then [hs[0]] else []) + Survivors(rest)
  {
  }

  /** A new heading ends those of its level and deeper. */
  lemma {:induction false} SurvivorsSnoc(hs: seq<Heading>, h: Heading)
    ensures Survivors(hs + [h]) == Shallower(Survivors(hs), h.level) + [h]
  {
    if hs == [] {
      assert hs + [h] == [h] && [h][1..] == [];
    } else {
      SurvivorsHead(hs, hs[1..]);
      SurvivorsHead(hs + [h], hs[1..] + [h]);
      SurvivorsSnoc(hs[1..], h);
      FirstSurvivesSnoc(hs, h);
      if FirstSurvives(hs) { ShallowerCons(hs[0], Survivors(hs[1..]), h.level); }
    }
  }

  lemma IncreaseSnoc(hs: seq<Heading>, h: Heading)
    requires LevelsIncrease(hs) && forall e :: e in hs ==> e.level < h.level
    ensures LevelsIncrease(hs + [h])
  {
    forall i | 0 <= i < |hs| ensures hs[i].level < h.level { assert hs[i] in hs; }
  }

  lemma {:induction false} ShallowerFacts(hs: seq<Heading>, level: nat)
    requires LevelsIncrease(hs)
    ensures LevelsIncrease(Shallower(hs, level))
    ensures forall h :: h in Shallower(hs, level) ==> h in hs && h.level < level
  {
    if hs != [] {
      var front, last := hs[..|hs| - 1], hs[|hs| - 1];
      assert hs == front + [last];
      ShallowerFacts(front, level);
      forall h | h in front ensures h.level < last.level {
        var i :| 0 <= i < |front| && front[i] == h;
        assert hs[i] == h;
      }
      IncreaseSnoc(Shallower(front, level), last);
    }
  }

  lemma {:induction false} SurvivorsIncrease(hs: seq<Heading>)
    ensures LevelsIncrease(Survivors(hs))
  {
    if hs != [] {
      var front := hs[..|hs| - 1];
      SurvivorsIncrease(front);
      assert hs == front + [hs[|hs| - 1]];
      SurvivorsSnoc(front, hs[|hs| - 1]);
      ShallowerFacts(Survivors(front), hs[|hs| - 1].level);
    }
  }

  // ---- the map ----

  /** The map with one entry per heading, under its level. */
  function ToMap(hs: seq<Heading>): map<nat, string> {
    if hs == [] then map[] else ToMap(hs[..|hs| - 1])[hs[|hs| - 1].level := hs[|hs| - 1].text]
  }

  function UpTo(hierarchy: map<nat, string>, level: nat): map<nat, string> {
    map l | l in hierarchy && l <= level :: hierarchy[l]
  }

  function Below(hierarchy: map<nat, string>, level: nat): map<nat, string> {
    map l | l in hierarchy && l < level :: hierarchy[l]
  }

  lemma ToMapSnoc(hs: seq<Heading>, h: Heading)
    ensures ToMap(hs + [h]) == ToMap(hs)[h.level := h.text]
  {
    assert (hs + [h])[..|hs|] == hs;
  }

  lemma BelowUpdate(m: map<nat, string>, l: nat, text: string, level: nat)
    ensures Below(m[l := text], level) == if l < level then Below(m, level)[l := text] else Below(m, level)
  {
  }

  lemma UpToUpdate(m: map<nat, string>, l: nat, text: string)
    ensures UpTo(m[l := text], l) == Below(m, l)[l := text]
  {
  }

  lemma {:induction false} BelowIsShallower(hs: seq<Heading>, level: nat)
    ensures Below(ToMap(hs), level) == ToMap(Shallower(hs, level))
  {
    if hs != [] {
      var front, last := hs[..|hs| - 1], hs[|hs| - 1];
      BelowIsShallower(front, level);
      BelowUpdate(ToMap(front), last.level, last.text, level);
      ToMapSnoc(Shallower(front, level), last);
    }
  }

  /** Setting a heading and clearing the deeper levels keeps the map of the survivors. */
  lemma SetAndClear(hs: seq<Heading>, h: Heading)
    ensures UpTo(ToMap(hs)[h.level := h.text], h.level) == ToMap(Shallower(hs, h.level) + [h])
  {
    BelowIsShallower(hs, h.level);
    ToMapSnoc(Shallower(hs, h.level), h);
    UpToUpdate(ToMap(hs), h.level, h.text);
  }

  predicate IsGreatest(m: nat, s: set<nat>) {
    m in s && forall k :: k in s ==> k <= m
  }

  lemma {:induction false} GreatestExists(s: set<nat>)
    requires |s| > 0
    ensures exists m: nat :: IsGreatest(m, s)
  {
    var x :| x in s;
    var rest := s - {x};
    if |rest| == 0 {
      assert IsGreatest(x, s);
    } else {
      GreatestExists(rest);
      var m: nat :| IsGreatest(m, rest);
      assert forall k :: k in s ==> k == x || k in rest;
      assert IsGreatest(if x > m then x else m, s);
    }
  }

  function Greatest(s: set<nat>): (m: nat)
    requires |s| > 0
    ensures IsGreatest(m, s)
  {
    GreatestExists(s);
    var m: nat :| IsGreatest(m, s);
    m
  }

  /** The map's values by ascending level: the sorted entries. */
  function ByLevel(hierarchy: map<nat, string>): seq<string>
    decreases |hierarchy|
  {
    if |hierarchy.Keys| == 0 then [] else
      var l := Greatest(hierarchy.Keys);
      ByLevel(hierarchy - {l}) + [hierarchy[l]]
  }

  lemma {:induction false} KeysBelow(hs: seq<Heading>, bound: nat)
    requires forall i :: 0 <= i < |hs| ==> hs[i].level < bound
    ensures forall l :: l in ToMap(hs) ==> l < bound
  {
    if hs != [] { KeysBelow(hs[..|hs| - 1], bound); }
  }

  lemma ByLevelStep(front: map<nat, string>, level: nat, text: string)
    requires forall l :: l in front ==> l < level
    ensures ByLevel(front[level := text]) == ByLevel(front) + [text]
  {
    var all := front[level := text];
    assert level in all.Keys;
    assert Greatest(all.Keys) == level;
    assert all - {level} == front;
  }

  lemma {:induction false} ByLevelIsTexts(hs: seq<Heading>)
    requires LevelsIncrease(hs)
    ensures ByLevel(ToMap(hs)) == Texts(hs)
  {
    if hs != [] {
      var front, last := hs[..|hs| - 1], hs[|hs| - 1];
      KeysBelow(front, last.level);
      ByLevelIsTexts(front);
      ByLevelStep(ToMap(front), last.level, last.text);
      assert Texts(hs) == Texts(front) + [last.text];
    }
  }

  // ---- the service ----

  /** The inner loop: deeper levels end when a higher heading appears. */
  method ClearDeeper(before: map<nat, string>, level: nat) returns (hierarchy: map<nat, string>)
    ensures hierarchy == UpTo(before, level)
  {
    hierarchy := before;
    var rest := before.Keys;
    while rest != {}
      invariant rest <= before.Keys
      invariant hierarchy == map l | l in before && (l in rest || l <= level) :: before[l]
    {
      var l :| l in rest;
      if l > level {
        hierarchy := hierarchy - {l};
      }
      rest := rest - {l};
    }
  }

  lemma HierarchyStep(prior: seq<Heading>, i: nat)
    requires i < |prior|
    ensures UpTo(ToMap(Survivors(prior[..i]))[prior[i].level := prior[i].text], prior[i].level)
      == ToMap(Survivors(prior[..i + 1]))
  {
    assert prior[..i + 1] == prior[..i] + [prior[i]];
    SurvivorsSnoc(prior[..i], prior[i]);
    SetAndClear(Survivors(prior[..i]), prior[i]);
  }

  /** The outer loop: each heading takes its level, and the deeper levels go. */
  method BuildHierarchy(prior: seq<Heading>) returns (hierarchy: map<nat, string>)
    ensures hierarchy == ToMap(Survivors(prior))
  {
    hierarchy := map[];
    for i := 0 to |prior|
      invariant hierarchy == ToMap(Survivors(prior[..i]))
    {
      HierarchyStep(prior, i);
      hierarchy := ClearDeeper(hierarchy[prior[i].level := prior[i].text], prior[i].level);
    }
    assert prior[..|prior|] == prior;
  }

  /** The path of an offset: the prior headings still open there, outermost first. */
  method BuildSectionPath(charOffset: int, index: seq<Heading>) returns (path: Option<string>)
    ensures path ==
      var open := Survivors(Prior(index, charOffset));
      if open == [] then None else Some(Join(Texts(open), " > "))
  {
    var prior := Prior(index, charOffset);
    if |index| == 0 || |prior| == 0 {
      return None;
    }
    var hierarchy := BuildHierarchy(prior);
    SurvivorsIncrease(prior);
    ByLevelIsTexts(Survivors(prior));
    var parts := ByLevel(hierarchy);
    return if |parts| > 0 then Some(Join(parts, " > ")) else None;
  }

  predicate SortedByOffset(index: seq<Heading>) {
    forall i, j :: 0 <= i < j < |index| ==> index[i].charOffset <= index[j].charOffset
  }

  /** On an index sorted by offset, the scan that stops early finds the last prior heading. */
  method FindNearestHeading(charOffset: int, index: seq<Heading>) returns (nearest: Option<string>)
    requires SortedByOffset(index)
    ensures nearest ==
      var prior := Prior(index, charOffset);
      if prior == [] then None else Some(prior[|prior| - 1].text)
  {
    var found: Option<Heading> := None;
    for i := 0 to |index|
      invariant forall k :: 0 <= k < i ==> index[k].charOffset <= charOffset
      invariant found == if i == 0 then None else Some(index[i - 1])
      invariant i == |index| ==> Prior(index, charOffset) == index
    {
      if index[i].charOffset > charOffset {
        PriorStops(index, i, charOffset);
        break;
      }
      found := Some(index[i]);
      if i + 1 == |index| { AllPrior(index, charOffset); }
    }
    return match found case None => None case Some(h) => Some(h.text);
  }

  lemma PriorStops(index: seq<Heading>, i: nat, charOffset: int)
    requires SortedByOffset(index) && i <= |index|
    requires forall k :: 0 <= k < i ==> index[k].charOffset <= charOffset
    requires i < |index| ==> index[i].charOffset > charOffset
    ensures Prior(index, charOffset) == index[..i]
  {
    assert index == index[..i] + index[i..];
    PriorAppend(index[..i], index[i..], index, charOffset);
    AllPrior(index[..i], charOffset);
    NothingPrior(index[i..], charOffset);
  }

  lemma {:induction false} AllPrior(index: seq<Heading>, charOffset: int)
    requires forall i :: 0 <= i < |index| ==> index[i].charOffset <= charOffset
    ensures Prior(index, charOffset) == index
  {
    if index != [] { AllPrior(index[1..], charOffset); }
  }

  lemma {:induction false} PriorAppend(a: seq<Heading>, b: seq<Heading>, all: seq<Heading>, charOffset: int)
    requires all == a + b
    ensures Prior(all, charOffset) == Prior(a, charOffset) + Prior(b, charOffset)
  {
    if a == [] {
      assert all == b;
    } else {
      assert all[1..] == a[1..] + b && all[0] == a[0];
      PriorAppend(a[1..], b, all[1..], charOffset);
      Regroup(if a[0].charOffset <= charOffset then [a[0]] else [], Prior(a[1..], charOffset), Prior(b, charOffset));
    }
  }

  lemma Regroup(a: seq<Heading>, b: seq<Heading>, c: seq<Heading>)
    ensures a + (b + c) == (a + b) + c
  {
  }

  lemma {:induction false} NothingPrior(index: seq<Heading>, charOffset: int)
    requires forall i :: 0 <= i < |index| ==> index[i].charOffset > charOffset
    ensures Prior(index, charOffset) == []
  {
    if index != [] { NothingPrior(index[1..], charOffset); }
  }

  /**
   The path's headings are prior headings in document order with strictly increasing levels, and the last
   of them is the nearest heading.
   */
  lemma {:induction false} SurvivorsEndAtNearest(hs: seq<Heading>)
    ensures LevelsIncrease(Survivors(hs)) && (Survivors(hs) == [] <==> hs == [])
    ensures hs != [] ==> Survivors(hs)[|Survivors(hs)| - 1] == hs[|hs| - 1]
  {
    SurvivorsIncrease(hs);
    if hs != [] {
      var front, last := hs[..|hs| - 1], hs[|hs| - 1];
      assert hs == front + [last];
      SurvivorsSnoc(front, last);
    }
  }

  /** No later heading has the level of this one or a smaller one. */
  predicate StaysOpen(hs: seq<Heading>, i: nat)
    requires i < |hs|
  {
    forall j :: i < j < |hs| ==> hs[j].level > hs[i].level
  }

  lemma StaysOpenTail(hs: seq<Heading>, rest: seq<Heading>, i: nat)
    requires hs != [] && rest == hs[1..] && i < |rest|
    ensures StaysOpen(rest, i) <==> StaysOpen(hs, i + 1)
  {
    assert forall j :: 0 <= j < |rest| ==> rest[j] == hs[j + 1];
    if StaysOpen(rest, i) {
      forall j | i + 1 < j < |hs| ensures hs[j].level > hs[i + 1].level { assert rest[j - 1] == hs[j]; }
    }
  }

  /** The places, in order, of a list of headings that stay open. */
  ghost predicate Places(at: seq<nat>, hs: seq<Heading>, path: seq<Heading>) {
    && |at| == |path|
    && (forall k :: 0 <= k < |at| ==> at[k] < |hs| && hs[at[k]] == path[k] && StaysOpen(hs, at[k]))
    && (forall k, l :: 0 <= k < l < |at| ==> at[k] < at[l])
  }

  function Shifted(at: seq<nat>): (r: seq<nat>)
    ensures |r| == |at| && forall k :: 0 <= k < |at| ==> r[k] == at[k] + 1
  {
    seq(|at|, k requires 0 <= k < |at| => at[k] + 1)
  }

  lemma PlacesShift(at: seq<nat>, hs: seq<Heading>, rest: seq<Heading>, path: seq<Heading>)
    requires hs != [] && rest == hs[1..] && Places(at, rest, path)
    ensures Places(Shifted(at), hs, path)
  {
    var moved := Shifted(at);
    forall k | 0 <= k < |at| ensures moved[k] < |hs| && hs[moved[k]] == path[k] && StaysOpen(hs, moved[k]) {
      StaysOpenTail(hs, rest, at[k]);
    }
  }

  lemma PlacesFirst(at: seq<nat>, hs: seq<Heading>, path: seq<Heading>)
    requires hs != [] && Places(at, hs, path) && StaysOpen(hs, 0) && forall k :: 0 <= k < |at| ==> at[k] > 0
    ensures Places([0] + at, hs, [hs[0]] + path)
  {
  }

  /** The path lists, in document order, headings that stay open. */
  lemma {:induction false} PathInDocumentOrder(hs: seq<Heading>) returns (at: seq<nat>)
    ensures Places(at, hs, Survivors(hs))
  {
    at := [];
    if hs != [] {
      var rest := hs[1..];
      var later := PathInDocumentOrder(rest);
      SurvivorsHead(hs, rest);
      PlacesShift(later, hs, rest, Survivors(rest));
      at := Shifted(later);
      if FirstSurvives(hs) {
        PlacesFirst(at, hs, Survivors(rest));
        at := [0] + at;
      }
    }
  }

  /**
   A heading is on the path exactly when it stands somewhere where no later heading has its level or a smaller one.
   */
  lemma {:induction false} OnPathExactly(hs: seq<Heading>, h: Heading)
    ensures h in Survivors(hs) <==> exists i :: 0 <= i < |hs| && hs[i] == h && StaysOpen(hs, i)
  {
    if h in Survivors(hs) {
      var at := PathInDocumentOrder(hs);
      var k :| 0 <= k < |at| && Survivors(hs)[k] == h;
      assert hs[at[k]] == h;
    }
    if exists i :: 0 <= i < |hs| && hs[i] == h && StaysOpen(hs, i) {
      var i :| 0 <= i < |hs| && hs[i] == h && StaysOpen(hs, i);
      OpenIsOnPath(hs, i);
    }
  }

  lemma {:induction false} OpenIsOnPath(hs: seq<Heading>, i: nat)
    requires i < |hs| && StaysOpen(hs, i)
    ensures hs[i] in Survivors(hs)
  {
    var rest := hs[1..];
    SurvivorsHead(hs, rest);
    if i > 0 {
      StaysOpenTail(hs, rest, i - 1);
      OpenIsOnPath(rest, i - 1);
    }
  }
}
