/** Search results grouped by document, each group newest version first, for any way of comparing versions. */
module VersionGroups {
  import opened Wrappers
  import opened Sorting

  datatype Found = Found(chunkId: string, documentFilename: string, documentIdRef: Option<string>,
    version: Option<string>)

  function KeyOf(r: Found): string {
    if r.documentIdRef.Some? && r.documentIdRef.value != "" then r.documentIdRef.value else r.documentFilename
  }

  function VersionOf(r: Found): string {
    if r.version.Some? && r.version.value != "" then r.version.value else "0"
  }

  /** `a` may stand before `b`: b's version is no newer, where `older(v, w)` says v is at most w. */
  function NewestFirst(older: (string, string) -> bool): (Found, Found) -> bool {
    (a: Found, b: Found) => older(VersionOf(b), VersionOf(a))
  }

  lemma NewestFirstIsPreorder(older: (string, string) -> bool)
    requires TotalPreorder(older)
    ensures TotalPreorder(NewestFirst(older))
  {
    var before := NewestFirst(older);
    forall a, b ensures before(a, b) || before(b, a) {
      assert older(VersionOf(b), VersionOf(a)) || older(VersionOf(a), VersionOf(b));
    }
    forall a, b, c | before(a, b) && before(b, c) ensures before(a, c) {
      assert older(VersionOf(c), VersionOf(b)) && older(VersionOf(b), VersionOf(a));
    }
  }

  // ---- the groups ----

  /** The documents in order of first appearance. */
  function FirstKeys(results: seq<Found>): seq<string> {
    if results == [] then [] else
      var before, key := FirstKeys(results[..|results| - 1]), KeyOf(results[|results| - 1]);
      if key in before then before else before + [key]
  }

  /** The results of one document, in their order. */
  function OfDocument(results: seq<Found>, key: string): seq<Found> {
    if results == [] then [] else
      var last := results[|results| - 1];
      OfDocument(results[..|results| - 1], key) + (if KeyOf(last) == key then [last] else [])
  }

  /** Where a document first appears; the length when it does not. */
  function FirstAt(results: seq<Found>, key: string): (i: nat)
    ensures i <= |results| && (i < |results| ==> KeyOf(results[i]) == key)
    ensures forall j :: 0 <= j < i ==> KeyOf(results[j]) != key
  {
    if results == [] then 0 else
      var before := FirstAt(results[..|results| - 1], key);
      if before < |results| - 1 || KeyOf(results[|results| - 1]) == key then before else |results|
  }

  predicate Distinct(keys: seq<string>) {
    forall i, j :: 0 <= i < j < |keys| ==> keys[i] != keys[j]
  }

  lemma {:induction false} FirstKeysOrdered(results: seq<Found>)
    ensures var keys := FirstKeys(results);
      && (forall key :: key in keys <==> FirstAt(results, key) < |results|)
      && (forall a, b :: 0 <= a < b < |keys| ==> FirstAt(results, keys[a]) < FirstAt(results, keys[b]))
      && Distinct(keys)
  {
    if results != [] {
      var front := results[..|results| - 1];
      FirstKeysOrdered(front);
      var before := FirstKeys(front);
      forall key | key in before ensures FirstAt(results, key) == FirstAt(front, key) { }
      forall a | 0 <= a < |before| ensures FirstAt(results, before[a]) == FirstAt(front, before[a]) < |front| {
        assert before[a] in before;
      }
    }
  }

  method GroupByDocument(results: seq<Found>) returns (keys: seq<string>, byDocument: map<string, seq<Found>>)
    ensures keys == FirstKeys(results)
    ensures forall key :: key in byDocument <==> key in keys
    ensures forall key :: key in byDocument ==> byDocument[key] == OfDocument(results, key)
  {
    keys, byDocument := [], map[];
    for i := 0 to |results|
      invariant keys == FirstKeys(results[..i])
      invariant forall key :: key in byDocument <==> key in keys
      invariant forall key :: key in byDocument ==> byDocument[key] == OfDocument(results[..i], key)
      invariant forall key :: key !in byDocument ==> OfDocument(results[..i], key) == []
    {
      var key := KeyOf(results[i]);
      assert results[..i + 1][..i] == results[..i];
      if key !in byDocument {
        byDocument := byDocument[key := []];
        keys := keys + [key];
      }
      byDocument := byDocument[key := byDocument[key] + [results[i]]];
    }
    assert results[..|results|] == results;
  }

  // ---- flattening ----

  function Flattened(keys: seq<string>, results: seq<Found>, older: (string, string) -> bool): seq<Found> {
    if keys == [] then [] else
      Flattened(keys[..|keys| - 1], results, older) + Sort(OfDocument(results, keys[|keys| - 1]), NewestFirst(older))
  }

  lemma {:induction false} DocumentCount(results: seq<Found>, key: string, e: Found)
    ensures multiset(OfDocument(results, key))[e] == if KeyOf(e) == key then multiset(results)[e] else 0
  {
    if results != [] {
      var front, last := results[..|results| - 1], results[|results| - 1];
      assert results == front + [last];
      DocumentCount(front, key, e);
    }
  }

  lemma {:induction false} FlattenedCount(keys: seq<string>, results: seq<Found>, older: (string, string) -> bool,
    e: Found)
    requires TotalPreorder(older) && Distinct(keys)
    ensures multiset(Flattened(keys, results, older))[e] == if KeyOf(e) in keys then multiset(results)[e] else 0
  {
    if keys != [] {
      var front, key := keys[..|keys| - 1], keys[|keys| - 1];
      assert keys == front + [key];
      FlattenedCount(front, results, older, e);
      DocumentCount(results, key, e);
      NewestFirstIsPreorder(older);
      SortFacts(OfDocument(results, key), NewestFirst(older));
    }
  }

  /** Documents in order of first appearance, and within a document newest first. */
  ghost predicate Ordered(out: seq<Found>, results: seq<Found>, older: (string, string) -> bool) {
    forall i, j :: 0 <= i < j < |out| ==>
      && FirstAt(results, KeyOf(out[i])) <= FirstAt(results, KeyOf(out[j]))
      && (KeyOf(out[i]) == KeyOf(out[j]) ==> older(VersionOf(out[j]), VersionOf(out[i])))
  }

  lemma {:induction false} DocumentKeys(results: seq<Found>, key: string)
    ensures forall e :: e in OfDocument(results, key) ==> KeyOf(e) == key
  {
    if results != [] { DocumentKeys(results[..|results| - 1], key); }
  }

  lemma SortedDocument(results: seq<Found>, key: string, older: (string, string) -> bool, group: seq<Found>)
    requires TotalPreorder(older) && group == Sort(OfDocument(results, key), NewestFirst(older))
    ensures forall i :: 0 <= i < |group| ==> KeyOf(group[i]) == key
    ensures forall i, j :: 0 <= i < j < |group| ==> older(VersionOf(group[j]), VersionOf(group[i]))
  {
    var items, before := OfDocument(results, key), NewestFirst(older);
    NewestFirstIsPreorder(older);
    SortFacts(items, before);
    DocumentKeys(results, key);
    forall i | 0 <= i < |group| ensures KeyOf(group[i]) == key {
      assert group[i] in multiset(group) && group[i] in multiset(items);
    }
    forall i, j | 0 <= i < j < |group| ensures older(VersionOf(group[j]), VersionOf(group[i])) {
      assert before(group[i], group[j]);
    }
  }

  lemma {:induction false} FlattenedKeys(keys: seq<string>, results: seq<Found>, older: (string, string) -> bool,
    e: Found)
    requires TotalPreorder(older) && e in Flattened(keys, results, older)
    ensures KeyOf(e) in keys
  {
    var front, key := keys[..|keys| - 1], keys[|keys| - 1];
    assert keys == front + [key];
    var group := Sort(OfDocument(results, key), NewestFirst(older));
    SortedDocument(results, key, older, group);
    if e in group {
      var i :| 0 <= i < |group| && group[i] == e;
    } else {
      FlattenedKeys(front, results, older, e);
    }
  }

  lemma OrderAppend(before: seq<Found>, group: seq<Found>, results: seq<Found>, older: (string, string) -> bool,
    key: string)
    requires Ordered(before, results, older) && forall e :: e in before ==>
      FirstAt(results, KeyOf(e)) < FirstAt(results, key)
    requires forall i :: 0 <= i < |group| ==> KeyOf(group[i]) == key
    requires forall i, j :: 0 <= i < j < |group| ==> older(VersionOf(group[j]), VersionOf(group[i]))
    ensures Ordered(before + group, results, older)
  {
    forall i | 0 <= i < |before| ensures FirstAt(results, KeyOf(before[i])) < FirstAt(results, key) {
      assert before[i] in before;
    }
  }

  lemma {:induction false} FlattenedOrder(keys: seq<string>, results: seq<Found>, older: (string, string) -> bool)
    requires TotalPreorder(older)
    requires forall a, b :: 0 <= a < b < |keys| ==> FirstAt(results, keys[a]) < FirstAt(results, keys[b])
    ensures Ordered(Flattened(keys, results, older), results, older)
  {
    if keys != [] {
      var front, key := keys[..|keys| - 1], keys[|keys| - 1];
      FlattenedOrder(front, results, older);
      var before, group := Flattened(front, results, older), Sort(OfDocument(results, key), NewestFirst(older));
      SortedDocument(results, key, older, group);
      forall e | e in before ensures FirstAt(results, KeyOf(e)) < FirstAt(results, key) {
        FlattenedKeys(front, results, older, e);
        var a :| 0 <= a < |front| && front[a] == KeyOf(e);
        assert keys[a] == front[a];
      }
      OrderAppend(before, group, results, older, key);
    }
  }

  /** What the grouped list must be, said of the results alone. */
  ghost predicate IsGrouping(out: seq<Found>, results: seq<Found>, older: (string, string) -> bool) {
    multiset(out) == multiset(results) && Ordered(out, results, older)
  }

  lemma FlattenedIsGrouping(results: seq<Found>, older: (string, string) -> bool)
    requires TotalPreorder(older)
    ensures IsGrouping(Flattened(FirstKeys(results), results, older), results, older)
  {
    var keys := FirstKeys(results);
    FirstKeysOrdered(results);
    FlattenedOrder(keys, results, older);
    forall e ensures multiset(Flattened(keys, results, older))[e] == multiset(results)[e] {
      FlattenedCount(keys, results, older, e);
      if e in multiset(results) {
        var i :| 0 <= i < |results| && results[i] == e;
        assert FirstAt(results, KeyOf(e)) <= i;
      }
    }
  }

  /** In a grouped list nothing stands between two results of one document but results of that document. */
  lemma GroupingIsContiguous(out: seq<Found>, results: seq<Found>, older: (string, string) -> bool, i: nat, j: nat,
    k: nat)
    requires IsGrouping(out, results, older) && i < j < k < |out| && KeyOf(out[i]) == KeyOf(out[k])
    ensures KeyOf(out[j]) == KeyOf(out[i])
  {
    var first := FirstAt(results, KeyOf(out[i]));
    assert FirstAt(results, KeyOf(out[j])) == first;
    assert out[i] in multiset(out) && out[i] in multiset(results);
    var p :| 0 <= p < |results| && results[p] == out[i];
    assert first <= p;
  }

  lemma {:induction false} DocumentOfConcat(a: seq<Found>, b: seq<Found>, key: string)
    ensures OfDocument(a + b, key) == OfDocument(a, key) + OfDocument(b, key)
  {
    if b == [] {
      assert a + b == a;
    } else {
      var front := b[..|b| - 1];
      assert (a + b)[..|a + b| - 1] == a + front;
      DocumentOfConcat(a, front, key);
    }
  }

  lemma {:induction false} AllOfDocument(s: seq<Found>, key: string, own: bool)
    requires forall i :: 0 <= i < |s| ==> (KeyOf(s[i]) == key) == own
    ensures OfDocument(s, key) == if own then s else []
  {
    if s != [] {
      AllOfDocument(s[..|s| - 1], key, own);
      assert s == s[..|s| - 1] + [s[|s| - 1]];
    }
  }

  lemma OwnPart(before: seq<Found>, results: seq<Found>, older: (string, string) -> bool, last: string, key: string)
    requires TotalPreorder(older)
    ensures OfDocument(before + Sort(OfDocument(results, last), NewestFirst(older)), key)
         == OfDocument(before, key) + if last == key then Sort(OfDocument(results, key), NewestFirst(older)) else []
  {
    var group := Sort(OfDocument(results, last), NewestFirst(older));
    SortedDocument(results, last, older, group);
    DocumentOfConcat(before, group, key);
    AllOfDocument(group, key, last == key);
  }

  /** A document's part of the list is the stable sort of its results. */
  lemma {:induction false} DocumentPart(keys: seq<string>, results: seq<Found>, older: (string, string) -> bool,
    key: string)
    requires TotalPreorder(older) && Distinct(keys)
    ensures OfDocument(Flattened(keys, results, older), key)
         == if key in keys then Sort(OfDocument(results, key), NewestFirst(older)) else []
  {
    if keys != [] {
      var front, last := keys[..|keys| - 1], keys[|keys| - 1];
      assert keys == front + [last];
      DocumentPart(front, results, older, key);
      OwnPart(Flattened(front, results, older), results, older, last, key);
    }
  }

  /** Within one document, results whose versions compare equal stand in the order of the search. */
  lemma EqualVersionsKeepOrder(results: seq<Found>, older: (string, string) -> bool, pivot: Found)
    requires TotalPreorder(older)
    ensures var out, before := Flattened(FirstKeys(results), results, older), NewestFirst(older);
      LevelWith(pivot, OfDocument(out, KeyOf(pivot)), before)
        == LevelWith(pivot, OfDocument(results, KeyOf(pivot)), before)
  {
    var keys, key := FirstKeys(results), KeyOf(pivot);
    FirstKeysOrdered(results);
    DocumentPart(keys, results, older, key);
    NewestFirstIsPreorder(older);
    SortIsStable(OfDocument(results, key), NewestFirst(older), pivot);
    if key !in keys { AllOfDocument(results, key, false); }
  }

  /** The loop over the groups: each is sorted and pushed. */
  method FlattenGroups(keys: seq<string>, byDocument: map<string, seq<Found>>, older: (string, string) -> bool,
    ghost results: seq<Found>)
    returns (sorted: seq<Found>)
    requires forall key :: key in keys ==> key in byDocument && byDocument[key] == OfDocument(results, key)
    ensures sorted == Flattened(keys, results, older)
  {
    sorted := [];
    for i := 0 to |keys|
      invariant sorted == Flattened(keys[..i], results, older)
    {
      assert keys[..i + 1][..i] == keys[..i];
      assert keys[i] in keys;
      sorted := sorted + Sort(byDocument[keys[i]], NewestFirst(older));
    }
    assert keys[..|keys|] == keys;
  }

  /** Results by document in order of first appearance, newest version first, cut to topK. */
  method TemporalOrder(results: seq<Found>, topK: nat, older: (string, string) -> bool) returns (r: seq<Found>)
    requires TotalPreorder(older)
    ensures |r| == if topK < |results| then topK else |results|
    ensures r <= Flattened(FirstKeys(results), results, older)
    ensures IsGrouping(Flattened(FirstKeys(results), results, older), results, older)
  {
    var keys, byDocument := GroupByDocument(results);
    var sorted := FlattenGroups(keys, byDocument, older, results);
    FlattenedIsGrouping(results, older);
    assert |sorted| == |multiset(sorted)| == |multiset(results)| == |results|;
    r := sorted[..if topK < |sorted| then topK else |sorted|];
  }

  // ---- what a result is grouped and ordered by ----

  /** A result belongs to the document it refers to, or to its own file when it refers to none. */
  lemma DocumentExactly(r: Found, document: string)
    requires document != ""
    ensures KeyOf(r.(documentIdRef := Some(document))) == document
    ensures KeyOf(r.(documentIdRef := None)) == r.documentFilename
    ensures KeyOf(r.(documentIdRef := Some(""))) == r.documentFilename
  {
  }

  /** A result without a version counts as version 0; of two versions the newer comes first. */
  lemma VersionExactly(r: Found, version: string, older: (string, string) -> bool, other: Found)
    requires version != ""
    ensures VersionOf(r.(version := Some(version))) == version
    ensures VersionOf(r.(version := None)) == "0" && VersionOf(r.(version := Some(""))) == "0"
    ensures NewestFirst(older)(r.(version := Some(version)), other.(version := None)) <==> older("0", version)
    ensures NewestFirst(older)(r.(version := None), other.(version := Some(version))) <==> older(version, "0")
  {
    var stated, unstated := r.(version := Some(version)), r.(version := None);
    assert VersionOf(stated) == version && VersionOf(unstated) == "0";
    assert VersionOf(other.(version := None)) == "0" && VersionOf(other.(version := Some(version))) == version;
  }
}
