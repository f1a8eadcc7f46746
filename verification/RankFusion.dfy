/** Reciprocal rank fusion: two ranked lists merged by the sum of 1 / (k + rank + 1), over the reals. */
module RankFusion {
  import opened Wrappers
  import opened Sorting

  datatype MatchType = Semantic | Keyword | Both

  /** A result's other fields, content and document among them, each by its JSON text; fusing copies them. */
  type Rest = map<string, string>

  datatype Hit = Hit(chunkId: string, score: real, matchType: Option<MatchType>, rest: Rest)

  datatype Source = SemanticSource | KeywordSource

  datatype Entry = Entry(score: real, result: Hit, sources: set<Source>)

  // ---- what a chunk's score and type are ----

  /** The sum of 1 / (k + rank + 1) over the chunk's occurrences in a list. */
  function Contribution(list: seq<Hit>, id: string, k: nat): real {
    if list == [] then 0.0 else
      var own := if list[|list| - 1].chunkId == id then 1.0 / (k + |list|) as real else 0.0;
      Contribution(list[..|list| - 1], id, k) + own
  }

  /** The other fields of the chunk's first occurrence. */
  function FirstRest(list: seq<Hit>, id: string): Option<Rest> {
    if list == [] then None else
      var first, last := FirstRest(list[..|list| - 1], id), list[|list| - 1];
      if first.None? && last.chunkId == id then Some(last.rest) else first
  }

  function Original(semantic: seq<Hit>, keyword: seq<Hit>, id: string): Option<Rest> {
    if FirstRest(semantic, id).Some? then FirstRest(semantic, id) else FirstRest(keyword, id)
  }

  predicate Occurs(list: seq<Hit>, id: string) {
    exists i :: 0 <= i < |list| && list[i].chunkId == id
  }

  function Fused(semantic: seq<Hit>, keyword: seq<Hit>, id: string, k: nat): real {
    Contribution(semantic, id, k) + Contribution(keyword, id, k)
  }

  function TypeOf(semantic: seq<Hit>, keyword: seq<Hit>, id: string): MatchType {
    if Occurs(semantic, id) && Occurs(keyword, id) then Both
    else if Occurs(semantic, id) then Semantic else Keyword
  }

  function Ids(list: seq<Hit>): set<string> {
    set i | 0 <= i < |list| :: list[i].chunkId
  }

  lemma OccursSnoc(list: seq<Hit>, i: nat, id: string)
    requires i < |list|
    ensures Occurs(list[..i + 1], id) <==> Occurs(list[..i], id) || list[i].chunkId == id
  {
    if Occurs(list[..i], id) {
      var j :| 0 <= j < i && list[..i][j].chunkId == id;
      assert list[..i + 1][j].chunkId == id;
    }
    if list[i].chunkId == id { assert list[..i + 1][i].chunkId == id; }
    if Occurs(list[..i + 1], id) {
      var j :| 0 <= j < i + 1 && list[..i + 1][j].chunkId == id;
      if j < i { assert list[..i][j].chunkId == id; }
    }
  }

  /** The score map, with its keys in insertion order. */
  datatype Scores = Scores(keys: seq<string>, entries: map<string, Entry>)

  predicate Distinct(keys: seq<string>) {
    forall i, j :: 0 <= i < j < |keys| ==> keys[i] != keys[j]
  }

  function SourcesOf(semantic: seq<Hit>, keyword: seq<Hit>, id: string): set<Source> {
    (if Occurs(semantic, id) then {SemanticSource} else {}) + (if Occurs(keyword, id) then {KeywordSource} else {})
  }

  predicate EntryFor(e: Entry, semantic: seq<Hit>, keyword: seq<Hit>, id: string, k: nat) {
    && e.score == Fused(semantic, keyword, id, k)
    && e.result.chunkId == id
    && e.sources == SourcesOf(semantic, keyword, id)
    && e.result.matchType == Some(TypeOf(semantic, keyword, id))
    && Original(semantic, keyword, id) == Some(e.result.rest)
  }

  /** The map after reading these parts of the two lists. */
  ghost predicate Tallies(s: Scores, semantic: seq<Hit>, keyword: seq<Hit>, k: nat) {
    && Distinct(s.keys)
    && (forall id :: id in s.keys <==> id in s.entries)
    && (forall id :: id in s.entries <==> Occurs(semantic, id) || Occurs(keyword, id))
    && (forall id :: id in s.entries ==> EntryFor(s.entries[id], semantic, keyword, id, k))
  }

  lemma {:induction false} NoContribution(list: seq<Hit>, id: string, k: nat)
    requires !Occurs(list, id)
    ensures Contribution(list, id, k) == 0.0 && FirstRest(list, id).None?
  {
    if list != [] {
      var last := |list| - 1;
      OccursSnoc(list, last, id);
      assert list[..last + 1] == list;
      NoContribution(list[..last], id, k);
    }
  }

  // ---- reading the lists ----

  /** The chunk's entry replaced or added; a new key goes last. */
  function Put(s: Scores, id: string, e: Entry): Scores {
    Scores(if id in s.entries then s.keys else s.keys + [id], s.entries[id := e])
  }

  /** Setting one chunk's entry to what longer lists say of it, when they say the same as before of all others. */
  lemma PutTallies(s: Scores, semantic: seq<Hit>, keyword: seq<Hit>, semantic': seq<Hit>, keyword': seq<Hit>,
    id: string, e: Entry, k: nat)
    requires Tallies(s, semantic, keyword, k) && EntryFor(e, semantic', keyword', id, k)
    requires Occurs(semantic', id) || Occurs(keyword', id)
    requires forall d :: d != id ==>
      (Occurs(semantic', d) <==> Occurs(semantic, d)) && (Occurs(keyword', d) <==> Occurs(keyword, d))
    requires forall d :: d != id ==> Fused(semantic', keyword', d, k) == Fused(semantic, keyword, d, k)
    requires forall d :: d != id ==> Original(semantic', keyword', d) == Original(semantic, keyword, d)
    ensures Tallies(Put(s, id, e), semantic', keyword', k)
  {
    var next := Put(s, id, e);
    forall d | d in next.entries ensures EntryFor(next.entries[d], semantic', keyword', d, k) {
      if d != id { assert EntryFor(s.entries[d], semantic, keyword, d, k); }
    }
  }

  function WithSemantic(old_: Option<Entry>, hit: Hit, rrf: real): Entry {
    match old_
    case Some(e) => e.(score := e.score + rrf, sources := e.sources + {SemanticSource})
    case None => Entry(rrf, hit.(matchType := Some(Semantic)), {SemanticSource})
  }

  function WithKeyword(old_: Option<Entry>, hit: Hit, rrf: real): Entry {
    match old_
    case Some(e) =>
      var sources := e.sources + {KeywordSource};
      Entry(e.score + rrf, if |sources| == 2 then e.result.(matchType := Some(Both)) else e.result, sources)
    case None => Entry(rrf, hit.(matchType := Some(Keyword)), {KeywordSource})
  }

  function Existing(s: Scores, id: string): Option<Entry> {
    if id in s.entries then Some(s.entries[id]) else None
  }

  lemma TwoSources(s: set<Source>)
    requires KeywordSource in s
    ensures |s| == 2 <==> SemanticSource in s
  {
    var both, one := {SemanticSource, KeywordSource}, {KeywordSource};
    forall x | x in s ensures x in both { match x case SemanticSource => case KeywordSource => }
    if SemanticSource in s {
      assert s == both;
    } else {
      forall x | x in s ensures x in one { match x case SemanticSource => case KeywordSource => }
      assert s == one;
    }
  }

  lemma ContributionSnoc(list: seq<Hit>, i: nat, k: nat)
    requires i < |list|
    ensures forall d :: Contribution(list[..i + 1], d, k) == Contribution(list[..i], d, k) + Step(list[i], d, k, i)
    ensures forall d :: FirstRest(list[..i + 1], d) == OrElse(FirstRest(list[..i], d), list[i], d)
  {
    assert list[..i + 1][..i] == list[..i];
  }

  lemma OwnSnoc(list: seq<Hit>, i: nat, k: nat)
    requires i < |list|
    ensures var id := list[i].chunkId;
      && Contribution(list[..i + 1], id, k) == Contribution(list[..i], id, k) + 1.0 / (k + i + 1) as real
      && FirstRest(list[..i + 1], id) == OrElse(FirstRest(list[..i], id), list[i], id)
      && Occurs(list[..i + 1], id)
  {
    ContributionSnoc(list, i, k);
    OccursSnoc(list, i, list[i].chunkId);
  }

  function OrElse(first: Option<Rest>, hit: Hit, id: string): Option<Rest> {
    if first.None? && hit.chunkId == id then Some(hit.rest) else first
  }

  function Step(hit: Hit, id: string, k: nat, rank: nat): real {
    if hit.chunkId == id then 1.0 / (k + rank + 1) as real else 0.0
  }

  lemma SemanticEntry(s: Scores, list: seq<Hit>, i: nat, k: nat)
    requires i < |list| && Tallies(s, list[..i], [], k)
    ensures EntryFor(WithSemantic(Existing(s, list[i].chunkId), list[i], 1.0 / (k + i + 1) as real), list[..i + 1], [],
      list[i].chunkId, k)
  {
    var id := list[i].chunkId;
    OwnSnoc(list, i, k);
    if id !in s.entries { NoContribution(list[..i], id, k); }
  }

  lemma KeywordEntryNew(s: Scores, semantic: seq<Hit>, list: seq<Hit>, i: nat, k: nat)
    requires i < |list| && Tallies(s, semantic, list[..i], k) && list[i].chunkId !in s.entries
    ensures EntryFor(WithKeyword(None, list[i], 1.0 / (k + i + 1) as real), semantic, list[..i + 1], list[i].chunkId, k)
  {
    OwnSnoc(list, i, k);
    NoContribution(list[..i], list[i].chunkId, k);
    NoContribution(semantic, list[i].chunkId, k);
  }

  lemma KeywordEntryOld(e: Entry, semantic: seq<Hit>, list: seq<Hit>, i: nat, k: nat)
    requires i < |list| && EntryFor(e, semantic, list[..i], list[i].chunkId, k)
    requires Occurs(semantic, list[i].chunkId) || Occurs(list[..i], list[i].chunkId)
    ensures EntryFor(WithKeyword(Some(e), list[i], 1.0 / (k + i + 1) as real), semantic, list[..i + 1], list[i].chunkId,
      k)
  {
    OwnSnoc(list, i, k);
    TwoSources(e.sources + {KeywordSource});
  }

  lemma KeywordEntry(s: Scores, semantic: seq<Hit>, list: seq<Hit>, i: nat, k: nat)
    requires i < |list| && Tallies(s, semantic, list[..i], k)
    ensures EntryFor(WithKeyword(Existing(s, list[i].chunkId), list[i], 1.0 / (k + i + 1) as real), semantic,
      list[..i + 1], list[i].chunkId, k)
  {
    var id := list[i].chunkId;
    if id in s.entries {
      KeywordEntryOld(s.entries[id], semantic, list, i, k);
    } else {
      KeywordEntryNew(s, semantic, list, i, k);
    }
  }

  lemma SnocElsewhere(list: seq<Hit>, i: nat, k: nat)
    requires i < |list|
    ensures forall d :: d != list[i].chunkId ==>
      (Occurs(list[..i + 1], d) <==> Occurs(list[..i], d))
        && Contribution(list[..i + 1], d, k) == Contribution(list[..i], d, k)
      && FirstRest(list[..i + 1], d) == FirstRest(list[..i], d)
    ensures Occurs(list[..i + 1], list[i].chunkId)
  {
    ContributionSnoc(list, i, k);
    forall d ensures Occurs(list[..i + 1], d) <==> Occurs(list[..i], d) || list[i].chunkId == d {
      OccursSnoc(list, i, d);
    }
  }

  // ---- the order of the map ----

  /** Where a chunk first appears among the hits read; their number when it does not. */
  function Seat(read: seq<Hit>, id: string): (i: nat)
    ensures i <= |read| && (i < |read| ==> read[i].chunkId == id)
    ensures forall j :: 0 <= j < i ==> read[j].chunkId != id
  {
    if read == [] then 0 else
      var before := Seat(read[..|read| - 1], id);
      if before < |read| - 1 || read[|read| - 1].chunkId == id then before else |read|
  }

  /** Keys at increasing seats. */
  ghost predicate InOrder(read: seq<Hit>, keys: seq<string>) {
    forall i, j :: 0 <= i < j < |keys| ==> Seat(read, keys[i]) < Seat(read, keys[j])
  }

  /** The keys are the chunks read, in order of first appearance. */
  ghost predicate Seated(s: Scores, read: seq<Hit>) {
    && (forall id :: id in s.entries <==> Seat(read, id) < |read|)
    && (forall id :: id in s.keys <==> id in s.entries)
    && InOrder(read, s.keys)
  }

  lemma SeatSnoc(read: seq<Hit>, hit: Hit, longer: seq<Hit>)
    requires longer == read + [hit]
    ensures forall id ::
      Seat(longer, id) == if Seat(read, id) < |read| || hit.chunkId == id then Seat(read, id) else |longer|
  {
    assert longer[..|read|] == read;
  }

  lemma KeySeatsKept(s: Scores, read: seq<Hit>, hit: Hit, longer: seq<Hit>)
    requires Seated(s, read) && longer == read + [hit]
    ensures forall i :: 0 <= i < |s.keys| ==> Seat(longer, s.keys[i]) == Seat(read, s.keys[i]) < |read|
  {
    SeatSnoc(read, hit, longer);
    forall i | 0 <= i < |s.keys| ensures Seat(longer, s.keys[i]) == Seat(read, s.keys[i]) < |read| {
      assert s.keys[i] in s.keys;
    }
  }

  lemma InOrderSnoc(read: seq<Hit>, keys: seq<string>, key: string)
    requires InOrder(read, keys) && forall i :: 0 <= i < |keys| ==> Seat(read, keys[i]) < Seat(read, key)
    ensures InOrder(read, keys + [key])
  {
  }

  lemma SeatsInOrder(s: Scores, read: seq<Hit>, hit: Hit, longer: seq<Hit>, keys: seq<string>)
    requires Seated(s, read) && longer == read + [hit]
    requires keys == if hit.chunkId in s.entries then s.keys else s.keys + [hit.chunkId]
    ensures InOrder(longer, keys)
  {
    KeySeatsKept(s, read, hit, longer);
    assert InOrder(longer, s.keys);
    if hit.chunkId !in s.entries {
      SeatSnoc(read, hit, longer);
      assert Seat(longer, hit.chunkId) == |read|;
      InOrderSnoc(longer, s.keys, hit.chunkId);
    }
  }

  lemma SeatedStep(s: Scores, read: seq<Hit>, hit: Hit, longer: seq<Hit>, e: Entry)
    requires Seated(s, read) && longer == read + [hit]
    ensures Seated(Put(s, hit.chunkId, e), longer)
  {
    var next := Put(s, hit.chunkId, e);
    SeatsInOrder(s, read, hit, longer, next.keys);
    assert forall id :: id in next.entries <==> Seat(longer, id) < |longer| by { SeatSnoc(read, hit, longer); }
  }

  function SemanticStep(s: Scores, semantic: seq<Hit>, i: nat, k: nat): Scores
    requires i < |semantic|
  {
    Put(s, semantic[i].chunkId, WithSemantic(Existing(s, semantic[i].chunkId), semantic[i], 1.0 / (k + i + 1) as real))
  }

  function KeywordStep(s: Scores, keyword: seq<Hit>, i: nat, k: nat): Scores
    requires i < |keyword|
  {
    Put(s, keyword[i].chunkId, WithKeyword(Existing(s, keyword[i].chunkId), keyword[i], 1.0 / (k + i + 1) as real))
  }

  lemma SemanticTallies(s: Scores, semantic: seq<Hit>, i: nat, k: nat, none: seq<Hit>)
    requires i < |semantic| && none == [] && Tallies(s, semantic[..i], none, k)
    ensures Tallies(SemanticStep(s, semantic, i, k), semantic[..i + 1], none, k)
  {
    var hit := semantic[i];
    SemanticEntry(s, semantic, i, k);
    SnocElsewhere(semantic, i, k);
    var e := WithSemantic(Existing(s, hit.chunkId), hit, 1.0 / (k + i + 1) as real);
    PutTallies(s, semantic[..i], none, semantic[..i + 1], none, hit.chunkId, e, k);
  }

  lemma KeywordTallies(s: Scores, semantic: seq<Hit>, keyword: seq<Hit>, i: nat, k: nat)
    requires i < |keyword| && Tallies(s, semantic, keyword[..i], k)
    ensures Tallies(KeywordStep(s, keyword, i, k), semantic, keyword[..i + 1], k)
  {
    var hit := keyword[i];
    KeywordEntry(s, semantic, keyword, i, k);
    SnocElsewhere(keyword, i, k);
    var e := WithKeyword(Existing(s, hit.chunkId), hit, 1.0 / (k + i + 1) as real);
    PutTallies(s, semantic, keyword[..i], semantic, keyword[..i + 1], hit.chunkId, e, k);
  }

  /** Reading one more hit of the list adds it to what was read. */
  lemma ReadSnoc(before: seq<Hit>, list: seq<Hit>, i: nat)
    requires i < |list|
    ensures before + list[..i + 1] == before + list[..i] + [list[i]]
  {
  }

  lemma PrefixSnoc(list: seq<Hit>, i: nat)
    requires i < |list|
    ensures list[..i + 1] == list[..i] + [list[i]]
  {
  }

  lemma SemanticSeats(s: Scores, read: seq<Hit>, longer: seq<Hit>, semantic: seq<Hit>, i: nat, k: nat)
    requires i < |semantic| && Seated(s, read) && longer == read + [semantic[i]]
    ensures Seated(SemanticStep(s, semantic, i, k), longer)
  {
    var e := WithSemantic(Existing(s, semantic[i].chunkId), semantic[i], 1.0 / (k + i + 1) as real);
    SeatedStep(s, read, semantic[i], longer, e);
  }

  lemma KeywordSeats(s: Scores, read: seq<Hit>, longer: seq<Hit>, keyword: seq<Hit>, i: nat, k: nat)
    requires i < |keyword| && Seated(s, read) && longer == read + [keyword[i]]
    ensures Seated(KeywordStep(s, keyword, i, k), longer)
  {
    var e := WithKeyword(Existing(s, keyword[i].chunkId), keyword[i], 1.0 / (k + i + 1) as real);
    SeatedStep(s, read, keyword[i], longer, e);
  }

  lemma NothingRead(s: Scores, none: seq<Hit>, k: nat)
    requires s == Scores([], map[]) && none == []
    ensures Tallies(s, none, none, k) && Seated(s, none)
  {
  }

  /** One semantic hit read. */
  method ReadSemantic(s: Scores, semantic: seq<Hit>, i: nat, k: nat, ghost none: seq<Hit>) returns (s': Scores)
    requires i < |semantic| && none == [] && Tallies(s, semantic[..i], none, k) && Seated(s, semantic[..i])
    ensures Tallies(s', semantic[..i + 1], none, k) && Seated(s', semantic[..i + 1])
  {
    var hit := semantic[i];
    s' := Put(s, hit.chunkId, WithSemantic(Existing(s, hit.chunkId), hit, 1.0 / (k + i + 1) as real));
    assert Tallies(s', semantic[..i + 1], none, k) by { SemanticTallies(s, semantic, i, k, none); }
    assert Seated(s', semantic[..i + 1]) by {
      PrefixSnoc(semantic, i);
      SemanticSeats(s, semantic[..i], semantic[..i + 1], semantic, i, k);
    }
  }

  /** The loop over the semantic hits. */
  method AddSemantic(semantic: seq<Hit>, k: nat, ghost none: seq<Hit>) returns (s: Scores)
    requires none == []
    ensures Tallies(s, semantic, none, k) && Seated(s, semantic)
  {
    s := Scores([], map[]);
    NothingRead(s, none, k);
    assert semantic[..0] == none;
    for i := 0 to |semantic|
      invariant Tallies(s, semantic[..i], none, k) && Seated(s, semantic[..i])
    {
      s := ReadSemantic(s, semantic, i, k, none);
    }
    assert semantic[..|semantic|] == semantic;
  }

  /** One keyword hit read. */
  method ReadKeyword(s: Scores, semantic: seq<Hit>, keyword: seq<Hit>, i: nat, k: nat) returns (s': Scores)
    requires i < |keyword| && Tallies(s, semantic, keyword[..i], k) && Seated(s, semantic + keyword[..i])
    ensures Tallies(s', semantic, keyword[..i + 1], k) && Seated(s', semantic + keyword[..i + 1])
  {
    var hit := keyword[i];
    s' := Put(s, hit.chunkId, WithKeyword(Existing(s, hit.chunkId), hit, 1.0 / (k + i + 1) as real));
    assert Tallies(s', semantic, keyword[..i + 1], k) by { KeywordTallies(s, semantic, keyword, i, k); }
    assert Seated(s', semantic + keyword[..i + 1]) by {
      ReadSnoc(semantic, keyword, i);
      KeywordSeats(s, semantic + keyword[..i], semantic + keyword[..i + 1], keyword, i, k);
    }
  }

  /** The loop over the keyword hits. */
  method AddKeyword(before: Scores, semantic: seq<Hit>, keyword: seq<Hit>, k: nat) returns (s: Scores)
    requires Tallies(before, semantic, keyword[..0], k) && Seated(before, semantic + keyword[..0])
    ensures Tallies(s, semantic, keyword, k) && Seated(s, semantic + keyword)
  {
    s := before;
    for i := 0 to |keyword|
      invariant Tallies(s, semantic, keyword[..i], k) && Seated(s, semantic + keyword[..i])
    {
      s := ReadKeyword(s, semantic, keyword, i, k);
    }
    assert keyword[..|keyword|] == keyword;
  }

  /** Both loops, filling the map. */
  method Tally(semantic: seq<Hit>, keyword: seq<Hit>, k: nat) returns (s: Scores)
    ensures Tallies(s, semantic, keyword, k) && Seated(s, semantic + keyword)
  {
    ghost var none := keyword[..0];
    s := AddSemantic(semantic, k, none);
    assert semantic + none == semantic;
    s := AddKeyword(s, semantic, keyword, k);
  }

  // ---- the fusion ----

  predicate ScoresAtLeast(a: Entry, b: Entry) {
    a.score >= b.score
  }

  function Values(s: Scores): seq<Entry>
    requires forall id :: id in s.keys ==> id in s.entries
  {
    seq(|s.keys|, i requires 0 <= i < |s.keys| => s.entries[s.keys[i]])
  }

  function EntrySeat(read: seq<Hit>): Entry -> int {
    (e: Entry) => Seat(read, e.result.chunkId)
  }

  /**
   The entries in score order, equal scores in order of first appearance: each chunk of either list once, with its score
   and type.
   */
  ghost predicate Ranks(sorted: seq<Entry>, semantic: seq<Hit>, keyword: seq<Hit>, k: nat) {
    && OrderedBySeat(sorted, ScoresAtLeast, EntrySeat(semantic + keyword))
    && (forall i, j :: 0 <= i < j < |sorted| ==> sorted[i].result.chunkId != sorted[j].result.chunkId)
    && (forall i :: 0 <= i < |sorted| ==> EntryFor(sorted[i], semantic, keyword, sorted[i].result.chunkId, k))
    && (forall id :: Occurs(semantic, id) || Occurs(keyword, id) <==>
      exists i :: 0 <= i < |sorted| && sorted[i].result.chunkId == id)
  }

  lemma IdsDistinctAfterSort(values: seq<Entry>, sorted: seq<Entry>)
    requires multiset(values) == multiset(sorted)
    requires forall i, j :: 0 <= i < j < |values| ==> values[i].result.chunkId != values[j].result.chunkId
    ensures forall i, j :: 0 <= i < j < |sorted| ==> sorted[i].result.chunkId != sorted[j].result.chunkId
  {
    forall i, j | 0 <= i < j < |sorted| ensures sorted[i].result.chunkId != sorted[j].result.chunkId {
      if sorted[i].result.chunkId == sorted[j].result.chunkId {
        var a, b := sorted[i], sorted[j];
        assert a in multiset(values) && b in multiset(values);
        var p :| 0 <= p < |values| && values[p] == a;
        var q :| 0 <= q < |values| && values[q] == b;
        assert p == q && a == b;
        TwiceInMultiset(sorted, i, j);
        OnceInMultiset(values, p);
        assert false;
      }
    }
  }

  lemma TwiceInMultiset<T>(s: seq<T>, i: nat, j: nat)
    requires i < j < |s| && s[i] == s[j]
    ensures multiset(s)[s[i]] >= 2
  {
    assert s == s[..j] + [s[j]] + s[j + 1..];
    assert s[i] in s[..j];
  }

  lemma OnceInMultiset<T>(s: seq<T>, p: nat)
    requires p < |s| && forall q :: 0 <= q < |s| && q != p ==> s[q] != s[p]
    ensures multiset(s)[s[p]] == 1
  {
    assert s == s[..p] + [s[p]] + s[p + 1..];
    assert s[p] !in s[..p] && s[p] !in s[p + 1..];
  }

  lemma {:induction false} DistinctCount(keys: seq<string>)
    requires Distinct(keys)
    ensures |set x | x in keys| == |keys|
  {
    if keys != [] {
      var front, last := keys[..|keys| - 1], keys[|keys| - 1];
      DistinctCount(front);
      assert keys == front + [last];
      assert (set x | x in keys) == (set x | x in front) + {last};
      assert last !in (set x | x in front);
    } else {
      assert (set x | x in keys) == {};
    }
  }

  lemma ValuesTally(s: Scores, semantic: seq<Hit>, keyword: seq<Hit>, k: nat)
    requires Tallies(s, semantic, keyword, k)
    ensures var values := Values(s);
      && (forall e :: e in values ==>
        EntryFor(e, semantic, keyword, e.result.chunkId, k) && e.result.chunkId in s.entries)
      && (forall i, j :: 0 <= i < j < |values| ==> values[i].result.chunkId != values[j].result.chunkId)
      && (forall id :: id in s.entries ==> exists e :: e in values && e.result.chunkId == id)
  {
    var values := Values(s);
    forall i | 0 <= i < |values|
      ensures EntryFor(values[i], semantic, keyword, s.keys[i], k) && s.keys[i] in s.entries
    {
      assert s.keys[i] in s.keys;
    }
    forall id | id in s.entries ensures exists e :: e in values && e.result.chunkId == id {
      assert id in s.keys;
      var p :| 0 <= p < |s.keys| && s.keys[p] == id;
      assert values[p] in values;
    }
  }

  lemma InBoth(a: seq<Entry>, b: seq<Entry>)
    requires multiset(a) == multiset(b)
    ensures forall e :: e in a <==> e in b
  {
    forall e ensures e in a <==> e in b { assert e in a <==> e in multiset(a); assert e in b <==> e in multiset(b); }
  }

  lemma EntriesSurviveSort(values: seq<Entry>, sorted: seq<Entry>, semantic: seq<Hit>, keyword: seq<Hit>, k: nat)
    requires multiset(values) == multiset(sorted)
    requires forall e :: e in values ==> EntryFor(e, semantic, keyword, e.result.chunkId, k)
    ensures forall i :: 0 <= i < |sorted| ==> EntryFor(sorted[i], semantic, keyword, sorted[i].result.chunkId, k)
  {
    InBoth(values, sorted);
    forall i | 0 <= i < |sorted| ensures EntryFor(sorted[i], semantic, keyword, sorted[i].result.chunkId, k) {
      assert sorted[i] in values;
    }
  }

  lemma IdsSurviveSort(values: seq<Entry>, sorted: seq<Entry>, ids: set<string>)
    requires multiset(values) == multiset(sorted)
    requires forall e :: e in values ==> e.result.chunkId in ids
    requires forall id :: id in ids ==> exists e :: e in values && e.result.chunkId == id
    ensures forall id :: id in ids <==> exists i :: 0 <= i < |sorted| && sorted[i].result.chunkId == id
  {
    InBoth(values, sorted);
    forall id | id in ids ensures exists i :: 0 <= i < |sorted| && sorted[i].result.chunkId == id {
      var e :| e in values && e.result.chunkId == id;
      var i :| 0 <= i < |sorted| && sorted[i] == e;
    }
    forall i | 0 <= i < |sorted| ensures sorted[i].result.chunkId in ids { assert sorted[i] in values; }
  }

  lemma ValuesSeated(s: Scores, semantic: seq<Hit>, keyword: seq<Hit>, k: nat)
    requires Tallies(s, semantic, keyword, k) && Seated(s, semantic + keyword)
    ensures OrderedBySeat(Sort(Values(s), ScoresAtLeast), ScoresAtLeast, EntrySeat(semantic + keyword))
  {
    var values, seat := Values(s), EntrySeat(semantic + keyword);
    forall i, j | 0 <= i < j < |values| ensures seat(values[i]) < seat(values[j]) {
      assert s.keys[i] in s.keys && s.keys[j] in s.keys;
      assert values[i].result.chunkId == s.keys[i] && values[j].result.chunkId == s.keys[j];
    }
    SortKeepsSeats(values, ScoresAtLeast, seat);
  }

  lemma ValuesRank(s: Scores, semantic: seq<Hit>, keyword: seq<Hit>, k: nat)
    requires Tallies(s, semantic, keyword, k) && Seated(s, semantic + keyword)
    ensures Ranks(Sort(Values(s), ScoresAtLeast), semantic, keyword, k)
    ensures |Sort(Values(s), ScoresAtLeast)| == |Ids(semantic) + Ids(keyword)|
  {
    var values, sorted := Values(s), Sort(Values(s), ScoresAtLeast);
    SortFacts(values, ScoresAtLeast);
    ValuesSeated(s, semantic, keyword, k);
    ValuesTally(s, semantic, keyword, k);
    IdsDistinctAfterSort(values, sorted);
    EntriesSurviveSort(values, sorted, semantic, keyword, k);
    IdsSurviveSort(values, sorted, s.entries.Keys);
    KeysAreIds(s, semantic, keyword, k);
  }

  lemma ReadIds(list: seq<Hit>, id: string)
    ensures id in Ids(list) <==> Occurs(list, id)
  {
  }

  lemma KeysAreIds(s: Scores, semantic: seq<Hit>, keyword: seq<Hit>, k: nat)
    requires Tallies(s, semantic, keyword, k)
    ensures |s.keys| == |Ids(semantic) + Ids(keyword)|
  {
    DistinctCount(s.keys);
    var read := Ids(semantic) + Ids(keyword);
    var ids := set x | x in s.keys;
    forall id ensures id in ids <==> id in read {
      assert id in ids <==> id in s.entries;
      ReadIds(semantic, id);
      ReadIds(keyword, id);
    }
    assert ids == read;
  }

  function Min(a: int, b: int): int { if a <= b then a else b }

  /** What a kept chunk must be, said of the two input lists alone. */
  predicate HitFor(hit: Hit, semantic: seq<Hit>, keyword: seq<Hit>, k: nat) {
    && (Occurs(semantic, hit.chunkId) || Occurs(keyword, hit.chunkId))
    && hit.score == Fused(semantic, keyword, hit.chunkId, k)
    && hit.matchType == Some(TypeOf(semantic, keyword, hit.chunkId))
    && Original(semantic, keyword, hit.chunkId) == Some(hit.rest)
  }

  /** The first chunk scores less than the second, or as much and appears later. */
  predicate ComesAfter(id: string, other: string, semantic: seq<Hit>, keyword: seq<Hit>, k: nat) {
    var a, b := Fused(semantic, keyword, id, k), Fused(semantic, keyword, other, k);
    a < b || (a == b && Seat(semantic + keyword, other) < Seat(semantic + keyword, id))
  }

  /**
   What the fused list must be: no chunk twice, best first, equal scores in order of first appearance, and no omitted
   chunk scoring above a kept one.
   */
  ghost predicate IsFusion(r: seq<Hit>, semantic: seq<Hit>, keyword: seq<Hit>, topK: nat, k: nat) {
    && |r| <= topK && |r| <= |Ids(semantic) + Ids(keyword)|
    && (|r| == topK || |r| == |Ids(semantic) + Ids(keyword)|)
    && (forall i, j :: 0 <= i < j < |r| ==> r[i].chunkId != r[j].chunkId && r[i].score >= r[j].score)
    && (forall i, j :: 0 <= i < j < |r| && r[i].score == r[j].score ==>
      Seat(semantic + keyword, r[i].chunkId) < Seat(semantic + keyword, r[j].chunkId))
    && (forall hit :: hit in r ==> HitFor(hit, semantic, keyword, k))
    && (forall id, i :: 0 <= i < |r| && (Occurs(semantic, id) || Occurs(keyword, id)) && !Occurs(r, id) ==>
      ComesAfter(id, r[i].chunkId, semantic, keyword, k))
  }

  function Hits(sorted: seq<Entry>, count: nat): seq<Hit>
    requires count <= |sorted|
  {
    seq(count, i requires 0 <= i < count => sorted[i].result.(score := sorted[i].score))
  }

  lemma CutKeepsOrder(sorted: seq<Entry>, semantic: seq<Hit>, keyword: seq<Hit>, count: nat, k: nat)
    requires Ranks(sorted, semantic, keyword, k) && count <= |sorted|
    ensures var r := Hits(sorted, count);
      forall i, j :: 0 <= i < j < |r| ==>
        && r[i].chunkId != r[j].chunkId && r[i].score >= r[j].score
        && (r[i].score == r[j].score ==>
          Seat(semantic + keyword, r[i].chunkId) < Seat(semantic + keyword, r[j].chunkId))
  {
    var seat := EntrySeat(semantic + keyword);
    forall i, j | 0 <= i < j < count
      ensures sorted[i].score >= sorted[j].score
        && (sorted[i].score == sorted[j].score ==> seat(sorted[i]) < seat(sorted[j]))
    {
      assert ScoresAtLeast(sorted[i], sorted[j]);
    }
  }

  lemma CutKeepsEntries(sorted: seq<Entry>, semantic: seq<Hit>, keyword: seq<Hit>, count: nat, k: nat)
    requires Ranks(sorted, semantic, keyword, k) && count <= |sorted|
    ensures forall hit :: hit in Hits(sorted, count) ==> HitFor(hit, semantic, keyword, k)
  {
    var r := Hits(sorted, count);
    forall i | 0 <= i < |r| ensures HitFor(r[i], semantic, keyword, k) {
      assert EntryFor(sorted[i], semantic, keyword, r[i].chunkId, k);
    }
  }

  lemma CutOccurs(sorted: seq<Entry>, count: nat, p: nat)
    requires p < count <= |sorted|
    ensures Occurs(Hits(sorted, count), sorted[p].result.chunkId)
  {
    assert Hits(sorted, count)[p].chunkId == sorted[p].result.chunkId;
  }

  lemma CutOmitsLower(sorted: seq<Entry>, semantic: seq<Hit>, keyword: seq<Hit>, count: nat, k: nat, id: string, i: nat)
    requires Ranks(sorted, semantic, keyword, k) && count <= |sorted| && i < count
    requires Occurs(semantic, id) || Occurs(keyword, id)
    requires !Occurs(Hits(sorted, count), id)
    ensures ComesAfter(id, sorted[i].result.chunkId, semantic, keyword, k)
  {
    var p :| 0 <= p < |sorted| && sorted[p].result.chunkId == id;
    if p < count { CutOccurs(sorted, count, p); assert false; }
    assert ScoresAtLeast(sorted[i], sorted[p]);
    assert EntryFor(sorted[p], semantic, keyword, id, k);
    assert EntryFor(sorted[i], semantic, keyword, sorted[i].result.chunkId, k);
    var seat := EntrySeat(semantic + keyword);
    assert ScoresAtLeast(sorted[p], sorted[i]) ==> seat(sorted[i]) < seat(sorted[p]);
  }

  lemma RanksCut(sorted: seq<Entry>, semantic: seq<Hit>, keyword: seq<Hit>, topK: nat, k: nat)
    requires Ranks(sorted, semantic, keyword, k) && |sorted| == |Ids(semantic) + Ids(keyword)|
    ensures IsFusion(Hits(sorted, Min(topK, |sorted|)), semantic, keyword, topK, k)
  {
    var count := Min(topK, |sorted|);
    CutKeepsOrder(sorted, semantic, keyword, count, k);
    CutKeepsEntries(sorted, semantic, keyword, count, k);
    forall id, i: nat | i < count && (Occurs(semantic, id) || Occurs(keyword, id)) && !Occurs(Hits(sorted, count), id)
      ensures ComesAfter(id, sorted[i].result.chunkId, semantic, keyword, k)
    {
      CutOmitsLower(sorted, semantic, keyword, count, k, id, i);
    }
  }

  /** The fused list: no chunk twice, best first, none left out that scores above a kept one. */
  method ReciprocalRankFusion(semantic: seq<Hit>, keyword: seq<Hit>, topK: nat, k: nat) returns (r: seq<Hit>)
    ensures IsFusion(r, semantic, keyword, topK, k)
  {
    var s := Tally(semantic, keyword, k);
    var sorted := Sort(Values(s), ScoresAtLeast);
    ValuesRank(s, semantic, keyword, k);
    RanksCut(sorted, semantic, keyword, topK, k);
    r := Hits(sorted, Min(topK, |sorted|));
  }

  // ---- a rank's worth ----

  /** A chunk that stands once in a list, at rank `r` from 0, contributes 1 / (k + r + 1). */
  lemma {:induction false} ContributionExactly(list: seq<Hit>, r: nat, k: nat)
    requires r < |list| && forall i :: 0 <= i < |list| && i != r ==> list[i].chunkId != list[r].chunkId
    ensures Contribution(list, list[r].chunkId, k) == 1.0 / (k + r + 1) as real
  {
    var front := list[..|list| - 1];
    if r == |list| - 1 {
      NoContribution(front, list[r].chunkId, k);
    } else {
      ContributionExactly(front, r, k);
    }
  }
}
