/** Maximal marginal relevance: a greedy choice that trades relevance against likeness to what is chosen already. */
module Mmr {
  import opened Wrappers
  import opened Strings

  datatype Candidate = Candidate(chunkId: string, content: string, score: real)

  // ---- word overlap ----

  function SkipSpaces(text: string): (r: string)
    ensures |r| <= |text|
  {
    if text != [] && IsSpace(text[0]) then SkipSpaces(text[1..]) else text
  }

  /** The text cut at its runs of whitespace; an outer run leaves an empty word at its end. */
  function Words(text: string): (r: seq<string>)
    ensures |r| > 0
    decreases |text|
  {
    var i := FirstSpace(text);
    if i == |text| then [text] else [text[..i]] + Words(SkipSpaces(text[i + 1..]))
  }

  function FirstSpace(text: string): (i: nat)
    ensures i <= |text| && (i < |text| ==> IsSpace(text[i]))
  {
    if text == [] || IsSpace(text[0]) then 0 else 1 + FirstSpace(text[1..])
  }

  function WordSet(text: string, lower: string -> string): (r: set<string>)
    ensures r != {}
  {
    var words := Words(lower(text));
    var all := set w | w in words;
    assert words[0] in all;
    all
  }

  /** Jaccard similarity of the two word sets. */
  function ContentSimilarity(a: string, b: string, lower: string -> string): real {
    var inter, all := WordSet(a, lower) * WordSet(b, lower), WordSet(a, lower) + WordSet(b, lower);
    |inter| as real / |all| as real
  }

  lemma SubsetSize<T>(a: set<T>, b: set<T>)
    requires a <= b
    ensures |a| <= |b| && (|a| == |b| <==> a == b)
  {
    assert b == a + (b - a);
    assert |b| == |a| + |b - a|;
  }

  lemma Ratio(a: nat, b: nat)
    requires a <= b && b > 0
    ensures 0.0 <= a as real / b as real <= 1.0
    ensures a as real / b as real == 0.0 <==> a == 0
    ensures a as real / b as real == 1.0 <==> a == b
  {
    var r := a as real / b as real;
    assert r * b as real == a as real;
  }

  /** Similarity is symmetric, lies in [0, 1], is 1 for the same words only and 0 for no common word only. */
  lemma SimilarityIsJaccard(a: string, b: string, lower: string -> string)
    ensures 0.0 <= ContentSimilarity(a, b, lower) <= 1.0
    ensures ContentSimilarity(a, b, lower) == ContentSimilarity(b, a, lower)
    ensures ContentSimilarity(a, b, lower) == 1.0 <==> WordSet(a, lower) == WordSet(b, lower)
    ensures ContentSimilarity(a, b, lower) == 0.0 <==> WordSet(a, lower) * WordSet(b, lower) == {}
  {
    var x, y := WordSet(a, lower), WordSet(b, lower);
    assert x * y == y * x && x + y == y + x;
    SubsetSize(x * y, x + y);
    Ratio(|x * y|, |x + y|);
    if x * y == x + y {
      assert forall w :: w in x <==> w in x + y && w in x * y;
      assert x == y;
    }
  }

  // ---- the score ----

  /** The largest similarity to a chosen one; 0 while nothing is chosen. */
  function MaxSimilarity(content: string, selected: seq<Candidate>, lower: string -> string): real {
    if selected == [] then 0.0 else
      var here := ContentSimilarity(content, selected[|selected| - 1].content, lower);
      var before := MaxSimilarity(content, selected[..|selected| - 1], lower);
      if |selected| == 1 || here > before then here else before
  }

  lemma {:induction false} MaxSimilarityIsMax(content: string, selected: seq<Candidate>, lower: string -> string)
    ensures var m := MaxSimilarity(content, selected, lower);
      && (forall s :: s in selected ==> ContentSimilarity(content, s.content, lower) <= m)
      && (if selected == [] then m == 0.0
          else exists s :: s in selected && ContentSimilarity(content, s.content, lower) == m)
  {
    if selected != [] {
      var front, last := selected[..|selected| - 1], selected[|selected| - 1];
      assert selected == front + [last];
      MaxSimilarityIsMax(content, front, lower);
      assert last in selected;
    }
  }

  /** Relevance weighted against the penalty for likeness. */
  function Blend(weight: real, relevance: real, penalty: real): real {
    weight * relevance - (1.0 - weight) * penalty
  }

  function MmrScore(current: Candidate, selected: seq<Candidate>, weight: real, lower: string -> string): real {
    Blend(weight, current.score, MaxSimilarity(current.content, selected, lower))
  }

  // ---- the greedy order ----

  predicate Indices(picks: seq<nat>, size: nat) {
    forall j :: 0 <= j < |picks| ==> picks[j] < size
  }

  function Chosen(picks: seq<nat>, candidates: seq<Candidate>): seq<Candidate>
    requires Indices(picks, |candidates|)
  {
    seq(|picks|, j requires 0 <= j < |picks| => candidates[picks[j]])
  }

  /** No candidate that is still free scores higher than the pick, and none before it scores as high. */
  ghost predicate FirstBest(pick: nat, taken: seq<nat>, candidates: seq<Candidate>, weight: real,
    lower: string -> string)
    requires Indices(taken, |candidates|) && pick < |candidates|
  {
    var best := MmrScore(candidates[pick], Chosen(taken, candidates), weight, lower);
    forall i :: 0 <= i < |candidates| && i !in taken ==>
      var score := MmrScore(candidates[i], Chosen(taken, candidates), weight, lower);
        score <= best && (i < pick ==> score < best)
  }

  /** Every pick was free when it was made and was the first best of those free. */
  ghost predicate Greedy(picks: seq<nat>, candidates: seq<Candidate>, weight: real, lower: string -> string) {
    && Indices(picks, |candidates|)
    && (picks == [] ||
      var taken, pick := picks[..|picks| - 1], picks[|picks| - 1];
      && Greedy(taken, candidates, weight, lower)
      && pick !in taken
      && FirstBest(pick, taken, candidates, weight, lower))
  }

  lemma FirstBestUnique(a: nat, b: nat, taken: seq<nat>, candidates: seq<Candidate>, weight: real,
    lower: string -> string)
    requires Indices(taken, |candidates|) && a < |candidates| && b < |candidates| && a !in taken && b !in taken
    requires FirstBest(a, taken, candidates, weight, lower) && FirstBest(b, taken, candidates, weight, lower)
    ensures a == b
  {
    var best := MmrScore(candidates[a], Chosen(taken, candidates), weight, lower);
    assert MmrScore(candidates[b], Chosen(taken, candidates), weight, lower) <= best;
  }

  lemma SnocEqual(p: seq<nat>, q: seq<nat>)
    requires |p| == |q| > 0 && p[..|p| - 1] == q[..|q| - 1] && p[|p| - 1] == q[|q| - 1]
    ensures p == q
  {
    assert p == p[..|p| - 1] + [p[|p| - 1]];
    assert q == q[..|q| - 1] + [q[|q| - 1]];
  }

  /** The greedy order is the only one of its length. */
  lemma {:induction false} GreedyUnique(p: seq<nat>, q: seq<nat>, candidates: seq<Candidate>, weight: real,
    lower: string -> string)
    requires |p| == |q|
    requires Greedy(p, candidates, weight, lower) && Greedy(q, candidates, weight, lower)
    ensures p == q
  {
    if p != [] {
      GreedyUnique(p[..|p| - 1], q[..|q| - 1], candidates, weight, lower);
      FirstBestUnique(p[|p| - 1], q[|q| - 1], p[..|p| - 1], candidates, weight, lower);
      SnocEqual(p, q);
    }
  }

  // ---- the loop ----

  /** What is left, by index: the indices not picked, in order. */
  ghost predicate Rest(rest: seq<nat>, picks: seq<nat>, size: nat) {
    && Indices(rest, size) && Indices(picks, size)
    && (forall i, j :: 0 <= i < j < |rest| ==> rest[i] < rest[j])
    && (forall i :: 0 <= i < size ==> (i in rest <==> i !in picks))
    && |picks| + |rest| == size
  }

  method PickBest(remaining: seq<Candidate>, selected: seq<Candidate>, weight: real, lower: string -> string)
    returns (bestIdx: nat)
    requires |remaining| > 0
    ensures bestIdx < |remaining|
    ensures var best := MmrScore(remaining[bestIdx], selected, weight, lower);
      forall i :: 0 <= i < |remaining| ==>
        var score := MmrScore(remaining[i], selected, weight, lower); score <= best && (i < bestIdx ==> score < best)
  {
    ghost var scores := seq(|remaining|, i requires 0 <= i < |remaining| =>
      MmrScore(remaining[i], selected, weight, lower));
    var bestScore: Option<real> := None;
    bestIdx := 0;
    for i := 0 to |remaining|
      invariant if i == 0 then bestScore.None? && bestIdx == 0 else bestScore.Some? && bestIdx < i
      invariant bestScore.Some? ==> bestScore.value == scores[bestIdx]
      invariant bestScore.Some? ==> forall j :: 0 <= j < i ==>
        scores[j] <= bestScore.value && (j < bestIdx ==> scores[j] < bestScore.value)
    {
      var mmrScore := MmrScore(remaining[i], selected, weight, lower);
      assert mmrScore == scores[i];
      if bestScore.None? || mmrScore > bestScore.value {
        bestScore, bestIdx := Some(mmrScore), i;
      }
    }
    forall i | 0 <= i < |remaining|
      ensures MmrScore(remaining[i], selected, weight, lower) == scores[i] {
    }
  }

  lemma RestAfter(rest: seq<nat>, picks: seq<nat>, size: nat, b: nat)
    requires Rest(rest, picks, size) && b < |rest|
    ensures Rest(rest[..b] + rest[b + 1..], picks + [rest[b]], size)
  {
    var rest', picks' := rest[..b] + rest[b + 1..], picks + [rest[b]];
    forall i | 0 <= i < size ensures i in rest' <==> i !in picks' {
      if i in rest && i != rest[b] {
        var p :| 0 <= p < |rest| && rest[p] == i;
        assert if p < b then rest'[p] == i else rest'[p - 1] == i;
      }
    }
  }

  /** What remains, read by index: order among the indices is order among what remains. */
  lemma RestOrder(rest: seq<nat>, picks: seq<nat>, size: nat, b: nat, i: nat) returns (p: nat)
    requires Rest(rest, picks, size) && b < |rest| && i < size && i !in picks
    ensures p < |rest| && rest[p] == i && (i < rest[b] ==> p < b)
  {
    assert i in rest;
    p :| 0 <= p < |rest| && rest[p] == i;
    assert p > b ==> rest[b] < rest[p];
  }

  lemma PickIsFirstBest(rest: seq<nat>, remaining: seq<Candidate>, picks: seq<nat>, candidates: seq<Candidate>,
    weight: real, lower: string -> string, b: nat)
    requires Rest(rest, picks, |candidates|) && remaining == Chosen(rest, candidates) && b < |rest|
    requires var best := MmrScore(remaining[b], Chosen(picks, candidates), weight, lower);
      forall i :: 0 <= i < |remaining| ==>
        var score := MmrScore(remaining[i], Chosen(picks, candidates), weight, lower);
          score <= best && (i < b ==> score < best)
    ensures FirstBest(rest[b], picks, candidates, weight, lower)
  {
    var best := MmrScore(candidates[rest[b]], Chosen(picks, candidates), weight, lower);
    forall i: nat | i < |candidates| && i !in picks
      ensures var score := MmrScore(candidates[i], Chosen(picks, candidates), weight, lower);
        score <= best && (i < rest[b] ==> score < best)
    {
      var p := RestOrder(rest, picks, |candidates|, b, i);
      assert remaining[p] == candidates[i];
    }
  }

  /** The loop's state: picks so far and what remains, both as indices and as candidates. */
  ghost predicate Underway(selected: seq<Candidate>, remaining: seq<Candidate>, picks: seq<nat>, rest: seq<nat>,
    candidates: seq<Candidate>, weight: real, lower: string -> string)
  {
    && Greedy(picks, candidates, weight, lower) && Rest(rest, picks, |candidates|)
    && selected == Chosen(picks, candidates) && remaining == Chosen(rest, candidates)
  }

  lemma GreedySnoc(taken: seq<nat>, pick: nat, picks: seq<nat>, candidates: seq<Candidate>, weight: real,
    lower: string -> string)
    requires Greedy(taken, candidates, weight, lower) && pick < |candidates| && pick !in taken
      && picks == taken + [pick]
    requires FirstBest(pick, taken, candidates, weight, lower)
    ensures Greedy(picks, candidates, weight, lower)
  {
    assert picks[..|taken|] == taken;
  }

  lemma ChosenSnoc(picks: seq<nat>, pick: nat, candidates: seq<Candidate>)
    requires Indices(picks, |candidates|) && pick < |candidates|
    ensures Chosen(picks + [pick], candidates) == Chosen(picks, candidates) + [candidates[pick]]
  {
  }

  lemma ChosenWithout(rest: seq<nat>, b: nat, candidates: seq<Candidate>)
    requires Indices(rest, |candidates|) && b < |rest|
    ensures var remaining := Chosen(rest, candidates);
      Chosen(rest[..b] + rest[b + 1..], candidates) == remaining[..b] + remaining[b + 1..]
  {
  }

  lemma Advance(selected: seq<Candidate>, remaining: seq<Candidate>, picks: seq<nat>, rest: seq<nat>,
    candidates: seq<Candidate>, weight: real, lower: string -> string, b: nat)
    requires Underway(selected, remaining, picks, rest, candidates, weight, lower)
    requires b < |rest| && FirstBest(rest[b], picks, candidates, weight, lower)
    ensures Underway(selected + [remaining[b]], remaining[..b] + remaining[b + 1..], picks + [rest[b]],
      rest[..b] + rest[b + 1..], candidates, weight, lower)
  {
    var picks', rest' := picks + [rest[b]], rest[..b] + rest[b + 1..];
    assert Rest(rest', picks', |candidates|) by { RestAfter(rest, picks, |candidates|, b); }
    assert Greedy(picks', candidates, weight, lower) by {
      assert rest[b] in rest;
      GreedySnoc(picks, rest[b], picks', candidates, weight, lower);
    }
    ChosenSnoc(picks, rest[b], candidates);
    ChosenWithout(rest, b, candidates);
  }

  lemma Start(candidates: seq<Candidate>, weight: real, lower: string -> string, rest: seq<nat>)
    requires |rest| == |candidates| && forall i :: 0 <= i < |rest| ==> rest[i] == i
    ensures Underway([], candidates, [], rest, candidates, weight, lower)
  {
    forall i | 0 <= i < |candidates| ensures i in rest { assert rest[i] == i; }
  }

  /** One round: the first best of what remains moves to the chosen ones. */
  method TakeBest(selected: seq<Candidate>, remaining: seq<Candidate>, ghost picks: seq<nat>, ghost rest: seq<nat>,
    candidates: seq<Candidate>, weight: real, lower: string -> string)
    returns (selected': seq<Candidate>, remaining': seq<Candidate>, ghost picks': seq<nat>, ghost rest': seq<nat>)
    requires Underway(selected, remaining, picks, rest, candidates, weight, lower) && |remaining| > 0
    ensures Underway(selected', remaining', picks', rest', candidates, weight, lower)
    ensures |picks'| == |picks| + 1 && |remaining'| == |remaining| - 1
    ensures multiset(selected') + multiset(remaining') == multiset(selected) + multiset(remaining)
  {
    var bestIdx := PickBest(remaining, selected, weight, lower);
    PickIsFirstBest(rest, remaining, picks, candidates, weight, lower, bestIdx);
    Advance(selected, remaining, picks, rest, candidates, weight, lower, bestIdx);
    var best := remaining[bestIdx];
    assert remaining == remaining[..bestIdx] + [best] + remaining[bestIdx + 1..];
    selected' := selected + [best];
    remaining' := remaining[..bestIdx] + remaining[bestIdx + 1..];
    picks', rest' := picks + [rest[bestIdx]], rest[..bestIdx] + rest[bestIdx + 1..];
  }

  /** All candidates when they are few; otherwise the first topK of the greedy order. */
  method MmrSearch(candidates: seq<Candidate>, topK: nat, weight: real, lower: string -> string)
    returns (selected: seq<Candidate>)
    ensures multiset(selected) <= multiset(candidates)
    ensures |candidates| <= topK ==> selected == candidates
    ensures |candidates| > topK ==> exists picks ::
      Greedy(picks, candidates, weight, lower) && |picks| == topK && selected == Chosen(picks, candidates)
  {
    if |candidates| <= topK { return candidates; }
    selected := [];
    var remaining := candidates;
    ghost var picks: seq<nat>, rest: seq<nat> := [], seq(|candidates|, i => i);
    Start(candidates, weight, lower, rest);
    while |selected| < topK && |remaining| > 0
      invariant Underway(selected, remaining, picks, rest, candidates, weight, lower)
      invariant |picks| <= topK
      invariant multiset(selected) + multiset(remaining) == multiset(candidates)
      decreases |remaining|
    {
      selected, remaining, picks, rest := TakeBest(selected, remaining, picks, rest, candidates, weight, lower);
    }
  }

  // ---- the score, without its own words ----

  /** Similarity is the number of common words over the number of words of either. */
  lemma SimilarityExactly(a: string, b: string, lower: string -> string)
    ensures ContentSimilarity(a, b, lower) * |WordSet(a, lower) + WordSet(b, lower)| as real
      == |WordSet(a, lower) * WordSet(b, lower)| as real
    ensures WordSet(a, lower) == set w | w in Words(lower(a))
  {
    var x, y := WordSet(a, lower), WordSet(b, lower);
    SubsetSize({}, x + y);
    assert x + y != {};
    RatioTimes(|x * y|, |x + y|);
  }

  lemma RatioTimes(a: nat, b: nat)
    requires b > 0
    ensures (a as real / b as real) * b as real == a as real
  {
  }

  /** Weight 1 is relevance alone, weight 0 the penalty alone, and each step of the weight trades one for the other. */
  lemma BlendExactly(weight: real, relevance: real, penalty: real)
    ensures Blend(1.0, relevance, penalty) == relevance && Blend(0.0, relevance, penalty) == -penalty
    ensures Blend(weight, relevance, penalty) == weight * (relevance + penalty) - penalty
  {
  }

  /** Candidate `s` is the nearest of the chosen ones. */
  ghost predicate IsNearest(content: string, s: Candidate, selected: seq<Candidate>, lower: string -> string) {
    s in selected && forall o :: o in selected ==>
      ContentSimilarity(content, o.content, lower) <= ContentSimilarity(content, s.content, lower)
  }

  /**
   Until something is chosen a candidate scores its weighted relevance; then its likeness to the chosen is taken
   off.
   */
  lemma ScoreExactly(current: Candidate, selected: seq<Candidate>, weight: real, lower: string -> string)
    returns (nearest: Option<Candidate>)
    ensures nearest.None? <==> selected == []
    ensures nearest.None? ==> MmrScore(current, selected, weight, lower) == Blend(weight, current.score, 0.0)
    ensures nearest.Some? ==>
      && IsNearest(current.content, nearest.value, selected, lower)
      && var penalty := ContentSimilarity(current.content, nearest.value.content, lower);
        MmrScore(current, selected, weight, lower) == Blend(weight, current.score, penalty)
  {
    var m := MaxSimilarity(current.content, selected, lower);
    MaxSimilarityIsMax(current.content, selected, lower);
    if selected == [] {
      nearest := None;
    } else {
      var s :| s in selected && ContentSimilarity(current.content, s.content, lower) == m;
      nearest := Some(s);
    }
  }

  // ---- words ----

  predicate NoSpace(s: string) {
    forall i :: 0 <= i < |s| ==> !IsSpace(s[i])
  }

  lemma {:induction false} FirstSpaceExactly(word: string, rest: string)
    requires NoSpace(word) && (rest == "" || IsSpace(rest[0]))
    ensures FirstSpace(word + rest) == |word|
  {
    if word == "" {
      assert word + rest == rest;
    } else {
      assert (word + rest)[1..] == word[1..] + rest;
      FirstSpaceExactly(word[1..], rest);
    }
  }

  lemma {:induction false} SkipSpacesExactly(gap: string, rest: string)
    requires AllSpace(gap) && (rest == "" || !IsSpace(rest[0]))
    ensures SkipSpaces(gap + rest) == rest
  {
    if gap == "" {
      assert gap + rest == rest;
    } else {
      assert (gap + rest)[1..] == gap[1..] + rest;
      SkipSpacesExactly(gap[1..], rest);
    }
  }

  lemma OneWord(word: string)
    requires NoSpace(word)
    ensures Words(word) == [word]
  {
    assert word + "" == word;
    FirstSpaceExactly(word, "");
  }

  lemma CutAt(word: string, after: string)
    requires NoSpace(word) && after != "" && IsSpace(after[0])
    ensures Words(word + after) == [word] + Words(SkipSpaces(after[1..]))
  {
    FirstSpaceExactly(word, after);
    var text := word + after;
    assert text[..|word|] == word && text[|word| + 1..] == after[1..];
  }

  lemma SkipRun(gap: string, rest: string)
    requires gap != "" && AllSpace(gap) && (rest == "" || !IsSpace(rest[0]))
    ensures (gap + rest)[0] == gap[0] && IsSpace(gap[0])
    ensures SkipSpaces((gap + rest)[1..]) == rest
  {
    assert (gap + rest)[1..] == gap[1..] + rest;
    SkipSpacesExactly(gap[1..], rest);
  }

  /** A text is cut at every run of white space: the word before the run, then the words of what follows it. */
  lemma WordsExactly(word: string, gap: string, rest: string)
    requires NoSpace(word) && gap != "" && AllSpace(gap) && (rest == "" || !IsSpace(rest[0]))
    ensures Words(word) == [word]
    ensures Words(word + (gap + rest)) == [word] + Words(rest)
  {
    OneWord(word);
    SkipRun(gap, rest);
    CutAt(word, gap + rest);
  }
}
