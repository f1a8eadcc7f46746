/**
 Where the chunks stand in the text: every chunk has a place of its own, and at these places the chunks hold every
 character that is neither white space nor part of a separator.
 */
module ChunkingPlacement {
  import opened Wrappers
  import opened Strings
  import opened Chunking
  import opened ChunkingEnds
  import opened ChunkingTheorems
  import opened ChunkingCoverage

  // ---- parts at their places ----

  /** Each part occurs in the text at its place. */
  predicate StandAt(text: string, parts: seq<string>, starts: seq<nat>) {
    |starts| == |parts| && forall k :: 0 <= k < |parts| ==> OccursAt(text, parts[k], starts[k])
  }

  /** Some part, counted from its place, holds position `p`. */
  predicate Holds(parts: seq<string>, starts: seq<nat>, p: int)
    requires |starts| == |parts|
  {
    exists k :: 0 <= k < |parts| && starts[k] <= p < starts[k] + |parts[k]|
  }

  predicate IsContent(c: char, dropped: set<char>) {
    c !in dropped && !IsSpace(c)
  }

  /** The parts stand in the text and hold its content from `from` to `to`. */
  ghost predicate Placing(text: string, parts: seq<string>, starts: seq<nat>, from: int, to: int, dropped: set<char>) {
    && StandAt(text, parts, starts)
    && 0 <= from <= to <= |text|
    && forall p :: from <= p < to && IsContent(text[p], dropped) ==> Holds(parts, starts, p)
  }

  lemma HoldsAppend(a: seq<string>, sa: seq<nat>, b: seq<string>, sb: seq<nat>, p: int)
    requires |sa| == |a| && |sb| == |b|
    ensures Holds(a, sa, p) || Holds(b, sb, p) ==> Holds(a + b, sa + sb, p)
  {
    if Holds(a, sa, p) {
      var k :| 0 <= k < |a| && sa[k] <= p < sa[k] + |a[k]|;
      assert (sa + sb)[k] <= p < (sa + sb)[k] + |(a + b)[k]|;
    } else if Holds(b, sb, p) {
      var k :| 0 <= k < |b| && sb[k] <= p < sb[k] + |b[k]|;
      assert (sa + sb)[|a| + k] <= p < (sa + sb)[|a| + k] + |(a + b)[|a| + k]|;
    }
  }

  /** Two stretches without a gap between them. */
  lemma PlacingAppend(text: string, a: seq<string>, sa: seq<nat>, b: seq<string>, sb: seq<nat>, from: int, mid: int,
    next: int, to: int, dropped: set<char>)
    requires Placing(text, a, sa, from, mid, dropped) && Placing(text, b, sb, next, to, dropped) && next <= mid <= to
    ensures Placing(text, a + b, sa + sb, from, to, dropped)
  {
    forall p | from <= p < to && IsContent(text[p], dropped) ensures Holds(a + b, sa + sb, p) {
      HoldsAppend(a, sa, b, sb, p);
    }
  }

  function Shifted(starts: seq<nat>, shift: nat): seq<nat> {
    seq(|starts|, k requires 0 <= k < |starts| => starts[k] + shift)
  }

  lemma OccursThrough(text: string, whole: string, part: string, i: nat, shift: nat)
    requires OccursAt(whole, text, shift) && OccursAt(text, part, i)
    ensures OccursAt(whole, part, i + shift)
  {
    var inner, there := whole[shift..shift + |text|], whole[i + shift..i + shift + |part|];
    assert forall k :: 0 <= k < |part| ==> there[k] == inner[i + k];
  }

  /** What is placed in a text is placed in every text around it. */
  lemma PlacingAround(text: string, whole: string, parts: seq<string>, starts: seq<nat>, shift: nat, dropped: set<char>)
    requires OccursAt(whole, text, shift) && Placing(text, parts, starts, 0, |text|, dropped)
    ensures Placing(whole, parts, Shifted(starts, shift), shift, shift + |text|, dropped)
  {
    var shifted := Shifted(starts, shift);
    forall k | 0 <= k < |parts| ensures OccursAt(whole, parts[k], shifted[k]) {
      OccursThrough(text, whole, parts[k], starts[k], shift);
    }
    forall p | shift <= p < shift + |text| && IsContent(whole[p], dropped) ensures Holds(parts, shifted, p) {
      assert whole[p] == whole[shift..shift + |text|][p - shift];
      assert Holds(parts, starts, p - shift);
      var k :| 0 <= k < |parts| && starts[k] <= p - shift < starts[k] + |parts[k]|;
      assert shifted[k] <= p < shifted[k] + |parts[k]|;
    }
  }

  lemma PlacedWhole(text: string, dropped: set<char>)
    ensures Placing(text, [text], [0], 0, |text|, dropped)
  {
    forall p | 0 <= p < |text| ensures Holds([text], [0], p) { assert [0][0] <= p < [0][0] + |[text][0]|; }
  }

  /** A stretch without content needs no part. */
  lemma PlacedNothing(text: string, from: int, to: int, dropped: set<char>)
    requires 0 <= from <= to <= |text| && forall p :: from <= p < to ==> !IsContent(text[p], dropped)
    ensures Placing(text, [], [], from, to, dropped)
  {
  }

  lemma {:induction false} BlankIsSpace(s: string)
    requires Trim(s) == ""
    ensures forall p :: 0 <= p < |s| ==> IsSpace(s[p])
  {
    if s != "" {
      if IsSpace(s[0]) {
        BlankIsSpace(s[1..]);
        assert s == [s[0]] + s[1..];
      } else {
        TrimEndKeeps(s);
      }
    }
  }

  /** Trimming the end keeps everything up to the last character that is no space. */
  lemma {:induction false} TrimEndKeeps(s: string)
    ensures OccursAt(s, TrimEnd(s), 0)
    ensures forall p :: 0 <= p < |s| && !IsSpace(s[p]) ==> p < |TrimEnd(s)|
  {
    if s != "" && IsSpace(s[|s| - 1]) { TrimEndKeeps(s[..|s| - 1]); }
  }

  lemma {:induction false} TrimStartKeeps(s: string) returns (at: nat)
    ensures at + |TrimStart(s)| == |s| && s[at..] == TrimStart(s)
    ensures forall p :: 0 <= p < |s| && !IsSpace(s[p]) ==> at <= p
  {
    if s != "" && IsSpace(s[0]) {
      var later := TrimStartKeeps(s[1..]);
      at := later + 1;
      assert s == [s[0]] + s[1..];
    } else {
      at := 0;
    }
  }

  /** A trimmed part stands in the part and holds everything of it but spaces. */
  lemma TrimKeeps(s: string) returns (at: nat)
    ensures OccursAt(s, Trim(s), at)
    ensures forall p :: 0 <= p < |s| && !IsSpace(s[p]) ==> at <= p < at + |Trim(s)|
  {
    at := TrimStartKeeps(s);
    var t := TrimStart(s);
    TrimEndKeeps(t);
    assert s[at..at + |Trim(s)|] == t[0..|Trim(s)|];
    forall p | 0 <= p < |s| && !IsSpace(s[p]) ensures p < at + |Trim(s)| {
      assert s[p] == t[p - at];
    }
  }

  // ---- the fallback ----

  lemma WindowStands(text: string, start: nat, end: nat, dropped: set<char>)
    requires start <= end <= |text|
    ensures Placing(text, [text[start..end]], [start], start, end, dropped)
  {
    forall p | start <= p < end ensures Holds([text[start..end]], [start], p) {
      assert [start][0] <= p < [start][0] + |[text[start..end]][0]|;
    }
  }

  lemma WindowBefore(text: string, start: nat, end: nat, next: nat, rest: seq<string>, later: seq<nat>,
    dropped: set<char>)
    requires start <= end <= |text| && next <= end && Placing(text, rest, later, next, |text|, dropped)
    ensures Placing(text, [text[start..end]] + rest, [start] + later, start, |text|, dropped)
  {
    WindowStands(text, start, end, dropped);
    PlacingAppend(text, [text[start..end]], [start], rest, later, start, end, next, |text|, dropped);
  }

  lemma {:induction false} WindowsPlaced(text: string, start: nat, size: int, overlap: int, dropped: set<char>)
    returns (starts: seq<nat>)
    requires size >= 1 && overlap >= 0 && start <= |text| && WindowsEnd(|text| - start, size, overlap)
    ensures Placing(text, WindowsFrom(text, start, size, overlap), starts, start, |text|, dropped)
    decreases |text| - start
  {
    if start == |text| {
      starts := [];
    } else {
      var end := Min(start + size, |text|);
      SliceWithin(text, start, end);
      ghost var all := WindowsFrom(text, start, size, overlap);
      if end >= |text| {
        assert all == [text[start..end]];
        WindowStands(text, start, end, dropped);
        starts := [start];
      } else {
        var next := end - overlap;
        ghost var rest := WindowsFrom(text, next, size, overlap);
        assert all == [text[start..end]] + rest;
        var later := WindowsPlaced(text, next, size, overlap, dropped);
        WindowBefore(text, start, end, next, rest, later, dropped);
        starts := [start] + later;
      }
    }
  }

  // ---- the recursion ----

  lemma {:induction false} ChunksPlaced(text: string, seps: seq<string>, size: int, overlap: int, dropped: set<char>)
    returns (starts: seq<nat>)
    requires SplitEnds(text, seps, size, overlap) && Drops(seps, dropped) && Keeps(seps, size, overlap)
    ensures Placing(text, Chunks(text, seps, size, overlap), starts, 0, |text|, dropped)
    decreases |seps|, 2, 0
  {
    if |text| <= size {
      if Trim(text) == "" {
        BlankIsSpace(text);
        starts := [];
      } else {
        PlacedWhole(text, dropped);
        starts := [0];
      }
    } else {
      match Chosen(text, seps)
      case None => starts := WindowsPlaced(text, 0, size, overlap, dropped);
      case Some(at) =>
        JoinPieces(text, seps[at]);
        PiecesOfCharacters(text, seps);
        starts := FirstPlaced(Pieces(text, seps[at]), text, seps, at, size, overlap, dropped);
    }
  }

  /** The first piece has no separator before it. */
  lemma {:induction false} FirstPlaced(pieces: seq<string>, whole: string, seps: seq<string>, at: nat, size: int,
    overlap: int, dropped: set<char>) returns (starts: seq<nat>)
    requires at < |seps| && MergeEnds(pieces, "", seps, at, size, overlap) && whole == Join(pieces, seps[at])
    requires Drops(seps, dropped) && LevelKeeps(pieces, "", seps, at, size, overlap)
    ensures Placing(whole, Merged(pieces, "", seps, at, size, overlap), starts, 0, |whole|, dropped)
    decreases |seps|, 1, |pieces|
  {
    if pieces == [] {
      starts := [];
    } else {
      var piece, rest := pieces[0], pieces[1..];
      var next := NextCurrent("", seps[at], piece, size, overlap);
      JoinHead(pieces, seps[at]);
      FirstIsSuffix(seps[at], piece, size, overlap);
      NextKeeps(pieces, "", seps, at, size, overlap);
      var later := MergedPlaced(rest, next, piece, whole, seps, at, size, overlap, dropped);
      assert LevelKeeps([piece], "", seps, at, size, overlap) by { assert piece in pieces; }
      assert whole == "" + "" + piece + JoinRest(rest, seps[at]);
      LaidOut(whole, "", "", piece, JoinRest(rest, seps[at]));
      starts := OneMorePlaced("", piece, "", "", whole, Merged(rest, next, seps, at, size, overlap), later, seps, at,
        size, overlap, dropped);
    }
  }

  /** From any state of the loop, the chunks appended hold the content from the start of what is built. */
  lemma {:induction false} MergedPlaced(pieces: seq<string>, current: string, read: string, whole: string,
    seps: seq<string>, at: nat, size: int, overlap: int, dropped: set<char>) returns (starts: seq<nat>)
    requires at < |seps| && MergeEnds(pieces, current, seps, at, size, overlap)
    requires Suffix(current, read) && whole == read + JoinRest(pieces, seps[at])
    requires Drops(seps, dropped) && LevelKeeps(pieces, current, seps, at, size, overlap)
    ensures Placing(whole, Merged(pieces, current, seps, at, size, overlap), starts, |read| - |current|, |whole|,
      dropped)
    decreases |seps|, 1, |pieces|
  {
    if pieces == [] {
      assert OccursAt(whole, current, |read| - |current|);
      if Trim(current) == "" {
        starts := [];
        BlankPlaced(current, whole, |read| - |current|, dropped);
      } else {
        var own := EmittedPlaced(current, seps, at, size, overlap, dropped);
        PlacingAround(current, whole, Emitted(current, seps, at, size, overlap), own, |read| - |current|, dropped);
        starts := Shifted(own, |read| - |current|);
      }
    } else {
      var sep, piece, rest := seps[at], pieces[0], pieces[1..];
      RestHead(read, pieces, sep);
      var next := NextCurrent(current, sep, piece, size, overlap);
      NextIsSuffix(current, read, sep, piece, size, overlap);
      NextKeeps(pieces, current, seps, at, size, overlap);
      var later := MergedPlaced(rest, next, read + sep + piece, whole, seps, at, size, overlap, dropped);
      assert LevelKeeps([piece], current, seps, at, size, overlap) by { assert piece in pieces; }
      LaidOut(whole, read, sep, piece, JoinRest(rest, sep));
      starts := OneMorePlaced(current, piece, read, sep, whole, Merged(rest, next, seps, at, size, overlap), later,
        seps, at, size, overlap, dropped);
    }
  }

  lemma BlankPlaced(current: string, whole: string, from: nat, dropped: set<char>)
    requires Trim(current) == "" && OccursAt(whole, current, from)
    ensures Placing(whole, [], [], from, from + |current|, dropped)
  {
    BlankIsSpace(current);
    forall p | from <= p < from + |current| ensures !IsContent(whole[p], dropped) {
      assert whole[p] == whole[from..from + |current|][p - from];
    }
  }

  /** The text starts with what was read, a gap and the next piece. */
  ghost predicate IsLaidOut(whole: string, read: string, gap: string, piece: string) {
    OccursAt(whole, read, 0) && OccursAt(whole, gap, |read|) && OccursAt(whole, piece, |read| + |gap|)
  }

  lemma LaidOut(whole: string, read: string, gap: string, piece: string, rest: string)
    requires whole == read + gap + piece + rest
    ensures IsLaidOut(whole, read, gap, piece)
  {
  }

  /** The separator between what was read and the piece holds no content. */
  lemma GapPlaced(whole: string, gap: string, from: nat, dropped: set<char>)
    requires OccursAt(whole, gap, from) && forall c :: c in gap ==> c in dropped
    ensures Placing(whole, [], [], from, from + |gap|, dropped)
  {
    forall p | from <= p < from + |gap| ensures !IsContent(whole[p], dropped) {
      assert whole[p] == whole[from..from + |gap|][p - from];
      assert whole[p] in gap;
    }
  }

  lemma PlacedAfterGap(whole: string, gap: string, from: nat, later: seq<string>, starts: seq<nat>, dropped: set<char>)
    requires OccursAt(whole, gap, from) && forall c :: c in gap ==> c in dropped
    requires Placing(whole, later, starts, from + |gap|, |whole|, dropped)
    ensures Placing(whole, later, starts, from, |whole|, dropped)
  {
    GapPlaced(whole, gap, from, dropped);
    PlacingAppend(whole, [], [], later, starts, from, from + |gap|, from + |gap|, |whole|, dropped);
    assert [] + later == later && [] + starts == starts;
  }

  lemma GrownLength(current: string, sep: string, piece: string)
    ensures |Grown(current, sep, piece)| == |piece| + if current == "" then 0 else |current| + |sep|
  {
  }

  /** What follows is held from the start of what is kept; where nothing is kept, the gap holds nothing. */
  lemma PlacedFromKept(whole: string, read: string, gap: string, piece: string, kept: string, sep: string,
    later: seq<string>, starts: seq<nat>, dropped: set<char>)
    requires IsLaidOut(whole, read, gap, piece) && (forall c :: c in gap ==> c in dropped) && |kept| <= |read|
    requires gap == sep || kept == ""
    requires Placing(whole, later, starts, |read| + |gap| + |piece| - |Grown(kept, sep, piece)|, |whole|, dropped)
    ensures Placing(whole, later, starts, |read| - |kept|, |whole|, dropped)
  {
    GrownLength(kept, sep, piece);
    if kept == "" { PlacedAfterGap(whole, gap, |read|, later, starts, dropped); }
  }

  /** The parts of a suffix of what was read, in front of what is held from inside it on. */
  lemma PlacedBefore(current: string, read: string, whole: string, parts: seq<string>, own: seq<nat>,
    later: seq<string>, laterStarts: seq<nat>, kept: nat, dropped: set<char>)
    requires Suffix(current, read) && OccursAt(whole, read, 0) && kept <= |read|
    requires Placing(current, parts, own, 0, |current|, dropped)
    requires Placing(whole, later, laterStarts, |read| - kept, |whole|, dropped)
    ensures Placing(whole, parts + later, Shifted(own, |read| - |current|) + laterStarts, |read| - |current|, |whole|,
      dropped)
  {
    var shift := |read| - |current|;
    OccursThrough(read, whole, current, shift, 0);
    PlacingAround(current, whole, parts, own, shift, dropped);
    PlacingAppend(whole, parts, Shifted(own, shift), later, laterStarts, shift, |read|, |read| - kept, |whole|,
      dropped);
  }

  /** A finished chunk is placed in front of what follows. */
  lemma {:induction false} FullPlaced(current: string, piece: string, read: string, whole: string,
    later: seq<string>, laterStarts: seq<nat>, seps: seq<string>, at: nat, size: int, overlap: int, dropped: set<char>)
    returns (starts: seq<nat>)
    requires at < |seps| && EmitEnds(current, seps, at, size, overlap) && Drops(seps, dropped)
    requires LevelKeeps([], current, seps, at, size, overlap)
    requires Suffix(current, read) && IsLaidOut(whole, read, seps[at], piece)
    requires Placing(whole, later, laterStarts,
      |read| + |seps[at]| + |piece| - |Grown(GetOverlap(current, overlap), seps[at], piece)|, |whole|, dropped)
    ensures Placing(whole, Emitted(current, seps, at, size, overlap) + later, starts, |read| - |current|, |whole|,
      dropped)
    decreases |seps|, 0, 1
  {
    var kept := GetOverlap(current, overlap);
    OverlapIsSuffix(current, overlap);
    PlacedFromKept(whole, read, seps[at], piece, kept, seps[at], later, laterStarts, dropped);
    var own := EmittedPlaced(current, seps, at, size, overlap, dropped);
    starts := Shifted(own, |read| - |current|) + laterStarts;
    PlacedBefore(current, read, whole, Emitted(current, seps, at, size, overlap), own, later, laterStarts, |kept|,
      dropped);
  }

  /** An oversized piece split on its own is placed in front of what follows. */
  lemma {:induction false} AlonePlaced(piece: string, read: string, gap: string, whole: string,
    later: seq<string>, laterStarts: seq<nat>, seps: seq<string>, size: int, overlap: int, dropped: set<char>)
    returns (starts: seq<nat>)
    requires SplitEnds(piece, seps, size, overlap) && Drops(seps, dropped) && Keeps(seps, size, overlap)
    requires IsLaidOut(whole, read, gap, piece) && forall c :: c in gap ==> c in dropped
    requires Placing(whole, later, laterStarts, |read| + |gap| + |piece|, |whole|, dropped)
    ensures Placing(whole, Chunks(piece, seps, size, overlap) + later, starts, |read|, |whole|, dropped)
    decreases |seps|, 3, 0
  {
    var chunks, shift := Chunks(piece, seps, size, overlap), |read| + |gap|;
    var own := ChunksPlaced(piece, seps, size, overlap, dropped);
    starts := Shifted(own, shift) + laterStarts;
    PieceBefore(piece, whole, shift, chunks, own, later, laterStarts, dropped);
    PlacedAfterGap(whole, gap, |read|, chunks + later, starts, dropped);
  }

  lemma PieceBefore(piece: string, whole: string, shift: nat, parts: seq<string>, own: seq<nat>, later: seq<string>,
    laterStarts: seq<nat>, dropped: set<char>)
    requires OccursAt(whole, piece, shift) && Placing(piece, parts, own, 0, |piece|, dropped)
    requires Placing(whole, later, laterStarts, shift + |piece|, |whole|, dropped)
    ensures Placing(whole, parts + later, Shifted(own, shift) + laterStarts, shift, |whole|, dropped)
  {
    PlacingAround(piece, whole, parts, own, shift, dropped);
    PlacingAppend(whole, parts, Shifted(own, shift), later, laterStarts, shift, shift + |piece|, shift + |piece|,
      |whole|, dropped);
  }

  /** One turn of the merge loop: what it appends is placed in front of what follows. */
  lemma {:induction false} OneMorePlaced(current: string, piece: string, read: string, gap: string, whole: string,
    later: seq<string>, laterStarts: seq<nat>, seps: seq<string>, at: nat, size: int, overlap: int, dropped: set<char>)
    returns (starts: seq<nat>)
    requires at < |seps| && StepEnds(current, piece, seps, at, size, overlap) && Drops(seps, dropped)
    requires LevelKeeps([piece], current, seps, at, size, overlap)
    requires Suffix(current, read) && IsLaidOut(whole, read, gap, piece)
    requires gap == seps[at] || (gap == "" && current == "")
    requires Placing(whole, later, laterStarts,
      |read| + |gap| + |piece| - |NextCurrent(current, seps[at], piece, size, overlap)|, |whole|, dropped)
    ensures Placing(whole, EmittedBefore(current, piece, seps, at, size, overlap) + later, starts,
      |read| - |current|, |whole|, dropped)
    decreases |seps|, 0, 2
  {
    if |Grown(current, seps[at], piece)| <= size {
      PlacedFromKept(whole, read, gap, piece, current, seps[at], later, laterStarts, dropped);
      assert [] + later == later;
      starts := laterStarts;
    } else if current != "" {
      starts := FullPlaced(current, piece, read, whole, later, laterStarts, seps, at, size, overlap, dropped);
    } else {
      DropsLater(seps, at, dropped);
      assert piece in [piece];
      LaterKeeps(seps, at, size, overlap);
      starts := AlonePlaced(piece, read, gap, whole, later, laterStarts, seps[at + 1..], size, overlap, dropped);
    }
  }

  lemma {:induction false} EmittedPlaced(current: string, seps: seq<string>, at: nat, size: int, overlap: int,
    dropped: set<char>) returns (starts: seq<nat>)
    requires at < |seps| && EmitEnds(current, seps, at, size, overlap) && Drops(seps, dropped)
    requires LevelKeeps([], current, seps, at, size, overlap)
    ensures Placing(current, Emitted(current, seps, at, size, overlap), starts, 0, |current|, dropped)
    decreases |seps|, 0, 0
  {
    if |current| > size && at < |seps| - 1 {
      DropsLater(seps, at, dropped);
      LaterKeeps(seps, at, size, overlap);
      starts := ChunksPlaced(current, seps[at + 1..], size, overlap, dropped);
    } else {
      PlacedWhole(current, dropped);
      starts := [0];
    }
  }

  // ---- the service's results ----

  /** Each trimmed part stands inside its part and holds everything of it but spaces. */
  ghost predicate TrimmedInside(raw: seq<string>, starts: seq<nat>, trimmed: seq<string>, places: seq<nat>) {
    && |starts| == |raw| == |trimmed| == |places|
    && (forall k :: 0 <= k < |raw| ==> starts[k] <= places[k] && OccursAt(raw[k], trimmed[k], places[k] - starts[k]))
    && (forall k, q :: 0 <= k < |raw| && 0 <= q < |raw[k]| && !IsSpace(raw[k][q]) ==>
          places[k] <= starts[k] + q < places[k] + |trimmed[k]|)
  }

  lemma InsideOneMore(raw: seq<string>, starts: seq<nat>, trimmed: seq<string>, rest: seq<nat>, at: nat,
    places: seq<nat>)
    requires raw != [] && |starts| == |raw| == |trimmed| && places == [at + starts[0]] + rest
    requires TrimmedInside(raw[1..], starts[1..], trimmed[1..], rest)
    requires OccursAt(raw[0], trimmed[0], at)
    requires forall q :: 0 <= q < |raw[0]| && !IsSpace(raw[0][q]) ==> at <= q < at + |trimmed[0]|
    ensures TrimmedInside(raw, starts, trimmed, places)
  {
    forall k | 0 < k < |raw|
      ensures starts[k] <= places[k] && OccursAt(raw[k], trimmed[k], places[k] - starts[k])
      ensures forall q :: 0 <= q < |raw[k]| && !IsSpace(raw[k][q]) ==>
        places[k] <= starts[k] + q < places[k] + |trimmed[k]|
    {
      assert places[k] == rest[k - 1] && raw[1..][k - 1] == raw[k] && trimmed[1..][k - 1] == trimmed[k];
      assert starts[1..][k - 1] == starts[k];
    }
  }

  /** The places of trimmed parts from those of the parts. */
  lemma {:induction false} TrimmedPlaces(raw: seq<string>, starts: seq<nat>, trimmed: seq<string>)
    returns (places: seq<nat>)
    requires |starts| == |raw| == |trimmed| && forall i :: 0 <= i < |raw| ==> trimmed[i] == Trim(raw[i])
    ensures TrimmedInside(raw, starts, trimmed, places)
    decreases |raw|
  {
    if raw == [] {
      places := [];
    } else {
      var at := TrimKeeps(raw[0]);
      var rest := TrimmedPlaces(raw[1..], starts[1..], trimmed[1..]);
      places := [at + starts[0]] + rest;
      InsideOneMore(raw, starts, trimmed, rest, at, places);
    }
  }

  lemma TrimmedStand(text: string, raw: seq<string>, starts: seq<nat>, trimmed: seq<string>, places: seq<nat>)
    requires StandAt(text, raw, starts) && TrimmedInside(raw, starts, trimmed, places)
    ensures StandAt(text, trimmed, places)
  {
    forall k | 0 <= k < |raw| ensures OccursAt(text, trimmed[k], places[k]) {
      OccursThrough(raw[k], text, trimmed[k], places[k] - starts[k], starts[k]);
    }
  }

  lemma TrimmedHold(text: string, raw: seq<string>, starts: seq<nat>, trimmed: seq<string>, places: seq<nat>, p: nat)
    requires StandAt(text, raw, starts) && TrimmedInside(raw, starts, trimmed, places)
    requires p < |text| && !IsSpace(text[p]) && Holds(raw, starts, p)
    ensures Holds(trimmed, places, p)
  {
    var k :| 0 <= k < |raw| && starts[k] <= p < starts[k] + |raw[k]|;
    assert OccursAt(text, raw[k], starts[k]);
    assert text[p] == text[starts[k]..starts[k] + |raw[k]|][p - starts[k]];
    assert !IsSpace(raw[k][p - starts[k]]);
    assert places[k] <= p < places[k] + |trimmed[k]|;
  }

  /**
   The trimmed chunks have places in the text at which they occur, and at which every character that is neither white
   space nor in a separator lies in some chunk.
   */
  lemma ContentHasPlace(text: string, config: Config, dropped: set<char>) returns (places: seq<nat>)
    requires TextEnds(text, config)
    requires Drops(SeparatorsOf(config), dropped) && Keeps(SeparatorsOf(config), config.chunkSize, config.chunkOverlap)
    ensures StandAt(text, Contents(TextChunks(text, config)), places)
    ensures forall p :: 0 <= p < |text| && IsContent(text[p], dropped) ==>
      Holds(Contents(TextChunks(text, config)), places, p)
  {
    var raw, trimmed := RawChunks(text, config), Contents(TextChunks(text, config));
    var starts: seq<nat> := [];
    if Trim(text) == "" {
      BlankIsSpace(text);
    } else {
      starts := ChunksPlaced(text, SeparatorsOf(config), config.chunkSize, config.chunkOverlap, dropped);
    }
    places := TrimmedPlaces(raw, starts, trimmed);
    TrimmedStand(text, raw, starts, trimmed, places);
    forall p | 0 <= p < |text| && IsContent(text[p], dropped) ensures Holds(trimmed, places, p) {
      TrimmedHold(text, raw, starts, trimmed, places, p);
    }
  }

  // ---- the places need not ascend ----

  lemma FirstSeparator(c: char, head: string, tail: string)
    requires c !in head
    ensures Find(head + [c] + tail, [c]) == Some(|head|)
  {
    var s := head + [c] + tail;
    assert OccursAt(s, [c], |head|);
    assert forall i: nat :: OccursAt(s, [c], i) ==> s[i..i + 1][0] == s[i] == c;
  }

  lemma SplitWhole(c: char, s: string)
    requires c !in s
    ensures Split(s, [c]) == [s]
  {
    NotFound(s, [c]);
  }

  /** A turn of the merge loop that only grows the chunk. */
  lemma TurnGrows(piece: string, rest: seq<string>, current: string, next: string, seps: seq<string>, size: int,
    overlap: int)
    requires seps != [] && overlap < size && next == Grown(current, seps[0], piece) && |next| <= size
    ensures MergeEnds([piece] + rest, current, seps, 0, size, overlap) && MergeEnds(rest, next, seps, 0, size, overlap)
    ensures Merged([piece] + rest, current, seps, 0, size, overlap) == Merged(rest, next, seps, 0, size, overlap)
  {
    var pieces := [piece] + rest;
    assert pieces[0] == piece && pieces[1..] == rest;
    TurnsEnd(pieces, current, seps, size, overlap);
    TurnsEnd(rest, next, seps, size, overlap);
  }

  lemma TurnsEnd(pieces: seq<string>, current: string, seps: seq<string>, size: int, overlap: int)
    requires seps != [] && overlap < size
    ensures MergeEnds(pieces, current, seps, 0, size, overlap)
    decreases |pieces|
  {
    assert seps[0 + 1..] == seps[1..];
    AlwaysEnds(current, seps[1..], size, overlap);
    if pieces != [] {
      AlwaysEnds(pieces[0], seps[1..], size, overlap);
      TurnsEnd(pieces[1..], NextCurrent(current, seps[0], pieces[0], size, overlap), seps, size, overlap);
    }
  }

  /** A turn that emits the full chunk, split again if it is too long. */
  lemma TurnEmits(piece: string, rest: seq<string>, current: string, next: string, emitted: seq<string>,
    seps: seq<string>, size: int, overlap: int)
    requires |seps| > 1 && overlap < size && current != "" && |Grown(current, seps[0], piece)| > size
    requires next == Grown(GetOverlap(current, overlap), seps[0], piece)
    requires SplitEnds(current, seps[1..], size, overlap)
    requires emitted == if |current| > size then Chunks(current, seps[1..], size, overlap) else [current]
    ensures MergeEnds([piece] + rest, current, seps, 0, size, overlap) && MergeEnds(rest, next, seps, 0, size, overlap)
    ensures Merged([piece] + rest, current, seps, 0, size, overlap)
      == emitted + Merged(rest, next, seps, 0, size, overlap)
  {
    var pieces := [piece] + rest;
    assert pieces[0] == piece && pieces[1..] == rest && seps[0 + 1..] == seps[1..];
    TurnsEnd(pieces, current, seps, size, overlap);
    TurnsEnd(rest, next, seps, size, overlap);
    assert EmittedBefore(current, piece, seps, 0, size, overlap) == emitted;
  }

  lemma LastTurn(current: string, seps: seq<string>, size: int, overlap: int, p: nat)
    requires seps != [] && overlap < size && |current| <= size && p < |current| && !IsSpace(current[p])
    ensures MergeEnds([], current, seps, 0, size, overlap) && Merged([], current, seps, 0, size, overlap) == [current]
  {
    TurnsEnd([], current, seps, size, overlap);
    var at := TrimKeeps(current);
  }

  /** Four characters for an example: two separators, a letter, and one to start with. */
  predicate AreDifferent(n: char, d: char, a: char, x: char) {
    n != d && n != a && n != x && d != a && d != x && a != x && !IsSpace(a) && !IsSpace(x)
    && ' ' != n && ' ' != d && ' ' != a
  }

  lemma OverlapOf(text: string, tail: string)
    requires |text| > 3 && tail == text[|text| - 3..] && ' ' !in tail
    ensures GetOverlap(text, 3) == tail
  {
    assert Slice(text, -3, |text|) == tail;
    NotFound(tail, " ");
  }

  lemma LeadingSeparator(c: char, s: string, tail: string)
    requires s == [c] + tail
    ensures Split(s, [c]) == [""] + Split(tail, [c]) && Find(s, [c]).Some?
  {
    assert s == "" + [c] + tail;
    FirstSeparator(c, "", tail);
    SplitHead("", c, tail);
  }

  lemma ThreeLeadingSeparators(c: char, s0: string, s1: string, s2: string, s3: string)
    requires s0 == [c] + s1 && s1 == [c] + s2 && s2 == [c] + s3 && c !in s3
    ensures Split(s0, [c]) == ["", "", "", s3] && Find(s0, [c]).Some?
  {
    LeadingSeparator(c, s0, s1);
    LeadingSeparator(c, s1, s2);
    LeadingSeparator(c, s2, s3);
    SplitWhole(c, s3);
  }

  lemma SecondLevelPieces(n: char, d: char, a: char, x: char)
    requires AreDifferent(n, d, a, x)
    ensures Split([d, d, d, n, a], [d]) == ["", "", "", [n, a]] && Find([d, d, d, n, a], [d]).Some?
  {
    ThreeLeadingSeparators(d, [d, d, d, n, a], [d, d, n, a], [d, n, a], [n, a]);
  }

  /** A chunk restarted from an overlap is too long and loses its separators; only its end is kept. */
  lemma OverlongRestart(n: char, d: char, a: char, x: char, seps: seq<string>)
    requires AreDifferent(n, d, a, x) && seps == [[d], ""]
    ensures SplitEnds([d, d, d, n, a], seps, 4, 3) && Chunks([d, d, d, n, a], seps, 4, 3) == [[n, a]]
  {
    SecondLevelPieces(n, d, a, x);
    var tail := [n, a];
    var pieces: seq<string> := ["", "", "", tail];
    assert pieces == [""] + ([""] + ([""] + ([tail] + [])));
    LastTurn(tail, seps, 4, 3, 1);
    TurnGrows(tail, [], "", tail, seps, 4, 3);
    TurnGrows("", [tail] + [], "", "", seps, 4, 3);
    TurnGrows("", [""] + ([tail] + []), "", "", seps, 4, 3);
    TurnGrows("", [""] + ([""] + ([tail] + [])), "", "", seps, 4, 3);
    assert Chosen([d, d, d, n, a], seps) == Some(0);
  }

  lemma FirstLevelPieces(n: char, d: char, a: char, x: char)
    requires AreDifferent(n, d, a, x)
    ensures Split([x, d, d, d, n, a, n], [n]) == [[x, d, d, d], [a], ""] && Find([x, d, d, d, n, a, n], [n]).Some?
  {
    var s, s1 := [x, d, d, d, n, a, n], [a, n];
    assert s == [x, d, d, d] + [n] + s1 && s1 == [a] + [n] + "";
    FirstSeparator(n, [x, d, d, d], s1);
    SplitHead([x, d, d, d], n, s1);
    SplitHead([a], n, "");
    SplitWhole(n, "");
  }

  lemma LaterTurns(n: char, d: char, a: char, x: char, seps: seq<string>)
    requires AreDifferent(n, d, a, x) && seps == [[n], [d], ""]
    ensures MergeEnds([[a], ""], [x, d, d, d], seps, 0, 4, 3)
    ensures Merged([[a], ""], [x, d, d, d], seps, 0, 4, 3) == [[x, d, d, d], [n, a], [d, n, a, n]]
  {
    var first, long, last := [x, d, d, d], [d, d, d, n, a], [d, n, a, n];
    assert seps[1..] == [[d], ""];
    OverlongRestart(n, d, a, x, seps[1..]);
    OverlapOf(first, [d, d, d]);
    OverlapOf(long, [d, n, a]);
    AlwaysEnds(first, seps[1..], 4, 3);
    LastTurn(last, seps, 4, 3, 2);
    TurnEmits("", [], long, last, [[n, a]], seps, 4, 3);
    TurnEmits([a], [""] + [], first, long, [first], seps, 4, 3);
    assert [[a], ""] == [[a]] + ([""] + []);
  }

  lemma ChunksOutOfOrder(n: char, d: char, a: char, x: char, seps: seq<string>)
    requires AreDifferent(n, d, a, x) && seps == [[n], [d], ""]
    ensures SplitEnds([x, d, d, d, n, a, n], seps, 4, 3)
    ensures Chunks([x, d, d, d, n, a, n], seps, 4, 3) == [[x, d, d, d], [n, a], [d, n, a, n]]
  {
    FirstLevelPieces(n, d, a, x);
    LaterTurns(n, d, a, x, seps);
    var first := [x, d, d, d];
    TurnGrows(first, [[a], ""], "", first, seps, 4, 3);
    assert [first, [a], ""] == [first] + [[a], ""];
    assert Chosen([x, d, d, d, n, a, n], seps) == Some(0);
  }

  predicate Ascend(starts: seq<nat>) {
    forall i, j :: 0 <= i < j < |starts| ==> starts[i] <= starts[j]
  }

  /**
   The order of the chunks is not that of their places: a chunk restarted from an overlap and split again may leave a
   short last piece, before which the next chunk starts.
   */
  lemma PlacesNeedNotAscend(n: char, d: char, a: char, x: char, seps: seq<string>, starts: seq<nat>)
    requires AreDifferent(n, d, a, x) && seps == [[n], [d], ""]
    ensures SplitEnds([x, d, d, d, n, a, n], seps, 4, 3)
    ensures StandAt([x, d, d, d, n, a, n], Chunks([x, d, d, d, n, a, n], seps, 4, 3), starts) ==> !Ascend(starts)
  {
    var text := [x, d, d, d, n, a, n];
    ChunksOutOfOrder(n, d, a, x, seps);
    var chunks := Chunks(text, seps, 4, 3);
    if StandAt(text, chunks, starts) {
      assert OccursAt(text, chunks[1], starts[1]) && OccursAt(text, chunks[2], starts[2]);
      assert text[starts[1] + 1] == text[starts[1]..starts[1] + 2][1] == a;
      assert text[starts[2] + 2] == text[starts[2]..starts[2] + 4][2] == a;
    }
  }
}
