/** What the splitter promises of its chunks: each is a piece of the text, none is too long, and nothing is lost. */
module ChunkingTheorems {
  import opened Wrappers
  import opened Strings
  import opened Chunking
  import opened ChunkingEnds

  // ---- every chunk is a contiguous piece of the text ----

  ghost predicate Infix(part: string, whole: string) {
    exists i: nat :: OccursAt(whole, part, i)
  }

  predicate Suffix(part: string, whole: string) {
    |part| <= |whole| && whole[|whole| - |part|..] == part
  }

  ghost predicate AllInfix(parts: seq<string>, whole: string) {
    forall c :: c in parts ==> Infix(c, whole)
  }

  lemma InfixTrans(a: string, b: string, c: string)
    requires Infix(a, b) && Infix(b, c)
    ensures Infix(a, c)
  {
    var i: nat :| OccursAt(b, a, i);
    var j: nat :| OccursAt(c, b, j);
    var inner := c[j..j + |b|];
    var part := c[j + i..j + i + |a|];
    assert forall k :: 0 <= k < |a| ==> part[k] == inner[i + k];
    assert OccursAt(c, a, j + i);
  }

  lemma AllInfixTrans(parts: seq<string>, b: string, c: string)
    requires AllInfix(parts, b) && Infix(b, c)
    ensures AllInfix(parts, c)
  {
    forall a | a in parts ensures Infix(a, c) { InfixTrans(a, b, c); }
  }

  lemma SuffixOfPrefix(part: string, before: string, rest: string)
    requires Suffix(part, before)
    ensures Infix(part, before + rest)
  {
    assert OccursAt(before + rest, part, |before| - |part|);
  }

  lemma SuffixGrows(part: string, before: string, more: string)
    requires Suffix(part, before)
    ensures Suffix(part + more, before + more)
  {
  }

  lemma TailIsSuffix(text: string, from: int)
    ensures Suffix(Slice(text, from, |text|), text)
  {
    var a := Place(from, |text|);
    if a < |text| { assert Slice(text, from, |text|) == text[a..]; }
  }

  lemma SuffixTail(part: string, whole: string, i: nat)
    requires Suffix(part, whole) && i <= |part|
    ensures Suffix(part[i..], whole)
  {
  }

  lemma OverlapIsSuffix(text: string, overlap: int)
    ensures Suffix(GetOverlap(text, overlap), text)
  {
    var tail := Slice(text, -overlap, |text|);
    TailIsSuffix(text, -overlap);
    if Find(tail, " ").Some? { SuffixTail(tail, text, Find(tail, " ").value + 1); }
  }

  lemma {:induction false} TrimStartSuffix(s: string)
    ensures Suffix(TrimStart(s), s)
  {
    if s != "" && IsSpace(s[0]) { TrimStartSuffix(s[1..]); }
  }

  lemma {:induction false} TrimEndPrefix(s: string)
    ensures OccursAt(s, TrimEnd(s), 0)
  {
    if s != "" && IsSpace(s[|s| - 1]) { TrimEndPrefix(s[..|s| - 1]); }
  }

  lemma TrimInfix(s: string)
    ensures Infix(Trim(s), s)
  {
    TrimStartSuffix(s);
    var t := TrimStart(s);
    assert OccursAt(s, t, |s| - |t|);
    TrimEndPrefix(t);
    InfixTrans(TrimEnd(t), t, s);
  }

  lemma SliceWithin(text: string, from: nat, to: nat)
    requires from <= to <= |text|
    ensures Slice(text, from, to) == text[from..to]
  {
  }

  lemma SliceShort(text: string, start: nat, size: int)
    requires size >= 1
    ensures |Slice(text, start, Min(start + size, |text|))| <= size
  {
  }

  lemma SliceInfix(text: string, from: int, to: int)
    ensures Infix(Slice(text, from, to), text)
  {
    var a, b := Place(from, |text|), Place(to, |text|);
    if a < b { assert OccursAt(text, text[a..b], a); } else { assert OccursAt(text, "", 0); }
  }

  lemma {:induction false} WindowsInfix(text: string, start: nat, size: int, overlap: int)
    requires WindowsEnd(|text| - start, size, overlap)
    ensures AllInfix(WindowsFrom(text, start, size, overlap), text)
    decreases |text| - start
  {
    if start < |text| {
      var end := Min(start + size, |text|);
      SliceInfix(text, start, end);
      if end < |text| { WindowsInfix(text, end - overlap, size, overlap); }
    }
  }

  lemma {:induction false} JoinCharacters(text: string)
    ensures Join(Chars(text), "") == text
  {
    if |text| > 0 {
      JoinCharacters(text[1..]);
      assert Chars(text)[1..] == Chars(text[1..]);
      assert text == [text[0]] + text[1..];
    }
  }

  lemma JoinPieces(text: string, sep: string)
    ensures Join(Pieces(text, sep), sep) == text
  {
    if sep == "" { JoinCharacters(text); } else { JoinSplit(text, sep); }
  }

  /** What a join adds after its first part. */
  function JoinRest(pieces: seq<string>, sep: string): string {
    if pieces == [] then "" else sep + Join(pieces, sep)
  }

  lemma Associative(a: string, b: string, c: string)
    ensures a + b + c == a + (b + c)
  {
  }

  lemma JoinHead(pieces: seq<string>, sep: string)
    requires pieces != []
    ensures Join(pieces, sep) == pieces[0] + JoinRest(pieces[1..], sep)
  {
    var rest := pieces[1..];
    if rest == [] {
      assert JoinRest(rest, sep) == "" && pieces[0] + "" == pieces[0];
    } else {
      Associative(pieces[0], sep, Join(rest, sep));
    }
  }

  lemma AllInfixAppend(a: seq<string>, b: seq<string>, whole: string)
    requires AllInfix(a, whole) && AllInfix(b, whole)
    ensures AllInfix(a + b, whole)
  {
  }

  lemma RestHead(read: string, pieces: seq<string>, sep: string)
    requires pieces != []
    ensures read + JoinRest(pieces, sep) == read + sep + pieces[0] + JoinRest(pieces[1..], sep)
  {
    JoinHead(pieces, sep);
  }

  lemma FirstIsSuffix(sep: string, piece: string, size: int, overlap: int)
    ensures Suffix(NextCurrent("", sep, piece, size, overlap), piece)
  {
  }

  lemma {:induction false} ChunksInfix(text: string, seps: seq<string>, size: int, overlap: int)
    requires SplitEnds(text, seps, size, overlap)
    ensures AllInfix(Chunks(text, seps, size, overlap), text)
    decreases |seps|, 2, 0
  {
    if |text| <= size {
      assert OccursAt(text, text, 0);
    } else {
      match Chosen(text, seps)
      case None => WindowsInfix(text, 0, size, overlap);
      case Some(at) =>
        JoinPieces(text, seps[at]);
        FirstInfix(Pieces(text, seps[at]), text, seps, at, size, overlap);
    }
  }

  /** The first piece has no separator before it; afterwards the invariant of MergedInfix holds. */
  lemma {:induction false} FirstInfix(pieces: seq<string>, whole: string, seps: seq<string>, at: nat, size: int,
    overlap: int)
    requires at < |seps| && MergeEnds(pieces, "", seps, at, size, overlap) && whole == Join(pieces, seps[at])
    ensures AllInfix(Merged(pieces, "", seps, at, size, overlap), whole)
    decreases |seps|, 1, |pieces|
  {
    if pieces != [] {
      var piece, rest := pieces[0], pieces[1..];
      var first := NextCurrent("", seps[at], piece, size, overlap);
      JoinHead(pieces, seps[at]);
      FirstIsSuffix(seps[at], piece, size, overlap);
      MergedInfix(rest, first, piece, whole, seps, at, size, overlap);
      FirstEmittedInfix(piece, JoinRest(rest, seps[at]), whole, seps, at, size, overlap);
      AllInfixAppend(EmittedBefore("", piece, seps, at, size, overlap), Merged(rest, first, seps, at, size, overlap),
        whole);
    }
  }

  lemma {:induction false} FirstEmittedInfix(piece: string, rest: string, whole: string, seps: seq<string>, at: nat,
    size: int, overlap: int)
    requires at < |seps| && StepEnds("", piece, seps, at, size, overlap) && whole == piece + rest
    ensures AllInfix(EmittedBefore("", piece, seps, at, size, overlap), whole)
    decreases |seps|, 0, 2
  {
    assert whole == "" + "" + piece + rest;
    EmittedBeforeInfix("", piece, "", "", rest, whole, seps, at, size, overlap);
  }

  /** The chunk under construction is a suffix of what was read, whatever overlap it carries. */
  lemma {:induction false} MergedInfix(pieces: seq<string>, current: string, read: string, whole: string,
    seps: seq<string>, at: nat, size: int, overlap: int)
    requires at < |seps| && MergeEnds(pieces, current, seps, at, size, overlap)
    requires Suffix(current, read) && whole == read + JoinRest(pieces, seps[at])
    ensures AllInfix(Merged(pieces, current, seps, at, size, overlap), whole)
    decreases |seps|, 1, |pieces|
  {
    var sep := seps[at];
    if pieces == [] {
      if Trim(current) != "" {
        EmittedInfix(current, seps, at, size, overlap);
        SuffixOfPrefix(current, read, "");
        AllInfixTrans(Emitted(current, seps, at, size, overlap), current, whole);
      }
    } else {
      var piece, rest := pieces[0], pieces[1..];
      RestHead(read, pieces, sep);
      var read' := read + sep + piece;
      var next := NextCurrent(current, sep, piece, size, overlap);
      NextIsSuffix(current, read, sep, piece, size, overlap);
      MergedInfix(rest, next, read', whole, seps, at, size, overlap);
      EmittedBeforeInfix(current, piece, read, sep, JoinRest(rest, sep), whole, seps, at, size, overlap);
      AllInfixAppend(EmittedBefore(current, piece, seps, at, size, overlap),
        Merged(rest, next, seps, at, size, overlap), whole);
    }
  }

  lemma GrownIsSuffix(current: string, read: string, sep: string, piece: string)
    requires Suffix(current, read)
    ensures Suffix(Grown(current, sep, piece), read + sep + piece)
  {
    assert read + sep + piece == read + (sep + piece);
    SuffixGrows(current, read, sep + piece);
    assert current + sep + piece == current + (sep + piece);
  }

  lemma NextIsSuffix(current: string, read: string, sep: string, piece: string, size: int, overlap: int)
    requires Suffix(current, read)
    ensures Suffix(NextCurrent(current, sep, piece, size, overlap), read + sep + piece)
  {
    OverlapIsSuffix(current, overlap);
    assert Suffix(GetOverlap(current, overlap), read);
    GrownIsSuffix(current, read, sep, piece);
    GrownIsSuffix(GetOverlap(current, overlap), read, sep, piece);
  }

  lemma {:induction false} EmittedBeforeInfix(current: string, piece: string, read: string, gap: string, rest: string,
    whole: string, seps: seq<string>, at: nat, size: int, overlap: int)
    requires at < |seps| && StepEnds(current, piece, seps, at, size, overlap)
    requires Suffix(current, read) && whole == read + gap + piece + rest
    ensures AllInfix(EmittedBefore(current, piece, seps, at, size, overlap), whole)
    decreases |seps|, 0, 1
  {
    if |Grown(current, seps[at], piece)| > size {
      if current != "" {
        EmittedInfix(current, seps, at, size, overlap);
        assert whole == read + (gap + piece + rest);
        SuffixOfPrefix(current, read, gap + piece + rest);
        AllInfixTrans(Emitted(current, seps, at, size, overlap), current, whole);
      } else {
        ChunksInfix(piece, seps[at + 1..], size, overlap);
        assert OccursAt(whole, piece, |read| + |gap|);
        AllInfixTrans(Chunks(piece, seps[at + 1..], size, overlap), piece, whole);
      }
    }
  }

  lemma {:induction false} EmittedInfix(current: string, seps: seq<string>, at: nat, size: int, overlap: int)
    requires at < |seps| && EmitEnds(current, seps, at, size, overlap)
    ensures AllInfix(Emitted(current, seps, at, size, overlap), current)
    decreases |seps|, 0, 0
  {
    assert OccursAt(current, current, 0);
    if |current| > size && at < |seps| - 1 {
      ChunksInfix(current, seps[at + 1..], size, overlap);
    }
  }

  /** Every chunk of a text, after trimming too, is a contiguous piece of the text. */
  lemma ChunkContentsAreInfixes(text: string, config: Config)
    requires TextEnds(text, config)
    ensures forall i :: 0 <= i < |TextChunks(text, config)| ==> Infix(TextChunks(text, config)[i].content, text)
  {
    var raw := RawChunks(text, config);
    if Trim(text) != "" {
      ChunksInfix(text, SeparatorsOf(config), config.chunkSize, config.chunkOverlap);
    }
    forall i | 0 <= i < |raw| ensures Infix(TextChunks(text, config)[i].content, text) {
      TrimInfix(raw[i]);
      InfixTrans(Trim(raw[i]), raw[i], text);
    }
  }

  /** Position `p` lies in window `k`, which is what the text holds from the window's own start on. */
  ghost predicate InWindow(windows: seq<string>, text: string, start: nat, step: int, k: nat, p: nat) {
    k < |windows| && var own := start + k * step; 0 <= own <= p < own + |windows[k]| && OccursAt(text, windows[k], own)
  }

  lemma WindowsHead(text: string, start: nat, size: int, overlap: int)
    requires size >= 1 && start < |text| && WindowsEnd(|text| - start, size, overlap)
    ensures var w, end := WindowsFrom(text, start, size, overlap), Min(start + size, |text|);
      && w != [] && w[0] == text[start..end]
      && (end < |text| ==> w[1..] == WindowsFrom(text, end - overlap, size, overlap))
  {
    SliceWithin(text, start, Min(start + size, |text|));
  }

  lemma InFirstWindow(windows: seq<string>, text: string, start: nat, end: nat, step: int, p: nat)
    requires windows != [] && start <= p < end <= |text| && windows[0] == text[start..end]
    ensures InWindow(windows, text, start, step, 0, p)
  {
    assert start + 0 * step == start;
  }

  lemma InLaterWindow(windows: seq<string>, rest: seq<string>, text: string, start: nat, next: nat, step: int, k: nat,
    p: nat)
    requires windows != [] && windows[1..] == rest && next == start + step
    requires InWindow(rest, text, next, step, k, p)
    ensures InWindow(windows, text, start, step, k + 1, p)
  {
    assert windows[k + 1] == rest[k];
    assert start + (k + 1) * step == next + k * step;
  }

  /**
   The fallback's windows start a size minus an overlap apart and cover every position of the text: each lies in some
   window, counted from that window's own start.
   */
  lemma {:induction false} WindowsCoverPositions(text: string, start: nat, size: int, overlap: int, p: nat)
    returns (k: nat)
    requires size >= 1 && overlap >= 0 && start <= p < |text| && WindowsEnd(|text| - start, size, overlap)
    ensures InWindow(WindowsFrom(text, start, size, overlap), text, start, size - overlap, k, p)
    decreases |text| - start
  {
    var w, step := WindowsFrom(text, start, size, overlap), size - overlap;
    var end := Min(start + size, |text|);
    WindowsHead(text, start, size, overlap);
    if p < end {
      k := 0;
      InFirstWindow(w, text, start, end, step, p);
    } else {
      var next := start + step;
      var rest := WindowsFrom(text, next, size, overlap);
      var later := WindowsCoverPositions(text, next, size, overlap, p);
      k := later + 1;
      InLaterWindow(w, rest, text, start, next, step, later, p);
    }
  }

  // ---- no chunk is longer than the chunk size ----

  predicate AllShort(parts: seq<string>, size: int) {
    forall i :: 0 <= i < |parts| ==> |parts[i]| <= size
  }

  lemma OneMoreShort(first: string, rest: seq<string>, size: int)
    requires |first| <= size && AllShort(rest, size)
    ensures AllShort([first] + rest, size)
  {
  }

  lemma {:induction false} WindowsShort(text: string, start: nat, size: int, overlap: int)
    requires size >= 1 && WindowsEnd(|text| - start, size, overlap)
    ensures AllShort(WindowsFrom(text, start, size, overlap), size)
    decreases |text| - start
  {
    if start < |text| {
      var end := Min(start + size, |text|);
      var rest := if end >= |text| then [] else WindowsFrom(text, end - overlap, size, overlap);
      if rest != [] { WindowsShort(text, end - overlap, size, overlap); }
      SliceShort(text, start, size);
      OneMoreShort(Slice(text, start, end), rest, size);
    }
  }

  /** The sizes for which what is carried on is shorter than the size. */
  predicate BoundsOverlap(size: int, overlap: int) {
    size >= 1 && overlap < size && overlap != 0
  }

  /** The separators end in single characters, or there are none. */
  predicate Reaches(seps: seq<string>) {
    seps == [] || "" in seps
  }

  /** What a full chunk carries on is shorter than the size. */
  lemma OverlapShort(text: string, size: int, overlap: int)
    requires BoundsOverlap(size, overlap)
    ensures overlap > 0 || |text| <= size ==> |GetOverlap(text, overlap)| < size
  {
  }

  /** The bound holds only through the recursion: a chunk restarted from an overlap may be too long at its own level. */
  lemma {:induction false} ChunksShort(text: string, seps: seq<string>, size: int, overlap: int)
    requires BoundsOverlap(size, overlap) && Reaches(seps)
    ensures SplitEnds(text, seps, size, overlap)
    ensures AllShort(Chunks(text, seps, size, overlap), size)
    decreases |seps|, 2, 0
  {
    AlwaysEnds(text, seps, size, overlap);
    if |text| > size {
      match Chosen(text, seps)
      case None => WindowsShort(text, 0, size, overlap);
      case Some(at) =>
        PiecesOfCharacters(text, seps);
        MergedShort(Pieces(text, seps[at]), "", seps, at, size, overlap);
    }
  }

  lemma {:induction false} MergedShort(pieces: seq<string>, current: string, seps: seq<string>, at: nat, size: int,
    overlap: int)
    requires BoundsOverlap(size, overlap) && at < |seps| && MergeEnds(pieces, current, seps, at, size, overlap)
    requires "" in seps && (forall i :: 0 <= i < at ==> seps[i] != "")
    requires seps[at] == "" ==> |current| <= size && forall p :: p in pieces ==> |p| == 1
    ensures AllShort(Merged(pieces, current, seps, at, size, overlap), size)
    decreases |seps|, 1, |pieces|
  {
    if pieces == [] {
      if Trim(current) != "" { EmittedShort(current, seps, at, size, overlap); }
    } else {
      assert pieces[0] in pieces;
      OverlapShort(current, size, overlap);
      MergedShort(pieces[1..], NextCurrent(current, seps[at], pieces[0], size, overlap), seps, at, size, overlap);
      if |Grown(current, seps[at], pieces[0])| > size {
        if current != "" {
          EmittedShort(current, seps, at, size, overlap);
        } else {
          LaterSeparatorsReach(seps, at);
          ChunksShort(pieces[0], seps[at + 1..], size, overlap);
        }
      }
    }
  }

  lemma {:induction false} EmittedShort(current: string, seps: seq<string>, at: nat, size: int, overlap: int)
    requires BoundsOverlap(size, overlap) && at < |seps| && EmitEnds(current, seps, at, size, overlap)
    requires "" in seps && (forall i :: 0 <= i < at ==> seps[i] != "")
    requires seps[at] == "" ==> |current| <= size
    ensures AllShort(Emitted(current, seps, at, size, overlap), size)
    decreases |seps|, 0, 0
  {
    if |current| > size {
      LaterSeparatorsReach(seps, at);
      ChunksShort(current, seps[at + 1..], size, overlap);
    }
  }

  lemma LaterSeparatorsReach(seps: seq<string>, at: nat)
    requires at < |seps| && "" in seps && (forall i :: 0 <= i < at ==> seps[i] != "") && seps[at] != ""
    ensures at < |seps| - 1 && "" in seps[at + 1..]
  {
    var i :| 0 <= i < |seps| && seps[i] == "";
    assert seps[at + 1..][i - at - 1] == "";
  }

  // With overlap 0, or one of at least the size, the carried text is the whole chunk, and chunks outgrow the size.

  lemma RepeatedFacts(n: nat)
    ensures Repeated('a', n) + ['a'] == Repeated('a', n + 1)
    ensures Find(Repeated('a', n), " ").None?
  {
    NotFound(Repeated('a', n), " ");
  }

  /** One more 'a': the chunk under construction grows, also beyond the size, where the overlap is the whole chunk. */
  lemma OneMoreA(filled: nat, size: int, overlap: int)
    requires size >= 1 && !BoundsOverlap(size, overlap) && filled <= size
    ensures NextCurrent(Repeated('a', filled), "", ['a'], size, overlap) == Repeated('a', filled + 1)
  {
    RepeatedFacts(filled);
  }

  lemma AppendShort(a: seq<string>, b: seq<string>, size: int)
    ensures AllShort(a + b, size) <==> AllShort(a, size) && AllShort(b, size)
  {
    if AllShort(a + b, size) {
      forall i | 0 <= i < |a| ensures |a[i]| <= size { assert (a + b)[i] == a[i]; }
      forall i | 0 <= i < |b| ensures |b[i]| <= size { assert (a + b)[|a| + i] == b[i]; }
    }
  }

  lemma {:induction false} OvergrownChunk(filled: nat, size: int, overlap: int, pieces: seq<string>)
    requires size >= 1 && !BoundsOverlap(size, overlap) && filled <= size + 1
      && pieces == Chars(Repeated('a', size + 2 - filled))
    requires MergeEnds(pieces, Repeated('a', filled), DEFAULT_SEPARATORS, 8, size, overlap)
    ensures !AllShort(Merged(pieces, Repeated('a', filled), DEFAULT_SEPARATORS, 8, size, overlap), size)
    decreases size + 1 - filled
  {
    RepeatedSteps('a', size + 1 - filled);
    var current, rest := Repeated('a', filled), pieces[1..];
    var now := EmittedBefore(current, ['a'], DEFAULT_SEPARATORS, 8, size, overlap);
    var next := NextCurrent(current, "", ['a'], size, overlap);
    if filled <= size {
      OneMoreA(filled, size, overlap);
      OvergrownChunk(filled + 1, size, overlap, rest);
    } else {
      assert now == [current] && |now[0]| > size;
    }
    AppendShort(now, Merged(rest, next, DEFAULT_SEPARATORS, 8, size, overlap), size);
  }

  lemma RepeatedChoosesCharacters(n: nat)
    ensures Chosen(Repeated('a', n), DEFAULT_SEPARATORS) == Some(8)
  {
    assert DEFAULT_SEPARATORS[8] == "";
    forall i | 0 <= i < 8 ensures Find(Repeated('a', n), DEFAULT_SEPARATORS[i]).None? && DEFAULT_SEPARATORS[i] != "" {
      NotFound(Repeated('a', n), DEFAULT_SEPARATORS[i]);
    }
  }

  /** The size bounds every chunk of every text whose split ends. */
  ghost predicate BoundsAll(seps: seq<string>, size: int, overlap: int) {
    forall text :: SplitEnds(text, seps, size, overlap) ==> AllShort(Chunks(text, seps, size, overlap), size)
  }

  lemma OneIsTooLong(text: string, seps: seq<string>, size: int, overlap: int)
    requires SplitEnds(text, seps, size, overlap) && !AllShort(Chunks(text, seps, size, overlap), size)
    ensures !BoundsAll(seps, size, overlap)
  {
  }

  lemma OvergrownText(text: string, size: int, overlap: int)
    requires size >= 1 && !BoundsOverlap(size, overlap) && text == Repeated('a', size + 2)
    requires SplitEnds(text, DEFAULT_SEPARATORS, size, overlap)
    ensures !AllShort(Chunks(text, DEFAULT_SEPARATORS, size, overlap), size)
  {
    RepeatedChoosesCharacters(size + 2);
    assert DEFAULT_SEPARATORS[8] == "" && Repeated('a', 0) == "";
    OvergrownChunk(0, size, overlap, Chars(text));
  }

  // Below a size of one nothing is built up: every piece goes down to the fallback.

  lemma {:induction false} EmptyWindows(text: string, start: nat, overlap: int)
    requires overlap < 0
    ensures AllShort(WindowsFrom(text, start, 0, overlap), 0)
    decreases |text| - start
  {
    if start < |text| {
      EmptyWindows(text, start - overlap, overlap);
      assert Slice(text, start, start) == "";
      OneMoreShort("", WindowsFrom(text, start - overlap, 0, overlap), 0);
    }
  }

  /** With size 0 every chunk is empty; where the fallback does not end, a text whose split ends has no chunk. */
  lemma {:induction false} SmallChunks(text: string, seps: seq<string>, size: int, overlap: int)
    requires size < 1 && (size == 0 || overlap >= size) && SplitEnds(text, seps, size, overlap)
    ensures AllShort(Chunks(text, seps, size, overlap), size)
    decreases |seps|, 1, 0
  {
    if |text| > size {
      match Chosen(text, seps)
      case None => if overlap < size { EmptyWindows(text, 0, overlap); }
      case Some(at) => SmallMerged(Pieces(text, seps[at]), seps, at, size, overlap);
    }
  }

  lemma {:induction false} SmallMerged(pieces: seq<string>, seps: seq<string>, at: nat, size: int, overlap: int)
    requires size < 1 && (size == 0 || overlap >= size) && at < |seps| && MergeEnds(pieces, "", seps, at, size, overlap)
    ensures AllShort(Merged(pieces, "", seps, at, size, overlap), size)
    decreases |seps|, 0, |pieces|
  {
    if pieces != [] {
      assert NextCurrent("", seps[at], pieces[0], size, overlap) == "";
      SmallMerged(pieces[1..], seps, at, size, overlap);
      if |pieces[0]| > size { SmallChunks(pieces[0], seps[at + 1..], size, overlap); }
      AppendShort(EmittedBefore("", pieces[0], seps, at, size, overlap),
        Merged(pieces[1..], "", seps, at, size, overlap), size);
    }
  }

  /** With a size below one, no window holds a character. */
  lemma NoWindowHolds(c: char, size: int, overlap: int)
    requires overlap < size < 1
    ensures WindowsFrom([c], 0, size, overlap) == [""]
  {
    assert Slice([c], 0, size) == "";
    assert WindowsFrom([c], size - overlap, size, overlap) == [];
  }

  lemma OnlyPieceAlone(piece: string, seps: seq<string>, at: nat, size: int, overlap: int)
    requires at < |seps| && |piece| > size && MergeEnds([piece], "", seps, at, size, overlap)
    ensures SplitEnds(piece, seps[at + 1..], size, overlap)
    ensures Merged([piece], "", seps, at, size, overlap) == Chunks(piece, seps[at + 1..], size, overlap)
  {
    assert [piece][1..] == [];
    assert NextCurrent("", seps[at], piece, size, overlap) == "";
  }

  lemma {:induction false} CharacterYieldsNothing(c: char, seps: seq<string>, size: int, overlap: int)
    requires overlap < size < 1 && IsForeign(c, seps)
    ensures SplitEnds([c], seps, size, overlap) && Chunks([c], seps, size, overlap) == [""]
    decreases |seps|
  {
    AlwaysEnds([c], seps, size, overlap);
    if Chosen([c], seps).None? {
      NoWindowHolds(c, size, overlap);
    } else {
      OneCharacter(c);
      OnlyCharactersChosen(c, 1, seps);
      var at := Chosen([c], seps).value;
      LaterSeparators(c, seps, at);
      CharacterYieldsNothing(c, seps[at + 1..], size, overlap);
      OnlyPieceAlone([c], seps, at, size, overlap);
    }
  }

  /**
   Given a character foreign to the separators, a size below one bounds the chunks only where there are none to see.
   */
  lemma SizeBelowOne(seps: seq<string>, size: int, overlap: int, c: char)
    requires size < 1 && IsForeign(c, seps)
    ensures BoundsAll(seps, size, overlap) <==> size == 0 || overlap >= size
  {
    if size == 0 || overlap >= size {
      forall text | SplitEnds(text, seps, size, overlap) ensures AllShort(Chunks(text, seps, size, overlap), size) {
        SmallChunks(text, seps, size, overlap);
      }
    } else {
      CharacterYieldsNothing(c, seps, size, overlap);
      assert |Chunks([c], seps, size, overlap)[0]| > size;
      OneIsTooLong([c], seps, size, overlap);
    }
  }

  lemma SizeFromOne(size: int, overlap: int)
    requires size >= 1
    ensures BoundsAll(DEFAULT_SEPARATORS, size, overlap) <==> BoundsOverlap(size, overlap)
  {
    assert DEFAULT_SEPARATORS[8] == "";
    if BoundsOverlap(size, overlap) {
      forall text | SplitEnds(text, DEFAULT_SEPARATORS, size, overlap)
        ensures AllShort(Chunks(text, DEFAULT_SEPARATORS, size, overlap), size)
      {
        ChunksShort(text, DEFAULT_SEPARATORS, size, overlap);
      }
    } else {
      var text := Repeated('a', size + 2);
      AlwaysEnds(text, DEFAULT_SEPARATORS, size, overlap);
      OvergrownText(text, size, overlap);
      OneIsTooLong(text, DEFAULT_SEPARATORS, size, overlap);
    }
  }

  /**
   With the default separators, for all sizes and overlaps: the split of every text ends exactly when the size is at
   least one or the overlap is smaller than it. A size of at least one bounds every chunk exactly when the overlap is
   smaller and not 0; a smaller one exactly when it is 0, all chunks being empty, or when no split that ends gives any.
   */
  lemma SizeBoundExactly(size: int, overlap: int)
    ensures AllTextsEnd(DEFAULT_SEPARATORS, size, overlap) <==> size >= 1 || overlap < size
    ensures BoundsAll(DEFAULT_SEPARATORS, size, overlap) <==>
      if size >= 1 then overlap < size && overlap != 0 else size == 0 || overlap >= size
  {
    assert DEFAULT_SEPARATORS[8] == "";
    EndsOnEveryTextExactly(DEFAULT_SEPARATORS, size, overlap, 'a');
    if size >= 1 { SizeFromOne(size, overlap); } else { SizeBelowOne(DEFAULT_SEPARATORS, size, overlap, 'a'); }
  }
}
