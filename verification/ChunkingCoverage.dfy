/**
 Nothing is lost in splitting: leaving out white space and separators, the text is a subsequence of its chunks in order.
 */
module ChunkingCoverage {
  import opened Wrappers
  import opened Strings
  import opened Chunking
  import opened ChunkingEnds
  import opened ChunkingTheorems

  // ---- subsequences ----

  predicate Subsequence(a: string, b: string) {
    a == "" || (b != "" && if a[0] == b[0] then Subsequence(a[1..], b[1..]) else Subsequence(a, b[1..]))
  }

  lemma {:induction false} SubsequenceTail(a: string, b: string)
    requires a != "" && Subsequence(a, b)
    ensures Subsequence(a[1..], b)
    decreases |b|
  {
    if a[0] != b[0] {
      SubsequenceTail(a, b[1..]);
    }
    if |a| > 1 {
      SubsequenceTail(a[1..], b[1..]);
    }
  }

  /** Dropping the front of the part keeps it a subsequence. */
  lemma {:induction false} SubsequenceDrop(front: string, a: string, b: string)
    requires Subsequence(front + a, b)
    ensures Subsequence(a, b)
  {
    if front == "" {
      assert front + a == a;
    } else {
      SubsequenceTail(front + a, b);
      assert (front + a)[1..] == front[1..] + a;
      SubsequenceDrop(front[1..], a, b);
    }
  }

  lemma {:induction false} SubsequencePrepend(a: string, front: string, b: string)
    requires Subsequence(a, b)
    ensures Subsequence(a, front + b)
    decreases |front|
  {
    if front == "" {
      assert front + b == b;
    } else {
      SubsequencePrepend(a, front[1..], b);
      assert (front + b)[1..] == front[1..] + b;
      if a != "" { SubsequenceTail(a, front[1..] + b); }
    }
  }

  lemma {:induction false} SubsequenceAppend(a: string, b: string, c: string, d: string)
    requires Subsequence(a, c) && Subsequence(b, d)
    ensures Subsequence(a + b, c + d)
    decreases |c|
  {
    if a == "" {
      assert a + b == b;
      SubsequencePrepend(b, c, d);
    } else {
      assert (c + d)[1..] == c[1..] + d && (a + b)[1..] == a[1..] + b;
      if a[0] == c[0] {
        SubsequenceAppend(a[1..], b, c[1..], d);
      } else {
        SubsequenceAppend(a, b, c[1..], d);
      }
    }
  }

  lemma {:induction false} SubsequenceSelf(a: string)
    ensures Subsequence(a, a)
  {
    if a != "" { SubsequenceSelf(a[1..]); }
  }

  // ---- content: what is left without white space and separator characters ----

  function Content(s: string, dropped: set<char>): string {
    if s == "" then ""
    else (if s[0] in dropped || IsSpace(s[0]) then "" else [s[0]]) + Content(s[1..], dropped)
  }

  lemma {:induction false} ContentAppend(a: string, b: string, dropped: set<char>)
    ensures Content(a + b, dropped) == Content(a, dropped) + Content(b, dropped)
  {
    if a == "" {
      assert a + b == b;
    } else {
      assert (a + b)[1..] == a[1..] + b;
      ContentAppend(a[1..], b, dropped);
    }
  }

  lemma {:induction false} ContentEmpty(s: string, dropped: set<char>)
    requires forall c :: c in s ==> c in dropped || IsSpace(c)
    ensures Content(s, dropped) == ""
  {
    if s != "" { ContentEmpty(s[1..], dropped); }
  }

  lemma {:induction false} ContentTrimStart(s: string, dropped: set<char>)
    ensures Content(TrimStart(s), dropped) == Content(s, dropped)
  {
    if s != "" && IsSpace(s[0]) { ContentTrimStart(s[1..], dropped); }
  }

  lemma {:induction false} ContentTrimEnd(s: string, dropped: set<char>)
    ensures Content(TrimEnd(s), dropped) == Content(s, dropped)
  {
    if s != "" && IsSpace(s[|s| - 1]) {
      ContentTrimEnd(s[..|s| - 1], dropped);
      ContentAppend(s[..|s| - 1], [s[|s| - 1]], dropped);
      assert s == s[..|s| - 1] + [s[|s| - 1]];
    }
  }

  lemma ContentTrim(s: string, dropped: set<char>)
    ensures Content(Trim(s), dropped) == Content(s, dropped)
  {
    ContentTrimStart(s, dropped);
    ContentTrimEnd(TrimStart(s), dropped);
  }

  /** The contents of the chunks, one after the other. */
  function ContentOf(parts: seq<string>, dropped: set<char>): string {
    if parts == [] then "" else Content(parts[0], dropped) + ContentOf(parts[1..], dropped)
  }

  lemma {:induction false} ContentOfAppend(a: seq<string>, b: seq<string>, dropped: set<char>)
    ensures ContentOf(a + b, dropped) == ContentOf(a, dropped) + ContentOf(b, dropped)
  {
    if a == [] {
      assert a + b == b;
    } else {
      assert (a + b)[1..] == a[1..] + b;
      ContentOfAppend(a[1..], b, dropped);
    }
  }

  lemma ContentOfOne(part: string, dropped: set<char>)
    ensures ContentOf([part], dropped) == Content(part, dropped)
  {
    assert ContentOf([part], dropped) == Content(part, dropped) + ContentOf([], dropped);
  }

  predicate Drops(seps: seq<string>, dropped: set<char>) {
    forall i, c :: 0 <= i < |seps| && c in seps[i] ==> c in dropped
  }

  lemma DropsLater(seps: seq<string>, at: nat, dropped: set<char>)
    requires at < |seps| && Drops(seps, dropped)
    ensures Drops(seps[at + 1..], dropped)
  {
  }

  /** The text's content is a subsequence of the chunks' contents. */
  predicate Covered(content: string, parts: seq<string>, dropped: set<char>) {
    Subsequence(content, ContentOf(parts, dropped))
  }

  lemma CoveredAppend(a: string, b: string, parts: seq<string>, more: seq<string>, dropped: set<char>)
    requires Covered(a, parts, dropped) && Covered(b, more, dropped)
    ensures Covered(a + b, parts + more, dropped)
  {
    ContentOfAppend(parts, more, dropped);
    SubsequenceAppend(a, b, ContentOf(parts, dropped), ContentOf(more, dropped));
  }

  lemma CoveredByItself(part: string, dropped: set<char>)
    ensures Covered(Content(part, dropped), [part], dropped)
  {
    ContentOfOne(part, dropped);
    SubsequenceSelf(Content(part, dropped));
  }

  /** A window and what is covered from its overlap on cover what follows the window's start. */
  lemma WindowAndRest(text: string, start: nat, next: nat, end: nat, rest: seq<string>, dropped: set<char>)
    requires start <= end <= |text| && next <= end
    requires Covered(Content(text[next..], dropped), rest, dropped)
    ensures Covered(Content(text[start..], dropped), [text[start..end]] + rest, dropped)
  {
    var first, tail := text[start..end], text[end..];
    assert text[start..] == first + tail;
    ContentAppend(first, tail, dropped);
    assert text[next..] == text[next..end] + tail;
    ContentAppend(text[next..end], tail, dropped);
    SubsequenceDrop(Content(text[next..end], dropped), Content(tail, dropped), ContentOf(rest, dropped));
    CoveredByItself(first, dropped);
    CoveredAppend(Content(first, dropped), Content(tail, dropped), [first], rest, dropped);
  }

  lemma {:induction false} WindowsCover(text: string, start: nat, size: int, overlap: int, dropped: set<char>)
    requires size >= 1 && overlap >= 0 && start <= |text| && WindowsEnd(|text| - start, size, overlap)
    ensures Covered(Content(text[start..], dropped), WindowsFrom(text, start, size, overlap), dropped)
    decreases |text| - start
  {
    if start < |text| {
      var end := Min(start + size, |text|);
      if end >= |text| {
        CoveredByItself(text[start..], dropped);
        SliceWithin(text, start, end);
        assert text[start..end] == text[start..];
        assert WindowsFrom(text, start, size, overlap) == [text[start..]];
      } else {
        var next := end - overlap;
        SliceWithin(text, start, end);
        WindowsCover(text, next, size, overlap, dropped);
        WindowAndRest(text, start, next, end, WindowsFrom(text, next, size, overlap), dropped);
      }
    }
  }

  /**
   The sizes and separators with which nothing is lost: windows do not skip characters, or the separators get to single
   characters before the fallback does.
   */
  predicate Keeps(seps: seq<string>, size: int, overlap: int) {
    size >= 1 && (overlap >= 0 || "" in seps)
  }

  /** While a level's pieces are merged: the empty separator is still to come, or the pieces fit. */
  predicate LevelKeeps(pieces: seq<string>, current: string, seps: seq<string>, at: nat, size: int, overlap: int)
    requires at < |seps|
  {
    size >= 1 && (overlap >= 0 ||
      (&& "" in seps && (forall i :: 0 <= i < at ==> seps[i] != "")
       && (seps[at] == "" ==> |current| <= size && forall p :: p in pieces ==> |p| == 1)))
  }

  lemma LaterKeeps(seps: seq<string>, at: nat, size: int, overlap: int)
    requires at < |seps| && size >= 1
    requires overlap >= 0 || ("" in seps && (forall i :: 0 <= i < at ==> seps[i] != "") && seps[at] != "")
    ensures Keeps(seps[at + 1..], size, overlap)
  {
    if overlap < 0 { LaterSeparatorsReach(seps, at); }
  }

  lemma NextKeeps(pieces: seq<string>, current: string, seps: seq<string>, at: nat, size: int, overlap: int)
    requires at < |seps| && pieces != [] && LevelKeeps(pieces, current, seps, at, size, overlap)
    ensures LevelKeeps(pieces[1..], NextCurrent(current, seps[at], pieces[0], size, overlap), seps, at, size, overlap)
  {
    if overlap < 0 {
      assert pieces[0] in pieces;
      OverlapShort(current, size, overlap);
    }
  }

  lemma {:induction false} ChunksCover(text: string, seps: seq<string>, size: int, overlap: int, dropped: set<char>)
    requires SplitEnds(text, seps, size, overlap) && Drops(seps, dropped) && Keeps(seps, size, overlap)
    ensures Covered(Content(text, dropped), Chunks(text, seps, size, overlap), dropped)
    decreases |seps|, 2, 0
  {
    if |text| <= size {
      if Trim(text) == "" { ContentTrim(text, dropped); } else { CoveredByItself(text, dropped); }
    } else {
      match Chosen(text, seps)
      case None =>
        WindowsCover(text, 0, size, overlap, dropped);
        assert text[0..] == text;
      case Some(at) =>
        JoinPieces(text, seps[at]);
        PiecesOfCharacters(text, seps);
        MergedCovers(Pieces(text, seps[at]), "", seps, at, size, overlap, dropped);
        ContentOfJoin(Pieces(text, seps[at]), seps[at], dropped);
        assert Content("", dropped) + Content(text, dropped) == Content(text, dropped);
    }
  }

  /** A join's content is that of its parts. */
  lemma {:induction false} ContentOfJoin(pieces: seq<string>, sep: string, dropped: set<char>)
    requires forall c :: c in sep ==> c in dropped
    ensures Content(Join(pieces, sep), dropped) == ContentOf(pieces, dropped)
  {
    if |pieces| == 1 {
      ContentOfOne(pieces[0], dropped);
      assert pieces == [pieces[0]];
    } else if |pieces| > 1 {
      ContentOfJoin(pieces[1..], sep, dropped);
      ContentAppend(pieces[0] + sep, Join(pieces[1..], sep), dropped);
      ContentAppend(pieces[0], sep, dropped);
      ContentEmpty(sep, dropped);
    }
  }

  /** From any state of the loop, what is built and what is still to read reach the chunks appended from there. */
  lemma {:induction false} MergedCovers(pieces: seq<string>, current: string, seps: seq<string>, at: nat, size: int,
    overlap: int, dropped: set<char>)
    requires at < |seps| && MergeEnds(pieces, current, seps, at, size, overlap) && Drops(seps, dropped)
    requires LevelKeeps(pieces, current, seps, at, size, overlap)
    ensures Covered(Content(current, dropped) + ContentOf(pieces, dropped),
      Merged(pieces, current, seps, at, size, overlap), dropped)
    decreases |seps|, 1, |pieces|
  {
    if pieces == [] {
      assert Content(current, dropped) + "" == Content(current, dropped);
      if Trim(current) == "" {
        ContentTrim(current, dropped);
      } else {
        EmittedCovers(current, seps, at, size, overlap, dropped);
      }
    } else {
      var piece, rest := pieces[0], pieces[1..];
      var next := NextCurrent(current, seps[at], piece, size, overlap);
      NextKeeps(pieces, current, seps, at, size, overlap);
      MergedCovers(rest, next, seps, at, size, overlap, dropped);
      assert LevelKeeps([piece], current, seps, at, size, overlap) by { assert piece in pieces; }
      OneMoreCovers(current, piece, ContentOf(rest, dropped), Merged(rest, next, seps, at, size, overlap), seps, at,
        size, overlap, dropped);
    }
  }

  lemma ContentGrown(current: string, sep: string, piece: string, dropped: set<char>)
    requires forall c :: c in sep ==> c in dropped
    ensures Content(Grown(current, sep, piece), dropped) == Content(current, dropped) + Content(piece, dropped)
  {
    var gap := if current == "" then "" else sep;
    ContentAppend(current + gap, piece, dropped);
    ContentAppend(current, gap, dropped);
    ContentEmpty(gap, dropped);
  }

  lemma GrownCovers(current: string, sep: string, piece: string, ahead: string, later: seq<string>, dropped: set<char>)
    requires forall c :: c in sep ==> c in dropped
    requires Covered(Content(Grown(current, sep, piece), dropped) + ahead, later, dropped)
    ensures Covered(Content(current, dropped) + (Content(piece, dropped) + ahead), [] + later, dropped)
  {
    var c, p := Content(current, dropped), Content(piece, dropped);
    ContentGrown(current, sep, piece, dropped);
    assert c + (p + ahead) == (c + p) + ahead;
    assert [] + later == later;
  }

  /** A chunk emitted in full and one restarted from its overlap: the overlap is extra. */
  lemma RestartCovers(current: string, kept: string, sep: string, piece: string, ahead: string, emitted: seq<string>,
    later: seq<string>, dropped: set<char>)
    requires forall c :: c in sep ==> c in dropped
    requires Covered(Content(current, dropped), emitted, dropped)
    requires Covered(Content(Grown(kept, sep, piece), dropped) + ahead, later, dropped)
    ensures Covered(Content(current, dropped) + (Content(piece, dropped) + ahead), emitted + later, dropped)
  {
    var k, p := Content(kept, dropped), Content(piece, dropped);
    ContentGrown(kept, sep, piece, dropped);
    assert (k + p) + ahead == k + (p + ahead);
    SubsequenceDrop(k, p + ahead, ContentOf(later, dropped));
    CoveredAppend(Content(current, dropped), p + ahead, emitted, later, dropped);
  }

  lemma AloneCovers(current: string, piece: string, ahead: string, chunks: seq<string>, later: seq<string>,
    dropped: set<char>)
    requires current == "" && Covered(Content(piece, dropped), chunks, dropped)
      && Covered(Content("", dropped) + ahead, later, dropped)
    ensures Covered(Content(current, dropped) + (Content(piece, dropped) + ahead), chunks + later, dropped)
  {
    var p := Content(piece, dropped);
    assert Content(current, dropped) == "" && "" + (p + ahead) == p + ahead && "" + ahead == ahead;
    CoveredAppend(p, ahead, chunks, later, dropped);
  }

  lemma {:induction false} OneMoreCovers(current: string, piece: string, ahead: string, later: seq<string>,
    seps: seq<string>, at: nat, size: int, overlap: int, dropped: set<char>)
    requires at < |seps| && StepEnds(current, piece, seps, at, size, overlap) && Drops(seps, dropped)
    requires LevelKeeps([piece], current, seps, at, size, overlap)
    requires Covered(Content(NextCurrent(current, seps[at], piece, size, overlap), dropped) + ahead, later, dropped)
    ensures Covered(Content(current, dropped) + (Content(piece, dropped) + ahead),
      EmittedBefore(current, piece, seps, at, size, overlap) + later, dropped)
    decreases |seps|, 0, 1
  {
    if |Grown(current, seps[at], piece)| <= size {
      GrownCovers(current, seps[at], piece, ahead, later, dropped);
    } else if current != "" {
      EmittedCovers(current, seps, at, size, overlap, dropped);
      RestartCovers(current, GetOverlap(current, overlap), seps[at], piece, ahead,
        Emitted(current, seps, at, size, overlap), later, dropped);
    } else {
      DropsLater(seps, at, dropped);
      assert piece in [piece];
      LaterKeeps(seps, at, size, overlap);
      ChunksCover(piece, seps[at + 1..], size, overlap, dropped);
      AloneCovers(current, piece, ahead, Chunks(piece, seps[at + 1..], size, overlap), later, dropped);
    }
  }

  lemma {:induction false} EmittedCovers(current: string, seps: seq<string>, at: nat, size: int, overlap: int,
    dropped: set<char>)
    requires at < |seps| && EmitEnds(current, seps, at, size, overlap) && Drops(seps, dropped)
    requires LevelKeeps([], current, seps, at, size, overlap)
    ensures Covered(Content(current, dropped), Emitted(current, seps, at, size, overlap), dropped)
    decreases |seps|, 0, 0
  {
    if |current| > size && at < |seps| - 1 {
      DropsLater(seps, at, dropped);
      LaterKeeps(seps, at, size, overlap);
      ChunksCover(current, seps[at + 1..], size, overlap, dropped);
    } else {
      CoveredByItself(current, dropped);
    }
  }

  // ---- what is lost otherwise ----

  /** With a negative overlap the second window starts beyond the character after the first. */
  lemma WindowsSkip(c: char, size: int, overlap: int)
    requires size >= 1 && overlap < 0
    ensures WindowsFrom(Repeated(c, size + 1), 0, size, overlap) == [Repeated(c, size)]
  {
    var text := Repeated(c, size + 1);
    SliceWithin(text, 0, size);
    assert text[0..size] == Repeated(c, size);
    assert WindowsFrom(text, size - overlap, size, overlap) == [];
  }

  lemma {:induction false} RepeatedContent(c: char, n: nat, dropped: set<char>)
    requires c !in dropped && !IsSpace(c)
    ensures |Content(Repeated(c, n), dropped)| == n
  {
    if n > 0 {
      assert Repeated(c, n)[1..] == Repeated(c, n - 1);
      RepeatedContent(c, n - 1, dropped);
    }
  }

  lemma {:induction false} SubsequenceShorter(a: string, b: string)
    requires Subsequence(a, b)
    ensures |a| <= |b|
  {
    if a != "" { SubsequenceShorter(if a[0] == b[0] then a[1..] else a, b[1..]); }
  }

  lemma WindowsLose(c: char, seps: seq<string>, size: int, overlap: int, dropped: set<char>)
    requires size >= 1 && overlap < 0 && "" !in seps && IsForeign(c, seps) && c !in dropped
    ensures SplitEnds(Repeated(c, size + 1), seps, size, overlap)
    ensures !Covered(Content(Repeated(c, size + 1), dropped), Chunks(Repeated(c, size + 1), seps, size, overlap),
      dropped)
  {
    var text := Repeated(c, size + 1);
    AlwaysEnds(text, seps, size, overlap);
    if Chosen(text, seps).Some? { OnlyCharactersChosen(c, size + 1, seps); }
    WindowsSkip(c, size, overlap);
    RepeatedContent(c, size + 1, dropped);
    RepeatedContent(c, size, dropped);
    ContentOfOne(Repeated(c, size), dropped);
    if Covered(Content(text, dropped), [Repeated(c, size)], dropped) {
      SubsequenceShorter(Content(text, dropped), Content(Repeated(c, size), dropped));
    }
  }

  /** No text whose split ends loses content. */
  ghost predicate LosesNothing(seps: seq<string>, size: int, overlap: int, dropped: set<char>) {
    forall text :: SplitEnds(text, seps, size, overlap) ==>
      Covered(Content(text, dropped), Chunks(text, seps, size, overlap), dropped)
  }

  lemma OneTextLoses(text: string, seps: seq<string>, size: int, overlap: int, dropped: set<char>)
    requires SplitEnds(text, seps, size, overlap)
    requires !Covered(Content(text, dropped), Chunks(text, seps, size, overlap), dropped)
    ensures !LosesNothing(seps, size, overlap, dropped)
  {
  }

  /**
   Given a character foreign to the separators, these are the only sizes and separators with which nothing is lost.
   */
  lemma KeepsExactly(seps: seq<string>, size: int, overlap: int, dropped: set<char>, c: char)
    requires size >= 1 || overlap < size
    requires Drops(seps, dropped) && IsForeign(c, seps) && c !in dropped
    ensures LosesNothing(seps, size, overlap, dropped) <==> Keeps(seps, size, overlap)
  {
    if Keeps(seps, size, overlap) {
      forall text | SplitEnds(text, seps, size, overlap)
        ensures Covered(Content(text, dropped), Chunks(text, seps, size, overlap), dropped)
      {
        ChunksCover(text, seps, size, overlap, dropped);
      }
    } else if size < 1 {
      CharacterYieldsNothing(c, seps, size, overlap);
      ContentOfOne("", dropped);
      assert Content([c], dropped) == [c] + Content("", dropped);
      OneTextLoses([c], seps, size, overlap, dropped);
    } else {
      WindowsLose(c, seps, size, overlap, dropped);
      OneTextLoses(Repeated(c, size + 1), seps, size, overlap, dropped);
    }
  }

  // ---- the service's results ----

  function Contents(chunks: seq<Chunk>): seq<string> {
    seq(|chunks|, i requires 0 <= i < |chunks| => chunks[i].content)
  }

  lemma {:induction false} ContentOfTrimmed(raw: seq<string>, trimmed: seq<string>, dropped: set<char>)
    requires |trimmed| == |raw| && forall i :: 0 <= i < |raw| ==> trimmed[i] == Trim(raw[i])
    ensures ContentOf(trimmed, dropped) == ContentOf(raw, dropped)
  {
    if raw != [] {
      ContentTrim(raw[0], dropped);
      ContentOfTrimmed(raw[1..], trimmed[1..], dropped);
    }
  }

  /** Nothing but white space and separator characters is lost, and the order is kept. */
  lemma NoContentLost(text: string, config: Config, dropped: set<char>)
    requires TextEnds(text, config)
    requires Drops(SeparatorsOf(config), dropped) && Keeps(SeparatorsOf(config), config.chunkSize, config.chunkOverlap)
    ensures Subsequence(Content(text, dropped), ContentOf(Contents(TextChunks(text, config)), dropped))
  {
    if Trim(text) == "" {
      ContentTrim(text, dropped);
    } else {
      ChunksCover(text, SeparatorsOf(config), config.chunkSize, config.chunkOverlap, dropped);
      ContentOfTrimmed(RawChunks(text, config), Contents(TextChunks(text, config)), dropped);
    }
  }

  /** The chunk is a piece of a page with its number. */
  ghost predicate IsFromPage(c: PageChunk, pages: seq<Page>) {
    exists p :: 0 <= p < |pages| && pages[p].pageNumber == c.pageNumber && Infix(c.chunk.content, pages[p].content)
  }

  ghost predicate WellPlaced(chunks: seq<PageChunk>, first: nat, pages: seq<Page>) {
    forall i :: 0 <= i < |chunks| ==> chunks[i].chunk.chunkIndex == first + i && IsFromPage(chunks[i], pages)
  }

  lemma LastPagePlaced(page: Page, earlier: seq<Page>, index: nat, config: Config)
    requires TextEnds(page.content, config)
    ensures WellPlaced(Placed(TextChunks(page.content, config), index, TotalPageLength(earlier), page.pageNumber),
      index, earlier + [page])
  {
    var own, pages := TextChunks(page.content, config), earlier + [page];
    ChunkContentsAreInfixes(page.content, config);
    var placed := Placed(own, index, TotalPageLength(earlier), page.pageNumber);
    forall i | 0 <= i < |placed| ensures IsFromPage(placed[i], pages) {
      assert pages[|earlier|] == page && placed[i].chunk.content == own[i].content;
    }
  }

  lemma WellPlacedAppend(a: seq<PageChunk>, b: seq<PageChunk>, earlier: seq<Page>, page: Page)
    requires WellPlaced(a, 0, earlier) && WellPlaced(b, |a|, earlier + [page])
    ensures WellPlaced(a + b, 0, earlier + [page])
  {
    var pages := earlier + [page];
    forall i | 0 <= i < |a| ensures IsFromPage(a[i], pages) {
      assert IsFromPage(a[i], earlier);
      var p :| 0 <= p < |earlier| && earlier[p].pageNumber == a[i].pageNumber
        && Infix(a[i].chunk.content, earlier[p].content);
      assert pages[p] == earlier[p];
    }
  }

  /** Every chunk of a paged document is numbered by its position and is a piece of a page it names. */
  lemma {:induction false} PageChunksPlaced(pages: seq<Page>, config: Config)
    requires PagesEnd(pages, config)
    ensures WellPlaced(PageChunks(pages, config), 0, pages)
  {
    if pages != [] {
      var earlier, last := pages[..|pages| - 1], pages[|pages| - 1];
      assert PagesEnd(earlier, config);
      PageChunksPlaced(earlier, config);
      var before := PageChunks(earlier, config);
      LastPagePlaced(last, earlier, |before|, config);
      assert pages == earlier + [last];
      WellPlacedAppend(before,
        Placed(TextChunks(last.content, config), |before|, TotalPageLength(earlier), last.pageNumber), earlier, last);
    }
  }
}
