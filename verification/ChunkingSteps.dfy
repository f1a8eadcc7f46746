/**
 The splitter's steps in terms of the text alone: what a full chunk carries on, when the chunk under construction
 grows, where the fallback's windows stand, and which offsets the chunks get.
 */
module ChunkingSteps {
  import opened Wrappers
  import opened Strings
  import opened Chunking
  import opened ChunkingEnds
  import opened ChunkingTheorems

  // ---- the overlap ----

  /** The first space of the text, if it comes after the start and in the first half of `overlap` characters. */
  ghost predicate BreaksAt(tail: string, overlap: int, i: int) {
    0 < i < |tail| && 2 * i < overlap && tail[i] == ' ' && forall j :: 0 <= j < i ==> tail[j] != ' '
  }

  lemma FirstSpace(tail: string)
    ensures Find(tail, " ").None? ==> forall j :: 0 <= j < |tail| ==> tail[j] != ' '
    ensures Find(tail, " ").Some? ==> var i := Find(tail, " ").value;
      i < |tail| && tail[i] == ' ' && forall j :: 0 <= j < i ==> tail[j] != ' '
  {
    forall j: nat | j < |tail| && tail[j] == ' ' ensures OccursAt(tail, " ", j) {
      assert tail[j..j + 1] == " ";
    }
    if Find(tail, " ").Some? {
      var i := Find(tail, " ").value;
      assert tail[i..i + 1][0] == ' ';
    }
  }

  /**
   What a full chunk carries into the next one: its last `overlap` characters, but only what follows their first
   space when that lies after their start and in their first half. It is at most `overlap` long, and at least
   about half of it.
   */
  lemma CarriedExactly(text: string, overlap: int)
    requires 0 < overlap < |text|
    ensures var tail, carried := text[|text| - overlap..], GetOverlap(text, overlap);
      && (forall i :: BreaksAt(tail, overlap, i) ==> carried == tail[i + 1..])
      && ((forall i :: !BreaksAt(tail, overlap, i)) ==> carried == tail)
      && Suffix(carried, text) && |carried| <= overlap && 2 * |carried| >= overlap - 1
  {
    var tail := text[|text| - overlap..];
    assert Slice(text, -overlap, |text|) == tail;
    FirstSpace(tail);
    OverlapIsSuffix(text, overlap);
    if Find(tail, " ").Some? {
      var first := Find(tail, " ").value;
      assert 0 < first && 2 * first < overlap ==> BreaksAt(tail, overlap, first);
    }
  }

  /**
   A chunk no longer than the overlap, and any chunk with overlap 0, is carried whole; a negative overlap cuts its
   start.
   */
  lemma CarriedOtherwise(text: string, overlap: int)
    ensures |text| <= overlap || overlap == 0 ==> GetOverlap(text, overlap) == text
    ensures overlap < 0 ==> GetOverlap(text, overlap) == if -overlap <= |text| then text[-overlap..] else ""
  {
    if overlap <= 0 && |text| > overlap {
      var tail := Slice(text, -overlap, |text|);
      assert tail == if -overlap <= |text| then text[-overlap..] else "";
    }
  }

  // ---- one turn of the merge loop ----

  /** While the next piece fits behind the separator, the chunk grows by it and nothing is emitted. */
  lemma PieceThatFits(current: string, piece: string, seps: seq<string>, at: nat, size: int, overlap: int)
    requires at < |seps| && StepEnds(current, piece, seps, at, size, overlap)
    requires |current| + (if current == "" then 0 else |seps[at]|) + |piece| <= size
    ensures EmittedBefore(current, piece, seps, at, size, overlap) == []
    ensures NextCurrent(current, seps[at], piece, size, overlap)
      == current + (if current == "" then "" else seps[at]) + piece
  {
  }

  /**
   When it does not fit, the chunk is emitted, whole or split again if it is itself too long and separators are left,
   and the next one is what is carried on, the separator and the piece.
   */
  lemma PieceThatFills(current: string, piece: string, seps: seq<string>, at: nat, size: int, overlap: int)
    requires at < |seps| && StepEnds(current, piece, seps, at, size, overlap)
    requires current != "" && |current| + |seps[at]| + |piece| > size
    ensures |current| <= size || at == |seps| - 1 ==>
      EmittedBefore(current, piece, seps, at, size, overlap) == [current]
    ensures |current| > size && at < |seps| - 1 ==>
      && SplitEnds(current, seps[at + 1..], size, overlap)
      && EmittedBefore(current, piece, seps, at, size, overlap) == Chunks(current, seps[at + 1..], size, overlap)
    ensures GetOverlap(current, overlap) != "" ==>
      NextCurrent(current, seps[at], piece, size, overlap) == GetOverlap(current, overlap) + seps[at] + piece
    ensures GetOverlap(current, overlap) == "" ==> NextCurrent(current, seps[at], piece, size, overlap) == piece
  {
  }

  /** A piece that is too long for an empty chunk is split by the later separators, and the chunk stays empty. */
  lemma PieceTooLong(piece: string, seps: seq<string>, at: nat, size: int, overlap: int)
    requires at < |seps| && StepEnds("", piece, seps, at, size, overlap) && |piece| > size
    ensures SplitEnds(piece, seps[at + 1..], size, overlap)
    ensures EmittedBefore("", piece, seps, at, size, overlap) == Chunks(piece, seps[at + 1..], size, overlap)
    ensures NextCurrent("", seps[at], piece, size, overlap) == ""
  {
  }

  /** After an emitted chunk the next one starts with the carried end of that chunk, the separator and the piece. */
  lemma RestartCarries(current: string, piece: string, seps: seq<string>, at: nat, size: int, overlap: int)
    requires at < |seps| && StepEnds(current, piece, seps, at, size, overlap)
    requires |current| + |seps[at]| + |piece| > size && 0 < overlap < |current|
    ensures var tail, next := current[|current| - overlap..], NextCurrent(current, seps[at], piece, size, overlap);
      && ((forall i :: !BreaksAt(tail, overlap, i)) ==> next == tail + seps[at] + piece)
      && (forall i :: BreaksAt(tail, overlap, i) ==> next == tail[i + 1..] + seps[at] + piece)
  {
    CarriedExactly(current, overlap);
    var tail := current[|current| - overlap..];
    if overlap == 1 { assert forall i :: !BreaksAt(tail, overlap, i); }
    assert |GetOverlap(current, overlap)| > 0;
    PieceThatFills(current, piece, seps, at, size, overlap);
  }

  // ---- the split as a whole ----

  /** A text within the size is its own only chunk, unless it is blank, which has none. */
  lemma ShortText(text: string, seps: seq<string>, size: int, overlap: int)
    requires |text| <= size
    ensures SplitEnds(text, seps, size, overlap)
    ensures AllSpace(text) ==> Chunks(text, seps, size, overlap) == []
    ensures !AllSpace(text) ==> Chunks(text, seps, size, overlap) == [text]
  {
    BlankExactly(text);
  }

  lemma BlankExactly(text: string)
    ensures Trim(text) == "" <==> AllSpace(text)
  {
    var front, back := TrimExactly(text);
    if Trim(text) != "" {
      var i := |front|;
      assert text[i] == (front + Trim(text))[i] == Trim(text)[0];
    } else {
      forall i | 0 <= i < |text| ensures IsSpace(text[i]) {
        assert text == front + back;
      }
    }
  }

  /** The loop ends by emitting what is built, unless that is blank. */
  lemma LastChunk(current: string, seps: seq<string>, at: nat, size: int, overlap: int)
    requires at < |seps| && MergeEnds([], current, seps, at, size, overlap)
    ensures AllSpace(current) ==> Merged([], current, seps, at, size, overlap) == []
    ensures !AllSpace(current) && (|current| <= size || at == |seps| - 1) ==>
      Merged([], current, seps, at, size, overlap) == [current]
  {
    BlankExactly(current);
  }

  /** A text is split by the separators configured, or the default ones, from a paragraph break down to characters. */
  lemma ConfiguredExactly(text: string, config: Config)
    requires TextEnds(text, config)
    ensures AllSpace(text) ==> RawChunks(text, config) == []
    ensures !AllSpace(text) ==>
      var seps := if config.separators.Some? then config.separators.value
        else ["\n\n", "\n", ". ", "? ", "! ", "; ", ", ", " ", ""];
      SplitEnds(text, seps, config.chunkSize, config.chunkOverlap)
      && RawChunks(text, config) == Chunks(text, seps, config.chunkSize, config.chunkOverlap)
  {
    BlankExactly(text);
  }

  // ---- the fallback's windows ----

  /** The start of window `k`, and its end. */
  function WindowStart(start: int, k: nat, size: int, overlap: int): int {
    start + k * (size - overlap)
  }

  function WindowEnd(text: string, start: int, k: nat, size: int, overlap: int): int {
    Min(WindowStart(start, k, size, overlap) + size, |text|)
  }

  /** What window `k` is, and when it is the last. */
  ghost predicate IsWindow(windows: seq<string>, text: string, start: int, k: nat, size: int, overlap: int) {
    && k < |windows|
    && windows[k] == Slice(text, WindowStart(start, k, size, overlap), WindowEnd(text, start, k, size, overlap))
    && WindowStart(start, k, size, overlap) < |text|
    && (k + 1 < |windows| ==> WindowEnd(text, start, k, size, overlap) < |text|)
    && (k + 1 == |windows| ==>
          WindowEnd(text, start, k, size, overlap) == |text| || WindowStart(start, k + 1, size, overlap) >= |text|)
  }

  lemma FirstWindow(text: string, start: nat, size: int, overlap: int)
    requires WindowsEnd(|text| - start, size, overlap) && start < |text|
    ensures IsWindow(WindowsFrom(text, start, size, overlap), text, start, 0, size, overlap)
  {
    assert WindowStart(start, 0, size, overlap) == start;
    assert WindowStart(start, 1, size, overlap) == start + (size - overlap);
  }

  lemma LaterWindow(windows: seq<string>, rest: seq<string>, text: string, start: int, next: int, k: nat, size: int,
    overlap: int)
    requires windows != [] && rest == windows[1..] && next == start + (size - overlap)
    requires IsWindow(rest, text, next, k, size, overlap)
    ensures IsWindow(windows, text, start, k + 1, size, overlap)
  {
    StartsFromNext(start, next, k + 1, size, overlap);
    assert windows[k + 1] == rest[k];
  }

  /** The windows start a size minus an overlap apart; each is what `slice` gives from its start over a size. */
  lemma {:induction false} WindowsExactly(text: string, start: nat, size: int, overlap: int, k: nat)
    requires WindowsEnd(|text| - start, size, overlap) && k < |WindowsFrom(text, start, size, overlap)|
    ensures IsWindow(WindowsFrom(text, start, size, overlap), text, start, k, size, overlap)
    decreases k
  {
    if k == 0 {
      FirstWindow(text, start, size, overlap);
    } else {
      var next := Min(start + size, |text|) - overlap;
      var rest := WindowsFrom(text, next, size, overlap);
      WindowsExactly(text, next, size, overlap, k - 1);
      LaterWindow(WindowsFrom(text, start, size, overlap), rest, text, start, next, k - 1, size, overlap);
    }
  }

  lemma StartsFromNext(start: int, next: int, k: nat, size: int, overlap: int)
    requires k > 0 && next == start + (size - overlap)
    ensures WindowStart(next, k - 1, size, overlap) == WindowStart(start, k, size, overlap)
    ensures WindowStart(next, k, size, overlap) == WindowStart(start, k + 1, size, overlap)
  {
    var step := size - overlap;
    assert (k - 1) * step + step == k * step;
  }

  /** What `slice` gives: counted from the front, and with a negative start from the end. */
  lemma SliceExactly(s: string, i: int, j: int)
    requires i >= 0 && j >= 0
    ensures i <= j <= |s| ==> Slice(s, i, j) == s[i..j]
    ensures j < i || |s| <= i ==> Slice(s, i, j) == ""
    ensures i <= |s| < j ==> Slice(s, i, j) == s[i..]
    ensures 0 < i <= |s| ==> Slice(s, -i, |s|) == s[|s| - i..]
    ensures 0 < j <= |s| && i <= |s| - j ==> Slice(s, i, -j) == s[i..|s| - j]
    ensures 0 < j && |s| - j < i ==> Slice(s, i, -j) == ""
  {
  }

  // ---- offsets ----

  lemma {:induction false} TotalLengthExactly(parts: seq<string>)
    ensures TotalLength(parts) == |Join(parts, "")|
  {
    if parts != [] {
      var front, last := parts[..|parts| - 1], parts[|parts| - 1];
      assert parts == front + [last];
      TotalLengthExactly(front);
      JoinSnoc(front, last, "");
    }
  }

  function PageTexts(pages: seq<Page>): seq<string> {
    seq(|pages|, i requires 0 <= i < |pages| => pages[i].content)
  }

  /** The pages before take up what they take joined by one character each. */
  lemma {:induction false} TotalPageLengthExactly(pages: seq<Page>)
    ensures TotalPageLength(pages) == if pages == [] then 0 else |Join(PageTexts(pages), "\n")| + 1
  {
    if pages != [] {
      var front, last := pages[..|pages| - 1], pages[|pages| - 1];
      TotalPageLengthExactly(front);
      assert PageTexts(pages) == PageTexts(front) + [last.content];
      JoinSnoc(PageTexts(front), last.content, "\n");
    }
  }

  /** Each chunk is trimmed, numbered by position, and offset by the lengths of the chunks before it. */
  lemma NumberedExactly(text: string, config: Config, i: nat)
    requires TextEnds(text, config) && i < |TextChunks(text, config)|
    ensures |TextChunks(text, config)| == |RawChunks(text, config)|
    ensures TextChunks(text, config)[i].content == Trim(RawChunks(text, config)[i])
    ensures TextChunks(text, config)[i].chunkIndex == i
    ensures TextChunks(text, config)[i].charOffset == |Join(RawChunks(text, config)[..i], "")|
  {
    TotalLengthExactly(RawChunks(text, config)[..i]);
  }

  /** Every page's own chunks. */
  function OwnChunks(pages: seq<Page>, config: Config): seq<seq<Chunk>>
    requires PagesEnd(pages, config)
  {
    seq(|pages|, p requires 0 <= p < |pages| => TextChunks(pages[p].content, config))
  }

  function InAll(lists: seq<seq<Chunk>>): nat {
    if lists == [] then 0 else InAll(lists[..|lists| - 1]) + |lists[|lists| - 1]|
  }

  /** The pages' chunks one after the other, placed. */
  function PlacedLists(lists: seq<seq<Chunk>>, pages: seq<Page>): seq<PageChunk>
    requires |lists| == |pages|
  {
    if pages == [] then [] else
      var last := |pages| - 1;
      PlacedLists(lists[..last], pages[..last])
      + Placed(lists[last], InAll(lists[..last]), TotalPageLength(pages[..last]), pages[last].pageNumber)
  }

  lemma {:induction false} PlacedCount(lists: seq<seq<Chunk>>, pages: seq<Page>)
    requires |lists| == |pages|
    ensures |PlacedLists(lists, pages)| == InAll(lists)
  {
    if pages != [] { PlacedCount(lists[..|pages| - 1], pages[..|pages| - 1]); }
  }

  lemma {:induction false} PageChunksAreLists(pages: seq<Page>, config: Config)
    requires PagesEnd(pages, config)
    ensures PageChunks(pages, config) == PlacedLists(OwnChunks(pages, config), pages)
  {
    if pages != [] {
      var front := pages[..|pages| - 1];
      assert PagesEnd(front, config);
      PageChunksAreLists(front, config);
      assert OwnChunks(pages, config)[..|front|] == OwnChunks(front, config);
      PlacedCount(OwnChunks(front, config), front);
    }
  }

  /** What stands in the document's list for one chunk of page `p`. */
  ghost predicate StandsFor(all: seq<PageChunk>, pages: seq<Page>, p: nat, own: Chunk, place: nat)
    requires p < |pages|
  {
    place < |all| && all[place] == PageChunk(
      Chunk(own.content, place, TotalPageLength(pages[..p]) + own.charOffset), pages[p].pageNumber)
  }

  lemma {:induction false} PlacedExactly(lists: seq<seq<Chunk>>, pages: seq<Page>, p: nat, i: nat)
    requires |lists| == |pages| && p < |pages| && i < |lists[p]|
    ensures StandsFor(PlacedLists(lists, pages), pages, p, lists[p][i], InAll(lists[..p]) + i)
  {
    var last := |pages| - 1;
    var front, before := pages[..last], PlacedLists(lists[..last], pages[..last]);
    var placed := Placed(lists[last], InAll(lists[..last]), TotalPageLength(front), pages[last].pageNumber);
    assert PlacedLists(lists, pages) == before + placed;
    if p == last {
      PlacedCount(lists[..last], front);
      assert (before + placed)[|before| + i] == placed[i];
    } else {
      PlacedExactly(lists[..last], front, p, i);
      assert front[..p] == pages[..p] && lists[..last][..p] == lists[..p];
    }
  }

  /**
   Page by page: chunk `i` of page `p` keeps its text, is numbered by its place in the document, carries its page's
   number, and is shifted by the pages before; the document has no other chunks.
   */
  lemma PageChunksExactly(pages: seq<Page>, config: Config, p: nat, i: nat)
    requires PagesEnd(pages, config) && p < |pages| && i < |OwnChunks(pages, config)[p]|
    ensures StandsFor(PageChunks(pages, config), pages, p, OwnChunks(pages, config)[p][i],
      InAll(OwnChunks(pages, config)[..p]) + i)
    ensures |PageChunks(pages, config)| == InAll(OwnChunks(pages, config))
  {
    var lists := OwnChunks(pages, config);
    PageChunksAreLists(pages, config);
    PlacedCount(lists, pages);
    PlacedExactly(lists, pages, p, i);
  }
}
