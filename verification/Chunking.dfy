/**
 The recursive text splitter. Each algorithm of the service is a method with the service's own
 loops, tied to a function; what the service promises is proved about the functions in
 ChunkingTheorems. A text is a sequence of one-unit characters.
 */
module Chunking {
  import opened Wrappers
  import opened Strings

  const DEFAULT_SEPARATORS: seq<string> := ["\n\n", "\n", ". ", "? ", "! ", "; ", ", ", " ", ""]

  datatype Config = Config(chunkSize: int, chunkOverlap: int, separators: Option<seq<string>>)

  datatype Chunk = Chunk(content: string, chunkIndex: nat, charOffset: nat)

  datatype Page = Page(content: string, pageNumber: int)

  datatype PageChunk = PageChunk(chunk: Chunk, pageNumber: int)

  /** The separator list ends in the empty separator, as the default list does. */
  predicate EndsInCharacters(seps: seq<string>) {
    seps != [] && seps[|seps| - 1] == ""
  }

  /** Sizes and separators for which the service's loops end on every text. */
  predicate Terminates(seps: seq<string>, size: int, overlap: int) {
    overlap < size || (size >= 1 && EndsInCharacters(seps))
  }

  /** The fallback's loop ends with this much of the text left. */
  predicate WindowsEnd(length: int, size: int, overlap: int) {
    overlap < size || length <= size || length <= 0
  }

  /** The first usable separator: the empty one, or one that occurs in the text. */
  function Chosen(text: string, seps: seq<string>): (r: Option<nat>)
    ensures r.Some? ==> r.value < |seps| && (seps[r.value] == "" || Find(text, seps[r.value]).Some?)
    ensures r.Some? ==> forall i :: 0 <= i < r.value ==> seps[i] != "" && Find(text, seps[i]).None?
    ensures r.None? ==> forall i :: 0 <= i < |seps| ==> seps[i] != "" && Find(text, seps[i]).None?
  {
    if seps == [] then None
    else if seps[0] == "" || Find(text, seps[0]).Some? then Some(0)
    else match Chosen(text, seps[1..]) case None => None case Some(i) => Some(i + 1)
  }

  function Chars(text: string): seq<string> {
    seq(|text|, i requires 0 <= i < |text| => [text[i]])
  }

  function Pieces(text: string, sep: string): seq<string> {
    if sep == "" then Chars(text) else Split(text, sep)
  }

  function Min(a: int, b: int): int { if a <= b then a else b }

  /** The place an index names in JavaScript's `slice`: a negative one counts from the end. */
  function Place(i: int, length: nat): (p: nat)
    ensures p <= length
  {
    if i < 0 then (if length + i < 0 then 0 else length + i) else Min(i, length)
  }

  /** JavaScript's `s.slice(from, to)`. */
  function Slice(s: string, from: int, to: int): string {
    var a, b := Place(from, |s|), Place(to, |s|);
    if a < b then s[a..b] else ""
  }

  /** The end of a full chunk, carried into the next one. With no overlap, `slice(-0)` is the whole chunk. */
  function GetOverlap(text: string, overlap: int): string {
    if |text| <= overlap then text else
      var tail := Slice(text, -overlap, |text|);
      match Find(tail, " ")
      case Some(i) => if 0 < i && 2 * i < overlap then tail[i + 1..] else tail
      case None => tail
  }

  /** The fallback's windows from `start` on. */
  function WindowsFrom(text: string, start: nat, size: int, overlap: int): seq<string>
    requires WindowsEnd(|text| - start, size, overlap)
    decreases |text| - start
  {
    if start >= |text| then [] else
      var end := Min(start + size, |text|);
      [Slice(text, start, end)] + if end >= |text| then [] else WindowsFrom(text, end - overlap, size, overlap)
  }

  /** The chunk under construction with one more piece. */
  function Grown(current: string, sep: string, piece: string): string {
    current + (if current == "" then "" else sep) + piece
  }

  /** The chunk under construction after one more piece: grown, restarted from the overlap, or still empty. */
  function NextCurrent(current: string, sep: string, piece: string, size: int, overlap: int): string {
    var grown := Grown(current, sep, piece);
    if |grown| <= size then grown
    else if current != "" then Grown(GetOverlap(current, overlap), sep, piece)
    else ""
  }

  // ---- when the split of a text ends ----

  /** The recursion reaches the fallback only with texts on which its loop ends. */
  predicate SplitEnds(text: string, seps: seq<string>, size: int, overlap: int)
    decreases |seps|, 2, 0
  {
    |text| <= size ||
      match Chosen(text, seps)
      case None => WindowsEnd(|text|, size, overlap)
      case Some(at) => MergeEnds(Pieces(text, seps[at]), "", seps, at, size, overlap)
  }

  predicate MergeEnds(pieces: seq<string>, current: string, seps: seq<string>, at: nat, size: int, overlap: int)
    requires at < |seps|
    decreases |seps|, 1, |pieces|
  {
    if pieces == [] then Trim(current) == "" || EmitEnds(current, seps, at, size, overlap)
    else
      && StepEnds(current, pieces[0], seps, at, size, overlap)
      && MergeEnds(pieces[1..], NextCurrent(current, seps[at], pieces[0], size, overlap), seps, at, size, overlap)
  }

  predicate StepEnds(current: string, piece: string, seps: seq<string>, at: nat, size: int, overlap: int)
    requires at < |seps|
    decreases |seps|, 0, 1
  {
    if |Grown(current, seps[at], piece)| <= size then true
    else if current != "" then EmitEnds(current, seps, at, size, overlap)
    else SplitEnds(piece, seps[at + 1..], size, overlap)
  }

  predicate EmitEnds(current: string, seps: seq<string>, at: nat, size: int, overlap: int)
    requires at < |seps|
    decreases |seps|, 0, 0
  {
    |current| > size && at < |seps| - 1 ==> SplitEnds(current, seps[at + 1..], size, overlap)
  }

  // ---- the chunks of a text ----

  function Chunks(text: string, seps: seq<string>, size: int, overlap: int): seq<string>
    requires SplitEnds(text, seps, size, overlap)
    decreases |seps|, 2, 0
  {
    if |text| <= size then (if Trim(text) == "" then [] else [text])
    else match Chosen(text, seps)
      case None => WindowsFrom(text, 0, size, overlap)
      case Some(at) => Merged(Pieces(text, seps[at]), "", seps, at, size, overlap)
  }

  /** What the merge loop appends from here on, with these pieces left. */
  function Merged(pieces: seq<string>, current: string, seps: seq<string>, at: nat, size: int,
    overlap: int): seq<string>
    requires at < |seps| && MergeEnds(pieces, current, seps, at, size, overlap)
    decreases |seps|, 1, |pieces|
  {
    if pieces == [] then (if Trim(current) == "" then [] else Emitted(current, seps, at, size, overlap))
    else
      EmittedBefore(current, pieces[0], seps, at, size, overlap)
      + Merged(pieces[1..], NextCurrent(current, seps[at], pieces[0], size, overlap), seps, at, size, overlap)
  }

  /** What one more piece makes the loop append: nothing, the full chunk, or the oversized piece split on its own. */
  function EmittedBefore(current: string, piece: string, seps: seq<string>, at: nat, size: int,
    overlap: int): seq<string>
    requires at < |seps| && StepEnds(current, piece, seps, at, size, overlap)
    decreases |seps|, 0, 1
  {
    if |Grown(current, seps[at], piece)| <= size then []
    else if current != "" then Emitted(current, seps, at, size, overlap)
    else Chunks(piece, seps[at + 1..], size, overlap)
  }

  /** A finished chunk, split again by the later separators when it is still too long. */
  function Emitted(current: string, seps: seq<string>, at: nat, size: int, overlap: int): seq<string>
    requires at < |seps| && EmitEnds(current, seps, at, size, overlap)
    decreases |seps|, 0, 0
  {
    if |current| > size && at < |seps| - 1 then Chunks(current, seps[at + 1..], size, overlap) else [current]
  }

  lemma PiecesOfCharacters(text: string, seps: seq<string>)
    requires Chosen(text, seps).Some?
    ensures var sep := seps[Chosen(text, seps).value];
      sep == "" ==> forall p :: p in Pieces(text, sep) ==> |p| == 1
  {
  }

  /** One turn of the merge loop, with what was appended before it. */
  lemma MergedStep(done: seq<string>, pieces: seq<string>, i: nat, current: string, seps: seq<string>, at: nat,
    size: int, overlap: int)
    requires at < |seps| && i < |pieces| && MergeEnds(pieces[i..], current, seps, at, size, overlap)
    ensures StepEnds(current, pieces[i], seps, at, size, overlap)
    ensures MergeEnds(pieces[i + 1..], NextCurrent(current, seps[at], pieces[i], size, overlap), seps, at, size,
      overlap)
    ensures done + Merged(pieces[i..], current, seps, at, size, overlap)
      == (done + EmittedBefore(current, pieces[i], seps, at, size, overlap))
        + Merged(pieces[i + 1..], NextCurrent(current, seps[at], pieces[i], size, overlap), seps, at, size, overlap)
  {
    assert pieces[i..][0] == pieces[i] && pieces[i..][1..] == pieces[i + 1..];
  }

  // ---- the service ----

  /** One turn of the window loop, with what was appended before it. */
  lemma WindowsStep(done: seq<string>, text: string, start: nat, size: int, overlap: int, rest: seq<string>)
    requires start < |text| && WindowsEnd(|text| - start, size, overlap)
    requires var end := Min(start + size, |text|);
      rest == if end >= |text| then [] else WindowsFrom(text, end - overlap, size, overlap)
    ensures done + WindowsFrom(text, start, size, overlap)
      == done + [Slice(text, start, Min(start + size, |text|))] + rest
  {
  }

  method SplitBySize(text: string, size: int, overlap: int) returns (chunks: seq<string>)
    requires WindowsEnd(|text|, size, overlap)
    ensures chunks == WindowsFrom(text, 0, size, overlap)
  {
    chunks := [];
    var start := 0;
    ghost var rest := WindowsFrom(text, 0, size, overlap);
    while start < |text|
      invariant 0 <= start && WindowsEnd(|text| - start, size, overlap)
      invariant rest == WindowsFrom(text, start, size, overlap)
      invariant chunks + rest == WindowsFrom(text, 0, size, overlap)
      decreases |text| - start
    {
      var end := Min(start + size, |text|);
      rest := if end >= |text| then [] else WindowsFrom(text, end - overlap, size, overlap);
      WindowsStep(chunks, text, start, size, overlap, rest);
      chunks := chunks + [Slice(text, start, end)];
      start := end - overlap;
      if start >= |text| - overlap {
        return;
      }
    }
  }

  method RecursiveSplit(text: string, seps: seq<string>, size: int, overlap: int) returns (chunks: seq<string>)
    requires SplitEnds(text, seps, size, overlap)
    ensures chunks == Chunks(text, seps, size, overlap)
    decreases |seps|, 1, 0
  {
    if |text| <= size {
      return if Trim(text) == "" then [] else [text];
    }
    var chosen := Chosen(text, seps);
    if chosen.None? {
      chunks := SplitBySize(text, size, overlap);
      return;
    }
    var at := chosen.value;
    var pieces := Pieces(text, seps[at]);
    var current := "";
    chunks := [];
    ghost var all := Merged(pieces, "", seps, at, size, overlap);
    assert pieces[0..] == pieces;
    for i := 0 to |pieces|
      invariant MergeEnds(pieces[i..], current, seps, at, size, overlap)
      invariant chunks + Merged(pieces[i..], current, seps, at, size, overlap) == all
    {
      MergedStep(chunks, pieces, i, current, seps, at, size, overlap);
      var sub, next := AddPiece(current, pieces[i], seps, at, size, overlap);
      chunks, current := chunks + sub, next;
    }
    if Trim(current) != "" {
      var sub := EmitChunk(current, seps, at, size, overlap);
      chunks := chunks + sub;
    }
  }

  /**
   The body of the merge loop: the piece is added, or the chunk is full and emitted, or the piece alone is too long.
   */
  method AddPiece(current: string, piece: string, seps: seq<string>, at: nat, size: int, overlap: int)
    returns (chunks: seq<string>, next: string)
    requires at < |seps| && StepEnds(current, piece, seps, at, size, overlap)
    ensures chunks == EmittedBefore(current, piece, seps, at, size, overlap)
    ensures next == NextCurrent(current, seps[at], piece, size, overlap)
    decreases |seps|, 0, 1
  {
    if |Grown(current, seps[at], piece)| <= size {
      chunks, next := [], Grown(current, seps[at], piece);
    } else if current != "" {
      chunks := EmitChunk(current, seps, at, size, overlap);
      next := Grown(GetOverlap(current, overlap), seps[at], piece);
    } else {
      chunks := RecursiveSplit(piece, seps[at + 1..], size, overlap);
      next := "";
    }
  }

  /** A chunk that came out too long goes through the later separators before it is kept. */
  method EmitChunk(current: string, seps: seq<string>, at: nat, size: int, overlap: int) returns (chunks: seq<string>)
    requires at < |seps| && EmitEnds(current, seps, at, size, overlap)
    ensures chunks == Emitted(current, seps, at, size, overlap)
    decreases |seps|, 0, 0
  {
    if |current| > size && at < |seps| - 1 {
      chunks := RecursiveSplit(current, seps[at + 1..], size, overlap);
    } else {
      chunks := [current];
    }
  }

  function TotalLength(parts: seq<string>): nat {
    if parts == [] then 0 else TotalLength(parts[..|parts| - 1]) + |parts[|parts| - 1]|
  }

  /** The approximate offset: the lengths of the chunks before this one. */
  method FindCharOffset(index: nat, chunks: seq<string>) returns (offset: nat)
    requires index <= |chunks|
    ensures offset == TotalLength(chunks[..index])
  {
    offset := 0;
    for i := 0 to index
      invariant offset == TotalLength(chunks[..i])
    {
      assert chunks[..i + 1][..i] == chunks[..i];
      offset := offset + |chunks[i]|;
    }
  }

  function SeparatorsOf(config: Config): seq<string> {
    match config.separators case Some(s) => s case None => DEFAULT_SEPARATORS
  }

  /** The service's split of this text ends. */
  predicate TextEnds(text: string, config: Config) {
    Trim(text) == "" || SplitEnds(text, SeparatorsOf(config), config.chunkSize, config.chunkOverlap)
  }

  predicate PagesEnd(pages: seq<Page>, config: Config) {
    forall i :: 0 <= i < |pages| ==> TextEnds(pages[i].content, config)
  }

  /** The chunks of a text before they are trimmed. */
  function RawChunks(text: string, config: Config): seq<string>
    requires TextEnds(text, config)
  {
    if Trim(text) == "" then [] else Chunks(text, SeparatorsOf(config), config.chunkSize, config.chunkOverlap)
  }

  function TextChunks(text: string, config: Config): seq<Chunk>
    requires TextEnds(text, config)
  {
    Numbered(RawChunks(text, config))
  }

  /** Each chunk trimmed, with its position and its approximate offset. */
  function Numbered(raw: seq<string>): seq<Chunk> {
    seq(|raw|, i requires 0 <= i < |raw| => Chunk(Trim(raw[i]), i, TotalLength(raw[..i])))
  }

  method NumberChunks(raw: seq<string>) returns (chunks: seq<Chunk>)
    ensures chunks == Numbered(raw)
  {
    chunks := [];
    for i := 0 to |raw|
      invariant chunks == Numbered(raw)[..i]
    {
      var offset := FindCharOffset(i, raw);
      chunks := chunks + [Chunk(Trim(raw[i]), i, offset)];
    }
  }

  method SplitText(text: string, config: Config) returns (chunks: seq<Chunk>)
    requires TextEnds(text, config)
    ensures chunks == TextChunks(text, config)
  {
    if Trim(text) == "" {
      return [];
    }
    var raw := RecursiveSplit(text, SeparatorsOf(config), config.chunkSize, config.chunkOverlap);
    chunks := NumberChunks(raw);
  }

  function TotalPageLength(pages: seq<Page>): nat {
    if pages == [] then 0 else TotalPageLength(pages[..|pages| - 1]) + |pages[|pages| - 1].content| + 1
  }

  /** A page's chunks, renumbered from `index` and shifted by `offset`. */
  function Placed(own: seq<Chunk>, index: nat, offset: nat, pageNumber: int): seq<PageChunk> {
    seq(|own|, i requires 0 <= i < |own| =>
      PageChunk(Chunk(own[i].content, index + i, offset + own[i].charOffset), pageNumber))
  }

  function PageChunks(pages: seq<Page>, config: Config): seq<PageChunk>
    requires PagesEnd(pages, config)
  {
    if pages == [] then [] else
      var earlier, page := pages[..|pages| - 1], pages[|pages| - 1];
      assert PagesEnd(earlier, config);
      var before := PageChunks(earlier, config);
      before + Placed(TextChunks(page.content, config), |before|, TotalPageLength(earlier), page.pageNumber)
  }

  /** The inner loop: push a page's chunks, counting the global index on. */
  method PushPage(before: seq<PageChunk>, own: seq<Chunk>, index: nat, offset: nat, pageNumber: int)
    returns (chunks: seq<PageChunk>, globalIndex: nat)
    ensures chunks == before + Placed(own, index, offset, pageNumber)
    ensures globalIndex == index + |own|
  {
    chunks, globalIndex := before, index;
    ghost var placed := Placed(own, index, offset, pageNumber);
    for i := 0 to |own|
      invariant globalIndex == index + i
      invariant chunks == before + placed[..i]
    {
      chunks := chunks + [PageChunk(Chunk(own[i].content, globalIndex, offset + own[i].charOffset), pageNumber)];
      globalIndex := globalIndex + 1;
    }
  }

  method SplitTextWithPages(pages: seq<Page>, config: Config) returns (chunks: seq<PageChunk>)
    requires PagesEnd(pages, config)
    ensures chunks == PageChunks(pages, config)
  {
    chunks := [];
    var globalIndex, globalOffset := 0, 0;
    for p := 0 to |pages|
      invariant globalIndex == |chunks| && globalOffset == TotalPageLength(pages[..p])
      invariant chunks == PageChunks(pages[..p], config)
    {
      assert pages[..p + 1][..p] == pages[..p];
      var own := SplitText(pages[p].content, config);
      chunks, globalIndex := PushPage(chunks, own, globalIndex, globalOffset, pages[p].pageNumber);
      globalOffset := globalOffset + |pages[p].content| + 1;
    }
    assert pages[..|pages|] == pages;
  }
}
