/** When the splitter ends: the fallback's loop, and the recursion over separators, for every size and overlap. */
module ChunkingEnds {
  import opened Wrappers
  import opened Strings
  import opened Chunking

  // ---- the fallback's loop ----

  /** The next start of the window loop, whatever the overlap; nothing when the loop breaks. */
  function NextStart(start: int, length: nat, size: int, overlap: int): Option<int> {
    var next := Min(start + size, length) - overlap;
    if next >= length - overlap then None else Some(next)
  }

  /** From this start the loop is over after at most `turns` turns. */
  predicate StopsWithin(start: int, length: nat, size: int, overlap: int, turns: nat)
    decreases turns
  {
    start >= length ||
    (turns > 0 && match NextStart(start, length, size, overlap)
      case None => true
      case Some(next) => StopsWithin(next, length, size, overlap, turns - 1))
  }

  lemma {:induction false} Stops(start: int, length: nat, size: int, overlap: int) returns (turns: nat)
    requires overlap < size
    ensures StopsWithin(start, length, size, overlap, turns)
    decreases length - start
  {
    if start >= length {
      turns := 0;
    } else {
      match NextStart(start, length, size, overlap)
      case None => turns := 1;
      case Some(next) =>
        var rest := Stops(next, length, size, overlap);
        turns := rest + 1;
    }
  }

  lemma {:induction false} NeverStops(start: int, length: nat, size: int, overlap: int, turns: nat)
    requires start <= 0 && size < length && size <= overlap && length > 0
    ensures !StopsWithin(start, length, size, overlap, turns)
    decreases turns
  {
    if turns > 0 {
      assert NextStart(start, length, size, overlap) == Some(start + size - overlap);
      NeverStops(start + size - overlap, length, size, overlap, turns - 1);
    }
  }

  ghost predicate LoopEnds(length: nat, size: int, overlap: int) {
    exists turns :: StopsWithin(0, length, size, overlap, turns)
  }

  lemma LoopEndsWithin(length: nat, size: int, overlap: int, turns: nat)
    requires StopsWithin(0, length, size, overlap, turns)
    ensures LoopEnds(length, size, overlap)
  {
  }

  /**
   For every size and overlap the loop ends exactly when the overlap is smaller than the size or one window is enough.
   */
  lemma FallbackEndsExactly(length: nat, size: int, overlap: int)
    ensures LoopEnds(length, size, overlap) <==> WindowsEnd(length, size, overlap)
  {
    if length == 0 || length <= size {
      LoopEndsWithin(length, size, overlap, 1);
    } else if overlap < size {
      var turns := Stops(0, length, size, overlap);
      LoopEndsWithin(length, size, overlap, turns);
    } else {
      forall turns: nat ensures !StopsWithin(0, length, size, overlap, turns) {
        NeverStops(0, length, size, overlap, turns);
      }
    }
  }

  // ---- the recursion ----

  /** At the level of characters every piece is one. */
  predicate PiecesFit(pieces: seq<string>, sep: string) {
    sep == "" ==> forall p :: p in pieces ==> |p| == 1
  }

  lemma TerminatesLater(seps: seq<string>, at: nat, size: int, overlap: int)
    requires Terminates(seps, size, overlap) && at < |seps| - 1
    ensures Terminates(seps[at + 1..], size, overlap)
  {
  }

  lemma {:induction false} AlwaysEnds(text: string, seps: seq<string>, size: int, overlap: int)
    requires Terminates(seps, size, overlap)
    ensures SplitEnds(text, seps, size, overlap)
    decreases |seps|, 2, 0
  {
    match Chosen(text, seps)
    case None => assert seps != [] ==> seps[|seps| - 1] != "";
    case Some(at) =>
      PiecesOfCharacters(text, seps);
      MergeAlwaysEnds(Pieces(text, seps[at]), "", seps, at, size, overlap);
  }

  lemma {:induction false} MergeAlwaysEnds(pieces: seq<string>, current: string, seps: seq<string>, at: nat, size: int,
    overlap: int)
    requires Terminates(seps, size, overlap) && at < |seps| && PiecesFit(pieces, seps[at])
    ensures MergeEnds(pieces, current, seps, at, size, overlap)
    decreases |seps|, 1, |pieces|
  {
    if pieces == [] {
      EmitAlwaysEnds(current, seps, at, size, overlap);
    } else {
      assert pieces[0] in pieces;
      if current != "" {
        EmitAlwaysEnds(current, seps, at, size, overlap);
      } else if |Grown(current, seps[at], pieces[0])| > size {
        PieceAlwaysEnds(pieces[0], seps, at, size, overlap);
      }
      MergeAlwaysEnds(pieces[1..], NextCurrent(current, seps[at], pieces[0], size, overlap), seps, at, size, overlap);
    }
  }

  lemma {:induction false} PieceAlwaysEnds(piece: string, seps: seq<string>, at: nat, size: int, overlap: int)
    requires Terminates(seps, size, overlap) && at < |seps| && |piece| > size && (seps[at] == "" ==> |piece| == 1)
    ensures SplitEnds(piece, seps[at + 1..], size, overlap)
    decreases |seps|, 0, 1
  {
    if at < |seps| - 1 { TerminatesLater(seps, at, size, overlap); }
    AlwaysEnds(piece, seps[at + 1..], size, overlap);
  }

  lemma {:induction false} EmitAlwaysEnds(current: string, seps: seq<string>, at: nat, size: int, overlap: int)
    requires Terminates(seps, size, overlap) && at < |seps|
    ensures EmitEnds(current, seps, at, size, overlap)
    decreases |seps|, 0, 0
  {
    if at < |seps| - 1 {
      TerminatesLater(seps, at, size, overlap);
      AlwaysEnds(current, seps[at + 1..], size, overlap);
    }
  }

  // ---- a text on which it does not end ----

  function Repeated(c: char, n: nat): string {
    seq(n, _ => c)
  }

  /** The character is no white space and in no separator. */
  predicate IsForeign(c: char, seps: seq<string>) {
    !IsSpace(c) && forall i :: 0 <= i < |seps| ==> c !in seps[i]
  }

  lemma ForeignIsNotFound(c: char, n: nat, sep: string)
    requires c !in sep && sep != ""
    ensures Find(Repeated(c, n), sep).None?
  {
    var text := Repeated(c, n);
    forall i: nat ensures !OccursAt(text, sep, i) {
      assert i + |sep| <= |text| ==> text[i..i + |sep|][0] == c != sep[0];
    }
  }

  lemma ForeignIsNotBlank(c: char, n: nat)
    requires !IsSpace(c) && n > 0
    ensures Trim(Repeated(c, n)) == Repeated(c, n)
  {
    var text := Repeated(c, n);
    assert text[0] == c && text[|text| - 1] == c;
  }

  lemma RepeatedSteps(c: char, n: nat)
    ensures Repeated(c, n) + [c] == Repeated(c, n + 1)
    ensures |Chars(Repeated(c, n + 1))| == n + 1 && Chars(Repeated(c, n + 1))[0] == [c]
    ensures Chars(Repeated(c, n + 1))[1..] == Chars(Repeated(c, n))
  {
    var all, tail := Chars(Repeated(c, n + 1)), Chars(Repeated(c, n));
    assert forall k :: 0 <= k < n ==> all[1..][k] == [c] == tail[k];
  }

  /**
   With a whole-chunk overlap, merging the characters of an overlong text emits an overlong chunk, which does not end.
   */
  lemma {:induction false} MergeGetsStuck(c: char, filled: nat, left: nat, seps: seq<string>, at: nat, size: int,
    overlap: int)
    requires size >= 1 && overlap >= size && at < |seps| - 1 && seps[at] == "" && !IsSpace(c)
    requires filled <= size + 1 && filled + left > size
    requires !SplitEnds(Repeated(c, size + 1), seps[at + 1..], size, overlap)
    ensures !MergeEnds(Chars(Repeated(c, left)), Repeated(c, filled), seps, at, size, overlap)
    decreases left
  {
    var current, pieces := Repeated(c, filled), Chars(Repeated(c, left));
    if left == 0 {
      ForeignIsNotBlank(c, filled);
    } else if filled <= size {
      RepeatedSteps(c, left - 1);
      RepeatedSteps(c, filled);
      assert NextCurrent(current, "", [c], size, overlap) == Repeated(c, filled + 1);
      MergeGetsStuck(c, filled + 1, left - 1, seps, at, size, overlap);
    } else {
      assert !EmitEnds(current, seps, at, size, overlap);
      assert !StepEnds(current, pieces[0], seps, at, size, overlap);
    }
  }

  lemma ForeignLater(c: char, seps: seq<string>, at: nat)
    requires at < |seps| && seps[at] == "" && !EndsInCharacters(seps) && IsForeign(c, seps)
    ensures at < |seps| - 1 && !EndsInCharacters(seps[at + 1..]) && IsForeign(c, seps[at + 1..])
  {
  }

  lemma FallbackGetsStuck(text: string, seps: seq<string>, size: int, overlap: int)
    requires size >= 1 && overlap >= size && |text| > size && Chosen(text, seps).None?
    ensures !SplitEnds(text, seps, size, overlap)
  {
  }

  lemma OnlyCharactersChosen(c: char, n: nat, seps: seq<string>)
    requires IsForeign(c, seps) && Chosen(Repeated(c, n), seps).Some?
    ensures seps[Chosen(Repeated(c, n), seps).value] == ""
  {
    var at := Chosen(Repeated(c, n), seps).value;
    if seps[at] != "" { ForeignIsNotFound(c, n, seps[at]); }
  }

  /** From this level of the separators on, an overlong text of the one character does not end. */
  ghost predicate IsStuck(c: char, seps: seq<string>, size: int, overlap: int)
    requires size >= 0
  {
    !SplitEnds(Repeated(c, size + 1), seps, size, overlap)
  }

  lemma CharactersGetStuck(c: char, text: string, seps: seq<string>, at: nat, later: seq<string>, size: int,
    overlap: int)
    requires size >= 1 && overlap >= size && at < |seps| - 1 && seps[at] == "" && !IsSpace(c)
    requires text == Repeated(c, size + 1) && Chosen(text, seps) == Some(at) && later == seps[at + 1..]
    requires IsStuck(c, later, size, overlap)
    ensures IsStuck(c, seps, size, overlap)
  {
    assert Repeated(c, 0) == "";
    MergeGetsStuck(c, 0, size + 1, seps, at, size, overlap);
  }

  lemma {:induction false} SplitGetsStuck(c: char, text: string, seps: seq<string>, size: int, overlap: int)
    requires size >= 1 && overlap >= size && !EndsInCharacters(seps) && IsForeign(c, seps)
      && text == Repeated(c, size + 1)
    ensures IsStuck(c, seps, size, overlap)
    decreases |seps|
  {
    if Chosen(text, seps).None? {
      FallbackGetsStuck(text, seps, size, overlap);
    } else {
      OnlyCharactersChosen(c, size + 1, seps);
      var at := Chosen(text, seps).value;
      var later := seps[at + 1..];
      ForeignLater(c, seps, at);
      SplitGetsStuck(c, text, later, size, overlap);
      CharactersGetStuck(c, text, seps, at, later, size, overlap);
    }
  }

  lemma OneCharacter(c: char)
    ensures Repeated(c, 1) == [c] && Chars([c]) == [[c]]
  {
  }

  lemma LaterSeparators(c: char, seps: seq<string>, at: nat)
    requires at < |seps| && IsForeign(c, seps)
    ensures IsForeign(c, seps[at + 1..])
  {
  }

  /** With a size below one, a single character is too long for every chunk, and ends up in a loop that does not end. */
  lemma {:induction false} CharacterGetsStuck(c: char, seps: seq<string>, size: int, overlap: int)
    requires size < 1 && overlap >= size && IsForeign(c, seps)
    ensures !SplitEnds([c], seps, size, overlap)
    decreases |seps|
  {
    OneCharacter(c);
    if Chosen([c], seps).Some? {
      OnlyCharactersChosen(c, 1, seps);
      var at := Chosen([c], seps).value;
      LaterSeparators(c, seps, at);
      CharacterGetsStuck(c, seps[at + 1..], size, overlap);
      assert !StepEnds("", [c], seps, at, size, overlap);
    }
  }

  ghost predicate AllTextsEnd(seps: seq<string>, size: int, overlap: int) {
    forall text :: SplitEnds(text, seps, size, overlap)
  }

  lemma OneTextDoesNot(text: string, seps: seq<string>, size: int, overlap: int)
    requires !SplitEnds(text, seps, size, overlap)
    ensures !AllTextsEnd(seps, size, overlap)
  {
  }

  /**
   Given a character foreign to the separators, every text's split ends exactly when the overlap is smaller than the
   size, or the size is at least one and the separators end in the empty one.
   */
  lemma EndsOnEveryTextExactly(seps: seq<string>, size: int, overlap: int, c: char)
    requires IsForeign(c, seps)
    ensures AllTextsEnd(seps, size, overlap) <==> Terminates(seps, size, overlap)
  {
    if Terminates(seps, size, overlap) {
      forall text ensures SplitEnds(text, seps, size, overlap) { AlwaysEnds(text, seps, size, overlap); }
    } else if size < 1 {
      CharacterGetsStuck(c, seps, size, overlap);
      OneTextDoesNot([c], seps, size, overlap);
    } else {
      SplitGetsStuck(c, Repeated(c, size + 1), seps, size, overlap);
      OneTextDoesNot(Repeated(c, size + 1), seps, size, overlap);
    }
  }
}
