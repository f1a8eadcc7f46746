/** Text as a sequence of characters: splitting, joining, trimming and decimal printing. */
module Strings {
  import opened Wrappers

  /** The white space that JavaScript's `trim` and `\s` recognise. */
  predicate IsSpace(c: char) {
    var n := c as int;
    9 <= n <= 13 || n == 32 || n == 0xA0 || n == 0x1680 || 0x2000 <= n <= 0x200A
    || n == 0x2028 || n == 0x2029 || n == 0x202F || n == 0x205F || n == 0x3000 || n == 0xFEFF
  }

  function TrimStart(s: string): (r: string) {
    if s != "" && IsSpace(s[0]) then TrimStart(s[1..]) else s
  }

  function TrimEnd(s: string): (r: string) {
    if s != "" && IsSpace(s[|s| - 1]) then TrimEnd(s[..|s| - 1]) else s
  }

  function Trim(s: string): string {
    TrimEnd(TrimStart(s))
  }

  /** `needle` occurs in `s` at position `i`. */
  predicate OccursAt(s: string, needle: string, i: nat) {
    i + |needle| <= |s| && s[i..i + |needle|] == needle
  }

  /** The first position at or after `from` where `needle` occurs. */
  function FindFrom(s: string, needle: string, from: nat): (r: Option<nat>)
    ensures r.Some? ==> from <= r.value && OccursAt(s, needle, r.value)
    ensures r.Some? ==> forall i :: from <= i < r.value ==> !OccursAt(s, needle, i)
    ensures r.None? ==> forall i :: from <= i ==> !OccursAt(s, needle, i)
    decreases |s| - from
  {
    if |s| < from then None
    else if OccursAt(s, needle, from) then Some(from)
    else if from == |s| then None
    else FindFrom(s, needle, from + 1)
  }

  function Find(s: string, needle: string): Option<nat> {
    FindFrom(s, needle, 0)
  }

  /** A needle whose first character the text lacks is not found. */
  lemma NotFound(text: string, needle: string)
    requires needle != "" && needle[0] !in text
    ensures Find(text, needle).None?
  {
  }

  /** JavaScript's `s.split(sep)` for a non-empty separator. */
  function Split(s: string, sep: string): (r: seq<string>)
    requires sep != ""
    ensures r != []
    decreases |s|
  {
    match Find(s, sep)
    case None => [s]
    case Some(i) => [s[..i]] + Split(s[i + |sep|..], sep)
  }

  /** JavaScript's `parts.join(sep)`. */
  function Join(parts: seq<string>, sep: string): string {
    if parts == [] then ""
    else if |parts| == 1 then parts[0]
    else parts[0] + sep + Join(parts[1..], sep)
  }

  lemma {:induction false} JoinSplit(s: string, sep: string)
    requires sep != ""
    ensures Join(Split(s, sep), sep) == s
    decreases |s|
  {
    match Find(s, sep)
    case None =>
    case Some(i) =>
      var rest := s[i + |sep|..];
      JoinSplit(rest, sep);
      var tail := Split(rest, sep);
      assert ([s[..i]] + tail)[1..] == tail;
      assert s == s[..i] + sep + rest;
  }

  /** Appending one part to a join. */
  lemma {:induction false} JoinSnoc(parts: seq<string>, last: string, sep: string)
    ensures Join(parts + [last], sep) == if parts == [] then last else Join(parts, sep) + sep + last
  {
    if |parts| == 1 {
      assert parts + [last] == [parts[0], last];
    } else if |parts| > 1 {
      assert (parts + [last])[1..] == parts[1..] + [last];
      JoinSnoc(parts[1..], last, sep);
      assert Join(parts + [last], sep) == parts[0] + sep + (Join(parts[1..], sep) + sep + last);
    } else {
      assert parts + [last] == [last];
    }
  }

  /** Decimal printing of a natural number. */
  function Decimal(n: nat): (r: string)
    ensures r != ""
  {
    var digit := ['0' + (n % 10) as char];
    if n < 10 then digit else Decimal(n / 10) + digit
  }

  lemma {:induction false} DecimalInjective(m: nat, n: nat)
    requires Decimal(m) == Decimal(n)
    ensures m == n
    decreases m
  {
    var a, b := Decimal(m), Decimal(n);
    assert a[|a| - 1] == '0' + (m % 10) as char && b[|b| - 1] == '0' + (n % 10) as char;
    assert m % 10 == n % 10;
    if m >= 10 && n >= 10 {
      assert a[..|a| - 1] == Decimal(m / 10) && b[..|b| - 1] == Decimal(n / 10);
      DecimalInjective(m / 10, n / 10);
    }
  }

  // ---- what these functions are, without their own words ----

  /** JavaScript's white space and line terminators, one by one. */
  lemma SpaceExactly(c: char)
    ensures IsSpace(c) <==> c as int in {
      9, 10, 11, 12, 13, 0x20, 0xA0, 0x1680, 0x2000, 0x2001, 0x2002, 0x2003, 0x2004, 0x2005, 0x2006, 0x2007, 0x2008,
      0x2009, 0x200A, 0x2028, 0x2029, 0x202F, 0x205F, 0x3000, 0xFEFF}
  {
  }

  predicate AllSpace(s: string) {
    forall i :: 0 <= i < |s| ==> IsSpace(s[i])
  }

  lemma {:induction false} TrimStartExactly(s: string) returns (front: string)
    ensures s == front + TrimStart(s) && AllSpace(front)
    ensures TrimStart(s) == "" || !IsSpace(TrimStart(s)[0])
  {
    if s != "" && IsSpace(s[0]) {
      var rest := TrimStartExactly(s[1..]);
      front := [s[0]] + rest;
    } else {
      front := "";
    }
  }

  lemma {:induction false} TrimEndExactly(s: string) returns (back: string)
    ensures s == TrimEnd(s) + back && AllSpace(back)
    ensures TrimEnd(s) == "" || !IsSpace(TrimEnd(s)[|TrimEnd(s)| - 1])
  {
    if s != "" && IsSpace(s[|s| - 1]) {
      var rest := TrimEndExactly(s[..|s| - 1]);
      back := rest + [s[|s| - 1]];
    } else {
      back := "";
    }
  }

  /** Trimming takes the white space off both ends, and nothing else. */
  lemma TrimExactly(s: string) returns (front: string, back: string)
    ensures s == front + Trim(s) + back && AllSpace(front) && AllSpace(back)
    ensures Trim(s) == "" || (!IsSpace(Trim(s)[0]) && !IsSpace(Trim(s)[|Trim(s)| - 1]))
  {
    front := TrimStartExactly(s);
    back := TrimEndExactly(TrimStart(s));
  }

  lemma {:induction false} SplitHead(head: string, sep: char, tail: string)
    requires sep !in head
    ensures Split(head + [sep] + tail, [sep]) == [head] + Split(tail, [sep])
  {
    var s := head + [sep] + tail;
    assert OccursAt(s, [sep], |head|);
    var i := Find(s, [sep]).value;
    assert s[i..i + 1][0] == s[i] == sep;
    assert s[..|head|] == head && s[|head| + 1..] == tail;
  }

  /** Splitting a join at its one-character separator gives the parts back. */
  lemma {:induction false} SplitJoin(parts: seq<string>, sep: char)
    requires parts != [] && forall i :: 0 <= i < |parts| ==> sep !in parts[i]
    ensures Split(Join(parts, [sep]), [sep]) == parts
  {
    if |parts| == 1 {
      NotFound(parts[0], [sep]);
    } else {
      var rest := parts[1..];
      SplitJoin(rest, sep);
      SplitHead(parts[0], sep, Join(rest, [sep]));
      assert Join(parts, [sep]) == parts[0] + [sep] + Join(rest, [sep]);
      assert parts == [parts[0]] + rest;
    }
  }

  /** No part of a split holds the separator, and every part but the last ends where the separator first occurs. */
  lemma {:induction false} SplitIsLeftmost(s: string, sep: string, i: nat)
    requires sep != "" && i < |Split(s, sep)|
    ensures Find(Split(s, sep)[i], sep).None?
    ensures i < |Split(s, sep)| - 1 ==> Find(Join(Split(s, sep)[i..], sep), sep) == Some(|Split(s, sep)[i]|)
    decreases |s|
  {
    match Find(s, sep)
    case None => assert Split(s, sep) == [s];
    case Some(at) =>
      var rest := s[at + |sep|..];
      var parts, tail := Split(s, sep), Split(rest, sep);
      assert parts == [s[..at]] + tail;
      if i == 0 {
        JoinSplit(s, sep);
        assert parts[0..] == parts;
        FoundLater(s, sep, at);
      } else {
        assert parts[i..] == tail[i - 1..];
        SplitIsLeftmost(rest, sep, i - 1);
      }
  }

  /** What stands before the first occurrence does not hold the needle. */
  lemma FoundLater(s: string, needle: string, at: nat)
    requires needle != "" && Find(s, needle) == Some(at)
    ensures Find(s[..at], needle).None?
  {
    var front := s[..at];
    if Find(front, needle).Some? {
      var i := Find(front, needle).value;
      assert front[i..i + |needle|] == s[i..i + |needle|];
      assert OccursAt(s, needle, i);
    }
  }

  /** The number a row of decimal digits stands for. */
  function Digits(s: string): int {
    if s == "" then 0 else 10 * Digits(s[..|s| - 1]) + (s[|s| - 1] as int - '0' as int)
  }

  /** The decimal form is a row of digits without a leading zero that stands for the number. */
  lemma {:induction false} DecimalExactly(n: nat)
    ensures Digits(Decimal(n)) == n
    ensures forall i :: 0 <= i < |Decimal(n)| ==> '0' <= Decimal(n)[i] <= '9'
    ensures n > 0 ==> Decimal(n)[0] != '0'
  {
    var d := Decimal(n);
    if n >= 10 {
      DecimalExactly(n / 10);
      assert d[..|d| - 1] == Decimal(n / 10);
    } else {
      assert d[..|d| - 1] == "";
    }
  }

  /** The names that every JavaScript object inherits: looked up in any table they give something. */
  predicate IsInherited(word: string) {
    word in {"constructor", "__defineGetter__", "__defineSetter__", "hasOwnProperty", "__lookupGetter__",
      "__lookupSetter__", "isPrototypeOf", "propertyIsEnumerable", "toString", "valueOf", "__proto__", "toLocaleString"}
  }
}
