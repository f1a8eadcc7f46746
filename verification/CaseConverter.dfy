/**
 Deep conversion of object keys between snake_case and camelCase, and exactly when the two conversions undo each other.
 */
module CaseConverter {
  /** A JSON value; an object is its own fields in their order. */
  datatype Value =
    | Null
    | Bool(b: bool)
    | Number(n: real)
    | Text(s: string)
    | List(items: seq<Value>)
    | Object(fields: seq<Field>)

  datatype Field = Field(key: string, value: Value)

  datatype Case = Camel | Snake

  // ---- keys ----

  predicate IsLower(c: char) { 'a' <= c <= 'z' }

  predicate IsUpper(c: char) { 'A' <= c <= 'Z' }

  function Upper(c: char): (r: char)
    requires IsLower(c)
    ensures IsUpper(r)
  {
    c - ('a' - 'A')
  }

  function Lower(c: char): (r: char)
    requires IsUpper(c)
    ensures IsLower(r) && Upper(r) == c
  {
    c + ('a' - 'A')
  }

  /** The key starts with an underscore and a small letter. */
  predicate SnakeAt(key: string) {
    |key| >= 2 && key[0] == '_' && IsLower(key[1])
  }

  /** Each underscore before a small letter goes, and the letter turns capital; matches are taken from the left. */
  function CamelKey(key: string): string {
    if key == "" then ""
    else if SnakeAt(key) then [Upper(key[1])] + CamelKey(key[2..])
    else [key[0]] + CamelKey(key[1..])
  }

  /** Each capital letter turns into an underscore and the small letter. */
  function SnakeKey(key: string): string {
    if key == "" then ""
    else if IsUpper(key[0]) then ['_', Lower(key[0])] + SnakeKey(key[1..])
    else [key[0]] + SnakeKey(key[1..])
  }

  function ConvertKey(to: Case, key: string): string {
    match to case Camel => CamelKey(key) case Snake => SnakeKey(key)
  }

  predicate NoCapitals(key: string) {
    forall i :: 0 <= i < |key| ==> !IsUpper(key[i])
  }

  predicate NoSnakes(key: string) {
    forall i :: 0 <= i < |key| ==> !SnakeAt(key[i..])
  }

  /** A key that could have come out of the conversion the other way. */
  predicate Pure(to: Case, key: string) {
    match to case Camel => NoCapitals(key) case Snake => NoSnakes(key)
  }

  function Other(to: Case): Case {
    match to case Camel => Snake case Snake => Camel
  }

  lemma {:induction false} SnakeUndoesCamel(key: string)
    requires NoCapitals(key)
    ensures SnakeKey(CamelKey(key)) == key
  {
    if key != "" {
      var n := if SnakeAt(key) then 2 else 1;
      SnakeUndoesCamel(key[n..]);
      var tail := CamelKey(key[n..]);
      var head := if SnakeAt(key) then Upper(key[1]) else key[0];
      assert CamelKey(key) == [head] + tail;
      assert ([head] + tail)[1..] == tail;
      if SnakeAt(key) {
        assert Upper(Lower(head)) == head && Lower(head) == key[1];
        assert key == ['_', key[1]] + key[2..];
      } else {
        assert !IsUpper(key[0]) && key == [key[0]] + key[1..];
      }
    }
  }

  lemma NoSnakesTail(key: string)
    requires key != "" && NoSnakes(key)
    ensures NoSnakes(key[1..]) && !SnakeAt(key)
  {
    assert key[0..] == key;
    forall i | 0 <= i < |key| - 1 ensures !SnakeAt(key[1..][i..]) { assert key[1..][i..] == key[i + 1..]; }
  }

  lemma CamelKeySteps(c: char, rest: string)
    ensures c != '_' || rest == "" || !IsLower(rest[0]) ==> CamelKey([c] + rest) == [c] + CamelKey(rest)
    ensures c == '_' && rest != "" && IsLower(rest[0]) ==>
      CamelKey([c] + rest) == [Upper(rest[0])] + CamelKey(rest[1..])
  {
    var key := [c] + rest;
    assert key[1..] == rest;
    if rest != "" { assert key[2..] == rest[1..]; }
  }

  lemma SnakeStartsSo(key: string)
    requires key != ""
    ensures SnakeKey(key) != "" && (IsLower(SnakeKey(key)[0]) ==> SnakeKey(key)[0] == key[0])
  {
  }

  lemma CapitalComesBack(c: char, tail: string, key: string)
    requires IsUpper(c) && key == CamelKey(tail)
    ensures CamelKey(['_', Lower(c)] + tail) == [c] + key
  {
    var rest := [Lower(c)] + tail;
    assert ['_', Lower(c)] + tail == ['_'] + rest && rest[1..] == tail;
    CamelKeySteps('_', rest);
  }

  lemma {:induction false} CamelUndoesSnake(key: string)
    requires NoSnakes(key)
    ensures CamelKey(SnakeKey(key)) == key
  {
    if key != "" {
      NoSnakesTail(key);
      CamelUndoesSnake(key[1..]);
      var c, tail := key[0], SnakeKey(key[1..]);
      assert key == [c] + key[1..];
      if IsUpper(c) {
        CapitalComesBack(c, tail, key[1..]);
      } else {
        if key[1..] != "" { SnakeStartsSo(key[1..]); }
        CamelKeySteps(c, tail);
      }
    }
  }

  /** Converting back is exact on the keys that have no mark of the target case. */
  lemma KeyRoundTrip(to: Case, key: string)
    requires Pure(to, key)
    ensures ConvertKey(Other(to), ConvertKey(to, key)) == key
  {
    match to
    case Camel => SnakeUndoesCamel(key);
    case Snake => CamelUndoesSnake(key);
  }

  lemma {:induction false} CamelLeavesNoSnake(key: string)
    ensures NoSnakes(CamelKey(key))
    ensures key != "" && !SnakeAt(key) ==> CamelKey(key)[0] == key[0]
    ensures CamelKey(key) != "" && IsLower(CamelKey(key)[0]) ==> CamelKey(key)[0] == key[0]
  {
    if key != "" {
      var n := if SnakeAt(key) then 2 else 1;
      CamelLeavesNoSnake(key[n..]);
      var out, tail := CamelKey(key), CamelKey(key[n..]);
      assert out[1..] == tail;
      forall i | 0 <= i < |out| ensures !SnakeAt(out[i..]) {
        if i > 0 { assert out[i..] == tail[i - 1..]; }
      }
    }
  }

  // ---- objects ----

  const PROTO := "__proto__"

  /**
   * Assigning a key: its field is replaced or added last. Assigning `__proto__` sets the object's prototype instead, so
   * the object gets no field of that name.
   */
  function Assign(fields: seq<Field>, field: Field): seq<Field> {
    if field.key == PROTO then fields
    else var i := IndexOf(fields, field.key); if i < |fields| then fields[i := field] else fields + [field]
  }

  function IndexOf(fields: seq<Field>, key: string): (i: nat)
    ensures i <= |fields| && (i < |fields| ==> fields[i].key == key)
    ensures forall j :: 0 <= j < i ==> fields[j].key != key
  {
    if fields == [] then 0 else
      var before := IndexOf(fields[..|fields| - 1], key);
      if before < |fields| - 1 || fields[|fields| - 1].key == key then before else |fields|
  }

  function Assemble(fields: seq<Field>): seq<Field> {
    if fields == [] then [] else Assign(Assemble(fields[..|fields| - 1]), fields[|fields| - 1])
  }

  function Convert(to: Case, v: Value): Value
    decreases v, 1
  {
    match v
    case List(_) => List(ConvertItems(to, v))
    case Object(_) => Object(Assemble(ConvertFields(to, v)))
    case _ => v
  }

  function ConvertItems(to: Case, v: Value): seq<Value>
    requires v.List?
    decreases v, 0
  {
    seq(|v.items|, i requires 0 <= i < |v.items| => Convert(to, v.items[i]))
  }

  function ConvertFields(to: Case, v: Value): seq<Field>
    requires v.Object?
    decreases v, 0
  {
    seq(|v.fields|, i requires 0 <= i < |v.fields| =>
      Field(ConvertKey(to, v.fields[i].key), Convert(to, v.fields[i].value)))
  }

  method SnakeToCamel(obj: Value) returns (r: Value)
    ensures r == Convert(Camel, obj)
    decreases obj
  {
    match obj
    case List(items) =>
      var mapped: seq<Value> := [];
      for i := 0 to |items|
        invariant mapped == ConvertItems(Camel, obj)[..i]
      {
        var item := SnakeToCamel(items[i]);
        mapped := mapped + [item];
      }
      r := List(mapped);
    case Object(fields) =>
      var camelObj: seq<Field> := [];
      ghost var converted := ConvertFields(Camel, obj);
      for i := 0 to |fields|
        invariant camelObj == Assemble(converted[..i])
      {
        var value := SnakeToCamel(fields[i].value);
        camelObj := Assign(camelObj, Field(CamelKey(fields[i].key), value));
        assert converted[..i + 1][..i] == converted[..i];
      }
      assert converted[..|fields|] == converted;
      r := Object(camelObj);
    case _ => r := obj;
  }

  method CamelToSnake(obj: Value) returns (r: Value)
    ensures r == Convert(Snake, obj)
    decreases obj
  {
    match obj
    case List(items) =>
      var mapped: seq<Value> := [];
      for i := 0 to |items|
        invariant mapped == ConvertItems(Snake, obj)[..i]
      {
        var item := CamelToSnake(items[i]);
        mapped := mapped + [item];
      }
      r := List(mapped);
    case Object(fields) =>
      var snakeObj: seq<Field> := [];
      ghost var converted := ConvertFields(Snake, obj);
      for i := 0 to |fields|
        invariant snakeObj == Assemble(converted[..i])
      {
        var value := CamelToSnake(fields[i].value);
        snakeObj := Assign(snakeObj, Field(SnakeKey(fields[i].key), value));
        assert converted[..i + 1][..i] == converted[..i];
      }
      assert converted[..|fields|] == converted;
      r := Object(snakeObj);
    case _ => r := obj;
  }

  // ---- round trips ----

  predicate DistinctKeys(fields: seq<Field>) {
    forall i, j :: 0 <= i < j < |fields| ==> fields[i].key != fields[j].key
  }

  /** Every object in the value has distinct keys, all pure. */
  predicate AllPure(to: Case, v: Value) {
    match v
    case List(items) => forall i :: 0 <= i < |items| ==> AllPure(to, items[i])
    case Object(fields) =>
      && DistinctKeys(fields)
      && (forall i :: 0 <= i < |fields| ==> Pure(to, fields[i].key) && AllPure(to, fields[i].value))
    case _ => true
  }

  predicate HasKey(v: Value, key: string) {
    match v
    case List(items) => exists i :: 0 <= i < |items| && HasKey(items[i], key)
    case Object(fields) => exists i :: 0 <= i < |fields| && (fields[i].key == key || HasKey(fields[i].value, key))
    case _ => false
  }

  /** The key that is lost on the way there and back. */
  function LostKey(to: Case): string {
    match to case Camel => PROTO case Snake => "_Proto__"
  }

  /** With distinct keys, none of them `__proto__`, the object holds the fields assigned, in order. */
  lemma {:induction false} AssembleAll(fields: seq<Field>)
    requires DistinctKeys(fields) && !Loses(fields, PROTO)
    ensures Assemble(fields) == fields
  {
    if fields != [] {
      var front, last := fields[..|fields| - 1], fields[|fields| - 1];
      assert fields == front + [last];
      AssembleAll(front);
    }
  }

  lemma {:induction false} AssembleNoLonger(fields: seq<Field>)
    ensures |Assemble(fields)| <= |fields|
  {
    if fields != [] { AssembleNoLonger(fields[..|fields| - 1]); }
  }

  lemma {:induction false} AssembleLoses(fields: seq<Field>)
    requires Loses(fields, PROTO)
    ensures |Assemble(fields)| < |fields|
  {
    var front := fields[..|fields| - 1];
    if fields[|fields| - 1].key == PROTO {
      AssembleNoLonger(front);
    } else {
      var i :| 0 <= i < |fields| && fields[i].key == PROTO;
      assert front[i].key == PROTO;
      AssembleLoses(front);
    }
  }

  predicate Loses(fields: seq<Field>, key: string) {
    exists i :: 0 <= i < |fields| && fields[i].key == key
  }

  lemma LostKeyLost(to: Case, key: string)
    requires Pure(to, key)
    ensures to == Camel ==> CamelKey(key) != PROTO
    ensures to == Snake ==> (SnakeKey(key) == PROTO <==> key == LostKey(to))
  {
    var out := ConvertKey(to, key);
    match to
    case Camel =>
      CamelLeavesNoSnake(key);
      assert out == PROTO ==> SnakeAt(out[1..]);
    case Snake =>
      CamelUndoesSnake(key);
      var snake, camel := PROTO, LostKey(Snake);
      if out == snake { ProtoToCamel(out, camel); }
      if key == camel { ProtoToSnake(key, snake); }
  }

  lemma KeysWithStem(stem: string)
    requires NoSnakes(stem) && NoCapitals(stem)
    ensures CamelKey(['_', '_', 'p'] + stem) == ['_', 'P'] + stem
    ensures SnakeKey(['_', 'P'] + stem) == ['_', '_', 'p'] + stem
  {
    CamelFixed(stem);
    SnakeFixed(stem);
    CamelKeySteps('_', ['_', 'p'] + stem);
    CamelKeySteps('_', ['p'] + stem);
    assert ['_', '_', 'p'] + stem == ['_'] + (['_', 'p'] + stem) && ['_', 'p'] + stem == ['_'] + (['p'] + stem);
    assert (['p'] + stem)[1..] == stem;
    SnakeKeySteps('_', ['P'] + stem);
    SnakeKeySteps('P', stem);
    assert ['_', 'P'] + stem == ['_'] + (['P'] + stem);
  }

  lemma StemIsPlain(stem: string)
    requires stem == ['r', 'o', 't', 'o', '_', '_']
    ensures NoSnakes(stem) && NoCapitals(stem)
  {
    forall i | 0 <= i < |stem| ensures !SnakeAt(stem[i..]) {
      if i + 1 < |stem| { assert stem[i..][0] == stem[i] && stem[i..][1] == stem[i + 1]; }
    }
  }

  /** What both keys end in. */
  lemma Stem(snake: string, camel: string) returns (stem: string)
    requires snake == PROTO && camel == LostKey(Snake)
    ensures NoSnakes(stem) && NoCapitals(stem) && snake == ['_', '_', 'p'] + stem && camel == ['_', 'P'] + stem
  {
    stem := camel[2..];
    StemIsPlain(stem);
  }

  /** `__proto__` becomes `_Proto__`. */
  lemma ProtoToCamel(snake: string, camel: string)
    requires snake == PROTO && camel == LostKey(Snake)
    ensures CamelKey(snake) == camel
  {
    var stem := Stem(snake, camel);
    KeysWithStem(stem);
  }

  /** `_Proto__` becomes `__proto__`. */
  lemma ProtoToSnake(camel: string, snake: string)
    requires snake == PROTO && camel == LostKey(Snake)
    ensures SnakeKey(camel) == snake
  {
    var stem := Stem(snake, camel);
    KeysWithStem(stem);
  }

  lemma SnakeKeySteps(c: char, rest: string)
    ensures SnakeKey([c] + rest) == (if IsUpper(c) then ['_', Lower(c)] else [c]) + SnakeKey(rest)
  {
    assert ([c] + rest)[1..] == rest;
  }

  lemma {:induction false} CamelFixed(key: string)
    requires NoSnakes(key)
    ensures CamelKey(key) == key
  {
    if key != "" {
      NoSnakesTail(key);
      CamelFixed(key[1..]);
    }
  }

  lemma {:induction false} SnakeFixed(key: string)
    requires NoCapitals(key)
    ensures SnakeKey(key) == key
  {
    if key != "" { SnakeFixed(key[1..]); }
  }

  lemma ConvertedKeysDistinct(to: Case, v: Value)
    requires v.Object? && AllPure(to, v)
    ensures DistinctKeys(ConvertFields(to, v))
  {
    var fields, converted := v.fields, ConvertFields(to, v);
    forall i, j | 0 <= i < j < |fields| ensures converted[i].key != converted[j].key {
      KeyRoundTrip(to, fields[i].key);
      KeyRoundTrip(to, fields[j].key);
    }
  }

  /** The fields after going there and back, when none was lost on the way there. */
  lemma BackFields(to: Case, v: Value)
    requires v.Object? && AllPure(to, v)
    ensures var back := ConvertFields(Other(to), Object(ConvertFields(to, v)));
      && |back| == |v.fields|
      && (forall i :: 0 <= i < |back| ==>
        back[i] == Field(v.fields[i].key, Convert(Other(to), Convert(to, v.fields[i].value))))
  {
    forall i | 0 <= i < |v.fields| ensures ConvertKey(Other(to), ConvertKey(to, v.fields[i].key)) == v.fields[i].key {
      KeyRoundTrip(to, v.fields[i].key);
    }
  }

  /** The way there loses a field of the object exactly when it is towards snake case and the key is `_Proto__`. */
  lemma LostGoing(to: Case, v: Value)
    requires v.Object? && AllPure(to, v)
    ensures var there := ConvertFields(to, v);
      if to == Snake && Loses(v.fields, LostKey(to)) then |Assemble(there)| < |v.fields| else Assemble(there) == there
  {
    var there := ConvertFields(to, v);
    ConvertedKeysDistinct(to, v);
    forall i | 0 <= i < |there| ensures there[i].key == PROTO <==> to == Snake && v.fields[i].key == LostKey(to) {
      LostKeyLost(to, v.fields[i].key);
    }
    if to == Snake && Loses(v.fields, LostKey(to)) {
      var i :| 0 <= i < |v.fields| && v.fields[i].key == LostKey(to);
      assert there[i].key == PROTO;
      AssembleLoses(there);
    } else {
      AssembleAll(there);
    }
  }

  lemma BackKeeps(to: Case, v: Value, back: seq<Field>)
    requires v.Object? && AllPure(to, v) && |back| == |v.fields|
    requires forall i :: 0 <= i < |back| ==> back[i].key == v.fields[i].key
    requires to == Snake ==> !Loses(v.fields, LostKey(to))
    ensures DistinctKeys(back)
    ensures Loses(back, PROTO) <==> Loses(v.fields, LostKey(to))
  {
    if to == Snake {
      forall i | 0 <= i < |back| ensures back[i].key != PROTO {
        assert Pure(Snake, v.fields[i].key);
        assert SnakeAt(PROTO[1..]);
      }
    } else if Loses(v.fields, PROTO) {
      var i :| 0 <= i < |v.fields| && v.fields[i].key == PROTO;
      assert back[i].key == PROTO;
    }
  }

  /** An object comes back whole exactly when it has no key that is lost and all its values come back. */
  lemma ObjectRoundTrip(to: Case, v: Value)
    requires v.Object? && AllPure(to, v)
    ensures Convert(Other(to), Convert(to, v)) == v <==>
      && !Loses(v.fields, LostKey(to))
      && (forall i :: 0 <= i < |v.fields| ==> Convert(Other(to), Convert(to, v.fields[i].value)) == v.fields[i].value)
  {
    var there := ConvertFields(to, v);
    LostGoing(to, v);
    if to == Snake && Loses(v.fields, LostKey(to)) {
      AssembleNoLonger(ConvertFields(Camel, Object(Assemble(there))));
    } else {
      var back := ConvertFields(Other(to), Object(there));
      BackFields(to, v);
      BackKeeps(to, v, back);
      if Loses(back, PROTO) {
        AssembleLoses(back);
      } else {
        AssembleAll(back);
        assert back == v.fields <==> forall i :: 0 <= i < |back| ==> back[i] == v.fields[i];
      }
    }
  }

  lemma {:induction false} PureRoundTrip(to: Case, v: Value)
    requires AllPure(to, v)
    ensures Convert(Other(to), Convert(to, v)) == v <==> !HasKey(v, LostKey(to))
    decreases v
  {
    match v
    case List(items) =>
      forall i | 0 <= i < |items|
        ensures Convert(Other(to), Convert(to, items[i])) == items[i] <==> !HasKey(items[i], LostKey(to))
      {
        PureRoundTrip(to, items[i]);
      }
      ListRoundTrip(to, v);
    case Object(fields) =>
      forall i | 0 <= i < |fields|
        ensures Convert(Other(to), Convert(to, fields[i].value)) == fields[i].value <==>
          !HasKey(fields[i].value, LostKey(to))
      {
        PureRoundTrip(to, fields[i].value);
      }
      ObjectRoundTrip(to, v);
    case _ =>
  }

  lemma ListRoundTrip(to: Case, v: Value)
    requires v.List?
    ensures Convert(Other(to), Convert(to, v)) == v <==>
      forall i :: 0 <= i < |v.items| ==> Convert(Other(to), Convert(to, v.items[i])) == v.items[i]
  {
    var back := ConvertItems(Other(to), List(ConvertItems(to, v)));
    assert back == v.items <==> forall i :: 0 <= i < |back| ==> back[i] == v.items[i];
  }

  // ---- what comes out of a conversion ----

  lemma AssignFacts(fields: seq<Field>, field: Field)
    requires DistinctKeys(fields)
    ensures DistinctKeys(Assign(fields, field))
    ensures forall f :: f in Assign(fields, field) ==> f in fields || f == field
  {
  }

  lemma {:induction false} AssembleFacts(fields: seq<Field>)
    ensures DistinctKeys(Assemble(fields))
    ensures forall f :: f in Assemble(fields) ==> f in fields
  {
    if fields != [] {
      var front, last := fields[..|fields| - 1], fields[|fields| - 1];
      AssembleFacts(front);
      AssignFacts(Assemble(front), last);
    }
  }

  lemma {:induction false} SnakeLeavesNoCapital(key: string)
    ensures NoCapitals(SnakeKey(key))
  {
    if key != "" { SnakeLeavesNoCapital(key[1..]); }
  }

  lemma KeyOutIsPure(to: Case, key: string)
    ensures Pure(Other(to), ConvertKey(to, key))
  {
    match to
    case Camel => CamelLeavesNoSnake(key);
    case Snake => SnakeLeavesNoCapital(key);
  }

  /** Whatever goes in, what comes out has distinct keys without a mark of the other case. */
  lemma {:induction false} OutputIsPure(to: Case, v: Value)
    ensures AllPure(Other(to), Convert(to, v))
    decreases v
  {
    match v
    case List(items) =>
      forall i | 0 <= i < |items| ensures AllPure(Other(to), Convert(to, items[i])) { OutputIsPure(to, items[i]); }
    case Object(fields) =>
      var converted := ConvertFields(to, v);
      AssembleFacts(converted);
      forall i | 0 <= i < |fields| ensures Pure(Other(to), converted[i].key) && AllPure(Other(to), converted[i].value) {
        OutputIsPure(to, fields[i].value);
        KeyOutIsPure(to, fields[i].key);
      }
      var out := Assemble(converted);
      forall i | 0 <= i < |out| ensures Pure(Other(to), out[i].key) && AllPure(Other(to), out[i].value) {
        assert out[i] in converted;
      }
    case _ =>
  }

  /**
   * For every value: converting it and converting it back gives the value again exactly when its objects have distinct
   * keys without a mark of the target case and none is the lost key, `__proto__` on the way over camel case and
   * `_Proto__` on the way over snake case. So no keys collide and no field is lost on any other such value.
   */
  lemma RoundTripExactly(to: Case, v: Value)
    ensures Convert(Other(to), Convert(to, v)) == v <==> AllPure(to, v) && !HasKey(v, LostKey(to))
  {
    OutputIsPure(Other(to), Convert(to, v));
    assert Other(Other(to)) == to;
    if AllPure(to, v) { PureRoundTrip(to, v); }
  }

  /** An object with the one key `__proto__` does not come back. */
  lemma ProtoFieldIsLost(value: Value)
    requires AllPure(Camel, value)
    ensures var v := Object([Field(PROTO, value)]);
      AllPure(Camel, v) && Convert(Snake, Convert(Camel, v)) != v
  {
    var v := Object([Field(PROTO, value)]);
    assert AllPure(Camel, v);
    assert v.fields[0].key == LostKey(Camel);
    assert HasKey(v, LostKey(Camel));
    RoundTripExactly(Camel, v);
  }
}
