/** Feature flags: a rollout bucket from a rolling 32-bit hash, and who is let in as the rollout grows. */
module FeatureFlag {
  import opened Wrappers

  // ---- numbers ----

  const TWO_31 := 0x8000_0000
  const TWO_32 := 0x1_0000_0000
  const MAX_SAFE := 0x1F_FFFF_FFFF_FFFF

  /** The integers that a JavaScript number holds exactly. */
  type Exact = n: int | -MAX_SAFE <= n <= MAX_SAFE

  /** A UTF-16 code unit. */
  type CodeUnit = n: int | 0 <= n < 0x1_0000

  type Text = seq<CodeUnit>

  /** The signed 32-bit integer that the bitwise operators keep of a number. */
  function ToInt32(n: int): int {
    var m := n % TWO_32;
    if m >= TWO_31 then m - TWO_32 else m
  }

  /** It is the one signed 32-bit integer that differs from the number by a multiple of 2^32. */
  lemma ToInt32Unique(n: int, r: int)
    ensures r == ToInt32(n) <==> -TWO_31 <= r < TWO_31 && (n - r) % TWO_32 == 0
  {
    var q := n / TWO_32;
    assert n == q * TWO_32 + n % TWO_32;
    if -TWO_31 <= r < TWO_31 && (n - r) % TWO_32 == 0 {
      var k := (n - r) / TWO_32;
      assert n - r == k * TWO_32;
      assert r >= 0 ==> k == q;
    }
  }

  lemma ToInt32Congruent(a: int, b: int, k: int)
    requires a == b + k * TWO_32
    ensures ToInt32(a) == ToInt32(b)
  {
    assert (a - b) % TWO_32 == 0;
    ToInt32Unique(b, ToInt32(b));
    var j := (b - ToInt32(b)) / TWO_32;
    assert a - ToInt32(b) == (j + k) * TWO_32;
    ToInt32Unique(a, ToInt32(b));
  }

  // ---- the hash ----

  /** The polynomial in 31 with the text's code units as coefficients, over the unbounded integers. */
  function Polynomial(text: Text): nat {
    if text == [] then 0 else 31 * Polynomial(text[..|text| - 1]) + text[|text| - 1]
  }

  function Abs(n: int): nat { if n < 0 then -n else n }

  /** One round on the wrapped value stands for one round on the unbounded one. */
  lemma RoundWraps(p: int, c: int)
    ensures ToInt32(ToInt32(ToInt32(p) * 32) - ToInt32(p) + c) == ToInt32(31 * p + c)
  {
    var h := ToInt32(p);
    var s := ToInt32(h * 32);
    ToInt32Unique(p, h);
    ToInt32Unique(h * 32, s);
    var j, k := (p - h) / TWO_32, (h * 32 - s) / TWO_32;
    assert p == h + j * TWO_32 && h * 32 == s + k * TWO_32;
    assert s - h + c == 31 * p + c + (-k - 31 * j) * TWO_32;
    ToInt32Congruent(s - h + c, 31 * p + c, -k - 31 * j);
  }

  /** Every step stays an exact number, and the result is the polynomial's signed residue without its sign. */
  method SimpleHash(str: Text) returns (r: nat)
    ensures r == Abs(ToInt32(Polynomial(str)))
    ensures r <= TWO_31
  {
    var hash: Exact := 0;
    for i := 0 to |str|
      invariant hash == ToInt32(Polynomial(str[..i]))
    {
      var unit := str[i];
      assert str[..i + 1][..i] == str[..i];
      RoundWraps(Polynomial(str[..i]), unit);
      var shifted: Exact := ToInt32(hash * 32);
      var difference: Exact := shifted - hash;
      var sum: Exact := difference + unit;
      hash := ToInt32(sum);
    }
    assert str[..|str|] == str;
    r := Abs(hash);
  }

  // ---- the flag ----

  datatype Context = Context(userId: Option<Text>, organizationId: Option<Text>)

  datatype FlagConfig = FlagConfig(
    enabled: bool,
    rolloutPercentage: Option<int>,
    targetUsers: Option<seq<Text>>,
    targetOrganizations: Option<seq<Text>>,
    excludeUsers: Option<seq<Text>>,
    excludeOrganizations: Option<seq<Text>>)

  /** The list names this identity; an empty or absent identity is never named. */
  predicate Names(list: Option<seq<Text>>, id: Option<Text>) {
    list.Some? && id.Some? && id.value != [] && id.value in list.value
  }

  predicate IsExcluded(config: FlagConfig, context: Context) {
    Names(config.excludeUsers, context.userId) || Names(config.excludeOrganizations, context.organizationId)
  }

  predicate IsSpecificallyTargeted(config: FlagConfig, context: Context) {
    Names(config.targetUsers, context.userId) || Names(config.targetOrganizations, context.organizationId)
  }

  const ANONYMOUS: Text := [97, 110, 111, 110, 121, 109, 111, 117, 115]
  const COLON: CodeUnit := 58

  function Identifier(context: Context): Text {
    if context.userId.Some? && context.userId.value != [] then context.userId.value
    else if context.organizationId.Some? && context.organizationId.value != [] then context.organizationId.value
    else ANONYMOUS
  }

  /** Where a caller stands in the rollout of a flag, from 0 to 99. */
  function Bucket(flagName: Text, context: Context): (b: nat)
    ensures b < 100
  {
    Abs(ToInt32(Polynomial(flagName + [COLON] + Identifier(context)))) % 100
  }

  method IsInRolloutPercentage(flagName: Text, context: Context, percentage: int) returns (inside: bool)
    ensures inside <==> Bucket(flagName, context) < percentage
  {
    if percentage <= 0 { return false; }
    if percentage >= 100 { return true; }
    var hash := SimpleHash(flagName + [COLON] + Identifier(context));
    inside := hash % 100 < percentage;
  }

  predicate Enabled(flagName: Text, config: FlagConfig, context: Context) {
    && config.enabled
    && !IsExcluded(config, context)
    && (IsSpecificallyTargeted(config, context) || config.rolloutPercentage.None?
      || Bucket(flagName, context) < config.rolloutPercentage.value)
  }

  /**
   On for the targeted, and for those whose bucket the rollout has reached; off for the excluded whatever else is set.
   */
  method IsEnabled(flagName: Text, config: FlagConfig, context: Context) returns (on: bool)
    ensures on <==> Enabled(flagName, config, context)
  {
    if !config.enabled { return false; }
    if IsExcluded(config, context) { return false; }
    if IsSpecificallyTargeted(config, context) { return true; }
    if config.rolloutPercentage.Some? {
      on := IsInRolloutPercentage(flagName, context, config.rolloutPercentage.value);
      return;
    }
    return config.enabled;
  }

  function AtPercentage(config: FlagConfig, percentage: int): FlagConfig {
    config.(rolloutPercentage := Some(percentage))
  }

  /** Off below the percentage t, on from t. */
  ghost predicate TurnsOnAt(flagName: Text, config: FlagConfig, context: Context, t: int) {
    forall p: int :: Enabled(flagName, AtPercentage(config, p), context) <==> t <= p
  }

  /**
   * Raising the rollout of an enabled flag never turns a caller off. A caller that is neither targeted nor excluded has
   * one percentage, from 1 to 100 and the same on every call, at which the flag turns on.
   */
  lemma RolloutIsMonotone(flagName: Text, config: FlagConfig, context: Context)
    ensures forall p, q :: p <= q && Enabled(flagName, AtPercentage(config, p), context) ==>
      Enabled(flagName, AtPercentage(config, q), context)
    ensures config.enabled && !IsExcluded(config, context) && !IsSpecificallyTargeted(config, context) ==>
      exists t :: 1 <= t <= 100 && TurnsOnAt(flagName, config, context, t)
  {
    forall p ensures var at := AtPercentage(config, p);
      at.enabled == config.enabled && IsExcluded(at, context) == IsExcluded(config, context)
      && IsSpecificallyTargeted(at, context) == IsSpecificallyTargeted(config, context)
    { }
    if config.enabled && !IsExcluded(config, context) && !IsSpecificallyTargeted(config, context) {
      assert TurnsOnAt(flagName, config, context, Bucket(flagName, context) + 1);
    }
  }

  // ---- the flag, field by field ----

  /**
   A caller is known by its user, else by its organization, else as one of the anonymous; empty names do not
   count.
   */
  lemma BucketExactly(flagName: Text, user: Text, organization: Option<Text>, userId: Option<Text>)
    requires user != [] && (userId == None || userId == Some([]))
    ensures Bucket(flagName, Context(Some(user), organization)) == HashOf(flagName + [':' as int] + user) % 100
    ensures Bucket(flagName, Context(userId, Some(user))) == HashOf(flagName + [':' as int] + user) % 100
    ensures Bucket(flagName, Context(userId, None)) == HashOf(flagName + [':' as int] + ANONYMOUS) % 100
    ensures Bucket(flagName, Context(userId, Some([]))) == HashOf(flagName + [':' as int] + ANONYMOUS) % 100
  {
  }

  /** The anonymous caller's name, letter by letter. */
  lemma AnonymousExactly(i: nat)
    requires i < 9
    ensures |ANONYMOUS| == |"anonymous"| == 9 && ANONYMOUS[i] == "anonymous"[i] as int
  {
    if i < 5 { if i < 3 { assert i in {0, 1, 2}; } else { assert i in {3, 4}; } } else { assert i in {5, 6, 7, 8}; }
  }

  /** The hash: without its sign, the signed 32-bit integer that differs from the polynomial by a multiple of 2^32. */
  ghost function HashOf(text: Text): (h: nat)
    ensures exists r: int :: -0x8000_0000 <= r < 0x8000_0000 && IsResidue(Polynomial(text), r) && (h == r || h == -r)
  {
    ToInt32Unique(Polynomial(text), ToInt32(Polynomial(text)));
    assert IsResidue(Polynomial(text), ToInt32(Polynomial(text)));
    Abs(ToInt32(Polynomial(text)))
  }

  predicate IsResidue(n: int, r: int) {
    (n - r) % 0x1_0000_0000 == 0
  }

  /** The polynomial, one code unit at a time from either end. */
  lemma {:induction false} PolynomialExactly(unit: CodeUnit, text: Text)
    ensures Polynomial([]) == 0
    ensures Polynomial(text + [unit]) == Polynomial(text) * 31 + unit
    ensures Polynomial([unit] + text) == unit * Power31(|text|) + Polynomial(text)
  {
    assert (text + [unit])[..|text|] == text;
    if text == [] {
      assert [unit] + text == [unit] && [unit][..0] == [];
    } else {
      var front, last := text[..|text| - 1], text[|text| - 1];
      PolynomialExactly(unit, front);
      assert ([unit] + text)[..|text|] == [unit] + front;
      Power31Step(unit, |front|);
    }
  }

  lemma Power31Step(unit: CodeUnit, n: nat)
    ensures unit * Power31(n + 1) == 31 * (unit * Power31(n))
  {
    assert Power31(n + 1) == 31 * Power31(n);
  }

  function Power31(n: nat): nat {
    if n == 0 then 1 else 31 * Power31(n - 1)
  }

  /** The caller's user or organization is on the list for it. */
  predicate Listed(users: Option<seq<Text>>, organizations: Option<seq<Text>>, context: Context) {
    || (users.Some? && context.userId.Some? && |context.userId.value| > 0 && context.userId.value in users.value)
    || (organizations.Some? && context.organizationId.Some? && |context.organizationId.value| > 0
        && context.organizationId.value in organizations.value)
  }

  /** A flag is on for a caller that is not excluded and is targeted, or reached by the rollout if there is one. */
  lemma EnabledExactly(flagName: Text, config: FlagConfig, context: Context)
    ensures Enabled(flagName, config, context) <==>
      && config.enabled
      && !Listed(config.excludeUsers, config.excludeOrganizations, context)
      && (Listed(config.targetUsers, config.targetOrganizations, context)
          || (config.rolloutPercentage.Some? ==> Bucket(flagName, context) < config.rolloutPercentage.value))
  {
  }
}
