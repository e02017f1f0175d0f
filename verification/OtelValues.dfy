/** Attribute values and instrumentation scopes with their hand-written equality and hashing.
    A double is its 64-bit pattern; hashing is the sequence of writes made to the hasher. */
module OtelValues {
  import opened Wrappers

  const TWO_TO_THE_52: int := 0x10_0000_0000_0000

  /** A double in the IEEE 754 binary64 layout. */
  type F64 = x: int | 0 <= x < TWO_TO_THE_64

  type i64 = x: int | -TWO_TO_THE_63 <= x < TWO_TO_THE_63

  function Exponent(x: F64): int {
    (x / TWO_TO_THE_52) % 2048
  }

  function Fraction(x: F64): int {
    x % TWO_TO_THE_52
  }

  predicate IsNegative(x: F64) {
    x >= TWO_TO_THE_63
  }

  predicate IsNaN(x: F64) {
    Exponent(x) == 2047 && Fraction(x) != 0
  }

  const POSITIVE_ZERO: F64 := 0
  const NEGATIVE_ZERO: F64 := TWO_TO_THE_63

  predicate IsZero(x: F64) {
    x == POSITIVE_ZERO || x == NEGATIVE_ZERO
  }

  predicate F64Eq(a: F64, b: F64) {
    !IsNaN(a) && !IsNaN(b) && (a == b || (IsZero(a) && IsZero(b)))
  }

  function Pow2(k: nat): (p: nat)
    ensures p > 0
  {
    if k == 0 then 1 else 2 * Pow2(k - 1)
  }

  /** A finite double is plus or minus `Significand * 2^(Scale - 1075)`. */
  function Scale(x: F64): nat {
    if Exponent(x) == 0 then 1 else Exponent(x)
  }

  function Significand(x: F64): nat {
    (if Exponent(x) == 0 then 0 else TWO_TO_THE_52) + Fraction(x)
  }

  /** The absolute value, rounded toward zero, of a double below 2^63. */
  function Magnitude(x: F64): (magnitude: nat)
    requires Exponent(x) < 1023 + 63
    ensures magnitude < TWO_TO_THE_63
  {
    if Scale(x) >= 1075 then
      SmallShift(Scale(x) - 1075);
      Shifted(Significand(x), Scale(x) - 1075)
    else
      Quotient(Significand(x), Pow2(1075 - Scale(x)))
  }

  function Shifted(n: nat, k: nat): (r: nat)
    requires n < 2 * TWO_TO_THE_52 && Pow2(k) <= 1024
    ensures r == n * Pow2(k) < TWO_TO_THE_63
  {
    n * Pow2(k)
  }

  function Quotient(n: nat, d: nat): (q: nat)
    requires d > 0
    ensures q * d <= n < (q + 1) * d && q <= n
  {
    n / d
  }

  lemma {:induction false} SmallShift(k: nat)
    requires k <= 10
    ensures Pow2(k) <= 1024
    decreases 10 - k
  {
    if k < 10 {
      assert Pow2(10) == 32 * Pow2(5) && Pow2(5) == 32;
      SmallShift(k + 1);
    }
  }

  /** `x as i64`: truncation toward zero, saturating, zero for NaN. */
  function AsI64(x: F64): i64 {
    if IsNaN(x) then
      0
    else if Exponent(x) >= 1023 + 63 then
      if IsNegative(x) then -TWO_TO_THE_63 else TWO_TO_THE_63 - 1
    else
      var magnitude: int := Magnitude(x);
      if IsNegative(x) then -magnitude else magnitude
  }

  /** The cast rounds toward zero: in magnitude it is the largest integer not above the double, and it keeps
      the sign. From 2^63 on it stays at the ends of the range, and a NaN becomes zero. */
  lemma {:induction false} CastTruncates(x: F64)
    ensures Exponent(x) < 1023 + 63 ==>
              var m := if IsNegative(x) then -AsI64(x) else AsI64(x);
              && 0 <= m
              && (Scale(x) >= 1075 ==> m == Significand(x) * Pow2(Scale(x) - 1075))
              && (Scale(x) < 1075 ==> m * Pow2(1075 - Scale(x)) <= Significand(x) < (m + 1) * Pow2(1075 - Scale(x)))
    ensures Exponent(x) >= 1023 + 63 ==>
              AsI64(x) == if IsNaN(x) then 0
                          else if IsNegative(x) then -0x8000_0000_0000_0000 else 0x7FFF_FFFF_FFFF_FFFF
  {
    assert Exponent(x) < 1023 + 63 ==> !IsNaN(x);
    hide Pow2, Scale, Significand;
  }

  lemma {:induction false} ZerosCastToZero()
    ensures AsI64(POSITIVE_ZERO) == 0 && AsI64(NEGATIVE_ZERO) == 0
  {
    assert Exponent(POSITIVE_ZERO) == 0 && Exponent(NEGATIVE_ZERO) == 0;
    assert Significand(POSITIVE_ZERO) == 0 && Significand(NEGATIVE_ZERO) == 0;
    hide Pow2;
  }

  /** Unlike the bit pattern, the cast does not tell the zeros apart. */
  lemma {:induction false} EqDoublesCastAlike(a: F64, b: F64)
    requires F64Eq(a, b)
    ensures AsI64(a) == AsI64(b)
  {
    hide AsI64;
    ZerosCastToZero();
  }

  datatype Value =
    | Bool(b: bool)
    | S64(s64: i64)
    | F64(f64: F64)
    | String(s: string)
    | BoolArray(bools: seq<bool>)
    | S64Array(s64s: seq<i64>)
    | F64Array(f64s: seq<F64>)
    | StringArray(strings: seq<string>)

  datatype KeyValue = KeyValue(key: string, value: Value)

  datatype Scope = Scope(name: string, version: Option<string>, schemaUrl: Option<string>, attributes: seq<KeyValue>)

  // ---------- equality ----------

  predicate ValueEq(a: Value, b: Value) {
    match (a, b)
    case (F64(x), F64(y)) => F64Eq(x, y)
    case (F64Array(xs), F64Array(ys)) => |xs| == |ys| && forall i :: 0 <= i < |xs| ==> F64Eq(xs[i], ys[i])
    case (F64Array(_), _) => false
    case (F64(_), _) => false
    case (_, _) => a == b
  }

  predicate KeyValueEq(a: KeyValue, b: KeyValue) {
    a.key == b.key && ValueEq(a.value, b.value)
  }

  predicate ScopeEq(a: Scope, b: Scope) {
    && a.name == b.name
    && a.version == b.version
    && a.schemaUrl == b.schemaUrl
    && |a.attributes| == |b.attributes|
    && forall i :: 0 <= i < |a.attributes| ==> KeyValueEq(a.attributes[i], b.attributes[i])
  }

  // ---------- hashing ----------

  datatype Token = Flag(b: bool) | Number(n: int) | Bits(bits: int) | Text(s: string) | Length(len: nat) | Tag(tag: nat)

  /** The variant of a value is not hashed. */
  function ValueFeed(v: Value): seq<Token> {
    match v
    case Bool(b) => [Flag(b)]
    case S64(n) => [Number(n)]
    case F64(x) => [Bits(x)]
    case String(s) => [Text(s)]
    case BoolArray(xs) => [Length(|xs|)] + seq(|xs|, i requires 0 <= i < |xs| => Flag(xs[i]))
    case S64Array(xs) => [Length(|xs|)] + seq(|xs|, i requires 0 <= i < |xs| => Number(xs[i]))
    case F64Array(xs) => [Length(|xs|)] + seq(|xs|, i requires 0 <= i < |xs| => Number(AsI64(xs[i])))
    case StringArray(xs) => [Length(|xs|)] + seq(|xs|, i requires 0 <= i < |xs| => Text(xs[i]))
  }

  function OptionFeed(o: Option<string>): seq<Token> {
    match o
    case None => [Tag(0)]
    case Some(s) => [Tag(1), Text(s)]
  }

  function KeyValueFeed(kv: KeyValue): seq<Token> {
    [Text(kv.key)] + ValueFeed(kv.value)
  }

  function AttributesFeed(kvs: seq<KeyValue>): seq<Token> {
    if kvs == [] then [] else KeyValueFeed(kvs[0]) + AttributesFeed(kvs[1..])
  }

  function ScopeFeed(scope: Scope): seq<Token> {
    [Text(scope.name)] + OptionFeed(scope.version) + OptionFeed(scope.schemaUrl)
    + [Length(|scope.attributes|)] + AttributesFeed(scope.attributes)
  }

  // ---------- the laws of a hash-map key ----------

  predicate HasNaN(v: Value) {
    match v
    case F64(x) => IsNaN(x)
    case F64Array(xs) => exists i :: 0 <= i < |xs| && IsNaN(xs[i])
    case _ => false
  }

  predicate ScopeHasNaN(scope: Scope) {
    exists i :: 0 <= i < |scope.attributes| && HasNaN(scope.attributes[i].value)
  }

  predicate ScopeHasScalarZero(scope: Scope) {
    exists i :: 0 <= i < |scope.attributes|
                && scope.attributes[i].value.F64? && IsZero(scope.attributes[i].value.f64)
  }

  predicate ScopeHasNegativeZero(scope: Scope) {
    exists i :: 0 <= i < |scope.attributes| && scope.attributes[i].value == F64(NEGATIVE_ZERO)
  }

  /** Scopes for which the map's demands on its keys hold. */
  predicate Lawful(scope: Scope) {
    !ScopeHasNaN(scope) && !ScopeHasNegativeZero(scope)
  }

  lemma {:induction false} ScopeEqIsSymmetric(a: Scope, b: Scope)
    ensures ScopeEq(a, b) <==> ScopeEq(b, a)
  {
  }

  lemma {:induction false} ScopeEqIsTransitive(a: Scope, b: Scope, c: Scope)
    requires ScopeEq(a, b) && ScopeEq(b, c)
    ensures ScopeEq(a, c)
  {
    forall i | 0 <= i < |a.attributes| ensures KeyValueEq(a.attributes[i], c.attributes[i]) {
      assert KeyValueEq(a.attributes[i], b.attributes[i]) && KeyValueEq(b.attributes[i], c.attributes[i]);
    }
  }

  /** Equality is reflexive exactly for scopes without NaN. */
  lemma {:induction false} ReflexiveIff(a: Scope)
    ensures ScopeEq(a, a) <==> !ScopeHasNaN(a)
  {
    if !ScopeHasNaN(a) {
      forall i | 0 <= i < |a.attributes| ensures KeyValueEq(a.attributes[i], a.attributes[i]) {
        assert !HasNaN(a.attributes[i].value);
      }
    } else {
      var i :| 0 <= i < |a.attributes| && HasNaN(a.attributes[i].value);
      assert !KeyValueEq(a.attributes[i], a.attributes[i]);
    }
  }

  lemma {:induction false} NaNEqualsNothing(a: Scope, b: Scope)
    requires ScopeHasNaN(b)
    ensures !ScopeEq(a, b)
  {
    var i :| 0 <= i < |b.attributes| && HasNaN(b.attributes[i].value);
    assert |a.attributes| == |b.attributes| ==> !KeyValueEq(a.attributes[i], b.attributes[i]);
  }

  /** NaN in terms of the bit pattern: above infinity, the sign left out. */
  lemma {:induction false} NaNIff(x: F64)
    ensures IsNaN(x) <==> x % 0x8000_0000_0000_0000 > 0x7FF0_0000_0000_0000
  {
    var low := x % 0x8000_0000_0000_0000;
    assert low / TWO_TO_THE_52 == Exponent(x) && low % TWO_TO_THE_52 == Fraction(x) by {
      SameLowBits(x);
    }
    assert low == Exponent(x) * TWO_TO_THE_52 + Fraction(x);
  }

  lemma {:induction false} SameLowBits(x: F64)
    ensures (x % 0x8000_0000_0000_0000) / TWO_TO_THE_52 == Exponent(x)
    ensures (x % 0x8000_0000_0000_0000) % TWO_TO_THE_52 == Fraction(x)
  {
    var low := if x < 0x8000_0000_0000_0000 then x else x - 0x8000_0000_0000_0000;
    assert low == x % 0x8000_0000_0000_0000;
    assert x / TWO_TO_THE_52 == low / TWO_TO_THE_52 + if x < 0x8000_0000_0000_0000 then 0 else 2048;
  }

  /** The same double with minus zero turned into zero. */
  function WithoutSign(x: F64): F64 {
    if x == 0x8000_0000_0000_0000 then 0 else x
  }

  function CanonicalValue(v: Value): Value {
    match v
    case F64(x) => F64(WithoutSign(x))
    case F64Array(xs) => F64Array(seq(|xs|, i requires 0 <= i < |xs| => WithoutSign(xs[i])))
    case _ => v
  }

  function Canonical(scope: Scope): Scope {
    scope.(attributes := seq(|scope.attributes|, i requires 0 <= i < |scope.attributes| =>
      KeyValue(scope.attributes[i].key, CanonicalValue(scope.attributes[i].value))))
  }

  lemma {:induction false} ValueEqIff(a: Value, b: Value)
    ensures ValueEq(a, b) <==> !HasNaN(a) && !HasNaN(b) && CanonicalValue(a) == CanonicalValue(b)
  {
    hide IsNaN;
    assert forall x: F64, y: F64 :: F64Eq(x, y) <==> !IsNaN(x) && !IsNaN(y) && WithoutSign(x) == WithoutSign(y) by {
      ZerosAreNumbers();
    }
    hide F64Eq, WithoutSign;
    if a.F64Array? && b.F64Array? {
      var xs, ys := CanonicalValue(a).f64s, CanonicalValue(b).f64s;
      if CanonicalValue(a) == CanonicalValue(b) {
        assert forall i :: 0 <= i < |xs| ==> xs[i] == WithoutSign(a.f64s[i]) && ys[i] == WithoutSign(b.f64s[i]);
      }
      if ValueEq(a, b) {
        assert xs == ys;
      }
    }
  }

  lemma {:induction false} ZerosAreNumbers()
    ensures !IsNaN(0) && !IsNaN(0x8000_0000_0000_0000)
  {
  }

  /** Equality of scopes is identity up to the sign of zeros, for scopes without NaN; all attributes count,
      in their order. */
  lemma {:induction false} ScopeEqIff(a: Scope, b: Scope)
    ensures ScopeEq(a, b) <==> !ScopeHasNaN(a) && !ScopeHasNaN(b) && Canonical(a) == Canonical(b)
  {
    hide ValueEq, CanonicalValue, HasNaN;
    forall v, w ensures ValueEq(v, w) <==> !HasNaN(v) && !HasNaN(w) && CanonicalValue(v) == CanonicalValue(w) {
      ValueEqIff(v, w);
    }
    var xs, ys := Canonical(a).attributes, Canonical(b).attributes;
    if Canonical(a) == Canonical(b) {
      assert forall i :: 0 <= i < |a.attributes| ==>
                           xs[i] == KeyValue(a.attributes[i].key, CanonicalValue(a.attributes[i].value))
                           && ys[i] == KeyValue(b.attributes[i].key, CanonicalValue(b.attributes[i].value));
    }
    if ScopeEq(a, b) {
      assert forall i :: 0 <= i < |a.attributes| ==> KeyValueEq(a.attributes[i], b.attributes[i]);
      assert xs == ys;
    }
  }

  // ---------- what the hash can tell apart ----------

  predicate IsArray(v: Value) {
    v.BoolArray? || v.S64Array? || v.F64Array? || v.StringArray?
  }

  function Count(v: Value): nat {
    match v
    case BoolArray(xs) => |xs|
    case S64Array(xs) => |xs|
    case F64Array(xs) => |xs|
    case StringArray(xs) => |xs|
    case _ => 1
  }

  /** The integers an array of numbers is hashed as. */
  function Integers(v: Value): seq<i64>
    requires v.S64Array? || v.F64Array?
  {
    if v.S64Array? then v.s64s else seq(|v.f64s|, i requires 0 <= i < |v.f64s| => AsI64(v.f64s[i]))
  }

  /** Values no hasher can tell apart: the same value, two empty arrays of any kinds, or two arrays of numbers
      that agree once doubles are cut to integers. */
  predicate Indistinct(a: Value, b: Value) {
    || a == b
    || (IsArray(a) && IsArray(b) && Count(a) == Count(b) == 0)
    || ((a.S64Array? || a.F64Array?) && (b.S64Array? || b.F64Array?) && Integers(a) == Integers(b))
  }

  lemma {:induction false} FeedLength(v: Value)
    ensures ValueFeed(v) != []
    ensures if IsArray(v) then ValueFeed(v)[0] == Length(Count(v)) && |ValueFeed(v)| == 1 + Count(v)
            else !ValueFeed(v)[0].Length? && |ValueFeed(v)| == 1
  {
    hide AsI64;
  }

  /** The kind of an array shows in its elements. */
  lemma {:induction false} ArrayFeed(v: Value)
    requires IsArray(v)
    ensures |ValueFeed(v)| == 1 + Count(v)
    ensures v.BoolArray? ==> forall i :: 0 <= i < Count(v) ==> ValueFeed(v)[1..][i] == Flag(v.bools[i])
    ensures v.StringArray? ==> forall i :: 0 <= i < Count(v) ==> ValueFeed(v)[1..][i] == Text(v.strings[i])
    ensures v.S64Array? || v.F64Array? ==>
              forall i :: 0 <= i < Count(v) ==> ValueFeed(v)[1..][i] == Number(Integers(v)[i])
  {
    hide AsI64;
  }

  lemma {:induction false} ArraysIndistinct(a: Value, b: Value)
    requires IsArray(a) && IsArray(b) && Count(a) == Count(b)
    ensures ValueFeed(a) == ValueFeed(b) <==> Indistinct(a, b)
  {
    ArrayFeed(a);
    ArrayFeed(b);
    FeedLength(a);
    FeedLength(b);
    hide ValueFeed, AsI64, Integers;
    var n := Count(a);
    var f, g := ValueFeed(a), ValueFeed(b);
    assert f == [f[0]] + f[1..] && g == [g[0]] + g[1..];
    if n > 0 {
      assert 0 < n;
      if f == g {
        assert f[1..][0] == g[1..][0];
        SameElements(a, b);
      }
      if (a.S64Array? || a.F64Array?) && (b.S64Array? || b.F64Array?) && Integers(a) == Integers(b) {
        IntegersCount(a);
        assert f[1..] == g[1..];
      }
    } else {
      assert f[1..] == [] && g[1..] == [];
    }
  }

  lemma {:induction false} IntegersCount(v: Value)
    requires v.S64Array? || v.F64Array?
    ensures |Integers(v)| == Count(v)
  {
    hide AsI64;
  }

  lemma {:induction false} SameElements(a: Value, b: Value)
    requires IsArray(a) && IsArray(b) && Count(a) == Count(b) > 0
    requires ValueFeed(a) == ValueFeed(b)
    ensures Indistinct(a, b)
  {
    ArrayFeed(a);
    ArrayFeed(b);
    var n, rest := Count(a), ValueFeed(a)[1..];
    hide ValueFeed, AsI64;
    assert rest[0] == ValueFeed(b)[1..][0];
    if a.BoolArray? {
      assert b.BoolArray?;
      assert forall i :: 0 <= i < n ==> rest[i] == Flag(a.bools[i]) && rest[i] == Flag(b.bools[i]);
      assert a.bools == b.bools;
    } else if a.StringArray? {
      assert b.StringArray?;
      assert forall i :: 0 <= i < n ==> rest[i] == Text(a.strings[i]) && rest[i] == Text(b.strings[i]);
      assert a.strings == b.strings;
    } else {
      assert b.S64Array? || b.F64Array?;
      IntegersCount(a);
      IntegersCount(b);
      assert forall i :: 0 <= i < n ==> rest[i] == Number(Integers(a)[i]) && rest[i] == Number(Integers(b)[i]);
      assert Integers(a) == Integers(b);
    }
  }

  lemma {:induction false} ValueFeedIff(a: Value, b: Value)
    ensures ValueFeed(a) == ValueFeed(b) <==> Indistinct(a, b)
  {
    FeedLength(a);
    FeedLength(b);
    hide AsI64;
    if IsArray(a) && IsArray(b) && Count(a) == Count(b) {
      ArraysIndistinct(a, b);
    } else if IsArray(a) || IsArray(b) {
      IndistinctCounts(a, b);
      assert ValueFeed(a)[0] != ValueFeed(b)[0];
    }
  }

  lemma {:induction false} IndistinctCounts(a: Value, b: Value)
    ensures Indistinct(a, b) ==> IsArray(a) == IsArray(b) && Count(a) == Count(b)
  {
    hide AsI64;
    if (a.S64Array? || a.F64Array?) && (b.S64Array? || b.F64Array?) {
      IntegersCount(a);
      IntegersCount(b);
    }
  }

  /** The writes of one attribute end where its own first writes say. */
  lemma {:induction false} KeyValueFeedEnds(a: KeyValue, b: KeyValue, s: seq<Token>, t: seq<Token>)
    ensures KeyValueFeed(a) + s == KeyValueFeed(b) + t
            <==> a.key == b.key && ValueFeed(a.value) == ValueFeed(b.value) && s == t
  {
    FeedLength(a.value);
    FeedLength(b.value);
    hide ValueFeed, Count;
    var f, g := KeyValueFeed(a), KeyValueFeed(b);
    if f + s == g + t {
      assert (f + s)[0] == Text(a.key) && (g + t)[0] == Text(b.key);
      assert (f + s)[1] == ValueFeed(a.value)[0] && (g + t)[1] == ValueFeed(b.value)[0];
      assert |f| == |g|;
      assert f == (f + s)[..|f|] && g == (g + t)[..|f|];
      assert s == (f + s)[|f|..] && t == (g + t)[|f|..];
      assert ValueFeed(a.value) == f[1..] && ValueFeed(b.value) == g[1..];
    }
  }

  lemma {:induction false} AttributesFeedIff(a: seq<KeyValue>, b: seq<KeyValue>)
    requires |a| == |b|
    ensures AttributesFeed(a) == AttributesFeed(b)
            <==> forall i :: 0 <= i < |a| ==> a[i].key == b[i].key && ValueFeed(a[i].value) == ValueFeed(b[i].value)
  {
    if a != [] {
      hide ValueFeed;
      AttributesFeedIff(a[1..], b[1..]);
      KeyValueFeedEnds(a[0], b[0], AttributesFeed(a[1..]), AttributesFeed(b[1..]));
      hide KeyValueFeed;
      assert forall i :: 0 <= i < |a| - 1 ==> a[1..][i] == a[i + 1] && b[1..][i] == b[i + 1];
      if AttributesFeed(a) == AttributesFeed(b) {
        forall i | 0 <= i < |a| ensures a[i].key == b[i].key && ValueFeed(a[i].value) == ValueFeed(b[i].value) {
          if i > 0 {
            assert a[1..][i - 1] == a[i];
          }
        }
      }
    }
  }

  lemma {:induction false} OptionFeedEnds(a: Option<string>, b: Option<string>, s: seq<Token>, t: seq<Token>)
    ensures OptionFeed(a) + s == OptionFeed(b) + t <==> a == b && s == t
  {
    var f, g := OptionFeed(a), OptionFeed(b);
    if f + s == g + t {
      assert (f + s)[0] == f[0] && (g + t)[0] == g[0];
      assert |f| == |g|;
      assert f == (f + s)[..|f|] && g == (g + t)[..|f|];
      assert s == (f + s)[|f|..] && t == (g + t)[|f|..];
    }
  }

  lemma {:induction false} TokenEnds(x: Token, y: Token, s: seq<Token>, t: seq<Token>)
    ensures [x] + s == [y] + t <==> x == y && s == t
  {
    if [x] + s == [y] + t {
      assert ([x] + s)[0] == x && ([y] + t)[0] == y;
      assert s == ([x] + s)[1..] && t == ([y] + t)[1..];
    }
  }

  lemma {:induction false} ScopeFeedParts(a: Scope)
    ensures ScopeFeed(a) == [Text(a.name)] + (OptionFeed(a.version) + (OptionFeed(a.schemaUrl)
                            + ([Length(|a.attributes|)] + AttributesFeed(a.attributes))))
  {
    hide OptionFeed, AttributesFeed;
  }

  /** Exactly which scopes write the same to every hasher: those with the same name, version, schema and keys
      in the same order, and values that are indistinct. Nothing else is left out of the hash. */
  lemma {:induction false} ScopeFeedIff(a: Scope, b: Scope)
    ensures ScopeFeed(a) == ScopeFeed(b) <==>
            && a.name == b.name && a.version == b.version && a.schemaUrl == b.schemaUrl
            && |a.attributes| == |b.attributes|
            && forall i :: 0 <= i < |a.attributes| ==>
                             a.attributes[i].key == b.attributes[i].key
                             && Indistinct(a.attributes[i].value, b.attributes[i].value)
  {
    var p1, q1 := AttributesFeed(a.attributes), AttributesFeed(b.attributes);
    var p2, q2 := [Length(|a.attributes|)] + p1, [Length(|b.attributes|)] + q1;
    var p3, q3 := OptionFeed(a.schemaUrl) + p2, OptionFeed(b.schemaUrl) + q2;
    var p4, q4 := OptionFeed(a.version) + p3, OptionFeed(b.version) + q3;
    hide *;
    ScopeFeedParts(a);
    ScopeFeedParts(b);
    TokenEnds(Text(a.name), Text(b.name), p4, q4);
    OptionFeedEnds(a.version, b.version, p3, q3);
    OptionFeedEnds(a.schemaUrl, b.schemaUrl, p2, q2);
    TokenEnds(Length(|a.attributes|), Length(|b.attributes|), p1, q1);
    if |a.attributes| == |b.attributes| {
      AttributesFeedIff(a.attributes, b.attributes);
      forall i | 0 <= i < |a.attributes|
        ensures ValueFeed(a.attributes[i].value) == ValueFeed(b.attributes[i].value)
                <==> Indistinct(a.attributes[i].value, b.attributes[i].value)
      {
        ValueFeedIff(a.attributes[i].value, b.attributes[i].value);
      }
    }
  }

  // ---------- equality against the hash ----------

  lemma {:induction false} EqValuesFeedAlike(a: Value, b: Value)
    requires ValueEq(a, b)
    requires a.F64? ==> a.f64 == b.f64
    ensures ValueFeed(a) == ValueFeed(b)
  {
    hide AsI64;
    if a.F64Array? {
      forall i | 0 <= i < |a.f64s| ensures AsI64(a.f64s[i]) == AsI64(b.f64s[i]) {
        EqDoublesCastAlike(a.f64s[i], b.f64s[i]);
      }
    }
  }

  lemma {:induction false} EqAttributesFeedAlike(a: seq<KeyValue>, b: seq<KeyValue>)
    requires |a| == |b| && forall i :: 0 <= i < |a| ==> KeyValueEq(a[i], b[i])
    requires forall i :: 0 <= i < |a| && a[i].value.F64? ==> a[i].value == b[i].value
    ensures AttributesFeed(a) == AttributesFeed(b)
  {
    if a != [] {
      assert KeyValueEq(a[0], b[0]);
      EqValuesFeedAlike(a[0].value, b[0].value);
      EqAttributesFeedAlike(a[1..], b[1..]);
    }
  }

  /** Equal lawful scopes write the same to any hasher. */
  lemma {:induction false} EqScopesFeedAlike(a: Scope, b: Scope)
    requires ScopeEq(a, b) && Lawful(a) && Lawful(b)
    ensures ScopeFeed(a) == ScopeFeed(b)
  {
    forall i | 0 <= i < |a.attributes| && a.attributes[i].value.F64?
      ensures a.attributes[i].value == b.attributes[i].value
    {
      assert KeyValueEq(a.attributes[i], b.attributes[i]);
      assert a.attributes[i].value != F64(NEGATIVE_ZERO) && b.attributes[i].value != F64(NEGATIVE_ZERO);
    }
    EqAttributesFeedAlike(a.attributes, b.attributes);
  }

  lemma {:induction false} AttributesFeedAt(kvs: seq<KeyValue>, i: nat, v: Value)
    requires i < |kvs| && |ValueFeed(kvs[i].value)| == |ValueFeed(v)| && ValueFeed(kvs[i].value) != ValueFeed(v)
    ensures AttributesFeed(kvs) != AttributesFeed(kvs[i := kvs[i].(value := v)])
  {
    var other := kvs[i := kvs[i].(value := v)];
    if i == 0 {
      var left, right := KeyValueFeed(kvs[0]), KeyValueFeed(other[0]);
      assert left[1..] == ValueFeed(kvs[0].value) && right[1..] == ValueFeed(v);
      assert AttributesFeed(kvs)[..|left|] == left;
      assert AttributesFeed(other)[..|right|] == right;
    } else {
      AttributesFeedAt(kvs[1..], i - 1, v);
      assert other[1..] == kvs[1..][i - 1 := kvs[i].(value := v)];
      var head := KeyValueFeed(kvs[0]);
      assert AttributesFeed(kvs)[|head|..] == AttributesFeed(kvs[1..]);
      assert AttributesFeed(other)[|head|..] == AttributesFeed(other[1..]);
    }
  }

  /** Equality implies equal hashing, for everything equal to a scope, exactly when the scope holds no
      scalar zero of either sign (or holds a NaN and so equals nothing). */
  lemma {:induction false} HashLawIff(a: Scope)
    ensures (forall b :: ScopeEq(a, b) ==> ScopeFeed(a) == ScopeFeed(b)) <==> ScopeHasNaN(a) || !ScopeHasScalarZero(a)
  {
    if ScopeHasNaN(a) {
      var i :| 0 <= i < |a.attributes| && HasNaN(a.attributes[i].value);
      assert forall b :: ScopeEq(a, b) ==> KeyValueEq(a.attributes[i], b.attributes[i]);
    } else if !ScopeHasScalarZero(a) {
      forall b | ScopeEq(a, b) ensures ScopeFeed(a) == ScopeFeed(b) {
        forall i | 0 <= i < |a.attributes| && a.attributes[i].value.F64?
          ensures a.attributes[i].value == b.attributes[i].value
        {
          assert KeyValueEq(a.attributes[i], b.attributes[i]);
        }
        EqAttributesFeedAlike(a.attributes, b.attributes);
      }
    } else {
      var b := FlipZero(a);
      assert ScopeEq(a, b) && ScopeFeed(a) != ScopeFeed(b);
    }
  }

  /** The same scope with the sign of one scalar zero flipped: equal, but hashed differently. */
  lemma {:induction false} FlipZero(a: Scope) returns (b: Scope)
    requires !ScopeHasNaN(a) && ScopeHasScalarZero(a)
    ensures ScopeEq(a, b) && ScopeFeed(a) != ScopeFeed(b)
  {
    var i :| 0 <= i < |a.attributes| && a.attributes[i].value.F64? && IsZero(a.attributes[i].value.f64);
    var flipped := F64(if a.attributes[i].value.f64 == POSITIVE_ZERO then NEGATIVE_ZERO else POSITIVE_ZERO);
    b := a.(attributes := a.attributes[i := a.attributes[i].(value := flipped)]);
    ReflexiveIff(a);
    AttributesFeedAt(a.attributes, i, flipped);
    var k := |[Text(a.name)] + OptionFeed(a.version) + OptionFeed(a.schemaUrl) + [Length(|a.attributes|)]|;
    assert ScopeFeed(a)[k..] == AttributesFeed(a.attributes);
    assert ScopeFeed(b)[k..] == AttributesFeed(b.attributes);
  }
}
