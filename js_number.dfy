/** JavaScript numbers as the converters use them: the string-to-number
    conversions `Number(s)` (also written `+s`) and `parseFloat(s)`, with
    values kept as exact rationals. */
module JsNumber {
  import opened JsText

  datatype Number = Finite(value: real) | PositiveInfinity | NegativeInfinity | NaN

  /** JavaScript truthiness of a number: false exactly for 0 and NaN. */
  predicate Truthy(n: Number) {
    match n
    case Finite(v) => v != 0.0
    case NaN => false
    case _ => true
  }

  function Negate(n: Number): Number {
    match n
    case Finite(v) => Finite(-v)
    case PositiveInfinity => NegativeInfinity
    case NegativeInfinity => PositiveInfinity
    case NaN => NaN
  }

  /** `n - k` for a whole number `k`. */
  function Minus(n: Number, k: int): Number {
    if n.Finite? then Finite(n.value - k as real) else n
  }

  /** The exact value `m * 10^e`. */
  function Scale(m: nat, e: int): real {
    if e >= 0 then (m * Pow10(e)) as real else m as real / Pow10(-e) as real
  }

  /** Length of the run of decimal digits that starts at `i`. */
  function DigitRun(s: string, i: nat): (n: nat)
    requires i <= |s|
    ensures i + n <= |s|
    ensures forall k :: i <= k < i + n ==> IsDigit(s[k])
    ensures i + n == |s| || !IsDigit(s[i + n])
    decreases |s| - i
  {
    if i < |s| && IsDigit(s[i]) then 1 + DigitRun(s, i + 1) else 0
  }

  /** A prefix that was read as a number: its value and how many characters
      it took. */
  datatype Scan = Scan(value: Number, length: nat)

  /** The optional ExponentPart that starts at `i`: its value and where it
      ends, or no exponent (0, `i`) when `e`/`E` is not followed by digits. */
  function ExponentPart(s: string, i: nat): (r: (int, nat))
    requires i <= |s|
    ensures i <= r.1 <= |s|
  {
    if i < |s| && (s[i] == 'e' || s[i] == 'E') then
      var j := i + 1;
      var signed := j < |s| && (s[j] == '+' || s[j] == '-');
      var k := if signed then j + 1 else j;
      var n := DigitRun(s, k);
      if n == 0 then (0, i)
      else
        var e: int := DigitsValue(s[k..k + n]);
        (if signed && s[j] == '-' then -e else e, k + n)
    else (0, i)
  }

  predicate StartsWithInfinity(s: string) {
    |s| >= 8 && s[..8] == "Infinity"
  }

  /** The longest prefix of `s` that is an unsigned StrDecimalLiteral:
      `Infinity`, or digits with an optional fraction and exponent. */
  function UnsignedDecimalPrefix(s: string): (r: Option<Scan>)
    ensures r.Some? ==> 0 < r.value.length <= |s|
  {
    if StartsWithInfinity(s) then Some(Scan(PositiveInfinity, 8))
    else MantissaPrefix(s)
  }

  /** The scan of a mantissa: integer digits, an optional point with
      fraction digits, then the exponent. */
  function MantissaPrefix(s: string): (r: Option<Scan>)
    ensures r.Some? ==> 0 < r.value.length <= |s|
  {
    var a := DigitRun(s, 0);
    assert s[..a] == s[0..0 + a];
    if a < |s| && s[a] == '.' then
      var f := DigitRun(s, a + 1);
      if a == 0 && f == 0 then None
      else WithExponent(s, s[..a] + s[a + 1..a + 1 + f], f, a + 1 + f)
    else if a == 0 then None
    else WithExponent(s, s[..a], 0, a)
  }

  /** A mantissa with digit string `digits`, `f` of them after the point,
      ending at `end`, scaled by the exponent that follows it. */
  function WithExponent(s: string, digits: string, f: nat, end: nat): (r: Option<Scan>)
    requires AllDigits(digits) && 0 < end <= |s|
    ensures r.Some? && 0 < r.value.length <= |s|
  {
    var exponent := ExponentPart(s, end);
    Some(Scan(Finite(Scale(DigitsValue(digits), exponent.0 - f)), exponent.1))
  }

  lemma NotInfinity(s: string)
    requires s != [] && s[0] != 'I'
    ensures !StartsWithInfinity(s)
  {
  }

  /** Text that starts with a digit or a point is read by the mantissa rule. */
  lemma UnsignedIsMantissa(s: string)
    requires s != [] && (IsDigit(s[0]) || s[0] == '.')
    ensures DecimalPrefix(s) == MantissaPrefix(s)
  {
    NotInfinity(s);
  }

  /** A mantissa not followed by `e` or `E` is not scaled. */
  lemma NoExponent(s: string, digits: string, f: nat, end: nat)
    requires AllDigits(digits) && 0 < end <= |s|
    requires end == |s| || !(s[end] == 'e' || s[end] == 'E')
    ensures WithExponent(s, digits, f, end) == Some(Scan(Finite(Scale(DigitsValue(digits), 0 - f)), end))
  {
    assert ExponentPart(s, end) == (0, end);
  }

  /** The longest prefix of `s` that is a StrDecimalLiteral: an optional sign
      followed by an unsigned one. */
  function DecimalPrefix(s: string): (r: Option<Scan>)
    ensures r.Some? ==> 0 < r.value.length <= |s|
  {
    if s != [] && (s[0] == '+' || s[0] == '-') then
      match UnsignedDecimalPrefix(s[1..])
      case None => None
      case Some(sc) => Some(Scan(if s[0] == '-' then Negate(sc.value) else sc.value, sc.length + 1))
    else UnsignedDecimalPrefix(s)
  }

  function RadixDigitValue(c: char): (d: nat)
    ensures d <= 16
  {
    if '0' <= c <= '9' then c as int - '0' as int
    else if 'a' <= c <= 'f' then c as int - 'a' as int + 10
    else if 'A' <= c <= 'F' then c as int - 'A' as int + 10
    else 16
  }

  predicate AllRadixDigits(s: string, radix: nat) {
    forall i :: 0 <= i < |s| ==> RadixDigitValue(s[i]) < radix
  }

  function RadixValue(s: string, radix: nat): nat
    requires AllRadixDigits(s, radix)
    decreases |s|
  {
    if s == [] then 0 else RadixValue(s[..|s| - 1], radix) * radix + RadixDigitValue(s[|s| - 1])
  }

  /** A NonDecimalIntegerLiteral filling all of `t`: `0x`, `0o` or `0b`
      (either case) followed by at least one digit of that radix. */
  function NonDecimalInteger(t: string): Option<nat> {
    if |t| >= 3 && t[0] == '0' then
      var radix := if t[1] in "xX" then 16 else if t[1] in "oO" then 8 else if t[1] in "bB" then 2 else 0;
      if radix != 0 && AllRadixDigits(t[2..], radix) then Some(RadixValue(t[2..], radix)) else None
    else None
  }

  /** `Number(s)`, also `+s`: white space around the literal is ignored, the
      empty (or all-white-space) string is 0, and anything that is not one
      whole numeric literal is NaN. */
  function ToNumber(s: string): Number {
    var t := Trim(s);
    if t == [] then Finite(0.0)
    else
      match NonDecimalInteger(t)
      case Some(v) => Finite(v as real)
      case None =>
        match DecimalPrefix(t)
        case Some(sc) => if sc.length == |t| then sc.value else NaN
        case None => NaN
  }

  /** `+x` where `x` is element `i` of an array destructuring of `parts`:
      an element past the end is `undefined`, which is NaN. */
  function ElementToNumber(parts: seq<string>, i: nat): (n: Number)
    ensures i >= |parts| ==> n == NaN
  {
    if i < |parts| then ToNumber(parts[i]) else NaN
  }

  /** The numbers read from a three-element list are those of its elements. */
  lemma ThreeElements(parts: seq<string>, a: string, b: string, c: string, x: Number, y: Number, z: Number)
    requires parts == [a, b, c]
    requires ToNumber(a) == x && ToNumber(b) == y && ToNumber(c) == z
    ensures ElementToNumber(parts, 0) == x
    ensures ElementToNumber(parts, 1) == y
    ensures ElementToNumber(parts, 2) == z
  {
  }

  /** `parseFloat(s)`: leading white space is skipped and the longest decimal
      literal prefix is read; NaN when there is none. */
  function ParseFloat(s: string): Number {
    match DecimalPrefix(TrimStart(s))
    case Some(sc) => sc.value
    case None => NaN
  }

  /** A string of digits reads as a whole number and stops at the first
      character that cannot continue it. */
  lemma ScanInteger(a: string, rest: string)
    requires AllDigits(a) && |a| > 0
    requires rest == [] || !(IsDigit(rest[0]) || rest[0] == '.' || rest[0] == 'e' || rest[0] == 'E')
    ensures UnsignedDecimalPrefix(a + rest) == Some(Scan(Finite(DigitsValue(a) as real), |a|))
    ensures DecimalPrefix(a + rest) == Some(Scan(Finite(DigitsValue(a) as real), |a|))
  {
    var s := a + rest;
    assert s[0] == a[0];
    UnsignedIsMantissa(s);
    IntegerMantissa(s, a, rest);
    assert |a| == |s| || s[|a|] == rest[0];
    NoExponent(s, a, 0, |a|);
    assert Scale(DigitsValue(a), 0 - 0) == (DigitsValue(a) * 1) as real;
  }

  lemma IntegerMantissa(s: string, a: string, rest: string)
    requires s == a + rest
    requires AllDigits(a) && |a| > 0
    requires rest == [] || !(IsDigit(rest[0]) || rest[0] == '.')
    ensures MantissaPrefix(s) == WithExponent(s, a, 0, |a|)
  {
    IntegerDigitRun(a, rest);
    assert s[..|a|] == a;
    assert |a| == |s| || s[|a|] == rest[0];
  }

  /** Digits, a point and more digits read as the exact decimal fraction. */
  lemma ScanFraction(s: string, a: string, b: string, rest: string)
    requires s == a + "." + b + rest
    requires AllDigits(a) && AllDigits(b) && |a| + |b| > 0
    requires rest == [] || !(IsDigit(rest[0]) || rest[0] == 'e' || rest[0] == 'E')
    ensures DecimalPrefix(s)
         == Some(Scan(Finite(DecimalValue(a, b)), |a| + 1 + |b|))
  {
    FractionStart(s, a, b, rest);
    UnsignedIsMantissa(s);
    FractionScan(s, a, b, rest);
    DecimalFractionValue(a, b);
  }

  lemma FractionStart(s: string, a: string, b: string, rest: string)
    requires s == a + "." + b + rest
    requires AllDigits(a)
    ensures s != [] && (IsDigit(s[0]) || s[0] == '.')
  {
    assert s[0] == if |a| > 0 then a[0] else '.';
  }

  lemma FractionScan(s: string, a: string, b: string, rest: string)
    requires s == a + "." + b + rest
    requires AllDigits(a) && AllDigits(b) && |a| + |b| > 0
    requires rest == [] || !(IsDigit(rest[0]) || rest[0] == 'e' || rest[0] == 'E')
    ensures AllDigits(a + b)
    ensures MantissaPrefix(s) == Some(Scan(Finite(Scale(DigitsValue(a + b), 0 - |b|)), |a| + 1 + |b|))
  {
    var end := |a| + 1 + |b|;
    FractionMantissa(a, b, rest);
    assert end == |s| || s[end] == rest[0];
    NoExponent(s, a + b, |b|, end);
  }

  lemma FractionMantissa(a: string, b: string, rest: string)
    requires AllDigits(a) && AllDigits(b) && |a| + |b| > 0
    requires rest == [] || !IsDigit(rest[0])
    ensures AllDigits(a + b)
    ensures MantissaPrefix(a + "." + b + rest) == WithExponent(a + "." + b + rest, a + b, |b|, |a| + 1 + |b|)
  {
    var s := a + "." + b + rest;
    IntegerPartRun(a, b, rest);
    FractionDigitRun(a, b, rest);
    SliceOfConcat(a, b, rest);
    MantissaOfParts(s, a, b);
  }

  lemma IntegerPartRun(a: string, b: string, rest: string)
    requires AllDigits(a)
    ensures DigitRun(a + "." + b + rest, 0) == |a|
  {
    var r := "." + b + rest;
    assert a + "." + b + rest == a + r;
    IntegerDigitRun(a, r);
  }

  lemma SliceOfConcat(a: string, b: string, rest: string)
    ensures (a + "." + b + rest)[|a|] == '.'
    ensures (a + "." + b + rest)[..|a|] == a
    ensures (a + "." + b + rest)[|a| + 1..|a| + 1 + |b|] == b
  {
    var s := a + "." + b + rest;
    assert forall k :: 0 <= k < |a| ==> s[k] == a[k];
    assert forall k :: 0 <= k < |b| ==> s[|a| + 1 + k] == b[k];
  }

  lemma MantissaOfParts(s: string, a: string, b: string)
    requires |a| + 1 + |b| <= |s| && s[|a|] == '.' && |a| + |b| > 0
    requires DigitRun(s, 0) == |a| && DigitRun(s, |a| + 1) == |b|
    requires s[..|a|] == a && s[|a| + 1..|a| + 1 + |b|] == b
    ensures AllDigits(a + b)
    ensures MantissaPrefix(s) == WithExponent(s, a + b, |b|, |a| + 1 + |b|)
  {
    MantissaWithFraction(s, |a|, |b|);
    SameDigits(s[..|a|] + s[|a| + 1..|a| + 1 + |b|], a + b);
  }

  lemma SameDigits(x: string, y: string)
    requires AllDigits(x) && x == y
    ensures AllDigits(y)
  {
  }

  lemma MantissaWithFraction(s: string, a: nat, f: nat)
    requires a < |s| && s[a] == '.' && a + f > 0
    requires DigitRun(s, 0) == a && DigitRun(s, a + 1) == f
    ensures AllDigits(s[..a] + s[a + 1..a + 1 + f])
    ensures MantissaPrefix(s) == WithExponent(s, s[..a] + s[a + 1..a + 1 + f], f, a + 1 + f)
  {
  }

  lemma IntegerDigitRun(a: string, rest: string)
    requires AllDigits(a)
    requires rest == [] || !IsDigit(rest[0])
    ensures DigitRun(a + rest, 0) == |a|
  {
    var s := a + rest;
    assert forall k :: 0 <= k < |a| ==> s[k] == a[k];
    assert |a| == |s| || s[|a|] == rest[0];
    DigitRunIs(s, 0, |a|);
  }

  lemma FractionDigitRun(a: string, b: string, rest: string)
    requires AllDigits(b)
    requires rest == [] || !IsDigit(rest[0])
    ensures DigitRun(a + "." + b + rest, |a| + 1) == |b|
  {
    var s := a + "." + b + rest;
    var i := |a| + 1;
    assert forall k :: i <= k < i + |b| ==> s[k] == b[k - i];
    assert i + |b| == |s| || s[i + |b|] == rest[0];
    DigitRunIs(s, i, |b|);
  }

  /** The value of the decimal literal with integer digits `a` and fraction
      digits `b`. */
  function DecimalValue(a: string, b: string): real
    requires AllDigits(a) && AllDigits(b)
  {
    DigitsValue(a) as real + DigitsValue(b) as real / Pow10(|b|) as real
  }

  /** Dropping the point and scaling down by the number of fraction digits
      gives the value of the literal. */
  lemma DecimalFractionValue(a: string, b: string)
    requires AllDigits(a) && AllDigits(b)
    ensures AllDigits(a + b)
    ensures Scale(DigitsValue(a + b), 0 - |b|) == DecimalValue(a, b)
  {
    DigitsValueAppend(a, b);
    ScaleOfSum(DigitsValue(a), DigitsValue(b), |b|);
  }

  /** `(m * 10^k + n) * 10^-k` is `m + n / 10^k`. */
  lemma ScaleOfSum(m: nat, n: nat, k: nat)
    ensures Scale(m * Pow10(k) + n, 0 - k) == m as real + n as real / Pow10(k) as real
  {
    if k == 0 {
      assert Pow10(k) == 1;
    } else {
      SumOverPower(m, n, Pow10(k));
    }
  }

  lemma SumOverPower(m: nat, n: nat, p: nat)
    requires p >= 1
    ensures (m * p + n) as real / p as real == m as real + n as real / p as real
  {
    MultiplyAsReal(m, p);
    DivideSum(m as real, n as real, p as real);
  }

  lemma {:induction false} MultiplyAsReal(m: nat, n: nat)
    ensures (m * n) as real == m as real * n as real
  {
    if n > 0 {
      MultiplyAsReal(m, n - 1);
      assert m * n == m * (n - 1) + m;
    }
  }

  lemma DivideSum(x: real, y: real, p: real)
    requires p > 0.0
    ensures (x * p + y) / p == x + y / p
  {
    assert (x + y / p) * p == x * p + y;
  }

  /** The digit run at `i` is pinned down by its digits and what ends it. */
  lemma DigitRunIs(s: string, i: nat, n: nat)
    requires i + n <= |s|
    requires forall k :: i <= k < i + n ==> IsDigit(s[k])
    requires i + n == |s| || !IsDigit(s[i + n])
    ensures DigitRun(s, i) == n
  {
  }

  lemma NoRadixPrefix(t: string)
    requires |t| < 3 || t[0] != '0' || t[1] !in "xXoObB"
    ensures NonDecimalInteger(t) == None
  {
  }

  /** `Number` reads a string of digits as its decimal value. */
  lemma ToNumberDigits(a: string)
    requires AllDigits(a) && |a| > 0
    ensures ToNumber(a) == Finite(DigitsValue(a) as real)
  {
    ScanDigits(a);
    DigitsLiteral(a);
    ToNumberOfLiteral(a, Finite(DigitsValue(a) as real));
  }

  /** A digit string is neither trimmed nor a radix literal. */
  lemma DigitsLiteral(a: string)
    requires AllDigits(a) && |a| > 0
    ensures Trim(a) == a && NonDecimalInteger(a) == None
  {
    assert IsDigit(a[0]) && IsDigit(a[|a| - 1]);
    TrimKeeps(a);
    assert |a| >= 3 ==> IsDigit(a[1]);
    NoRadixPrefix(a);
  }

  lemma ScanDigits(a: string)
    requires AllDigits(a) && |a| > 0
    ensures DecimalPrefix(a) == Some(Scan(Finite(DigitsValue(a) as real), |a|))
  {
    assert a + [] == a;
    ScanInteger(a, []);
  }

  /** `Number` of untrimmable text that is a whole decimal literal. */
  lemma ToNumberOfLiteral(t: string, v: Number)
    requires t != [] && Trim(t) == t
    requires NonDecimalInteger(t) == None
    requires DecimalPrefix(t) == Some(Scan(v, |t|))
    ensures ToNumber(t) == v
  {
  }

  /** `Number` of untrimmable text of which a decimal literal is only a
      proper prefix. */
  lemma ToNumberOfPrefix(t: string, sc: Scan)
    requires t != [] && Trim(t) == t
    requires NonDecimalInteger(t) == None
    requires DecimalPrefix(t) == Some(sc) && sc.length < |t|
    ensures ToNumber(t) == NaN
  {
  }

  /** `Number(String(i)) == i` for every integer that prints without an exponent. */
  lemma ToNumberIntToString(i: int)
    ensures ToNumber(IntToString(i)) == Finite(i as real)
  {
    var s := IntToString(i);
    assert s + [] == s;
    ScanIntToString(i, []);
    assert !IsWhiteSpace(s[0]) && !IsWhiteSpace(s[|s| - 1]);
    TrimKeeps(s);
    NoRadixPrefix(s);
    ToNumberOfLiteral(s, Finite(i as real));
  }

  /** The printed form of an integer is read back as that integer. */
  lemma ScanIntToString(i: int, rest: string)
    requires rest == [] || !(IsDigit(rest[0]) || rest[0] == '.' || rest[0] == 'e' || rest[0] == 'E')
    ensures DecimalPrefix(IntToString(i) + rest) == Some(Scan(Finite(i as real), |IntToString(i)|))
  {
    var p := IntToString(i);
    if i >= 0 {
      ScanInteger(p, rest);
    } else {
      var a := p[1..];
      var s := p + rest;
      assert s[0] == '-';
      assert s[1..] == a + rest;
      ScanInteger(a, rest);
    }
  }

  /** `parseFloat(String(i)) == i` for every integer that prints without an
      exponent, whatever non-numeric text follows. */
  lemma ParseFloatIntToString(i: int, rest: string)
    requires rest == [] || !(IsDigit(rest[0]) || rest[0] == '.' || rest[0] == 'e' || rest[0] == 'E')
    ensures ParseFloat(IntToString(i) + rest) == Finite(i as real)
  {
    var s := IntToString(i) + rest;
    assert s[0] == IntToString(i)[0];
    TrimStartKeeps(s);
    ScanIntToString(i, rest);
    ParseFloatOfPrefix(s);
  }

  /** `Number` ignores white space on either side of its argument. */
  lemma ToNumberIgnoresWhiteSpace(w1: string, t: string, w2: string)
    requires AllWhiteSpace(w1) && AllWhiteSpace(w2)
    ensures ToNumber(w1 + t + w2) == ToNumber(t)
  {
    TrimIgnoresPadding(w1, t, w2);
  }

  /** `Number("")` and `Number("   ")` are 0, not NaN. */
  lemma ToNumberBlank(w: string)
    requires AllWhiteSpace(w)
    ensures ToNumber(w) == Finite(0.0)
  {
    assert w == w + [] + [];
    TrimIgnoresPadding(w, [], []);
  }

  /** `parseFloat` of text without leading white space is the value of its
      literal prefix. */
  lemma ParseFloatOfPrefix(t: string)
    requires TrimStart(t) == t
    ensures ParseFloat(t) == if DecimalPrefix(t).Some? then DecimalPrefix(t).value.value else NaN
  {
  }

  /** A string that is not entirely a numeric literal is NaN for `Number`,
      whereas `parseFloat` keeps the literal prefix. */
  lemma NumberVersusParseFloat(a: string, rest: string)
    requires AllDigits(a) && |a| > 0
    requires rest != [] && !(IsDigit(rest[0]) || rest[0] == '.' || rest[0] in "eExXoObB")
    requires !IsWhiteSpace(rest[|rest| - 1])
    ensures ToNumber(a + rest) == NaN
    ensures ParseFloat(a + rest) == Finite(DigitsValue(a) as real)
  {
    var s := a + rest;
    ScanInteger(a, rest);
    DigitsThenRest(s, a, rest);
    ToNumberOfPrefix(s, Scan(Finite(DigitsValue(a) as real), |a|));
    ParseFloatOfPrefix(s);
  }

  lemma DigitsThenRest(s: string, a: string, rest: string)
    requires s == a + rest
    requires AllDigits(a) && |a| > 0
    requires rest != [] && !(IsDigit(rest[0]) || rest[0] in "xXoObB")
    requires !IsWhiteSpace(rest[|rest| - 1])
    ensures Trim(s) == s && TrimStart(s) == s && NonDecimalInteger(s) == None
  {
    assert s[0] == a[0] && s[|s| - 1] == rest[|rest| - 1];
    TrimKeeps(s);
    assert s[|a|] == rest[0];
    assert |s| >= 3 ==> s[1] == if |a| > 1 then a[1] else rest[0];
    NoRadixPrefix(s);
  }
}
