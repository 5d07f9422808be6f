/** JavaScript numbers as the application sees them: a finite value, NaN or
    a signed infinity, and the numeric built-ins it calls (`parseFloat`,
    `Math.floor`, the `%` operator, relational comparisons with a constant).
    Finite values are exact reals: rounding to the nearest double is not
    modelled, overflow to an infinity is. */
module JsNumber {
  import opened JsString

  datatype Number = Finite(x: real) | NaN | Infinity(negative: bool)

  function Pow10(e: nat): (r: nat)
    ensures r >= 1
  {
    if e == 0 then 1 else 10 * Pow10(e - 1)
  }

  /** The magnitude from which round-to-nearest gives an infinity: 2^1024 - 2^970. */
  const OverflowBound: real := 179769313486231580793728971405303415079934132710037826936173778980444968292764750946649017977587207096330286416692887910946555547851940402630657488671505820681908902000708383676273854845817711531764475730270069855571366959622842914819860834936475292719074168444365510704342711559699508093042880177904174497792.0

  /** The JavaScript number an exact decimal value denotes. */
  function FromReal(v: real): (n: Number)
    ensures n.Finite? <==> -OverflowBound < v < OverflowBound
    ensures n.Finite? ==> n.x == v
    ensures n.Infinity? ==> (n.negative <==> v < 0.0)
    ensures !n.NaN?
  {
    if v >= OverflowBound then Infinity(false)
    else if v <= -OverflowBound then Infinity(true)
    else Finite(v)
  }

  /** `n < c` for a finite constant `c`: false for NaN. */
  predicate LessThan(n: Number, c: real) {
    match n
    case Finite(x) => x < c
    case NaN => false
    case Infinity(neg) => neg
  }

  /** `n > c` for a finite constant `c`: false for NaN. */
  predicate GreaterThan(n: Number, c: real) {
    match n
    case Finite(x) => x > c
    case NaN => false
    case Infinity(neg) => !neg
  }

  /** `Math.trunc` on a finite value. */
  function Trunc(r: real): (t: int)
    ensures r >= 0.0 ==> t == r.Floor
    ensures r < 0.0 ==> t == -((-r).Floor)
  {
    if r >= 0.0 then r.Floor else -((-r).Floor)
  }

  /** JavaScript's `x % y`: the remainder of truncating division, with the sign of `x`. */
  function Rem(x: real, y: real): real
    requires y > 0.0
  {
    x - y * Trunc(x / y) as real
  }

  /** On a non-negative dividend the remainder is the floored-division
      remainder, in `[0, y)`. */
  lemma RemOfNonNegative(x: real, y: real)
    requires y > 0.0 && x >= 0.0
    ensures 0.0 <= Rem(x, y) < y
    ensures Rem(x, y) == x - y * (x / y).Floor as real
  {
    var q := x / y;
    var t := Trunc(q) as real;
    assert q * y == x;
    assert q >= 0.0 && t == q.Floor as real;
    var d := q - t;
    assert Rem(x, y) == y * d;
    ScaleFraction(y, d);
  }

  lemma ScaleFraction(y: real, d: real)
    requires y > 0.0 && 0.0 <= d < 1.0
    ensures 0.0 <= y * d < y
  {
    assert y * d < y * 1.0;
  }

  /** The exponent written at `b` (`e`/`E`, an optional sign and at least one digit), or 0 when there is none. */
  function ExponentAt(s: string, b: nat): int
    requires b <= |s|
  {
    if b < |s| && (s[b] == 'e' || s[b] == 'E') then
      var k := if b + 1 < |s| && (s[b + 1] == '+' || s[b + 1] == '-') then b + 2 else b + 1;
      if k > |s| then 0
      else
        var c := DigitEnd(s, k);
        if c == k then 0
        else if s[b + 1] == '-' then -(DigitsValue(s[k..c]) as int)
        else DigitsValue(s[k..c])
    else 0
  }

  /** `parseFloat(s)`: leading whitespace is skipped, then the longest prefix
      that spells a decimal literal (an optional sign, then `Infinity` or
      digits with an optional fraction and exponent) is read; no prefix gives NaN. */
  function ParseFloat(s: string): (n: Number)
    ensures n.Finite? ==> exists k :: 0 <= k < |s| && IsDigit(s[k])
  {
    var i := TrimOffset(s);
    var neg := i < |s| && s[i] == '-';
    var j := if i < |s| && (s[i] == '-' || s[i] == '+') then i + 1 else i;
    if OccursAt(s, j, "Infinity") then Infinity(neg)
    else
      var a := DigitEnd(s, j);
      var hasDot := a < |s| && s[a] == '.';
      var f := if hasDot then a + 1 else a;
      var b := DigitEnd(s, f);
      var b' := if hasDot then b else a;
      if a == j && b' == f then NaN
      else
        assert a > j ==> IsDigit(s[j..a][0]);
        assert a == j ==> IsDigit(s[f..b][0]);
        var mant := DigitsValue(s[j..a]) as real + DigitsValue(s[f..b']) as real / Pow10(b' - f) as real;
        var e := ExponentAt(s, b');
        var mag := if e >= 0 then mant * Pow10(e) as real else mant / Pow10(-e) as real;
        FromReal(if neg then -mag else mag)
  }
}
