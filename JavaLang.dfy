/** The few pieces of Java semantics the model depends on: the signed 8-bit `byte`,
    the truncating integer operators `/` and `%`, and the decimal rendering of an `int`. */
module JavaLang {

  /** Java's `byte`: a signed two's-complement 8-bit integer. */
  newtype int8 = x: int | -128 <= x < 128

  function Abs(x: int): (r: int)
    ensures r >= 0 && (r == x || r == -x)
  {
    if x < 0 then -x else x
  }

  /** Java's `a / b` on `int`: the quotient rounded toward zero (JLS 15.17.2).
      The remainder it leaves has the sign of the dividend and is smaller than the divisor. */
  function JDiv(a: int, b: int): (q: int)
    requires b != 0
    ensures a >= 0 ==> 0 <= a - b * q < Abs(b)
    ensures a < 0 ==> -Abs(b) < a - b * q <= 0
  {
    var m, n := Abs(a), Abs(b);
    var t := m / n;
    assert 0 <= m - n * t < n by { EuclidFact(m, n); }
    var q := if (a < 0) == (b < 0) then t else -t;
    assert a - b * q == (if a < 0 then -(m - n * t) else m - n * t) by { SignFact(a, b, t); }
    q
  }

  lemma EuclidFact(m: int, n: int)
    requires m >= 0 && n > 0
    ensures 0 <= m - n * (m / n) < n
  {
  }

  lemma SignFact(a: int, b: int, t: int)
    requires b != 0
    ensures a - b * (if (a < 0) == (b < 0) then t else -t)
         == (if a < 0 then -(Abs(a) - Abs(b) * t) else Abs(a) - Abs(b) * t)
  {
    if b < 0 {
      assert b * t == -(Abs(b) * t);
      assert b * -t == Abs(b) * t;
    } else {
      assert b * -t == -(Abs(b) * t);
    }
  }

  /** Java's `a % b` on `int`, defined as `a - (a / b) * b` (JLS 15.17.3). */
  function JRem(a: int, b: int): (r: int)
    requires b != 0
    ensures a >= 0 ==> 0 <= r < Abs(b)
    ensures a < 0 ==> -Abs(b) < r <= 0
  {
    a - b * JDiv(a, b)
  }

  /** The truncating quotient is the only integer whose remainder has the dividend's sign
      and lies strictly inside the divisor's magnitude. */
  lemma JDivUnique(a: int, b: int, q: int)
    requires b != 0
    requires a >= 0 ==> 0 <= a - b * q < Abs(b)
    requires a < 0 ==> -Abs(b) < a - b * q <= 0
    ensures q == JDiv(a, b)
  {
    var p := JDiv(a, b);
    var r1, r2 := a - b * p, a - b * q;
    assert -Abs(b) < r1 - r2 < Abs(b);
    Distribute(b, q, p);
    if q != p {
      MulAtLeastFactor(b, q - p);
    }
  }

  lemma Distribute(b: int, q: int, p: int)
    ensures b * (q - p) == b * q - b * p
  {
  }

  lemma MulAtLeastFactor(b: int, d: int)
    requires b != 0 && d != 0
    ensures b * d >= Abs(b) || b * d <= -Abs(b)
    decreases Abs(d), if d < 0 then 1 else 0
  {
    if d > 0 {
      assert b * d == b + b * (d - 1);
      if d > 1 { MulAtLeastFactor(b, d - 1); }
    } else {
      assert b * d == -(b * -d);
      MulAtLeastFactor(b, -d);
    }
  }

  /** The decimal digit character for `d`. */
  function DigitChar(d: nat): (c: char)
    requires d < 10
    ensures '0' <= c <= '9' && c as int - '0' as int == d
  {
    (('0' as int) + d) as char
  }

  /** `Integer.toString(n)` for a non-negative `n`: its decimal digits, most significant first. */
  function NatToDecimal(n: nat): (s: string)
    ensures |s| > 0
    ensures forall i :: 0 <= i < |s| ==> '0' <= s[i] <= '9'
    ensures n > 0 ==> s[0] != '0'
    decreases n
  {
    if n < 10 then [DigitChar(n)] else NatToDecimal(n / 10) + [DigitChar(n % 10)]
  }

  /** The number a string of decimal digits denotes (a reference reader for `NatToDecimal`). */
  function DecimalValue(s: string): (n: nat)
    requires forall i :: 0 <= i < |s| ==> '0' <= s[i] <= '9'
  {
    if s == [] then 0
    else 10 * DecimalValue(s[..|s| - 1]) + (s[|s| - 1] as int - '0' as int)
  }

  /** Reading back the rendering of `n` gives `n`. */
  lemma {:induction false} DecimalRoundTrip(n: nat)
    ensures DecimalValue(NatToDecimal(n)) == n
    decreases n
  {
    var s := NatToDecimal(n);
    if n >= 10 {
      DecimalRoundTrip(n / 10);
      assert s[..|s| - 1] == NatToDecimal(n / 10);
    }
  }
}
