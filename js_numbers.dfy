/** The parts of JavaScript's number semantics that the codecs depend on:
    truncation toward zero, the `%` remainder on doubles, the 32-bit
    conversions behind `>>>`, `|` and `<<`, and `String.fromCharCode`, which
    keeps the low 16 bits of the truncated argument. Doubles are modelled as
    exact reals; every value the codecs divide stays below 2^32, far from the
    point where a double's rounding could move a quotient across an integer. */
module JsNumbers {

  /** A UTF-16 code unit: a character of a JavaScript string. */
  type CodeUnit = c: int | 0 <= c < 0x1_0000

  const TwoTo32 := 0x1_0000_0000

  /** ToIntegerOrInfinity on a finite number: drop the fraction toward zero. */
  function Trunc(r: real): (t: int)
    ensures r >= 0.0 ==> 0 <= t && t as real <= r < t as real + 1.0
    ensures r < 0.0 ==> t <= 0 && t as real - 1.0 < r <= t as real
  {
    if r >= 0.0 then r.Floor else -((-r).Floor)
  }

  /** `a % d` on doubles: the remainder takes the sign of the dividend. */
  function JsRem(a: real, d: real): (r: real)
    requires d > 0.0
    ensures a >= 0.0 ==> 0.0 <= r < d
    ensures a < 0.0 ==> -d < r <= 0.0
    ensures ((a - r) / d).Floor as real == (a - r) / d
  {
    RemBounds(a, d);
    var t := Trunc(a / d) as real;
    WholeQuotient(d, t);
    a - d * t
  }

  /** A whole multiple of `d`, divided by `d`, is that whole number. */
  lemma WholeQuotient(d: real, t: real)
    requires d > 0.0 && t.Floor as real == t
    ensures (d * t) / d == t
  {
  }

  /** The quotient truncated toward zero leaves a remainder of the
      dividend's sign, smaller than the divisor. */
  lemma RemBounds(a: real, d: real)
    requires d > 0.0
    ensures var r := a - d * Trunc(a / d) as real;
      (a >= 0.0 ==> 0.0 <= r < d) && (a < 0.0 ==> -d < r <= 0.0)
  {
    var q := a / d;
    QuotientSign(a, d, q);
    ScaledBetween(a, d, q, Trunc(q) as real);
  }

  lemma QuotientSign(a: real, d: real, q: real)
    requires d > 0.0 && a == d * q
    ensures a >= 0.0 <==> q >= 0.0
  {
    if q < 0.0 {
      ScaleLt(d, q, 0.0);
    } else {
      ScaleLe(d, 0.0, q);
    }
  }

  lemma ScaledBetween(a: real, d: real, q: real, t: real)
    requires d > 0.0 && a == d * q
    ensures t <= q < t + 1.0 ==> d * t <= a < d * t + d
    ensures t - 1.0 < q <= t ==> d * t - d < a <= d * t
  {
    var up, down := t + 1.0, t - 1.0;
    assert d * up == d * t + d by { assert d * up - d * t == d * (up - t); }
    assert d * down == d * t - d by { assert d * t - d * down == d * (t - down); }
    if t <= q < up {
      ScaleLe(d, t, q);
      ScaleLt(d, q, up);
      assert a < d * up;
    }
    if down < q <= t {
      ScaleLt(d, down, q);
      ScaleLe(d, q, t);
      assert d * down < a;
    }
  }

  lemma ScaleLe(d: real, x: real, y: real)
    requires d > 0.0
    requires x <= y
    ensures d * x <= d * y
  {
    assert d * y - d * x == d * (y - x);
  }

  lemma ScaleLt(d: real, x: real, y: real)
    requires d > 0.0
    requires x < y
    ensures d * x < d * y
  {
    assert d * y - d * x == d * (y - x);
  }

  /** `n >>> 0`: the value modulo 2^32, read unsigned. */
  function ToUint32(n: int): (u: int)
    ensures 0 <= u < TwoTo32
    ensures (u - n) % TwoTo32 == 0
  {
    n % TwoTo32
  }

  /** A value already in range is its own `>>> 0`. */
  lemma Uint32Small(n: int)
    requires 0 <= n < TwoTo32
    ensures ToUint32(n) == n
  {
  }

  /** `n | 0` and the other signed bitwise results: modulo 2^32, read as a
      two's-complement 32-bit value. */
  function ToInt32(n: int): (i: int)
    ensures -0x8000_0000 <= i < 0x8000_0000
    ensures (i - n) % TwoTo32 == 0
  {
    var u := ToUint32(n);
    if u >= 0x8000_0000 then u - TwoTo32 else u
  }

  /** `String.fromCharCode(r)`: the code unit of the truncated argument
      modulo 2^16. */
  function FromCharCode(r: real): (c: CodeUnit)
    ensures 0.0 <= r < 65536.0 ==> c == r.Floor
    ensures (c - Trunc(r)) % 0x1_0000 == 0
  {
    Trunc(r) % 0x1_0000
  }

  /** Dividing two integers as doubles and truncating gives integer division. */
  lemma RealQuotientFloor(n: int, p: int)
    requires n >= 0 && p > 0
    ensures (n as real / p as real).Floor == n / p
  {
    var q, r := n / p, n % p;
    assert n == q * p + r;
    assert n as real == q as real * p as real + r as real;
    assert n as real / p as real == q as real + r as real / p as real;
    assert 0.0 <= r as real / p as real < 1.0;
  }

  lemma MulLeft(a: int, x: int, y: int)
    requires a >= 0 && x <= y
    ensures a * x <= a * y
  {
    assert a * y - a * x == a * (y - x);
  }

  /** Quotient and remainder are unique. */
  lemma DivUnique(n: int, d: int, q: int, r: int)
    requires d > 0 && n == d * q + r && 0 <= r < d
    ensures n / d == q
  {
    var q', r' := n / d, n % d;
    assert n == d * q' + r';
    assert d * q - d * q' == d * (q - q');
    if q > q' {
      MulLeft(d, 1, q - q');
    } else if q < q' {
      MulLeft(d, 1, q' - q);
    }
  }

  /** Dividing by `a * b` is dividing by `a`, then by `b`. */
  lemma DivDiv(n: int, a: int, b: int)
    requires n >= 0 && a > 0 && b > 0
    ensures n / (a * b) == n / a / b
  {
    var q, r := n / a, n % a;
    var q2, r2 := q / b, q % b;
    assert q == b * q2 + r2;
    assert n == a * q + r;
    assert a * q == a * (b * q2) + a * r2;
    assert a * (b * q2) == (a * b) * q2;
    assert a * r2 <= a * (b - 1) by { MulLeft(a, r2, b - 1); }
    assert a * (b - 1) == a * b - a;
    DivUnique(n, a * b, q2, a * r2 + r);
  }

  /** Reducing modulo `a * b` first does not change the remainder modulo `a`. */
  lemma ModOfMod(n: int, a: int, b: int)
    requires n >= 0 && a > 0 && b > 0
    ensures n % (a * b) % a == n % a
  {
    var u := n % (a * b);
    var q := n / (a * b);
    assert n == (a * b) * q + u;
    assert (a * b) * q == a * (b * q);
    var r := u % a;
    assert u == a * (u / a) + r;
    assert n == a * (b * q + u / a) + r by {
      assert a * (b * q + u / a) == a * (b * q) + a * (u / a);
    }
    DivUnique(n, a, b * q + u / a, r);
  }
}
