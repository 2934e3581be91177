/** Shared vocabulary of the watermark model: an option type, exact rationals
    standing for the program's floating-point settings, and the two integer
    divisions the program relies on (`//` floors, `int()` of a quotient
    truncates towards zero). */
module Common {

  datatype Option<T> = None | Some(value: T)

  /** A fraction num/den; a Ratio has a positive denominator. The command-line
      floats (scale percent, opacities) are modelled as exact Ratios. */
  datatype Fraction = Fraction(num: int, den: int)
  type Ratio = f: Fraction | f.den > 0 witness Fraction(0, 1)

  /** No element occurs twice. */
  predicate Distinct<T(==)>(s: seq<T>) {
    forall i, j :: 0 <= i < j < |s| ==> s[i] != s[j]
  }

  function Min(a: int, b: int): (m: int)
    ensures m <= a && m <= b && (m == a || m == b)
  {
    if a <= b then a else b
  }

  /** Python's `a // b` for a positive divisor: rounds towards minus infinity. */
  function FloorDiv(a: int, b: int): (q: int)
    requires b > 0
    ensures q * b <= a < q * b + b
  {
    a / b
  }

  /** Python's `int(a / b)` for a positive divisor, the quotient taken exactly:
      rounds towards zero. */
  function TruncDiv(a: int, b: int): (q: int)
    requires b > 0
    ensures 0 <= a ==> 0 <= q && q * b <= a < q * b + b
    ensures a <= 0 ==> q <= 0 && q * b - b < a <= q * b
  {
    if a >= 0 then a / b else -((-a) / b)
  }

  /** A non-negative dividend of at most `c` times the divisor has a
      quotient of at most `c`. */
  lemma TruncDivAtMost(a: int, b: int, c: int)
    requires b > 0 && 0 <= a <= c * b
    ensures TruncDiv(a, b) <= c
  {
    MulCancelLe(TruncDiv(a, b), c, b);
  }

  /** An exact multiple divides back. */
  lemma TruncDivExact(c: int, b: int)
    requires b > 0 && 0 <= c
    ensures TruncDiv(c * b, b) == c
  {
    var q := TruncDiv(c * b, b);
    MulCancelLe(q, c, b);
    assert c * b < (q + 1) * b;
    MulCancel(c, q + 1, b);
  }

  /** A truncated quotient grows with its dividend. */
  lemma TruncDivMonotone(a: int, a': int, b: int)
    requires b > 0 && a <= a'
    ensures TruncDiv(a, b) <= TruncDiv(a', b)
  {
    if 0 <= a {
      FloorDivMonotone(a, a', b);
    } else if a' <= 0 {
      FloorDivMonotone(-a', -a, b);
    }
  }

  /** Scaling dividend and divisor by the same positive factor keeps the
      truncated quotient. */
  lemma TruncDivScale(a: int, b: int, c: int)
    requires b > 0 && c > 0
    ensures b * c > 0 && TruncDiv(a * c, b * c) == TruncDiv(a, b)
  {
    MulMonotone(1, b, c);
    if a >= 0 {
      FloorDivScale(a, b, c);
    } else {
      assert a * c == -((-a) * c);
      MulMonotone(a, 0, c);
      FloorDivScale(-a, b, c);
    }
  }

  /** Of two quotients, the one with the smaller cross product is smaller. */
  lemma TruncDivCrossMonotone(a: int, b: int, a': int, b': int)
    requires b > 0 && b' > 0 && a * b' <= a' * b
    ensures TruncDiv(a, b) <= TruncDiv(a', b')
  {
    TruncDivScale(a, b, b');
    TruncDivScale(a', b', b);
    assert b * b' == b' * b;
    TruncDivMonotone(a * b', a' * b, b * b');
  }

  lemma FloorDivScale(a: int, b: int, c: int)
    requires a >= 0 && b > 0 && c > 0
    ensures b * c > 0 && (a * c) / (b * c) == a / b
  {
    MulMonotone(1, b, c);
    ScaleBounds(a / b, a, b, c);
    FloorUnique(a / b, a * c, b * c);
  }

  /** Multiplying `q * b <= a < q * b + b` through by a positive `c`. */
  lemma ScaleBounds(q: int, a: int, b: int, c: int)
    requires b > 0 && c > 0 && q * b <= a < q * b + b
    ensures q * (b * c) <= a * c < q * (b * c) + b * c
  {
    MulMonotone(q * b, a, c);
    MulMonotone(a + 1, q * b + b, c);
    assert (q * b) * c == q * (b * c);
    assert (q * b + b) * c == q * (b * c) + b * c;
    assert (a + 1) * c == a * c + c;
  }

  /** The floor quotient is the only `q` with `q * d <= a < q * d + d`. */
  lemma FloorUnique(q: int, a: int, d: int)
    requires d > 0 && q * d <= a < q * d + d
    ensures a / d == q
  {
    var r := a / d;
    assert (r + 1) * d == r * d + d && (q + 1) * d == q * d + d;
    MulCancel(q, r + 1, d);
    MulCancel(r, q + 1, d);
  }

  lemma FloorDivMonotone(a: int, a': int, b: int)
    requires b > 0 && 0 <= a <= a'
    ensures a / b <= a' / b
  {
    var q, q' := a / b, a' / b;
    assert q * b <= a && a' < q' * b + b;
    assert q' * b + b == (q' + 1) * b;
    MulCancel(q, q' + 1, b);
  }

  lemma MulCancelLe(x: int, y: int, b: int)
    requires b > 0 && x * b <= y * b
    ensures x <= y
  {
    assert x * b < (y + 1) * b by { assert (y + 1) * b == y * b + b; }
    MulCancel(x, y + 1, b);
  }

  lemma MulCancel(x: int, y: int, b: int)
    requires b > 0 && x * b < y * b
    ensures x < y
  {
    if x >= y { MulMonotone(y, x, b); }
  }

  lemma MulMonotone(x: int, y: int, b: int)
    requires x <= y && b >= 0
    ensures x * b <= y * b
  {
    assert y * b - x * b == (y - x) * b;
  }
}
