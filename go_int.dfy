/** Go's 64-bit `int` and its integer division, as far as the agent uses them. */
module GoInt {

  const MinInt64: int := -0x8000_0000_0000_0000
  const MaxInt64: int := 0x7FFF_FFFF_FFFF_FFFF

  /** Fits in a Go `int` on a 64-bit platform. */
  predicate InInt64(n: int) {
    MinInt64 <= n <= MaxInt64
  }

  /**
   * Go's integer `/` for a positive divisor. The Go specification defines it by
   * `a == q * b + r` with `|r| < |b|` and `r` carrying the sign of `a`, that is,
   * the quotient truncated toward zero; Dafny's own `/` is Euclidean and differs
   * on a negative dividend. Every division in the agent has a positive divisor.
   */
  function Quo(a: int, b: int): (q: int)
    requires b > 0
    ensures a >= 0 ==> 0 <= a - q * b < b
    ensures a < 0 ==> -b < a - q * b <= 0
  {
    if a >= 0 then a / b else -((-a) / b)
  }

  /** The truncated-division property determines the quotient. */
  lemma QuoUnique(a: int, b: int, q: int)
    requires b > 0
    requires a >= 0 ==> 0 <= a - q * b < b
    requires a < 0 ==> -b < a - q * b <= 0
    ensures q == Quo(a, b)
  {
    var p := Quo(a, b);
    var d := q - p;
    assert d * b == (a - p * b) - (a - q * b);
    assert -b < d * b < b;
    assert d >= 1 ==> d * b >= b;
    assert d <= -1 ==> d * b <= -b;
  }

  /**
   * Dividing twice by positive divisors, as `x / 1024 / 1024` does, is one
   * truncating division by their product.
   */
  lemma QuoQuo(a: int, b: int, c: int)
    requires b > 0 && c > 0
    ensures b * c > 0 && Quo(Quo(a, b), c) == Quo(a, b * c)
  {
    MulPos(b, c);
    DivDiv(if a >= 0 then a else -a, b, c);
    QuoQuoOf(a, b, c, b * c);
  }

  /** `QuoQuo` once the product is named `d` and the magnitudes are known to agree. */
  lemma QuoQuoOf(a: int, b: int, c: int, d: int)
    requires b > 0 && c > 0 && d > 0
    requires a >= 0 ==> a / b / c == a / d
    requires a < 0 ==> (-a) / b / c == (-a) / d
    ensures Quo(Quo(a, b), c) == Quo(a, d)
  {
    if a >= 0 {
      var q1 := a / b;
      DivNonneg(a, b);
      assert Quo(a, b) == q1;
      assert Quo(q1, c) == q1 / c;
    } else {
      var q1 := (-a) / b;
      DivNonneg(-a, b);
      QuoNonpos(a, b);
      QuoNonpos(-q1, c);
      QuoNonpos(a, d);
    }
  }

  lemma DivNonneg(a: int, b: int)
    requires a >= 0 && b > 0
    ensures a / b >= 0
  {
  }

  /** On a non-positive dividend, truncation mirrors the division of its negation. */
  lemma QuoNonpos(a: int, b: int)
    requires a <= 0 && b > 0
    ensures Quo(a, b) == -((-a) / b)
  {
  }

  lemma MulPos(b: int, c: int)
    requires b > 0 && c > 0
    ensures b * c > 0
  {
    MulNonneg(b - 1, c);
    Distrib(b, 1, c);
  }

  /** The same fact for Dafny's own division of a non-negative dividend. */
  lemma DivDiv(a: int, b: int, c: int)
    requires a >= 0 && b > 0 && c > 0
    ensures a / b / c == a / (b * c)
  {
    var q1, r1 := a / b, a % b;
    var q, r2 := q1 / c, q1 % c;
    assert a == (q * c + r2) * b + r1;
    Distrib(q * c, -r2, b);
    assert q * c * b == q * (b * c);
    RemainderBelow(r1, r2, b, c);
    DivUnique(a, b * c, q, r2 * b + r1);
  }

  lemma DivUnique(a: int, d: int, q: int, r: int)
    requires d > 0 && 0 <= r < d && a == q * d + r
    ensures a / d == q
  {
    var p := a / d;
    Distrib(q, p, d);
    assert (q - p) * d == a % d - r;
    assert q - p >= 1 ==> (q - p) * d >= d by {
      if q - p >= 1 {
        MulNonneg(q - p - 1, d);
        Distrib(q - p, 1, d);
      }
    }
    assert q - p <= -1 ==> (q - p) * d <= -d by {
      if q - p <= -1 {
        MulNonneg(p - q - 1, d);
        Distrib(p - q, 1, d);
        Distrib(p, q, d);
        Distrib(q, p, d);
      }
    }
  }

  /** The remainder left by two successive divisions stays below the product. */
  lemma RemainderBelow(r1: int, r2: int, b: int, c: int)
    requires 0 <= r1 < b && 0 <= r2 < c
    ensures 0 <= r2 * b + r1 < b * c
  {
    MulNonneg(r2, b);
    MulNonneg(c - 1 - r2, b);
    Distrib(c - 1, r2, b);
    Distrib(c, 1, b);
    assert c * b == b * c;
  }

  lemma MulBelow(x: int, y: int, b: int)
    requires x <= y && b >= 0
    ensures x * b <= y * b
  {
    MulNonneg(y - x, b);
    Distrib(y, x, b);
  }

  lemma MulNonneg(x: int, y: int)
    requires x >= 0 && y >= 0
    ensures x * y >= 0
  {
  }

  lemma Distrib(x: int, y: int, z: int)
    ensures (x - y) * z == x * z - y * z
  {
  }
}
