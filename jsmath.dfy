/**
 * Integer readings of the JavaScript arithmetic the dashboards use:
 * `Math.round(a / b)`, `Math.floor(a / b)` and `Math.min`, taken over
 * exact rationals a/b with b > 0 (Dafny's `/` on int is floor division
 * when the divisor is positive).
 */
module JsMath {

  function Min(a: int, b: int): (m: int)
    ensures m <= a && m <= b && (m == a || m == b)
  {
    if a <= b then a else b
  }

  /** JavaScript's `a % b` for b > 0: the remainder takes the sign of the dividend. */
  function JsRem(a: int, b: int): (r: int)
    requires b > 0
    ensures a >= 0 ==> 0 <= r < b
    ensures a < 0 ==> -b < r <= 0
  {
    if a >= 0 then a % b else -((-a) % b)
  }

  /** `Math.round(a / b)`: the integer nearest to a/b, halves rounded up. */
  function RoundDiv(a: int, b: int): (r: int)
    requires b > 0
    ensures 2 * b * r <= 2 * a + b < 2 * b * r + 2 * b
  {
    (2 * a + b) / (2 * b)
  }

  lemma MulLe(a: int, b: int, c: int)
    requires a <= b && c >= 0
    ensures a * c <= b * c
  {
    assert b * c - a * c == (b - a) * c;
  }

  lemma MulLt(a: int, b: int, c: int)
    requires a < b && c > 0
    ensures a * c < b * c
  {
    assert b * c - a * c == (b - a) * c;
  }

  /** Floor division is monotone in the quotient: x1/y1 <= x2/y2 as rationals gives the same on floors. */
  lemma FloorDivMonotone(x1: int, y1: int, x2: int, y2: int)
    requires y1 > 0 && y2 > 0
    requires x1 * y2 <= x2 * y1
    ensures x1 / y1 <= x2 / y2
  {
    var q1, q2 := x1 / y1, x2 / y2;
    assert y1 * q1 <= x1;
    assert x2 < y2 * q2 + y2;
    if q1 > q2 {
      MulLe(q2 + 1, q1, y2);
      assert x2 < q1 * y2;
      MulLt(x2, q1 * y2, y1);
      assert false;
    }
  }

  /** Rounding preserves the order of two exact quotients. */
  lemma RoundDivMonotone(a1: int, b1: int, a2: int, b2: int)
    requires b1 > 0 && b2 > 0
    requires a1 * b2 <= a2 * b1
    ensures RoundDiv(a1, b1) <= RoundDiv(a2, b2)
  {
    assert (2 * a1 + b1) * (2 * b2) == 4 * (a1 * b2) + 2 * b1 * b2;
    assert (2 * a2 + b2) * (2 * b1) == 4 * (a2 * b1) + 2 * b1 * b2;
    FloorDivMonotone(2 * a1 + b1, 2 * b1, 2 * a2 + b2, 2 * b2);
  }

  /** The rounded quotient reaches k exactly when a/b is at least k - 1/2. */
  lemma RoundDivAtLeast(a: int, b: int, k: int)
    requires b > 0
    ensures RoundDiv(a, b) >= k <==> 2 * b * k <= 2 * a + b
  {
    var r := RoundDiv(a, b);
    assert (r + 1) * (2 * b) == 2 * b * r + 2 * b;
    assert k * (2 * b) == 2 * b * k;
    assert r * (2 * b) == 2 * b * r;
    if r >= k {
      MulLe(k, r, 2 * b);
    } else {
      MulLe(r + 1, k, 2 * b);
    }
  }

  /** Two exact quotients with the same value round alike; a whole quotient rounds to itself. */
  lemma RoundDivExact(q: int, b: int)
    requires b > 0
    ensures RoundDiv(q * b, b) == q
  {
    var r := RoundDiv(q * b, b);
    assert 2 * b * r <= 2 * (q * b) + b < 2 * b * r + 2 * b;
    assert (r + 1) * (2 * b) == 2 * b * r + 2 * b;
    assert q * (2 * b) == 2 * (q * b);
    assert (q + 1) * (2 * b) == 2 * (q * b) + 2 * b;
    assert r * (2 * b) == 2 * b * r;
    if r < q {
      MulLe(r + 1, q, 2 * b);
      assert false;
    } else if r > q {
      MulLe(q + 1, r, 2 * b);
      assert false;
    }
  }
}
