/** Python's round() on an exact quotient: nearest integer, ties to the even neighbour. */
module Rounding {

  /** r is a nearest integer to a / b, and the even one when two are equally near. */
  predicate IsRounding(a: int, b: int, r: int) {
    && -b <= 2 * (r * b - a) <= b
    && (2 * (r * b - a) == b || 2 * (r * b - a) == -b ==> r % 2 == 0)
  }

  function RoundDiv(a: nat, b: nat): (r: nat)
    requires b > 0
    ensures IsRounding(a, b, r)
  {
    var q, rest := a / b, a % b;
    assert a == q * b + rest;
    assert (q + 1) * b == q * b + b;
    if 2 * rest < b || (2 * rest == b && q % 2 == 0) then q else q + 1
  }

  /** Multiplying by b keeps the order, and keeps integers b apart. */
  lemma {:induction false} MulStep(x: int, y: int, b: nat)
    ensures x <= y ==> x * b <= y * b
    ensures x < y ==> x * b + b <= y * b
  {
    if b > 0 {
      MulStep(x, y, b - 1);
      assert x * b == x * (b - 1) + x && y * b == y * (b - 1) + y;
    }
  }

  /** A quotient is known by its bounds. */
  lemma DivIsUnique(n: int, b: nat, q: int)
    requires b > 0 && q * b <= n < q * b + b
    ensures n / b == q
  {
    MulStep(q, n / b, b);
    MulStep(n / b, q, b);
    assert n == n / b * b + n % b;
  }

  /** The two-clause description of rounding leaves one candidate only. */
  lemma RoundingIsUnique(a: nat, b: nat, r: nat)
    requires b > 0 && IsRounding(a, b, r)
    ensures r == RoundDiv(a, b)
  {
    var q := RoundDiv(a, b);
    MulStep(r, q, b);
    MulStep(q, r, b);
    MulStep(r + 1, q, b);
    MulStep(q + 1, r, b);
    assert (r + 1) * b == r * b + b;
    assert (q + 1) * b == q * b + b;
  }

  /** Rounding depends on the quotient only, not on the fraction that writes it. */
  lemma RoundSameQuotient(a: nat, b: nat, c: nat, d: nat)
    requires b > 0 && d > 0 && a * d == c * b
    ensures RoundDiv(a, b) == RoundDiv(c, d)
  {
    var r := RoundDiv(a, b);
    ScaledError(a, b, c, d, r);
    var x, y := 2 * (r * b - a), 2 * (r * d - c);
    SameSide(x, b, y, d);
    RoundingIsUnique(c, d, r);
  }

  lemma ScaledError(a: nat, b: nat, c: nat, d: nat, r: nat)
    requires a * d == c * b
    ensures 2 * (r * d - c) * b == 2 * (r * b - a) * d
  {
    assert r * d * b == r * b * d;
    assert 2 * (r * d - c) * b == 2 * (r * d * b) - 2 * (c * b);
    assert 2 * (r * b - a) * d == 2 * (r * b * d) - 2 * (a * d);
  }

  /** x / b == y / d compares with 1 and with -1 the same way on both sides. */
  lemma SameSide(x: int, b: int, y: int, d: int)
    requires b > 0 && d > 0 && y * b == x * d
    ensures x <= b ==> y <= d
    ensures -b <= x ==> -d <= y
    ensures y == d ==> x == b
    ensures y == -d ==> x == -b
  {
    MulStep(x, b, d);
    MulStep(-b, x, d);
    MulStep(d, y, b);
    MulStep(y, -d, b);
    MulStep(b, x, d);
    MulStep(x, -b, d);
    assert b * d == d * b && (-b) * d == (-d) * b;
  }

  lemma RoundExact(q: nat, b: nat)
    requires b > 0
    ensures RoundDiv(q * b, b) == q
  {
    RoundingIsUnique(q * b, b, q);
  }
}
