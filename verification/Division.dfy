/** The few facts about quotients and remainders that the position clock, the rings and
    the resampler share. */
module Division {
  lemma MulMono(a: int, b: int, m: int)
    requires a <= b && m >= 0
    ensures a * m <= b * m
  {
  }

  /** Quotient and remainder are the only pair that rebuilds x. */
  lemma DivUnique(x: int, d: int, q: int, r: int)
    requires d > 0 && x == q * d + r && 0 <= r < d
    ensures x / d == q && x % d == r
  {
    var p := x / d;
    assert x == p * d + x % d;
    assert (q - p) * d == x % d - r;
    if q - p >= 1 {
      MulMono(1, q - p, d);
    } else if q - p <= -1 {
      MulMono(q - p, -1, d);
    }
  }

  lemma ModAddMultiple(x: int, d: int, k: int)
    requires d > 0
    ensures (x + k * d) % d == x % d && (x + k * d) / d == x / d + k
  {
    assert x == (x / d) * d + x % d;
    assert x + k * d == (x / d + k) * d + x % d;
    DivUnique(x + k * d, d, x / d + k, x % d);
  }

  lemma ModOfSum(a: int, b: int, d: int)
    requires d > 0
    ensures (a % d + b % d) % d == (a + b) % d
  {
    var k := a / d + b / d;
    assert a == (a / d) * d + a % d && b == (b / d) * d + b % d;
    assert a + b == a % d + b % d + k * d;
    ModAddMultiple(a % d + b % d, d, k);
  }

  lemma ModOfDifference(a: int, b: int, d: int)
    requires d > 0
    ensures (a % d - b % d) % d == (a - b) % d
  {
    var k := b / d - a / d;
    assert a == (a / d) * d + a % d && b == (b / d) * d + b % d;
    assert a % d - b % d == a - b + k * d;
    ModAddMultiple(a - b, d, k);
  }

  /** Halving a ring: the remainder by 2*half from the remainder by half. */
  lemma ModDouble(x: nat, half: nat)
    requires half > 0
    ensures x % (2 * half) == 2 * ((x / 2) % half) + x % 2
  {
    var y := x / 2;
    var q, r := y / half, y % half;
    assert y == q * half + r && x == 2 * y + x % 2;
    assert q * (2 * half) == 2 * (q * half);
    DivUnique(x, 2 * half, q, 2 * r + x % 2);
  }

  lemma ModOfProduct(a: int, m: int, d: int)
    requires d > 0
    ensures ((a % d) * m) % d == (a * m) % d
  {
    assert a == (a / d) * d + a % d;
    var k := (a / d) * m;
    assert a * m == (a % d) * m + k * d;
    ModAddMultiple((a % d) * m, d, k);
  }

  /** d divides x and y, so it divides k*x + y. */
  lemma DividesCombination(d: nat, x: nat, y: nat, k: int)
    requires d > 0 && x % d == 0 && y % d == 0
    ensures (k * x + y) % d == 0
  {
    assert x == (x / d) * d;
    assert k * x == (k * (x / d)) * d;
    ModAddMultiple(y, d, k * (x / d));
  }

  /** Scaling both sides by g leaves the quotient and scales the remainder. */
  lemma ScaledDivision(x: nat, d: nat, g: nat)
    requires d > 0 && g > 0
    ensures d * g > 0
    ensures (x * g) / (d * g) == x / d && (x * g) % (d * g) == (x % d) * g
  {
    var q, r := x / d, x % d;
    var whole := q * d;
    assert x == whole + r;
    Distribute(whole, r, g);
    Distribute(r, 1, g);
    Associate(q, d, g);
    MulMono(1, d, g);
    MulMono(r + 1, d, g);
    MulMono(0, r, g);
    DivUnique(x * g, d * g, q, r * g);
  }

  lemma Distribute(a: int, b: int, m: int)
    ensures (a + b) * m == a * m + b * m
  {
  }

  lemma Associate(a: int, b: int, m: int)
    ensures (a * b) * m == a * (b * m)
  {
  }

  /** Stepping j < d places around a ring of d cells. */
  lemma ModStep(x: nat, j: nat, d: nat)
    requires d > 0 && j < d
    ensures (x + j) % d == if x % d + j < d then x % d + j else x % d + j - d
  {
    var q, r := x / d, x % d;
    assert x == q * d + r;
    if r + j < d {
      DivUnique(x + j, d, q, r + j);
    } else {
      assert (q + 1) * d == q * d + d;
      DivUnique(x + j, d, q + 1, r + j - d);
    }
  }

  lemma QuotientNonneg(x: nat, d: nat)
    requires d > 0
    ensures x / d >= 0
  {
  }

  /** Fewer than d places apart, two positions share no cell. */
  lemma ModDistinct(x: nat, y: nat, d: nat)
    requires d > 0 && x < y < x + d
    ensures x % d != y % d
  {
    ModStep(x, y - x, d);
  }
}
