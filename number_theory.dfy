/**
  The mathematics the RSA code relies on, stated over Dafny's unbounded
  integers: powers, Euclidean and floor division, divisibility and the
  greatest common divisor. Nothing here models a Python function by itself;
  the methods of the other modules are proved against these definitions.
 */
module NumberTheory {

  function Abs(x: int): nat
  {
    if x < 0 then -x else x
  }

  function Max(a: int, b: int): int
  {
    if a < b then b else a
  }

  /** x raised to the c-th power, computed naively (the reference value). */
  function Pow(x: int, c: nat): int
    decreases c
  {
    if c == 0 then 1 else x * Pow(x, c - 1)
  }

  function Pow2(k: nat): (r: nat)
    ensures r >= 1
  {
    if k == 0 then 1 else 2 * Pow2(k - 1)
  }

  /** Python's `a // b`: rounds toward minus infinity, so the remainder has the sign of b. */
  function FloorDiv(a: int, b: int): (q: int)
    requires b != 0
    ensures b > 0 ==> 0 <= a - b * q < b
    ensures b < 0 ==> b < a - b * q <= 0
  {
    if b > 0 || a % b == 0 then a / b else a / b - 1
  }

  /** Python's `a % b`. */
  function FloorMod(a: int, b: int): (r: int)
    requires b != 0
    ensures b > 0 ==> r == a % b
    ensures b < 0 ==> b < r <= 0
  {
    var q := FloorDiv(a, b);
    if b > 0 then
      DivModUnique(a, b, q, a - b * q);
      a - b * q
    else
      a - b * q
  }

  /** d divides x (0 divides only 0). */
  predicate Divides(d: nat, x: int)
  {
    if d == 0 then x == 0 else x % d == 0
  }

  /** Euclid's algorithm on naturals: the reference greatest common divisor. */
  function Gcd(a: nat, b: nat): nat
    decreases b
  {
    if b == 0 then a else Gcd(b, a % b)
  }

  // ---------------------------------------------------------------------
  // Division and remainder

  lemma MulAtLeast(d: int, k: int)
    requires d > 0 && k >= 1
    ensures d * k >= d
  {
    assert d * k == d * (k - 1) + d;
    assert d * (k - 1) >= 0;
  }

  /** Euclidean division by a positive divisor is unique. */
  lemma DivModUnique(x: int, d: int, q: int, r: int)
    requires d > 0 && x == d * q + r && 0 <= r < d
    ensures x / d == q && x % d == r
  {
    var q0, r0 := x / d, x % d;
    assert x == d * q0 + r0;
    if q0 < q {
      MulAtLeast(d, q - q0);
    } else if q < q0 {
      MulAtLeast(d, q0 - q);
    }
  }

  lemma ModAddMultiple(t: int, k: int, d: int)
    requires d > 0
    ensures (t + d * k) % d == t % d
  {
    assert t == d * (t / d) + t % d;
    assert t + d * k == d * (t / d + k) + t % d;
    DivModUnique(t + d * k, d, t / d + k, t % d);
  }

  lemma ModMulLeft(a: int, b: int, d: int)
    requires d > 0
    ensures ((a % d) * b) % d == (a * b) % d
  {
    var q := a / d;
    assert a == d * q + a % d;
    assert a * b == (a % d) * b + d * (q * b) by {
      assert a * b == (d * q + a % d) * b;
    }
    ModAddMultiple((a % d) * b, q * b, d);
  }

  lemma ModMul(a: int, b: int, d: int)
    requires d > 0
    ensures ((a % d) * (b % d)) % d == (a * b) % d
  {
    ModMulLeft(a, b % d, d);
    ModMulLeft(b, a, d);
    assert (a * (b % d)) % d == ((b % d) * a) % d;
    assert (b * a) == (a * b);
  }

  lemma MulMonotone(a: int, b: int, n: int)
    requires a <= b && n > 0
    ensures a * n <= b * n
  {
    assert b * n - a * n == (b - a) * n;
  }

  lemma ModMod(a: int, n: int)
    requires n > 0
    ensures (a % n) % n == a % n
  {
    DivModUnique(a % n, n, 0, a % n);
  }

  /** ((x % L) + y) % L == (x + y) % L. */
  lemma ModAddLeft(x: int, y: int, L: int)
    requires L > 0
    ensures ((x % L) + y) % L == (x + y) % L
  {
    assert x == L * (x / L) + x % L;
    ModAddMultiple((x % L) + y, x / L, L);
    assert (x % L) + y + L * (x / L) == x + y;
  }

  /** Reducing modulo 2L and then modulo L is reducing modulo L. */
  lemma ModDouble(j: int, L: int)
    requires L > 0
    ensures (j % (2 * L)) % L == j % L
  {
    var x, q := j % (2 * L), j / (2 * L);
    assert j == (2 * L) * q + x;
    assert (2 * L) * q == L * (2 * q);
    ModAddMultiple(x, 2 * q, L);
  }

  /** Two numbers with the same remainder less than n apart are equal. */
  lemma SameResidue(x: int, y: int, n: int)
    requires n > 0 && x % n == y % n && y <= x < y + n
    ensures x == y
  {
    var q, r := y / n, y % n;
    var d := x - y;
    assert y == n * q + r;
    if r + d < n {
      DivModUnique(x, n, q, r + d);
    } else {
      assert n * (q + 1) == n * q + n;
      DivModUnique(x, n, q + 1, r + d - n);
    }
  }

  /** x and y are congruent modulo n exactly when n divides x - y. */
  lemma CongruentIff(x: int, y: int, n: int)
    requires n > 0
    ensures x % n == y % n <==> (x - y) % n == 0
  {
    var k := (x - y) / n;
    assert x - y == n * k + (x - y) % n;
    if x % n == y % n {
      assert x == n * (x / n) + x % n && y == n * (y / n) + y % n;
      assert x - y == n * (x / n - y / n);
      ModAddMultiple(0, x / n - y / n, n);
    }
    if (x - y) % n == 0 {
      ModAddMultiple(y, k, n);
    }
  }

  /** Products of congruent factors are congruent. */
  lemma ModMulCongruent(a: int, b: int, c: int, e: int, d: int)
    requires d > 0 && a % d == b % d && c % d == e % d
    ensures (a * c) % d == (b * e) % d
  {
    ModMul(a, c, d);
    ModMul(b, e, d);
  }

  // ---------------------------------------------------------------------
  // Powers

  lemma {:induction false} PowAdd(x: int, a: nat, b: nat)
    ensures Pow(x, a + b) == Pow(x, a) * Pow(x, b)
    decreases a
  {
    if a > 0 {
      PowAdd(x, a - 1, b);
      assert Pow(x, a + b) == x * Pow(x, (a - 1) + b);
      assert x * (Pow(x, a - 1) * Pow(x, b)) == (x * Pow(x, a - 1)) * Pow(x, b);
    }
  }

  lemma {:induction false} PowOne(e: nat)
    ensures Pow(1, e) == 1
    decreases e
  {
    if e > 0 {
      PowOne(e - 1);
    }
  }

  /** x^(a*b) is (x^a)^b. */
  lemma {:induction false} PowMul(x: int, a: nat, b: nat)
    ensures Pow(x, a * b) == Pow(Pow(x, a), b)
    decreases b
  {
    if b > 0 {
      PowMul(x, a, b - 1);
      assert a * b == a * (b - 1) + a;
      PowAdd(x, a * (b - 1), a);
    }
  }

  /** The multiplicative homomorphism: (x*y)^e = x^e * y^e. */
  lemma {:induction false} PowMulBase(x: int, y: int, e: nat)
    ensures Pow(x * y, e) == Pow(x, e) * Pow(y, e)
    decreases e
  {
    if e > 0 {
      PowMulBase(x, y, e - 1);
      var px, py := Pow(x, e - 1), Pow(y, e - 1);
      assert Pow(x * y, e) == (x * y) * (px * py);
      MulSwap(x, y, px, py);
    }
  }

  lemma MulSwap(a: int, b: int, c: int, d: int)
    ensures (a * b) * (c * d) == (a * c) * (b * d)
  {
    calc {
      (a * b) * (c * d);
      a * (b * (c * d));
      a * ((b * c) * d);
      a * ((c * b) * d);
      a * (c * (b * d));
      (a * c) * (b * d);
    }
  }

  /** Reducing the base modulo n does not change x^e mod n. */
  lemma {:induction false} PowModBase(x: int, e: nat, n: int)
    requires n > 0
    ensures Pow(x % n, e) % n == Pow(x, e) % n
    decreases e
  {
    if e > 0 {
      PowModBase(x, e - 1, n);
      assert (x % n) % n == x % n by { ModAddMultiple(x % n, 0, n); DivModUnique(x % n, n, 0, x % n); }
      ModMulCongruent(x % n, x, Pow(x % n, e - 1), Pow(x, e - 1), n);
    }
  }

  // ---------------------------------------------------------------------
  // Divisibility and the greatest common divisor

  lemma DividesLinear(g: nat, x: int, y: int, k: int)
    requires Divides(g, x) && Divides(g, y)
    ensures Divides(g, x * k + y)
  {
    if g > 0 {
      assert x == g * (x / g);
      assert x * k == g * ((x / g) * k);
      ModAddMultiple(y, (x / g) * k, g);
    }
  }

  lemma DividesAbs(g: nat, x: int)
    ensures Divides(g, x) <==> Divides(g, Abs(x))
  {
    if x < 0 {
      if Divides(g, x) { DividesLinear(g, x, 0, -1); }
      if Divides(g, Abs(x)) { DividesLinear(g, Abs(x), 0, -1); }
    }
  }

  lemma DividesAntisymmetric(a: nat, b: nat)
    requires Divides(a, b) && Divides(b, a)
    ensures a == b
  {
    if a > 0 && b > 0 {
      assert b == a * (b / a);
      assert a == b * (a / b);
      MulAtLeast(a, b / a);
      MulAtLeast(b, a / b);
    }
  }

  /** Gcd(a, b) is a common divisor of a and b. */
  lemma {:induction false} GcdDivides(a: nat, b: nat)
    ensures Divides(Gcd(a, b), a) && Divides(Gcd(a, b), b)
    decreases b
  {
    if b == 0 {
      if a > 0 { DivModUnique(a, a, 1, 0); }
    } else {
      GcdDivides(b, a % b);
      assert a == b * (a / b) + a % b;
      DividesLinear(Gcd(a, b), b, a % b, a / b);
    }
  }

  /** Every common divisor of a and b divides Gcd(a, b). */
  lemma {:induction false} GcdGreatest(a: nat, b: nat, d: nat)
    requires Divides(d, a) && Divides(d, b)
    ensures Divides(d, Gcd(a, b))
    decreases b
  {
    if b > 0 {
      assert a % b == b * (-(a / b)) + a;
      DividesLinear(d, b, a, -(a / b));
      GcdGreatest(b, a % b, d);
    }
  }

  lemma GcdSymmetric(a: nat, b: nat)
    ensures Gcd(a, b) == Gcd(b, a)
  {
    GcdDivides(a, b);
    GcdDivides(b, a);
    GcdGreatest(a, b, Gcd(b, a));
    GcdGreatest(b, a, Gcd(a, b));
    DividesAntisymmetric(Gcd(a, b), Gcd(b, a));
  }

  /** Replacing x by x - q*y keeps the greatest common divisor, for any integers. */
  lemma GcdStep(x: int, y: int, q: int)
    ensures Gcd(Abs(x), Abs(y)) == Gcd(Abs(y), Abs(x - q * y))
  {
    var g1, g2 := Gcd(Abs(x), Abs(y)), Gcd(Abs(y), Abs(x - q * y));
    GcdDivides(Abs(x), Abs(y));
    DividesAbs(g1, x);
    DividesAbs(g1, y);
    DividesLinear(g1, y, x, -q);
    assert y * (-q) + x == x - q * y;
    DividesAbs(g1, x - q * y);
    GcdGreatest(Abs(y), Abs(x - q * y), g1);
    GcdDivides(Abs(y), Abs(x - q * y));
    DividesAbs(g2, y);
    DividesAbs(g2, x - q * y);
    DividesLinear(g2, y, x - q * y, q);
    assert y * q + (x - q * y) == x;
    DividesAbs(g2, x);
    GcdGreatest(Abs(x), Abs(y), g2);
    DividesAntisymmetric(g1, g2);
  }

  /** Gcd(a, b) is zero only when both arguments are. */
  lemma GcdZero(a: nat, b: nat)
    ensures Gcd(a, b) == 0 <==> a == 0 && b == 0
  {
    GcdDivides(a, b);
  }
}
