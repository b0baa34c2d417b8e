/**
  Primes and Fermat's little theorem: what RSA correctness and the
  completeness of a Miller-Rabin round rest on. Nothing here models a
  Python function; the RSA and Miller-Rabin modules use these facts.
 */
module Primes {
  import opened NumberTheory

  predicate IsPrime(p: int)
  {
    p >= 2 && forall k :: 1 < k < p ==> p % k != 0
  }

  /** A positive divisor of a positive number is at most that number. */
  lemma DivisorBound(d: nat, x: int)
    requires x > 0 && Divides(d, x)
    ensures 0 < d <= x
  {
    assert x == d * (x / d);
    MulAtLeast(d, x / d);
  }

  /** Bezout's identity: Gcd(a, b) is an integer combination of a and b. */
  lemma {:induction false} Bezout(a: nat, b: nat) returns (x: int, y: int)
    ensures x * a + y * b == Gcd(a, b)
    decreases b
  {
    if b == 0 {
      x, y := 1, 0;
    } else {
      var x', y' := Bezout(b, a % b);
      var q := a / b;
      assert a % b == a - b * q;
      x, y := y', x' - y' * q;
      BezoutAlgebra(a, b, q, x', y');
    }
  }

  lemma BezoutAlgebra(a: int, b: int, q: int, x: int, y: int)
    ensures y * a + (x - y * q) * b == x * b + y * (a - b * q)
  {
    calc {
      y * a + (x - y * q) * b;
      y * a + x * b - (y * q) * b;
      { assert (y * q) * b == y * (b * q); }
      x * b + y * a - y * (b * q);
      x * b + y * (a - b * q);
    }
  }

  /** A prime either divides a or is coprime with it. */
  lemma PrimeDividesOrCoprime(p: int, a: int)
    requires IsPrime(p)
    ensures a % p == 0 || Gcd(Abs(a), p) == 1
  {
    var g := Gcd(Abs(a), p);
    GcdDivides(Abs(a), p);
    DivisorBound(g, p);
    if g == p {
      DividesAbs(g, a);
    }
  }

  lemma CombineBezout(a: int, b: int, p: int, s: int, y: int)
    requires s * a + y * p == 1
    ensures b == (a * b) * s + p * (y * b)
  {
    calc {
      b;
      (s * a + y * p) * b;
      (a * b) * s + p * (y * b);
    }
  }

  /** Euclid's lemma: a prime dividing a product divides one of its factors. */
  lemma EuclidLemma(p: int, a: int, b: int)
    requires IsPrime(p) && (a * b) % p == 0
    ensures a % p == 0 || b % p == 0
  {
    PrimeDividesOrCoprime(p, a);
    if a % p != 0 {
      var x, y := Bezout(Abs(a), p);
      var s := if a < 0 then -x else x;
      assert s * a == x * Abs(a);
      CombineBezout(a, b, p, s, y);
      ModAddMultiple(0, y * b, p);
      DividesLinear(p, a * b, p * (y * b), s);
    }
  }

  // ---------------------------------------------------------------------
  // Binomial coefficients

  function Fact(n: nat): (r: nat)
    ensures r >= 1
  {
    if n == 0 then 1 else
      MulAtLeast(Fact(n - 1), n);
      n * Fact(n - 1)
  }

  /** The binomial coefficient n choose k, by Pascal's rule. */
  function Binom(n: nat, k: nat): nat
  {
    if k == 0 then 1
    else if n == 0 then 0
    else Binom(n - 1, k - 1) + Binom(n - 1, k)
  }

  lemma {:induction false} BinomAbove(n: nat, k: nat)
    requires k > n
    ensures Binom(n, k) == 0
    decreases n
  {
    if n > 0 {
      BinomAbove(n - 1, k - 1);
      BinomAbove(n - 1, k);
    }
  }

  lemma {:induction false} BinomDiagonal(n: nat)
    ensures Binom(n, n) == 1
    decreases n
  {
    if n > 0 {
      BinomDiagonal(n - 1);
      BinomAbove(n - 1, n);
    }
  }

  /** n choose k times k! (n-k)! is n!. */
  lemma {:induction false} BinomFact(n: nat, k: nat)
    requires k <= n
    ensures Binom(n, k) * (Fact(k) * Fact(n - k)) == Fact(n)
    decreases n
  {
    if k == n {
      BinomDiagonal(n);
    } else if k > 0 {
      BinomFact(n - 1, k - 1);
      BinomFact(n - 1, k);
      var a, b := Binom(n - 1, k - 1), Binom(n - 1, k);
      var fk1, fnk1 := Fact(k - 1), Fact(n - 1 - k);
      var fk, fnk := k * fk1, (n - k) * fnk1;
      assert Fact(k) == fk && Fact(n - k) == fnk;
      assert a * (fk1 * fnk) == Fact(n - 1);
      assert b * (fk * fnk1) == Fact(n - 1);
      calc {
        Binom(n, k) * (fk * fnk);
        { Distribute(a, b, fk * fnk); }
        a * (fk * fnk) + b * (fk * fnk);
        { Rearrange(a, k, fk1, fnk); Rearrange(b, n - k, fnk1, fk); }
        k * (a * (fk1 * fnk)) + (n - k) * (b * (fk * fnk1));
        { Distribute(k, n - k, Fact(n - 1)); }
        Fact(n);
      }
    }
  }

  lemma Distribute(a: int, b: int, c: int)
    ensures (a + b) * c == a * c + b * c
  {
  }

  lemma Rearrange(a: int, k: int, f: int, g: int)
    ensures a * ((k * f) * g) == k * (a * (f * g))
    ensures a * (g * (k * f)) == k * (a * (g * f))
  {
  }

  /** A prime does not divide m! for m below it. */
  lemma {:induction false} PrimeNotDividesFact(p: int, m: nat)
    requires IsPrime(p) && m < p
    ensures Fact(m) % p != 0
    decreases m
  {
    if m == 0 {
      DivModUnique(1, p, 0, 1);
    } else {
      PrimeNotDividesFact(p, m - 1);
      DivModUnique(m, p, 0, m);
      if Fact(m) % p == 0 {
        EuclidLemma(p, m, Fact(m - 1));
      }
    }
  }

  lemma FactDivisible(p: int)
    requires p >= 1
    ensures Fact(p) % p == 0
  {
    ModAddMultiple(0, Fact(p - 1), p);
    assert Fact(p) == 0 + p * Fact(p - 1);
  }

  /** A prime p divides p choose k for 0 < k < p. */
  lemma PrimeDividesBinom(p: int, k: nat)
    requires IsPrime(p) && 0 < k < p
    ensures Binom(p, k) % p == 0
  {
    BinomFact(p, k);
    FactDivisible(p);
    EuclidLemma(p, Binom(p, k), Fact(k) * Fact(p - k));
    if Binom(p, k) % p != 0 {
      EuclidLemma(p, Fact(k), Fact(p - k));
      PrimeNotDividesFact(p, k);
      PrimeNotDividesFact(p, p - k);
    }
  }

  /** The sum of (n choose k) * x^k over k < m. */
  function BinomSum(n: nat, x: int, m: nat): int
  {
    if m == 0 then 0 else BinomSum(n, x, m - 1) + Binom(n, m - 1) * Pow(x, m - 1)
  }

  /** Pascal's rule, summed. */
  lemma {:induction false} BinomSumPascal(n: nat, x: int, m: nat)
    requires m >= 1
    ensures BinomSum(n + 1, x, m) == x * BinomSum(n, x, m - 1) + BinomSum(n, x, m)
    decreases m
  {
    if m > 1 {
      BinomSumPascal(n, x, m - 1);
      var j := m - 1;
      var u, v := Binom(n, j - 1), Binom(n, j);
      var w := Pow(x, j - 1);
      assert Binom(n + 1, j) == u + v;
      assert Pow(x, j) == x * w;
      calc {
        BinomSum(n + 1, x, m);
        BinomSum(n + 1, x, j) + (u + v) * (x * w);
        x * BinomSum(n, x, j - 1) + BinomSum(n, x, j) + (u + v) * (x * w);
        { PascalTerm(u, v, x, w, BinomSum(n, x, j - 1)); }
        x * (BinomSum(n, x, j - 1) + u * w) + (BinomSum(n, x, j) + v * (x * w));
      }
    }
  }

  lemma PascalTerm(u: int, v: int, x: int, w: int, s: int)
    ensures x * s + (u + v) * (x * w) == x * (s + u * w) + v * (x * w)
  {
    calc {
      x * s + (u + v) * (x * w);
      { Distribute(u, v, x * w); }
      x * s + u * (x * w) + v * (x * w);
      { assert u * (x * w) == x * (u * w); }
      x * (s + u * w) + v * (x * w);
    }
  }

  /** The binomial theorem for (x + 1)^n. */
  lemma {:induction false} BinomialTheorem(n: nat, x: int)
    ensures Pow(x + 1, n) == BinomSum(n, x, n + 1)
    decreases n
  {
    if n > 0 {
      BinomialTheorem(n - 1, x);
      BinomSumPascal(n - 1, x, n + 1);
      BinomAbove(n - 1, n);
      var P := Pow(x + 1, n - 1);
      assert BinomSum(n - 1, x, n + 1) == BinomSum(n - 1, x, n) + Binom(n - 1, n) * Pow(x, n);
      assert BinomSum(n, x, n + 1) == x * P + P;
      assert Pow(x + 1, n) == (x + 1) * P;
      Distribute(x, 1, P);
    }
  }

  /** Modulo a prime p, every middle term of the expansion vanishes. */
  lemma {:induction false} PrimeBinomSum(p: int, x: int, m: nat)
    requires IsPrime(p) && 1 <= m <= p
    ensures BinomSum(p, x, m) % p == 1
    decreases m
  {
    if m == 1 {
      DivModUnique(1, p, 0, 1);
    } else {
      PrimeBinomSum(p, x, m - 1);
      PrimeDividesBinom(p, m - 1);
      var b, w := Binom(p, m - 1), Pow(x, m - 1);
      var c := b / p;
      assert b == p * c;
      MulAssoc(p, c, w);
      assert BinomSum(p, x, m) == BinomSum(p, x, m - 1) + p * (c * w);
      ModAddMultiple(BinomSum(p, x, m - 1), c * w, p);
    }
  }

  lemma MulAssoc(a: int, b: int, c: int)
    ensures (a * b) * c == a * (b * c)
  {
  }

  /** The freshman's dream: (x + 1)^p is x^p + 1 modulo a prime p. */
  lemma FreshmansDream(p: int, x: int)
    requires IsPrime(p)
    ensures Pow(x + 1, p) % p == (Pow(x, p) + 1) % p
  {
    BinomialTheorem(p, x);
    BinomDiagonal(p);
    PrimeBinomSum(p, x, p);
    var s := BinomSum(p, x, p);
    assert Pow(x + 1, p) == s + Pow(x, p);
    AddOneModulo(s, Pow(x, p), p);
  }

  lemma AddOneModulo(s: int, a: int, p: int)
    requires p > 0 && s % p == 1
    ensures (s + a) % p == (a + 1) % p
  {
    assert s == p * (s / p) + 1;
    assert s + a == (a + 1) + p * (s / p);
    ModAddMultiple(a + 1, s / p, p);
  }

  /** x^p is x modulo a prime p, for every natural x. */
  lemma {:induction false} FermatNat(p: int, x: nat)
    requires IsPrime(p)
    ensures Pow(x, p) % p == x % p
    decreases x
  {
    if x == 0 {
      assert Pow(0, p) == 0 * Pow(0, p - 1);
    } else {
      FermatNat(p, x - 1);
      FreshmansDream(p, x - 1);
      ModAddLeft(Pow(x - 1, p), 1, p);
      ModAddLeft(x - 1, 1, p);
    }
  }

  /** x^p is x modulo a prime p, for every integer x. */
  lemma FermatInt(p: int, x: int)
    requires IsPrime(p)
    ensures Pow(x, p) % p == x % p
  {
    PowModBase(x, p, p);
    FermatNat(p, x % p);
    ModMod(x, p);
  }

  /** Fermat's little theorem. */
  lemma Fermat(p: int, a: int)
    requires IsPrime(p) && a % p != 0
    ensures Pow(a, p - 1) % p == 1
  {
    var t := Pow(a, p - 1);
    FermatInt(p, a);
    assert Pow(a, p) == a * t;
    CongruentIff(a * t, a, p);
    assert a * (t - 1) == a * t - a;
    EuclidLemma(p, a, t - 1);
    CongruentIff(t, 1, p);
    DivModUnique(1, p, 0, 1);
  }

  // ---------------------------------------------------------------------
  // Two primes

  /** Distinct primes do not divide each other. */
  lemma DistinctPrimes(p: int, q: int)
    requires IsPrime(p) && IsPrime(q) && p != q
    ensures p % q != 0
  {
    if p < q {
      DivModUnique(p, q, 0, p);
    }
  }

  /** Congruence modulo two distinct primes is congruence modulo their product. */
  lemma TwoPrimes(p: int, q: int, x: int, y: int)
    requires IsPrime(p) && IsPrime(q) && p != q
    requires x % p == y % p && x % q == y % q
    ensures x % (p * q) == y % (p * q)
  {
    CongruentIff(x, y, p);
    CongruentIff(x, y, q);
    var k := (x - y) / p;
    assert x - y == p * k;
    EuclidLemma(q, p, k);
    DistinctPrimes(p, q);
    var j := k / q;
    assert k == q * j;
    assert x == y + (p * q) * j;
    ModAddMultiple(y, j, p * q);
  }

  /** m^(1 + k(p-1)) is m modulo a prime p, whether or not p divides m. */
  lemma FermatExponent(p: int, m: int, k: nat)
    requires IsPrime(p)
    ensures Pow(m, 1 + k * (p - 1)) % p == m % p
  {
    MulNonnegative(k, p - 1);
    var E := k * (p - 1);
    var y := Pow(m, E);
    assert Pow(m, 1 + E) == m * y;
    if m % p == 0 {
      MulMultipleModulo(m, y, p);
    } else {
      FermatPower(p, m, k);
      MulUnitModulo(m, y, p);
    }
  }

  lemma MulMultipleModulo(m: int, y: int, p: int)
    requires p > 0 && m % p == 0
    ensures (m * y) % p == m % p
  {
    ModMulLeft(m, y, p);
  }

  lemma MulUnitModulo(m: int, y: int, p: int)
    requires p > 1 && y % p == 1
    ensures (m * y) % p == m % p
  {
    DivModUnique(1, p, 0, 1);
    ModMulCongruent(m, m, y, 1, p);
  }

  lemma MulNonnegative(a: int, b: int)
    requires a >= 0 && b >= 0
    ensures a * b >= 0
  {
  }

  /** m^((p-1)k) is 1 modulo a prime p not dividing m. */
  lemma FermatPower(p: int, m: int, k: nat)
    requires IsPrime(p) && m % p != 0
    ensures Pow(m, k * (p - 1)) % p == 1
  {
    assert k * (p - 1) == (p - 1) * k;
    Fermat(p, m);
    PowMul(m, p - 1, k);
    PowModBase(Pow(m, p - 1), k, p);
    PowOne(k);
    DivModUnique(1, p, 0, 1);
  }
}
