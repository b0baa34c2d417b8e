/**
  The deterministic parts of the Miller-Rabin test of RSA_crack.py: the
  loop that writes n - 1 as d * 2^s with d odd, one round for a given
  witness (`miller_rabin_pass`), and `miller_rabin` with its random draw
  turned into a parameter.
 */
module MillerRabin {
  import opened NumberTheory
  import opened ModularArithmetic
  import opened Primes

  /** The reference split of a nonzero m into d * 2^s with d odd. */
  function Split(m: int): (sd: (nat, int))
    requires m != 0
    ensures sd.1 % 2 == 1 && sd.1 * Pow2(sd.0) == m
    decreases Abs(m)
  {
    if m % 2 == 1 then
      (0, m)
    else
      var sd := Split(m / 2);
      DoubleOddPart(sd.1, sd.0, m);
      (sd.0 + 1, sd.1)
  }

  lemma DoubleOddPart(d: int, s: nat, m: int)
    requires m % 2 == 0 && d * Pow2(s) == m / 2
    ensures d * Pow2(s + 1) == m
  {
    var p := Pow2(s);
    assert Pow2(s + 1) == 2 * p;
    assert d * (2 * p) == 2 * (d * p);
  }

  /**
    The loop at the top of `miller_rabin`: d starts at n - 1 and is halved
    (`d >>= 1`, a floor division) while it is even, counting the halvings
    in s. For n = 1, d stays 0 and Python loops forever; every other n
    terminates, negative ones included.
   */
  method SplitPowerOfTwo(n: int) returns (s: nat, d: int)
    requires n != 1
    ensures (s, d) == Split(n - 1)
    ensures d % 2 == 1 && d * Pow2(s) == n - 1
  {
    d := n - 1;
    s := 0;
    while d % 2 == 0
      invariant d != 0
      invariant Split(n - 1) == (s + Split(d).0, Split(d).1)
      decreases Abs(d)
    {
      d := d / 2;
      s := s + 1;
    }
  }

  /** a^(d * 2^r) is congruent to n - 1, i.e. to -1, modulo n. */
  predicate HitsMinusOne(a: int, d: nat, n: int, r: nat)
    requires n > 0
  {
    Pow(a, d * Pow2(r)) % n == n - 1
  }

  /**
    What one Miller-Rabin round accepts: a^d is 1 modulo n, or one of
    a^d, a^(2d), ..., a^(d * 2^(max(s,1)-1)) is n - 1 modulo n.
   */
  ghost predicate PassSpec(a: int, s: nat, d: nat, n: int)
    requires n > 0
  {
    Pow(a, d) % n == 1 || exists r: nat :: r < Max(s, 1) && HitsMinusOne(a, d, n, r)
  }

  /**
    `miller_rabin_pass(a, s, d, n)`: x = a^d mod n; true if x is 1;
    otherwise s - 1 times: true if x is n - 1, else square x modulo n;
    finally true exactly when x is n - 1.
   */
  method MillerRabinPass(a: int, s: nat, d: nat, n: int) returns (b: bool)
    requires n > 0
    ensures b == PassSpec(a, s, d, n)
  {
    var aToPower := SquareAndMultiply(a, d, n);
    if aToPower == 1 {
      return true;
    }
    var i := 0;
    while i < s - 1
      invariant 0 <= i <= Max(s - 1, 0)
      invariant aToPower == Pow(a, d * Pow2(i)) % n
      invariant forall r: nat :: r < i ==> !HitsMinusOne(a, d, n, r)
    {
      if aToPower == n - 1 {
        assert HitsMinusOne(a, d, n, i);
        return true;
      }
      SquareAgain(a, d, n, i, aToPower);
      aToPower := (aToPower * aToPower) % n;
      i := i + 1;
    }
    b := aToPower == n - 1;
    assert b == HitsMinusOne(a, d, n, i);
    assert i == Max(s, 1) - 1;
  }

  /** Squaring a^(d * 2^i) mod n gives a^(d * 2^(i+1)) mod n. */
  lemma SquareAgain(a: int, d: nat, n: int, i: nat, z: int)
    requires n > 0 && z == Pow(a, d * Pow2(i)) % n
    ensures (z * z) % n == Pow(a, d * Pow2(i + 1)) % n
  {
    var e := d * Pow2(i);
    ModMod(Pow(a, e), n);
    ModMulCongruent(z, Pow(a, e), z, Pow(a, e), n);
    PowAdd(a, e, e);
    assert d * Pow2(i + 1) == e + e;
  }

  /**
    `miller_rabin(n)` for the witness a its first draw returns. A draw of
    0 is never retried in practice: witness 0 fails for every n >= 2, so
    the function returns False at once. The `return True` inside the
    `for` body ends the test after this one round.
   */
  method MillerRabin(n: int, a: int) returns (b: bool)
    requires n >= 2 && 0 <= a < n
    ensures b == PassSpec(a, Split(n - 1).0, Split(n - 1).1, n)
    ensures a == 0 ==> !b
    ensures a == 1 || a == n - 1 ==> b
    ensures IsPrime(n) && a != 0 ==> b
  {
    var s, d := SplitPowerOfTwo(n);
    OddPartPositive(d, s, n - 1);
    b := MillerRabinPass(a, s, d, n);
    if a == 0 {
      ZeroWitnessFails(s, d, n);
    } else if a == 1 {
      PowOne(d);
      DivModUnique(1, n, 0, 1);
    } else if a == n - 1 {
      MinusOneWitnessPasses(s, d, n);
    }
    if IsPrime(n) && a != 0 {
      PrimePasses(n, a);
    }
  }

  lemma OddPartPositive(d: int, s: nat, m: int)
    requires m > 0 && d * Pow2(s) == m
    ensures d > 0
  {
  }

  lemma {:induction false} PowMinusOneOdd(e: nat)
    requires e % 2 == 1
    ensures Pow(-1, e) == -1
    decreases e
  {
    if e > 1 {
      PowMinusOneOdd(e - 2);
      assert Pow(-1, e) == -1 * (-1 * Pow(-1, e - 2));
    }
  }

  /** Witness 0 never passes a round for n >= 2. */
  lemma ZeroWitnessFails(s: nat, d: nat, n: int)
    requires n >= 2 && d >= 1
    ensures !PassSpec(0, s, d, n)
  {
    DivModUnique(0, n, 0, 0);
    forall r: nat
      ensures !HitsMinusOne(0, d, n, r)
    {
      MulAtLeast(d, Pow2(r));
      assert Pow(0, d * Pow2(r)) == 0;
    }
  }

  /** Witness n - 1 always passes a round when d is odd: (-1)^d = -1. */
  lemma MinusOneWitnessPasses(s: nat, d: nat, n: int)
    requires n >= 2 && d % 2 == 1
    ensures PassSpec(n - 1, s, d, n)
  {
    DivModUnique(-1, n, -1, n - 1);
    PowModBase(-1, d, n);
    PowMinusOneOdd(d);
    assert HitsMinusOne(n - 1, d, n, 0);
  }

  /** Modulo a prime, the only square roots of 1 are 1 and -1. */
  lemma SquareRootOfOne(p: int, x: int)
    requires IsPrime(p) && 0 <= x < p && (x * x) % p == 1
    ensures x == 1 || x == p - 1
  {
    DivModUnique(1, p, 0, 1);
    CongruentIff(x * x, 1, p);
    assert (x - 1) * (x + 1) == x * x - 1;
    EuclidLemma(p, x - 1, x + 1);
    if x != 0 && x - 1 < p {
      DivModUnique(x - 1, p, 0, x - 1);
    }
    if x + 1 < p {
      DivModUnique(x + 1, p, 0, x + 1);
    }
  }

  /**
    If a^(d * 2^j) is 1 modulo a prime n but a^d is not, some earlier
    square a^(d * 2^r), r < j, is n - 1.
   */
  lemma {:induction false} HitBeforeOne(a: int, d: nat, n: int, j: nat)
    requires IsPrime(n) && j >= 1
    requires Pow(a, d * Pow2(j)) % n == 1 && Pow(a, d) % n != 1
    ensures exists r: nat :: r < j && HitsMinusOne(a, d, n, r)
    decreases j
  {
    var z := Pow(a, d * Pow2(j - 1)) % n;
    SquareAgain(a, d, n, j - 1, z);
    SquareRootOfOne(n, z);
    if z == n - 1 {
      assert HitsMinusOne(a, d, n, j - 1);
    } else if j > 1 {
      HitBeforeOne(a, d, n, j - 1);
    }
  }

  /** A prime n passes the round for every witness in [1, n). */
  lemma PrimePasses(n: int, a: int)
    requires IsPrime(n) && 1 <= a < n
    ensures PassSpec(a, Split(n - 1).0, Split(n - 1).1, n)
  {
    var sd := Split(n - 1);
    var s, d := sd.0, sd.1;
    OddPartPositive(d, s, n - 1);
    DivModUnique(a, n, 0, a);
    Fermat(n, a);
    if Pow(a, d) % n != 1 && s >= 1 {
      HitBeforeOne(a, d, n, s);
    }
  }
}
