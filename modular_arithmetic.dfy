/**
  The modular arithmetic engine of RSA_crack.py: `GCD`, `ext_euclid_alg`,
  `mod_inv_euclid` and `square_and_multiply`, each proved against the
  reference definitions of NumberTheory.
 */
module ModularArithmetic {
  import opened Wrappers
  import opened NumberTheory
  import opened BinaryStrings

  /** a * x is congruent to 1 modulo m. */
  predicate IsInverse(a: int, x: int, m: int)
    requires m > 0
  {
    (a * x) % m == 1 % m
  }

  /**
    `GCD(x, y)`: Euclid's loop on the absolute values, 0 when both are 0.
   */
  method EuclidGcd(x: int, y: int) returns (g: int)
    ensures g == Gcd(Abs(x), Abs(y))
  {
    var a, b := Abs(x), Abs(y);
    if a + b > 0 {
      g := b;
      while a > 0
        invariant 0 <= a && 0 <= b && g == b
        invariant Gcd(b, a) == Gcd(Abs(y), Abs(x))
        decreases a
      {
        g := a;
        a := b % a;
        b := g;
      }
      GcdSymmetric(Abs(x), Abs(y));
    } else {
      g := 0;
    }
  }

  /**
    `ext_euclid_alg(u, v)`: keeps (u1, u2, u3) and (v1, v2, v3) with
    u1*u + u2*v == u3 and v1*u + v2*v == v3, replacing the pair by
    (v, u - q*v) with q the floor quotient u3 // v3 until v3 is 0.
    Returns (u1, u2, u3).
   */
  method ExtEuclidAlg(u: int, v: int) returns (x: int, y: int, g: int)
    ensures x * u + y * v == g
    ensures Abs(g) == Gcd(Abs(u), Abs(v))
    ensures u >= 0 && v >= 0 ==> g == Gcd(u, v)
    ensures v > 0 ==> g > 0
  {
    var u1, u2, u3 := 1, 0, u;
    var v1, v2, v3 := 0, 1, v;
    while v3 != 0
      invariant EuclidRows(u, v, u1, u2, u3, v1, v2, v3)
      decreases Abs(v3)
    {
      var q := FloorDiv(u3, v3);
      EuclidRowsStep(u, v, u1, u2, u3, v1, v2, v3);
      var t1, t2, t3 := u1 - q * v1, u2 - q * v2, u3 - q * v3;
      u1, u2, u3 := v1, v2, v3;
      v1, v2, v3 := t1, t2, t3;
    }
    x, y, g := u1, u2, u3;
  }

  /** The loop invariant of `ext_euclid_alg`. */
  ghost predicate EuclidRows(u: int, v: int, u1: int, u2: int, u3: int, v1: int, v2: int, v3: int)
  {
    && u1 * u + u2 * v == u3
    && v1 * u + v2 * v == v3
    && Gcd(Abs(u3), Abs(v3)) == Gcd(Abs(u), Abs(v))
    && (u >= 0 && v >= 0 ==> u3 >= 0 && v3 >= 0)
    && (v > 0 ==> v3 >= 0 && (v3 == v || u3 > 0))
  }

  /** One iteration of `ext_euclid_alg` keeps its invariant and shrinks |v3|. */
  lemma EuclidRowsStep(u: int, v: int, u1: int, u2: int, u3: int, v1: int, v2: int, v3: int)
    requires v3 != 0 && EuclidRows(u, v, u1, u2, u3, v1, v2, v3)
    ensures var q := FloorDiv(u3, v3);
      && EuclidRows(u, v, v1, v2, v3, u1 - q * v1, u2 - q * v2, u3 - q * v3)
      && Abs(u3 - q * v3) < Abs(v3)
  {
    var q := FloorDiv(u3, v3);
    assert q * v3 == v3 * q;
    BezoutStep(u, v, u1, u2, u3, v1, v2, v3, q);
    GcdStep(u3, v3, q);
  }

  /** The row update of the extended Euclid loop keeps the Bezout identity. */
  lemma BezoutStep(u: int, v: int, u1: int, u2: int, u3: int, v1: int, v2: int, v3: int, q: int)
    requires u1 * u + u2 * v == u3 && v1 * u + v2 * v == v3
    ensures (u1 - q * v1) * u + (u2 - q * v2) * v == u3 - q * v3
  {
    calc {
      (u1 - q * v1) * u + (u2 - q * v2) * v;
      (u1 * u + u2 * v) - q * (v1 * u + v2 * v);
      u3 - q * v3;
    }
  }

  /**
    `mod_inv_euclid(a, m)`: `x % m` when the extended Euclid result has
    gcd 1, otherwise None. The modulus must be positive (the callers pass
    phi and n); with m = 0 Python would divide by zero.
   */
  method ModInvEuclid(a: int, m: int) returns (r: Option<int>)
    requires m > 0
    ensures r.None? <==> Gcd(Abs(a), m) != 1
    ensures r.Some? ==> 0 <= r.value < m && IsInverse(a, r.value, m)
    ensures r.None? ==> forall x :: !IsInverse(a, x, m)
  {
    var x, y, gcd := ExtEuclidAlg(a, m);
    if gcd == 1 {
      r := Some(x % m);
      InverseFromBezout(a, m, x, y);
    } else {
      r := None;
      forall z
        ensures !IsInverse(a, z, m)
      {
        NoInverseUnlessCoprime(a, m, z);
      }
    }
  }

  lemma InverseFromBezout(a: int, m: int, x: int, y: int)
    requires m > 0 && x * a + y * m == 1
    ensures IsInverse(a, x % m, m)
  {
    ModMulLeft(x, a, m);
    ModAddMultiple(1, -y, m);
    assert x * a == 1 + m * (-y);
    var w := x % m;
    assert a * w == w * a;
  }

  /** An inverse modulo m exists only when gcd(a, m) = 1. */
  lemma NoInverseUnlessCoprime(a: int, m: int, x: int)
    requires m > 0 && Gcd(Abs(a), m) != 1
    ensures !IsInverse(a, x, m)
  {
    var g := Gcd(Abs(a), m);
    GcdDivides(Abs(a), m);
    GcdZero(Abs(a), m);
    if IsInverse(a, x, m) {
      DividesAbs(g, a);
      DividesLinear(g, a, 0, x);
      var k := (a * x) / m;
      assert a * x == m * k + (a * x) % m;
      assert (a * x) % m == m * (-k) + a * x;
      DividesLinear(g, m, a * x, -k);
      DivModUnique(1, m, 0, 1);
      assert Divides(g, 1);
      DividesAntisymmetric(g, 1);
      assert false;
    }
  }

  /** The inverse modulo m, when it exists, is unique in [0, m). */
  lemma InverseUnique(a: int, m: int, x: int, z: int)
    requires m > 0 && 0 <= x < m && 0 <= z < m
    requires IsInverse(a, x, m) && IsInverse(a, z, m)
    ensures x == z
  {
    // x = x * (a * z) = (x * a) * z = z, all modulo m.
    assert x % m == x && z % m == z by {
      DivModUnique(x, m, 0, x);
      DivModUnique(z, m, 0, z);
    }
    ModMulCongruent(x, x, a * z, 1, m);
    ModMulCongruent(x * a, 1, z, z, m);
    assert x * (a * z) == (x * a) * z;
    assert (x * a) % m == 1 % m by { assert x * a == a * x; }
  }

  /**
    `square_and_multiply(x, c, n)`: reads the bits of c from
    `denary_to_binary`, most significant first; squares z modulo n for
    every bit and multiplies it by x modulo n for every 1 bit.
   */
  method SquareAndMultiply(x: int, c: int, n: int) returns (z: int)
    requires c >= 0 && n > 0
    ensures z == Pow(x, c) % n
  {
    var binC := DenaryToBinary(c);
    var cLength := |binC|;
    z := 1;
    var i := cLength;
    while i > 0
      invariant 0 <= i <= cLength
      invariant Tracks(x, n, z, binC[..cLength - i])
      invariant i < cLength ==> 0 <= z < n
    {
      var k := cLength - i;
      SquareMultiplyStep(x, n, z, binC, k);
      z := (z * z) % n;
      if binC[k] == '1' {
        z := (z * x) % n;
      }
      i := i - 1;
    }
    assert binC[..cLength] == binC;
    DivModUnique(z, n, 0, z);
  }

  /** The loop invariant of `square_and_multiply`: z is x^(bits read so far) modulo n. */
  ghost predicate Tracks(x: int, n: int, z: int, bitsRead: string)
    requires n > 0
  {
    z % n == Pow(x, BinValue(bitsRead)) % n
  }

  /** Reading one more bit: square, and multiply by x when the bit is 1. */
  lemma SquareMultiplyStep(x: int, n: int, z: int, bin: string, k: nat)
    requires n > 0 && k < |bin| && Tracks(x, n, z, bin[..k])
    ensures var z1 := (z * z) % n;
      var z2 := if bin[k] == '1' then (z1 * x) % n else z1;
      Tracks(x, n, z2, bin[..k + 1]) && 0 <= z2 < n
  {
    var v := BinValue(bin[..k]);
    assert bin[..k + 1][..k] == bin[..k];
    SquareStep(z, x, v, n);
    if bin[k] == '1' {
      MultiplyStep((z * z) % n, x, 2 * v, n);
    }
  }

  /** Squaring z = x^v (mod n) gives x^(2v) (mod n), already reduced. */
  lemma SquareStep(z: int, x: int, v: nat, n: int)
    requires n > 0 && z % n == Pow(x, v) % n
    ensures ((z * z) % n) % n == Pow(x, 2 * v) % n
  {
    ModMulCongruent(z, Pow(x, v), z, Pow(x, v), n);
    PowAdd(x, v, v);
    ModMod(z * z, n);
  }

  /** Multiplying z = x^w (mod n) by x gives x^(w+1) (mod n), already reduced. */
  lemma MultiplyStep(z: int, x: int, w: nat, n: int)
    requires n > 0 && z % n == Pow(x, w) % n
    ensures ((z * x) % n) % n == Pow(x, w + 1) % n
  {
    ModMulCongruent(z, Pow(x, w), x, x, n);
    assert Pow(x, w + 1) == Pow(x, w) * x;
    ModMod(z * x, n);
  }
}
