/**
  The attack on textbook RSA of RSA_crack.py: encrypt every number below
  2^r, then look for two table entries whose product is the intercepted
  ciphertext modulo n. Because RSA is multiplicative, the product of the
  two indices then encrypts to that ciphertext.
 */
module Attack {
  import opened Wrappers
  import opened NumberTheory
  import opened ModularArithmetic
  import opened RsaCipher

  /**
    `generate_ciphertexts(e, n, r)`: entry 0 is 0 and entry i, for
    1 <= i < r, is the encryption of i. The table has max(r, 1) entries.
   */
  method GenerateCiphertexts(e: int, n: int, r: int) returns (table: seq<int>)
    requires r <= 1 || (e >= 0 && n > 0)
    ensures |table| == Max(r, 1) && table[0] == 0
    ensures forall i :: 1 <= i < |table| ==> table[i] == Pow(i, e) % n
  {
    table := [0];
    var i := 1;
    while i < r
      invariant 1 <= i <= Max(r, 1) && |table| == i && table[0] == 0
      invariant forall k :: 1 <= k < i ==> table[k] == Pow(k, e) % n
    {
      var c := Encrypt(i, e, n);
      table := table + [c];
      i := i + 1;
    }
  }

  /**
    Entry j answers entry i for the ciphertext m: ct[i] has an inverse
    modulo n and ct[j] is the residue of m times that inverse, that is,
    ct[j] lies in [0, n) and ct[i] * ct[j] is congruent to m.
   */
  predicate Match(ct: seq<int>, m: int, n: int, i: int, j: int)
  {
    && n > 0 && 0 <= i < |ct| && 0 <= j < |ct|
    && Gcd(Abs(ct[i]), n) == 1
    && 0 <= ct[j] < n
    && (ct[i] * ct[j]) % n == m % n
  }

  /** No pair of indices in [1, r) that comes before (i, j) in the scan order matches. */
  predicate NoMatchBefore(ct: seq<int>, m: int, n: int, r: int, i: int, j: int)
  {
    forall i', j' :: 1 <= i' < r && 1 <= j' < r && (i' < i || (i' == i && j' < j)) ==>
      !Match(ct, m, n, i', j')
  }

  /**
    `find_message(ciphertexts, m, n, r)`: scans i, then j, over [1, r);
    skips i when ciphertexts[i] has no inverse modulo n; returns (i*j) % n
    for the first j with ciphertexts[j] == (m * inverse) % n, and None
    when no pair matches.
   */
  method FindMessage(ct: seq<int>, m: int, n: int, r: int) returns (res: Option<int>)
    requires r <= 1 || (n > 0 && r <= |ct|)
    ensures res.None? <==> forall i, j :: 1 <= i < r && 1 <= j < r ==> !Match(ct, m, n, i, j)
    ensures res.Some? ==> exists i, j ::
      && 1 <= i < r && 1 <= j < r
      && Match(ct, m, n, i, j)
      && NoMatchBefore(ct, m, n, r, i, j)
      && res.value == (i * j) % n
  {
    var i := 1;
    while i < r
      invariant 1 <= i <= Max(r, 1)
      invariant NoMatchBefore(ct, m, n, r, i, 1)
    {
      var inv := ModInvEuclid(ct[i], n);
      if inv != None {
        var j := 1;
        while j < r
          invariant 1 <= j <= r
          invariant NoMatchBefore(ct, m, n, r, i, j)
        {
          MatchIff(ct[i], ct[j], m, n, inv.value);
          if ct[j] == (m * inv.value) % n {
            assert Match(ct, m, n, i, j);
            return Some((i * j) % n);
          }
          j := j + 1;
        }
      }
      i := i + 1;
    }
    return None;
  }

  /**
    With inv the inverse of a modulo n, c is the residue of m * inv
    exactly when c lies in [0, n) and a * c is congruent to m.
   */
  lemma MatchIff(a: int, c: int, m: int, n: int, inv: int)
    requires n > 0 && IsInverse(a, inv, n)
    ensures c == (m * inv) % n <==> 0 <= c < n && (a * c) % n == m % n
  {
    if c == (m * inv) % n {
      ModMod(m * inv, n);
      ModMulCongruent(a, a, c, m * inv, n);
      assert a * (m * inv) == m * (a * inv);
      ModMulCongruent(m, m, a * inv, 1, n);
    }
    if 0 <= c < n && (a * c) % n == m % n {
      ModMulCongruent(m, a * c, inv, inv, n);
      assert (a * c) * inv == c * (a * inv);
      ModMulCongruent(c, c, a * inv, 1, n);
      DivModUnique(c, n, 0, c);
    }
  }

  /**
    Numbers i and j below the table size whose encryptions multiply to m
    modulo n, the encryption of i being invertible.
   */
  predicate Collides(e: int, n: int, m: int, i: int, j: int)
  {
    && e >= 0 && n > 0
    && Gcd(Pow(i, e) % n, n) == 1
    && ((Pow(i, e) % n) * (Pow(j, e) % n)) % n == m % n
  }

  /** No pair of numbers in [1, r) that comes before (i, j) in the scan order collides. */
  predicate NoCollisionBefore(e: int, n: int, m: int, r: int, i: int, j: int)
  {
    forall i', j' :: 1 <= i' < r && 1 <= j' < r && (i' < i || (i' == i && j' < j)) ==>
      !Collides(e, n, m, i', j')
  }

  /**
    `break_rsa(m, n, e, r)`: searches the table of the 2^r smallest
    plaintexts. A result comes from the first colliding pair in the scan
    order and is always a plaintext that encrypts to m, and a plaintext
    below 2^r that encrypts to m is always found (as the pair (1, p) if
    not earlier).
   */
  method BreakRsa(m: int, n: int, e: int, r: nat) returns (res: Option<int>)
    requires r == 0 || (e >= 0 && n > 0)
    ensures res.None? <==> forall i, j :: 1 <= i < Pow2(r) && 1 <= j < Pow2(r) ==> !Collides(e, n, m, i, j)
    ensures res.Some? ==> exists i, j ::
      && 1 <= i < Pow2(r) && 1 <= j < Pow2(r)
      && Collides(e, n, m, i, j)
      && NoCollisionBefore(e, n, m, Pow2(r), i, j)
      && res.value == (i * j) % n
    ensures res.Some? ==> 0 <= res.value < n && Pow(res.value, e) % n == m % n
    ensures (exists p :: 1 <= p < Pow2(r) && e >= 0 && n > 0 && Pow(p, e) % n == m % n) ==> res.Some?
  {
    var size := Pow2(r);
    var table := GenerateCiphertexts(e, n, size);
    forall i, j | 1 <= i < size && 1 <= j < size
      ensures Match(table, m, n, i, j) <==> Collides(e, n, m, i, j)
    {
    }
    res := FindMessage(table, m, n, size);
    if res.Some? {
      var i, j :| 1 <= i < size && 1 <= j < size && Match(table, m, n, i, j)
        && NoMatchBefore(table, m, n, size, i, j) && res.value == (i * j) % n;
      assert Collides(e, n, m, i, j);
      assert NoCollisionBefore(e, n, m, size, i, j);
      CollisionDecrypts(e, n, m, i, j);
    } else if p :| 1 <= p < size && e >= 0 && n > 0 && Pow(p, e) % n == m % n {
      SmallPlaintextCollides(e, n, m, p);
      assert false;
    }
  }

  /** The product of a colliding pair encrypts to the ciphertext. */
  lemma CollisionDecrypts(e: int, n: int, m: int, i: int, j: int)
    requires Collides(e, n, m, i, j)
    ensures 0 <= (i * j) % n < n && Pow((i * j) % n, e) % n == m % n
  {
    EncryptMultiplicative(i, j, e, n);
  }

  /** A plaintext p always collides with 1, whose encryption is 1. */
  lemma SmallPlaintextCollides(e: int, n: int, m: int, p: int)
    requires e >= 0 && n > 0 && Pow(p, e) % n == m % n
    ensures Collides(e, n, m, 1, p)
  {
    PowOne(e);
    if n == 1 {
      assert Gcd(0, 1) == 1;
    } else {
      DivModUnique(1, n, 0, 1);
      assert Gcd(1, n) == Gcd(n, 1) == Gcd(1, 0);
      ModMod(Pow(p, e), n);
    }
  }
}
