/**
  RSA keys, encryption and decryption of RSA_crack.py. The primes p and q
  and the random candidates for e are parameters: the sampling loop that
  draws them is not part of this model.
 */
module RsaCipher {
  import opened Wrappers
  import opened NumberTheory
  import opened ModularArithmetic
  import opened Primes

  /** The public key (e, n). */
  datatype PublicKey = PublicKey(e: int, n: int)

  /** The private key (d, n). */
  datatype PrivateKey = PrivateKey(d: int, n: int)

  function Phi(p: int, q: int): (phi: int)
    ensures p >= 2 && q >= 2 ==> phi >= 1
  {
    (p - 1) * (q - 1)
  }

  /**
    The successive values of e in `generate_keys`: first 2, then the
    values `random.randint` returns, in order.
   */
  function Candidates(draws: seq<int>): seq<int>
  {
    [2] + draws
  }

  /** Candidate k is the first one coprime with phi. */
  predicate IsFirstCoprime(cands: seq<int>, phi: nat, k: int)
  {
    && 0 <= k < |cands|
    && Gcd(Abs(cands[k]), phi) == 1
    && forall j :: 0 <= j < k ==> Gcd(Abs(cands[j]), phi) != 1
  }

  /**
    The tail of `generate_keys` once p and q are chosen: n = p*q,
    phi = (p-1)*(q-1), e is the first candidate with GCD(e, phi) = 1 and
    d = mod_inv_euclid(e, phi). Python keeps drawing until it finds one;
    here None means the given draws ran out first.
   */
  method GenerateKeys(p: int, q: int, draws: seq<int>) returns (keys: Option<(PublicKey, PrivateKey)>)
    requires p >= 2 && q >= 2
    ensures keys.None? <==>
      forall k :: 0 <= k < |Candidates(draws)| ==> Gcd(Abs(Candidates(draws)[k]), Phi(p, q)) != 1
    ensures keys.Some? ==>
      var (pub, priv) := keys.value;
      && pub.n == p * q && priv.n == p * q
      && (exists k :: IsFirstCoprime(Candidates(draws), Phi(p, q), k) && pub.e == Candidates(draws)[k])
      && 0 <= priv.d < Phi(p, q)
      && IsInverse(pub.e, priv.d, Phi(p, q))
    ensures keys.Some? && IsPrime(p) && IsPrime(q) && p != q && keys.value.0.e >= 0 ==>
      var (pub, priv) := keys.value;
      forall m :: 0 <= m < p * q ==> Pow(Pow(m, pub.e) % pub.n, priv.d) % priv.n == m
  {
    var n := p * q;
    var phi := (p - 1) * (q - 1);
    MulAtLeast(p - 1, q - 1);
    var cands := Candidates(draws);
    var e := 2;
    var k := 0;
    var g := EuclidGcd(e, phi);
    while g != 1
      invariant 0 <= k <= |draws|
      invariant e == cands[k]
      invariant g == Gcd(Abs(e), phi)
      invariant forall j :: 0 <= j < k ==> Gcd(Abs(cands[j]), phi) != 1
      decreases |draws| - k
    {
      if k == |draws| {
        return None;
      }
      e := draws[k];
      k := k + 1;
      g := EuclidGcd(e, phi);
    }
    assert IsFirstCoprime(cands, phi, k);
    var d := ModInvEuclid(e, phi);
    keys := Some((PublicKey(e, n), PrivateKey(d.value, n)));
    if IsPrime(p) && IsPrime(q) && p != q && e >= 0 {
      forall m | 0 <= m < p * q
        ensures Pow(Pow(m, e) % n, d.value) % n == m
      {
        RsaRoundTrip(p, q, e, d.value, m);
      }
    }
  }

  /** `encrypt(m, e, n)`: m^e mod n. */
  method Encrypt(m: int, e: int, n: int) returns (c: int)
    requires e >= 0 && n > 0
    ensures c == Pow(m, e) % n
  {
    c := SquareAndMultiply(m, e, n);
  }

  /** `decrypt(c, d, n)`: c^d mod n. */
  method Decrypt(c: int, d: int, n: int) returns (m: int)
    requires d >= 0 && n > 0
    ensures m == Pow(c, d) % n
  {
    m := SquareAndMultiply(c, d, n);
  }

  /**
    Textbook RSA is multiplicative: the encryption of a product is the
    product of the encryptions, modulo n.
   */
  lemma EncryptMultiplicative(a: int, b: int, e: nat, n: int)
    requires n > 0
    ensures Pow((a * b) % n, e) % n == ((Pow(a, e) % n) * (Pow(b, e) % n)) % n
  {
    PowModBase(a * b, e, n);
    PowMulBase(a, b, e);
    ModMul(Pow(a, e), Pow(b, e), n);
  }

  /** With p and q distinct primes, phi is at least 2. */
  lemma PhiAtLeastTwo(p: int, q: int)
    requires IsPrime(p) && IsPrime(q) && p != q
    ensures Phi(p, q) >= 2
  {
    if p >= 3 {
      MulAtLeast(p - 1, q - 1);
    } else {
      MulAtLeast(q - 1, p - 1);
      assert (q - 1) * (p - 1) == Phi(p, q);
    }
  }

  /** e*d congruent to 1 modulo phi, both nonnegative, is e*d == 1 + t*phi for a natural t. */
  lemma InverseExponent(e: int, d: int, phi: int) returns (t: nat)
    requires phi >= 2 && e >= 0 && d >= 0 && IsInverse(e, d, phi)
    ensures e * d == 1 + t * phi
  {
    DivModUnique(1, phi, 0, 1);
    var ed := e * d;
    assert ed >= 0;
    assert ed == phi * (ed / phi) + 1;
    t := ed / phi;
    assert phi * t == t * phi;
  }

  lemma MulRotate(t: int, a: int, b: int)
    ensures t * (a * b) == (t * b) * a
    ensures t * (a * b) == (t * a) * b
  {
    calc {
      t * (a * b);
      t * (b * a);
      (t * b) * a;
    }
  }

  /**
    RSA correctness: for distinct primes p and q and e*d congruent to 1
    modulo (p-1)(q-1), decryption undoes encryption on every message in
    [0, p*q).
   */
  lemma RsaRoundTrip(p: int, q: int, e: int, d: int, m: int)
    requires IsPrime(p) && IsPrime(q) && p != q
    requires e >= 0 && d >= 0 && IsInverse(e, d, Phi(p, q))
    requires 0 <= m < p * q
    ensures Pow(Pow(m, e) % (p * q), d) % (p * q) == m
  {
    var n, phi := p * q, Phi(p, q);
    PhiAtLeastTwo(p, q);
    var t := InverseExponent(e, d, phi);
    var ed := e * d;
    MulRotate(t, p - 1, q - 1);
    assert ed == 1 + (t * (q - 1)) * (p - 1);
    assert ed == 1 + (t * (p - 1)) * (q - 1);
    FermatExponent(p, m, t * (q - 1));
    FermatExponent(q, m, t * (p - 1));
    TwoPrimes(p, q, Pow(m, ed), m);
    DivModUnique(m, n, 0, m);
    PowModBase(Pow(m, e), d, n);
    PowMul(m, e, d);
  }
}
