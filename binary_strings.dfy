/**
  The bit strings of RSA_crack.py: `denary_to_binary` (shortest big-endian
  form), `int_to_binary` (fixed width), and the character codec
  `encode_char` / `decode_char` built on them. A bit string is a string of
  the characters '0' and '1', most significant bit first.
 */
module BinaryStrings {
  import opened Wrappers
  import opened NumberTheory

  predicate IsBit(ch: char)
  {
    ch == '0' || ch == '1'
  }

  predicate IsBinary(s: string)
  {
    forall i :: 0 <= i < |s| ==> IsBit(s[i])
  }

  /** Python's `str(b)` for a bit b. */
  function BitChar(b: int): (c: char)
    ensures IsBit(c)
  {
    if b == 1 then '1' else '0'
  }

  function BitValue(ch: char): nat
  {
    if ch == '1' then 1 else 0
  }

  /** Python's `int(s, 2)` on a non-empty bit string (the empty string reads as 0). */
  function BinValue(s: string): nat
  {
    if s == [] then 0 else 2 * BinValue(s[..|s| - 1]) + BitValue(s[|s| - 1])
  }

  /** The big-endian bits of n without leading zeros; empty for 0. */
  function Bits(n: nat): (r: string)
    ensures IsBinary(r) && BinValue(r) == n
    ensures n > 0 ==> |r| > 0 && r[0] == '1'
  {
    if n == 0 then [] else
      var init := Bits(n / 2);
      var r := init + [BitChar(n % 2)];
      assert r[..|r| - 1] == init;
      assert BinValue(r) == 2 * BinValue(init) + BitValue(r[|r| - 1]);
      assert n / 2 == 0 ==> n == 1;
      r
  }

  /**
    `denary_to_binary`: prepends `n % 2` and shifts n right until it is 0,
    with "0" for 0. A negative n raises in Python, hence the precondition.
   */
  method DenaryToBinary(n: int) returns (bStr: string)
    requires n >= 0
    ensures IsBinary(bStr) && BinValue(bStr) == n
    ensures |bStr| >= 1 && (bStr == "0" || bStr[0] == '1')
  {
    bStr := "";
    if n == 0 {
      bStr := "0";
      assert bStr[..0] == [];
      return;
    }
    var m := n;
    while m > 0
      invariant 0 <= m
      invariant Bits(n) == Bits(m) + bStr
    {
      bStr := [BitChar(m % 2)] + bStr;
      m := m / 2;
    }
    assert Bits(n) == [] + bStr;
    assert [] + bStr == bStr;
  }

  /**
    `int_to_binary(n, count)`: bit y of n is `(n >> y) & 1`, listed for
    y = count-1 down to 0; "0" repeated count times when n is 0. Python's
    shift floors, as Dafny's division by a positive number does, so a
    negative n yields its two's-complement bits.
   */
  function IntToBinary(n: int, count: nat): (r: string)
    ensures |r| == count && IsBinary(r)
  {
    if n == 0 then seq(count, _ => '0')
    else seq(count, k requires 0 <= k < count => BitChar(BitOf(n, count - 1 - k)))
  }

  /** `(n >> y) & 1`: the low bit after y floor-halvings. */
  function BitOf(n: int, y: nat): int
    decreases y
  {
    if y == 0 then n % 2 else BitOf(n / 2, y - 1)
  }

  /** `encode_char`: the 8-bit code of ch. */
  function EncodeChar(ch: char): (r: string)
    ensures |r| == 8 && IsBinary(r)
  {
    IntToBinary(ch as int, 8)
  }

  predicate IsCharCode(v: int)
  {
    0 <= v < 0xD800 || 0xE000 <= v < 0x11_0000
  }

  /**
    `decode_char`: `chr(int(b, 2))`. Python raises when b is not a bit
    string or the code is out of range; those cases are None here.
   */
  function DecodeChar(b: string): (r: Option<char>)
    ensures r.Some? ==> b != [] && IsBinary(b) && r.value as int == BinValue(b)
    ensures r.None? ==> b == [] || !IsBinary(b) || !IsCharCode(BinValue(b))
  {
    if b != [] && IsBinary(b) && IsCharCode(BinValue(b)) then Some(BinValue(b) as char) else None
  }

  // ---------------------------------------------------------------------
  // Properties

  lemma DivHalf(n: int, p: int)
    requires p > 0
    ensures (n / 2) / p == n / (2 * p)
    ensures n % (2 * p) == 2 * ((n / 2) % p) + n % 2
  {
    var h := n / 2;
    assert n == 2 * h + n % 2;
    assert h == p * (h / p) + h % p;
    assert n == (2 * p) * (h / p) + (2 * (h % p) + n % 2);
    DivModUnique(n, 2 * p, h / p, 2 * (h % p) + n % 2);
  }

  lemma {:induction false} BitOfZero(y: nat)
    ensures BitOf(0, y) == 0
    decreases y
  {
    if y > 0 {
      BitOfZero(y - 1);
    }
  }

  lemma IntToBinaryAt(n: int, count: nat, k: nat)
    requires k < count
    ensures IntToBinary(n, count)[k] == BitChar(BitOf(n, count - 1 - k))
  {
    if n == 0 {
      BitOfZero(count - 1 - k);
    }
  }

  /** One more bit of width adds the low bit of n after the bits of n / 2. */
  lemma IntToBinarySnoc(n: int, count: nat)
    ensures IntToBinary(n, count + 1) == IntToBinary(n / 2, count) + [BitChar(n % 2)]
  {
    var a, b := IntToBinary(n, count + 1), IntToBinary(n / 2, count) + [BitChar(n % 2)];
    forall k | 0 <= k < count + 1
      ensures a[k] == b[k]
    {
      IntToBinaryAt(n, count + 1, k);
      if k < count {
        IntToBinaryAt(n / 2, count, k);
      }
    }
  }

  /** `int_to_binary(n, count)` encodes n modulo 2^count. */
  lemma {:induction false} IntToBinaryValue(n: int, count: nat)
    ensures BinValue(IntToBinary(n, count)) == n % Pow2(count)
    decreases count
  {
    if count == 0 {
      DivModUnique(n, 1, n, 0);
    } else {
      var r := IntToBinary(n, count);
      IntToBinarySnoc(n, count - 1);
      assert r[..count - 1] == IntToBinary(n / 2, count - 1);
      IntToBinaryValue(n / 2, count - 1);
      DivHalf(n, Pow2(count - 1));
    }
  }

  lemma {:induction false} BinValueBound(s: string)
    ensures BinValue(s) < Pow2(|s|)
    decreases |s|
  {
    if s != [] {
      BinValueBound(s[..|s| - 1]);
    }
  }

  /** Reading a bit string and writing it back at the same width gives it back. */
  lemma {:induction false} BinaryRoundTrip(b: string)
    requires IsBinary(b)
    ensures IntToBinary(BinValue(b), |b|) == b
    decreases |b|
  {
    if b != [] {
      var init, v := b[..|b| - 1], BinValue(b);
      BinaryRoundTrip(init);
      IntToBinarySnoc(v, |init|);
      DivModUnique(v, 2, BinValue(init), BitValue(b[|b| - 1]));
      assert b == init + [b[|b| - 1]];
    }
  }

  /** `decode_char(encode_char(ch)) == ch` for every code below 256. */
  lemma DecodeEncodeChar(ch: char)
    requires ch as int < 256
    ensures DecodeChar(EncodeChar(ch)) == Some(ch)
  {
    IntToBinaryValue(ch as int, 8);
    assert Pow2(8) == 256;
    DivModUnique(ch as int, 256, 0, ch as int);
  }

  /** `encode_char(decode_char(b)) == b` for every 8-bit string. */
  lemma EncodeDecodeChar(b: string)
    requires |b| == 8 && IsBinary(b)
    ensures DecodeChar(b).Some? && EncodeChar(DecodeChar(b).value) == b
  {
    BinValueBound(b);
    assert Pow2(8) == 256;
    BinaryRoundTrip(b);
  }
}
