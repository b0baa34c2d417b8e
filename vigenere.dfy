/**
  The string layer of vigenere_crack.py: `string_clean`, `get_nth_chars`,
  `rotate_right`, `caesar_shift` and `decrypt_cipher`. Letters are the
  ASCII letters; the Caesar and Vigenere shifts act on 'a'..'z' only.
 */
module Vigenere {
  import opened NumberTheory

  predicate IsAlpha(c: char)
  {
    'a' <= c <= 'z' || 'A' <= c <= 'Z'
  }

  predicate IsLower(c: char)
  {
    'a' <= c <= 'z'
  }

  /** The position of a lowercase letter in the alphabet, 'a' being 0. */
  function Index(c: char): int
  {
    c as int - 97
  }

  function LetterAt(k: int): (c: char)
    requires 0 <= k < 26
    ensures IsLower(c) && Index(c) == k
  {
    (97 + k) as char
  }

  lemma LetterAtIndex(c: char)
    requires IsLower(c)
    ensures LetterAt(Index(c)) == c
  {
  }

  // ---------------------------------------------------------------------
  // string_clean

  /** The letters of text, in order. */
  function Letters(text: string): (r: string)
    ensures |r| <= |text|
    ensures forall k :: 0 <= k < |r| ==> IsAlpha(r[k])
  {
    if text == [] then []
    else
      var last := text[|text| - 1];
      Letters(text[..|text| - 1]) + (if IsAlpha(last) then [last] else [])
  }

  /** `string_clean(text)`: appends each letter of text to the result. */
  method StringClean(text: string) returns (temp: string)
    ensures temp == Letters(text)
  {
    temp := "";
    for i := 0 to |text|
      invariant temp == Letters(text[..i])
    {
      assert text[..i + 1][..i] == text[..i];
      if IsAlpha(text[i]) {
        temp := temp + [text[i]];
      }
    }
    assert text[..|text|] == text;
  }

  /** Cleaning distributes over concatenation. */
  lemma {:induction false} LettersConcat(a: string, b: string)
    ensures Letters(a + b) == Letters(a) + Letters(b)
    decreases |b|
  {
    if b != [] {
      var b' := b[..|b| - 1];
      assert (a + b)[..|a + b| - 1] == a + b';
      LettersConcat(a, b');
    } else {
      assert a + b == a;
    }
  }

  /** A string is already clean exactly when all its characters are letters. */
  lemma {:induction false} LettersFixed(text: string)
    ensures Letters(text) == text <==> forall k :: 0 <= k < |text| ==> IsAlpha(text[k])
    decreases |text|
  {
    if text != [] && forall k :: 0 <= k < |text| ==> IsAlpha(text[k]) {
      var init := text[..|text| - 1];
      LettersFixed(init);
      assert text == init + [text[|text| - 1]];
    }
  }

  /** `string_clean` is idempotent. */
  lemma LettersIdempotent(text: string)
    ensures Letters(Letters(text)) == Letters(text)
  {
    LettersFixed(Letters(text));
  }

  /** The characters of the result are exactly the letters occurring in text. */
  lemma {:induction false} LettersMembers(text: string, c: char)
    ensures c in Letters(text) <==> c in text && IsAlpha(c)
    decreases |text|
  {
    if text != [] {
      var init := text[..|text| - 1];
      LettersMembers(init, c);
      assert text == init + [text[|text| - 1]];
    }
  }

  // ---------------------------------------------------------------------
  // get_nth_chars

  /**
    The characters of text whose index i has i % n == start, with Python's
    floored remainder; n may be 0 only when there is nothing to scan.
   */
  function Stride(text: string, start: int, n: int): (r: string)
    requires n != 0 || text == []
    ensures |r| <= |text|
  {
    if text == [] then []
    else
      var i := |text| - 1;
      Stride(text[..i], start, n) + (if FloorMod(i, n) == start then [text[i]] else [])
  }

  /** `get_nth_chars(text, start, n)`: appends text[i] whenever i % n == start. */
  method GetNthChars(text: string, start: int, n: int) returns (value: string)
    requires n != 0 || text == []
    ensures value == Stride(text, start, n)
  {
    value := "";
    for i := 0 to |text|
      invariant value == Stride(text[..i], start, n)
    {
      assert text[..i + 1][..i] == text[..i];
      if FloorMod(i, n) == start {
        value := value + [text[i]];
      }
    }
    assert text[..|text|] == text;
  }

  /**
    For 0 <= start < n, the result holds text[start], text[start + n],
    text[start + 2n], ...: entry k is text[start + k*n], and the result
    stops at the first such index past the end of text.
   */
  lemma {:induction false} StrideIndex(text: string, start: int, n: int)
    requires 0 <= start < n
    ensures var r := Stride(text, start, n);
      && |text| <= start + |r| * n < |text| + n
      && forall k :: 0 <= k < |r| ==> start + k * n < |text| && r[k] == text[start + k * n]
    decreases |text|
  {
    if text != [] {
      var i := |text| - 1;
      var init := text[..i];
      StrideIndex(init, start, n);
      var r0, r := Stride(init, start, n), Stride(text, start, n);
      var k := |r0|;
      assert r == r0 + (if i % n == start then [text[i]] else []);
      StrideStep(start, n, k, i);
      forall k' | 0 <= k' < |r|
        ensures start + k' * n < |text| && r[k'] == text[start + k' * n]
      {
        if k' < k {
          assert r[k'] == r0[k'] == init[start + k' * n];
        }
      }
    }
  }

  /**
    The arithmetic of one step of StrideIndex: when the next selected
    index start + k*n is within n of i, i is selected exactly when it is
    that index.
   */
  lemma StrideStep(start: int, n: int, k: nat, i: nat)
    requires 0 <= start < n && i <= start + k * n < i + n
    ensures i % n == start <==> start + k * n == i
    ensures start + (k + 1) * n == start + k * n + n
  {
    ModAddMultiple(start, k, n);
    DivModUnique(start, n, 0, start);
    assert n * k == k * n;
    if i % n == start {
      SameResidue(start + k * n, i, n);
    }
    assert (k + 1) * n == k * n + n;
  }

  /** A start outside the range of i % n selects nothing. */
  lemma {:induction false} StrideEmpty(text: string, start: int, n: int)
    requires n > 0 ==> start < 0 || n <= start
    requires n < 0 ==> start > 0 || start <= n
    requires n != 0
    ensures Stride(text, start, n) == []
    decreases |text|
  {
    if text != [] {
      StrideEmpty(text[..|text| - 1], start, n);
    }
  }

  /**
    The strides for start = 0 .. n-1 partition text: character i is entry
    i / n of the stride for start i % n.
   */
  lemma StridePartition(text: string, n: int, i: int)
    requires n > 0 && 0 <= i < |text|
    ensures i / n < |Stride(text, i % n, n)|
    ensures Stride(text, i % n, n)[i / n] == text[i]
  {
    var s, q := i % n, i / n;
    var r := Stride(text, s, n);
    DivModBounds(i, n);
    StrideIndex(text, s, n);
    LessAfterScaling(q, |r|, n);
    assert r[q] == text[s + q * n];
  }

  lemma DivModBounds(i: int, n: int)
    requires i >= 0 && n > 0
    ensures i == i % n + (i / n) * n && 0 <= i % n < n && i / n >= 0
  {
    assert i == n * (i / n) + i % n;
    assert n * (i / n) == (i / n) * n;
  }

  lemma LessAfterScaling(a: int, b: int, n: int)
    requires n > 0 && a * n < b * n
    ensures a < b
  {
    if b <= a {
      MulMonotone(b, a, n);
    }
  }

  // ---------------------------------------------------------------------
  // rotate_right

  /**
    `rotate_right(text, n)`: cut at len(text) - n % len(text) and swap the
    halves. Python's `%` by a positive length is Dafny's `%`. An empty
    text divides by zero in Python, hence the precondition.
   */
  function RotateRight(text: string, n: int): (r: string)
    requires |text| > 0
    ensures |r| == |text|
  {
    var cut := |text| - n % |text|;
    text[cut..] + text[..cut]
  }

  /** Position p of the rotation holds character (p - n) mod len(text). */
  lemma RotateRightIndex(text: string, n: int, p: int)
    requires 0 <= p < |text|
    ensures RotateRight(text, n)[p] == text[(p - n) % |text|]
  {
    var L := |text|;
    var m := n % L;
    assert n == L * (n / L) + m;
    ModAddMultiple(p - m, -(n / L), L);
    assert p - n == p - m + L * (-(n / L));
    if p < m {
      DivModUnique(p - m, L, -1, p - m + L);
    } else {
      DivModUnique(p - m, L, 0, p - m);
    }
  }

  /**
    Rotation moves character j to position (j + n) mod len(text); a
    multiple of the length is no rotation at all.
   */
  lemma RotateRightAt(text: string, n: int)
    requires |text| > 0
    ensures forall j :: 0 <= j < |text| ==> RotateRight(text, n)[(j + n) % |text|] == text[j]
    ensures n % |text| == 0 ==> RotateRight(text, n) == text
  {
    var L, r := |text|, RotateRight(text, n);
    forall j | 0 <= j < L
      ensures r[(j + n) % L] == text[j]
    {
      RotateRightMoves(text, n, j);
    }
    if n % L == 0 {
      assert r == text[L..] + text[..L];
    }
  }

  /**
    Seen from the result: position p holds character (p - n) mod
    len(text). Stated apart from RotateRightAt, since the two
    quantifiers together send the solver round in circles.
   */
  lemma RotateRightFrom(text: string, n: int)
    requires |text| > 0
    ensures forall p :: 0 <= p < |text| ==> RotateRight(text, n)[p] == text[(p - n) % |text|]
  {
    forall p | 0 <= p < |text|
      ensures RotateRight(text, n)[p] == text[(p - n) % |text|]
    {
      RotateRightIndex(text, n, p);
    }
  }

  /** Character j of text lands at position (j + n) mod len(text). */
  lemma RotateRightMoves(text: string, n: int, j: int)
    requires 0 <= j < |text|
    ensures RotateRight(text, n)[(j + n) % |text|] == text[j]
  {
    var L := |text|;
    var p := (j + n) % L;
    RotateRightIndex(text, n, p);
    ModAddLeft(j + n, -n, L);
    assert j + n + -n == j;
    DivModUnique(j, L, 0, j);
    assert p - n == p + -n;
  }

  lemma ModSubTwice(p: int, a: int, b: int, L: int)
    requires L > 0
    ensures ((p - b) % L - a) % L == (p - (a + b)) % L
  {
    ModAddLeft(p - b, -a, L);
    assert (p - b) % L - a == (p - b) % L + -a;
    assert p - b + -a == p - (a + b);
  }

  /** Rotating by a and then by b is rotating by a + b. */
  lemma RotateRightCompose(text: string, a: int, b: int)
    requires |text| > 0
    ensures RotateRight(RotateRight(text, a), b) == RotateRight(text, a + b)
  {
    var L := |text|;
    var r1 := RotateRight(text, a);
    forall p | 0 <= p < L
      ensures RotateRight(r1, b)[p] == RotateRight(text, a + b)[p]
    {
      var p1 := (p - b) % L;
      RotateRightIndex(r1, b, p);
      RotateRightIndex(text, a, p1);
      RotateRightIndex(text, a + b, p);
      ModSubTwice(p, a, b, L);
    }
  }

  /** Rotating back by -n undoes a rotation by n. */
  lemma RotateRightInverse(text: string, n: int)
    requires |text| > 0
    ensures RotateRight(RotateRight(text, n), -n) == text
  {
    RotateRightCompose(text, n, -n);
    assert RotateRight(text, 0) == text[|text|..] + text[..|text|];
  }

  // ---------------------------------------------------------------------
  // caesar_shift

  /** The string 'abcdefghijklmnopqrstuvwxyz'. */
  function Alphabet(): (s: string)
    ensures |s| == 26
  {
    seq(26, k requires 0 <= k < 26 => LetterAt(k))
  }

  /**
    Python's normalisation of the slice bound s over a sequence of length
    len: a negative bound counts from the end, and both are clamped.
   */
  function SliceBound(s: int, len: nat): (b: nat)
    ensures b <= len
  {
    if s < 0 then (if s + len < 0 then 0 else s + len)
    else if s > len then len
    else s
  }

  /** `alphabet[shift:] + alphabet[:shift]`, the target row of the translation table. */
  function ShiftedAlphabet(shift: int): (code: string)
    ensures |code| == 26
  {
    var b := SliceBound(shift, 26);
    Alphabet()[b..] + Alphabet()[..b]
  }

  /** `maketrans(alphabet, code)` applied to one character. */
  function Translate(c: char, code: string): char
    requires |code| == 26
  {
    if IsLower(c) then code[Index(c)] else c
  }

  /**
    `caesar_shift(text, shift)`: every lowercase letter at alphabet index
    k becomes the letter at index (k + shift) mod 26, everything else is
    kept. Beyond +-26 the slices clamp and the table is the identity.
   */
  function CaesarShift(text: string, shift: int): (r: string)
    ensures |r| == |text|
    ensures forall i :: 0 <= i < |text| && !IsLower(text[i]) ==> r[i] == text[i]
    ensures -26 <= shift <= 26 ==>
      forall i :: 0 <= i < |text| && IsLower(text[i]) ==> r[i] == LetterAt((Index(text[i]) + shift) % 26)
    ensures shift < -26 || 26 < shift ==> r == text
  {
    var code := ShiftedAlphabet(shift);
    ShiftedAlphabetAt(shift);
    seq(|text|, i requires 0 <= i < |text| => Translate(text[i], code))
  }

  /** The shifted alphabet is the alphabet rotated by shift, clamped beyond +-26. */
  lemma ShiftedAlphabetAt(shift: int)
    ensures -26 <= shift <= 26 ==>
      forall k :: 0 <= k < 26 ==> ShiftedAlphabet(shift)[k] == LetterAt((k + shift) % 26)
    ensures shift < -26 || 26 < shift ==> ShiftedAlphabet(shift) == Alphabet()
  {
    var b := SliceBound(shift, 26);
    var code := ShiftedAlphabet(shift);
    if -26 <= shift <= 26 {
      forall k | 0 <= k < 26
        ensures code[k] == LetterAt((k + shift) % 26)
      {
        if k + b < 26 {
          DivModUnique(k + b, 26, 0, k + b);
        } else {
          DivModUnique(k + b, 26, 1, k + b - 26);
        }
        if shift < 0 {
          ModAddMultiple(k + shift, 1, 26);
        }
      }
    } else {
      assert code == Alphabet()[b..] + Alphabet()[..b];
    }
  }

  /** What `caesar_shift` does to one character, for a shift in [-26, 26]. */
  function ShiftChar(c: char, shift: int): char
  {
    if IsLower(c) then LetterAt((Index(c) + shift) % 26) else c
  }

  lemma CaesarShiftAt(text: string, shift: int, i: int)
    requires -26 <= shift <= 26 && 0 <= i < |text|
    ensures CaesarShift(text, shift)[i] == ShiftChar(text[i], shift)
  {
  }

  /** Shifting a character by s and then by -s gives it back. */
  lemma ShiftCharInverse(c: char, s: int)
    ensures ShiftChar(ShiftChar(c, s), -s) == c
  {
    if IsLower(c) {
      var k := Index(c);
      ModAddLeft(k + s, -s, 26);
      assert k + s + -s == k;
      DivModUnique(k, 26, 0, k);
      LetterAtIndex(c);
    }
  }

  /** Shifting by s and then by -s gives the text back, for every s. */
  lemma CaesarShiftInverse(text: string, s: int)
    ensures CaesarShift(CaesarShift(text, s), -s) == text
  {
    if -26 <= s <= 26 {
      var r1 := CaesarShift(text, s);
      var r2 := CaesarShift(r1, -s);
      forall i | 0 <= i < |text|
        ensures r2[i] == text[i]
      {
        CaesarShiftAt(text, s, i);
        CaesarShiftAt(r1, -s, i);
        ShiftCharInverse(text[i], s);
      }
    }
  }

  // ---------------------------------------------------------------------
  // decrypt_cipher

  /** The shift of a key character: (ord(kc) - 97) mod 26. */
  function KeyShift(kc: char): int
  {
    (kc as int - 97) % 26
  }

  /** A lowercase letter moves back by the key character's shift; other characters stay. */
  function DecryptChar(t: char, kc: char): char
  {
    if IsLower(t) then LetterAt((Index(t) - KeyShift(kc)) % 26) else t
  }

  /** Vigenere decryption: character j uses key character j mod len(key). */
  function VigenereDecrypt(text: string, key: string): (r: string)
    requires |key| > 0 || text == []
  {
    seq(|text|, j requires 0 <= j < |text| => DecryptChar(text[j], key[j % |key|]))
  }

  /**
    `decrypt_cipher(text, key)`: Caesar-shifts character j by
    -((ord(key[j % len(key)]) - 97) % 26). An empty key divides by zero
    in Python unless the text is empty too.
   */
  method DecryptCipher(text: string, key: string) returns (result: string)
    requires |key| > 0 || text == []
    ensures result == VigenereDecrypt(text, key)
  {
    result := "";
    for j := 0 to |text|
      invariant |result| == j
      invariant forall i :: 0 <= i < j ==> result[i] == DecryptChar(text[i], key[i % |key|])
    {
      var shift := -KeyShift(key[j % |key|]);
      var c := CaesarShift([text[j]], shift);
      CaesarShiftAt([text[j]], shift, 0);
      DecryptCharShift(text[j], key[j % |key|]);
      result := result + c;
    }
  }

  /** Decrypting a character is Caesar-shifting it back by the key shift. */
  lemma DecryptCharShift(t: char, kc: char)
    ensures ShiftChar(t, -KeyShift(kc)) == DecryptChar(t, kc)
  {
    if IsLower(t) {
      ModAddMultiple(Index(t) - KeyShift(kc), 0, 26);
    }
  }

  /** A key of 'a's decrypts to the text itself. */
  lemma DecryptAllA(text: string, key: string)
    requires |key| > 0 && forall k :: 0 <= k < |key| ==> key[k] == 'a'
    ensures VigenereDecrypt(text, key) == text
  {
    forall j | 0 <= j < |text| && IsLower(text[j])
      ensures VigenereDecrypt(text, key)[j] == text[j]
    {
      DivModUnique(Index(text[j]), 26, 0, Index(text[j]));
    }
  }

  /** Index j of a doubled key is index j mod len(key) of the key. */
  lemma DoubledKeyAt(key: string, j: int)
    requires |key| > 0 && j >= 0
    ensures (key + key)[j % (2 * |key|)] == key[j % |key|]
  {
    var L := |key|;
    var x := j % (2 * L);
    ModDouble(j, L);
    if x < L {
      DivModUnique(x, L, 0, x);
    } else {
      DivModUnique(x, L, 1, x - L);
    }
  }

  /** Repeating the key does not change the decryption. */
  lemma DecryptDoubledKey(text: string, key: string)
    requires |key| > 0
    ensures VigenereDecrypt(text, key + key) == VigenereDecrypt(text, key)
  {
    forall j | 0 <= j < |text|
      ensures (key + key)[j % (2 * |key|)] == key[j % |key|]
    {
      DoubledKeyAt(key, j);
    }
  }

  /** A one-letter key is a Caesar shift by minus its key shift. */
  lemma SingleLetterKey(text: string, kc: char)
    ensures VigenereDecrypt(text, [kc]) == CaesarShift(text, -KeyShift(kc))
  {
    forall j | 0 <= j < |text| && IsLower(text[j])
      ensures VigenereDecrypt(text, [kc])[j] == CaesarShift(text, -KeyShift(kc))[j]
    {
      ModAddMultiple(Index(text[j]) - KeyShift(kc), 0, 26);
    }
  }

  /** Vigenere encryption, the inverse the cracker undoes: letters move forward by the key shift. */
  function VigenereEncrypt(text: string, key: string): (r: string)
    requires |key| > 0 || text == []
  {
    seq(|text|, j requires 0 <= j < |text| =>
      if IsLower(text[j]) then LetterAt((Index(text[j]) + KeyShift(key[j % |key|])) % 26) else text[j])
  }

  /** Decryption with the key undoes encryption with the same key. */
  lemma DecryptEncrypt(text: string, key: string)
    requires |key| > 0
    ensures VigenereDecrypt(VigenereEncrypt(text, key), key) == text
  {
    var c := VigenereEncrypt(text, key);
    forall j | 0 <= j < |text| && IsLower(text[j])
      ensures VigenereDecrypt(c, key)[j] == text[j]
    {
      var k, s := Index(text[j]), KeyShift(key[j % |key|]);
      ModAddLeft(k + s, -s, 26);
      DivModUnique(k, 26, 0, k);
    }
  }
}
