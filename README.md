# RSA and Vigenere crackers — a Dafny model

This project models the computational core of two small Python programs.

`RSA_crack.py` is a toy RSA implementation with a small-message attack. The model covers:

- the bit-string helpers (`denary_to_binary`, `int_to_binary`, `encode_char`, `decode_char`);
- Euclid's algorithm (`GCD`), the extended Euclid algorithm (`ext_euclid_alg`) and the modular inverse built on it (`mod_inv_euclid`);
- modular exponentiation by square and multiply (`square_and_multiply`);
- the deterministic parts of the Miller-Rabin test: the split of n - 1 into d * 2^s, and one round for a given witness (`miller_rabin_pass`, `miller_rabin`);
- key generation once the primes are chosen (`generate_keys`);
- textbook encryption and decryption (`encrypt`, `decrypt`);
- the multiplicative-collision attack (`generate_ciphertexts`, `find_message`, `break_rsa`).

`vigenere_crack.py` is a Vigenere cipher cracker. The model covers its string layer: `string_clean`, `get_nth_chars`, `rotate_right`, `caesar_shift` and `decrypt_cipher`.

Where the Python code is a loop that updates variables, the model is a Dafny `method` with loop invariants. Each such method is proved equal to a reference function or property:

- `EuclidGcd` and `ExtEuclidAlg` are proved against `NumberTheory.Gcd`;
- `SquareAndMultiply` against `NumberTheory.Pow`;
- `MillerRabinPass` against `PassSpec`;
- `StringClean` against `Letters`, and so on.

Pure Python expressions are Dafny functions. Random draws are parameters:

- the Miller-Rabin witness `a`;
- the primes `p` and `q`;
- the sequence of candidates for `e`.

Modules:

| module | file | contents |
|---|---|---|
| `Wrappers` | wrappers.dfy | `Option`, for Python's `None` results and errors |
| `NumberTheory` | number_theory.dfy | `Pow`, `Gcd`, divisibility, Python's floor `//` and `%`, and the modular-arithmetic lemmas |
| `Primes` | primes.dfy | primes, Euclid's lemma, the binomial theorem, Fermat's little theorem, and the Chinese remainder step for two primes |
| `BinaryStrings` | binary_strings.dfy | bit strings and the character codec |
| `ModularArithmetic` | modular_arithmetic.dfy | `GCD`, `ext_euclid_alg`, `mod_inv_euclid`, `square_and_multiply` |
| `MillerRabin` | miller_rabin.dfy | the d/s split, one round, and the proof that a prime passes every nonzero witness |
| `RsaCipher` | rsa_cipher.dfy | key generation, `encrypt`, `decrypt`, multiplicativity, and RSA correctness |
| `Attack` | attack.dfy | `generate_ciphertexts`, `find_message`, `break_rsa`, and the attack's soundness and completeness |
| `Vigenere` | vigenere.dfy | the Vigenere string operations |

Python semantics that the model writes out explicitly:

- Python's `//` and `%` round toward minus infinity. They are `FloorDiv` and `FloorMod` wherever a negative divisor can occur. Dafny's `/` and `%` are used only where the divisor is positive, since the two conventions agree there.
- `n >> 1` on a number is a floor halving, Dafny's `/ 2`.
- Python slices clamp their bounds (`SliceBound`). This is why `caesar_shift` with a shift beyond +-26 is the identity.
- Integers are unbounded in Python as in Dafny, so there is no wrap-around to model.

## Model

| member | source | states |
|---|---|---|
| `BinaryStrings.DenaryToBinary` | RSA_crack.py:16-25 | the result is a bit string whose value is n; it is "0" for 0 and otherwise starts with '1' (no leading zero) |
| `BinaryStrings.IntToBinary` | RSA_crack.py:29-32 | the result has exactly `count` characters, all bits |
| `BinaryStrings.IntToBinaryValue` | RSA_crack.py:29-32 | the value of `int_to_binary(n, count)` is n mod 2^count, negative n included |
| `BinaryStrings.BinaryRoundTrip` | RSA_crack.py:29-32 | reading a bit string and writing it back at its own width gives it back |
| `BinaryStrings.EncodeChar` | RSA_crack.py:170-171 | `encode_char` gives 8 bits |
| `BinaryStrings.DecodeChar` | RSA_crack.py:174-175 | for a non-empty bit string whose value is a character code, the character with that code; None where Python raises (empty or non-binary b, code above 0x10FFFF) and for the surrogate codes |
| `BinaryStrings.DecodeEncodeChar` | RSA_crack.py:170-175 | `decode_char(encode_char(ch)) == ch` for every code below 256 |
| `BinaryStrings.EncodeDecodeChar` | RSA_crack.py:170-175 | every 8-bit string decodes to a character that encodes back to it |
| `NumberTheory.GcdDivides` | RSA_crack.py:35-47 | the reference gcd divides both arguments |
| `NumberTheory.GcdGreatest` | RSA_crack.py:35-47 | every common divisor divides the reference gcd |
| `NumberTheory.GcdSymmetric` | RSA_crack.py:35-47 | the gcd is symmetric |
| `ModularArithmetic.EuclidGcd` | RSA_crack.py:35-47 | `GCD(x, y)` is the gcd of the absolute values, 0 for (0, 0) |
| `ModularArithmetic.ExtEuclidAlg` | RSA_crack.py:51-69 | the loop ends with the Bezout identity x*u + y*v == g; abs(g) is the gcd of abs(u) and abs(v); g is the gcd when u, v >= 0; g > 0 when v > 0 |
| `ModularArithmetic.ModInvEuclid` | RSA_crack.py:75-80 | None exactly when gcd(a, m) != 1, and then no inverse exists at all; otherwise a value in [0, m) that is an inverse of a modulo m |
| `ModularArithmetic.NoInverseUnlessCoprime` | RSA_crack.py:77-80 | a has no inverse modulo m when gcd(a, m) != 1 |
| `ModularArithmetic.InverseUnique` | RSA_crack.py:75-80 | the inverse in [0, m) is unique |
| `ModularArithmetic.SquareAndMultiply` | RSA_crack.py:83-91 | the result is x^c mod n, proved through the invariant that z is x raised to the value of the bits read so far, mod n |
| `MillerRabin.Split` | RSA_crack.py:106-110 | the reference split of m != 0 into d * 2^s with d odd |
| `MillerRabin.SplitPowerOfTwo` | RSA_crack.py:106-110 | for every n != 1 the halving loop ends with d odd and d * 2^s == n - 1 |
| `MillerRabin.MillerRabinPass` | RSA_crack.py:94-102 | true exactly when a^d is 1 mod n, or a^(d * 2^r) is n - 1 mod n for some r < max(s, 1) |
| `MillerRabin.MillerRabin` | RSA_crack.py:105-117 | one round with the drawn witness a on the split of n - 1; witness 0 always fails; witnesses 1 and n - 1 always pass; a prime n passes every nonzero witness |
| `MillerRabin.ZeroWitnessFails` | RSA_crack.py:112-116 | witness 0 fails the round for every n >= 2 |
| `MillerRabin.MinusOneWitnessPasses` | RSA_crack.py:94-102 | witness n - 1 passes the round when d is odd |
| `MillerRabin.PrimePasses` | RSA_crack.py:94-110 | for a prime n, every witness in [1, n) passes the round, by Fermat's little theorem and the square roots of 1 modulo a prime |
| `RsaCipher.GenerateKeys` | RSA_crack.py:128-137 | None exactly when no candidate for e is coprime with phi; otherwise n = p*q, e is the first coprime candidate, d is in [0, phi) with e*d == 1 mod phi, and for distinct primes decryption undoes encryption on all of [0, n) |
| `RsaCipher.Encrypt` | RSA_crack.py:140-141 | `encrypt(m, e, n)` is m^e mod n |
| `RsaCipher.Decrypt` | RSA_crack.py:144-145 | `decrypt(c, d, n)` is c^d mod n |
| `RsaCipher.EncryptMultiplicative` | RSA_crack.py:140-141 | the encryption of a*b mod n is the product of the encryptions mod n |
| `RsaCipher.RsaRoundTrip` | RSA_crack.py:128-145 | for distinct primes p, q and e*d == 1 mod (p-1)(q-1), decrypting the encryption of m in [0, p*q) gives m |
| `Attack.GenerateCiphertexts` | RSA_crack.py:148-152 | the table has max(r, 1) entries, entry 0 is 0 and entry i is i^e mod n |
| `Attack.FindMessage` | RSA_crack.py:155-162 | None exactly when no pair (i, j) in [1, r)^2 matches; otherwise (i*j) mod n for the first matching pair in scan order, where a match is: ct[i] invertible mod n, ct[j] in [0, n) and ct[i]*ct[j] == m mod n |
| `Attack.MatchIff` | RSA_crack.py:157-160 | the test `ct[j] == (m * inv) % n` holds exactly when ct[j] is in [0, n) and ct[i]*ct[j] == m mod n |
| `Attack.BreakRsa` | RSA_crack.py:165-167 | None exactly when no two plaintexts below 2^r have encryptions that multiply to m; otherwise the product mod n of the first colliding pair in ascending (i, j) order; any result v is in [0, n) with v^e == m mod n (soundness); a plaintext below 2^r that encrypts to m is always found (completeness) |
| `Attack.CollisionDecrypts` | RSA_crack.py:161 | the product of a colliding pair encrypts to the ciphertext |
| `Attack.SmallPlaintextCollides` | RSA_crack.py:165-167 | a plaintext p encrypting to m collides with 1 |
| `Vigenere.Letters` | vigenere_crack.py:64-69 | the cleaned text is no longer than the text and holds letters only |
| `Vigenere.StringClean` | vigenere_crack.py:64-69 | the loop keeps exactly the letters of text, in order |
| `Vigenere.LettersConcat` | vigenere_crack.py:64-69 | cleaning distributes over concatenation |
| `Vigenere.LettersFixed` | vigenere_crack.py:64-69 | a text is unchanged by cleaning exactly when it holds only letters |
| `Vigenere.LettersIdempotent` | vigenere_crack.py:64-69 | `string_clean` is idempotent |
| `Vigenere.LettersMembers` | vigenere_crack.py:64-69 | a character occurs in the result exactly when it is a letter occurring in text |
| `Vigenere.Stride` | vigenere_crack.py:80-85 | the stride is no longer than the text |
| `Vigenere.GetNthChars` | vigenere_crack.py:80-85 | the loop keeps exactly the characters whose index i has i % n == start (floored) |
| `Vigenere.StrideIndex` | vigenere_crack.py:80-85 | for 0 <= start < n, entry k is text[start + k*n], and the length is the number of such indices in text |
| `Vigenere.StrideEmpty` | vigenere_crack.py:80-85 | a start outside the range of i % n selects nothing |
| `Vigenere.StridePartition` | vigenere_crack.py:80-85 | the strides for start = 0 .. n-1 partition the text: character i is entry i / n of stride i % n |
| `Vigenere.RotateRight` | vigenere_crack.py:95-97 | rotation keeps the length |
| `Vigenere.RotateRightAt` | vigenere_crack.py:95-97 | character j moves to position (j + n) mod len; a multiple of the length is the identity |
| `Vigenere.RotateRightFrom` | vigenere_crack.py:95-97 | position p of the result holds character (p - n) mod len |
| `Vigenere.RotateRightCompose` | vigenere_crack.py:95-97 | rotating by a then b is rotating by a + b |
| `Vigenere.RotateRightInverse` | vigenere_crack.py:95-97 | rotating by -n undoes rotating by n |
| `Vigenere.ShiftedAlphabetAt` | vigenere_crack.py:141 | `alphabet[shift:] + alphabet[:shift]` maps index k to (k + shift) mod 26 for shift in [-26, 26], and is the plain alphabet beyond |
| `Vigenere.CaesarShift` | vigenere_crack.py:136-143 | length kept; characters other than a-z unchanged; for shift in [-26, 26] letter index k becomes (k + shift) mod 26; beyond that the text is unchanged |
| `Vigenere.CaesarShiftInverse` | vigenere_crack.py:136-143 | shifting by s then by -s gives the text back, for every s |
| `Vigenere.DecryptCipher` | vigenere_crack.py:181-188 | the loop result is the Vigenere decryption: character j depends only on text[j] and key[j mod len(key)]; a lowercase letter moves back by (ord(key char) - 97) mod 26, anything else is kept |
| `Vigenere.DecryptAllA` | vigenere_crack.py:181-188 | a key of 'a's decrypts to the text itself |
| `Vigenere.DecryptDoubledKey` | vigenere_crack.py:181-188 | key + key decrypts the same as key |
| `Vigenere.SingleLetterKey` | vigenere_crack.py:181-188 | a one-letter key is a Caesar shift by minus its key shift |
| `Vigenere.DecryptEncrypt` | vigenere_crack.py:181-188 | decryption with a key undoes Vigenere encryption with the same key |

## Left out

- Command line, standard input and output, and timing. This covers `main` in both files, the prints in `viegenere_crack`, and the packing and unpacking of two characters per 16-bit block in `main`.
- Randomness: the witness draw in `miller_rabin`, the prime sampling loop of `generate_keys` and the draws of e are parameters.
  - `MillerRabin.MillerRabin` takes the first drawn witness `a`. Only one round runs, because the `return True` sits inside the `for` body. A drawn 0 makes the function return False instead of drawing again.
  - `RsaCipher.GenerateKeys` takes p and q, which the sampling loop guarantees to be at least 2, hence its precondition. It also takes the finite list of e draws that follow the initial e = 2. Python keeps drawing forever; the model returns None when the list runs out.
  - The range of the e draws starts at `round(math.log(n, 2))`, which is floating point. The model does not constrain the draws.
- `MillerRabin.SplitPowerOfTwo`: n = 1 is excluded, because the Python loop never ends there (d stays 0).
- The soundness of Miller-Rabin as a primality test (a composite fails with high probability) is not modelled. Only the converse, that every prime passes, is proved.
- Floating point: `coincidence_rate`, `letter_frequencies`, `guess_keylength`, `guess_key`, the thresholds of `viegenere_crack` and `test_vigenere` are not part of this model.
- `ModularArithmetic.ExtEuclidAlg`: line 59 `q = u3 / v3` is true division under Python 3, which breaks the algorithm. The model reads it as floor division, its Python 2 meaning.
- `BinaryStrings.DenaryToBinary`: a negative n makes line 19 raise, so the model requires n >= 0. What line 19 raises depends on the Python version: Python 3 raises a TypeError (a tuple is not an exception), Python 2 unwraps the tuple and raises the intended ValueError. Either way it raises.
- `BinaryStrings.DecodeChar`: only strings of '0' and '1' are read. Python 3's `int(b, 2)` also accepts surrounding whitespace, a sign, underscores and a `0b` prefix; such strings give None here. The code-point range follows Python 3's `chr`: codes from 0 to 0x10FFFF decode, larger ones give None, and codes of 256 and above decode too (Python 2's `chr` would reject those). The surrogate codes 0xD800 to 0xDFFF, which Python 3's `chr` accepts, give None, because a Dafny `char` cannot hold them.
- `ModularArithmetic.SquareAndMultiply`: requires n > 0. A zero modulus raises in Python. Keys from `generate_keys` always give n >= 4, but the `--encrypt`, `--decrypt` and `--break` commands pass the n typed on the command line unchecked (lines 191, 209 and 217), through `encrypt`, `decrypt` and `generate_ciphertexts`. A negative modulus reaches this function only that way and is not modelled.
- `ModularArithmetic.ModInvEuclid`: requires m > 0. `generate_keys` passes phi >= 1; `find_message` passes the n typed for `--break` on the command line (line 217), unchecked, so a zero or negative modulus reaches this function only that way. With m = 0 Python returns None unless a = 1, where it divides by zero. With a negative m, `ext_euclid_alg` can end with g = -1, so Python returns None even for coprime inputs. Neither case is modelled.
- `Attack.GenerateCiphertexts`: once the loop runs (r >= 2), requires e >= 0 and n > 0. A negative e raises in Python and n = 0 divides by zero. A negative n is not modelled.
- `Attack.FindMessage`: once the loop runs, requires n > 0 and r <= len(ciphertexts). With a short table Python raises an IndexError only when the scan reaches a missing index before a match; a match found earlier is returned. The model does not cover short tables at all. A non-positive n is not modelled.
- `Attack.BreakRsa`: r is a natural number. A negative r makes `2 ** r` a float in Python.
- `Vigenere.IsAlpha`: `str.isalpha` accepts every Unicode letter; the model accepts the ASCII letters only.
- `Vigenere.CaesarShift`: `maketrans` is imported only under Python 2, where it builds a byte table. The model states the table's meaning directly: it maps a-z to the shifted alphabet and leaves every other character alone.
- `Vigenere.RotateRight` and `Vigenere.DecryptCipher`: an empty text, or an empty key with a non-empty text, divides by zero in Python. These cases are preconditions.
- `Vigenere.GetNthChars`: n = 0 with a non-empty text divides by zero in Python, so it is a precondition.
