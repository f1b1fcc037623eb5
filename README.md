# Verified model of two textbook cipher engines

This project models two small teaching engines written in Python. Each one returns its result together with a log of every intermediate step.

- **S-DES** (`dataencryptionstandard.py`), a simplified DES.
  - `sdes_process` derives two 8-bit round keys K1 and K2 from a 10-bit key. It does this with P10, two left shifts of the halves and P8.
  - It then runs an 8-bit block through IP, two Feistel rounds and IP-1. Each round does EP, XOR with the round key, the S-boxes S0 and S1, and P4, with a swap between the rounds.
  - The caller supplies all six permutation tables.
  - Decryption runs the same network with the round keys swapped.
- **RSA** (`RivestShamirAdleman.py`), textbook RSA from two caller-chosen numbers p and q.
  - `generate_keys` computes n = p*q and phi = (p-1)(q-1).
  - It picks the first e >= 2 with gcd(e, phi) == 1 (stopping at phi). It finds d by trying 1..phi-1 in turn.
  - `rsa_encrypt` maps each character to pow(ord(ch), e, n).
  - `rsa_decrypt` maps each number to chr(pow(c, d, n)).

Each engine is modelled in the form the code has:

- **Pure helpers.** `permute`, `left_shift`, the key schedule and the Feistel network are functions over strings.
- **Imperative code.** The list `log` that `sbox` and `generate_keys` append to is a class `Logs.Log` with a `seq` field. The loops (`xor`, `gcd`, `mod_inverse`, the search for e, the encryption and decryption loops) are methods with loop invariants.
- **How the methods are proved.** Each method is proved equal to a specification function. That function carries the properties: the shape of each trace, the error cases, the round trips and the textbook vectors.
- **Python exceptions.** The exceptions the code can raise (`IndexError`, `ValueError`, `TypeError`, `OverflowError`) are the `Err` cases of `Wrappers.Result`. When an exception propagates, the run yields no trace.
- **The log.** A log line is a constructor of `Sdes.Entry` or `Rsa.Entry` that holds the values the line prints, not the formatted text.

The RSA round trip rests on a self-contained proof of Fermat's little theorem, in `number_theory.dfy`. The proof goes through the binomial theorem and Euclid's lemma. From it follows m^(ed) ≡ m (mod pq) for distinct primes p and q.

Where the code and its documented intent differ, the model follows the code:

- **Permutation entries.** `permute` reads `bits[i-1]` with Python indexing.
  - Entry 0 reads the last character (`BitStrings.PermuteZeroEntry`).
  - Entries -1 down to -len+1 read the second-last down to the first character (`BitStrings.PermuteWraps`).
  - None of these entries is rejected. Only entries outside Python's range raise `IndexError`.
- **XOR lengths.** `xor` walks the first argument only. A longer second argument is accepted and its tail is ignored (`BitStrings.XorOf`). Only a shorter one raises `IndexError`.
- **The S-DES vector.** With the textbook tables and key 1010000010, the engine encrypts 10111101 to 01110101 (`SdesFacts.StandardVector`). It does not give 10001010.
- **The RSA textbook keys.** For p = 3 and q = 11, the engine chooses e = 3, not 7, and d = 7 (`RsaFacts.TextbookKeys`).
- **Key generation for small phi.** `generate_keys` rejects neither phi <= 2 nor a missing inverse.
  - If phi <= 2, it returns e = 2 (`Rsa.PublicExponent`).
  - If no inverse exists, it returns d = None (`Rsa.InverseFound`: d is found exactly when phi >= 3).
  - A missing d only makes decryption raise `TypeError` (`RsaFacts.DecryptErrors`).
- **`chr` errors.** `chr` converts its argument to a 32-bit C `int` before its range test. A decrypted value outside that range raises `OverflowError`; any other value that is not a code point raises `ValueError` (`RsaFacts.DecryptChrError`).
- **Code points at or above the modulus.** A code point at or above n is reduced modulo n, so 'A' does not survive the round trip with n = 33 (`RsaFacts.TextbookLetterA`, `RsaFacts.RoundTripReduces`).

## Model

| member | source | states |
|---|---|---|
| BitStrings.Permute | dataencryptionstandard.py:6-7 | the output has one character per table entry, and the only exception is IndexError |
| BitStrings.PermuteSucceeds | dataencryptionstandard.py:6-7 | permute raises exactly when some entry minus 1 lies outside Python's index range for the input |
| BitStrings.PermuteValues | dataencryptionstandard.py:7 | output position i holds the input character that entry i names under Python indexing |
| BitStrings.PermuteAppend | dataencryptionstandard.py:6-7 | permuting by a concatenated table succeeds iff both parts do, and gives the concatenated outputs |
| BitStrings.PermuteInRange | dataencryptionstandard.py:6-7 | with all entries 1-based positions of the input, permute succeeds and position i holds bits[table[i]-1] |
| BitStrings.PermuteWraps | dataencryptionstandard.py:7 | an entry k with 1-len <= k <= 0 does not raise; it reads bits[len-1+k], counting from the end |
| BitStrings.PermuteZeroEntry | dataencryptionstandard.py:7 | on every non-empty input, the table [0] is accepted and reads the last character |
| BitStrings.PermuteBits | dataencryptionstandard.py:6-7 | permuting a bit string gives a bit string |
| BitStrings.PermuteUndone | dataencryptionstandard.py:6-7 | permuting by t and then by a table u that undoes t gives back the input |
| BitStrings.LeftShift | dataencryptionstandard.py:9-10 | the result keeps the input's length |
| BitStrings.LeftShiftRotates | dataencryptionstandard.py:9-10 | for n up to the length, left_shift is the rotation left by n; past it, the string is unchanged |
| BitStrings.LeftShiftPreserves | dataencryptionstandard.py:9-10 | left_shift keeps the multiset of characters, so bit strings stay bit strings |
| BitStrings.LeftShiftThenShift | dataencryptionstandard.py:9-10 | a shift by 1 then by 2 is the rotation by 3, for strings of every length |
| BitStrings.RotatedTwice | dataencryptionstandard.py:9-10 | rotating by j and then by k is rotating by j + k |
| BitStrings.XorBits | dataencryptionstandard.py:12-16 | the characterwise XOR has the first argument's length and consists of bits |
| BitStrings.XorBitsValues | dataencryptionstandard.py:12-16 | position i of the XOR is '1' exactly where the inputs differ |
| BitStrings.XorOf | dataencryptionstandard.py:12-16 | on success the result is a bit string as long as the first argument |
| BitStrings.Xor | dataencryptionstandard.py:12-16 | the loop returns XorOf(a, b): IndexError when b is shorter than a, else the characterwise XOR |
| BitStrings.XorBitsUnique | dataencryptionstandard.py:12-16 | a bit string that is '1' exactly where a and b differ is the XOR of a and b |
| BitStrings.XorTwice | dataencryptionstandard.py:12-16 | XOR with the same bit string twice gives back the input |
| Sdes.StandardSBoxes | dataencryptionstandard.py:19-31 | S0 and S1 are 4x4 matrices of values 0..3 |
| Sdes.TwoBitString | dataencryptionstandard.py:39 | format(v, "02b") gives two bits that read back as v |
| Sdes.TwoBitStringOfValue | dataencryptionstandard.py:34-39 | formatting the value read from two bits gives back those bits |
| Sdes.Row | dataencryptionstandard.py:34 | the row read from bits 0 and 3 lies in 0..3 |
| Sdes.Column | dataencryptionstandard.py:35 | the column read from bits 1 and 2 lies in 0..3 |
| Sdes.SBoxLookup | dataencryptionstandard.py:33-41 | the output is two bits encoding box[row][column] |
| Sdes.SBoxStage | dataencryptionstandard.py:33-41 | sbox succeeds exactly on inputs of at least four bits, and then gives two bits and two log entries |
| Sdes.SBox | dataencryptionstandard.py:33-41 | the method returns SBoxStage's output and appends its two entries, or raises IndexError and leaves the log unchanged |
| Sdes.KeySchedule | dataencryptionstandard.py:93-113 | the only exception is IndexError; on success K1 and K2 have len(P8) characters and the schedule logs seven entries |
| Sdes.RoundStage | dataencryptionstandard.py:128-139 | the only exception is IndexError; on success the round gives len(P4) characters and seven entries |
| Sdes.Feistel | dataencryptionstandard.py:119-164 | the only exception is IndexError; on success the network gives len(IP-1) characters and 23 entries |
| Sdes.SdesRun | dataencryptionstandard.py:87-166 | the only exception is IndexError; on success the block has len(IP-1) characters and the log 30 entries encrypting, 31 decrypting |
| Sdes.GenerateSubKeys | dataencryptionstandard.py:93-113 | returns KeySchedule's K1 and K2 and appends its seven entries, or raises KeySchedule's exception |
| Sdes.Round | dataencryptionstandard.py:129-139 | returns RoundStage's P4 output and appends its seven entries, or raises its exception |
| Sdes.Network | dataencryptionstandard.py:119-164 | returns Feistel's final block and appends its 23 entries, or raises its exception |
| Sdes.Process | dataencryptionstandard.py:87-166 | sdes_process returns SdesRun's final block and whole log, or its exception |
| SdesFacts.SBoxStageShape | dataencryptionstandard.py:33-41 | on four or more bits, sbox logs the row bits, row, column bits and column, then the value and its two bits |
| SdesFacts.RoundStageShape | dataencryptionstandard.py:128-139 | a round that succeeds gives a bit string as long as P4 and seven entries |
| SdesFacts.RoundSucceeds | dataencryptionstandard.py:129-139 | with EP and P4 reading inside four bits and a long enough round key, a round on four bits succeeds |
| SdesFacts.FeistelShape | dataencryptionstandard.py:119-164 | the network that succeeds gives a bit string as long as IP-1 and 23 entries |
| SdesFacts.KeyScheduleShape | dataencryptionstandard.py:93-113 | K1 and K2 have len(P8) characters and the key schedule logs seven entries |
| SdesFacts.KeyScheduleSucceedsExactly | dataencryptionstandard.py:95-112 | the key schedule succeeds iff every P10 entry is in Python's range for the key and every P8 entry in range for len(P10) characters |
| SdesFacts.KeyScheduleSucceeds | dataencryptionstandard.py:95-112 | with P10 reading inside the key and P8 inside the P10 output, the key schedule succeeds |
| SdesFacts.KeyScheduleRotates | dataencryptionstandard.py:98-110 | the split halves rebuild P10; LS-1 rotates each half by one place; LS-2 leaves each rotated by three |
| SdesFacts.EncryptRunsNetwork | dataencryptionstandard.py:87-166 | encryption succeeds iff the network under K1, K2 does; its output is the network's and its log the key entries then the network's |
| SdesFacts.DecryptRunsSwappedNetwork | dataencryptionstandard.py:115-117 | decryption is the network under K2, K1, with one "keys reversed" entry after the key entries |
| SdesFacts.SdesRunShape | dataencryptionstandard.py:87-166 | a run that succeeds gives len(IP-1) bits and a log of 30 entries encrypting, 31 decrypting |
| SdesFacts.FeistelRoundTrip | dataencryptionstandard.py:119-164 | for IP-1 inverse to IP and EP, P4 of the needed shape, the network under K2, K1 undoes the network under K1, K2 on every 8-bit block |
| SdesFacts.SdesRoundTrip | dataencryptionstandard.py:87-166 | sdes_process decrypts what it encrypts, for every key and every table set meeting those shape conditions |
| SdesFacts.StandardKeys | dataencryptionstandard.py:93-113 | the textbook key 1010000010 gives K1 = 10100100 and K2 = 01000011 |
| SdesFacts.StandardVector | dataencryptionstandard.py:87-166 | with the textbook tables and key, 10111101 encrypts to 01110101 and 01110101 decrypts back to 10111101 |
| NumberTheory.GcdOf | RivestShamirAdleman.py:9-12 | Euclid's recursion gives 0 only for gcd(0, 0), and never exceeds a positive second argument |
| NumberTheory.GcdDividesBoth | RivestShamirAdleman.py:9-12 | the gcd that Euclid's loop computes divides both arguments |
| NumberTheory.GcdGreatest | RivestShamirAdleman.py:9-12 | every common divisor divides that gcd |
| NumberTheory.GcdCommutes | RivestShamirAdleman.py:9-12 | gcd(a, b) == gcd(b, a) |
| NumberTheory.Bezout | RivestShamirAdleman.py:14-18 | some x, y give a*x + b*y == gcd(a, b), which is why an inverse exists for a coprime e |
| NumberTheory.Fermat | RivestShamirAdleman.py:58 | a^p ≡ a (mod p) for a prime p and every a |
| NumberTheory.RsaIdentity | RivestShamirAdleman.py:78 | for distinct primes and e*d ≡ 1 mod (p-1)(q-1), (m^e)^d reduced mod pq is m for every m < pq |
| Logs.Log.Append | RivestShamirAdleman.py:23 | log.append adds its entry at the end and keeps every earlier entry |
| Rsa.Gcd | RivestShamirAdleman.py:9-12 | Euclid's loop returns GcdOf(a, b); gcd(a, 0) == a and gcd(0, b) == b |
| Rsa.SharedFactor | RivestShamirAdleman.py:33 | a k that fails the gcd test against a positive phi shares a factor of at least 2 with it |
| Rsa.InverseFrom | RivestShamirAdleman.py:14-18 | the search returns the smallest d >= lo below phi with e*d % phi == 1, and None exactly when there is none |
| Rsa.ModInverseOf | RivestShamirAdleman.py:14-18 | the result is the least d in 1..phi-1 with e*d % phi == 1, None iff there is none, and None for phi <= 1 |
| Rsa.ModInverse | RivestShamirAdleman.py:14-18 | the loop returns the smallest inverse in 1..phi-1 or None, and None whenever phi <= 1 |
| Rsa.ExponentFrom | RivestShamirAdleman.py:31-35 | the search stops at the first value coprime with phi below phi, or at phi; no value passed over is coprime |
| Rsa.PublicExponent | RivestShamirAdleman.py:31-35 | e >= 2 and no k in 2..e-1 is coprime with phi; e is coprime with phi when below it; e == 2 when phi <= 2 |
| Rsa.KeysOf | RivestShamirAdleman.py:22-45 | n == p*q, e >= 2, and a d that is found lies in 1..phi-1 and inverts e modulo phi |
| Rsa.KeyTrace | RivestShamirAdleman.py:23-43 | seven entries: the header first, then n == p*q in the modulus and both key entries, with the chosen e and computed d matching the public and private keys |
| Rsa.GenerateKeys | RivestShamirAdleman.py:22-45 | returns KeysOf(p, q) and appends exactly the seven key-generation entries to the caller's log |
| Rsa.KeysOfFacts | RivestShamirAdleman.py:22-45 | n = pq; e is the least value >= 2 coprime with phi when phi >= 3, else 2; d is the least inverse of e, missing iff none exists |
| Rsa.InverseFound | RivestShamirAdleman.py:31-39 | generate_keys finds d exactly when phi >= 3 |
| Rsa.ModPow | RivestShamirAdleman.py:58 | pow(b, x, n) is congruent to b^x and lies in [0, n) for n > 0 and in (n, 0] for n < 0 |
| Rsa.EncryptRun | RivestShamirAdleman.py:49-65 | fails iff the message is non-empty and n == 0, then with ValueError; on success one number per character and len(message) + 10 entries |
| Rsa.FirstUndecodable | RivestShamirAdleman.py:77-79 | the position the decryption loop stops at: the first number whose pow(c, d, n) is no code point |
| Rsa.DecryptRun | RivestShamirAdleman.py:69-85 | only non-empty ciphertexts fail, never with IndexError; on success one character per number and len(cipher) + 10 entries |
| Rsa.Encrypt | RivestShamirAdleman.py:49-65 | the method returns EncryptRun: the ciphertext numbers and the whole log, or ValueError |
| Rsa.Decrypt | RivestShamirAdleman.py:69-85 | the method returns DecryptRun: the plaintext and the whole log, or TypeError, ValueError or OverflowError |
| RsaFacts.EncryptShape | RivestShamirAdleman.py:49-65 | encryption fails iff the message is non-empty and n == 0; each cipher number is pow(ord(ch), e, n) in [0, n); the log holds the seven key entries, a header, one entry per character, a header and the ciphertext |
| RsaFacts.EncryptEmpty | RivestShamirAdleman.py:49-65 | the empty message gives an empty ciphertext and only the key and section entries, even for n == 0 |
| RsaFacts.DecryptErrors | RivestShamirAdleman.py:69-85 | a missing d raises TypeError and n == 0 raises ValueError on non-empty input; success iff every number decrypts to a code point |
| RsaFacts.DecryptChrError | RivestShamirAdleman.py:78-79 | at the first number decrypting outside the code points, decryption raises OverflowError if the value is no 32-bit C int, else ValueError |
| RsaFacts.DecryptShape | RivestShamirAdleman.py:69-85 | a decryption that succeeds gives chr(pow(c, d, n)) per number and the log laid out as for encryption |
| RsaFacts.CharRoundTrip | RivestShamirAdleman.py:58 | for distinct primes, decrypting the encryption of m gives m mod pq |
| RsaFacts.RoundTripReduces | RivestShamirAdleman.py:49-85 | for distinct primes, the round trip gives each code point mod pq, and gives the message back iff every code point is below pq |
| RsaFacts.RoundTrip | RivestShamirAdleman.py:49-85 | for distinct primes and code points below pq, rsa_decrypt recovers the message rsa_encrypt encrypted |
| RsaFacts.TextbookKeys | RivestShamirAdleman.py:22-45 | p = 3, q = 11 give e = 3, d = 7 and n = 33 |
| RsaFacts.TextbookLetterA | RivestShamirAdleman.py:49-85 | 'A' (65) encrypts to 32 under those keys, and 32 decrypts to chr(32) |

## Left out

- The Flask routes, the HTML form and template, and the parsing of the form fields are not modelled. The parsing covers the table strings, `int(p)`, `int(q)` and `ciphertext.split()` at `RivestShamirAdleman.py:74`. The model starts from the parsed values: six integer tables, integer p and q, and a sequence of integers.
- The formatting of log lines and the final `'\n'.join(log)` are not modelled. The trace is a sequence of structured entries that hold the printed values.
- The unused imports `math` and `random` are not modelled.
- The unpacking of `tables` into six lists is not modelled. `Sdes.Tables` always has exactly six, so the ValueError for a different count cannot arise.
- Sdes.SBoxStage: requires the input to consist of '0' and '1'. The only callers pass XOR outputs, which are always bits. The `ValueError` that `int(..., 2)` raises on other characters is therefore not modelled.
- Sdes.SBox: the same restriction to bit strings as `Sdes.SBoxStage`.
- Rsa.Gcd: takes only non-negative arguments. `generate_keys` calls it only with 2 <= e < phi, and Python's sign rules for `%` on negative operands are not modelled.
- Rsa.ModPow: gives the value of Python's three-argument `pow`. It does not model how Python computes that value.
- Rsa.IsCInt: fixes the C `int` that `chr` converts to at 32 bits, as on the platforms CPython runs on. Python versions whose `chr` raises `ValueError` for every out-of-range value are not modelled separately.
- RSA messages are sequences of code points, each of which is `ord(ch)`. Python's string type and the textual form of `chr(m)` in the log are not modelled beyond that.
- Time, randomness and I/O play no part in either engine. The random module is imported but never used.
