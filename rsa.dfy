/**
  The RSA engine: Euclid's `gcd`, the brute-force `mod_inverse`, `generate_keys`, which
  takes the smallest public exponent coprime with phi, and `rsa_encrypt`/`rsa_decrypt`,
  which work one character at a time. Each engine call returns its result together
  with the ordered trace it logs.
  Python strings are sequences of code points, and the ciphertext is the sequence of
  integers the form's text holds.
*/
module Rsa {
  import opened Wrappers
  import opened Logs
  import opened Arithmetic
  import opened NumberTheory

  /** The values Python's `chr` accepts and `ord` returns. */
  predicate IsCodePoint(m: int) { 0 <= m < 0x110000 }

  type CodePoint = m: int | IsCodePoint(m)

  /** One entry of the trace, in place of the line of text the engine logs. */
  datatype Entry =
    | KeyGenerationHeader
    | Modulus(p: int, q: int, n: int)
    | Totient(phi: int)
    | ChosenE(e: int)
    | ComputedD(d: Option<nat>)
    | PublicKey(e: int, n: int)
    | PrivateKey(d: Option<nat>, n: int)
    | EncryptionHeader
    | EncryptedChar(ch: CodePoint, e: int, n: int, c: int)
    | CiphertextHeader
    | Ciphertext(cipher: seq<int>)
    | DecryptionHeader
    | DecryptedChar(c: int, exponent: nat, n: int, ch: CodePoint)
    | PlaintextHeader
    | Plaintext(message: seq<CodePoint>)

  /** What `generate_keys` returns: e, d (None when no inverse was found) and n. */
  datatype Keys = Keys(e: nat, d: Option<nat>, n: int)

  // ---------------------------------------------------------------- gcd

  /** `gcd`: Euclid's loop; the arguments it gets from `generate_keys` are never negative. */
  method Gcd(a: nat, b: nat) returns (g: nat)
    ensures g == GcdOf(a, b)
    ensures b == 0 ==> g == a
    ensures a == 0 ==> g == b
  {
    var x, y := a, b;
    while y != 0
      invariant GcdOf(x, y) == GcdOf(a, b)
      decreases y
    {
      x, y := y, x % y;
    }
    g := x;
  }

  /** `k` and `phi` have no common factor but 1. */
  predicate Coprime(k: int, phi: int)
  {
    k >= 0 && phi >= 0 && GcdOf(k, phi) == 1
  }

  /** Not being coprime with a positive `phi` means sharing a factor of at least 2 with it. */
  lemma SharedFactor(k: nat, phi: nat)
    requires phi > 0 && !Coprime(k, phi)
    ensures var g := GcdOf(k, phi); g >= 2 && Divides(g, k) && Divides(g, phi)
  {
    GcdDividesBoth(k, phi);
  }

  // ---------------------------------------------------------------- mod_inverse

  /** `d` is an inverse of `e` modulo `phi`: the test `(e * d) % phi == 1`. */
  predicate Inverts(e: int, d: int, phi: int)
  {
    phi > 0 && (e * d) % phi == 1
  }

  /** The first inverse of `e` modulo `phi` among lo, lo+1, ..., phi-1, if any. */
  function InverseFrom(e: int, phi: int, lo: nat): (r: Option<nat>)
    requires lo >= 1
    ensures r.Some? ==> lo <= r.value < phi && Inverts(e, r.value, phi)
    ensures r.Some? ==> forall k :: lo <= k < r.value ==> !Inverts(e, k, phi)
    ensures r.None? <==> forall k :: lo <= k < phi ==> !Inverts(e, k, phi)
    decreases phi - lo
  {
    if lo >= phi then None
    else if Inverts(e, lo, phi) then Some(lo)
    else InverseFrom(e, phi, lo + 1)
  }

  /** What `mod_inverse(e, phi)` returns: the smallest inverse in 1..phi-1, or None. */
  function ModInverseOf(e: int, phi: int): (r: Option<nat>)
    ensures r.Some? ==> 1 <= r.value < phi && Inverts(e, r.value, phi)
    ensures r.Some? ==> forall k :: 1 <= k < r.value ==> !Inverts(e, k, phi)
    ensures r.None? <==> forall k :: 1 <= k < phi ==> !Inverts(e, k, phi)
    ensures phi <= 1 ==> r.None?
  {
    InverseFrom(e, phi, 1)
  }

  /** `mod_inverse`: the `for d in range(1, phi)` loop with its early return. */
  method ModInverse(e: int, phi: int) returns (r: Option<nat>)
    ensures r == ModInverseOf(e, phi)
    ensures phi <= 1 ==> r.None?
  {
    var d := 1;
    while d < phi
      invariant d >= 1
      invariant InverseFrom(e, phi, d) == ModInverseOf(e, phi)
      decreases phi - d
    {
      if (e * d) % phi == 1 {
        return Some(d);
      }
      d := d + 1;
    }
    return None;
  }

  // ---------------------------------------------------------------- generate_keys

  /**
    The search for e: starting at `e`, the first value coprime with `phi`, or the first
    value that is not below `phi` when there is none.
  */
  function ExponentFrom(phi: int, e: int): (r: int)
    requires e >= 2
    ensures r >= e
    ensures r < phi ==> Coprime(r, phi)
    ensures e >= phi ==> r == e
    ensures e < phi ==> r <= phi
    ensures forall k :: e <= k < r ==> !Coprime(k, phi)
    decreases phi - e
  {
    if e >= phi then e
    else if GcdOf(e, phi) == 1 then e
    else ExponentFrom(phi, e + 1)
  }

  /** The public exponent `generate_keys` chooses for `phi`. */
  function PublicExponent(phi: int): (e: nat)
    ensures e >= 2
    ensures e < phi ==> Coprime(e, phi)
    ensures forall k :: 2 <= k < e ==> !Coprime(k, phi)
    ensures phi <= 2 ==> e == 2
  {
    ExponentFrom(phi, 2)
  }

  /** The keys `generate_keys(p, q, log)` returns. */
  function KeysOf(p: int, q: int): (k: Keys)
    ensures k.n == p * q && k.e >= 2
    ensures k.d.Some? ==> 1 <= k.d.value < (p - 1) * (q - 1) && Inverts(k.e, k.d.value, (p - 1) * (q - 1))
  {
    var phi := (p - 1) * (q - 1);
    var e := PublicExponent(phi);
    Keys(e, ModInverseOf(e, phi), p * q)
  }

  /** The seven entries `generate_keys` appends, in order. */
  function KeyTrace(p: int, q: int): (r: seq<Entry>)
    ensures |r| == 7 && r[0] == KeyGenerationHeader
    ensures r[1].Modulus? && r[1].n == p * q && r[5].PublicKey? && r[5].n == p * q && r[6].PrivateKey? && r[6].n == p * q
    ensures r[3] == ChosenE(r[5].e) && r[4] == ComputedD(r[6].d)
  {
    var k := KeysOf(p, q);
    [KeyGenerationHeader, Modulus(p, q, k.n), Totient((p - 1) * (q - 1)), ChosenE(k.e),
     ComputedD(k.d), PublicKey(k.e, k.n), PrivateKey(k.d, k.n)]
  }

  /** `generate_keys`: appends its seven entries to the caller's log and returns the keys. */
  method GenerateKeys(p: int, q: int, log: Log<Entry>) returns (keys: Keys)
    modifies log
    ensures keys == KeysOf(p, q)
    ensures log.entries == old(log.entries) + KeyTrace(p, q)
  {
    ghost var start := log.entries;
    log.Append(KeyGenerationHeader);
    var n := p * q;
    log.Append(Modulus(p, q, n));
    var phi := (p - 1) * (q - 1);
    log.Append(Totient(phi));
    assert log.entries == start + [KeyGenerationHeader, Modulus(p, q, n), Totient(phi)];

    var e := 2;
    while e < phi
      invariant e >= 2
      invariant ExponentFrom(phi, e) == PublicExponent(phi)
      invariant log.entries == start + [KeyGenerationHeader, Modulus(p, q, n), Totient(phi)]
      decreases phi - e
    {
      var g := Gcd(e, phi);
      if g == 1 {
        break;
      }
      e := e + 1;
    }
    assert e == PublicExponent(phi);
    log.Append(ChosenE(e));

    var d := ModInverse(e, phi);
    log.Append(ComputedD(d));
    log.Append(PublicKey(e, n));
    log.Append(PrivateKey(d, n));
    keys := Keys(e, d, n);
    assert log.entries == start + [KeyGenerationHeader, Modulus(p, q, n), Totient(phi), ChosenE(e),
                                   ComputedD(d), PublicKey(e, n), PrivateKey(d, n)];
  }

  /**
    The facts `generate_keys` guarantees: n == p*q; e >= 2, and when phi >= 3, e is the
    smallest value of at least 2 that is coprime with phi and lies below phi, while
    e == 2 when phi <= 2; d is the smallest inverse of e in 1..phi-1 and is missing
    exactly when there is none.
  */
  lemma KeysOfFacts(p: int, q: int)
    ensures var k := KeysOf(p, q); var phi := (p - 1) * (q - 1);
      && k.n == p * q
      && k.e >= 2
      && (phi >= 3 ==> k.e < phi && Coprime(k.e, phi))
      && (forall j :: 2 <= j < k.e ==> !Coprime(j, phi))
      && (phi <= 2 ==> k.e == 2)
      && (k.d.Some? ==> 1 <= k.d.value < phi && Inverts(k.e, k.d.value, phi))
      && (k.d.Some? ==> forall j :: 1 <= j < k.d.value ==> !Inverts(k.e, j, phi))
      && (k.d.None? <==> forall j :: 1 <= j < phi ==> !Inverts(k.e, j, phi))
  {
    var phi := (p - 1) * (q - 1);
    if phi >= 3 {
      GcdPredecessor(phi);
      assert Coprime(phi - 1, phi);
    }
  }

  /** `mod_inverse` finds d exactly when phi >= 3: then e is coprime with phi. */
  lemma InverseFound(p: int, q: int)
    ensures KeysOf(p, q).d.Some? <==> (p - 1) * (q - 1) >= 3
  {
    var phi := (p - 1) * (q - 1);
    var k := KeysOf(p, q);
    KeysOfFacts(p, q);
    if phi >= 3 {
      var x, y := Bezout(k.e, phi);
      InverseOfBezout(k.e, phi, x, y);
    } else if phi == 2 {
      assert (2 * 1) % 2 == 0;
      assert !Inverts(k.e, 1, phi);
    }
  }

  /** Bezout's identity e*x + phi*y == 1 gives the inverse x % phi of e modulo phi. */
  lemma InverseOfBezout(e: int, phi: nat, x: int, y: int)
    requires phi >= 2 && e * x + phi * y == 1
    ensures 1 <= x % phi < phi && Inverts(e, x % phi, phi)
  {
    var d := x % phi;
    var t := x / phi;
    assert x == phi * t + d;
    assert e * d - 1 == phi * (-y - e * t);
    DividesProduct(phi, -y - e * t);
    CongruentMod(e * d, 1, phi);
    DivModUnique(1, phi, 0, 1);
  }

  // ---------------------------------------------------------------- pow(b, x, n)

  /**
    Python's three-argument `pow(b, x, n)`: the integer congruent to b^x modulo n that
    lies in [0, n) for a positive n and in (n, 0] for a negative n.
  */
  function ModPow(b: int, x: nat, n: int): (r: int)
    requires n != 0
    ensures n > 0 ==> 0 <= r < n
    ensures n < 0 ==> n < r <= 0
    ensures Congruent(Pow(b, x), r, if n > 0 then n else -n)
  {
    var m := Pow(b, x) % n;
    ModPowCongruent(Pow(b, x), n);
    if n < 0 && m != 0 then m + n else m
  }

  lemma ModPowCongruent(v: int, n: int)
    requires n != 0
    ensures var m := v % n; var a: nat := if n > 0 then n else -n;
      Congruent(v, m, a) && Congruent(v, m + n, a)
  {
    var m := v % n;
    var a: nat := if n > 0 then n else -n;
    var t := v / n;
    assert v == n * t + m;
    if n > 0 {
      assert v - m == a * t && v - (m + n) == a * (t - 1);
      DividesProduct(a, t);
      DividesProduct(a, t - 1);
    } else {
      assert v - m == a * (-t) && v - (m + n) == a * (1 - t);
      DividesProduct(a, -t);
      DividesProduct(a, 1 - t);
    }
  }

  // ---------------------------------------------------------------- rsa_encrypt

  /** The ciphertext numbers `pow(ord(ch), e, n)` of a message, in order. */
  function Ciphers(message: seq<CodePoint>, e: nat, n: int): (c: seq<int>)
    requires n != 0 || |message| == 0
  {
    seq(|message|, i requires 0 <= i < |message| => ModPow(message[i], e, n))
  }

  /** The entries the encryption loop appends, one per character. */
  function EncryptSteps(message: seq<CodePoint>, e: nat, n: int): seq<Entry>
    requires n != 0 || |message| == 0
  {
    seq(|message|, i requires 0 <= i < |message| =>
      EncryptedChar(message[i], e, n, ModPow(message[i], e, n)))
  }

  datatype Encryption = Encryption(cipher: seq<int>, trace: seq<Entry>)

  /**
    What `rsa_encrypt(message, p, q)` produces, with the ciphertext numbers kept apart
    from the trace; `pow` with modulus 0 raises ValueError at the first character.
  */
  function EncryptRun(message: seq<CodePoint>, p: int, q: int): (r: Result<Encryption>)
    ensures r.Err? <==> |message| > 0 && p * q == 0
    ensures r.Err? ==> r.error == ValueError
    ensures r.Ok? ==> |r.value.cipher| == |message| && |r.value.trace| == |message| + 10
  {
    var k := KeysOf(p, q);
    if |message| > 0 && k.n == 0 then Err(ValueError)
    else
      var cipher := Ciphers(message, k.e, k.n);
      Ok(Encryption(cipher, KeyTrace(p, q) + [EncryptionHeader] + EncryptSteps(message, k.e, k.n)
                            + [CiphertextHeader, Ciphertext(cipher)]))
  }

  /** `rsa_encrypt`: generate the keys into a fresh log, then encrypt character by character. */
  method Encrypt(message: seq<CodePoint>, p: int, q: int) returns (r: Result<Encryption>)
    ensures r == EncryptRun(message, p, q)
  {
    var log := new Log<Entry>();
    var keys := GenerateKeys(p, q, log);
    log.Append(EncryptionHeader);
    ghost var start := log.entries;
    assert start == KeyTrace(p, q) + [EncryptionHeader];
    var cipher: seq<int> := [];
    for i := 0 to |message|
      invariant i > 0 ==> keys.n != 0
      invariant keys == KeysOf(p, q)
      invariant cipher == Ciphers(message[..i], keys.e, keys.n)
      invariant log.entries == start + EncryptSteps(message[..i], keys.e, keys.n)
    {
      if keys.n == 0 {
        return Err(ValueError);
      }
      var c := ModPow(message[i], keys.e, keys.n);
      assert message[..i + 1] == message[..i] + [message[i]];
      cipher := cipher + [c];
      log.Append(EncryptedChar(message[i], keys.e, keys.n, c));
    }
    assert message[..|message|] == message;
    ghost var steps := EncryptSteps(message, keys.e, keys.n);
    log.Append(CiphertextHeader);
    log.Append(Ciphertext(cipher));
    assert log.entries == start + steps + [CiphertextHeader, Ciphertext(cipher)];
    return Ok(Encryption(cipher, log.entries));
  }

  // ---------------------------------------------------------------- rsa_decrypt

  /** Every number decrypts to a value `chr` accepts. */
  predicate Decodable(cipher: seq<int>, d: nat, n: int)
    requires n != 0 || |cipher| == 0
  {
    forall i :: 0 <= i < |cipher| ==> IsCodePoint(ModPow(cipher[i], d, n))
  }

  /** The position of the first number that does not decrypt to a code point. */
  function FirstUndecodable(cipher: seq<int>, d: nat, n: int): (i: nat)
    requires n != 0 || |cipher| == 0
    requires !Decodable(cipher, d, n)
    ensures i < |cipher| && !IsCodePoint(ModPow(cipher[i], d, n))
    ensures forall j :: 0 <= j < i ==> IsCodePoint(ModPow(cipher[j], d, n))
    decreases |cipher|
  {
    if !IsCodePoint(ModPow(cipher[0], d, n)) then 0
    else
      UndecodableTail(cipher, d, n);
      var i := FirstUndecodable(cipher[1..], d, n);
      assert forall j :: 0 < j <= i ==> cipher[j] == cipher[1..][j - 1];
      1 + i
  }

  lemma UndecodableTail(cipher: seq<int>, d: nat, n: int)
    requires n != 0 && |cipher| > 0 && !Decodable(cipher, d, n)
    requires IsCodePoint(ModPow(cipher[0], d, n))
    ensures !Decodable(cipher[1..], d, n)
  {
    var k :| 0 <= k < |cipher| && !IsCodePoint(ModPow(cipher[k], d, n));
    assert cipher[1..][k - 1] == cipher[k];
  }

  /** A decodable prefix followed by a bad number: that number is the first bad one. */
  lemma FirstUndecodableAt(cipher: seq<int>, d: nat, n: int, i: nat)
    requires n != 0 && i < |cipher| && Decodable(cipher[..i], d, n)
    requires !IsCodePoint(ModPow(cipher[i], d, n))
    ensures !Decodable(cipher, d, n) && FirstUndecodable(cipher, d, n) == i
  {
    forall j | 0 <= j < i
      ensures IsCodePoint(ModPow(cipher[j], d, n))
    {
      assert cipher[..i][j] == cipher[j];
    }
  }

  /** CPython's `chr` converts its argument to a 32-bit C `int` before the range test. */
  predicate IsCInt(m: int) { -0x8000_0000 <= m < 0x8000_0000 }

  /**
    What `chr(m)` raises for a value that is no code point: `OverflowError` when the
    conversion to a C `int` fails, `ValueError` otherwise.
  */
  function ChrError(m: int): PyException
  {
    if IsCInt(m) then ValueError else OverflowError
  }

  /** The characters `chr(pow(c, d, n))` of the ciphertext numbers, in order. */
  function Plaintexts(cipher: seq<int>, d: nat, n: int): seq<CodePoint>
    requires n != 0 || |cipher| == 0
    requires Decodable(cipher, d, n)
  {
    seq(|cipher|, i requires 0 <= i < |cipher| => var m: CodePoint := ModPow(cipher[i], d, n); m)
  }

  /** The entries the decryption loop appends, one per number. */
  function DecryptSteps(cipher: seq<int>, d: nat, n: int): seq<Entry>
    requires n != 0 || |cipher| == 0
    requires Decodable(cipher, d, n)
  {
    seq(|cipher|, i requires 0 <= i < |cipher| =>
      var m: CodePoint := ModPow(cipher[i], d, n); DecryptedChar(cipher[i], d, n, m))
  }

  datatype Decryption = Decryption(message: seq<CodePoint>, trace: seq<Entry>)

  /**
    What `rsa_decrypt(ciphertext, p, q)` produces. At the first number `pow(c, None, n)`
    raises TypeError when d is missing and `pow(c, d, 0)` raises ValueError; `chr`
    raises at the first value outside the code points. The empty ciphertext never fails.
  */
  function DecryptRun(cipher: seq<int>, p: int, q: int): (r: Result<Decryption>)
    ensures r.Err? ==> |cipher| > 0 && r.error != IndexError
    ensures r.Ok? ==> |r.value.message| == |cipher| && |r.value.trace| == |cipher| + 10
  {
    var k := KeysOf(p, q);
    if |cipher| > 0 && k.d.None? then Err(TypeError)
    else if |cipher| > 0 && k.n == 0 then Err(ValueError)
    else
      var d := if k.d.Some? then k.d.value else 0;
      if !Decodable(cipher, d, k.n) then Err(ChrError(ModPow(cipher[FirstUndecodable(cipher, d, k.n)], d, k.n)))
      else
        var message := Plaintexts(cipher, d, k.n);
        Ok(Decryption(message, KeyTrace(p, q) + [DecryptionHeader] + DecryptSteps(cipher, d, k.n)
                               + [PlaintextHeader, Plaintext(message)]))
  }

  /** `rsa_decrypt`: generate the keys into a fresh log, then decrypt number by number. */
  method Decrypt(cipher: seq<int>, p: int, q: int) returns (r: Result<Decryption>)
    ensures r == DecryptRun(cipher, p, q)
  {
    var log := new Log<Entry>();
    var keys := GenerateKeys(p, q, log);
    log.Append(DecryptionHeader);
    ghost var start := log.entries;
    assert start == KeyTrace(p, q) + [DecryptionHeader];
    ghost var d: nat := if keys.d.Some? then keys.d.value else 0;
    var message: seq<CodePoint> := [];
    for i := 0 to |cipher|
      invariant i > 0 ==> keys.d.Some? && keys.n != 0
      invariant keys == KeysOf(p, q)
      invariant Decodable(cipher[..i], d, keys.n)
      invariant message == Plaintexts(cipher[..i], d, keys.n)
      invariant log.entries == start + DecryptSteps(cipher[..i], d, keys.n)
    {
      if keys.d.None? {
        return Err(TypeError);
      }
      if keys.n == 0 {
        return Err(ValueError);
      }
      var m := ModPow(cipher[i], keys.d.value, keys.n);
      if !IsCodePoint(m) {
        FirstUndecodableAt(cipher, d, keys.n, i);
        return Err(ChrError(m));
      }
      assert cipher[..i + 1] == cipher[..i] + [cipher[i]];
      message := message + [m];
      log.Append(DecryptedChar(cipher[i], keys.d.value, keys.n, m));
    }
    assert cipher[..|cipher|] == cipher;
    ghost var steps := DecryptSteps(cipher, d, keys.n);
    log.Append(PlaintextHeader);
    log.Append(Plaintext(message));
    assert log.entries == start + steps + [PlaintextHeader, Plaintext(message)];
    return Ok(Decryption(message, log.entries));
  }
}
