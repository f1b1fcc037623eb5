/**
  What the RSA engine guarantees: the shape of a run and its trace, the error cases,
  the round trip for distinct primes, and the textbook example p = 3, q = 11.
*/
module RsaFacts {
  import opened Wrappers
  import opened Arithmetic
  import opened NumberTheory
  import opened Rsa

  /**
    Encryption fails only when some character meets the modulus 0. Otherwise it gives
    one number per character, in order, each c == ord(ch)^e mod n and so in [0, n) for
    a positive n, and logs the key entries, a header, one entry per character and the
    ciphertext.
  */
  lemma EncryptShape(message: seq<CodePoint>, p: int, q: int)
    ensures EncryptRun(message, p, q).Ok? <==> (|message| == 0 || p * q != 0)
    ensures EncryptRun(message, p, q).Ok? ==>
      var k := KeysOf(p, q); var r := EncryptRun(message, p, q).value;
      && |r.cipher| == |message|
      && (forall i :: 0 <= i < |message| ==> r.cipher[i] == ModPow(message[i], k.e, k.n))
      && (forall i :: 0 <= i < |message| ==> (k.n > 0 ==> 0 <= r.cipher[i] < k.n))
      && |r.trace| == |message| + 10
      && r.trace[..7] == KeyTrace(p, q)
      && r.trace[7] == EncryptionHeader
      && (forall i :: 0 <= i < |message| ==> r.trace[8 + i] == EncryptedChar(message[i], k.e, k.n, r.cipher[i]))
      && r.trace[|message| + 8] == CiphertextHeader
      && r.trace[|message| + 9] == Ciphertext(r.cipher)
  {
    var k := KeysOf(p, q);
    KeysOfFacts(p, q);
    if EncryptRun(message, p, q).Ok? {
      var r := EncryptRun(message, p, q).value;
      var steps := EncryptSteps(message, k.e, k.n);
      assert r.trace == KeyTrace(p, q) + [EncryptionHeader] + steps + [CiphertextHeader, Ciphertext(r.cipher)];
      forall i | 0 <= i < |message|
        ensures r.trace[8 + i] == EncryptedChar(message[i], k.e, k.n, r.cipher[i])
      {
        assert r.trace[8 + i] == steps[i];
      }
    }
  }

  /** An empty message gives an empty ciphertext and only the key and section entries. */
  lemma EncryptEmpty(p: int, q: int)
    ensures EncryptRun([], p, q).Ok?
    ensures EncryptRun([], p, q).value.cipher == []
    ensures EncryptRun([], p, q).value.trace
      == KeyTrace(p, q) + [EncryptionHeader, CiphertextHeader, Ciphertext([])]
  {
    assert EncryptSteps([], KeysOf(p, q).e, p * q) == [];
  }

  /**
    Decryption of a non-empty ciphertext needs d (`pow(c, None, n)` raises TypeError)
    and a non-zero modulus (ValueError), and every number must decrypt to a code point
    (`chr` raises otherwise, as `DecryptChrError` details).
  */
  lemma DecryptErrors(cipher: seq<int>, p: int, q: int)
    ensures |cipher| > 0 && KeysOf(p, q).d.None? ==> DecryptRun(cipher, p, q) == Err(TypeError)
    ensures |cipher| > 0 && KeysOf(p, q).d.Some? && p * q == 0 ==> DecryptRun(cipher, p, q) == Err(ValueError)
    ensures DecryptRun(cipher, p, q).Ok? <==>
      (|cipher| == 0 || (KeysOf(p, q).d.Some? && p * q != 0
        && forall i :: 0 <= i < |cipher| ==> IsCodePoint(ModPow(cipher[i], KeysOf(p, q).d.value, p * q))))
  {
  }

  /**
    The first number that decrypts outside the code points decides the exception:
    `OverflowError` when `chr` cannot convert the value to a C `int`, `ValueError`
    when it can.
  */
  lemma DecryptChrError(cipher: seq<int>, p: int, q: int, i: nat)
    requires KeysOf(p, q).d.Some? && p * q != 0 && i < |cipher|
    requires forall j :: 0 <= j < i ==> IsCodePoint(ModPow(cipher[j], KeysOf(p, q).d.value, p * q))
    requires !IsCodePoint(ModPow(cipher[i], KeysOf(p, q).d.value, p * q))
    ensures var m := ModPow(cipher[i], KeysOf(p, q).d.value, p * q);
      && (IsCInt(m) ==> DecryptRun(cipher, p, q) == Err(ValueError))
      && (!IsCInt(m) ==> DecryptRun(cipher, p, q) == Err(OverflowError))
  {
    var d, n := KeysOf(p, q).d.value, p * q;
    assert !Decodable(cipher, d, n);
    var f := FirstUndecodable(cipher, d, n);
    assert f == i;
  }

  /**
    A decryption that succeeds gives one character chr(c^d mod n) per number, in
    order, and logs the key entries, a header, one entry per number and the plaintext.
  */
  lemma DecryptShape(cipher: seq<int>, p: int, q: int)
    requires DecryptRun(cipher, p, q).Ok? && |cipher| > 0
    ensures var k := KeysOf(p, q); var r := DecryptRun(cipher, p, q).value;
      && k.d.Some? && k.n != 0
      && |r.message| == |cipher|
      && (forall i :: 0 <= i < |cipher| ==> r.message[i] == ModPow(cipher[i], k.d.value, k.n))
      && |r.trace| == |cipher| + 10
      && r.trace[..7] == KeyTrace(p, q)
      && r.trace[7] == DecryptionHeader
      && (forall i :: 0 <= i < |cipher| ==>
            r.trace[8 + i] == DecryptedChar(cipher[i], k.d.value, k.n, r.message[i]))
      && r.trace[|cipher| + 8] == PlaintextHeader
      && r.trace[|cipher| + 9] == Plaintext(r.message)
  {
    var k := KeysOf(p, q);
    var r := DecryptRun(cipher, p, q).value;
    var steps := DecryptSteps(cipher, k.d.value, k.n);
    assert r.trace == KeyTrace(p, q) + [DecryptionHeader] + steps + [PlaintextHeader, Plaintext(r.message)];
    forall i | 0 <= i < |cipher|
      ensures r.trace[8 + i] == DecryptedChar(cipher[i], k.d.value, k.n, r.message[i])
    {
      assert r.trace[8 + i] == steps[i];
    }
  }

  /** One character: for distinct primes, decrypting its encryption gives m mod p*q. */
  lemma CharRoundTrip(p: nat, q: nat, m: nat)
    requires IsPrime(p) && IsPrime(q) && p != q && KeysOf(p, q).d.Some?
    ensures var k := KeysOf(p, q);
      k.n == p * q > 0 && ModPow(ModPow(m, k.e, k.n), k.d.value, k.n) == m % (p * q)
  {
    var k := KeysOf(p, q);
    KeysOfFacts(p, q);
    var n := p * q;
    var e, d := k.e, k.d.value;
    assert ModPow(m, e, n) == Pow(m, e) % n;
    PowReduceBase(m, e, n);
    PowReduceBase(Pow(m % n, e), d, n);
    assert ModPow(ModPow(m, e, n), d, n) == Pow(Pow(m % n, e), d) % n;
    RsaIdentity(p, q, e, d, m % n);
  }

  /**
    For distinct primes p and q with d found, decrypting the encryption of a message
    gives each code point reduced modulo n == p*q, so it gives back the message
    exactly when every code point is below n.
  */
  lemma RoundTripReduces(message: seq<CodePoint>, p: nat, q: nat)
    requires IsPrime(p) && IsPrime(q) && p != q && KeysOf(p, q).d.Some?
    ensures EncryptRun(message, p, q).Ok?
    ensures var back := DecryptRun(EncryptRun(message, p, q).value.cipher, p, q);
      && back.Ok?
      && |back.value.message| == |message|
      && (forall i :: 0 <= i < |message| ==> back.value.message[i] == message[i] % (p * q))
      && (back.value.message == message <==> forall i :: 0 <= i < |message| ==> message[i] < p * q)
  {
    var k := KeysOf(p, q);
    KeysOfFacts(p, q);
    var n := p * q;
    assert n > 0;
    var cipher := EncryptRun(message, p, q).value.cipher;
    assert cipher == Ciphers(message, k.e, n);
    forall i | 0 <= i < |message|
      ensures ModPow(cipher[i], k.d.value, n) == message[i] % n
      ensures IsCodePoint(message[i] % n)
    {
      CharRoundTrip(p, q, message[i]);
      ModAtMost(message[i], n);
    }
    assert Decodable(cipher, k.d.value, n);
    var back := DecryptRun(cipher, p, q).value.message;
    assert back == Plaintexts(cipher, k.d.value, n);
    forall i | 0 <= i < |message| && message[i] < n
      ensures back[i] == message[i]
    {
      DivModUnique(message[i], n, 0, message[i]);
    }
    if back == message {
      forall i | 0 <= i < |message|
        ensures message[i] < n
      {
        assert back[i] == message[i] % n;
      }
    }
  }

  /** The round trip: with every code point below p*q, decryption returns the message. */
  lemma RoundTrip(message: seq<CodePoint>, p: nat, q: nat)
    requires IsPrime(p) && IsPrime(q) && p != q && KeysOf(p, q).d.Some?
    requires forall i :: 0 <= i < |message| ==> message[i] < p * q
    ensures EncryptRun(message, p, q).Ok?
    ensures DecryptRun(EncryptRun(message, p, q).value.cipher, p, q).Ok?
    ensures DecryptRun(EncryptRun(message, p, q).value.cipher, p, q).value.message == message
  {
    RoundTripReduces(message, p, q);
  }

  /** The textbook keys: p = 3 and q = 11 give n = 33, phi = 20, e = 3 and d = 7. */
  lemma TextbookKeys()
    ensures KeysOf(3, 11) == Keys(3, Some(7), 33)
  {
    TextbookExponent();
    TextbookInverse();
  }

  /** 2 shares the factor 2 with 20, and 3 is coprime with it. */
  lemma TextbookExponent()
    ensures PublicExponent(20) == 3
  {
    assert GcdOf(2, 20) == 2;
    assert GcdOf(3, 20) == 1;
  }

  /** 3 * 7 == 21 is the first multiple of 3 that leaves 1 modulo 20. */
  lemma TextbookInverse()
    ensures ModInverseOf(3, 20) == Some(7)
  {
    assert InverseFrom(3, 20, 7) == Some(7);
  }

  /** 'A' (65, above n = 33) encrypts to 32 and decrypts to chr(32), not back to 'A'. */
  lemma TextbookLetterA()
    ensures EncryptRun([65], 3, 11).Ok? && EncryptRun([65], 3, 11).value.cipher == [32]
    ensures DecryptRun([32], 3, 11).Ok? && DecryptRun([32], 3, 11).value.message == [32]
  {
    TextbookKeys();
    assert Pow(65, 3) % 33 == 32;
    assert Pow(32, 7) % 33 == 32;
    assert Ciphers([65], 3, 33) == [32];
    assert Plaintexts([32], 7, 33) == [32];
  }
}
