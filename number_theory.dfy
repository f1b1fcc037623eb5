/**
  The number theory behind the RSA engine: powers, divisibility, the greatest common
  divisor that Euclid's algorithm computes with Bezout's identity, primes and Euclid's
  lemma, binomial coefficients, Fermat's little theorem, and the identity
  m^(e*d) == m (mod p*q) on which RSA decryption rests.
*/
module NumberTheory {
  import opened Arithmetic

  /** `b` to the power `x`, the value of Python's `b ** x` for a non-negative exponent. */
  function Pow(b: int, x: nat): int
  {
    if x == 0 then 1 else b * Pow(b, x - 1)
  }

  /** `d` divides `x`; only 0 is a multiple of 0. */
  predicate Divides(d: nat, x: int)
  {
    if d == 0 then x == 0 else x % d == 0
  }

  /** `x` and `y` leave the same remainder modulo `n`. */
  predicate Congruent(x: int, y: int, n: nat)
  {
    Divides(n, x - y)
  }

  // ---------------------------------------------------------------- powers

  lemma {:induction false} PowAdd(b: int, x: nat, y: nat)
    ensures Pow(b, x + y) == Pow(b, x) * Pow(b, y)
  {
    if x > 0 {
      PowAdd(b, x - 1, y);
      assert Pow(b, x + y) == b * Pow(b, (x - 1) + y);
      assert b * (Pow(b, x - 1) * Pow(b, y)) == (b * Pow(b, x - 1)) * Pow(b, y);
    }
  }

  lemma {:induction false} PowMul(b: int, x: nat, y: nat)
    ensures Pow(b, x * y) == Pow(Pow(b, x), y)
  {
    if y > 0 {
      PowMul(b, x, y - 1);
      assert x * y == x * (y - 1) + x;
      PowAdd(b, x * (y - 1), x);
      assert Pow(b, x * y) == Pow(Pow(b, x), y - 1) * Pow(b, x);
    }
  }

  // ---------------------------------------------------------------- divisibility

  lemma DividesProduct(d: nat, k: int)
    ensures Divides(d, d * k)
  {
    if d > 0 {
      DivModUnique(d * k, d, k, 0);
    }
  }

  lemma DividesQuotient(d: nat, x: int)
    requires d > 0 && Divides(d, x)
    ensures x == d * (x / d)
  {
  }

  /** The multiples of `d` are closed under sums and differences. */
  lemma DividesAdd(d: nat, x: int, y: int)
    requires Divides(d, x) && Divides(d, y)
    ensures Divides(d, x + y) && Divides(d, x - y)
  {
    if d > 0 {
      DividesQuotient(d, x);
      DividesQuotient(d, y);
      assert x + y == d * (x / d + y / d);
      assert x - y == d * (x / d - y / d);
      DividesProduct(d, x / d + y / d);
      DividesProduct(d, x / d - y / d);
    }
  }

  /** A multiple of `d` times anything is a multiple of `d`. */
  lemma DividesMul(d: nat, x: int, y: int)
    requires Divides(d, x)
    ensures Divides(d, x * y)
  {
    if d > 0 {
      DividesQuotient(d, x);
      assert x * y == d * ((x / d) * y);
      DividesProduct(d, (x / d) * y);
    }
  }

  /** A divisor of a positive number is at most that number. */
  lemma DividesBound(d: nat, x: int)
    requires Divides(d, x) && x > 0
    ensures 1 <= d <= x
  {
    DividesQuotient(d, x);
    var k := x / d;
    assert k > 0;
    MulAtLeast(k, d);
  }

  /** Congruent numbers leave equal remainders. */
  lemma CongruentMod(x: int, y: int, n: nat)
    requires n > 0 && Congruent(x, y, n)
    ensures x % n == y % n
  {
    DividesQuotient(n, x - y);
    var t := (x - y) / n;
    assert y == (x / n - t) * n + x % n;
    DivModUnique(y, n, x / n - t, x % n);
  }

  /** Raising congruent numbers to one power keeps them congruent. */
  lemma {:induction false} PowCongruent(b: int, c: int, x: nat, n: nat)
    requires Congruent(b, c, n)
    ensures Congruent(Pow(b, x), Pow(c, x), n)
  {
    if x == 0 {
      DividesProduct(n, 0);
    } else {
      PowCongruent(b, c, x - 1, n);
      var p, q := Pow(b, x - 1), Pow(c, x - 1);
      DividesMul(n, p - q, b);
      DividesMul(n, b - c, q);
      assert Pow(b, x) - Pow(c, x) == (p - q) * b + (b - c) * q;
      DividesAdd(n, (p - q) * b, (b - c) * q);
    }
  }

  /** The remainder of a power does not change when the base is reduced first. */
  lemma PowReduceBase(b: int, x: nat, n: nat)
    requires n > 0
    ensures Pow(b % n, x) % n == Pow(b, x) % n
  {
    assert b % n - b == n * (-(b / n));
    DividesProduct(n, -(b / n));
    PowCongruent(b % n, b, x, n);
    CongruentMod(Pow(b % n, x), Pow(b, x), n);
  }

  // ---------------------------------------------------------------- greatest common divisor

  /** The greatest common divisor, as Euclid's remainder recursion defines it. */
  function GcdOf(a: nat, b: nat): (g: nat)
    ensures g == 0 <==> a == 0 && b == 0
    ensures b > 0 ==> g <= b
    decreases b
  {
    if b == 0 then a else GcdOf(b, a % b)
  }

  /** The gcd divides both arguments. */
  lemma {:induction false} GcdDividesBoth(a: nat, b: nat)
    ensures Divides(GcdOf(a, b), a) && Divides(GcdOf(a, b), b)
    decreases b
  {
    if b == 0 {
      DividesProduct(a, 1);
      DividesProduct(a, 0);
    } else {
      var g := GcdOf(b, a % b);
      GcdDividesBoth(b, a % b);
      assert a == b * (a / b) + a % b;
      DividesMul(g, b, a / b);
      DividesAdd(g, b * (a / b), a % b);
    }
  }

  /** Every common divisor of the arguments divides the gcd, so it is the greatest one. */
  lemma {:induction false} GcdGreatest(a: nat, b: nat, k: nat)
    requires Divides(k, a) && Divides(k, b)
    ensures Divides(k, GcdOf(a, b))
    decreases b
  {
    if b > 0 {
      assert a % b == a - b * (a / b);
      DividesMul(k, b, a / b);
      DividesAdd(k, a, b * (a / b));
      GcdGreatest(b, a % b, k);
    }
  }

  /** The gcd does not depend on the order of its arguments. */
  lemma GcdCommutes(a: nat, b: nat)
    ensures GcdOf(a, b) == GcdOf(b, a)
  {
    if a < b {
      DivModUnique(a, b, 0, a);
    } else if b < a {
      DivModUnique(b, a, 0, b);
    }
  }

  /** Consecutive numbers are coprime. */
  lemma GcdPredecessor(n: nat)
    requires n >= 2
    ensures GcdOf(n - 1, n) == 1
  {
    DivModUnique(n - 1, n, 0, n - 1);
    assert GcdOf(n - 1, n) == GcdOf(n, n - 1);
    if n == 2 {
      assert GcdOf(2, 1) == GcdOf(1, 0);
    } else {
      DivModUnique(n, n - 1, 1, 1);
      DivModUnique(n - 1, 1, n - 1, 0);
      assert GcdOf(n, n - 1) == GcdOf(n - 1, 1) == GcdOf(1, 0);
    }
  }

  /** Bezout's identity: the gcd is an integer combination of the arguments. */
  lemma {:induction false} Bezout(a: nat, b: nat) returns (x: int, y: int)
    ensures a * x + b * y == GcdOf(a, b)
    decreases b
  {
    if b == 0 {
      x, y := 1, 0;
    } else {
      var x', y' := Bezout(b, a % b);
      var k := a / b;
      assert a % b == a - b * k;
      x, y := y', x' - k * y';
      BezoutStep(a, b, k, x', y');
    }
  }

  /** The arithmetic of one step of `Bezout`, with the quotient named. */
  lemma BezoutStep(a: int, b: int, k: int, x: int, y: int)
    ensures a * y + b * (x - k * y) == b * x + (a - b * k) * y
  {
    assert b * (x - k * y) == b * x - (b * k) * y;
  }

  // ---------------------------------------------------------------- primes

  predicate IsPrime(p: nat)
  {
    p >= 2 && forall k: nat :: 2 <= k < p ==> !Divides(k, p)
  }

  /** The only divisors of a prime are 1 and itself. */
  lemma PrimeDivisor(p: nat, g: nat)
    requires IsPrime(p) && Divides(g, p)
    ensures g == 1 || g == p
  {
    DividesBound(g, p);
  }

  /** Euclid's lemma: a prime dividing a product divides one of the factors. */
  lemma Euclid(p: nat, a: int, b: int)
    requires IsPrime(p) && Divides(p, a * b) && !Divides(p, a)
    ensures Divides(p, b)
  {
    var r: nat := a % p;
    DivModUnique(r, p, 0, r);
    GcdDividesBoth(p, r);
    PrimeDivisor(p, GcdOf(p, r));
    assert GcdOf(p, r) == 1;
    var x, y := Bezout(p, r);
    var k := a / p;
    assert a == p * k + r;
    assert r * b == a * b - p * (k * b);
    DividesProduct(p, k * b);
    DividesAdd(p, a * b, p * (k * b));
    DividesMul(p, r * b, y);
    DividesProduct(p, x * b);
    ScaleCombination(p, x, r, y, b);
    DividesAdd(p, p * (x * b), (r * b) * y);
  }

  lemma ScaleCombination(p: int, x: int, r: int, y: int, b: int)
    requires p * x + r * y == 1
    ensures b == p * (x * b) + (r * b) * y
  {
    assert b == (p * x + r * y) * b;
  }

  /** A product of two distinct primes divides every number both of them divide. */
  lemma DistinctPrimesDivide(p: nat, q: nat, x: int)
    requires IsPrime(p) && IsPrime(q) && p != q
    requires Divides(p, x) && Divides(q, x)
    ensures Divides(p * q, x)
  {
    if Divides(q, p) {
      PrimeDivisor(p, q);
      assert false;
    }
    DividesQuotient(p, x);
    var t := x / p;
    Euclid(q, p, t);
    DividesQuotient(q, t);
    assert x == (p * q) * (t / q);
    DividesProduct(p * q, t / q);
  }

  // ---------------------------------------------------------------- binomial coefficients

  /** Pascal's triangle; zero above the diagonal. */
  function Binom(n: nat, k: nat): nat
  {
    if k == 0 then 1 else if n == 0 then 0 else Binom(n - 1, k - 1) + Binom(n - 1, k)
  }

  lemma {:induction false} BinomAbove(n: nat, k: nat)
    requires k > n
    ensures Binom(n, k) == 0
  {
    if n > 0 {
      BinomAbove(n - 1, k - 1);
      BinomAbove(n - 1, k);
    }
  }

  lemma {:induction false} BinomTop(n: nat)
    ensures Binom(n, n) == 1
  {
    if n > 0 {
      BinomTop(n - 1);
      BinomAbove(n - 1, n);
    }
  }

  /** The absorption identity k * C(n, k) == n * C(n - 1, k - 1). */
  lemma {:induction false} BinomAbsorption(n: nat, k: nat)
    requires n >= 1 && k >= 1
    ensures k * Binom(n, k) == n * Binom(n - 1, k - 1)
  {
    if n == 1 {
    } else if k == 1 {
      BinomAbsorption(n - 1, 1);
    } else {
      BinomAbsorption(n - 1, k);
      BinomAbsorption(n - 1, k - 1);
      AbsorptionStep(n, k, Binom(n - 1, k - 1), Binom(n - 1, k), Binom(n - 2, k - 2), Binom(n - 2, k - 1));
    }
  }

  /** The arithmetic of one step of `BinomAbsorption`, with the coefficients named. */
  lemma AbsorptionStep(n: int, k: int, a: int, b: int, c0: int, c1: int)
    requires k * b == (n - 1) * c1 && (k - 1) * a == (n - 1) * c0 && a == c0 + c1
    ensures k * (a + b) == n * a
  {
    assert k * (a + b) == (k - 1) * a + a + k * b;
    assert (n - 1) * c0 + (n - 1) * c1 == (n - 1) * a;
  }

  /** A prime p divides every C(p, k) strictly between the ends of its row. */
  lemma PrimeDividesBinom(p: nat, k: nat)
    requires IsPrime(p) && 0 < k < p
    ensures Divides(p, Binom(p, k))
  {
    BinomAbsorption(p, k);
    DividesProduct(p, Binom(p - 1, k - 1));
    DivModUnique(k, p, 0, k);
    Euclid(p, k, Binom(p, k));
  }

  /** The terms 0..k of the binomial expansion of (a + 1)^n. */
  function BinomSum(n: nat, k: nat, a: int): int
  {
    if k == 0 then 1 else BinomSum(n, k - 1, a) + Binom(n, k) * Pow(a, k)
  }

  lemma {:induction false} BinomSumPascal(n: nat, k: nat, a: int)
    requires k >= 1
    ensures BinomSum(n + 1, k, a) == BinomSum(n, k, a) + a * BinomSum(n, k - 1, a)
  {
    var c, d := Binom(n, k - 1), Binom(n, k);
    var lower, upper := Pow(a, k - 1), Pow(a, k);
    assert Binom(n + 1, k) == c + d;
    assert upper == a * lower;
    var s1 := BinomSum(n, k - 1, a);
    assert BinomSum(n, k, a) == s1 + d * upper;
    assert BinomSum(n + 1, k, a) == BinomSum(n + 1, k - 1, a) + (c + d) * upper;
    if k == 1 {
      assert BinomSum(n + 1, 0, a) == 1 && s1 == 1;
      PascalStep(a, 0, s1, c, d, lower, upper);
    } else {
      BinomSumPascal(n, k - 1, a);
      var s := BinomSum(n, k - 2, a);
      assert s1 == s + c * lower;
      PascalStep(a, s, s1, c, d, lower, upper);
    }
  }

  /** The arithmetic of one step of `BinomSumPascal`, with the terms named. */
  lemma PascalStep(a: int, s: int, s1: int, c: int, d: int, lower: int, upper: int)
    requires upper == a * lower && s1 == s + c * lower
    ensures s1 + a * s + (c + d) * upper == s1 + d * upper + a * s1
  {
    assert a * s1 == a * s + c * upper;
  }

  lemma {:induction false} BinomSumPastTop(n: nat, k: nat, a: int)
    requires k >= n
    ensures BinomSum(n, k, a) == BinomSum(n, n, a)
  {
    if k > n {
      BinomAbove(n, k);
      BinomSumPastTop(n, k - 1, a);
    }
  }

  /** The binomial theorem for (a + 1)^n. */
  lemma {:induction false} BinomialTheorem(n: nat, a: int)
    ensures Pow(a + 1, n) == BinomSum(n, n, a)
  {
    if n > 0 {
      BinomialTheorem(n - 1, a);
      BinomSumPascal(n - 1, n, a);
      BinomSumPastTop(n - 1, n, a);
      var s := BinomSum(n - 1, n - 1, a);
      assert BinomSum(n, n, a) == s + a * s == (a + 1) * s;
    }
  }

  /** Modulo a prime p, all terms of the expansion of (a + 1)^p but the first and last vanish. */
  lemma {:induction false} MiddleTerms(p: nat, k: nat, a: int)
    requires IsPrime(p) && k < p
    ensures Congruent(BinomSum(p, k, a), 1, p)
  {
    if k == 0 {
      DividesProduct(p, 0);
    } else {
      MiddleTerms(p, k - 1, a);
      PrimeDividesBinom(p, k);
      DividesMul(p, Binom(p, k), Pow(a, k));
      DividesAdd(p, BinomSum(p, k - 1, a) - 1, Binom(p, k) * Pow(a, k));
    }
  }

  /** (a + 1)^p == a^p + 1 modulo a prime p. */
  lemma FreshmansDream(p: nat, a: int)
    requires IsPrime(p)
    ensures Congruent(Pow(a + 1, p), Pow(a, p) + 1, p)
  {
    var s := BinomSum(p, p - 1, a);
    assert Congruent(s, 1, p) by {
      MiddleTerms(p, p - 1, a);
    }
    assert Pow(a + 1, p) == s + Pow(a, p) by {
      BinomialTheorem(p, a);
      BinomTop(p);
      assert BinomSum(p, p, a) == s + 1 * Pow(a, p);
    }
    assert Pow(a + 1, p) - (Pow(a, p) + 1) == s - 1;
  }

  /** Fermat's little theorem: a^p == a modulo a prime p. */
  lemma {:induction false} Fermat(p: nat, a: nat)
    requires IsPrime(p)
    ensures Congruent(Pow(a, p), a, p)
  {
    if a == 0 {
      assert Pow(0, p) == 0 * Pow(0, p - 1);
      DividesProduct(p, 0);
    } else {
      Fermat(p, a - 1);
      FreshmansDream(p, a - 1);
      DividesAdd(p, Pow(a, p) - (Pow(a - 1, p) + 1), Pow(a - 1, p) - (a - 1));
    }
  }

  /** m^(1 + j*(p-1)) == m modulo a prime p, for every m, including multiples of p. */
  lemma {:induction false} FermatPower(p: nat, m: nat, j: nat)
    requires IsPrime(p)
    ensures Congruent(Pow(m, 1 + j * (p - 1)), m, p)
  {
    if j == 0 {
      assert Pow(m, 1) == m * Pow(m, 0);
      DividesProduct(p, 0);
    } else {
      var big: nat := (j - 1) * (p - 1);
      assert 1 + j * (p - 1) == p + big;
      FermatPower(p, m, j - 1);
      PowAdd(m, p, big);
      PowAdd(m, 1, big);
      assert Pow(m, 1) == m * Pow(m, 0);
      Fermat(p, m);
      DividesMul(p, Pow(m, p) - m, Pow(m, big));
      assert (Pow(m, p) - m) * Pow(m, big) == Pow(m, p + big) - Pow(m, 1 + big);
      DividesAdd(p, Pow(m, p + big) - Pow(m, 1 + big), Pow(m, 1 + big) - m);
    }
  }

  /**
    The RSA identity: for distinct primes p and q and e * d == 1 modulo (p-1)*(q-1),
    raising to e then to d gives back every m below p*q.
  */
  lemma RsaIdentity(p: nat, q: nat, e: nat, d: nat, m: nat)
    requires IsPrime(p) && IsPrime(q) && p != q
    requires (e * d) % ((p - 1) * (q - 1)) == 1
    requires m < p * q
    ensures Pow(Pow(m, e), d) == Pow(m, e * d)
    ensures Pow(m, e * d) % (p * q) == m
  {
    PowMul(m, e, d);
    RsaExponent(p, q, e * d, m);
  }

  /** The RSA identity for one exponent x == 1 modulo (p-1)*(q-1). */
  lemma RsaExponent(p: nat, q: nat, x: nat, m: nat)
    requires IsPrime(p) && IsPrime(q) && p != q
    requires x % ((p - 1) * (q - 1)) == 1
    requires m < p * q
    ensures Pow(m, x) % (p * q) == m
  {
    var jp, jq := ExponentForms(p, q, x);
    FermatPower(p, m, jp);
    FermatPower(q, m, jq);
    DistinctPrimesDivide(p, q, Pow(m, x) - m);
    CongruentMod(Pow(m, x), m, p * q);
    DivModUnique(m, p * q, 0, m);
  }

  /** An exponent 1 modulo (p-1)*(q-1) is 1 modulo p-1 and 1 modulo q-1. */
  lemma ExponentForms(p: nat, q: nat, x: nat) returns (jp: nat, jq: nat)
    requires p >= 2 && q >= 2 && x % ((p - 1) * (q - 1)) == 1
    ensures x == 1 + jp * (p - 1) && x == 1 + jq * (q - 1)
  {
    var phi: nat := (p - 1) * (q - 1);
    var k: nat := x / phi;
    assert x == phi * k + 1;
    jp, jq := k * (q - 1), k * (p - 1);
    assert phi * k == jp * (p - 1) == jq * (q - 1);
  }
}
