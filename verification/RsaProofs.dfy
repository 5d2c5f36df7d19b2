/** Decryption undoes encryption, and exactly when it does for the keys the program generates. */
module RsaProofs {
  import opened NumberTheory
  import opened Rsa

  // ---------------------------------------------------------------- primes

  /** A prime that divides a product divides a factor. */
  lemma PrimeDividesFactor(p: int, a: nat, b: int)
    requires IsPrime(p) && Divides(p, a * b) && !Divides(p, a)
    ensures Divides(p, b)
  {
    var g := ExtendEuclid(p, a);
    ExtendEuclidSolves(p, a);
    EuclidComputesGcd(p, a);
    DivisorAtMost(g.r, p);
    assert g.r == 1;
    EuclidLemma(p, a, b, g.D, g.k);
  }

  lemma CoprimeProduct(p: int, q: int, x: int)
    requires IsPrime(p) && IsPrime(q) && p != q
    requires Divides(p, x) && Divides(q, x)
    ensures p * q > 0 && Divides(p * q, x)
  {
    var y := Quotient(p, x);
    if Divides(q, p) {
      DivisorAtMost(q, p);
      assert false;
    }
    PrimeDividesFactor(q, p, y);
    var z := Quotient(q, y);
    assert x == p * (q * z) == p * q * z;
    assert p * q > 0;
    MultipleDivides(p * q, z);
  }

  lemma PrimeDividesChoose(p: nat, k: nat)
    requires IsPrime(p) && 0 < k < p
    ensures Divides(p, Choose(p, k))
  {
    ChooseAbsorb(p, k);
    MultipleDivides(p, Choose(p - 1, k - 1));
    if Divides(p, k) {
      DivisorAtMost(p, k);
      assert false;
    }
    PrimeDividesFactor(p, k, Choose(p, k));
  }

  lemma {:induction false} SumModPrime(p: nat, k: nat, a: int)
    requires IsPrime(p) && 1 <= k <= p
    ensures PartialSum(p, k, a) % p == 1
  {
    if k == 1 {
      assert PartialSum(p, 1, a) == PartialSum(p, 0, a) + Choose(p, 0) * Pow(a, 0) == 1;
    } else {
      SumModPrime(p, k - 1, a);
      PrimeDividesChoose(p, k - 1);
      DividesProduct(p, Choose(p, k - 1), Pow(a, k - 1));
      var c := Quotient(p, Choose(p, k - 1) * Pow(a, k - 1));
      ModPlusMultiple(PartialSum(p, k - 1, a), c, p);
    }
  }

  /** Fermat: a to the p is a, modulo p. */
  lemma {:induction false} FermatPower(p: nat, a: nat)
    requires IsPrime(p)
    ensures Pow(a, p) % p == a % p
  {
    if a == 0 {
      PowZero(p);
    } else {
      FermatPower(p, a - 1);
      FermatStep(p, a - 1);
    }
  }

  lemma FermatStep(p: nat, b: nat)
    requires IsPrime(p) && Pow(b, p) % p == b % p
    ensures Pow(b + 1, p) % p == (b + 1) % p
  {
    var t, w := PartialSum(p, p, b), Pow(b, p);
    Binomial(p, b);
    SumModPrime(p, p, b);
    ChooseAll(p);
    assert Pow(b + 1, p) == t + Choose(p, p) * w == t + w;
    DivModUnique(1, 0, 1, p);
    AddCong(t, w, 1, b, p);
  }

  lemma AddCong(a: int, b: int, c: int, d: int, n: int)
    requires n > 1 && a % n == c % n && b % n == d % n
    ensures (a + b) % n == (c + d) % n
  {
    SameModIffDivides(a, c, n);
    SameModIffDivides(b, d, n);
    DividesSum(n, a - c, b - d);
    assert (a - c) + (b - d) == (a + b) - (c + d);
    SameModIffDivides(a + b, c + d, n);
  }

  /** Fermat's little theorem. */
  lemma FermatLittle(p: nat, a: nat)
    requires IsPrime(p) && !Divides(p, a)
    ensures Pow(a, p - 1) % p == 1
  {
    FermatPower(p, a);
    SameModIffDivides(Pow(a, p), a, p);
    var w := Pow(a, p - 1);
    assert Pow(a, p) - a == a * (w - 1) by {
      assert Pow(a, p) == a * w;
    }
    PrimeDividesFactor(p, a, w - 1);
    SameModIffDivides(w, 1, p);
    DivModUnique(1, 0, 1, p);
  }

  /** Raising to one more than a multiple of p - 1 changes nothing modulo p, multiples of p
      included. */
  lemma PowerFixes(p: nat, m: nat, c: nat)
    requires IsPrime(p)
    ensures c * (p - 1) >= 0 && Pow(m, 1 + c * (p - 1)) % p == m % p
  {
    PowPow(m, p - 1, c);
    assert (p - 1) * c == c * (p - 1);
    var t := Pow(m, c * (p - 1));
    assert Pow(m, 1 + c * (p - 1)) == m * t;
    if Divides(p, m) {
      DividesProduct(p, m, t);
    } else {
      FermatLittle(p, m);
      PowMod(Pow(m, p - 1), c, p);
      PowOne(c);
      assert t % p == 1 % p;
      MulCong(m, t, m, 1, p);
    }
  }

  // ---------------------------------------------------------------- the round trip

  lemma Rearrange(c: nat, a: nat, b: nat)
    ensures c * (a * b) == c * b * a == c * a * b && c * b >= 0 && c * a >= 0
  {
  }

  /** Modulo p * q, for distinct primes, an exponent that is 1 modulo (p - 1) * (q - 1) fixes
      every m. */
  lemma ExponentFixes(p: nat, q: nat, m: nat, x: nat, c: nat)
    requires IsPrime(p) && IsPrime(q) && p != q && x == 1 + c * ((p - 1) * (q - 1))
    ensures p * q > 0 && Pow(m, x) % (p * q) == m % (p * q)
  {
    Rearrange(c, p - 1, q - 1);
    PowerFixes(p, m, c * (q - 1));
    PowerFixes(q, m, c * (p - 1));
    SameModIffDivides(Pow(m, x), m, p);
    SameModIffDivides(Pow(m, x), m, q);
    CoprimeProduct(p, q, Pow(m, x) - m);
    SameModIffDivides(Pow(m, x), m, p * q);
  }

  /** Decrypting what was encrypted gives m modulo N, for every m, for any distinct primes and
      any E coprime to (p - 1) * (q - 1). */
  lemma DecryptUndoesEncrypt(E: nat, p: nat, q: nat, m: nat)
    requires IsPrime(p) && IsPrime(q) && p != q && E >= 1
    requires (p - 1) * (q - 1) > 1 && IsGcd(1, E, (p - 1) * (q - 1))
    ensures p * q > 0
    ensures var D := PrivateExponent(E, (p - 1) * (q - 1));
            Crypt(D, p * q, Crypt(E, p * q, m)) == m % (p * q)
  {
    var L, N := (p - 1) * (q - 1), p * q;
    var D := PrivateExponent(E, L);
    assert N > 0;
    EuclidComputesGcd(E, L);
    GcdUnique(1, ExtendEuclid(E, L).r, E, L);
    PrivateExponentInverts(E, L);
    var c := E * D / L;
    assert E * D == 1 + c * L;
    assert c >= 0 by {
      assert E * D >= 0;
    }
    PowMod(Pow(m, E), D, N);
    PowPow(m, E, D);
    ExponentFixes(p, q, m, E * D, c);
  }

  // ---------------------------------------------------------------- when the generated keys work

  ghost predicate KeysWork(p: int, q: int)
    requires p > 1 && q > 1
  {
    forall m: nat :: Roundtrip(p, q, m) == m % (p * q)
  }

  function Roundtrip(p: int, q: int, m: nat): int
    requires p > 1 && q > 1
  {
    var k := KeysFor(p, q);
    assert k.N > 0 by { assert p * q > 0; }
    Crypt(k.D, k.N, Crypt(k.E, k.N, m))
  }

  lemma NoSmallDivisorOf11(d: int)
    requires 2 <= d <= 10
    ensures !Divides(d, 11)
  {
    assert d == 2 || d == 3 || d == 4 || d == 5 || d == 6 || d == 7 || d == 8 || d == 9 || d == 10;
  }

  lemma DivisorsOf11(d: int)
    requires Divides(d, 11)
    ensures d == 1 || d == 11
  {
    DivisorAtMost(d, 11);
    if 2 <= d <= 10 {
      NoSmallDivisorOf11(d);
      assert false;
    }
  }

  lemma IsPrime11()
    ensures IsPrime(11)
  {
    forall d | 2 <= d < 11
      ensures !Divides(d, 11)
    {
      if Divides(d, 11) {
        DivisorsOf11(d);
      }
    }
  }

  /** Either 11 is coprime to L or it divides L. */
  lemma CoprimeTo11(L: int)
    requires L > 0
    ensures IsGcd(1, 11, L) <==> !Divides(11, L)
  {
    if Divides(11, L) && IsGcd(1, 11, L) {
      MultipleDivides(11, 1);
      assert false;
    }
    if !Divides(11, L) {
      MultipleDivides(1, 11);
      MultipleDivides(1, L);
      forall d | Divides(d, 11) && Divides(d, L)
        ensures Divides(d, 1)
      {
        DivisorsOf11(d);
      }
    }
  }

  /** With equal primes the message p is lost. */
  lemma EqualPrimesFail(p: nat)
    requires IsPrime(p) && p >= 5
    ensures !KeysWork(p, p)
  {
    var k := KeysFor(p, p);
    var L := (p - 1) * (p - 1);
    TotientLarge(p, p);
    EuclidComputesGcd(11, L);
    ExtendEuclidSolves(11, L);
    DivisorAtMost(ExtendEuclid(11, L).r, 11);
    PrivateExponentInverts(11, L);
    PowAdd(p, 2, 9);
    assert Pow(p, 2) == p * Pow(p, 1) == p * (p * Pow(p, 0)) == p * p;
    assert p * p > p;
    MultipleDivides(p * p, Pow(p, 9));
    assert Crypt(11, k.N, p) == 0;
    PowZero(k.D);
    assert Roundtrip(p, p, p) == 0;
    DivModUnique(p, 0, p, p * p);
  }

  /** When 11 divides L the private exponent comes out as 1: decryption does nothing. */
  lemma PrivateExponentOne(L: nat)
    requires L > 11 && Divides(11, L)
    ensures PrivateExponent(11, L) == 1
  {
    assert 11 % L == 11 by { DivModUnique(11, 0, 11, L); }
    assert 11 / L == 0 by { DivModUnique(11, 0, 11, L); }
    assert ExtendEuclid(11, 0) == Bezout(11, 1, 0);
    assert ExtendEuclid(L, 11) == Bezout(11, 0, 1);
    assert ExtendEuclid(11, L) == Bezout(11, 1, 0);
  }

  /** With 23 among the primes the message 2 is lost. */
  lemma TwentyThreeFails(p: nat, q: nat)
    requires p >= 5 && q >= 5 && (p == 23 || q == 23)
    ensures !KeysWork(p, q)
  {
    var N, L := p * q, (p - 1) * (q - 1);
    var r := if p == 23 then q else p;
    assert N == 23 * r && L == 22 * (r - 1) == 11 * (2 * (r - 1));
    TotientLarge(p, q);
    MultipleDivides(11, 2 * (r - 1));
    PrivateExponentOne(L);
    TwoLost(r);
    var c := 2048 % N;
    PowerOfTwo();
    assert Pow(c, 1) == c * Pow(c, 0) == c;
    DivModUnique(c, 0, c, N);
    DivModUnique(2, 0, 2, N);
    assert Roundtrip(p, q, 2) == c;
  }

  lemma PowerOfTwo()
    ensures Pow(2, 11) == 2048
  {
    PowAdd(2, 5, 6);
    assert Pow(2, 5) == 32 && Pow(2, 6) == 64;
  }

  lemma TwoLost(r: int)
    requires r > 0
    ensures 2048 % (23 * r) != 2
  {
    var t := 2048 / (23 * r);
    assert 2048 == 23 * r * t + 2048 % (23 * r);
    assert 23 * r * t == 23 * (r * t);
  }

  lemma FactorOneModEleven(p: nat, q: nat)
    requires IsPrime(p) && IsPrime(q) && 5 <= p <= 37 && 5 <= q <= 37
    requires Divides(11, (p - 1) * (q - 1))
    ensures p == 23 || q == 23
  {
    IsPrime11();
    if Divides(11, p - 1) {
      OneModEleven(p);
    } else {
      PrimeDividesFactor(11, p - 1, q - 1);
      OneModEleven(q);
    }
  }

  lemma OneModEleven(p: nat)
    requires IsPrime(p) && 5 <= p <= 37 && Divides(11, p - 1)
    ensures p == 23
  {
    var k := Quotient(11, p - 1);
    assert k == 1 || k == 2 || k == 3;
    assert Divides(2, 12) && Divides(2, 34);
  }

  /** For the primes key generation can draw, decryption undoes encryption of every message
      exactly when the primes differ and 11 is coprime to (p - 1) * (q - 1); among them only 23
      spoils the latter. */
  lemma KeysWorkExactly(p: nat, q: nat)
    requires IsPrime(p) && IsPrime(q) && 5 <= p <= 37 && 5 <= q <= 37
    ensures KeysWork(p, q) <==> p != q && IsGcd(1, 11, (p - 1) * (q - 1))
    ensures IsGcd(1, 11, (p - 1) * (q - 1)) <==> p != 23 && q != 23
  {
    var L := (p - 1) * (q - 1);
    TotientLarge(p, q);
    CoprimeTo11(L);
    if p == 23 || q == 23 {
      var r := if p == 23 then q else p;
      assert L == 11 * (2 * (r - 1));
      MultipleDivides(11, 2 * (r - 1));
      TwentyThreeFails(p, q);
    } else if Divides(11, L) {
      FactorOneModEleven(p, q);
    }
    if p == q {
      EqualPrimesFail(p);
    } else if IsGcd(1, 11, L) {
      forall m: nat
        ensures Roundtrip(p, q, m) == m % (p * q)
      {
        DecryptUndoesEncrypt(11, p, q, m);
      }
    }
  }
}
