/**
 Textbook RSA (rsaDemo.c): primes by trial division, keys by the extended Euclidean algorithm,
 encryption and decryption by repeated multiplication.
 */
module Rsa {
  import opened NumberTheory

  const MAX_PRIME_NUM: nat := 30
  const E_VALUE1: nat := 11

  // ---------------------------------------------------------------- primes

  /** Integer square root. */
  function Sqrt(n: nat): (s: nat)
    ensures s * s <= n < (s + 1) * (s + 1)
  {
    if n == 0 then 0
    else
      var s := Sqrt(n - 1);
      if (s + 1) * (s + 1) <= n then s + 1 else s
  }

  /** The smaller of a divisor and its cofactor is at most the square root. */
  lemma SmallDivisor(n: int, s: nat, d: int) returns (e: int)
    requires n >= 2 && n < (s + 1) * (s + 1) && 2 <= d < n && Divides(d, n)
    ensures 2 <= e <= s && Divides(e, n)
  {
    var k := Quotient(d, n);
    CofactorRange(d, k, n);
    if d <= s {
      e := d;
    } else {
      e := k;
      if k > s {
        ProductAtLeast(d, k, s + 1);
        assert false;
      }
      MultipleDivides(k, d);
    }
  }

  lemma CofactorRange(d: int, k: int, n: int)
    requires 2 <= d < n && n == d * k
    ensures k >= 2
  {
    MultipleAtLeast(k, d);
  }

  lemma ProductAtLeast(a: int, b: int, c: int)
    requires a >= c >= 0 && b >= c
    ensures a * b >= c * c
  {
    MulMono(c, c, b);
    MulMono(b, c, a);
    assert c * b == b * c && b * a == a * b;
  }

  lemma BelowItsSquare(i: int, r: int, n: int)
    requires 2 <= i <= r && r * r <= n
    ensures i < n
  {
    MulMono(i, 2, i);
    ProductAtLeast(r, r, i);
  }

  /** Trial division: 1 exactly for the odd primes, although divisors beyond the square root are
      never tried. */
  method IsPrimeNumber(num: int) returns (ret: int)
    ensures ret == if IsPrime(num) && num != 2 then 1 else 0
  {
    if num < 2 {
      return 0;
    }
    if num % 2 == 0 {
      assert num > 2 ==> Divides(2, num);
      return 0;
    }
    var s := Sqrt(num) + 1;
    var i := 2;
    while i < s
      invariant 2 <= i <= s
      invariant forall d :: 2 <= d < i ==> !Divides(d, num)
    {
      if num % i == 0 {
        assert Divides(i, num);
        BelowItsSquare(i, s - 1, num);
        return 0;
      }
      i := i + 1;
    }
    forall d | 2 <= d < num
      ensures !Divides(d, num)
    {
      if Divides(d, num) {
        var e := SmallDivisor(num, s - 1, d);
        assert false;
      }
    }
    return 1;
  }

  lemma NoSmallDivisorOf37(d: int)
    requires 2 <= d <= 6
    ensures !Divides(d, 37)
  {
    assert d == 2 || d == 3 || d == 4 || d == 5 || d == 6;
  }

  lemma Prime37()
    ensures IsPrime(37)
  {
    forall d | 2 <= d < 37
      ensures !Divides(d, 37)
    {
      if Divides(d, 37) {
        var e := SmallDivisor(37, 6, d);
        NoSmallDivisorOf37(e);
        assert false;
      }
    }
  }

  /** The first odd prime from an arbitrary start on; the search always ends. */
  method GetRandPrimeNum(rand: nat) returns (ret: int)
    ensures IsPrime(ret) && rand % MAX_PRIME_NUM + 5 <= ret <= 37
    ensures forall n :: rand % MAX_PRIME_NUM + 5 <= n < ret ==> !IsPrime(n)
  {
    Prime37();
    ret := rand % MAX_PRIME_NUM + 5;
    var isPrime := IsPrimeNumber(ret);
    while isPrime == 0
      invariant rand % MAX_PRIME_NUM + 5 <= ret <= 37
      invariant isPrime == if IsPrime(ret) && ret != 2 then 1 else 0
      invariant forall n :: rand % MAX_PRIME_NUM + 5 <= n < ret ==> !IsPrime(n)
      decreases 37 - ret
    {
      ret := ret + 1;
      isPrime := IsPrimeNumber(ret);
    }
  }

  // ---------------------------------------------------------------- the extended Euclidean algorithm

  datatype Bezout = Bezout(r: int, D: int, k: int)

  function ExtendEuclid(E: nat, L: nat): Bezout
    decreases L
  {
    if L == 0 then Bezout(E, 1, 0)
    else
      var b := ExtendEuclid(L, E % L);
      Bezout(b.r, b.k, b.D - E / L * b.k)
  }

  /** E*D + L*k = r, with coefficients no larger than the other argument. */
  ghost predicate Solves(E: int, L: int, b: Bezout) {
    && E * b.D + L * b.k == b.r
    && (L >= 1 && E >= 1 ==> -L <= b.D <= L && -E <= b.k <= E)
    && (L == 0 ==> b == Bezout(E, 1, 0))
    && (E + L > 0 ==> b.r > 0)
  }

  lemma {:induction false} ExtendEuclidSolves(E: nat, L: nat)
    ensures Solves(E, L, ExtendEuclid(E, L))
    decreases L
  {
    if L > 0 {
      var q, m := E / L, E % L;
      QuotientAndRemainder(E, L, q, m);
      ExtendEuclidSolves(L, m);
      SolvesStep(E, L, q, m, ExtendEuclid(L, m));
    }
  }

  lemma QuotientAndRemainder(e: nat, l: nat, q: int, m: int)
    requires l > 0 && q == e / l && m == e % l
    ensures e == l * q + m && q >= 0 && 0 <= m < l
  {
  }

  /** One step of the algorithm, with quotient `q` and remainder `m`. */
  lemma SolvesStep(e: int, l: int, q: int, m: int, b: Bezout)
    requires l > 0 && e == l * q + m && q >= 0 && 0 <= m < l
    requires Solves(l, m, b)
    ensures Solves(e, l, Bezout(b.r, b.k, b.D - q * b.k))
  {
    LinearStep(q, l, m, b.D, b.k);
    if m >= 1 {
      ScaledBound(q, l, b.k);
    } else if e >= 1 {
      assert q >= 1;
    }
  }

  lemma LinearStep(q: int, l: int, m: int, d: int, k: int)
    ensures (l * q + m) * k + l * (d - q * k) == l * d + m * k
  {
    assert (l * q + m) * k == l * q * k + m * k;
    assert l * (d - q * k) == l * d - l * (q * k);
    assert l * (q * k) == l * q * k;
  }

  lemma ScaledBound(q: int, l: int, k: int)
    requires q >= 0 && -l <= k <= l
    ensures -(l * q) <= q * k <= l * q
  {
    assert q * (l - k) >= 0 && q * (l + k) >= 0;
  }

  /** What the algorithm returns is the greatest common divisor. */
  lemma {:induction false} EuclidComputesGcd(E: nat, L: nat)
    requires E + L > 0
    ensures IsGcd(ExtendEuclid(E, L).r, E, L)
    decreases L
  {
    if L > 0 {
      EuclidComputesGcd(L, E % L);
      GcdStep(ExtendEuclid(E, L).r, E, L);
    } else {
      MultipleDivides(E, 1);
      MultipleDivides(E, 0);
    }
  }

  lemma GcdUnique(g: int, h: int, a: int, b: int)
    requires IsGcd(g, a, b) && IsGcd(h, a, b)
    ensures g == h
  {
    DivisorAtMost(g, h);
    DivisorAtMost(h, g);
  }

  // ---------------------------------------------------------------- keys

  /** The private exponent: a negative Bezout coefficient is moved into range. */
  function PrivateExponent(E: nat, L: nat): int {
    var D := ExtendEuclid(E, L).D;
    if D < 0 then D + L else D
  }

  lemma ZeroOrWholeCoefficient(E: int, L: int, D: int, k: int, r: int)
    requires 0 < r < L && E * D + L * k == r
    ensures D != 0 && D != L && D != -L
  {
    if D == 0 {
      MultipleInRange(k, L);
    } else if D == L || D == -L {
      var c := if D == L then E else -E;
      assert (c + k) * L == r;
      MultipleInRange(c + k, L);
    }
  }

  /** The private exponent is a positive number below L whenever L is larger than the greatest
      common divisor of E and L; when that is 1 it inverts E modulo L. */
  lemma PrivateExponentInverts(E: nat, L: nat)
    requires E >= 1 && ExtendEuclid(E, L).r < L
    ensures 0 < PrivateExponent(E, L) < L
    ensures E * PrivateExponent(E, L) % L == ExtendEuclid(E, L).r
    ensures IsGcd(1, E, L) ==> E * PrivateExponent(E, L) % L == 1
  {
    var b := ExtendEuclid(E, L);
    ExtendEuclidSolves(E, L);
    ZeroOrWholeCoefficient(E, L, b.D, b.k, b.r);
    InverseAlgebra(E, L, b.D, b.k, b.r);
    DivModUnique(E * PrivateExponent(E, L), if b.D < 0 then E - b.k else -b.k, b.r, L);
    if IsGcd(1, E, L) {
      EuclidComputesGcd(E, L);
      GcdUnique(1, b.r, E, L);
    }
  }

  lemma InverseAlgebra(E: int, L: int, D: int, k: int, r: int)
    requires E * D + L * k == r
    ensures E * D == -k * L + r && E * (D + L) == (E - k) * L + r
  {
    assert -k * L == -(L * k);
    assert E * (D + L) == E * D + E * L && (E - k) * L == E * L - L * k;
  }

  datatype Keys = Keys(E: int, D: int, N: int)

  function KeysFor(p: int, q: int): Keys
    requires p >= 1 && q >= 1
  {
    Keys(E_VALUE1, PrivateExponent(E_VALUE1, (p - 1) * (q - 1)), p * q)
  }

  lemma ExponentOfKeys(L: nat)
    requires L >= 16
    ensures 0 < PrivateExponent(11, L) < L
    ensures IsGcd(11 * PrivateExponent(11, L) % L, 11, L)
  {
    EuclidComputesGcd(11, L);
    ExtendEuclidSolves(11, L);
    DivisorAtMost(ExtendEuclid(11, L).r, 11);
    PrivateExponentInverts(11, L);
  }

  lemma TotientLarge(p: int, q: int)
    requires p >= 5 && q >= 5
    ensures (p - 1) * (q - 1) >= 16
  {
    assert (p - 1) * (q - 1) - 16 == (p - 5) * (q - 1) + 4 * (q - 5);
  }

  /** Key generation from two arbitrary random numbers. */
  method GenKeys(rand1: nat, rand2: nat) returns (keys: Keys, p: int, q: int)
    ensures IsPrime(p) && IsPrime(q) && 5 <= p <= 37 && 5 <= q <= 37
    ensures keys == KeysFor(p, q)
    ensures keys.E == 11 && keys.N == p * q && 0 < keys.D < (p - 1) * (q - 1)
    ensures IsGcd(keys.E * keys.D % ((p - 1) * (q - 1)), 11, (p - 1) * (q - 1))
  {
    p := GetRandPrimeNum(rand1);
    q := GetRandPrimeNum(rand2);
    var L := (p - 1) * (q - 1);
    TotientLarge(p, q);
    var D := ExtendEuclid(E_VALUE1, L).D;
    if D < 0 {
      D := D + L;
    }
    ExponentOfKeys(L);
    keys := Keys(E_VALUE1, D, p * q);
  }

  // ---------------------------------------------------------------- encryption and decryption

  /** What the loop of `rsaCrypt` computes: no multiplication at all leaves 1. */
  function Crypt(ED: int, N: int, src: int): int
    requires N > 0
  {
    if ED <= 0 then 1 else Pow(src, ED) % N
  }

  method RsaCrypt(ED: int, N: int, src: nat) returns (dst: int)
    requires N > 0
    ensures dst == Crypt(ED, N, src)
    ensures if ED > 0 then 0 <= dst < N && Divides(N, Pow(src, ED) - dst) else dst == 1
  {
    var modRet, i := 1, 0;
    while i < ED
      invariant i == 0 || 0 < i <= ED
      invariant if i == 0 then modRet == 1 else modRet == Pow(src, i) % N
    {
      MulCong(src, Pow(src, i), src, modRet, N) by {
        if i > 0 { DivModUnique(modRet, 0, modRet, N); }
      }
      modRet := (src * modRet) % N;
      i := i + 1;
    }
    if ED > 0 {
      DivModUnique(modRet, 0, modRet, N);
      SameModIffDivides(Pow(src, ED), modRet, N);
    }
    return modRet;
  }
}
