/** The arithmetic behind RSA: division, powers modulo n, Bezout, binomials, Fermat. */
module NumberTheory {

  predicate Divides(d: int, n: int) { d > 0 && n % d == 0 }

  ghost predicate IsPrime(p: int) {
    p >= 2 && forall d :: 2 <= d < p ==> !Divides(d, p)
  }

  function Pow(b: int, e: nat): int { if e == 0 then 1 else b * Pow(b, e - 1) }

  // ---------------------------------------------------------------- division

  lemma MulMono(a: int, b: int, c: int)
    requires a >= 0 && b <= c
    ensures a * b <= a * c
  {
    assert a * (c - b) >= 0;
  }

  lemma MultipleAtLeast(k: int, n: int)
    requires n > 0
    ensures (k >= 1 ==> k * n >= n) && (k <= -1 ==> k * n <= -n)
  {
    if k >= 1 {
      assert (k - 1) * n >= 0;
    } else if k <= -1 {
      assert (k + 1) * n <= 0;
    }
  }

  lemma MultipleInRange(k: int, n: int)
    requires n > 0 && -n < k * n < n
    ensures k == 0
  {
    MultipleAtLeast(k, n);
  }

  lemma DivModUnique(a: int, q: int, r: int, n: int)
    requires n > 0 && a == q * n + r && 0 <= r < n
    ensures a / n == q && a % n == r
  {
    assert (q - a / n) * n == q * n - a / n * n;
    assert a == a / n * n + a % n;
    MultipleInRange(q - a / n, n);
  }

  lemma MultipleDivides(d: int, k: int)
    requires d > 0
    ensures Divides(d, d * k) && Divides(d, k * d)
  {
    DivModUnique(k * d, k, 0, d);
    assert d * k == k * d;
  }

  lemma Quotient(d: int, n: int) returns (k: int)
    requires Divides(d, n)
    ensures n == d * k && n == k * d
  {
    k := n / d;
  }

  /** Adding a multiple does not change the remainder. */
  lemma ModPlusMultiple(a: int, k: int, n: int)
    requires n > 0
    ensures (a + k * n) % n == a % n
  {
    assert a + k * n == (a / n + k) * n + a % n by { assert (a / n + k) * n == a / n * n + k * n; }
    DivModUnique(a + k * n, a / n + k, a % n, n);
  }

  lemma SameModIffDivides(a: int, b: int, n: int)
    requires n > 0
    ensures a % n == b % n <==> Divides(n, a - b)
  {
    if a % n == b % n {
      assert a - b == (a / n - b / n) * n by { assert (a / n - b / n) * n == a / n * n - b / n * n; }
      MultipleDivides(n, a / n - b / n);
    }
    if Divides(n, a - b) {
      var k := Quotient(n, a - b);
      ModPlusMultiple(b, k, n);
      assert b + k * n == a;
    }
  }

  lemma ModMul(a: int, b: int, n: int)
    requires n > 0
    ensures (a * b) % n == (a % n * b) % n == (a % n * (b % n)) % n
  {
    ModMulLeft(a, b, n);
    ModMulLeft(b, a % n, n);
    assert a % n * b == b * (a % n) && b % n * (a % n) == a % n * (b % n);
  }

  lemma ModMulLeft(a: int, b: int, n: int)
    requires n > 0
    ensures (a * b) % n == (a % n * b) % n
  {
    var q := a / n;
    assert a * b == (q * n + a % n) * b == q * n * b + a % n * b;
    assert q * n * b == q * b * n;
    ModPlusMultiple(a % n * b, q * b, n);
  }

  lemma MulCong(a: int, b: int, c: int, d: int, n: int)
    requires n > 0 && a % n == c % n && b % n == d % n
    ensures (a * b) % n == (c * d) % n
  {
    ModMul(a, b, n);
    ModMul(c, d, n);
  }

  lemma DividesSum(d: int, a: int, b: int)
    requires Divides(d, a) && Divides(d, b)
    ensures Divides(d, a + b) && Divides(d, a - b)
  {
    var x := Quotient(d, a);
    var y := Quotient(d, b);
    assert a + b == d * (x + y) && a - b == d * (x - y);
    MultipleDivides(d, x + y);
    MultipleDivides(d, x - y);
  }

  lemma DividesProduct(d: int, a: int, k: int)
    requires Divides(d, a)
    ensures Divides(d, a * k) && Divides(d, k * a)
  {
    var x := Quotient(d, a);
    assert a * k == d * (x * k) && k * a == d * (x * k);
    MultipleDivides(d, x * k);
  }

  lemma DivisorAtMost(d: int, n: int)
    requires Divides(d, n) && n > 0
    ensures d <= n
  {
  }

  // ---------------------------------------------------------------- powers

  lemma {:induction false} PowMod(a: int, e: nat, n: int)
    requires n > 0
    ensures Pow(a, e) % n == Pow(a % n, e) % n
  {
    if e > 0 {
      var r := a % n;
      PowMod(a, e - 1, n);
      DivModUnique(r, 0, r, n);
      MulCong(a, Pow(a, e - 1), r, Pow(r, e - 1), n);
      assert Pow(a, e) == a * Pow(a, e - 1) && Pow(r, e) == r * Pow(r, e - 1);
    }
  }

  lemma {:induction false} PowAdd(b: int, x: nat, y: nat)
    ensures Pow(b, x + y) == Pow(b, x) * Pow(b, y)
  {
    if x > 0 {
      PowAdd(b, x - 1, y);
      assert b * (Pow(b, x - 1) * Pow(b, y)) == b * Pow(b, x - 1) * Pow(b, y);
    }
  }

  lemma {:induction false} PowPow(b: int, x: nat, y: nat)
    ensures x * y >= 0 && Pow(Pow(b, x), y) == Pow(b, x * y)
  {
    if y > 0 {
      PowPow(b, x, y - 1);
      assert x * y == x + x * (y - 1);
      PowAdd(b, x, x * (y - 1));
    }
  }

  lemma {:induction false} PowOne(e: nat)
    ensures Pow(1, e) == 1
  {
    if e > 0 { PowOne(e - 1); }
  }

  lemma {:induction false} PowZero(e: nat)
    requires e > 0
    ensures Pow(0, e) == 0
  {
  }

  // ---------------------------------------------------------------- Bezout

  /** g is the greatest common divisor: every common divisor divides it. */
  ghost predicate IsGcd(g: int, a: int, b: int) {
    && Divides(g, a) && Divides(g, b)
    && forall d :: Divides(d, a) && Divides(d, b) ==> Divides(d, g)
  }

  lemma GcdStep(g: int, a: int, b: int)
    requires b > 0 && IsGcd(g, b, a % b)
    ensures IsGcd(g, a, b)
  {
    assert a == b * (a / b) + a % b;
    DividesProduct(g, b, a / b);
    DividesSum(g, b * (a / b), a % b);
    forall d | Divides(d, a) && Divides(d, b)
      ensures Divides(d, g)
    {
      DividesProduct(d, b, a / b);
      DividesSum(d, a, b * (a / b));
    }
  }

  /** A prime that divides neither factor does not divide a product; `x` and `y` are Bezout
      coefficients of p and a. */
  lemma EuclidLemma(p: int, a: int, b: int, x: int, y: int)
    requires Divides(p, a * b) && p * x + a * y == 1
    ensures Divides(p, b)
  {
    assert b == (p * x + a * y) * b == p * (x * b) + a * b * y;
    MultipleDivides(p, x * b);
    DividesProduct(p, a * b, y);
    DividesSum(p, p * (x * b), a * b * y);
  }

  // ---------------------------------------------------------------- binomials

  function Choose(n: nat, k: nat): nat {
    if k == 0 then 1 else if n == 0 then 0 else Choose(n - 1, k - 1) + Choose(n - 1, k)
  }

  lemma {:induction false} ChooseAbove(n: nat, k: nat)
    requires k > n
    ensures Choose(n, k) == 0
  {
    if n > 0 {
      ChooseAbove(n - 1, k - 1);
      ChooseAbove(n - 1, k);
    }
  }

  lemma {:induction false} ChooseAll(n: nat)
    ensures Choose(n, n) == 1
  {
    if n > 0 {
      ChooseAll(n - 1);
      ChooseAbove(n - 1, n);
    }
  }

  lemma {:induction false} ChooseAbsorb(n: nat, k: nat)
    requires n >= 1 && k >= 1
    ensures k * Choose(n, k) == n * Choose(n - 1, k - 1)
  {
    if n == 1 {
      if k > 1 { ChooseAbove(0, k - 1); }
    } else if k > 1 {
      ChooseAbsorb(n - 1, k);
      ChooseAbsorb(n - 1, k - 1);
      AbsorbAlgebra(n, k, Choose(n - 2, k - 2), Choose(n - 2, k - 1), Choose(n - 1, k));
    } else {
      ChooseAbsorb(n - 1, 1);
    }
  }

  lemma AbsorbAlgebra(n: int, k: int, u: int, v: int, b: int)
    requires k * b == (n - 1) * v && (k - 1) * (u + v) == (n - 1) * u
    ensures k * (u + v + b) == n * (u + v)
  {
    assert k * (u + v + b) == (u + v) + (k - 1) * (u + v) + k * b;
    assert (n - 1) * u + (n - 1) * v == (n - 1) * (u + v);
  }

  /** The first `k` terms of the expansion of (a + 1) to the n. */
  function PartialSum(n: nat, k: nat, a: int): int {
    if k == 0 then 0 else PartialSum(n, k - 1, a) + Choose(n, k - 1) * Pow(a, k - 1)
  }

  lemma {:induction false} PascalSum(n: nat, k: nat, a: int)
    requires k >= 1
    ensures PartialSum(n + 1, k, a) == PartialSum(n, k, a) + a * PartialSum(n, k - 1, a)
  {
    if k > 1 {
      PascalSum(n, k - 1, a);
      PascalAlgebra(a, Choose(n, k - 2), Choose(n, k - 1), Pow(a, k - 2), PartialSum(n, k - 2, a));
    }
  }

  lemma PascalAlgebra(a: int, x: int, y: int, w: int, t: int)
    ensures (x + y) * (a * w) + a * t == y * (a * w) + a * (t + x * w)
  {
    assert (x + y) * (a * w) == x * (a * w) + y * (a * w);
    assert x * (a * w) == a * (x * w);
    assert a * (t + x * w) == a * t + a * (x * w);
  }

  lemma {:induction false} Binomial(n: nat, a: int)
    ensures PartialSum(n, n + 1, a) == Pow(a + 1, n)
  {
    if n == 0 {
      assert PartialSum(0, 1, a) == PartialSum(0, 0, a) + 1;
    } else {
      Binomial(n - 1, a);
      PascalSum(n - 1, n + 1, a);
      ChooseAbove(n - 1, n);
      BinomialAlgebra(a, PartialSum(n - 1, n, a), Choose(n - 1, n), Pow(a, n));
    }
  }

  lemma BinomialAlgebra(a: int, t: int, c: int, w: int)
    requires c == 0
    ensures t + c * w + a * t == (a + 1) * t
  {
  }
}
