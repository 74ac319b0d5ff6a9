/**
 A prime between n and 4n that does not divide a given number. Common multiples of 1..4n are large,
 as the numbers k * C(4n, k) divide them; without such a prime the product of the primes up to n and
 a few more factors would be a small one.
 */
module PrimeGap {
  import opened NumberTheory

  /** m is a multiple of 1..n. */
  ghost predicate CommonMultiple(m: nat, n: nat) {
    forall j :: 1 <= j <= n ==> Divides(j, m)
  }

  // ------------------------------------------------------------------ binomials of the middle

  // k * C(n - 1, k) == (n - k) * C(n - 1, k - 1)
  lemma ChooseNext(n: nat, k: nat)
    requires 1 <= k <= n
    ensures k * Choose(n - 1, k) == (n - k) * Choose(n - 1, k - 1)
  {
    Absorption(n, k);
    var c0, c1 := Choose(n - 1, k - 1), Choose(n - 1, k);
    assert k * (c1 + c0) == k * c1 + k * c0;
    assert (n - k) * c0 == n * c0 - k * c0;
  }

  lemma {:induction false} ChoosePositive(n: nat, k: nat)
    requires k <= n
    ensures Choose(n, k) > 0
  {
    if k > 0 { ChoosePositive(n - 1, k - 1); }
  }

  lemma CancelFactor(a: nat, x: nat, y: nat)
    requires a > 0 && a * x == a * y
    ensures x == y
  {
    assert a * (x - y) == 0;
  }

  // The two middle numbers of row 2h + 1 are equal, and each is (2h + 1) / (h + 1) times C(2h, h).
  lemma Middle(h: nat)
    ensures Choose(2 * h + 1, h) == Choose(2 * h + 1, h + 1)
    ensures Choose(2 * h + 2, h + 1) == 2 * Choose(2 * h + 1, h)
    ensures (h + 1) * Choose(2 * h + 1, h) == (2 * h + 1) * Choose(2 * h, h)
  {
    ChooseNext(2 * h + 2, h + 1);
    CancelFactor(h + 1, Choose(2 * h + 1, h), Choose(2 * h + 1, h + 1));
    Absorption(2 * h + 1, h + 1);
  }

  lemma CentralStep(h: nat, c: nat, d: nat)
    requires h >= 1 && (h + 1) * d == (2 * h + 1) * c
    ensures 2 * d >= 3 * c
  {
    assert (2 * d) * (h + 1) == 2 * ((h + 1) * d);
    assert (3 * c) * (h + 1) == (3 * h + 3) * c;
    assert 2 * ((2 * h + 1) * c) == (3 * h + 3) * c + (h - 1) * c;
    assert (h - 1) * c >= 0;
    assert (2 * d - 3 * c) * (h + 1) >= 0;
    NotNegative(2 * d - 3 * c, h + 1);
  }

  lemma NotNegative(x: int, a: nat)
    requires a >= 1 && x * a >= 0
    ensures x >= 0
  {
  }

  lemma MulLess(x: nat, b: nat, a: nat)
    requires x < b && a >= 1
    ensures x * a < b * a
  {
  }

  /** C(2h, h) is at least two thirds of 3^h. */
  lemma {:induction false} CentralBig(h: nat)
    requires h >= 1
    ensures 3 * Choose(2 * h, h) >= 2 * Pow(3, h)
  {
    if h == 1 {
      assert Choose(2, 1) == 2;
    } else {
      CentralBig(h - 1);
      Middle(h - 1);
      CentralStep2(h - 1);
    }
  }

  lemma CentralStep2(h: nat)
    requires h >= 1
    ensures Choose(2 * h + 2, h + 1) >= 3 * Choose(2 * h, h)
  {
    Middle(h);
    CentralStep(h, Choose(2 * h, h), Choose(2 * h + 1, h));
  }

  /** Half of a row bounds each of its numbers. */
  lemma {:induction false} ChooseSmall(n: nat, k: nat)
    requires n >= 1
    ensures Choose(n, k) <= Pow(2, n - 1)
  {
    if n > 1 {
      ChooseSmall(n - 1, k);
      if k > 0 { ChooseSmall(n - 1, k - 1); }
    } else if k > 0 {
      ChooseAbove(0, k);
    }
  }

  lemma MiddleSmall(m: nat)
    ensures Choose(2 * m + 1, m) <= Pow(2, 2 * m)
  {
    Middle(m);
    ChooseSmall(2 * m + 2, m + 1);
  }

  // ------------------------------------------------------------------ common multiples are large

  // One step of the triangle of the k * C(n, k).
  lemma TriangleStep(m: int, n: int, k: int, c0: int, c1: int, x: int, y: int)
    requires (k * c1) * x == m && (n * c1) * y == m && c1 > 0
    requires k * (c1 + c0) == n * c0
    ensures (k * (c1 + c0)) * (x - y) == m
  {
    assert c1 * (k * x - n * y) == 0;
    assert k * x == n * y;
    assert (n * c0) * y == c0 * (n * y);
    assert (k * (c1 + c0)) * x == (k * c1) * x + c0 * (k * x);
    assert (k * (c1 + c0)) * (x - y) == (k * (c1 + c0)) * x - (n * c0) * y;
  }

  /** k * C(n, k) divides every common multiple of 1..n. */
  lemma {:induction false} TriangleDivides(m: nat, n: nat, k: nat)
    requires 1 <= k <= n && CommonMultiple(m, n)
    ensures Divides(k * Choose(n, k), m)
    decreases n, n - k
  {
    if k == n {
      ChooseAll(n);
      assert n * Choose(n, n) == n;
      assert Divides(n, m);
    } else {
      TriangleDivides(m, n - 1, k);
      TriangleDivides(m, n, k + 1);
      Absorption(n, k);
      Absorption(n, k + 1);
      var c0, c1 := Choose(n - 1, k - 1), Choose(n - 1, k);
      ChoosePositive(n - 1, k);
      assert Divides(k * c1, m) && Divides(n * c1, m);
      var x :| (k * c1) * x == m;
      var y :| (n * c1) * y == m;
      TriangleStep(m, n, k, c0, c1, x, y);
    }
  }

  /** A positive common multiple of 1..2h is at least 3^h. */
  lemma MultipleIsBig(m: nat, h: nat)
    requires h >= 2 && m > 0 && CommonMultiple(m, 2 * h)
    ensures m >= Pow(3, h)
  {
    TriangleDivides(m, 2 * h, h);
    CentralBig(h);
    var c := Choose(2 * h, h);
    assert h * c == 2 * c + (h - 2) * c;
    ChoosePositive(2 * h, h);
    DividesAtMost(h * c, m);
  }

  lemma DividesAtMost(d: nat, m: nat)
    requires Divides(d, m) && m > 0
    ensures d <= m
  {
    var k :| d * k == m;
    MulAtLeast(d, k);
  }

  // ------------------------------------------------------------------ the product of the primes

  /** The product of the primes above a and at most b. */
  function PrimeProduct(a: nat, b: nat): (r: nat)
    ensures r >= 1
  {
    if b <= a then 1 else PrimeProduct(a, b - 1) * (if IsPrime(b) then b else 1)
  }

  lemma MulAssoc(a: int, b: int, c: int)
    ensures (a * b) * c == a * (b * c)
  {
  }

  lemma {:induction false} PrimeProductSplit(a: nat, m: nat, b: nat)
    requires a <= m <= b
    ensures PrimeProduct(a, b) == PrimeProduct(a, m) * PrimeProduct(m, b)
  {
    if m < b {
      PrimeProductSplit(a, m, b - 1);
      MulAssoc(PrimeProduct(a, m), PrimeProduct(m, b - 1), if IsPrime(b) then b else 1);
    }
  }

  lemma {:induction false} PrimeInProduct(p: nat, a: nat, b: nat)
    requires IsPrime(p) && a < p <= b
    ensures Divides(p, PrimeProduct(a, b))
  {
    if p == b {
      DividesBy(p, PrimeProduct(a, b - 1));
    } else {
      PrimeInProduct(p, a, b - 1);
      DividesProduct(p, PrimeProduct(a, b - 1), if IsPrime(b) then b else 1);
    }
  }

  lemma {:induction false} PrimeNotInProduct(q: nat, a: nat, b: nat)
    requires IsPrime(q) && b < q
    ensures !Divides(q, PrimeProduct(a, b))
  {
    NotDividesSmall(q, 1);
    if b > a {
      PrimeNotInProduct(q, a, b - 1);
      NotDividesSmall(q, b);
      if Divides(q, PrimeProduct(a, b)) {
        Euclid(q, PrimeProduct(a, b - 1), if IsPrime(b) then b else 1);
      }
    }
  }

  lemma OneMorePrime(s: nat, p: nat, c: nat)
    requires IsPrime(p) && Divides(s, c) && Divides(p, c) && !Divides(p, s)
    ensures Divides(s * p, c)
  {
    var w :| s * w == c;
    Euclid(p, s, w);
    var v :| p * v == w;
    MulAssoc(s, p, v);
  }

  /** What every prime above a and at most b divides, their product divides. */
  lemma {:induction false} PrimeProductDivides(a: nat, b: nat, c: nat)
    requires forall p: nat :: IsPrime(p) && a < p <= b ==> Divides(p, c)
    ensures Divides(PrimeProduct(a, b), c)
  {
    if b <= a {
      assert 1 * c == c;
    } else {
      PrimeProductDivides(a, b - 1, c);
      if IsPrime(b) {
        PrimeNotInProduct(b, a, b - 1);
        OneMorePrime(PrimeProduct(a, b - 1), b, c);
      }
    }
  }

  lemma {:induction false} FactorialChoose(n: nat, k: nat)
    requires k <= n
    ensures Choose(n, k) * (Factorial(k) * Factorial(n - k)) == Factorial(n)
  {
    if k > 0 {
      FactorialChoose(n - 1, k - 1);
      Absorption(n, k);
      FactorialArith(n, k, Choose(n, k), Choose(n - 1, k - 1), Factorial(k - 1), Factorial(n - k));
    }
  }

  lemma FactorialArith(n: nat, k: nat, c: nat, d: nat, f: nat, g: nat)
    requires k * c == n * d
    ensures c * ((k * f) * g) == n * (d * (f * g))
  {
    assert c * ((k * f) * g) == (k * c) * (f * g);
    assert n * (d * (f * g)) == (n * d) * (f * g);
  }

  lemma {:induction false} PrimeNotInFactorial(p: nat, k: nat)
    requires IsPrime(p) && k < p
    ensures !Divides(p, Factorial(k))
  {
    if k == 0 {
      NotDividesSmall(p, 1);
    } else {
      PrimeNotInFactorial(p, k - 1);
      NotDividesSmall(p, k);
      if Divides(p, Factorial(k)) {
        Euclid(p, k, Factorial(k - 1));
      }
    }
  }

  lemma PrimeDividesMiddle(m: nat, p: nat)
    requires IsPrime(p) && m + 1 < p <= 2 * m + 1
    ensures Divides(p, Choose(2 * m + 1, m))
  {
    var c, f := Choose(2 * m + 1, m), Factorial(m) * Factorial(m + 1);
    FactorialChoose(2 * m + 1, m);
    DividesFactorial(p, 2 * m + 1);
    Euclid(p, c, f);
    PrimeNotInFactorial(p, m);
    PrimeNotInFactorial(p, m + 1);
    if Divides(p, f) {
      Euclid(p, Factorial(m), Factorial(m + 1));
    }
  }

  /** The product of the primes up to n is at most 4^n. */
  lemma {:induction false} PrimeProductSmall(n: nat)
    ensures PrimeProduct(0, n) <= Pow(2, 2 * n)
  {
    PowAtLeastOne(2, 2 * n);
    if n > 2 && n % 2 == 1 {
      var m := n / 2;
      PrimeProductSmall(m + 1);
      PrimeProductSplit(0, m + 1, n);
      PrimesOfMiddle(m);
      MulGrows(PrimeProduct(0, m + 1), Pow(2, 2 * (m + 1)), PrimeProduct(m + 1, n), Pow(2, 2 * m));
      PowAdd(2, 2 * (m + 1), 2 * m);
    } else if n > 2 {
      assert !IsPrime(n);
      PrimeProductSmall(n - 1);
      PowGrows(2 * n - 2, 2 * n);
    } else if n == 2 {
      assert PrimeProduct(0, 0) == 1 && PrimeProduct(0, 1) == 1;
      assert Pow(2, 4) == 16;
    } else if n == 1 {
      assert PrimeProduct(0, 0) == 1;
    }
  }

  lemma PrimesOfMiddle(m: nat)
    ensures PrimeProduct(m + 1, 2 * m + 1) <= Pow(2, 2 * m)
  {
    var c := Choose(2 * m + 1, m);
    forall p: nat | IsPrime(p) && m + 1 < p <= 2 * m + 1 ensures Divides(p, c) {
      PrimeDividesMiddle(m, p);
    }
    PrimeProductDivides(m + 1, 2 * m + 1, c);
    ChoosePositive(2 * m + 1, m);
    DividesAtMost(PrimeProduct(m + 1, 2 * m + 1), c);
    MiddleSmall(m);
  }

  // ------------------------------------------------------------------ a small common multiple

  /** A number below 2^e without a prime factor above a divides (a!)^e. */
  lemma {:induction false} SmoothDivides(j: nat, a: nat, e: nat)
    requires 1 <= j < Pow(2, e) && forall p: nat :: IsPrime(p) && Divides(p, j) ==> p <= a
    ensures Divides(j, Pow(Factorial(a), e))
  {
    if j == 1 {
      assert 1 * Pow(Factorial(a), e) == Pow(Factorial(a), e);
    } else {
      var p := PrimeFactor(j);
      var i :| p * i == j;
      FactorBelow(p, i, j, e);
      forall q: nat | IsPrime(q) && Divides(q, i) ensures q <= a {
        DividesProduct(q, i, p);
        assert i * p == j;
      }
      SmoothDivides(i, a, e - 1);
      DividesFactorial(p, a);
      DividesBoth(p, i, Factorial(a), Pow(Factorial(a), e - 1));
    }
  }

  lemma FactorBelow(p: nat, i: int, j: nat, e: nat)
    requires p >= 2 && p * i == j && 1 <= j < Pow(2, e)
    ensures 1 <= i <= j && e >= 1 && i < Pow(2, e - 1)
  {
    assert e >= 1;
    assert p * i == 2 * i + (p - 2) * i;
    assert (p - 2) * i >= 0;
  }

  lemma DividesBoth(p: int, i: int, x: int, y: int)
    requires Divides(p, x) && Divides(i, y)
    ensures Divides(p * i, x * y)
  {
    var u :| p * u == x;
    var v :| i * v == y;
    assert (p * u) * (i * v) == (p * i) * (u * v) by {
      assert (p * u) * (i * v) == p * (u * (i * v)) == p * (i * (u * v));
    }
  }

  /** A number up to k^2 has at most one prime factor above k. */
  lemma OneBigFactor(j: nat, p: nat, i: nat, k: nat)
    requires IsPrime(p) && p > k && p * i == j && j <= k * k && i >= 1
    ensures forall q: nat :: IsPrime(q) && Divides(q, i) ==> q <= k
  {
    assert (k + 1) * (k + 1) == k * k + 2 * k + 1;
    if i > k { MulGrows(k + 1, p, k + 1, i); }
    forall q: nat | IsPrime(q) && Divides(q, i) ensures q <= k {
      DividesAtMost(q, i);
    }
  }

  lemma BigFactorDivides(j: nat, p: nat, k: nat, e: nat, x: nat)
    requires IsPrime(p) && p > k && Divides(p, j) && 1 <= j < Pow(2, e) && j <= k * k && Divides(p, x)
    ensures Divides(j, x * Pow(Factorial(k), e))
  {
    var i :| p * i == j;
    FactorBelow(p, i, j, e);
    OneBigFactor(j, p, i, k);
    SmoothDivides(i, k, e);
    DividesBoth(p, i, x, Pow(Factorial(k), e));
  }

  lemma DividesCommuted(d: int, a: int, b: int)
    requires Divides(d, a)
    ensures Divides(d, a * b) && Divides(d, b * a)
  {
    DividesProduct(d, a, b);
    assert a * b == b * a;
  }

  /** Without a prime above n that does not divide r: a multiple of every number up to k^2. */
  lemma MultipleOfAll(n: nat, k: nat, e: nat, r: nat, j: nat)
    requires 1 <= j < Pow(2, e) && j <= k * k
    requires forall p: nat :: IsPrime(p) && n < p <= j ==> Divides(p, r)
    ensures Divides(j, (PrimeProduct(0, n) * r) * Pow(Factorial(k), e))
  {
    if p: nat :| IsPrime(p) && p > k && Divides(p, j) {
      DividesAtMost(p, j);
      if p <= n {
        PrimeInProduct(p, 0, n);
        DividesCommuted(p, PrimeProduct(0, n), r);
      } else {
        DividesCommuted(p, r, PrimeProduct(0, n));
      }
      BigFactorDivides(j, p, k, e, PrimeProduct(0, n) * r);
    } else {
      SmoothDivides(j, k, e);
      DividesCommuted(j, Pow(Factorial(k), e), PrimeProduct(0, n) * r);
    }
  }

  /** There is a prime between n and 4n that does not divide r, if r and (k!)^e are small. */
  lemma PrimeAvoiding(n: nat, k: nat, e: nat, r: nat) returns (p: nat)
    requires n >= 1 && 4 * n < Pow(2, e) && 4 * n <= k * k && r >= 1
    requires r * Pow(Factorial(k), e) < Pow(2, n)
    ensures IsPrime(p) && n < p <= 4 * n && !Divides(p, r)
  {
    if forall q: nat :: IsPrime(q) && n < q <= 4 * n ==> Divides(q, r) {
      var f := Pow(Factorial(k), e);
      var m := (PrimeProduct(0, n) * r) * f;
      forall j | 1 <= j <= 4 * n ensures Divides(j, m) {
        MultipleOfAll(n, k, e, r, j);
      }
      PowAtLeastOne(Factorial(k), e);
      PrimeProductSmall(n);
      ThreeFactors(PrimeProduct(0, n), r, f, Pow(2, 2 * n), Pow(2, n));
      MultipleIsBig(m, 2 * n);
      EightBelowNine(n);
      assert false;
    }
    p :| IsPrime(p) && n < p <= 4 * n && !Divides(p, r);
  }

  lemma MulBelow(a: nat, b: nat, x: nat, c: nat)
    requires 1 <= a <= b && x < c
    ensures a * x < b * c
  {
    MulGrows(a, b, x, c - 1);
    assert b * (c - 1) == b * c - b;
  }

  lemma ThreeFactors(a: nat, r: nat, f: nat, b: nat, c: nat)
    requires 1 <= a <= b && r >= 1 && f >= 1 && r * f < c
    ensures 1 <= (a * r) * f < b * c
  {
    MulAssoc(a, r, f);
    MulGrows(1, r, 1, f);
    MulGrows(1, a, 1, r * f);
    MulBelow(a, b, r * f, c);
  }

  lemma {:induction false} EightBelowNine(n: nat)
    ensures Pow(2, 2 * n) * Pow(2, n) <= Pow(3, 2 * n)
  {
    PowPow(2, 2, n);
    PowPow(3, 2, n);
    assert Pow(2, 2) == 4 && Pow(3, 2) == 9;
    FourTwoNine(n);
  }

  lemma {:induction false} FourTwoNine(n: nat)
    ensures Pow(4, n) * Pow(2, n) <= Pow(9, n)
  {
    if n > 0 {
      FourTwoNine(n - 1);
      var x, y := Pow(4, n - 1), Pow(2, n - 1);
      assert (4 * x) * (2 * y) == 8 * (x * y);
    }
  }

  // ------------------------------------------------------------------ bounds that are powers of two

  lemma {:induction false} PowAtLeastOne(b: nat, n: nat)
    requires b >= 1
    ensures Pow(b, n) >= 1
  {
    if n > 0 {
      PowAtLeastOne(b, n - 1);
      MulAtLeast(b, Pow(b, n - 1));
    }
  }

  lemma MulGrows(a: nat, b: nat, x: nat, y: nat)
    requires a <= b && x <= y
    ensures a * x <= b * y
  {
    assert a * x <= b * x;
    assert b * x <= b * y;
  }

  lemma {:induction false} PowGrowsInBase(a: nat, b: nat, n: nat)
    requires a <= b
    ensures Pow(a, n) <= Pow(b, n)
  {
    if n > 0 {
      PowGrowsInBase(a, b, n - 1);
      MulGrows(a, b, Pow(a, n - 1), Pow(b, n - 1));
    }
  }

  lemma {:induction false} PowGrows(m: nat, n: nat)
    requires m < n
    ensures Pow(2, m) < Pow(2, n)
  {
    PowAtLeastOne(2, m);
    if m + 1 < n { PowGrows(m, n - 1); }
  }

  lemma {:induction false} FactorialBound(n: nat, b: nat)
    requires n <= b
    ensures Factorial(n) <= Pow(b, n)
  {
    if n > 0 {
      FactorialBound(n - 1, b);
      MulGrows(n, b, Factorial(n - 1), Pow(b, n - 1));
    }
  }

  lemma PowOfFactorial(a: nat, s: nat, e: nat)
    requires a == Pow(2, s)
    ensures Pow(Factorial(a), e) <= Pow(2, s * (a * e))
  {
    FactorialBound(a, a);
    PowGrowsInBase(Factorial(a), Pow(a, a), e);
    PowPow(a, a, e);
    PowPow(2, s, a * e);
  }

  lemma ExponentSmall(c: nat, t: nat, e: nat, u: nat)
    requires u >= 1 && e * (2 * (t + 1) + c) < u
    ensures e * c + (t + 1) * ((2 * u) * e) < u * u
  {
    var a, b := e * c, (2 * (t + 1)) * e;
    assert e * (2 * (t + 1) + c) == a + b;
    MulAtLeast(a, u);
    assert (t + 1) * ((2 * u) * e) == b * u;
    assert (a + b) * u == a * u + b * u;
    MulLess(a + b, u, u);
  }

  /** A prime between 2^2t and four times that which does not divide r, a number of at most e * c bits. */
  lemma PrimeAvoidingPowers(t: nat, c: nat, r: nat) returns (p: nat)
    requires (2 * t + 3) * (2 * (t + 1) + c) < Pow(2, t) && 1 <= r <= Pow(2, (2 * t + 3) * c)
    ensures IsPrime(p) && Pow(2, 2 * t) < p <= Pow(2, 2 * t + 2) && !Divides(p, r)
  {
    var u, k, e, n := Pow(2, t), Pow(2, t + 1), 2 * t + 3, Pow(2, 2 * t);
    PowAtLeastOne(2, t);
    PowAdd(2, t, t);
    PowAdd(2, t + 1, t + 1);
    PowAdd(2, 2, 2 * t);
    assert Pow(2, 2) == 4 && t + 1 + (t + 1) == 2 * t + 2;
    PowGrows(2 * t + 2, e);
    PowAtLeastOne(2, 2 * t);
    PowOfFactorial(k, t + 1, e);
    ExponentSmall(c, t, e, u);
    assert k == 2 * u;
    MulGrows(r, Pow(2, e * c), Pow(Factorial(k), e), Pow(2, (t + 1) * (k * e)));
    PowAdd(2, e * c, (t + 1) * (k * e));
    PowGrows(e * c + (t + 1) * (k * e), n);
    p := PrimeAvoiding(n, k, e, r);
  }
}
