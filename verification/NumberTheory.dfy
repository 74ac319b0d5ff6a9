/**
 Elementary number theory used by the signature scheme: primes above every bound,
 Euclid's lemma, the binomial theorem and Fermat's little theorem.
 */
module NumberTheory {

  /** d divides n (over the integers, so n may be negative). */
  ghost predicate Divides(d: int, n: int) {
    exists k :: d * k == n
  }

  predicate IsPrime(n: nat) {
    2 <= n && forall m :: 2 <= m < n ==> n % m != 0
  }

  function Pow(b: nat, n: nat): nat {
    if n == 0 then 1 else b * Pow(b, n - 1)
  }

  // ------------------------------------------------------------------ divisibility

  lemma DividesBy(d: int, k: int)
    ensures Divides(d, d * k)
  {
    assert d * k == d * k;
  }

  lemma {:induction false} MulAtLeast(a: nat, b: nat)
    requires b >= 1
    ensures a * b >= a
  {
    if b > 1 {
      MulAtLeast(a, b - 1);
      assert a * b == a * (b - 1) + a;
    }
  }

  // A multiple of d strictly between -d and d is 0.
  lemma SmallMultiple(d: int, j: int)
    requires -d < d * j < d
    ensures j == 0
  {
    assert d * (-j) == -(d * j);
    if j >= 1 {
      MulAtLeast(d, j);
    } else if j <= -1 {
      MulAtLeast(d, -j);
    }
  }

  lemma DividesMod(d: nat, n: int)
    requires d > 0
    ensures Divides(d, n) <==> n % d == 0
  {
    var q, r := n / d, n % d;
    assert n == d * q + r;
    if Divides(d, n) {
      var k :| d * k == n;
      assert d * (k - q) == r;
      SmallMultiple(d, k - q);
    }
    if r == 0 {
      assert d * q == n;
    }
  }

  lemma NotDividesSmall(d: nat, r: nat)
    requires 0 < r < d
    ensures !Divides(d, r)
  {
    if Divides(d, r) {
      var k :| d * k == r;
      SmallMultiple(d, k);
    }
  }

  lemma DividesSum(d: int, a: int, b: int)
    requires Divides(d, a) && Divides(d, b)
    ensures Divides(d, a + b) && Divides(d, a - b)
  {
    var j :| d * j == a;
    var k :| d * k == b;
    assert d * (j + k) == a + b;
    assert d * (j - k) == a - b;
  }

  lemma DividesProduct(d: int, a: int, b: int)
    requires Divides(d, a)
    ensures Divides(d, a * b) && Divides(d, b * a)
  {
    var j :| d * j == a;
    assert d * (j * b) == (d * j) * b == a * b;
  }

  /** a and b leave the same remainder modulo n. */
  ghost predicate Congruent(a: int, b: int, n: int) {
    Divides(n, a - b)
  }

  lemma CongruentMod(a: int, b: int, n: nat)
    requires n > 0
    ensures Congruent(a, b, n) <==> a % n == b % n
  {
    var qa, qb, r := a / n, b / n, a % n - b % n;
    assert a == n * qa + a % n;
    assert b == n * qb + b % n;
    assert a - b == n * (qa - qb) + r;
    if Congruent(a, b, n) {
      var k :| n * k == a - b;
      assert n * (k - (qa - qb)) == r;
      SmallMultiple(n, k - (qa - qb));
    }
    if r == 0 {
      assert n * (qa - qb) == a - b;
    }
  }

  lemma ModOne(x: nat, n: nat)
    requires n > 1
    ensures x % n == 1 <==> Divides(n, x - 1)
  {
    CongruentMod(x, 1, n);
  }

  lemma CongruentRefl(a: int, n: int)
    ensures Congruent(a, a, n)
  {
    assert n * 0 == a - a;
  }

  lemma CongruentTrans(a: int, b: int, c: int, n: int)
    requires Congruent(a, b, n) && Congruent(b, c, n)
    ensures Congruent(a, c, n)
  {
    DividesSum(n, a - b, b - c);
    assert (a - b) + (b - c) == a - c;
  }

  lemma CongruentAdd(a: int, b: int, c: int, d: int, n: int)
    requires Congruent(a, b, n) && Congruent(c, d, n)
    ensures Congruent(a + c, b + d, n)
  {
    DividesSum(n, a - b, c - d);
    assert (a - b) + (c - d) == (a + c) - (b + d);
  }

  lemma CongruentMul(a: int, b: int, c: int, d: int, n: int)
    requires Congruent(a, b, n) && Congruent(c, d, n)
    ensures Congruent(a * c, b * d, n)
  {
    DividesProduct(n, a - b, c);
    DividesProduct(n, c - d, b);
    DividesSum(n, (a - b) * c, b * (c - d));
    assert (a - b) * c + b * (c - d) == a * c - b * d;
  }

  lemma {:induction false} CongruentPow(a: nat, b: nat, k: nat, n: nat)
    requires Congruent(a, b, n)
    ensures Congruent(Pow(a, k), Pow(b, k), n)
  {
    if k == 0 {
      CongruentRefl(1, n);
    } else {
      CongruentPow(a, b, k - 1, n);
      CongruentMul(a, b, Pow(a, k - 1), Pow(b, k - 1), n);
    }
  }

  // ------------------------------------------------------------------ powers

  lemma {:induction false} PowAdd(b: nat, m: nat, n: nat)
    ensures Pow(b, m + n) == Pow(b, m) * Pow(b, n)
  {
    if m == 0 {
    } else {
      PowAdd(b, m - 1, n);
      assert Pow(b, m + n) == b * Pow(b, m - 1 + n);
      assert b * (Pow(b, m - 1) * Pow(b, n)) == (b * Pow(b, m - 1)) * Pow(b, n);
    }
  }

  lemma {:induction false} PowPow(b: nat, m: nat, n: nat)
    ensures Pow(Pow(b, m), n) == Pow(b, m * n)
  {
    if n == 0 {
      assert m * n == 0;
    } else {
      PowPow(b, m, n - 1);
      assert m * n == m + m * (n - 1);
      PowAdd(b, m, m * (n - 1));
    }
  }

  // ------------------------------------------------------------------ primes

  lemma PrimeHasNoFactor(p: nat, a: nat)
    requires IsPrime(p) && 2 <= a && Divides(a, p)
    ensures a == p
  {
    DividesMod(a, p);
    if a > p {
      NotDividesSmall(a, p);
    }
  }

  // One division step: what divides x and the product behind the quotient divides the rest.
  lemma DividesRemainder(p: int, x: int, y: int, q: int, r: int, b: int)
    requires x == y * q + r
    requires Divides(p, x * b) && Divides(p, (y * b) * q)
    ensures Divides(p, r * b)
  {
    DividesSum(p, x * b, (y * b) * q);
    assert x * b - (y * b) * q == r * b by {
      assert (y * q + r) * b == (y * q) * b + r * b;
      assert (y * q) * b == (y * b) * q;
    }
  }

  /** Euclid's lemma: a prime that divides a product divides a factor. */
  lemma {:induction false} Euclid(p: nat, a: nat, b: int)
    requires IsPrime(p) && Divides(p, a * b)
    ensures Divides(p, a) || Divides(p, b)
    decreases a
  {
    if a >= p {
      var q, r := a / p, a % p;
      assert a == p * q + r;
      DividesBy(p, b);
      DividesProduct(p, p * b, q);
      DividesRemainder(p, a, p, q, r, b);
      Euclid(p, r, b);
      if Divides(p, r) {
        DividesBy(p, q);
        DividesSum(p, p * q, r);
      }
    } else if a == 0 {
      assert p * 0 == a;
    } else if a == 1 {
      assert a * b == b;
    } else {
      var q, r := p / a, p % a;
      assert p == a * q + r;
      DividesBy(p, b);
      DividesProduct(p, a * b, q);
      DividesRemainder(p, p, a, q, r, b);
      Euclid(p, r, b);
      assert p % a != 0;
      NotDividesSmall(p, r);
    }
  }

  lemma {:induction false} PrimeFactor(n: nat) returns (p: nat)
    requires n >= 2
    ensures IsPrime(p) && p <= n && Divides(p, n)
    decreases n
  {
    if IsPrime(n) {
      p := n;
      assert n * 1 == n;
    } else {
      var m :| 2 <= m < n && n % m == 0;
      p := PrimeFactor(m);
      DividesMod(m, n);
      var k :| m * k == n;
      DividesProduct(p, m, k);
    }
  }

  function Factorial(n: nat): (f: nat)
    ensures f >= 1
  {
    if n == 0 then 1 else n * Factorial(n - 1)
  }

  lemma {:induction false} DividesFactorial(d: nat, n: nat)
    requires 1 <= d <= n
    ensures Divides(d, Factorial(n))
  {
    if d == n {
      DividesBy(n, Factorial(n - 1));
    } else {
      DividesFactorial(d, n - 1);
      DividesProduct(d, Factorial(n - 1), n);
    }
  }

  /** There is a prime above every number, so a search for the next prime ends. */
  lemma PrimeAbove(n: nat) returns (p: nat)
    ensures IsPrime(p) && p > n
  {
    p := PrimeFactor(Factorial(n) + 1);
    if p <= n {
      DividesFactorial(p, n);
      DividesSum(p, Factorial(n) + 1, Factorial(n));
      NotDividesSmall(p, 1);
    }
  }

  // ------------------------------------------------------------------ binomials

  function Choose(n: nat, k: nat): nat {
    if k == 0 then 1 else if n == 0 then 0 else Choose(n - 1, k) + Choose(n - 1, k - 1)
  }

  lemma {:induction false} ChooseAbove(n: nat, k: nat)
    requires k > n
    ensures Choose(n, k) == 0
  {
    if n > 0 {
      ChooseAbove(n - 1, k);
      ChooseAbove(n - 1, k - 1);
    }
  }

  lemma {:induction false} ChooseAll(n: nat)
    ensures Choose(n, n) == 1
  {
    if n > 0 {
      ChooseAll(n - 1);
      ChooseAbove(n - 1, n);
    }
  }

  lemma AbsorptionStep(n: int, k: int, a: int, b: int, c: int, e: int)
    requires k * a == (n - 1) * c && (k - 1) * b == (n - 1) * e && b == c + e
    ensures k * (a + b) == n * b
  {
    assert k * (a + b) == k * a + (k - 1) * b + b;
    assert (n - 1) * (c + e) == (n - 1) * c + (n - 1) * e;
  }

  // k * C(n, k) == n * C(n - 1, k - 1)
  lemma {:induction false} Absorption(n: nat, k: nat)
    requires 1 <= n && 1 <= k
    ensures k * Choose(n, k) == n * Choose(n - 1, k - 1)
  {
    if k > n {
      ChooseAbove(n, k);
      ChooseAbove(n - 1, k - 1);
    } else if n == 1 {
      assert Choose(1, 1) == 1;
    } else {
      Absorption(n - 1, k);
      var a, b, c := Choose(n - 1, k), Choose(n - 1, k - 1), Choose(n - 2, k - 1);
      if k == 1 {
        AbsorptionStep(n, k, a, b, c, 0);
      } else {
        Absorption(n - 1, k - 1);
        AbsorptionStep(n, k, a, b, c, Choose(n - 2, k - 2));
      }
    }
  }

  lemma PrimeDividesChoose(p: nat, k: nat)
    requires IsPrime(p) && 1 <= k < p
    ensures Divides(p, Choose(p, k))
  {
    Absorption(p, k);
    DividesBy(p, Choose(p - 1, k - 1));
    Euclid(p, k, Choose(p, k));
    NotDividesSmall(p, k);
  }

  // The sum of C(n, j) * x^j for j = 0..k.
  function BinomialSum(n: nat, x: nat, k: nat): nat {
    Choose(n, k) * Pow(x, k) + if k == 0 then 0 else BinomialSum(n, x, k - 1)
  }

  // The term for j = k + 1 in row n + 1, by Pascal's rule.
  lemma BinomialTerm(n: nat, x: nat, k: nat)
    ensures Choose(n + 1, k + 1) * Pow(x, k + 1)
         == Choose(n, k + 1) * Pow(x, k + 1) + x * (Choose(n, k) * Pow(x, k))
  {
    var c0, c1, w := Choose(n, k), Choose(n, k + 1), Pow(x, k);
    TermArith(c0, c1, x, w);
  }

  lemma TermArith(c0: int, c1: int, x: int, w: int)
    ensures (c1 + c0) * (x * w) == c1 * (x * w) + x * (c0 * w)
  {
    assert c0 * (x * w) == x * (c0 * w);
  }

  lemma {:induction false} BinomialStep(n: nat, x: nat, k: nat)
    ensures BinomialSum(n + 1, x, k + 1) == BinomialSum(n, x, k + 1) + x * BinomialSum(n, x, k)
  {
    BinomialTerm(n, x, k);
    var t := Choose(n, k) * Pow(x, k);
    if k == 0 {
      assert BinomialSum(n + 1, x, 0) == BinomialSum(n, x, 0) == 1;
      assert BinomialSum(n, x, 0) == t;
    } else {
      BinomialStep(n, x, k - 1);
      Distribute(x, t, BinomialSum(n, x, k - 1));
    }
  }

  lemma Distribute(x: int, a: int, b: int)
    ensures x * (a + b) == x * a + x * b
  {
  }

  lemma PowSucc(b: nat, n: nat, s: nat)
    requires Pow(b, n) == s && b >= 1
    ensures Pow(b, n + 1) == s + (b - 1) * s
  {
    assert b * s == s + (b - 1) * s;
  }

  /** The binomial theorem for x + 1. */
  lemma {:induction false} Binomial(n: nat, x: nat)
    ensures Pow(x + 1, n) == BinomialSum(n, x, n)
  {
    if n > 0 {
      Binomial(n - 1, x);
      BinomialStep(n - 1, x, n - 1);
      BinomialTop(n - 1, x);
      PowSucc(x + 1, n - 1, BinomialSum(n - 1, x, n - 1));
    }
  }

  lemma BinomialTop(n: nat, x: nat)
    ensures BinomialSum(n, x, n + 1) == BinomialSum(n, x, n)
  {
    ChooseAbove(n, n + 1);
    assert 0 * Pow(x, n + 1) == 0;
  }

  lemma {:induction false} BinomialPrime(p: nat, x: nat, k: nat)
    requires IsPrime(p) && k < p
    ensures Congruent(BinomialSum(p, x, k), 1, p)
  {
    if k == 0 {
      CongruentRefl(1, p);
    } else {
      BinomialPrime(p, x, k - 1);
      PrimeDividesChoose(p, k);
      DividesProduct(p, Choose(p, k), Pow(x, k));
      DividesSum(p, Choose(p, k) * Pow(x, k), BinomialSum(p, x, k - 1) - 1);
    }
  }

  /** Fermat's little theorem, for every base. */
  lemma {:induction false} Fermat(p: nat, x: nat)
    requires IsPrime(p)
    ensures Congruent(Pow(x, p), x, p)
  {
    if x == 0 {
      CongruentRefl(0, p);
    } else {
      Fermat(p, x - 1);
      Binomial(p, x - 1);
      BinomialPrime(p, x - 1, p - 1);
      ChooseAll(p);
      assert BinomialSum(p, x - 1, p) == Pow(x - 1, p) + BinomialSum(p, x - 1, p - 1);
      CongruentAdd(Pow(x - 1, p), x - 1, BinomialSum(p, x - 1, p - 1), 1, p);
    }
  }

  /** x^(1 + k(p-1)) is x modulo p, also when p divides x. */
  lemma {:induction false} FermatPower(p: nat, x: nat, k: nat)
    requires IsPrime(p)
    ensures Congruent(Pow(x, 1 + k * (p - 1)), x, p)
  {
    if k == 0 {
      assert k * (p - 1) == 0;
      assert Pow(x, 1) == x;
      CongruentRefl(x, p);
    } else {
      FermatPower(p, x, k - 1);
      var m := 1 + (k - 1) * (p - 1);
      assert 1 + k * (p - 1) == m + (p - 1);
      PowAdd(x, m, p - 1);
      CongruentRefl(Pow(x, p - 1), p);
      CongruentMul(Pow(x, m), x, Pow(x, p - 1), Pow(x, p - 1), p);
      Fermat(p, x);
      CongruentTrans(Pow(x, 1 + k * (p - 1)), Pow(x, p), x, p);
    }
  }

  /** Distinct primes that both divide z have a product that divides z. */
  lemma PrimePairDivides(p: nat, q: nat, z: int)
    requires IsPrime(p) && IsPrime(q) && p != q
    requires Divides(p, z) && Divides(q, z)
    ensures Divides(p * q, z)
  {
    var w :| p * w == z;
    Euclid(q, p, w);
    if Divides(q, p) {
      PrimeHasNoFactor(p, q);
    }
    var v :| q * v == w;
    assert (p * q) * v == p * (q * v);
  }

  // ------------------------------------------------------------------ inverses

  /** No number above 1 divides both a and b. */
  ghost predicate Coprime(a: nat, b: nat) {
    forall g: nat :: g > 1 && Divides(g, a) ==> !Divides(g, b)
  }

  // A common divisor of b and a % b divides a.
  lemma CoprimeStep(a: nat, b: nat)
    requires b > 0 && Coprime(a, b)
    ensures Coprime(b, a % b)
  {
    var q, r := a / b, a % b;
    assert a == b * q + r;
    forall g: nat | g > 1 && Divides(g, b) ensures !Divides(g, r) {
      if Divides(g, r) {
        DividesProduct(g, b, q);
        DividesSum(g, b * q, r);
      }
    }
  }

  /** Bezout's identity for coprime numbers, by Euclid's algorithm. */
  lemma {:induction false} Bezout(a: nat, b: nat) returns (x: int, y: int)
    requires Coprime(a, b)
    ensures a * x + b * y == 1
    decreases b
  {
    if b == 0 {
      assert a * 1 == a && 2 * 0 == 0 && a * 0 == 0;
      if a == 0 { assert Divides(2, a); }
      assert Divides(a, a) && Divides(a, b);
      x, y := 1, 0;
    } else {
      CoprimeStep(a, b);
      var x', y' := Bezout(b, a % b);
      x, y := y', x' - (a / b) * y';
    }
  }

  lemma QuotientRemainder(x: int, n: nat) returns (s: int, d: nat)
    requires n > 0
    ensures d < n && d == x - n * s
  {
    s, d := x / n, x % n;
  }

  /** A number coprime to n has an inverse modulo n. */
  lemma CoprimeInvertible(e: nat, n: nat) returns (d: nat)
    requires n > 1 && Coprime(e, n)
    ensures 0 < d < n && (e * d) % n == 1
  {
    var x, y := Bezout(e, n);
    var s;
    s, d := QuotientRemainder(x, n);
    var k := InverseArith(e, n, x, y, s, d);
    InverseFromProduct(e, n, d, k);
  }

  lemma InverseArith(e: int, n: int, x: int, y: int, s: int, d: int) returns (k: int)
    requires e * x + n * y == 1 && d == x - n * s
    ensures e * d - 1 == n * k
  {
    k := -y - e * s;
    calc {
      e * d;
      e * (x - n * s);
      e * x - e * (n * s);
      { assert e * (n * s) == n * (e * s); }
      1 - n * y - n * (e * s);
      { assert n * (-y - e * s) == -(n * y) - n * (e * s); }
      1 + n * k;
    }
  }

  lemma InverseFromProduct(e: nat, n: nat, d: nat, k: int)
    requires n > 1 && e * d - 1 == n * k && d < n
    ensures 0 < d && (e * d) % n == 1
  {
    ModOne(e * d, n);
    if d == 0 {
      ModOne(0, n);
    }
  }

  /** A number with an inverse modulo n is coprime to n. */
  lemma InvertibleCoprime(e: nat, n: nat, d: nat)
    requires n > 1 && (e * d) % n == 1
    ensures Coprime(e, n)
  {
    ModOne(e * d, n);
    forall g: nat | g > 1 && Divides(g, e) ensures !Divides(g, n) {
      if Divides(g, n) {
        NoCommonFactor(g, e, n, d, e * d);
      }
    }
  }

  lemma NoCommonFactor(g: nat, e: nat, n: nat, d: nat, ed: nat)
    requires g > 1 && Divides(g, e) && Divides(g, n) && ed == e * d
    ensures !Divides(n, ed - 1)
  {
    if Divides(n, ed - 1) {
      DividesTrans(g, n, ed - 1);
      DividesProduct(g, e, d);
      DividesSum(g, ed, ed - 1);
      NotDividesSmall(g, 1);
    }
  }

  lemma DividesTrans(a: int, b: int, c: int)
    requires Divides(a, b) && Divides(b, c)
    ensures Divides(a, c)
  {
    var k :| b * k == c;
    DividesProduct(a, b, k);
  }
}
