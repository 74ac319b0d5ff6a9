/**
 util/apollo.go: prime search, RSA key generation, signatures and the base-64 integer codec.
 Big integers are natural numbers; a Go string is a sequence of bytes, written here as chars.
 */
module Apollo {
  import opened Wrappers
  import opened NumberTheory
  import PrimeGap

  const PUBLIC_E: nat := 0x10001
  const CREATE_GIVEUP: nat := 300
  const TEST_MESSAGE: nat := 0x7743

  // ------------------------------------------------------------------ prime search

  /** r is the least odd prime that is at least x. */
  ghost predicate IsNextOddPrime(x: nat, r: nat) {
    && x <= r && r % 2 == 1 && IsPrime(r)
    && forall m: nat :: x <= m < r && m % 2 == 1 ==> !IsPrime(m)
  }

  lemma NextOddPrimeExists(x: nat) returns (p: nat)
    ensures x <= p && p % 2 == 1 && IsPrime(p)
  {
    p := PrimeAbove(x + 2);
    assert p % 2 != 0;
  }

  ghost function NextOddPrime(x: nat): (r: nat)
    ensures r >= x
  {
    NextOddPrimeIsDefined(x);
    var r :| IsNextOddPrime(x, r);
    r
  }

  /** There is exactly one next odd prime. */
  lemma NextOddPrimeIs(x: nat)
    ensures IsNextOddPrime(x, NextOddPrime(x))
    ensures forall r :: IsNextOddPrime(x, r) ==> r == NextOddPrime(x)
  {
    NextOddPrimeIsDefined(x);
  }

  lemma NextOddPrimeIsDefined(x: nat)
    ensures exists r :: IsNextOddPrime(x, r)
  {
    var p := NextOddPrimeExists(x);
    var r := x;
    while !(r % 2 == 1 && IsPrime(r))
      invariant x <= r <= p
      invariant forall m: nat :: x <= m < r && m % 2 == 1 ==> !IsPrime(m)
      decreases p - r
    {
      r := r + 1;
    }
    assert IsNextOddPrime(x, r);
  }

  /** primize: the search ends because there is a prime above every number. */
  method Primize(x: nat) returns (r: nat)
    ensures IsNextOddPrime(x, r) && r == NextOddPrime(x)
  {
    r := x;
    if r % 2 == 0 {
      r := r + 1;
    }
    ghost var p := NextOddPrimeExists(x);
    while !IsPrime(r)
      invariant x <= r <= p && r % 2 == 1
      invariant forall m: nat :: x <= m < r && m % 2 == 1 ==> !IsPrime(m)
      decreases p - r
    {
      r := r + 2;
    }
    NextOddPrimeIs(x);
  }

  // ------------------------------------------------------------------ the primes a search passes

  /** Prime i of a search that starts at x and goes on two above each prime. */
  ghost function NthOddPrime(x: nat, i: nat): (r: nat)
    ensures r >= x
  {
    if i == 0 then NextOddPrime(x) else NextOddPrime(NthOddPrime(x, i - 1) + 2)
  }

  lemma NthIsPrime(x: nat, i: nat)
    ensures IsOddPrime(NthOddPrime(x, i)) && NthOddPrime(x, i) >= 3
  {
    NextOddPrimeIs(if i == 0 then x else NthOddPrime(x, i - 1) + 2);
  }

  /** The product of the first i primes of a search. */
  ghost function Passed(x: nat, i: nat): (r: nat)
    ensures r >= 1
  {
    if i == 0 then 1
    else
      NthIsPrime(x, i - 1);
      PositiveProduct(Passed(x, i - 1), NthOddPrime(x, i - 1));
      Passed(x, i - 1) * NthOddPrime(x, i - 1)
  }

  lemma PositiveProduct(a: nat, b: nat)
    requires a >= 1 && b >= 1
    ensures a * b >= 1
  {
  }

  lemma NextAtMost(x: nat, p: nat)
    requires IsPrime(p) && p % 2 == 1 && x <= p
    ensures NextOddPrime(x) <= p
  {
    NextOddPrimeIs(x);
  }

  ghost predicate IsOddPrime(p: nat) {
    IsPrime(p) && p % 2 == 1
  }

  lemma NextAfter(q: nat, p: nat)
    requires IsOddPrime(p) && IsOddPrime(q) && q < p
    ensures NextOddPrime(q + 2) <= p
  {
    NextAtMost(q + 2, p);
  }

  /** A search misses no prime: one from its start on that it has not passed is still ahead. */
  lemma {:induction false} NothingMissed(x: nat, i: nat, p: nat)
    requires IsOddPrime(p) && x <= p && forall j: nat :: j < i ==> NthOddPrime(x, j) != p
    ensures NthOddPrime(x, i) <= p
  {
    if i == 0 {
      NextAtMost(x, p);
    } else {
      NothingMissed(x, i - 1, p);
      NthIsPrime(x, i - 1);
      NextAfter(NthOddPrime(x, i - 1), p);
    }
  }

  lemma DividesLast(q: nat, r: nat)
    ensures Divides(q, r * q)
  {
    DividesBy(q, r);
    assert q * r == r * q;
  }

  lemma {:induction false} PassedDivides(x: nat, i: nat, j: nat)
    requires j < i
    ensures Divides(NthOddPrime(x, j), Passed(x, i))
  {
    if j == i - 1 {
      DividesLast(NthOddPrime(x, j), Passed(x, j));
    } else {
      PassedDivides(x, i - 1, j);
      DividesProduct(NthOddPrime(x, j), Passed(x, i - 1), NthOddPrime(x, i - 1));
    }
  }

  lemma PowersMultiply(r: nat, q: nat, a: nat, e: nat)
    requires r <= Pow(2, a) && q <= Pow(2, e)
    ensures r * q <= Pow(2, a + e)
  {
    PrimeGap.MulGrows(r, Pow(2, a), q, Pow(2, e));
    PowAdd(2, a, e);
  }

  lemma OneMore(e: nat, i: nat)
    requires i >= 1
    ensures e * (i - 1) + e == e * i
  {
  }

  lemma ExponentGrows(e: nat, i: nat, c: nat)
    requires i < c && e >= 1
    ensures Pow(2, e * i) <= Pow(2, e * c)
  {
    assert e * c == e * i + e * (c - i);
    MulAtLeast(e, c - i);
    PrimeGap.PowGrows(e * i, e * c);
  }

  /** Enough primes for a search that has passed less than c: the next one is below 2^(2t + 2). */
  ghost predicate Roomy(t: nat, c: nat) {
    t >= 1 && (2 * t + 3) * (2 * (t + 1) + c) < Pow(2, t)
  }

  lemma SearchStep(x: nat, t: nat, c: nat, i: nat)
    requires x <= Pow(2, 2 * t) && Roomy(t, c) && Passed(x, i) <= Pow(2, (2 * t + 3) * c)
    ensures NthOddPrime(x, i) < Pow(2, 2 * t + 2)
  {
    var p := PrimeGap.PrimeAvoidingPowers(t, c, Passed(x, i));
    PrimeGap.PowGrows(1, 2 * t);
    OddAboveTwo(p, Pow(2, 2 * t));
    forall j: nat | j < i ensures NthOddPrime(x, j) != p { PassedDivides(x, i, j); }
    NothingMissed(x, i, p);
    NthIsPrime(x, i);
    OddBelow(NthOddPrime(x, i), 2 * t + 2);
  }

  lemma OddBelow(r: nat, e: nat)
    requires r % 2 == 1 && r <= Pow(2, e) && e >= 1
    ensures r < Pow(2, e)
  {
    assert Pow(2, e) == 2 * Pow(2, e - 1);
  }

  lemma OddAboveTwo(p: nat, b: nat)
    requires IsPrime(p) && b >= 2 && p > b
    ensures p % 2 == 1
  {
    assert p % 2 != 0;
  }

  lemma {:induction false} PassedBound(x: nat, i: nat, e: nat)
    requires forall j: nat :: j < i ==> NthOddPrime(x, j) <= Pow(2, e)
    ensures Passed(x, i) <= Pow(2, e * i)
  {
    if i == 0 {
      assert e * 0 == 0;
    } else {
      PassedBound(x, i - 1, e);
      PowersMultiply(Passed(x, i - 1), NthOddPrime(x, i - 1), e * (i - 1), e);
      OneMore(e, i);
    }
  }

  /** The first c primes of a search from at most 2^2t on stay below 2^(2t + 2). */
  lemma {:induction false} SearchBound(x: nat, t: nat, c: nat, i: nat)
    requires x <= Pow(2, 2 * t) && i < c && Roomy(t, c)
    ensures forall j: nat :: j <= i ==> NthOddPrime(x, j) < Pow(2, 2 * t + 2)
  {
    if i > 0 { SearchBound(x, t, c, i - 1); }
    PrimeGap.PowGrows(2 * t + 2, 2 * t + 3);
    PassedBound(x, i, 2 * t + 3);
    ExponentGrows(2 * t + 3, i, c);
    SearchStep(x, t, c, i);
  }

  // ------------------------------------------------------------------ math/big contracts

  /** big.Int.Exp for a non-negative exponent: a zero modulus means no reduction. */
  function Exp(x: nat, y: nat, m: nat): nat {
    if m == 0 then Pow(x, y) else Pow(x, y) % m
  }

  /** With a modulus it is the one number below the modulus that is congruent to the power. */
  lemma ExpIs(x: nat, y: nat, n: nat, m: nat)
    ensures Exp(x, y, n) == m <==> if n == 0 then Pow(x, y) == m else m < n && Congruent(Pow(x, y), m, n)
  {
    if n > 0 { ReducedIs(Pow(x, y), n, m); }
  }

  lemma ReducedIs(z: nat, n: nat, m: nat)
    requires n > 0
    ensures z % n == m <==> m < n && Congruent(z, m, n)
  {
    if m < n { ModOfSmaller(m, n); }
    CongruentMod(z, m, n);
  }

  /** big.Int.ModInverse: None stands for "no inverse". */
  function ModInverse(e: nat, n: nat): (r: Option<nat>)
    requires n > 0
    ensures r.Some? ==> 0 < r.value < n && (e * r.value) % n == 1
    ensures r.None? ==> forall d :: 0 < d < n ==> (e * d) % n != 1
  {
    InverseFrom(e, n, 1)
  }

  function InverseFrom(e: nat, n: nat, start: nat): (r: Option<nat>)
    requires n > 0
    ensures r.Some? ==> start <= r.value < n && (e * r.value) % n == 1
    ensures r.None? ==> forall d :: start <= d < n ==> (e * d) % n != 1
    decreases n - start
  {
    if start >= n then None
    else if (e * start) % n == 1 then Some(start)
    else InverseFrom(e, n, start + 1)
  }

  // ------------------------------------------------------------------ RSA

  // e * d is 1 plus a multiple of phi, so m^(e*d) is m modulo each prime of the pair.
  lemma RsaModPrime(p: nat, phi: nat, k: nat, m: nat, ed: nat)
    requires IsPrime(p) && phi == k * (p - 1) && phi > 1 && ed % phi == 1
    ensures Congruent(Pow(m, ed), m, p)
  {
    var t := ed / phi;
    assert ed == phi * t + 1;
    assert phi * t == (t * k) * (p - 1) by {
      assert (k * (p - 1)) * t == (t * k) * (p - 1);
    }
    FermatPower(p, m, t * k);
  }

  lemma PhiBig(p: nat, q: nat)
    requires IsPrime(p) && IsPrime(q) && p % 2 == 1 && q % 2 == 1
    ensures (p - 1) * (q - 1) > 1 && p * q > 1
  {
    assert p >= 3 && q >= 3;
    MulAtLeast(p - 1, q - 1);
    MulAtLeast(p, q);
  }

  lemma PowerOfReduced(x: nat, y: nat, n: nat)
    requires n > 0
    ensures Pow(x % n, y) % n == Pow(x, y) % n
  {
    CongruentMod(x % n, x, n);
    CongruentPow(x % n, x, y, n);
    CongruentMod(Pow(x % n, y), Pow(x, y), n);
  }

  /** The RSA identity, for every message value: m^(d*e) is m modulo p*q. */
  lemma Rsa(p: nat, q: nat, n: nat, e: nat, d: nat, m: nat)
    requires IsPrime(p) && IsPrime(q) && p != q && p % 2 == 1 && q % 2 == 1 && n == p * q
    requires (e * d) % ((p - 1) * (q - 1)) == 1
    ensures n > 0
    ensures Exp(Exp(m, d, n), e, n) == m % n
    ensures Exp(Exp(m, e, n), d, n) == m % n
  {
    PhiBig(p, q);
    var phi := (p - 1) * (q - 1);
    assert phi == (q - 1) * (p - 1);
    RsaModPrime(p, phi, q - 1, m, e * d);
    RsaModPrime(q, phi, p - 1, m, e * d);
    PrimePairDivides(p, q, Pow(m, e * d) - m);
    CongruentMod(Pow(m, e * d), m, n);
    PowerOfReduced(Pow(m, d), e, n);
    PowerOfReduced(Pow(m, e), d, n);
    PowPow(m, d, e);
    PowPow(m, e, d);
    assert d * e == e * d;
  }

  lemma ModOfSmaller(m: nat, n: nat)
    requires m < n
    ensures m % n == m
  {
  }

  // ------------------------------------------------------------------ key generation

  datatype PrivateKey = PrivateKey(keyN: nat, keyD: nat)

  /** The one-message test of a candidate key. */
  predicate TestPasses(n: nat, d: nat) {
    Exp(Exp(TEST_MESSAGE, PUBLIC_E, n), d, n) == TEST_MESSAGE
  }

  /** key belongs to the primes p and q. */
  ghost predicate KeyOf(key: PrivateKey, p: nat, q: nat) {
    && IsPrime(p) && IsPrime(q) && p % 2 == 1 && q % 2 == 1
    && key.keyN == p * q
    && (PUBLIC_E * key.keyD) % ((p - 1) * (q - 1)) == 1
  }

  /** key was made of prime i of either search, with the inverse of the exponent if there is one. */
  ghost predicate IsCandidate(key: PrivateKey, pSeed: nat, qSeed: nat, i: nat) {
    var p, q := NthOddPrime(pSeed, i), NthOddPrime(qSeed, i);
    && i < CREATE_GIVEUP && key.keyN == p * q && TestPasses(key.keyN, key.keyD)
    && (Coprime(PUBLIC_E, PhiOf(p, q)) ==> KeyOf(key, p, q))
  }

  ghost function Phi(pSeed: nat, qSeed: nat): nat {
    var p: nat, q: nat := NextOddPrime(pSeed) - 1, NextOddPrime(qSeed) - 1;
    p * q
  }

  /** The first two primes differ and the test message lies below their product. */
  ghost predicate DistinctStart(pSeed: nat, qSeed: nat) {
    var p, q := NextOddPrime(pSeed), NextOddPrime(qSeed);
    p != q && TEST_MESSAGE < p * q
  }

  // With two distinct first primes the first candidate that has an inverse passes its test.
  lemma TestAlwaysPasses(p: nat, q: nat, key: PrivateKey)
    requires KeyOf(key, p, q) && p != q && TEST_MESSAGE < key.keyN
    ensures TestPasses(key.keyN, key.keyD)
  {
    PhiBig(p, q);
    Rsa(p, q, key.keyN, PUBLIC_E, key.keyD, TEST_MESSAGE);
    ModOfSmaller(TEST_MESSAGE, key.keyN);
  }

  /** In the program's own numbers: 65537 and the private exponent undo each other modulo p*q, on every message. */
  lemma KeyInverts(key: PrivateKey, p: nat, q: nat, e: nat, m: nat)
    requires KeyOf(key, p, q) && p != q && e == 0x1_0001
    ensures key.keyN == p * q > 0 && (e * key.keyD) % ((p - 1) * (q - 1)) == 1
    ensures Congruent(Pow(Pow(m, key.keyD), e), m, p * q) && Congruent(Pow(Pow(m, e), key.keyD), m, p * q)
  {
    var n, d := key.keyN, key.keyD;
    PhiBig(p, q);
    Rsa(p, q, n, e, d, m);
    PowerOfReduced(Pow(m, d), e, n);
    PowerOfReduced(Pow(m, e), d, n);
    CongruentMod(Pow(Pow(m, d), e), m, n);
    CongruentMod(Pow(Pow(m, e), d), m, n);
  }

  /** A candidate comes from one of the first 300 pairs of primes and decrypts 0x7743, encrypted with 65537. */
  lemma CandidateDecrypts(key: PrivateKey, pSeed: nat, qSeed: nat, i: nat, e: nat, m: nat)
    requires IsCandidate(key, pSeed, qSeed, i) && e == 0x1_0001 && m == 0x7743
    ensures i < 300 && m < key.keyN == NthOddPrime(pSeed, i) * NthOddPrime(qSeed, i)
    ensures Congruent(Pow(Pow(m, e), key.keyD), m, key.keyN)
  {
    var n, d := key.keyN, key.keyD;
    PhiBig(NthOddPrime(pSeed, i), NthOddPrime(qSeed, i));
    ExpIs(Exp(m, e, n), d, n, m);
    PowerOfReduced(Pow(m, e), d, n);
    CongruentMod(Pow(Pow(m, e), d), m, n);
    ModOfSmaller(m, n);
  }

  /**
   What ModInverse leaves in its receiver, whose value was keyD, when there is no inverse modulo phi:
   undefined before Go 1.11, the old value from then on.
   */
  type Leftover = (nat, nat) -> nat

  ghost predicate KeepsReceiver(leftover: Leftover) {
    forall keyD, phi :: leftover(keyD, phi) == keyD
  }

  /**
   newPrivateKey. Whatever is left without an inverse, a key is made of two primes that the searches
   find within their 300 turns and passed the test, and the first two primes give the key if they can.
   With a ModInverse that keeps its receiver there is no key if they cannot: the candidate is tried
   again unchanged, as the primes move on only after a failed test.
   */
  method NewPrivateKey(pSeed: nat, qSeed: nat, leftover: Leftover) returns (key: Option<PrivateKey>)
    ensures key.Some? ==> exists i :: IsCandidate(key.value, pSeed, qSeed, i)
    ensures DistinctStart(pSeed, qSeed) && Coprime(PUBLIC_E, Phi(pSeed, qSeed)) ==>
      key.Some? && KeyOf(key.value, NextOddPrime(pSeed), NextOddPrime(qSeed)) && 0 < key.value.keyD < Phi(pSeed, qSeed)
    ensures DistinctStart(pSeed, qSeed) && !Coprime(PUBLIC_E, Phi(pSeed, qSeed)) && KeepsReceiver(leftover) ==>
      key.None?
  {
    var p, q, keyD := pSeed, qSeed, 0;
    ghost var i: nat := 0;
    for count := 0 to CREATE_GIVEUP
      invariant SearchInv(pSeed, qSeed, leftover, p, q, keyD, i, count)
    {
      key, p, q, keyD, i := Turn(pSeed, qSeed, leftover, p, q, keyD, i, count);
      if key.Some? {
        return key;
      }
    }
    return None;
  }

  /** The searches stand at p and q before turn count, with exponent keyD, and go on to their prime i. */
  ghost predicate SearchInv(pSeed: nat, qSeed: nat, leftover: Leftover, p: nat, q: nat, keyD: nat, i: nat, count: nat) {
    && i <= count && AtPrime(pSeed, p, i) && AtPrime(qSeed, q, i)
    && (count == 0 ==> p == pSeed && q == qSeed && keyD == 0)
    && (DistinctStart(pSeed, qSeed) && count > 0 ==>
          && !Coprime(PUBLIC_E, Phi(pSeed, qSeed))
          && (KeepsReceiver(leftover) ==> p == NextOddPrime(pSeed) && q == NextOddPrime(qSeed) && keyD == 0))
  }

  // One turn of the loop of newPrivateKey.
  method Turn(ghost pSeed: nat, ghost qSeed: nat, leftover: Leftover, pStart: nat, qStart: nat, keyD: nat, ghost i: nat,
      ghost count: nat) returns (key: Option<PrivateKey>, p: nat, q: nat, d: nat, ghost next: nat)
    requires SearchInv(pSeed, qSeed, leftover, pStart, qStart, keyD, i, count) && count < CREATE_GIVEUP
    ensures key.None? ==> SearchInv(pSeed, qSeed, leftover, p, q, d, next, count + 1)
    ensures key.Some? ==> IsCandidate(key.value, pSeed, qSeed, i)
    ensures key.Some? && DistinctStart(pSeed, qSeed) && Coprime(PUBLIC_E, Phi(pSeed, qSeed)) ==>
      0 < key.value.keyD < Phi(pSeed, qSeed) && KeyOf(key.value, NextOddPrime(pSeed), NextOddPrime(qSeed))
    ensures key.Some? && DistinctStart(pSeed, qSeed) && KeepsReceiver(leftover) ==> Coprime(PUBLIC_E, Phi(pSeed, qSeed))
  {
    p, q := PrimizeBoth(pStart, qStart);
    SearchNext(pSeed, p, i);
    SearchNext(qSeed, q, i);
    NextIsFixed(pSeed);
    NextIsFixed(qSeed);
    var keyN, pass;
    keyN, d, pass := Candidate(p, q, keyD, leftover, pSeed, qSeed, i);
    if d == 0 {
      return None, p, q, d, i;
    }
    if pass {
      return Some(PrivateKey(keyN, d)), p, q, d, i;
    }
    return None, p + 2, q + 2, d, i + 1;
  }

  /** A search that stands at p finds prime i of those from x on next. */
  ghost predicate AtPrime(x: nat, p: nat, i: nat) {
    NextOddPrime(p) == NthOddPrime(x, i)
  }

  lemma NextIsFixed(x: nat)
    ensures NextOddPrime(NextOddPrime(x)) == NextOddPrime(x)
  {
    NextOddPrimeIs(x);
    NextOddPrimeIs(NextOddPrime(x));
  }

  lemma SearchNext(x: nat, p: nat, i: nat)
    requires p == NthOddPrime(x, i)
    ensures NextOddPrime(p) == p && AtPrime(x, p, i) && AtPrime(x, p + 2, i + 1)
  {
  }

  method PrimizeBoth(pStart: nat, qStart: nat) returns (p: nat, q: nat)
    ensures p == NextOddPrime(pStart) && q == NextOddPrime(qStart)
  {
    q := Primize(qStart);
    p := Primize(pStart);
  }

  function PhiOf(p: nat, q: nat): nat
    requires p >= 1 && q >= 1
  {
    (p - 1) * (q - 1)
  }

  /** key is what one turn makes of p and q when keyD was the exponent before. */
  ghost predicate IsTried(key: PrivateKey, p: nat, q: nat, keyD: nat, leftover: Leftover)
    requires p >= 1 && q >= 1
  {
    && key.keyN == p * q && PhiOf(p, q) > 1
    && var inverse := ModInverse(PUBLIC_E, PhiOf(p, q));
       key.keyD == if inverse.Some? then inverse.value else leftover(keyD, PhiOf(p, q))
  }

  // The modulus, the exponent and the test of one pair of primes.
  method Candidate(p: nat, q: nat, keyD: nat, leftover: Leftover, ghost pSeed: nat, ghost qSeed: nat, ghost i: nat)
      returns (keyN: nat, d: nat, pass: bool)
    requires i < CREATE_GIVEUP && p == NthOddPrime(pSeed, i) && q == NthOddPrime(qSeed, i)
    ensures pass ==> IsCandidate(PrivateKey(keyN, d), pSeed, qSeed, i)
    ensures DistinctStart(pSeed, qSeed) && p == NextOddPrime(pSeed) && q == NextOddPrime(qSeed) ==>
      if Coprime(PUBLIC_E, Phi(pSeed, qSeed))
      then pass && KeyOf(PrivateKey(keyN, d), p, q) && 0 < d < Phi(pSeed, qSeed)
      else d == leftover(keyD, Phi(pSeed, qSeed))
  {
    PhiBig(p, q);
    var phi := PhiOf(p, q);
    var inverse := ModInverse(PUBLIC_E, phi);
    d := if inverse.Some? then inverse.value else leftover(keyD, phi);
    keyN := p * q;
    var tmp := Exp(TEST_MESSAGE, PUBLIC_E, keyN);
    tmp := Exp(tmp, d, keyN);
    pass := tmp == TEST_MESSAGE;
    MadeOf(PrivateKey(keyN, d), pSeed, qSeed, i, keyD, leftover);
    if DistinctStart(pSeed, qSeed) && p == NextOddPrime(pSeed) && q == NextOddPrime(qSeed) {
      FirstCandidate(PrivateKey(keyN, d), pSeed, qSeed, keyD, leftover);
    }
  }

  lemma MadeOf(key: PrivateKey, pSeed: nat, qSeed: nat, i: nat, keyD: nat, leftover: Leftover)
    requires i < CREATE_GIVEUP
    requires IsTried(key, NthOddPrime(pSeed, i), NthOddPrime(qSeed, i), keyD, leftover)
    ensures TestPasses(key.keyN, key.keyD) ==> IsCandidate(key, pSeed, qSeed, i)
  {
    var phi := PhiOf(NthOddPrime(pSeed, i), NthOddPrime(qSeed, i));
    InverseExactly(phi, ModInverse(PUBLIC_E, phi));
  }

  // The first two primes give a key exactly when the exponent is coprime to phi.
  lemma FirstCandidate(key: PrivateKey, pSeed: nat, qSeed: nat, keyD: nat, leftover: Leftover)
    requires IsTried(key, NextOddPrime(pSeed), NextOddPrime(qSeed), keyD, leftover) && DistinctStart(pSeed, qSeed)
    ensures if Coprime(PUBLIC_E, Phi(pSeed, qSeed))
      then TestPasses(key.keyN, key.keyD) && KeyOf(key, NextOddPrime(pSeed), NextOddPrime(qSeed))
        && 0 < key.keyD < Phi(pSeed, qSeed)
      else key.keyD == leftover(keyD, Phi(pSeed, qSeed))
  {
    var p, q := NextOddPrime(pSeed), NextOddPrime(qSeed);
    assert PhiOf(p, q) == Phi(pSeed, qSeed);
    InverseExactly(PhiOf(p, q), ModInverse(PUBLIC_E, PhiOf(p, q)));
    if Coprime(PUBLIC_E, Phi(pSeed, qSeed)) {
      TestAlwaysPasses(p, q, key);
    }
  }

  /** There is an inverse exactly when the exponent is coprime to phi. */
  lemma InverseExactly(phi: nat, inverse: Option<nat>)
    requires phi > 1 && inverse == ModInverse(PUBLIC_E, phi)
    ensures inverse.Some? <==> Coprime(PUBLIC_E, phi)
  {
    if inverse.Some? {
      InvertibleCoprime(PUBLIC_E, phi, inverse.value);
    } else if Coprime(PUBLIC_E, phi) {
      var d := CoprimeInvertible(PUBLIC_E, phi);
    }
  }
}
