/**
 util/apollo.go: Sign and Verify, the signature primitives of section 5.2 of RFC 8017 over the
 little-endian value of the message and the base-64 codec.
 */
module Signature {
  import opened Wrappers
  import opened NumberTheory
  import PrimeGap
  import opened Apollo
  import opened Codec

  /** The value of a byte string whose first byte is the least significant. */
  function LittleEndian(s: string): nat {
    if s == "" then 0 else s[0] as nat + 256 * LittleEndian(s[1..])
  }

  /** big.Int.SetBytes: the value of a byte string whose first byte is the most significant. */
  function BigEndian(s: string): nat {
    if s == "" then 0 else 256 * BigEndian(s[..|s| - 1]) + s[|s| - 1] as nat
  }

  function Reversed(s: string): (r: string)
    ensures |r| == |s|
  {
    if s == "" then "" else Reversed(s[1..]) + [s[0]]
  }

  lemma {:induction false} ReversedAt(s: string, k: nat)
    requires k < |s|
    ensures Reversed(s)[|s| - k - 1] == s[k]
  {
    if k > 0 { ReversedAt(s[1..], k - 1); }
  }

  lemma {:induction false} BigEndianOfReversed(s: string)
    ensures BigEndian(Reversed(s)) == LittleEndian(s)
  {
    if s != "" {
      BigEndianOfReversed(s[1..]);
      assert Reversed(s)[..|s| - 1] == Reversed(s[1..]);
    }
  }

  /** setBytesReverse: fill a buffer back to front and read it as big-endian. */
  method SetBytesReverse(d: string) returns (b: nat)
    ensures b == LittleEndian(d)
  {
    var buf := new char[|d|](_ => '\0');
    for i := 0 to |d|
      invariant forall k :: 0 <= k < i ==> buf[|d| - k - 1] == d[k]
    {
      buf[|d| - i - 1] := d[i];
    }
    forall j | 0 <= j < |d| ensures buf[j] == Reversed(d)[j] {
      ReversedAt(d, |d| - j - 1);
    }
    assert buf[..] == Reversed(d);
    BigEndianOfReversed(d);
    b := BigEndian(buf[..]);
  }

  /** The signature value of a message: its RSA signature primitive. */
  function SignatureValue(key: PrivateKey, mesg: string): nat {
    Exp(LittleEndian(mesg), key.keyD, key.keyN)
  }

  /** What Verify decides. */
  predicate Verifies(mesg: string, testsig: string, publicKey: string) {
    && |mesg| * 4 <= |publicKey| * 3
    && Exp(Value(testsig), PUBLIC_E, Value(publicKey)) == LittleEndian(mesg)
  }

  method Sign(key: PrivateKey, mesg: string) returns (sig: string)
    ensures sig == Encode(SignatureValue(key, mesg))
  {
    var m := SetBytesReverse(mesg);
    var enc := Exp(m, key.keyD, key.keyN);
    sig := IntToBase64(enc);
  }

  method Verify(mesg: string, testsig: string, publicKey: string) returns (ok: bool)
    ensures ok <==> Verifies(mesg, testsig, publicKey)
  {
    if |mesg| * 4 > |publicKey| * 3 {
      return false;
    }
    var m := SetBytesReverse(mesg);
    var n := Base64ToInt(publicKey);
    var intSig := Base64ToInt(testsig);
    var decrypted := Exp(intSig, PUBLIC_E, n);
    return decrypted == m;
  }

  /**
   The decision in the program's own numbers: the 65537th power of the signature is the message modulo
   the public key, whose value exceeds the message, or is the message itself for a key of value 0.
   */
  lemma VerifiesExactly(mesg: string, testsig: string, publicKey: string, e: nat)
    requires e == 0x1_0001
    ensures var m, s, n := LittleEndian(mesg), Value(testsig), Value(publicKey);
      Verifies(mesg, testsig, publicKey) <==>
        |mesg| * 4 <= |publicKey| * 3 && if n == 0 then Pow(s, e) == m else m < n && Congruent(Pow(s, e), m, n)
  {
    var m, s, n: nat := LittleEndian(mesg), Value(testsig), Value(publicKey);
    ExpIs(s, e, n, m);
  }

  /** The codec carries n: the padding it prints after n decodes to 0. */
  predicate Carried(n: nat) {
    PadDigit(|Digits64(n)|) == 0
  }

  /**
   Verify accepts what Sign made exactly when the message fits the length guard, its value is below
   the modulus and the codec carries the signature, for every key of two distinct odd primes whose
   modulus the codec carries.
   */
  lemma SignThenVerify(key: PrivateKey, p: nat, q: nat, mesg: string)
    requires KeyOf(key, p, q) && p != q && Carried(key.keyN)
    ensures Verifies(mesg, Encode(SignatureValue(key, mesg)), Encode(key.keyN))
       <==> |mesg| * 4 <= |Encode(key.keyN)| * 3 && LittleEndian(mesg) < key.keyN && Carried(SignatureValue(key, mesg))
  {
    var m, n, s := LittleEndian(mesg), key.keyN, SignatureValue(key, mesg);
    RoundTripExactly(n);
    RoundTripExactly(s);
    PhiBig(p, q);
    Rsa(p, q, n, PUBLIC_E, key.keyD, m);
    if m < n { ModOfSmaller(m, n); }
    if Exp(Value(Encode(s)), PUBLIC_E, n) == m {
      AcceptedIsCarried(key, p, q, m, s, Value(Encode(s)));
    }
  }

  // A value that Verify accepts for the message m is the signature s modulo n.
  lemma AcceptedIsCarried(key: PrivateKey, p: nat, q: nat, m: nat, s: nat, v: nat)
    requires KeyOf(key, p, q) && p != q
    requires s == Exp(m, key.keyD, key.keyN) && v == Value(Encode(s)) && Exp(v, PUBLIC_E, key.keyN) == m
    ensures Carried(s)
  {
    var n, len := key.keyN, |Digits64(s)|;
    PhiBig(p, q);
    Rsa(p, q, n, PUBLIC_E, key.keyD, v);
    ModOfSmaller(s, n);
    CongruentMod(v, s, n);
    DecodeEncode(s);
    assert Divides(n, Pow(64, len) * PadDigit(len));
    DivisorOfPad(p, q, n, len);
    if n < 64 {
      ShortIsCarried(s);
    }
  }

  /** n is odd, so it can divide the value of a padding digit only if that is 0. */
  lemma DivisorOfPad(p: nat, q: nat, n: nat, len: nat)
    requires IsPrime(p) && IsPrime(q) && p != q && p % 2 == 1 && q % 2 == 1 && n == p * q
    requires Divides(n, Pow(64, len) * PadDigit(len))
    ensures n >= 64 ==> PadDigit(len) == 0
  {
    var z := Pow(64, len) * PadDigit(len);
    DividesBy(p, q);
    DividesBy(q, p);
    assert q * p == n;
    DividesTrans(p, n, z);
    DividesTrans(q, n, z);
    OddPrimeDividesRest(p, len, PadDigit(len));
    OddPrimeDividesRest(q, len, PadDigit(len));
    PrimePairDivides(p, q, PadDigit(len));
    if n >= 64 && PadDigit(len) > 0 {
      NotDividesSmall(n, PadDigit(len));
    }
  }

  lemma {:induction false} OddPrimeDividesRest(p: nat, k: nat, d: nat)
    requires IsPrime(p) && p % 2 == 1 && Divides(p, Pow(64, k) * d)
    ensures Divides(p, d)
  {
    if k == 0 {
      assert Pow(64, 0) * d == d;
    } else {
      assert Pow(64, k) * d == 64 * (Pow(64, k - 1) * d);
      Euclid(p, 64, Pow(64, k - 1) * d);
      if Divides(p, 64) { OddPrimeNot64(p); }
      OddPrimeDividesRest(p, k - 1, d);
    }
  }

  lemma OddPrimeNot64(p: nat)
    requires IsPrime(p) && p % 2 == 1
    ensures !Divides(p, 64)
  {
    NotDividesSmall(p, 2);
    if Divides(p, 64) {
      Euclid(p, 8, 8);
      Euclid(p, 2, 4);
      Euclid(p, 2, 2);
    }
  }

  /** A number of at most one digit is carried. */
  lemma ShortIsCarried(s: nat)
    requires s < 64
    ensures Carried(s)
  {
    assert s / 64 == 0;
    assert |Digits64(s)| <= 1;
    assert PadByte(0) == 214 && PadByte(1) == 149;
  }

  // ------------------------------------------------------------------ a signature that is not carried

  /** The bytes of n, the least significant first. */
  function Bytes(n: nat): (s: string)
    ensures forall i :: 0 <= i < |s| ==> s[i] as nat < 256
    ensures LittleEndian(s) == n
  {
    if n == 0 then ""
    else
      var s := [(n % 256) as char] + Bytes(n / 256);
      assert s[1..] == Bytes(n / 256);
      s
  }

  lemma {:induction false} BytesCount(n: nat, k: nat)
    requires n < Pow(256, k)
    ensures |Bytes(n)| <= k
  {
    if n > 0 {
      assert k > 0;
      assert n == 256 * (n / 256) + n % 256;
      assert Pow(256, k) == 256 * Pow(256, k - 1);
      BytesCount(n / 256, k - 1);
    }
  }

  /** The bytes of a number below the modulus always fit the length guard. */
  lemma BytesFit(m: nat, n: nat)
    requires m < n
    ensures |Bytes(m)| * 4 <= |Encode(n)| * 3
  {
    var len := |Digits64(n)|;
    var k := (3 * len + 3) / 4;
    DigitCount(n, len);
    PowPow(2, 6, len);
    PowPow(2, 8, k);
    assert Pow(2, 6) == 64 && Pow(2, 8) == 256;
    if 6 * len < 8 * k { PrimeGap.PowGrows(6 * len, 8 * k); }
    BytesCount(m, k);
  }

  /**
   Such messages exist: for every key that the codec carries and that has 82 digits or more Sign signs a message,
   within the length guard and below the modulus, that Verify then rejects.
   */
  lemma SomeSignatureIsRejected(key: PrivateKey, p: nat, q: nat) returns (mesg: string)
    requires KeyOf(key, p, q) && p != q && Carried(key.keyN) && Pow(64, 81) <= key.keyN
    ensures |mesg| * 4 <= |Encode(key.keyN)| * 3 && LittleEndian(mesg) < key.keyN
    ensures !Verifies(mesg, Encode(SignatureValue(key, mesg)), Encode(key.keyN))
  {
    var s := Pow(64, 80);
    PowPositive(64, 80);
    assert Pow(64, 81) == 64 * s;
    var m := Exp(s, PUBLIC_E, key.keyN);
    mesg := Bytes(m);
    BytesFit(m, key.keyN);
    Rsa(p, q, key.keyN, PUBLIC_E, key.keyD, s);
    ModOfSmaller(s, key.keyN);
    RoundTripInRange(s);
    RoundTripExactly(s);
    SignThenVerify(key, p, q, mesg);
  }

  /** In particular for a modulus and a signature of 82 to 86 digits. */
  lemma SignThenVerifyInRange(key: PrivateKey, p: nat, q: nat, mesg: string)
    requires KeyOf(key, p, q) && p != q
    requires Pow(2, 486) <= key.keyN < Pow(2, 516)
    requires Pow(2, 486) <= SignatureValue(key, mesg)
    requires |mesg| * 4 <= |Encode(key.keyN)| * 3 && LittleEndian(mesg) < key.keyN
    ensures Verifies(mesg, Encode(SignatureValue(key, mesg)), Encode(key.keyN))
  {
    RangeInBits(81);
    RangeInBits(86);
    InRangeIsCarried(key.keyN);
    assert SignatureValue(key, mesg) < key.keyN;
    InRangeIsCarried(SignatureValue(key, mesg));
    SignThenVerify(key, p, q, mesg);
  }

  lemma InRangeIsCarried(n: nat)
    requires Pow(64, 81) <= n < Pow(64, 86)
    ensures Carried(n)
  {
    RoundTripInRange(n);
    RoundTripExactly(n);
  }

  // ------------------------------------------------------------------ keys from a pass phrase

  /** big.Int.SetBit(x, i, 1). */
  function SetBit(x: nat, i: nat): (r: nat)
    ensures r == x || r == x + Pow(2, i)
    ensures r >= Pow(2, i)
  {
    PowPositive(2, i);
    if (x / Pow(2, i)) % 2 == 1 then BitBelow(x, Pow(2, i)); x else x + Pow(2, i)
  }

  lemma BitBelow(x: nat, w: nat)
    requires w > 0 && (x / w) % 2 == 1
    ensures x >= w
  {
    assert x == w * (x / w) + x % w;
    MulAtLeast(w, x / w);
  }

  lemma DivUnique(x: nat, w: nat, q: nat, r: nat)
    requires w > 0 && r < w && x == w * q + r
    ensures x / w == q && x % w == r
  {
    QuotientUnique(w, x / w, q, x % w, r);
  }

  lemma QuotientUnique(w: nat, a: int, b: int, c: nat, d: nat)
    requires w > 0 && c < w && d < w && w * a + c == w * b + d
    ensures a == b && c == d
  {
    assert w * (a - b) == d - c;
    SmallMultiple(w, a - b);
  }

  /** Dividing by a product is dividing twice. */
  lemma DivTwice(x: nat, v: nat, w: nat)
    requires v > 0 && w > 0
    ensures v * w > 0 && x / (v * w) == (x / v) / w
  {
    var y, r := x / v, x % v;
    var q, t := y / w, y % w;
    assert x == v * y + r && y == w * q + t;
    PrimeGap.MulGrows(1, v, 1, w);
    PrimeGap.MulGrows(v, v, t, w - 1);
    assert v * (w - 1) == v * w - v;
    assert v * y == v * (w * q) + v * t;
    assert v * (w * q) == (v * w) * q;
    DivUnique(x, v * w, q, v * t + r);
  }

  lemma DivPlus(x: nat, w: nat, m: nat)
    requires w > 0
    ensures (x + w * m) / w == x / w + m && (x + w * m) % w == x % w
  {
    assert x == w * (x / w) + x % w;
    assert w * (x / w) + w * m == w * (x / w + m);
    DivUnique(x + w * m, w, x / w + m, x % w);
  }

  /** SetBit sets bit i and leaves the bits below and above it alone. */
  lemma SetBitExactly(x: nat, i: nat)
    ensures Pow(2, i) > 0 && Pow(2, i + 1) > 0
    ensures (SetBit(x, i) / Pow(2, i)) % 2 == 1
    ensures SetBit(x, i) % Pow(2, i) == x % Pow(2, i) && SetBit(x, i) / Pow(2, i + 1) == x / Pow(2, i + 1)
  {
    var w := Pow(2, i);
    PowPositive(2, i);
    PowPositive(2, i + 1);
    assert Pow(2, i + 1) == w * 2;
    DivPlus(x, w, 1);
    DivTwice(x, w, 2);
    DivTwice(x + w, w, 2);
  }

  // ------------------------------------------------------------------ the bytes of a seed

  /** Byte k of n. */
  function ByteOf(n: nat, k: nat): nat {
    PowPositive(256, k);
    (n / Pow(256, k)) % 256
  }

  /** The bytes of a text are those of its little-endian value. */
  lemma {:induction false} ByteOfText(s: string, k: nat)
    requires k < |s| && forall i :: 0 <= i < |s| ==> s[i] as nat < 256
    ensures ByteOf(LittleEndian(s), k) == s[k] as nat
  {
    var m := LittleEndian(s[1..]);
    DivPlus(s[0] as nat, 256, m);
    if k > 0 {
      ByteOfText(s[1..], k - 1);
      PowPositive(256, k - 1);
      DivTwice(LittleEndian(s), 256, Pow(256, k - 1));
    }
  }

  lemma PowerOfBit(j: nat)
    ensures Pow(256, j) > 0 && Pow(2, 8 * j + 7) == Pow(256, j) * 128
  {
    PowPow(2, 8, j);
    PowAdd(2, 8 * j, 7);
    assert Pow(2, 8) == 256 && Pow(2, 7) == 128;
    PowPositive(256, j);
  }

  lemma HighBitOf(x: nat, p: nat)
    requires p > 0
    ensures p * 128 > 0 && ((x / (p * 128)) % 2 == 1 <==> (x / p) % 256 >= 128)
  {
    DivTwice(x, p, 128);
    HighBit(x / p);
  }

  lemma BitOfByte(x: nat, j: nat)
    ensures Pow(256, j) > 0 && Pow(2, 8 * j + 7) == Pow(256, j) * 128
    ensures (x / (Pow(256, j) * 128)) % 2 == 1 <==> ByteOf(x, j) >= 128
  {
    PowerOfBit(j);
    HighBitOf(x, Pow(256, j));
  }

  lemma HighBit(y: nat)
    ensures (y / 128) % 2 == 1 <==> y % 256 >= 128
    ensures y % 256 < 128 ==> (y + 128) % 256 == y % 256 + 128 && (y + 128) / 256 == y / 256
  {
  }

  /** Setting the high bit of byte j changes that byte only. */
  lemma SetBitByte(x: nat, j: nat, k: nat)
    ensures ByteOf(SetBit(x, 8 * j + 7), k)
         == if k == j && ByteOf(x, j) < 128 then ByteOf(x, j) + 128 else ByteOf(x, k)
  {
    BitOfByte(x, j);
    if ByteOf(x, j) < 128 {
      PlusHighBit(x, j, k);
    }
  }

  lemma PlusHighBit(x: nat, j: nat, k: nat)
    requires ByteOf(x, j) < 128
    ensures ByteOf(x + Pow(256, j) * 128, k) == if k == j then ByteOf(x, j) + 128 else ByteOf(x, k)
  {
    if k == j {
      PowPositive(256, j);
      SameByte(x, Pow(256, j), x + Pow(256, j) * 128);
    } else if k < j {
      ByteBelow(x, j, k, x + Pow(256, j) * 128);
    } else {
      ByteAbove(x, j, k, x + Pow(256, j) * 128);
    }
  }

  lemma SameByte(x: nat, p: nat, y: nat)
    requires p > 0 && (x / p) % 256 < 128 && y == x + p * 128
    ensures (y / p) % 256 == (x / p) % 256 + 128
  {
    HighBit(x / p);
    DivPlus(x, p, 128);
  }

  lemma ByteBelow(x: nat, j: nat, k: nat, y: nat)
    requires k < j && y == x + Pow(256, j) * 128
    ensures ByteOf(y, k) == ByteOf(x, k)
  {
    Power256Split(k, j);
    LowerByte(x, Pow(256, k), Pow(256, j - k - 1), y);
  }

  lemma ByteAbove(x: nat, j: nat, k: nat, y: nat)
    requires k > j && ByteOf(x, j) < 128 && y == x + Pow(256, j) * 128
    ensures ByteOf(y, k) == ByteOf(x, k)
  {
    Power256Split(j, k);
    PowPositive(256, k);
    UpperByte(x, Pow(256, j), Pow(256, k - j - 1), y, Pow(256, k));
  }

  lemma Power256Split(j: nat, k: nat)
    requires j < k
    ensures Pow(256, k) == Pow(256, j) * (256 * Pow(256, k - j - 1)) && Pow(256, j) > 0 && Pow(256, k - j - 1) > 0
  {
    PowAdd(256, j, k - j);
    PowPositive(256, j);
    PowPositive(256, k - j - 1);
  }

  lemma LowerByte(x: nat, a: nat, q: nat, y: nat)
    requires a > 0 && y == x + (a * (256 * q)) * 128
    ensures (y / a) % 256 == (x / a) % 256
  {
    assert (a * (256 * q)) * 128 == a * (256 * (q * 128));
    DivPlus(x, a, 256 * (q * 128));
    DivPlus(x / a, 256, q * 128);
  }

  lemma UpperByte(x: nat, p: nat, q: nat, y: nat, z: nat)
    requires p > 0 && q > 0 && (x / p) % 256 < 128 && y == x + p * 128 && z == p * (256 * q) && z > 0
    ensures y / z == x / z
  {
    HighBit(x / p);
    DivPlus(x, p, 128);
    Above(x, p, q);
    Above(y, p, q);
  }

  lemma Above(x: nat, p: nat, q: nat)
    requires p > 0 && q > 0
    ensures p * (256 * q) > 0 && x / (p * (256 * q)) == ((x / p) / 256) / q
  {
    DivTwice(x, p, 256 * q);
    DivTwice(x / p, 256, q);
  }

  lemma {:induction false} LittleEndianBound(s: string)
    requires forall i :: 0 <= i < |s| ==> s[i] as nat < 256
    ensures LittleEndian(s) < Pow(256, |s|)
  {
    if s != "" {
      LittleEndianBound(s[1..]);
      assert Pow(256, |s|) == 256 * Pow(256, |s| - 1);
    }
  }

  /** The 64 hash bytes behind a pass phrase. */
  function SeedBytes(md5sum: string -> string, keystr: string): string {
    md5sum(keystr) + md5sum(keystr + "pad1") + md5sum(keystr + "pad2") + md5sum(keystr + "pad3")
  }

  /** md5.Sum gives 16 bytes. */
  ghost predicate IsMd5sum(md5sum: string -> string) {
    forall s :: |md5sum(s)| == 16 && forall i :: 0 <= i < 16 ==> md5sum(s)[i] as nat < 256
  }

  function PSeed(md5sum: string -> string, keystr: string): nat
    requires |SeedBytes(md5sum, keystr)| == 64
  {
    SetBit(LittleEndian(SeedBytes(md5sum, keystr)[0..28]), 215)
  }

  function QSeed(md5sum: string -> string, keystr: string): nat
    requires |SeedBytes(md5sum, keystr)| == 64
  {
    SetBit(LittleEndian(SeedBytes(md5sum, keystr)[28..64]), 279)
  }

  lemma {:induction false} SetBitBound(x: nat, i: nat, e: nat)
    requires x < Pow(2, e) && i < e
    ensures SetBit(x, i) < Pow(2, e)
  {
    var w, k := Pow(2, i), Pow(2, e - i - 1);
    PowPositive(2, i);
    PowAdd(2, i, e - i);
    assert Pow(2, e) == w * (2 * k);
    if SetBit(x, i) != x {
      EvenQuotient(x, w, k);
    }
  }

  lemma EvenQuotient(x: nat, w: nat, k: nat)
    requires w > 0 && x < w * (2 * k) && (x / w) % 2 != 1
    ensures x + w < w * (2 * k)
  {
    var d := x / w;
    assert x == w * d + x % w;
    if d >= 2 * k {
      PrimeGap.MulGrows(w, w, 2 * k, d);
    }
    PrimeGap.MulGrows(w, w, d + 2, 2 * k);
    assert w * (d + 2) == w * d + 2 * w;
  }

  /** The seeds of a pass phrase: 28 bytes with bit 215 set, and 36 bytes with bit 279 set. */
  ghost predicate AreSeeds(p: nat, q: nat) {
    Pow(2, 215) <= p < Pow(2, 224) && Pow(2, 279) <= q < Pow(2, 288)
  }

  lemma SeedsOfBytes(x: nat, y: nat)
    requires x < Pow(256, 28) && y < Pow(256, 36)
    ensures AreSeeds(SetBit(x, 215), SetBit(y, 279))
  {
    assert Pow(2, 8) == 256;
    PowPow(2, 8, 28);
    PowPow(2, 8, 36);
    SetBitBound(x, 215, 224);
    SetBitBound(y, 279, 288);
  }

  lemma SeedsOfPassPhrase(md5sum: string -> string, keystr: string)
    requires IsMd5sum(md5sum)
    ensures |SeedBytes(md5sum, keystr)| == 64 && AreSeeds(PSeed(md5sum, keystr), QSeed(md5sum, keystr))
  {
    var seedbuf := SeedBytes(md5sum, keystr);
    LittleEndianBound(seedbuf[0..28]);
    LittleEndianBound(seedbuf[28..64]);
    SeedsOfBytes(LittleEndian(seedbuf[0..28]), LittleEndian(seedbuf[28..64]));
  }

  /** Byte k of the four digests behind a pass phrase. */
  function DigestByte(md5sum: string -> string, keystr: string, k: nat): nat
    requires k < 64 && forall s :: |md5sum(s)| == 16
  {
    if k < 16 then md5sum(keystr)[k] as nat
    else if k < 32 then md5sum(keystr + "pad1")[k - 16] as nat
    else if k < 48 then md5sum(keystr + "pad2")[k - 32] as nat
    else md5sum(keystr + "pad3")[k - 48] as nat
  }

  /**
   The seeds hold the 64 digest bytes, 28 in the first and 36 in the second, least significant first.
   Only the high bits of the byte before the last of each, bytes 26 and 34, are set as well.
   */
  lemma SeedsHoldDigests(md5sum: string -> string, keystr: string, k: nat)
    requires IsMd5sum(md5sum) && k < 64
    ensures |SeedBytes(md5sum, keystr)| == 64
    ensures var b := DigestByte(md5sum, keystr, k);
      var seed := if k < 28 then ByteOf(PSeed(md5sum, keystr), k) else ByteOf(QSeed(md5sum, keystr), k - 28);
      seed == if (k == 26 || k == 62) && b < 128 then b + 128 else b
  {
    var s := SeedBytes(md5sum, keystr);
    assert s[k] as nat == DigestByte(md5sum, keystr, k);
    if k < 28 {
      ByteOfText(s[0..28], k);
      SetBitByte(LittleEndian(s[0..28]), 26, k);
    } else {
      ByteOfText(s[28..64], k - 28);
      SetBitByte(LittleEndian(s[28..64]), 34, k - 28);
    }
  }

  lemma SearchesAreRoomy()
    ensures Roomy(112, CREATE_GIVEUP) && Roomy(144, CREATE_GIVEUP)
  {
    PowAdd(2, 9, 9);
    PrimeGap.PowGrows(18, 112);
    PrimeGap.PowGrows(18, 144);
  }

  /** The primes that both searches find in their 300 turns: far apart, and with a product below 2^516. */
  lemma SeedPrimes(pSeed: nat, qSeed: nat, i: nat)
    requires AreSeeds(pSeed, qSeed) && i < CREATE_GIVEUP
    ensures NthOddPrime(pSeed, i) < NthOddPrime(qSeed, i)
    ensures Pow(2, 494) <= NthOddPrime(pSeed, i) * NthOddPrime(qSeed, i) < Pow(2, 516)
  {
    SearchesAreRoomy();
    SearchBound(pSeed, 112, CREATE_GIVEUP, i);
    SearchBound(qSeed, 144, CREATE_GIVEUP, i);
    PrimeGap.PowGrows(226, 279);
    ProductOfPowers(NthOddPrime(pSeed, i), NthOddPrime(qSeed, i), 215, 279, 226, 290);
  }

  lemma ProductOfPowers(p: nat, q: nat, a: nat, b: nat, c: nat, d: nat)
    requires Pow(2, a) <= p < Pow(2, c) && Pow(2, b) <= q < Pow(2, d)
    ensures Pow(2, a + b) <= p * q < Pow(2, c + d)
  {
    PowAdd(2, a, b);
    PowAdd(2, c, d);
    PrimeGap.MulGrows(Pow(2, a), p, Pow(2, b), q);
    PowPositive(2, a);
    PrimeGap.MulBelow(p, Pow(2, c), q, Pow(2, d));
  }

  /** Every key of a pass phrase has 83 to 86 digits, so the codec carries it. */
  lemma PassPhraseKeyIsCarried(key: PrivateKey, pSeed: nat, qSeed: nat, i: nat)
    requires AreSeeds(pSeed, qSeed) && IsCandidate(key, pSeed, qSeed, i)
    ensures Pow(2, 494) <= key.keyN < Pow(2, 516) && Carried(key.keyN)
    ensures Pow(64, 81) <= key.keyN < Pow(64, 86)
  {
    SeedPrimes(pSeed, qSeed, i);
    RangeInBits(81);
    RangeInBits(86);
    PrimeGap.PowGrows(486, 494);
    InRangeIsCarried(key.keyN);
  }

  /**
   MakePrivateKey: a pass phrase has a key, the one of its first two primes, if the public exponent
   is coprime to phi of those, and with a ModInverse that keeps its receiver only if. Every key that
   is returned, whatever ModInverse leaves, survives the codec.
   */
  method MakePrivateKey(md5sum: string -> string, keystr: string, leftover: Leftover) returns (key: Option<PrivateKey>)
    requires IsMd5sum(md5sum)
    ensures |SeedBytes(md5sum, keystr)| == 64
    ensures key.Some? ==> exists i :: IsCandidate(key.value, PSeed(md5sum, keystr), QSeed(md5sum, keystr), i)
    ensures key.Some? ==> Pow(2, 494) <= key.value.keyN < Pow(2, 516) && Carried(key.value.keyN)
    ensures var p, q := PSeed(md5sum, keystr), QSeed(md5sum, keystr);
      if Coprime(PUBLIC_E, Phi(p, q))
      then key.Some? && KeyOf(key.value, NextOddPrime(p), NextOddPrime(q)) && NextOddPrime(p) != NextOddPrime(q)
      else KeepsReceiver(leftover) ==> key.None?
  {
    SeedsOfPassPhrase(md5sum, keystr);
    var seedbuf := SeedBytes(md5sum, keystr);
    var pSeed := SetBytesReverse(seedbuf[0..28]);
    var qSeed := SetBytesReverse(seedbuf[28..64]);
    pSeed := SetBit(pSeed, 215);
    qSeed := SetBit(qSeed, 279);
    SeedsAreFar(pSeed, qSeed);
    key := NewPrivateKey(pSeed, qSeed, leftover);
    if key.Some? {
      ghost var i :| IsCandidate(key.value, pSeed, qSeed, i);
      PassPhraseKeyIsCarried(key.value, pSeed, qSeed, i);
    }
  }

  /**
   Verify accepts what a pass phrase signs exactly when the message fits the length guard, is below
   the modulus and has a signature that the codec carries, for every key made with an inverse.
   */
  lemma PassPhraseSignThenVerify(md5sum: string -> string, keystr: string, key: PrivateKey, i: nat, mesg: string)
    requires IsMd5sum(md5sum) && |SeedBytes(md5sum, keystr)| == 64
    requires IsCandidate(key, PSeed(md5sum, keystr), QSeed(md5sum, keystr), i)
    requires Coprime(PUBLIC_E,
      PhiOf(NthOddPrime(PSeed(md5sum, keystr), i), NthOddPrime(QSeed(md5sum, keystr), i)))
    ensures Verifies(mesg, Encode(SignatureValue(key, mesg)), Encode(key.keyN))
       <==> |mesg| * 4 <= |Encode(key.keyN)| * 3 && LittleEndian(mesg) < key.keyN && Carried(SignatureValue(key, mesg))
  {
    var p, q := PSeed(md5sum, keystr), QSeed(md5sum, keystr);
    SeedsOfPassPhrase(md5sum, keystr);
    SeedPrimes(p, q, i);
    PassPhraseKeyIsCarried(key, p, q, i);
    SignThenVerify(key, NthOddPrime(p, i), NthOddPrime(q, i), mesg);
  }

  /** The first primes of a pass phrase differ, and the test message lies below their product. */
  lemma SeedsAreFar(p: nat, q: nat)
    requires AreSeeds(p, q)
    ensures DistinctStart(p, q)
  {
    SeedPrimes(p, q, 0);
    PowAdd(2, 8, 7);
    PrimeGap.PowGrows(15, 494);
  }
}
