/**
 util/apollo.go: the little-endian base-64 integer codec. The alphabet is that of section 4 of
 RFC 4648; the digit order and the padding are the program's own. A byte is a char below 256.
 */
module Codec {
  import opened NumberTheory

  // ------------------------------------------------------------------ the two tables

  /** base64en: A-Z, a-z, 0-9, '+', '/'. */
  function En(d: nat): char
    requires d < 64
  {
    if d < 26 then 'A' + d as char
    else if d < 52 then 'a' + (d - 26) as char
    else if d < 62 then '0' + (d - 52) as char
    else if d == 62 then '+'
    else '/'
  }

  /** base64de: alphabet characters have their index, every other byte has 0. */
  function De(c: char): (d: nat)
    ensures d < 64
  {
    if 'A' <= c <= 'Z' then (c - 'A') as nat
    else if 'a' <= c <= 'z' then (c - 'a') as nat + 26
    else if '0' <= c <= '9' then (c - '0') as nat + 52
    else if c == '+' then 62
    else if c == '/' then 63
    else 0
  }

  /** The decode table inverts the alphabet, and 'A' is the only alphabet character for 0. */
  lemma TablesAgree(d: nat, c: char)
    requires d < 64
    ensures De(En(d)) == d
    ensures De(c) == d && d != 0 ==> c == En(d)
  {
  }

  // ------------------------------------------------------------------ digits

  /** The digits of n, least significant first, without a leading zero digit. */
  function Digits64(n: nat): string {
    if n == 0 then "" else [En(n % 64)] + Digits64(n / 64)
  }

  /** Positional value of a string, least significant character first. */
  function Value(s: string): nat {
    if s == "" then 0 else De(s[0]) + 64 * Value(s[1..])
  }

  lemma {:induction false} ValueOfDigits(n: nat)
    ensures Value(Digits64(n)) == n
  {
    if n > 0 {
      ValueOfDigits(n / 64);
      TablesAgree(n % 64, 'A');
      assert Digits64(n)[1..] == Digits64(n / 64);
    }
  }

  lemma {:induction false} ValueOfConcat(a: string, b: string)
    ensures Value(a + b) == Value(a) + Pow(64, |a|) * Value(b)
  {
    if a == "" {
      assert a + b == b;
    } else {
      ValueOfConcat(a[1..], b);
      assert (a + b)[1..] == a[1..] + b;
      ShiftArith(Value(a[1..]), Pow(64, |a| - 1), Value(b));
    }
  }

  lemma ShiftArith(x: int, w: int, v: int)
    ensures 64 * (x + w * v) == 64 * x + (64 * w) * v
  {
  }

  lemma {:induction false} PowPositive(b: nat, k: nat)
    requires b > 0
    ensures Pow(b, k) > 0
  {
    if k > 0 {
      PowPositive(b, k - 1);
      MulAtLeast(b, Pow(b, k - 1));
    }
  }

  /** The number of digits: n has k digits exactly when 64^(k-1) <= n < 64^k. */
  lemma {:induction false} DigitCount(n: nat, k: nat)
    ensures |Digits64(n)| <= k <==> n < Pow(64, k)
  {
    PowPositive(64, k);
    if k > 0 && n > 0 {
      DigitCount(n / 64, k - 1);
      assert n == 64 * (n / 64) + n % 64;
      assert Pow(64, k) == 64 * Pow(64, k - 1);
    }
  }

  // ------------------------------------------------------------------ padding

  /** The padding is one byte product: 'A' times the low byte of 86 minus the length. */
  function PadByte(len: nat): (b: nat)
    ensures b < 256
  {
    (65 * ((86 - len as int) % 256)) % 256
  }

  /** The padding is the one byte that makes up for 65 times the digits printed: 65 * 86 modulo 256. */
  lemma PadByteExactly(len: nat)
    ensures PadByte(len) < 256 && (PadByte(len) + 65 * len) % 256 == 214
  {
    var low := (86 - len as int) % 256;
    Remainder256(86 - len as int, low);
    Remainder256(65 * low, PadByte(len));
    var q, r := (86 - len as int) / 256, (65 * low) / 256;
    assert PadByte(len) + 65 * len == 214 + 256 * (21 - 65 * q - r);
    Wraps256(214, 21 - 65 * q - r);
  }

  lemma Remainder256(x: int, r: int)
    requires r == x % 256
    ensures r == x - 256 * (x / 256)
  {
  }

  lemma Wraps256(x: int, k: int)
    ensures (x + 256 * k) % 256 == x % 256
  {
  }

  /** string(b) of a byte is the UTF-8 form of the code point b. */
  function Utf8(b: nat): string
    requires b < 256
  {
    if b < 128 then [b as char] else [(192 + b / 64) as char, (128 + b % 64) as char]
  }

  /** The digit a decoder reads from the padding after len digits. */
  function PadDigit(len: nat): (d: nat)
    ensures d < 64
  {
    if PadByte(len) < 128 then De(PadByte(len) as char) else 0
  }

  lemma ValueOfPad(len: nat)
    ensures Value(Utf8(PadByte(len))) == PadDigit(len)
  {
    var s := Utf8(PadByte(len));
    if PadByte(len) < 128 {
      assert s[1..] == "";
    } else {
      assert s[1..][1..] == "";
      assert Value(s[1..]) == De(s[1]);
    }
  }

  /** What intToBase64 prints. */
  function Encode(n: nat): string {
    Digits64(n) + Utf8(PadByte(|Digits64(n)|))
  }

  /** intToBase64. */
  method IntToBase64(n: nat) returns (s: string)
    ensures s == Encode(n)
  {
    var result, nn := "", n;
    while nn > 0
      invariant result + Digits64(nn) == Digits64(n)
    {
      var bit := nn % 64;
      assert Digits64(nn) == [En(bit)] + Digits64(nn / 64);
      result := result + [En(bit)];
      nn := nn / 64;
    }
    assert result == Digits64(n);
    s := result + Utf8(PadByte(|result|));
  }

  /** base64ToInt. */
  method Base64ToInt(s: string) returns (n: nat)
    ensures n == Value(s)
  {
    n := 0;
    var i := |s| - 1;
    while i >= 0
      invariant -1 <= i < |s|
      invariant n == Value(s[i + 1..])
    {
      assert s[i..][1..] == s[i + 1..];
      n := n * 64 + De(s[i]);
      i := i - 1;
    }
    assert s[0..] == s;
  }

  // ------------------------------------------------------------------ round trip

  /** Decoding an encoded number adds the padding digit above its own digits. */
  lemma DecodeEncode(n: nat)
    ensures Value(Encode(n)) == n + Pow(64, |Digits64(n)|) * PadDigit(|Digits64(n)|)
  {
    ValueOfDigits(n);
    ValueOfConcat(Digits64(n), Utf8(PadByte(|Digits64(n)|)));
    ValueOfPad(|Digits64(n)|);
  }

  /** The codec gives a number back exactly when its padding decodes to 0. */
  lemma RoundTripExactly(n: nat)
    ensures Value(Encode(n)) == n <==> PadDigit(|Digits64(n)|) == 0
  {
    DecodeEncode(n);
    var len := |Digits64(n)|;
    PowPositive(64, len);
    if PadDigit(len) > 0 {
      MulAtLeast(Pow(64, len), PadDigit(len));
    }
  }

  /** Numbers of 82 to 86 digits survive the codec; an 81-digit number never does. */
  lemma RoundTripInRange(n: nat)
    ensures Pow(64, 81) <= n < Pow(64, 86) ==> Value(Encode(n)) == n
    ensures Pow(64, 80) <= n < Pow(64, 81) ==> Value(Encode(n)) != n
  {
    DigitCount(n, 80);
    DigitCount(n, 81);
    DigitCount(n, 86);
    RoundTripExactly(n);
    PadDigitsNear86();
  }

  lemma PadDigitsNear86()
    ensures PadDigit(81) == 4
    ensures forall len :: 82 <= len <= 86 ==> PadDigit(len) == 0
  {
  }

  /** The same bounds as powers of two. */
  lemma RangeInBits(k: nat)
    ensures Pow(64, k) == Pow(2, 6 * k)
  {
    assert Pow(2, 6) == 64;
    PowPow(2, 6, k);
  }
}
