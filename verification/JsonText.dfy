/**
 db/db.go: what a string becomes when a value that holds it is stored as JSON and read back. The
 encoder writes each byte that does not belong to a well-formed UTF-8 sequence as U+FFFD.
 */
module JsonText {
  import opened Text
  import opened Markup

  // ------------------------------------------------------------------ UTF-8

  predicate IsTail(c: char) {
    0x80 <= c as int <= 0xBF
  }

  /** The second byte of a longer sequence, which rules out overlong forms and surrogates. */
  predicate IsSecond(a: int, c: char) {
    && IsTail(c)
    && (a == 0xE0 ==> c as int >= 0xA0) && (a == 0xED ==> c as int <= 0x9F)
    && (a == 0xF0 ==> c as int >= 0x90) && (a == 0xF4 ==> c as int <= 0x8F)
  }

  /** The length of the well-formed sequence that s starts with, 0 if there is none. */
  function Width(s: string): (w: nat)
    ensures w <= |s|
  {
    if s == "" then 0
    else
      var a := s[0] as int;
      if a < 0x80 then 1
      else if 0xC2 <= a <= 0xDF && |s| >= 2 && IsTail(s[1]) then 2
      else if 0xE0 <= a <= 0xEF && |s| >= 3 && IsSecond(a, s[1]) && IsTail(s[2]) then 3
      else if 0xF0 <= a <= 0xF4 && |s| >= 4 && IsSecond(a, s[1]) && IsTail(s[2]) && IsTail(s[3]) then 4
      else 0
  }

  predicate IsUtf8(s: string) {
    s == "" || (Width(s) > 0 && IsUtf8(s[Width(s)..]))
  }

  /** A string as JSON can hold it. */
  type Utf8Text = s: string | IsUtf8(s)

  /** The bytes of U+FFFD. */
  const REPLACEMENT: string := [0xEF as char, 0xBF as char, 0xBD as char]

  /** json.Marshal, then json.Unmarshal. */
  function ViaJson(s: string): (r: string)
    ensures IsUtf8(r)
  {
    if s == "" then ""
    else if Width(s) > 0 then
      var w := Width(s);
      WidthOfPrefix(s[..w], s[w..]);
      WidthOfPrefix(s[..w], ViaJson(s[w..]));
      assert s == s[..w] + s[w..];
      assert (s[..w] + ViaJson(s[w..]))[w..] == ViaJson(s[w..]);
      s[..w] + ViaJson(s[w..])
    else
      WidthOfPrefix(REPLACEMENT, ViaJson(s[1..]));
      assert (REPLACEMENT + ViaJson(s[1..]))[3..] == ViaJson(s[1..]);
      REPLACEMENT + ViaJson(s[1..])
  }

  lemma WidthOfPrefix(a: string, b: string)
    ensures Width(a) > 0 ==> Width(a + b) == Width(a)
    ensures 0 < Width(a + b) <= |a| ==> Width(a) == Width(a + b)
  {
    var s := a + b;
    assert forall i :: 0 <= i < |a| ==> s[i] == a[i];
  }

  /** JSON leaves a string alone exactly when it is well-formed UTF-8. */
  lemma {:induction false} ViaJsonExactly(s: string)
    ensures ViaJson(s) == s <==> IsUtf8(s)
    decreases |s|
  {
    if s != "" {
      var w := Width(s);
      if w > 0 {
        ViaJsonExactly(s[w..]);
        assert s == s[..w] + s[w..];
        assert (s[..w] + ViaJson(s[w..]))[w..] == ViaJson(s[w..]);
      } else {
        WidthOfPrefix(REPLACEMENT, ViaJson(s[1..]));
      }
    }
  }

  lemma Utf8Cons(a: string, rest: string)
    requires Width(a) > 0 && IsUtf8(a[Width(a)..] + rest)
    ensures IsUtf8(a + rest)
  {
    WidthOfPrefix(a, rest);
    assert (a + rest)[Width(a)..] == a[Width(a)..] + rest;
  }

  lemma {:induction false} Utf8Concat(a: string, b: string)
    requires IsUtf8(a) && IsUtf8(b)
    ensures IsUtf8(a + b)
    decreases |a|
  {
    if a == "" {
      assert a + b == b;
    } else {
      Utf8Concat(a[Width(a)..], b);
      Utf8Cons(a, b);
    }
  }

  /** A byte that no UTF-8 text contains. */
  const FF: string := [0xFF as char]

  lemma ByteFF()
    ensures !IsUtf8(FF) && ViaJson(FF) == REPLACEMENT && REPLACEMENT != FF && IsUtf8(REPLACEMENT)
  {
    assert FF[1..] == "";
    assert REPLACEMENT + "" == REPLACEMENT;
  }

  // ------------------------------------------------------------------ code points

  /** A code point that UTF-8 encodes: no surrogate, and at most U+10FFFF. */
  predicate IsRune(c: nat) {
    c < 0xD800 || 0xE000 <= c < 0x110000
  }

  /** The bytes of a code point, six bits in each but the first. */
  function EncodeRune(c: nat): string
    requires IsRune(c)
  {
    if c < 0x80 then [c as char]
    else if c < 0x800 then [(0xC0 + c / 0x40) as char, (0x80 + c % 0x40) as char]
    else if c < 0x10000 then
      [(0xE0 + c / 0x1000) as char, (0x80 + c / 0x40 % 0x40) as char, (0x80 + c % 0x40) as char]
    else
      [(0xF0 + c / 0x40000) as char, (0x80 + c / 0x1000 % 0x40) as char, (0x80 + c / 0x40 % 0x40) as char,
       (0x80 + c % 0x40) as char]
  }

  ghost function EncodeRunes(cs: seq<nat>): string
    requires forall i :: 0 <= i < |cs| ==> IsRune(cs[i])
  {
    if cs == [] then "" else EncodeRune(cs[0]) + EncodeRunes(cs[1..])
  }

  lemma RuneWidth(c: nat, s: string)
    requires IsRune(c)
    ensures Width(EncodeRune(c) + s) == |EncodeRune(c)| > 0
  {
    var t := EncodeRune(c);
    assert forall i :: 0 <= i < |t| ==> (t + s)[i] == t[i];
  }

  /** The code point that a well-formed sequence encodes. */
  function DecodeRune(s: string): nat
    requires Width(s) > 0
  {
    var w, a := Width(s), s[0] as nat;
    if w == 1 then a
    else if w == 2 then (a - 0xC0) * 0x40 + (s[1] as nat - 0x80)
    else if w == 3 then (a - 0xE0) * 0x1000 + (s[1] as nat - 0x80) * 0x40 + (s[2] as nat - 0x80)
    else (a - 0xF0) * 0x40000 + (s[1] as nat - 0x80) * 0x1000 + (s[2] as nat - 0x80) * 0x40 + (s[3] as nat - 0x80)
  }

  lemma SixBits(h: nat, x: nat)
    requires x < 0x40
    ensures (h * 0x40 + x) / 0x40 == h && (h * 0x40 + x) % 0x40 == x
  {
  }

  // Three and four groups of six bits.
  lemma Groups(h: nat, x: nat, y: nat)
    requires x < 0x40 && y < 0x40
    ensures var c := h * 0x1000 + x * 0x40 + y; c / 0x1000 == h && c / 0x40 % 0x40 == x && c % 0x40 == y
  {
    SixBits(h * 0x40 + x, y);
    SixBits(h, x);
    var c := h * 0x1000 + x * 0x40 + y;
    assert c == (h * 0x40 + x) * 0x40 + y;
    assert c / 0x1000 == c / 0x40 / 0x40;
  }

  lemma WidthRune(s: string)
    requires Width(s) > 0
    ensures IsRune(DecodeRune(s)) && EncodeRune(DecodeRune(s)) == s[..Width(s)]
  {
    var w, a := Width(s), s[0] as nat;
    if w == 2 {
      SixBits(a - 0xC0, s[1] as nat - 0x80);
    } else if w == 3 {
      ThreeBytes(s);
    } else if w == 4 {
      FourBytes(s);
    }
  }

  lemma ThreeBytes(s: string)
    requires Width(s) == 3
    ensures IsRune(DecodeRune(s)) && EncodeRune(DecodeRune(s)) == s[..3]
  {
    Groups(s[0] as nat - 0xE0, s[1] as nat - 0x80, s[2] as nat - 0x80);
  }

  lemma FourBytes(s: string)
    requires Width(s) == 4
    ensures IsRune(DecodeRune(s)) && EncodeRune(DecodeRune(s)) == s[..4]
  {
    var h, x, y, z := s[0] as nat - 0xF0, s[1] as nat - 0x80, s[2] as nat - 0x80, s[3] as nat - 0x80;
    var c := DecodeRune(s);
    Groups(h * 0x40 + x, y, z);
    assert c == (h * 0x40 + x) * 0x1000 + y * 0x40 + z;
    SixBits(h, x);
    assert c / 0x40000 == c / 0x1000 / 0x40;
  }

  lemma RunesOf(s: string) returns (cs: seq<nat>)
    requires IsUtf8(s)
    ensures (forall i :: 0 <= i < |cs| ==> IsRune(cs[i])) && EncodeRunes(cs) == s
    decreases |s|
  {
    if s == "" {
      cs := [];
    } else {
      WidthRune(s);
      var rest := RunesOf(s[Width(s)..]);
      cs := [DecodeRune(s)] + rest;
      assert cs[1..] == rest;
      assert s == s[..Width(s)] + s[Width(s)..];
    }
  }

  lemma {:induction false} RunesAreUtf8(cs: seq<nat>)
    requires forall i :: 0 <= i < |cs| ==> IsRune(cs[i])
    ensures IsUtf8(EncodeRunes(cs))
  {
    if cs != [] {
      RunesAreUtf8(cs[1..]);
      RuneWidth(cs[0], EncodeRunes(cs[1..]));
      var t := EncodeRune(cs[0]);
      assert (t + EncodeRunes(cs[1..]))[|t|..] == EncodeRunes(cs[1..]);
    }
  }

  /** A string is UTF-8 exactly when it is the encoding of a list of code points. */
  lemma Utf8Exactly(s: string)
    ensures IsUtf8(s) <==> exists cs: seq<nat> :: (forall i :: 0 <= i < |cs| ==> IsRune(cs[i])) && EncodeRunes(cs) == s
  {
    if IsUtf8(s) { var cs := RunesOf(s); }
    if cs: seq<nat> :| (forall i :: 0 <= i < |cs| ==> IsRune(cs[i])) && EncodeRunes(cs) == s { RunesAreUtf8(cs); }
  }

  /** JSON keeps a code point ... */
  lemma ViaJsonKeepsRune(c: nat, s: string)
    requires IsRune(c)
    ensures ViaJson("") == "" && ViaJson(EncodeRune(c) + s) == EncodeRune(c) + ViaJson(s)
  {
    var t := EncodeRune(c);
    RuneWidth(c, s);
    assert (t + s)[|t|..] == s && (t + s)[..|t|] == t;
  }

  /** ... and writes a byte at which none starts as U+FFFD. */
  lemma ViaJsonReplaces(s: string)
    requires s != "" && forall c: nat :: IsRune(c) ==> !HasPrefix(s, EncodeRune(c))
    ensures ViaJson(s) == EncodeRune(0xFFFD) + ViaJson(s[1..])
  {
    if Width(s) > 0 { WidthRune(s); }
    assert EncodeRune(0xFFFD) == REPLACEMENT;
  }

  // ------------------------------------------------------------------ cutting at ASCII chars

  predicate IsAscii(s: string) {
    forall i :: 0 <= i < |s| ==> s[i] as int < 0x80
  }

  lemma {:induction false} AsciiIsUtf8(s: string)
    requires IsAscii(s)
    ensures IsUtf8(s)
  {
    if s != "" { AsciiIsUtf8(s[1..]); }
  }

  /** A sequence ends before an ASCII char. */
  lemma WidthBefore(a: string, c: char, b: string)
    requires c as int < 0x80 && a != ""
    ensures Width(a + [c] + b) <= |a|
    ensures Width(a + [c] + b) > 0 ==> Width(a) == Width(a + [c] + b)
  {
    var s := a + [c] + b;
    assert s[|a|] == c && s[0] == a[0];
    assert s == a + ([c] + b);
    WidthOfPrefix(a, [c] + b);
  }

  lemma {:induction false} Utf8Cut(a: string, c: char, b: string)
    requires c as int < 0x80 && IsUtf8(a + [c] + b)
    ensures IsUtf8(a) && IsUtf8(b)
    decreases |a|
  {
    var s := a + [c] + b;
    if a == "" {
      assert s[1..] == b;
    } else {
      var w := Width(s);
      WidthBefore(a, c, b);
      assert s[w..] == a[w..] + [c] + b;
      Utf8Cut(a[w..], c, b);
    }
  }

  lemma Utf8CutSeparator(a: string, b: string)
    requires IsUtf8(a + "<>" + b)
    ensures IsUtf8(a) && IsUtf8(b)
  {
    assert a + "<>" + b == a + ['<'] + (">" + b);
    Utf8Cut(a, '<', ">" + b);
    assert ">" + b == "" + ['>'] + b;
    Utf8Cut("", '>', b);
  }

  ghost predicate AllUtf8(xs: seq<string>) {
    forall i :: 0 <= i < |xs| ==> IsUtf8(xs[i])
  }

  lemma {:induction false} JoinUtf8(xs: seq<string>)
    ensures IsUtf8(Join(xs, "<>")) <==> AllUtf8(xs)
  {
    if |xs| > 1 {
      JoinUtf8(xs[1..]);
      assert xs == [xs[0]] + xs[1..];
      if IsUtf8(Join(xs, "<>")) {
        Utf8CutSeparator(xs[0], Join(xs[1..], "<>"));
      }
      if AllUtf8(xs) {
        AsciiIsUtf8("<>");
        Utf8Concat(xs[0], "<>");
        Utf8Concat(xs[0] + "<>", Join(xs[1..], "<>"));
      }
    }
  }

  lemma SplitUtf8(s: string)
    ensures IsUtf8(s) <==> AllUtf8(Split(s, "<>"))
  {
    JoinSplit(s, "<>");
    JoinUtf8(Split(s, "<>"));
  }

  lemma {:induction false} TrimRightUtf8(s: string)
    requires IsUtf8(s)
    ensures IsUtf8(TrimRight(s))
  {
    if TrimRight(s) != s {
      var n := |s| - 1;
      assert s == s[..n] + [s[n]] + "";
      Utf8Cut(s[..n], s[n], "");
      TrimRightUtf8(s[..n]);
    }
  }

  // A char outside ASCII passes the normalisation.
  lemma NormaliseSkip(c: char, s: string)
    requires c as int >= 0x80
    ensures NormaliseScan([c] + s) == [c] + NormaliseScan(s)
  {
    var t := [c] + s;
    assert t[1..] == s && t[0] == c;
    assert |t| >= 4 ==> t[..4][0] == c;
  }

  lemma Assoc(a: string, b: string, c: string)
    ensures a + (b + c) == a + b + c
  {
  }

  lemma NormaliseSkipStep(c: char, a: string, s: string)
    requires c as int >= 0x80 && NormaliseScan(a + s) == a + NormaliseScan(s)
    ensures NormaliseScan([c] + a + s) == [c] + a + NormaliseScan(s)
  {
    NormaliseSkip(c, a + s);
    assert [c] + a + s == [c] + (a + s);
    Assoc([c], a, NormaliseScan(s));
  }

  lemma {:induction false} NormaliseSkipAll(a: string, s: string)
    requires forall i :: 0 <= i < |a| ==> a[i] as int >= 0x80
    ensures NormaliseScan(a + s) == a + NormaliseScan(s)
  {
    if a == "" {
      assert a + s == s;
      assert a + NormaliseScan(s) == NormaliseScan(s);
    } else {
      NormaliseSkipAll(a[1..], s);
      NormaliseSkipStep(a[0], a[1..], s);
      assert a == [a[0]] + a[1..];
    }
  }

  lemma NormaliseChar(v: string)
    requires v != "" && v[0] as int < 0x80 && !HasPrefix(v, "<br>")
    requires IsUtf8(NormaliseScan(v[1..]))
    ensures IsUtf8(NormaliseScan(v))
  {
    var e := match v[0] case '<' => "&lt;" case '>' => "&gt;" case '\n' => "<br>" case c => [c];
    AsciiIsUtf8(e);
    Utf8Concat(e, NormaliseScan(v[1..]));
  }

  lemma NormaliseBreak(v: string)
    requires HasPrefix(v, "<br>") && IsUtf8(NormaliseScan(v[4..]))
    ensures IsUtf8(NormaliseScan(v))
  {
    AsciiIsUtf8("<br>");
    Utf8Concat("<br>", NormaliseScan(v[4..]));
  }

  lemma NormaliseLong(v: string, w: nat)
    requires w == Width(v) > 1 && IsUtf8(NormaliseScan(v[w..]))
    ensures IsUtf8(NormaliseScan(v))
  {
    var a, b := v[..w], v[w..];
    assert v == a + b;
    WidthOfPrefix(a, b);
    assert a[w..] == "";
    NormaliseSkipAll(a, b);
    Utf8Concat(a, NormaliseScan(b));
  }

  lemma CutBreak(v: string)
    requires HasPrefix(v, "<br>") && IsUtf8(v)
    ensures IsUtf8(v[4..])
  {
    assert v == v[..4] + v[4..];
    assert v == "<br" + ['>'] + v[4..];
    Utf8Cut("<br", '>', v[4..]);
  }

  lemma {:induction false} NormaliseScanUtf8(v: string)
    requires IsUtf8(v)
    ensures IsUtf8(NormaliseScan(v))
    decreases |v|
  {
    if v != "" {
      var w := Width(v);
      if HasPrefix(v, "<br>") {
        CutBreak(v);
        NormaliseScanUtf8(v[4..]);
        NormaliseBreak(v);
      } else {
        NormaliseScanUtf8(v[w..]);
        if w == 1 { NormaliseChar(v); } else { NormaliseLong(v, w); }
      }
    }
  }

  lemma NormaliseUtf8(v: string)
    requires IsUtf8(v)
    ensures IsUtf8(Normalise(v))
  {
    NormaliseIsScan(v);
    NormaliseScanUtf8(v);
  }
}
