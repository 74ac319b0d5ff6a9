/**
 The string functions of Go's strings and strconv packages that the program's formats rest on.
 A string is a sequence of bytes, written as chars.
 */
module Text {
  import opened Wrappers

  // ------------------------------------------------------------------ prefixes and suffixes

  predicate HasPrefix(s: string, p: string) {
    |p| <= |s| && s[..|p|] == p
  }

  predicate HasSuffix(s: string, p: string) {
    |p| <= |s| && s[|s| - |p|..] == p
  }

  /** Does sep occur somewhere in s? */
  predicate Contains(s: string, sep: string) {
    HasPrefix(s, sep) || (s != "" && Contains(s[1..], sep))
  }

  /** strings.TrimRight(s, "\r\n"). */
  function TrimRight(s: string): (r: string)
    ensures r <= s
    ensures r != "" ==> r[|r| - 1] != '\r' && r[|r| - 1] != '\n'
  {
    if s != "" && (s[|s| - 1] == '\r' || s[|s| - 1] == '\n') then TrimRight(s[..|s| - 1]) else s
  }

  lemma TrimRightFixed(s: string)
    ensures TrimRight(s) == s <==> (s != "" ==> s[|s| - 1] != '\r' && s[|s| - 1] != '\n')
  {
  }

  // ------------------------------------------------------------------ split and join

  /** What TrimRight cuts off is all line ends, and what it leaves does not end in one. */
  lemma {:induction false} TrimRightExactly(s: string)
    ensures var n := |TrimRight(s)|;
      && n <= |s| && TrimRight(s) == s[..n]
      && (forall i :: n <= i < |s| ==> s[i] == '\r' || s[i] == '\n')
      && (n > 0 ==> s[n - 1] != '\r' && s[n - 1] != '\n')
  {
    if TrimRight(s) != s { TrimRightExactly(s[..|s| - 1]); }
  }

  /** Separators whose occurrences can never overlap a piece: one char, or two different ones. */
  predicate IsSeparator(sep: string) {
    |sep| == 1 || (|sep| == 2 && sep[0] != sep[1])
  }

  /** strings.Split: cut at each occurrence, leftmost first. */
  function Split(s: string, sep: string): (r: seq<string>)
    requires IsSeparator(sep)
    ensures |r| > 0
  {
    if s == "" then [""]
    else if HasPrefix(s, sep) then [""] + Split(s[|sep|..], sep)
    else var r := Split(s[1..], sep); [[s[0]] + r[0]] + r[1..]
  }

  /** strings.Join. */
  function Join(xs: seq<string>, sep: string): string {
    if |xs| == 0 then ""
    else if |xs| == 1 then xs[0]
    else xs[0] + sep + Join(xs[1..], sep)
  }

  /** No piece of a split contains the separator. */
  lemma {:induction false} SplitPieces(s: string, sep: string)
    requires IsSeparator(sep)
    ensures forall i :: 0 <= i < |Split(s, sep)| ==> !Contains(Split(s, sep)[i], sep)
    ensures HasPrefix(Split(s, sep)[0], "") && Split(s, sep)[0] <= s
    decreases |s|
  {
    if s == "" {
    } else if HasPrefix(s, sep) {
      SplitPieces(s[|sep|..], sep);
      assert !Contains("", sep);
    } else {
      SplitPieces(s[1..], sep);
      var r := Split(s[1..], sep);
      var h := [s[0]] + r[0];
      assert h[1..] == r[0];
      assert h <= s;
      assert !Contains(h, sep);
    }
  }

  lemma JoinCons(x: string, ys: seq<string>, sep: string)
    requires |ys| > 0
    ensures Join([x] + ys, sep) == x + sep + Join(ys, sep)
  {
    assert ([x] + ys)[1..] == ys;
  }

  /** A join up to its last piece. */
  function JoinInit(xs: seq<string>, sep: string): string {
    if |xs| <= 1 then "" else xs[0] + sep + JoinInit(xs[1..], sep)
  }

  lemma {:induction false} JoinEnd(xs: seq<string>, sep: string)
    requires |xs| > 0
    ensures Join(xs, sep) == JoinInit(xs, sep) + xs[|xs| - 1]
  {
    if |xs| > 1 {
      JoinEnd(xs[1..], sep);
      assert Join(xs, sep) == (xs[0] + sep + JoinInit(xs[1..], sep)) + xs[|xs| - 1];
    }
  }

  lemma {:induction false} JoinInitAgree(xs: seq<string>, ys: seq<string>, sep: string)
    requires |xs| == |ys| && forall i :: 0 <= i < |xs| - 1 ==> xs[i] == ys[i]
    ensures JoinInit(xs, sep) == JoinInit(ys, sep)
  {
    if |xs| > 1 {
      JoinInitAgree(xs[1..], ys[1..], sep);
    }
  }

  /** Joining the pieces of a split gives the string back. */
  lemma {:induction false} JoinSplit(s: string, sep: string)
    requires IsSeparator(sep)
    ensures Join(Split(s, sep), sep) == s
    decreases |s|
  {
    if s == "" {
    } else if HasPrefix(s, sep) {
      JoinSplit(s[|sep|..], sep);
      JoinCons("", Split(s[|sep|..], sep), sep);
    } else {
      JoinSplit(s[1..], sep);
    }
  }

  lemma SplitConsStep(c: char, a: string, rest: string, sep: string)
    requires IsSeparator(sep) && !Contains([c] + a, sep)
    requires Split(a + sep + rest, sep) == [a] + Split(rest, sep)
    ensures Split([c] + a + sep + rest, sep) == [[c] + a] + Split(rest, sep)
  {
    NoOverlap([c] + a, rest, sep);
    assert [c] + a + sep + rest == [c] + (a + sep + rest);
    SplitChar(c, a + sep + rest, sep);
  }

  /** A piece without the separator is cut off whole. */
  lemma {:induction false} SplitCons(a: string, rest: string, sep: string)
    requires IsSeparator(sep) && !Contains(a, sep)
    ensures Split(a + sep + rest, sep) == [a] + Split(rest, sep)
  {
    if a == "" {
      assert a + sep + rest == sep + rest;
      assert (sep + rest)[|sep|..] == rest;
    } else {
      SplitCons(a[1..], rest, sep);
      assert [a[0]] + a[1..] == a;
      SplitConsStep(a[0], a[1..], rest, sep);
    }
  }

  lemma SplitChar(c: char, s: string, sep: string)
    requires IsSeparator(sep) && !HasPrefix([c] + s, sep)
    ensures Split([c] + s, sep) == [[c] + Split(s, sep)[0]] + Split(s, sep)[1..]
  {
    assert ([c] + s)[1..] == s;
  }

  // The separator cannot start inside a piece and end in the separator that follows.
  lemma NoOverlap(a: string, rest: string, sep: string)
    requires IsSeparator(sep) && a != "" && !Contains(a, sep)
    ensures !HasPrefix(a + sep + rest, sep)
  {
    var s := a + sep + rest;
    assert s[0] == a[0];
    assert |a| == 1 ==> s[1] == sep[0];
    assert |a| >= |sep| ==> a[..|sep|] == s[..|sep|];
  }

  lemma {:induction false} SplitLast(a: string, sep: string)
    requires IsSeparator(sep) && !Contains(a, sep)
    ensures Split(a, sep) == [a]
  {
    if a != "" {
      SplitLast(a[1..], sep);
      assert [a[0]] + a[1..] == a;
    }
  }

  /** Splitting a join gives the pieces back when none of them contains the separator. */
  lemma {:induction false} SplitJoin(xs: seq<string>, sep: string)
    requires IsSeparator(sep) && |xs| > 0
    requires forall i :: 0 <= i < |xs| ==> !Contains(xs[i], sep)
    ensures Split(Join(xs, sep), sep) == xs
  {
    if |xs| == 1 {
      SplitLast(xs[0], sep);
    } else {
      SplitJoin(xs[1..], sep);
      SplitCons(xs[0], Join(xs[1..], sep), sep);
    }
  }

  /** A string in which the first char of sep does not occur does not contain sep. */
  lemma {:induction false} AbsentChar(s: string, sep: string)
    requires sep != "" && sep[0] !in s
    ensures !Contains(s, sep)
  {
    if s != "" {
      AbsentChar(s[1..], sep);
    }
  }

  lemma {:induction false} ContainsSuffix(a: string, b: string, sep: string)
    requires Contains(b, sep)
    ensures Contains(a + b, sep)
  {
    if a == "" {
      assert a + b == b;
    } else {
      ContainsSuffix(a[1..], b, sep);
      assert (a + b)[1..] == a[1..] + b;
    }
  }

  // ------------------------------------------------------------------ replacing

  /** strings.Replace(s, from, to, -1): leftmost occurrences, without overlap. */
  function Replace(s: string, from: string, to: string): string
    requires from != ""
  {
    if s == "" then ""
    else if HasPrefix(s, from) then to + Replace(s[|from|..], from, to)
    else [s[0]] + Replace(s[1..], from, to)
  }

  lemma ReplaceConcatStep(d: char, a: string, b: string, c: char, to: string)
    requires Replace(a + b, [c], to) == Replace(a, [c], to) + Replace(b, [c], to)
    ensures Replace([d] + a + b, [c], to) == Replace([d] + a, [c], to) + Replace(b, [c], to)
  {
    assert [d] + a + b == [d] + (a + b);
  }

  lemma {:induction false} ReplaceCharConcat(a: string, b: string, c: char, to: string)
    ensures Replace(a + b, [c], to) == Replace(a, [c], to) + Replace(b, [c], to)
  {
    if a == "" {
      assert a + b == b;
    } else {
      ReplaceCharConcat(a[1..], b, c, to);
      ReplaceConcatStep(a[0], a[1..], b, c, to);
      assert [a[0]] + a[1..] == a;
    }
  }

  lemma {:induction false} ReplaceAbsent(s: string, c: char, to: string)
    requires c !in s
    ensures Replace(s, [c], to) == s
  {
    if s != "" {
      ReplaceAbsent(s[1..], c, to);
      assert s[..1] == [s[0]];
    }
  }

  lemma ReplacePrefix(s: string, k: nat, c: char, to: string)
    requires k <= |s| && c !in s[..k]
    ensures Replace(s, [c], to) == s[..k] + Replace(s[k..], [c], to)
  {
    var a, b := s[..k], s[k..];
    ReplaceCharConcat(a, b, c, to);
    ReplaceAbsent(a, c, to);
    assert a + b == s;
  }

  // ------------------------------------------------------------------ searching

  /** strings.IndexByte: the first position of c, or |s|. */
  function IndexOf(s: string, c: char): (i: nat)
    ensures i <= |s| && (i < |s| ==> s[i] == c)
    ensures forall j :: 0 <= j < i ==> s[j] != c
  {
    if s == "" || s[0] == c then 0 else 1 + IndexOf(s[1..], c)
  }

  // ------------------------------------------------------------------ decimal numbers

  const MAX_INT64: int := 0x7fff_ffff_ffff_ffff
  const MIN_INT64: int := -0x8000_0000_0000_0000

  predicate IsInt64(n: int) {
    MIN_INT64 <= n <= MAX_INT64
  }

  predicate IsDigit(c: char) {
    '0' <= c <= '9'
  }

  predicate AllDigits(s: string) {
    forall i :: 0 <= i < |s| ==> IsDigit(s[i])
  }

  function Digits(n: nat): (s: string)
    ensures s != "" && AllDigits(s)
  {
    if n < 10 then ['0' + n as char] else Digits(n / 10) + ['0' + (n % 10) as char]
  }

  /** fmt's %d. */
  function Itoa(n: int): (s: string)
    ensures s != "" && forall i :: 0 <= i < |s| ==> IsDigit(s[i]) || s[i] == '-'
    ensures n >= 0 ==> AllDigits(s)
  {
    if n < 0 then "-" + Digits(-n) else Digits(n)
  }

  function DigitsValue(s: string): nat
    requires AllDigits(s)
  {
    if s == "" then 0 else 10 * DigitsValue(s[..|s| - 1]) + (s[|s| - 1] - '0') as nat
  }

  /** strconv.ParseInt(s, 10, 64): an optional sign, digits, and the range of int64. */
  function ParseInt(s: string): (r: Option<int>)
    ensures r.Some? ==> IsInt64(r.value)
  {
    var negative := HasPrefix(s, "-");
    var digits := if negative || HasPrefix(s, "+") then s[1..] else s;
    if digits == "" || !AllDigits(digits) then None
    else
      var n: int := if negative then 0 - DigitsValue(digits) else DigitsValue(digits);
      if IsInt64(n) then Some(n) else None
  }

  lemma {:induction false} DigitsRoundTrip(n: nat)
    ensures DigitsValue(Digits(n)) == n
  {
    if n >= 10 {
      DigitsRoundTrip(n / 10);
      var s := Digits(n);
      assert s[..|s| - 1] == Digits(n / 10);
    }
  }

  /** A printed int64 parses back to itself. */
  lemma ParseIntItoa(n: int)
    requires IsInt64(n)
    ensures ParseInt(Itoa(n)) == Some(n)
  {
    var m := if n < 0 then -n else n;
    DigitsRoundTrip(m);
    assert IsDigit(Digits(m)[0]);
    if n < 0 {
      assert Itoa(n)[1..] == Digits(m);
    }
  }

  lemma {:induction false} LeadingZero(ds: string)
    requires AllDigits(ds)
    ensures AllDigits("0" + ds) && DigitsValue("0" + ds) == DigitsValue(ds)
  {
    var s := "0" + ds;
    if ds != "" {
      LeadingZero(ds[..|ds| - 1]);
      assert s[..|s| - 1] == "0" + ds[..|ds| - 1];
    }
  }

  /** Digits parse to their value, after either sign too, when an int64 can hold it. */
  lemma ParseIntExactly(ds: string)
    requires AllDigits(ds) && ds != ""
    ensures ParseInt(ds) == (if DigitsValue(ds) < 0x8000_0000_0000_0000 then Some(DigitsValue(ds)) else None)
    ensures ParseInt("+" + ds) == ParseInt(ds)
    ensures ParseInt("-" + ds) == (if DigitsValue(ds) <= 0x8000_0000_0000_0000 then Some(0 - DigitsValue(ds)) else None)
  {
    assert IsDigit(ds[0]);
    assert ("+" + ds)[1..] == ds && ("-" + ds)[1..] == ds;
    assert ds[..1][0] == ds[0];
  }

  /** Nothing else parses. */
  lemma ParseIntRefuses(s: string)
    requires ParseInt(s).Some?
    ensures exists ds :: AllDigits(ds) && ds != "" && (s == ds || s == "+" + ds || s == "-" + ds)
  {
    if HasPrefix(s, "-") {
      assert s == "-" + s[1..];
    } else if HasPrefix(s, "+") {
      assert s == "+" + s[1..];
    }
  }
}
