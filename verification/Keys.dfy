/**
 db/db.go: the codecs from values to database keys, and the byte order that the database keeps
 its keys in. A byte is a char, so a key is a string.
 */
module Keys {
  import opened Text

  // ------------------------------------------------------------------ byte order

  /** bytes.Compare(a, b) < 0. */
  predicate Lt(a: string, b: string) {
    b != "" && (a == "" || a[0] < b[0] || (a[0] == b[0] && Lt(a[1..], b[1..])))
  }

  lemma {:induction false} LtIrreflexive(a: string)
    ensures !Lt(a, a)
  {
    if a != "" { LtIrreflexive(a[1..]); }
  }

  lemma {:induction false} LtTransitive(a: string, b: string, c: string)
    requires Lt(a, b) && Lt(b, c)
    ensures Lt(a, c)
  {
    if a != "" && a[0] == b[0] == c[0] { LtTransitive(a[1..], b[1..], c[1..]); }
  }

  lemma {:induction false} LtTotal(a: string, b: string)
    ensures Lt(a, b) || a == b || Lt(b, a)
    ensures !(Lt(a, b) && Lt(b, a))
  {
    if a != "" && b != "" && a[0] == b[0] {
      LtTotal(a[1..], b[1..]);
      assert a == [a[0]] + a[1..] && b == [b[0]] + b[1..];
    }
  }

  lemma LtConcatStep(c: char, d: char, a: string, b: string, x: string, y: string)
    requires Lt(a + x, b + y) <==> Lt(a, b) || (a == b && Lt(x, y))
    ensures Lt([c] + a + x, [d] + b + y) <==> Lt([c] + a, [d] + b) || ([c] + a == [d] + b && Lt(x, y))
  {
    assert [c] + a + x == [c] + (a + x) && [d] + b + y == [d] + (b + y);
  }

  /** Fields of equal length compare first. */
  lemma {:induction false} LtConcat(a: string, b: string, x: string, y: string)
    requires |a| == |b|
    ensures Lt(a + x, b + y) <==> Lt(a, b) || (a == b && Lt(x, y))
  {
    if a == "" {
      assert a + x == x && b + y == y;
    } else {
      LtConcat(a[1..], b[1..], x, y);
      LtConcatStep(a[0], b[0], a[1..], b[1..], x, y);
      assert [a[0]] + a[1..] == a && [b[0]] + b[1..] == b;
    }
  }

  /** A prefix is not above what extends it, and the strings with one prefix have no gaps. */
  lemma {:induction false} PrefixConvex(p: string, c: string, k: string)
    requires HasPrefix(k, p)
    ensures !Lt(k, p)
    ensures !Lt(c, p) && Lt(c, k) ==> HasPrefix(c, p)
  {
    if p != "" {
      assert k[..|p|] == p;
      assert k[0] == p[0] && HasPrefix(k[1..], p[1..]) by {
        assert k[1..][..|p| - 1] == k[..|p|][1..];
      }
      if c != "" {
        PrefixConvex(p[1..], c[1..], k[1..]);
        if !Lt(c, p) && Lt(c, k) {
          assert c[0] == p[0];
          assert c[..|p|] == [c[0]] + c[1..][..|p| - 1];
          assert p == [p[0]] + p[1..];
        }
      } else {
        PrefixConvex(p[1..], c, k[1..]);
      }
    }
  }

  // ------------------------------------------------------------------ integers as keys

  const TWO_TO_64: nat := 0x1_0000_0000_0000_0000

  /** The low k bytes of n, most significant first. */
  function BigEndian(n: nat, k: nat): (s: string)
    ensures |s| == k
  {
    if k == 0 then "" else BigEndian(n / 256, k - 1) + [(n % 256) as char]
  }

  function BigEndianValue(s: string): nat {
    if s == "" then 0 else 256 * BigEndianValue(s[..|s| - 1]) + s[|s| - 1] as nat
  }

  function Power256(k: nat): nat {
    if k == 0 then 1 else 256 * Power256(k - 1)
  }

  lemma {:induction false} BigEndianRoundTrip(n: nat, k: nat)
    requires n < Power256(k)
    ensures BigEndianValue(BigEndian(n, k)) == n
  {
    if k > 0 {
      BigEndianRoundTrip(n / 256, k - 1);
      var s := BigEndian(n, k);
      assert s[..k - 1] == BigEndian(n / 256, k - 1);
    }
  }

  /** Byte order of equally long big-endian forms is numeric order. */
  lemma {:induction false} BigEndianOrder(m: nat, n: nat, k: nat)
    requires m < Power256(k) && n < Power256(k)
    ensures Lt(BigEndian(m, k), BigEndian(n, k)) <==> m < n
    ensures BigEndian(m, k) == BigEndian(n, k) <==> m == n
  {
    BigEndianRoundTrip(m, k);
    BigEndianRoundTrip(n, k);
    if k > 0 {
      BigEndianOrder(m / 256, n / 256, k - 1);
      LtConcat(BigEndian(m / 256, k - 1), BigEndian(n / 256, k - 1), [(m % 256) as char], [(n % 256) as char]);
      assert Lt([(m % 256) as char], [(n % 256) as char]) <==> m % 256 < n % 256;
    }
  }

  /** uint64(n). */
  function Unsigned(n: int): (u: nat)
    requires IsInt64(n)
    ensures u < TWO_TO_64
  {
    if n >= 0 then n else n + TWO_TO_64
  }

  /** Tob of an int64: the eight bytes of its two's complement form. */
  function TobInt64(n: int): (s: string)
    requires IsInt64(n)
    ensures |s| == 8
  {
    BigEndian(Unsigned(n), 8)
  }

  /** b2v into an int64. */
  function Int64Of(s: string): int {
    var u := BigEndianValue(s);
    if u <= MAX_INT64 then u else u - TWO_TO_64
  }

  /** b2v undoes Tob on every int64. */
  lemma Int64RoundTrip(n: int)
    requires IsInt64(n)
    ensures Int64Of(TobInt64(n)) == n
  {
    BigEndianRoundTrip(Unsigned(n), 8);
  }

  // ------------------------------------------------------------------ composite keys

  /** record.Head: one line of the recent list, and the identity of a record. */
  datatype Head = Head(datfile: string, stamp: int, id: string)

  predicate NoNul(s: string) {
    '\0' !in s
  }

  /** Head.ToKey: datfile NUL stamp id NUL. */
  function ToKey(h: Head): string
    requires IsInt64(h.stamp)
  {
    h.datfile + "\0" + (TobInt64(h.stamp) + (h.id + "\0"))
  }

  /** Byte order of stamps: from 0 up, then the negative ones, each in numeric order. */
  predicate StampLt(m: int, n: int) {
    if (m >= 0) == (n >= 0) then m < n else m >= 0
  }

  /** The order of heads: by datfile, then stamp, then id. */
  predicate HeadLt(g: Head, h: Head) {
    || Lt(g.datfile, h.datfile)
    || (g.datfile == h.datfile && StampLt(g.stamp, h.stamp))
    || (g.datfile == h.datfile && g.stamp == h.stamp && Lt(g.id, h.id))
  }

  lemma NulFieldStep(c: char, d: char, a: string, b: string, x: string, y: string)
    requires Lt(a + "\0" + x, b + "\0" + y) <==> Lt(a, b) || (a == b && Lt(x, y))
    ensures Lt([c] + a + "\0" + x, [d] + b + "\0" + y)
       <==> Lt([c] + a, [d] + b) || ([c] + a == [d] + b && Lt(x, y))
  {
    assert [c] + a + "\0" + x == [c] + (a + "\0" + x) && [d] + b + "\0" + y == [d] + (b + "\0" + y);
  }

  /** A NUL-terminated field without NUL compares first. */
  lemma {:induction false} NulFieldOrder(a: string, b: string, x: string, y: string)
    requires NoNul(a) && NoNul(b)
    ensures Lt(a + "\0" + x, b + "\0" + y) <==> Lt(a, b) || (a == b && Lt(x, y))
  {
    if a == "" || b == "" {
      assert (a + "\0" + x)[0] == if a == "" then '\0' else a[0];
      assert (b + "\0" + y)[0] == if b == "" then '\0' else b[0];
      assert ("" + "\0" + x)[1..] == x && ("" + "\0" + y)[1..] == y;
    } else {
      NulFieldOrder(a[1..], b[1..], x, y);
      NulFieldStep(a[0], b[0], a[1..], b[1..], x, y);
      assert [a[0]] + a[1..] == a && [b[0]] + b[1..] == b;
    }
  }

  lemma {:induction false} NulEndOrder(a: string, b: string)
    ensures Lt(a + "\0", b + "\0") <==> Lt(a, b)
  {
    if a == "" || b == "" {
      assert ("" + "\0")[1..] == "";
      assert a != "" ==> (a + "\0")[1..] == a[1..] + "\0";
      assert b != "" ==> (b + "\0")[1..] == b[1..] + "\0";
    } else {
      NulEndOrder(a[1..], b[1..]);
      assert (a + "\0")[1..] == a[1..] + "\0";
      assert (b + "\0")[1..] == b[1..] + "\0";
    }
  }

  lemma LtCons(c: char, d: char, a: string, b: string)
    ensures Lt([c] + a, [d] + b) <==> c < d || (c == d && Lt(a, b))
    ensures [c] + a == [d] + b <==> c == d && a == b
  {
    var s, t := [c] + a, [d] + b;
    assert s[0] == c && t[0] == d && s[1..] == a && t[1..] == b;
  }

  lemma EndedFieldStep(c: char, d: char, e: char, a: string, b: string, x: string, y: string)
    requires Lt(a + [e] + x, b + [e] + y) <==> Lt(a + [e], b + [e]) || (a == b && Lt(x, y))
    ensures Lt([c] + a + [e] + x, [d] + b + [e] + y)
       <==> Lt([c] + a + [e], [d] + b + [e]) || ([c] + a == [d] + b && Lt(x, y))
  {
    assert [c] + a + [e] + x == [c] + (a + [e] + x) && [d] + b + [e] + y == [d] + (b + [e] + y);
    assert [c] + a + [e] == [c] + (a + [e]) && [d] + b + [e] == [d] + (b + [e]);
    LtCons(c, d, a + [e] + x, b + [e] + y);
    LtCons(c, d, a + [e], b + [e]);
    LtCons(c, d, a, b);
  }

  /** A field ended by a char that it does not hold compares first, its end included. */
  lemma {:induction false} EndedFieldOrder(a: string, b: string, e: char, x: string, y: string)
    requires e !in a && e !in b
    ensures Lt(a + [e] + x, b + [e] + y) <==> Lt(a + [e], b + [e]) || (a == b && Lt(x, y))
  {
    if a == "" || b == "" {
      assert (a + [e] + x)[0] == (a + [e])[0] && (b + [e] + y)[0] == (b + [e])[0];
      assert ("" + [e] + x)[1..] == x && ("" + [e] + y)[1..] == y;
      assert ("" + [e])[1..] == "";
    } else {
      EndedFieldOrder(a[1..], b[1..], e, x, y);
      EndedFieldStep(a[0], b[0], e, a[1..], b[1..], x, y);
      assert [a[0]] + a[1..] == a && [b[0]] + b[1..] == b;
    }
  }

  /** Numbers with equally many digits are ordered as their texts. */
  lemma {:induction false} DigitsOrder(m: nat, n: nat)
    requires |Digits(m)| == |Digits(n)|
    ensures Lt(Digits(m), Digits(n)) <==> m < n
  {
    if m < 10 || n < 10 {
      assert |Digits(m)| > 1 <==> m >= 10;
      assert |Digits(n)| > 1 <==> n >= 10;
      assert Digits(m) == [Digits(m)[0]] && Digits(n) == [Digits(n)[0]];
    } else {
      DigitsOrder(m / 10, n / 10);
      DigitsRoundTrip(m / 10);
      DigitsRoundTrip(n / 10);
      LtConcat(Digits(m / 10), Digits(n / 10), ['0' + (m % 10) as char], ['0' + (n % 10) as char]);
    }
  }

  lemma StampOrder(m: int, n: int)
    requires IsInt64(m) && IsInt64(n)
    ensures TobInt64(m) == TobInt64(n) <==> m == n
    ensures Lt(TobInt64(m), TobInt64(n)) <==> StampLt(m, n)
  {
    Int64RoundTrip(m);
    Int64RoundTrip(n);
    BigEndianOrder(Unsigned(m), Unsigned(n), 8);
  }

  /** Byte order of composite keys is (datfile, stamp, id) order, with negative stamps after all others. */
  lemma KeyOrder(g: Head, h: Head)
    requires IsInt64(g.stamp) && IsInt64(h.stamp)
    requires NoNul(g.datfile) && NoNul(h.datfile)
    ensures Lt(ToKey(g), ToKey(h)) <==> HeadLt(g, h)
  {
    StampOrder(g.stamp, h.stamp);
    NulFieldOrder(g.datfile, h.datfile, TobInt64(g.stamp) + (g.id + "\0"), TobInt64(h.stamp) + (h.id + "\0"));
    LtConcat(TobInt64(g.stamp), TobInt64(h.stamp), g.id + "\0", h.id + "\0");
    NulEndOrder(g.id, h.id);
  }

  lemma ConcatEqual(a: string, b: string, x: string, y: string)
    requires |a| == |b| && a + x == b + y
    ensures a == b && x == y
  {
    assert a == (a + x)[..|a|] && b == (b + y)[..|b|];
    assert x == (a + x)[|a|..] && y == (b + y)[|b|..];
  }

  lemma NulFieldEqual(a: string, b: string, x: string, y: string)
    requires NoNul(a) && NoNul(b) && a + "\0" + x == b + "\0" + y
    ensures a == b && x == y
  {
    var s, t := a + "\0" + x, b + "\0" + y;
    assert s[|a|] == '\0' && t[|b|] == '\0';
    assert forall i :: 0 <= i < |b| ==> t[i] == b[i] != '\0';
    assert forall i :: 0 <= i < |a| ==> s[i] == a[i] != '\0';
    assert a == s[..|a|] && b == t[..|b|];
    assert x == s[|a| + 1..] && y == t[|b| + 1..];
  }

  /** Composite keys are injective for datfiles without a NUL byte, whatever the id holds. */
  lemma KeyInjective(g: Head, h: Head)
    requires IsInt64(g.stamp) && IsInt64(h.stamp)
    requires NoNul(g.datfile) && NoNul(h.datfile)
    ensures ToKey(g) == ToKey(h) <==> g == h
  {
    if ToKey(g) == ToKey(h) {
      NulFieldEqual(g.datfile, h.datfile, TobInt64(g.stamp) + (g.id + "\0"), TobInt64(h.stamp) + (h.id + "\0"));
      ConcatEqual(TobInt64(g.stamp), TobInt64(h.stamp), g.id + "\0", h.id + "\0");
      StampOrder(g.stamp, h.stamp);
      assert g.id == (g.id + "\0")[..|g.id|] && h.id == (h.id + "\0")[..|h.id|];
    }
  }

  /** The scan prefix "datfile NUL" matches exactly the keys of that thread. */
  lemma ThreadPrefix(d: string, h: Head)
    requires IsInt64(h.stamp) && NoNul(d) && NoNul(h.datfile)
    ensures HasPrefix(ToKey(h), d + "\0") <==> h.datfile == d
  {
    var k, p := ToKey(h), d + "\0";
    if HasPrefix(k, p) {
      assert k == p + k[|p|..];
      NulFieldEqual(h.datfile, d, TobInt64(h.stamp) + (h.id + "\0"), k[|p|..]);
    }
  }

  /** The whole key as a prefix: it matches itself and the keys whose id extends this one by a NUL. */
  lemma WholeKeyPrefix(g: Head, h: Head)
    requires IsInt64(g.stamp) && IsInt64(h.stamp) && NoNul(g.datfile) && NoNul(h.datfile)
    ensures HasPrefix(ToKey(h), ToKey(g))
       <==> g.datfile == h.datfile && g.stamp == h.stamp && (g.id == h.id || HasPrefix(h.id, g.id + "\0"))
  {
    var k, p := ToKey(h), ToKey(g);
    var tg, th := TobInt64(g.stamp), TobInt64(h.stamp);
    if HasPrefix(k, p) {
      var r := k[|p|..];
      assert k == p + r;
      assert p + r == g.datfile + "\0" + (tg + (g.id + "\0") + r);
      NulFieldEqual(g.datfile, h.datfile, tg + (g.id + "\0") + r, th + (h.id + "\0"));
      assert tg + (g.id + "\0") + r == tg + (g.id + "\0" + r);
      ConcatEqual(tg, th, g.id + "\0" + r, h.id + "\0");
      StampOrder(g.stamp, h.stamp);
      NulAtEnd(g.id, r, h.id);
    }
    if g.datfile == h.datfile && g.stamp == h.stamp && HasPrefix(h.id, g.id + "\0") {
      NulExtends(g, h);
    }
  }

  lemma NulExtends(g: Head, h: Head)
    requires IsInt64(g.stamp) && g.datfile == h.datfile && g.stamp == h.stamp && HasPrefix(h.id, g.id + "\0")
    ensures HasPrefix(ToKey(h), ToKey(g))
  {
    var r := h.id[|g.id| + 1..];
    assert h.id == g.id + "\0" + r;
    assert ToKey(h) == ToKey(g) + (r + "\0");
  }

  lemma NulAtEnd(a: string, r: string, b: string)
    requires a + "\0" + r == b + "\0"
    ensures a == b || HasPrefix(b, a + "\0")
  {
    var s := a + "\0" + r;
    assert |s| == |b| + 1 && b == s[..|b|];
    if r == "" {
      assert s == a + "\0";
      assert a == s[..|a|];
    } else {
      assert b[..|a| + 1] == s[..|a| + 1] == a + "\0";
    }
  }
}
