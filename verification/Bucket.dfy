/**
 db/db.go: cursor loops over a bucket. A bucket is a map whose keys a cursor visits in byte order.
 */
module Bucket {
  import opened Wrappers
  import opened Text
  import opened Keys

  // ------------------------------------------------------------------ sorted listings

  ghost predicate StrictlySorted(xs: seq<string>) {
    forall i, j :: 0 <= i < j < |xs| ==> Lt(xs[i], xs[j])
  }

  /** xs lists exactly the members of s, each once, in byte order. */
  ghost predicate Lists(xs: seq<string>, s: set<string>) {
    && StrictlySorted(xs)
    && (forall x :: x in xs <==> x in s)
  }

  /** There is one such listing. */
  lemma {:induction false} ListingUnique(xs: seq<string>, ys: seq<string>, s: set<string>)
    requires Lists(xs, s) && Lists(ys, s)
    ensures xs == ys
    decreases |xs|
  {
    if xs == [] {
      assert forall i :: 0 <= i < |ys| ==> ys[i] in ys;
    } else {
      assert xs[0] in s;
      assert xs[0] in ys && ys[0] in xs;
      LtTotal(xs[0], ys[0]);
      DropHead(xs, s);
      DropHead(ys, s);
      ListingUnique(xs[1..], ys[1..], s - {xs[0]});
      assert xs == [xs[0]] + xs[1..] && ys == [ys[0]] + ys[1..];
    }
  }

  lemma DropHead(xs: seq<string>, s: set<string>)
    requires Lists(xs, s) && xs != []
    ensures Lists(xs[1..], s - {xs[0]})
  {
    LtIrreflexive(xs[0]);
    forall x ensures x in xs[1..] <==> x in s - {xs[0]} {
      if x in xs[1..] { assert x in xs; var i :| 0 <= i < |xs| - 1 && xs[1..][i] == x; assert Lt(xs[0], xs[i + 1]); }
      if x in s - {xs[0]} { assert x in xs; var i :| 0 <= i < |xs| && xs[i] == x; assert xs[1..][i - 1] == x; }
    }
  }

  // ------------------------------------------------------------------ cursors

  predicate IsLeast(m: string, s: set<string>) {
    m in s && forall x :: x in s ==> x == m || Lt(m, x)
  }

  lemma LeastOfTwo(m: string, n: string, s: set<string>)
    requires m in s && IsLeast(n, s - {m})
    ensures IsLeast(if Lt(m, n) then m else n, s)
  {
    LtTotal(m, n);
    forall x | x in s - {m} ensures Lt(m, n) ==> Lt(m, x) {
      if Lt(m, n) && x != n { LtTransitive(m, n, x); }
    }
  }

  lemma {:induction false} LeastExists(s: set<string>)
    requires s != {}
    ensures exists m :: IsLeast(m, s)
  {
    var m :| m in s;
    if s == {m} {
      assert IsLeast(m, s);
    } else {
      LeastExists(s - {m});
      var n :| IsLeast(n, s - {m});
      LeastOfTwo(m, n, s);
    }
  }

  /** The least key of a set, as a cursor finds it. */
  function Least(s: set<string>): (r: Option<string>)
    ensures r.None? <==> s == {}
    ensures r.Some? ==> IsLeast(r.value, s)
  {
    if s == {} then None
    else
      LeastIsUnique(s);
      var m :| m in s && IsLeast(m, s);
      Some(m)
  }

  lemma LeastIsUnique(s: set<string>)
    requires s != {}
    ensures exists m :: IsLeast(m, s)
    ensures forall m, n :: IsLeast(m, s) && IsLeast(n, s) ==> m == n
  {
    LeastExists(s);
    forall m, n | IsLeast(m, s) && IsLeast(n, s) ensures m == n { LtTotal(m, n); }
  }

  /** Cursor.Seek: the first key that is not below p. */
  function Seek<V>(b: map<string, V>, p: string): Option<string> {
    Least(set k | k in b && !Lt(k, p))
  }

  /** Cursor.Next: the first key above k. */
  function Next<V>(b: map<string, V>, k: string): Option<string> {
    Least(set j | j in b && Lt(k, j))
  }

  /** The keys with a prefix. */
  ghost function WithPrefix<V>(b: map<string, V>, p: string): set<string> {
    set k | k in b && HasPrefix(k, p)
  }

  predicate AtPrefix(k: Option<string>, p: string) {
    k.Some? && HasPrefix(k.value, p)
  }

  /** Where a prefix scan stands: the keys seen so far are all keys with the prefix below k. */
  ghost predicate ScanState<V>(b: map<string, V>, p: string, seen: set<string>, k: Option<string>) {
    && seen <= WithPrefix(b, p)
    && (k.Some? ==> k.value in b && !Lt(k.value, p) && forall s :: s in seen ==> Lt(s, k.value))
    && (forall j :: j in WithPrefix(b, p) && j !in seen ==> k.Some? && (j == k.value || Lt(k.value, j)))
  }

  lemma ScanStart<V>(b: map<string, V>, p: string)
    ensures ScanState(b, p, {}, Seek(b, p))
  {
    forall j | j in WithPrefix(b, p) ensures !Lt(j, p) { PrefixConvex(p, p, j); }
  }

  lemma ScanStep<V>(b: map<string, V>, p: string, seen: set<string>, k: string)
    requires ScanState(b, p, seen, Some(k)) && HasPrefix(k, p)
    ensures k !in seen && ScanState(b, p, seen + {k}, Next(b, k))
  {
    LtIrreflexive(k);
    var n := Next(b, k);
    if n.Some? {
      forall s | s in seen + {k} ensures Lt(s, n.value) {
        if s != k { LtTransitive(s, k, n.value); }
      }
      PrefixConvex(p, p, k);
      LtTotal(k, p);
      if Lt(n.value, p) {
        if k == p { LtTotal(n.value, p); } else { LtTransitive(n.value, p, k); LtTotal(k, n.value); }
      }
    }
  }

  // The keys with a prefix have no gaps, so the scan may stop at the first key without it.
  lemma ScanEnd<V>(b: map<string, V>, p: string, seen: set<string>, k: Option<string>)
    requires ScanState(b, p, seen, k) && !AtPrefix(k, p)
    ensures seen == WithPrefix(b, p)
  {
    forall j | j in WithPrefix(b, p) ensures j in seen {
      if j !in seen {
        PrefixConvex(p, k.value, j);
      }
    }
  }

  /** Count: the number of keys with a prefix. With an empty prefix the loop of the source does not end. */
  method Count<V>(b: map<string, V>, prefix: string) returns (cnt: nat)
    requires prefix != ""
    ensures cnt == |WithPrefix(b, prefix)|
  {
    cnt := 0;
    var k := Seek(b, prefix);
    ghost var seen: set<string> := {};
    ScanStart(b, prefix);
    while AtPrefix(k, prefix)
      invariant ScanState(b, prefix, seen, k) && cnt == |seen|
      decreases WithPrefix(b, prefix) - seen
    {
      ScanStep(b, prefix, seen, k.value);
      seen := seen + {k.value};
      cnt := cnt + 1;
      k := Next(b, k.value);
    }
    ScanEnd(b, prefix, seen, k);
  }

  /** GetStrings, GetFromDBs: the values under a prefix that is not empty, in key order. */
  method GetPrefixed<V>(b: map<string, V>, prefix: string) returns (vals: seq<V>, keys: seq<string>)
    requires prefix != ""
    ensures Lists(keys, WithPrefix(b, prefix)) && |vals| == |keys|
    ensures forall i :: 0 <= i < |keys| ==> keys[i] in b && vals[i] == b[keys[i]]
  {
    vals, keys := [], [];
    var k := Seek(b, prefix);
    ghost var seen: set<string> := {};
    ScanStart(b, prefix);
    while AtPrefix(k, prefix)
      invariant ScanState(b, prefix, seen, k)
      invariant Lists(keys, seen) && |vals| == |keys|
      invariant forall i :: 0 <= i < |keys| ==> keys[i] in b && vals[i] == b[keys[i]]
      decreases WithPrefix(b, prefix) - seen
    {
      ScanStep(b, prefix, seen, k.value);
      vals, keys, seen := vals + [b[k.value]], keys + [k.value], seen + {k.value};
      k := Next(b, k.value);
    }
    ScanEnd(b, prefix, seen, k);
  }

  /** ForEach of a bucket, as KeyStrings and GetPrefixs use it: every key, in order. */
  method ForEachKey<V>(b: map<string, V>) returns (keys: seq<string>)
    ensures Lists(keys, b.Keys)
  {
    keys := [];
    var k := Least(b.Keys);
    ghost var seen: set<string> := {};
    EmptyPrefix(b);
    ScanStart(b, "");
    while k.Some?
      invariant ScanState(b, "", seen, k) && Lists(keys, seen)
      decreases WithPrefix(b, "") - seen
    {
      ScanStep(b, "", seen, k.value);
      keys, seen := keys + [k.value], seen + {k.value};
      k := Next(b, k.value);
    }
    ScanEnd(b, "", seen, k);
  }

  lemma EmptyPrefix<V>(b: map<string, V>)
    ensures WithPrefix(b, "") == b.Keys && Seek(b, "") == Least(b.Keys)
    ensures forall k: Option<string> :: AtPrefix(k, "") <==> k.Some?
  {
    forall k ensures k in WithPrefix(b, "") <==> k in b.Keys && !Lt(k, "") {
      assert HasPrefix(k, "");
    }
    assert (set k | k in b && !Lt(k, "")) == b.Keys;
  }

  // ------------------------------------------------------------------ string prefixes of keys

  predicate HasNul(k: string) {
    IndexOf(k, '\0') < |k|
  }

  /** The part of a key before its first NUL byte. */
  function StringPart(k: string): string {
    k[..IndexOf(k, '\0')]
  }

  ghost function StringParts(keys: seq<string>): set<string> {
    set k | k in keys :: StringPart(k)
  }

  lemma PartOfKey(k: string)
    requires HasNul(k)
    ensures NoNul(StringPart(k))
    ensures exists x :: k == StringPart(k) + "\0" + x
  {
    var j := IndexOf(k, '\0');
    assert k == k[..j] + "\0" + k[j + 1..];
  }

  lemma PartOfConcat(d: string, x: string)
    requires NoNul(d)
    ensures HasNul(d + "\0" + x) && StringPart(d + "\0" + x) == d
  {
    var k := d + "\0" + x;
    assert k[|d|] == '\0';
    assert forall i :: 0 <= i < |d| ==> k[i] == d[i];
    assert IndexOf(k, '\0') == |d|;
  }

  // Keys in order have their string parts in order; a key repeats the last part exactly when it
  // extends "part NUL".
  lemma PartsInOrder(j: string, k: string)
    requires HasNul(k) && HasNul(j) && Lt(j, k)
    ensures StringPart(j) == StringPart(k) || Lt(StringPart(j), StringPart(k))
  {
    PartOfKey(j);
    PartOfKey(k);
    var x :| j == StringPart(j) + "\0" + x;
    var y :| k == StringPart(k) + "\0" + y;
    NulFieldOrder(StringPart(j), StringPart(k), x, y);
  }

  lemma PartRepeats(d: string, k: string)
    requires NoNul(d)
    ensures HasPrefix(k, d + "\0") <==> HasNul(k) && StringPart(k) == d
  {
    if HasPrefix(k, d + "\0") {
      assert k == d + "\0" + k[|d| + 1..];
      PartOfConcat(d, k[|d| + 1..]);
    } else if HasNul(k) {
      PartOfKey(k);
    }
  }

  // A key with a new string part: the part is above all parts before.
  lemma PartIsAbove(keys: seq<string>, k: string, q: string)
    requires keys != [] && StrictlySorted(keys + [k])
    requires forall j :: j in keys + [k] ==> HasNul(j)
    requires StringPart(k) != StringPart(keys[|keys| - 1]) && q in StringParts(keys)
    ensures Lt(q, StringPart(k))
  {
    var last := keys[|keys| - 1];
    var xs := keys + [k];
    assert xs[|keys| - 1] == last && xs[|keys|] == k;
    assert last in xs && k in xs;
    PartsInOrder(last, k);
    var j :| j in keys && StringPart(j) == q;
    var n :| 0 <= n < |keys| && keys[n] == j;
    assert xs[n] == j && j in xs;
    if n < |keys| - 1 {
      PartsInOrder(j, last);
      if q != StringPart(last) { LtTransitive(q, StringPart(last), StringPart(k)); }
    }
  }

  lemma NewPart(keys: seq<string>, k: string, cnt: seq<string>)
    requires StrictlySorted(keys + [k])
    requires forall j :: j in keys + [k] ==> HasNul(j)
    requires keys != [] ==> StringPart(k) != StringPart(keys[|keys| - 1])
    requires Lists(cnt, StringParts(keys))
    ensures Lists(cnt + [StringPart(k)], StringParts(keys + [k]))
  {
    forall q | q in StringParts(keys) ensures Lt(q, StringPart(k)) {
      PartIsAbove(keys, k, q);
    }
  }

  /**
   GetPrefixs over the keys in order: every distinct string part once, in byte order; an error
   exactly when some key has no NUL byte.
   */
  method GetPrefixs(keys: seq<string>) returns (cnt: seq<string>, ok: bool)
    requires StrictlySorted(keys)
    ensures ok <==> forall k :: k in keys ==> HasNul(k)
    ensures ok ==> Lists(cnt, StringParts(keys))
  {
    cnt := [];
    var blast: Option<string> := None;
    for i := 0 to |keys|
      invariant forall k :: k in keys[..i] ==> HasNul(k)
      invariant Lists(cnt, StringParts(keys[..i]))
      invariant blast == if i == 0 then None else Some(StringPart(keys[i - 1]) + "\0")
    {
      var k := keys[i];
      assert keys[..i + 1] == keys[..i] + [k];
      if i > 0 {
        assert keys[..i][i - 1] == keys[i - 1];
        PartOfKey(keys[i - 1]);
        PartRepeats(StringPart(keys[i - 1]), k);
      }
      if blast.Some? && HasPrefix(k, blast.value) {
        continue;
      }
      var loc := IndexOf(k, '\0');
      if loc == |k| {
        assert k in keys && !HasNul(k);
        return cnt, false;
      }
      NewPart(keys[..i], k, cnt);
      cnt := cnt + [k[..loc]];
      assert k[..loc + 1] == StringPart(k) + "\0";
      blast := Some(k[..loc + 1]);
    }
    assert keys[..|keys|] == keys;
    ok := true;
  }
}
