/**
 db/db.go: buckets whose values are sets of strings, stored as JSON, and what it means for two of them
 to be inverse indexes of one relation.
 */
module SetBucket {
  import opened Wrappers
  import opened JsonText

  /** A bucket by raw keys; the strings in its values have been through JSON. */
  type Index = map<string, set<Utf8Text>>

  /** HasVal. */
  predicate HasVal(b: Index, k: string, v: string) {
    k in b && v in b[k]
  }

  /** PutMap: the database refuses an empty key. */
  function PutMap(b: Index, k: string, v: string): (r: Option<Index>)
    ensures r.None? <==> k == ""
    ensures r.Some? ==> forall x, y :: HasVal(r.value, x, y) <==> HasVal(b, x, y) || (x == k && y == ViaJson(v))
    ensures r.Some? && NoEmpty(b) ==> NoEmpty(r.value)
  {
    if k == "" then None else Some(b[k := (if k in b then b[k] else {}) + {ViaJson(v)}])
  }

  function Less(s: set<Utf8Text>, v: string): (r: set<Utf8Text>)
    ensures forall y: string :: y in r <==> y in s && y != v
  {
    set y | y in s && y != v
  }

  /** DelMap: an error for a missing key, and a key whose last value goes is deleted. */
  function DelMap(b: Index, k: string, v: string): (r: Option<Index>)
    ensures r.None? <==> k !in b
    ensures r.Some? ==> forall x, y :: HasVal(r.value, x, y) <==> HasVal(b, x, y) && !(x == k && y == v)
    ensures r.Some? && NoEmpty(b) ==> NoEmpty(r.value)
  {
    if k !in b then None
    else
      var rs := Less(b[k], v);
      assert forall y: string :: y in b[k] && y != v ==> y in rs;
      Some(if rs == {} then b - {k} else b[k := rs])
  }

  /** The bucket after DelMap of v under every key of ks. */
  function Without(b: Index, ks: set<string>, v: string): Index {
    map k | k in b && (k in ks ==> Less(b[k], v) != {}) :: if k in ks then Less(b[k], v) else b[k]
  }

  /** A loop of DelMap over ks: an error if one of the keys is missing. */
  function DelAll(b: Index, ks: set<string>, v: string): Option<Index> {
    if ks <= b.Keys then Some(Without(b, ks, v)) else None
  }

  lemma WithoutStep(b: Index, done: set<string>, k: string, v: string)
    requires k !in done
    ensures DelMap(Without(b, done, v), k, v) == if k in b then Some(Without(b, done + {k}, v)) else None
  {
    if k in b {
      assert k in Without(b, done, v);
      var next := DelMap(Without(b, done, v), k, v).value;
      var goal := Without(b, done + {k}, v);
      assert forall x :: x in next <==> x in goal;
      assert forall x :: x in next ==> next[x] == goal[x];
      assert next == goal;
    }
  }

  /** Every key holds something, and no key is empty. */
  predicate NoEmpty(b: Index) {
    forall k :: k in b ==> k != "" && b[k] != {}
  }

  lemma HasSome(b: Index, k: string)
    requires NoEmpty(b)
    ensures k in b <==> exists y :: HasVal(b, k, y)
  {
    if k in b {
      var y :| y in b[k];
      assert HasVal(b, k, y);
    }
  }

  lemma WithoutEffect(b: Index, ks: set<string>, v: string)
    ensures NoEmpty(b) ==> NoEmpty(Without(b, ks, v))
    ensures forall x, y :: HasVal(Without(b, ks, v), x, y) <==> HasVal(b, x, y) && !(x in ks && y == v)
  {
    assert forall x, y :: HasVal(b, x, y) && y != v ==> y in Less(b[x], v);
  }

  /** b and c hold one relation, each by one of its sides, and store no empty set. */
  ghost predicate Inverse(b: Index, c: Index) {
    && NoEmpty(b) && NoEmpty(c)
    && forall x, y :: HasVal(b, x, y) <==> HasVal(c, y, x)
  }

  /** An index without empty sets is determined by its relation. */
  lemma SameRelation(b: Index, c: Index)
    requires NoEmpty(b) && NoEmpty(c) && forall x, y :: HasVal(b, x, y) <==> HasVal(c, x, y)
    ensures b == c
  {
    forall k ensures k in b <==> k in c {
      if k in b { var y :| y in b[k]; assert HasVal(b, k, y); }
      if k in c { var y :| y in c[k]; assert HasVal(c, k, y); }
    }
    forall k | k in b ensures b[k] == c[k] {
      forall y ensures y in b[k] <==> y in c[k] {
        assert HasVal(b, k, y) <==> HasVal(c, k, y);
      }
    }
  }

  /** A string that is a key and a value alike: not empty, and in UTF-8. */
  predicate IsName(s: string) {
    s != "" && IsUtf8(s)
  }

  /** The keys of inverse indexes are values of each other, so they are in UTF-8. */
  lemma InverseKeys(b: Index, c: Index, k: string)
    requires Inverse(b, c) && k in b
    ensures IsName(k)
  {
    var y :| y in b[k];
    assert HasVal(b, k, y);
    assert HasVal(c, y, k);
  }

  /** PutMap whose error is only logged. */
  function PutLogged(b: Index, k: string, v: string): Index {
    if PutMap(b, k, v).Some? then PutMap(b, k, v).value else b
  }

  lemma PutInverse(b: Index, c: Index, k: string, v: string)
    requires Inverse(b, c) && IsName(k) && IsName(v)
    ensures PutMap(b, k, v).Some? && PutMap(c, v, k).Some?
    ensures Inverse(PutMap(b, k, v).value, PutMap(c, v, k).value)
  {
    ViaJsonExactly(k);
    ViaJsonExactly(v);
  }

  /** A pair put into both of two inverse indexes leaves them inverse exactly when both its parts are names. */
  lemma PutInverseExactly(b: Index, c: Index, k: string, v: string)
    requires Inverse(b, c)
    ensures Inverse(PutLogged(b, k, v), PutLogged(c, v, k)) <==> (IsName(k) && IsName(v)) || (k == "" && v == "")
  {
    var b1, c1 := PutLogged(b, k, v), PutLogged(c, v, k);
    if IsName(k) && IsName(v) {
      PutInverse(b, c, k, v);
    }
    if Inverse(b1, c1) && k != "" {
      assert HasVal(b1, k, ViaJson(v)) && k in b1;
      InverseKeys(b1, c1, k);
      assert HasVal(c1, ViaJson(v), k);
      if v != "" { InverseOther(b1, c1, v, k); }
    }
    if Inverse(b1, c1) && v != "" {
      assert HasVal(c1, v, ViaJson(k));
      assert HasVal(b1, ViaJson(k), v);
    }
  }

  lemma InverseOther(b: Index, c: Index, v: string, k: string)
    requires Inverse(b, c) && v in c
    ensures IsName(v)
  {
    var x :| x in c[v];
    assert HasVal(c, v, x);
    assert HasVal(b, x, v);
  }

}
