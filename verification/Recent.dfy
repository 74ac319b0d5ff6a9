/**
 recentlist/recentlist.go and Cache.RecentStamp of thread/cache.go: the list of heads announced by
 other nodes, kept in the bucket "recent" under the same composite keys as the records.
 */
module Recent {
  import opened Wrappers
  import opened Text
  import opened Keys
  import opened Bucket
  import opened JsonText
  import Store

  /** The heads put in the bucket, by key. What is stored is their JSON, so reading one gives JsonHead. */
  type Heads = map<string, Head>

  ghost predicate GoodHead(h: Head) {
    IsInt64(h.stamp) && NoNul(h.datfile)
  }

  /** Every head is stored under its own key. */
  ghost predicate WellKeyed(heads: Heads) {
    forall k :: k in heads ==> GoodHead(heads[k]) && ToKey(heads[k]) == k
  }

  // ------------------------------------------------------------------ prefixes without NUL

  lemma {:induction false} PrefixOfField(d: string, f: string, x: string)
    requires NoNul(d)
    ensures HasPrefix(f + "\0" + x, d) <==> HasPrefix(f, d)
  {
    var k := f + "\0" + x;
    assert k[|f|] == '\0';
    if HasPrefix(k, d) {
      assert forall i :: 0 <= i < |d| ==> k[i] == d[i] != '\0';
      assert f[..|d|] == k[..|d|];
    }
    if HasPrefix(f, d) {
      assert f[..|d|] == k[..|d|];
    }
  }

  /** The keys with prefix d are those of the heads whose datfile starts with d. */
  lemma DatfilePrefix(d: string, h: Head)
    requires NoNul(d) && IsInt64(h.stamp)
    ensures HasPrefix(ToKey(h), d) <==> HasPrefix(h.datfile, d)
  {
    PrefixOfField(d, h.datfile, TobInt64(h.stamp) + (h.id + "\0"));
  }

  /** A string is below all its proper extensions. */
  lemma {:induction false} PrefixIsBelow(d: string, e: string)
    requires HasPrefix(e, d) && d != e
    ensures Lt(d, e)
  {
    PrefixConvex(d, d, e);
    LtTotal(d, e);
  }

  // ------------------------------------------------------------------ the list

  /** h is a head of the thread with the greatest stamp. */
  ghost predicate IsNewest(heads: Heads, d: string, h: Head) {
    && ToKeyIn(heads, h) && h.datfile == d
    && forall k :: k in heads && heads[k].datfile == d ==> heads[k].stamp <= h.stamp
  }

  /** The stamps of the thread are all negative or all not. */
  ghost predicate OneSign(heads: Heads, d: string) {
    forall j, k :: j in heads && k in heads && heads[j].datfile == d && heads[k].datfile == d ==>
      (heads[j].stamp >= 0 <==> heads[k].stamp >= 0)
  }

  /** find takes a head for known: it is in the list, or one whose id extends its id by a NUL is. */
  ghost predicate Known(heads: Heads, rec: Head) {
    exists k :: k in heads && IsKnownBy(rec, heads[k])
  }

  ghost predicate IsKnownBy(g: Head, h: Head) {
    g.datfile == h.datfile && g.stamp == h.stamp && (g.id == h.id || HasPrefix(h.id, g.id + "\0"))
  }

  ghost predicate ToKeyIn(heads: Heads, h: Head) {
    exists k :: k in heads && heads[k] == h
  }

  /** Some stored datfile extends d properly. */
  ghost predicate HasExtension(heads: Heads, d: string) {
    exists k :: k in heads && HasPrefix(heads[k].datfile, d) && heads[k].datfile != d
  }

  ghost predicate HasHead(heads: Heads, d: string) {
    exists k :: k in heads && heads[k].datfile == d
  }

  class RecentList {
    var heads: Heads

    constructor ()
      ensures heads == map[]
    {
      heads := map[];
    }

    /** find: some key starts with the key of rec. */
    method Find(rec: Head) returns (found: bool)
      requires WellKeyed(heads) && GoodHead(rec)
      ensures found <==> Known(heads, rec)
    {
      var r := Count(heads, ToKey(rec));
      forall k | k in heads ensures k in WithPrefix(heads, ToKey(rec)) <==> IsKnownBy(rec, heads[k]) {
        WholeKeyPrefix(rec, heads[k]);
      }
      if r > 0 {
        ghost var k :| k in WithPrefix(heads, ToKey(rec));
      }
      return r > 0;
    }

    /** appendHead: a head that find does not know enters the list, and every other entry is as it was. */
    method AppendHead(rec: Head)
      requires WellKeyed(heads) && GoodHead(rec)
      modifies this
      ensures WellKeyed(heads)
      ensures heads == if old(Known(heads, rec)) then old(heads) else old(heads)[ToKey(rec) := rec]
    {
      var found := Find(rec);
      if found {
        return;
      }
      heads := heads[ToKey(rec) := rec];
    }

    /** Datfiles: every distinct datfile once, in byte order. */
    method Datfiles() returns (datfiles: seq<string>)
      requires WellKeyed(heads)
      ensures Lists(datfiles, set k | k in heads :: heads[k].datfile)
    {
      var keys := ForEachKey(heads);
      var ok;
      datfiles, ok := GetPrefixs(keys);
      PartsAreDatfiles(heads, keys);
    }

    /** Newest: the last value, in key order, whose key starts with the datfile; read back from JSON. */
    method Newest(datfile: string) returns (r: Option<Head>, ghost raw: Option<Head>)
      requires WellKeyed(heads) && NoNul(datfile) && datfile != ""
      ensures IsLastUnder(heads, datfile, raw)
      ensures r == if raw.Some? then Some(Store.JsonHead(raw.value)) else None
      ensures IsLastRead(heads, datfile, r)
    {
      var rows, keys := GetPrefixed(heads, datfile);
      UnderPrefix(heads, datfile, keys);
      if |rows| == 0 {
        assert forall k :: k in heads && HasPrefix(heads[k].datfile, datfile) ==> k in keys;
        return None, None;
      }
      var n := |rows| - 1;
      assert keys[n] in keys;
      forall k | k in heads && HasPrefix(heads[k].datfile, datfile)
        ensures heads[k] == rows[n] || HeadLt(heads[k], rows[n]) {
        assert k in keys;
        var j :| 0 <= j < |keys| && keys[j] == k;
        if j < n { KeyOrder(heads[k], rows[n]); }
      }
      return Some(Store.JsonHead(rows[n])), Some(rows[n]);
    }

    /** Cache.RecentStamp. */
    method RecentStamp(rows: Store.Rows, cache: Store.Cache) returns (stamp: int)
      requires WellKeyed(heads) && Store.WellKeyed(rows) && NoNul(cache.datfile) && cache.datfile != ""
      ensures IsLarger(heads, rows, cache.datfile, stamp)
    {
      var n;
      ghost var raw;
      n, raw := Newest(cache.datfile);
      var s := cache.Stamp(rows);
      if n.None? || n.value.stamp < s {
        stamp := s;
      } else {
        stamp := n.value.stamp;
      }
      assert stamp == LargerOf(raw, s);
    }
  }

  /** r is the last head under the name as it is read back from JSON. */
  ghost predicate IsLastRead(heads: Heads, d: string, r: Option<Head>) {
    exists raw :: IsLastUnder(heads, d, raw) && r == if raw.Some? then Some(Store.JsonHead(raw.value)) else None
  }

  function LargerOf(n: Option<Head>, s: int): int {
    if n.None? || n.value.stamp < s then s else n.value.stamp
  }

  /** stamp is the larger of the last announced stamp under the name and the last stored one. */
  ghost predicate IsLarger(heads: Heads, rows: Store.Rows, d: string, stamp: int) {
    exists n, s :: IsLastUnder(heads, d, n) && Store.IsLastStamp(rows, d, s) && stamp == LargerOf(n, s)
  }

  /** r is the greatest head, in (datfile, stamp, id) order, whose datfile starts with d. */
  ghost predicate IsLastUnder(heads: Heads, d: string, r: Option<Head>) {
    match r
    case None => forall k :: k in heads ==> !HasPrefix(heads[k].datfile, d)
    case Some(h) =>
      && ToKeyIn(heads, h) && HasPrefix(h.datfile, d)
      && forall k :: k in heads && HasPrefix(heads[k].datfile, d) ==> heads[k] == h || HeadLt(heads[k], h)
  }

  lemma UnderPrefix(heads: Heads, d: string, keys: seq<string>)
    requires WellKeyed(heads) && NoNul(d) && Lists(keys, WithPrefix(heads, d))
    ensures forall k :: k in keys <==> k in heads && HasPrefix(heads[k].datfile, d)
  {
    forall k ensures k in keys <==> k in heads && HasPrefix(heads[k].datfile, d) {
      if k in heads { DatfilePrefix(d, heads[k]); }
    }
  }

  lemma PartsAreDatfiles(heads: Heads, keys: seq<string>)
    requires WellKeyed(heads) && forall k :: k in keys <==> k in heads
    ensures forall k :: k in keys ==> HasNul(k) && StringPart(k) == heads[k].datfile
    ensures StringParts(keys) == set k | k in heads :: heads[k].datfile
  {
    forall k | k in keys ensures HasNul(k) && StringPart(k) == heads[k].datfile {
      var h := heads[k];
      PartOfConcat(h.datfile, TobInt64(h.stamp) + (h.id + "\0"));
    }
  }

  /** The last head in order is one of greatest stamp exactly when the stamps are of one sign. */
  lemma LastIsNewest(heads: Heads, d: string, h: Head)
    requires ToKeyIn(heads, h) && h.datfile == d
    requires forall k :: k in heads && heads[k].datfile == d ==> heads[k] == h || HeadLt(heads[k], h)
    ensures IsNewest(heads, d, h) <==> OneSign(heads, d)
  {
    LtIrreflexive(d);
    forall k | k in heads && heads[k].datfile == d
      ensures heads[k].stamp <= h.stamp <==> (heads[k].stamp >= 0 <==> h.stamp >= 0) {
      assert heads[k] == h || heads[k].stamp == h.stamp || StampLt(heads[k].stamp, h.stamp);
    }
  }

  /**
   For a thread in the list, Newest gives its head of greatest stamp exactly when no other stored
   datfile extends the name and the thread's stamps are of one sign; without an extension it gives
   nothing exactly when the thread is not in the list.
   */
  lemma NewestExactly(heads: Heads, d: string, r: Option<Head>)
    requires WellKeyed(heads) && NoNul(d) && IsLastUnder(heads, d, r)
    ensures HasHead(heads, d) ==>
      (r.Some? && IsNewest(heads, d, r.value) <==> !HasExtension(heads, d) && OneSign(heads, d))
    ensures !HasExtension(heads, d) ==> (r.None? <==> !HasHead(heads, d))
  {
    assert HasPrefix(d, d);
    if r.Some? {
      LtIrreflexive(d);
      if !HasExtension(heads, d) {
        assert r.value.datfile == d;
        LastIsNewest(heads, d, r.value);
      } else {
        ExtensionIsLast(heads, d, r.value);
      }
    }
  }

  /** For a list in UTF-8 the head that is read back is the very head that is last under the name. */
  lemma ReadBack(heads: Heads, d: string, r: Option<Head>)
    requires IsLastRead(heads, d, r)
    requires forall k :: k in heads ==> IsUtf8(heads[k].datfile) && IsUtf8(heads[k].id)
    ensures IsLastUnder(heads, d, r)
  {
    var raw :| IsLastUnder(heads, d, raw) && r == if raw.Some? then Some(Store.JsonHead(raw.value)) else None;
    if raw.Some? {
      ViaJsonExactly(raw.value.datfile);
      ViaJsonExactly(raw.value.id);
    }
  }

  /** With heads of the threads a and ab in the list Newest of a is the head of ab. */
  lemma ExtensionHides(stamp: int, other: int)
    requires IsInt64(stamp) && IsInt64(other)
    ensures var g, h := Head("a", stamp, ""), Head("ab", other, "");
      var heads := map[ToKey(g) := g][ToKey(h) := h];
      WellKeyed(heads) && HasHead(heads, "a") && IsLastUnder(heads, "a", Some(h)) && !IsNewest(heads, "a", h)
  {
    var g, h := Head("a", stamp, ""), Head("ab", other, "");
    var heads := map[ToKey(g) := g][ToKey(h) := h];
    KeyInjective(g, h);
    assert heads[ToKey(g)] == g && heads[ToKey(h)] == h;
    assert HasPrefix("ab", "a") && HasPrefix("a", "a");
    assert "a"[1..] == "" && "ab"[1..] == "b";
    assert Lt("", "b") && Lt("a", "ab");
    assert ToKeyIn(heads, h);
  }

  lemma ExtensionIsLast(heads: Heads, d: string, h: Head)
    requires IsLastUnder(heads, d, Some(h)) && HasExtension(heads, d)
    ensures h.datfile != d
  {
    var k :| k in heads && HasPrefix(heads[k].datfile, d) && heads[k].datfile != d;
    PrefixIsBelow(d, heads[k].datfile);
    LtTotal(d, heads[k].datfile);
    LtIrreflexive(d);
  }

  /** The larger of the thread's newest announced stamp, if any, and its newest stored stamp. */
  ghost predicate IsRecentStamp(heads: Heads, rows: Store.Rows, d: string, stamp: int) {
    exists s :: Store.IsThreadStamp(rows, d, s) && stamp >= s && IsReached(heads, d, s, stamp)
      && forall k :: k in heads && heads[k].datfile == d ==> heads[k].stamp <= stamp
  }

  ghost predicate IsReached(heads: Heads, d: string, s: int, stamp: int) {
    stamp == s || exists k :: k in heads && heads[k].datfile == d && heads[k].stamp == stamp
  }

  ghost predicate IsGreatest(heads: Heads, d: string, stamp: int) {
    && (exists k :: k in heads && heads[k].datfile == d && heads[k].stamp == stamp)
    && forall k :: k in heads && heads[k].datfile == d ==> heads[k].stamp <= stamp
  }

  /** The last head under the name has the thread's greatest stamp, or the least stamp there is if it has none. */
  ghost predicate LastIsTrue(heads: Heads, d: string) {
    forall n :: IsLastUnder(heads, d, n) && n.Some? ==>
      if HasHead(heads, d) then IsGreatest(heads, d, n.value.stamp) else n.value.stamp == MIN_INT64
  }

  ghost predicate AlwaysRight(heads: Heads, d: string) {
    forall rows, stamp :: Store.WellKeyed(rows) && Store.OneSign(rows, d) && IsLarger(heads, rows, d, stamp) ==>
      IsRecentStamp(heads, rows, d, stamp)
  }

  /** So it is without an extension of the name and with stamps of one sign. */
  lemma LastIsTrueIf(heads: Heads, d: string)
    requires WellKeyed(heads) && NoNul(d) && !HasExtension(heads, d) && OneSign(heads, d)
    ensures LastIsTrue(heads, d)
  {
    forall n | IsLastUnder(heads, d, n) && n.Some?
      ensures HasHead(heads, d) && IsGreatest(heads, d, n.value.stamp) {
      NewestExactly(heads, d, n);
      assert IsNewest(heads, d, n.value);
    }
  }

  lemma RightIf(heads: Heads, rows: Store.Rows, d: string, stamp: int)
    requires LastIsTrue(heads, d) && IsLarger(heads, rows, d, stamp)
    requires Store.WellKeyed(rows) && Store.OneSign(rows, d)
    ensures IsRecentStamp(heads, rows, d, stamp)
  {
    var n, s :| IsLastUnder(heads, d, n) && Store.IsLastStamp(rows, d, s) && stamp == LargerOf(n, s);
    Store.StampExactly(rows, d, s);
    assert s >= MIN_INT64;
    assert HasPrefix(d, d);
    assert Store.IsThreadStamp(rows, d, s) && IsReached(heads, d, s, stamp);
  }

  /** So RecentStamp is right when no listed datfile extends the name and no sign is mixed. */
  lemma RecentStampIs(heads: Heads, rows: Store.Rows, d: string, stamp: int)
    requires WellKeyed(heads) && NoNul(d) && IsLarger(heads, rows, d, stamp)
    requires Store.WellKeyed(rows) && !HasExtension(heads, d) && OneSign(heads, d) && Store.OneSign(rows, d)
    ensures IsRecentStamp(heads, rows, d, stamp)
  {
    LastIsTrueIf(heads, d);
    RightIf(heads, rows, d, stamp);
  }

  // One record of the least stamp there is.
  function EarliestRow(d: string): Store.Rows
    requires IsUtf8(d)
  {
    map[ToKey(Head(d, MIN_INT64, "")) := Store.Row(Head(d, MIN_INT64, ""), "", false)]
  }

  lemma EarliestStamp(d: string, s: int)
    requires IsUtf8(d) && NoNul(d)
    ensures var rows := EarliestRow(d);
      && Store.WellKeyed(rows) && Store.OneSign(rows, d)
      && (Store.IsLastStamp(rows, d, s) <==> s == MIN_INT64) && (Store.IsThreadStamp(rows, d, s) <==> s == MIN_INT64)
  {
    var rows, k := EarliestRow(d), ToKey(Head(d, MIN_INT64, ""));
    assert Store.AliveKeys(rows, d) == {k};
  }

  lemma TrueIfRight(heads: Heads, d: string, n: Option<Head>)
    requires WellKeyed(heads) && NoNul(d) && IsUtf8(d) && AlwaysRight(heads, d) && IsLastUnder(heads, d, n) && n.Some?
    ensures if HasHead(heads, d) then IsGreatest(heads, d, n.value.stamp) else n.value.stamp == MIN_INT64
  {
    var rows, stamp := EarliestRow(d), n.value.stamp;
    EarliestStamp(d, MIN_INT64);
    assert stamp == LargerOf(n, MIN_INT64);
    assert IsLarger(heads, rows, d, stamp);
    var s :| Store.IsThreadStamp(rows, d, s) && stamp >= s && IsReached(heads, d, s, stamp)
      && forall k :: k in heads && heads[k].datfile == d ==> heads[k].stamp <= stamp;
    EarliestStamp(d, s);
  }

  /**
   RecentStamp returns the larger of the newest announced and the newest stored stamp, whatever
   records of one sign are stored, exactly when the last head under the name has the true stamp.
   */
  lemma RecentStampExactly(heads: Heads, d: string)
    requires WellKeyed(heads) && NoNul(d) && IsUtf8(d)
    ensures AlwaysRight(heads, d) <==> LastIsTrue(heads, d)
  {
    if AlwaysRight(heads, d) {
      forall n | IsLastUnder(heads, d, n) && n.Some?
        ensures if HasHead(heads, d) then IsGreatest(heads, d, n.value.stamp) else n.value.stamp == MIN_INT64 {
        TrueIfRight(heads, d, n);
      }
    }
    if LastIsTrue(heads, d) {
      forall rows, stamp | Store.WellKeyed(rows) && Store.OneSign(rows, d) && IsLarger(heads, rows, d, stamp)
        ensures IsRecentStamp(heads, rows, d, stamp) {
        RightIf(heads, rows, d, stamp);
      }
    }
  }
}
