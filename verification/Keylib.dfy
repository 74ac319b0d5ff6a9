/**
 mch/keylib/keylib.go: the stamps that stand for threads on the 2ch side, kept both ways.
 keylibST maps a stamp to its thread, keylibTS a thread to its stamp.
 */
module Keylib {
  import opened Wrappers
  import opened Text
  import opened Keys
  import opened Bucket
  import opened Records

  datatype Lib = Lib(st: map<int, string>, ts: map<string, int>)

  /** The two buckets are inverse partial bijections, and stamps are int64 values. */
  ghost predicate Inv(k: Lib) {
    && (forall s :: s in k.st ==> IsInt64(s) && k.st[s] in k.ts && k.ts[k.st[s]] == s)
    && (forall f :: f in k.ts ==> f != "" && k.ts[f] in k.st && k.st[k.ts[f]] == f)
  }

  /** The bucket does not hold every int64, so a probe for a free stamp ends. */
  ghost predicate HasRoom(k: Lib) {
    |k.st| < TWO_TO_64
  }

  // ------------------------------------------------------------------ probing

  /** s++ on an int64. */
  function Incr(s: int): int {
    if s == MAX_INT64 then MIN_INT64 else s + 1
  }

  /** i increments of n. */
  function WrapAdd(n: int, i: nat): int {
    if i == 0 then n else Incr(WrapAdd(n, i - 1))
  }

  /** s is i steps after start, and the first stamp from start on that is free. */
  ghost predicate IsFirstFree(st: map<int, string>, start: int, s: int, i: nat) {
    && s == WrapAdd(start, i) && s !in st
    && forall j: nat :: j < i ==> WrapAdd(start, j) in st
  }

  ghost function Range(lo: int, n: nat): (r: set<int>)
    ensures |r| == n && forall x :: x in r <==> lo <= x < lo + n
  {
    if n == 0 then {} else Range(lo, n - 1) + {lo + n - 1}
  }

  lemma AllTaken(st: map<int, string>, lo: int, n: nat)
    requires forall x :: lo <= x < lo + n ==> x in st
    ensures |st| >= n
  {
    SubsetSize(Range(lo, n), st.Keys);
  }

  lemma FreeExists(st: map<int, string>) returns (f: int)
    requires |st| < TWO_TO_64
    ensures IsInt64(f) && f !in st
  {
    if forall x :: MIN_INT64 <= x < MIN_INT64 + TWO_TO_64 ==> x in st {
      AllTaken(st, MIN_INT64, TWO_TO_64);
    }
    f :| MIN_INT64 <= f < MIN_INT64 + TWO_TO_64 && f !in st;
  }

  lemma {:induction false} WrapAddInt64(n: int, i: nat)
    requires IsInt64(n)
    ensures IsInt64(WrapAdd(n, i))
  {
    if i > 0 { WrapAddInt64(n, i - 1); }
  }

  lemma {:induction false} NoWrap(n: int, i: nat)
    requires n + i <= MAX_INT64
    ensures WrapAdd(n, i) == n + i
  {
    if i > 0 { NoWrap(n, i - 1); }
  }

  lemma {:induction false} WrapAddAdd(n: int, i: nat, j: nat)
    ensures WrapAdd(n, i + j) == WrapAdd(WrapAdd(n, i), j)
  {
    if j > 0 { WrapAddAdd(n, i, j - 1); }
  }

  lemma StepsTo(start: int, f: int) returns (i: nat)
    requires IsInt64(start) && IsInt64(f)
    ensures WrapAdd(start, i) == f
  {
    if f >= start {
      i := f - start;
      NoWrap(start, i);
    } else {
      var k: nat := MAX_INT64 - start;
      NoWrap(start, k);
      NoWrap(MIN_INT64, f - MIN_INT64);
      WrapAddAdd(start, k + 1, f - MIN_INT64);
      i := k + 1 + (f - MIN_INT64);
    }
  }

  /** Without reaching the end of int64, the first free stamp is the least free one from start on. */
  lemma FirstFreeIsLeast(st: map<int, string>, start: int, s: int, i: nat, f: int)
    requires IsInt64(start) && IsFirstFree(st, start, s, i) && IsInt64(f) && start <= f && f !in st
    ensures start <= s <= f
    ensures forall x :: start <= x < s ==> x in st
  {
    var n: nat := f - start;
    NoWrap(start, n);
    assert i <= n;
    NoWrap(start, i);
    forall x | start <= x < s ensures x in st {
      NoWrap(start, x - start);
    }
  }

  // ------------------------------------------------------------------ allocation on values

  /** What one allocation leaves: nothing new for a known thread, else one pair at a first free stamp. */
  ghost predicate Allocates(before: Lib, after: Lib, f: string, start: int) {
    if f in before.ts then after == before
    else exists s, i: nat :: IsFirstFree(before.st, start, s, i) && after == Lib(before.st[s := f], before.ts[f := s])
  }

  /** Every thread with a stamp keeps it. */
  ghost predicate Extends(before: Lib, after: Lib) {
    forall g :: g in before.ts ==> g in after.ts && after.ts[g] == before.ts[g]
  }

  lemma InsertInv(k: Lib, s: int, f: string)
    requires Inv(k) && f != "" && IsInt64(s) && s !in k.st && f !in k.ts
    ensures Inv(Lib(k.st[s := f], k.ts[f := s])) && Extends(k, Lib(k.st[s := f], k.ts[f := s]))
  {
  }

  lemma AllocateInv(before: Lib, after: Lib, f: string, start: int)
    requires Inv(before) && f != "" && IsInt64(start) && Allocates(before, after, f, start)
    ensures Inv(after) && f in after.ts && Extends(before, after)
    ensures |after.st| <= |before.st| + 1
  {
    if f !in before.ts {
      var s, i: nat :| IsFirstFree(before.st, start, s, i) && after == Lib(before.st[s := f], before.ts[f := s]);
      WrapAddInt64(start, i);
      InsertInv(before, s, f);
      assert after.st.Keys == before.st.Keys + {s};
    }
  }

  /** A run: each state follows from the one before by one allocation. */
  ghost predicate IsRun(run: seq<Lib>, fs: seq<string>, starts: seq<int>) {
    && |run| == |fs| + 1 && |starts| == |fs|
    && forall i :: 0 <= i < |fs| ==>
      fs[i] != "" && IsInt64(starts[i]) && Allocates(run[i], run[i + 1], fs[i], starts[i])
  }

  /**
   Over every run the two buckets stay inverse partial bijections, every thread asked for has a
   stamp, and a stamp once given never changes.
   */
  lemma {:induction false} RunInv(run: seq<Lib>, fs: seq<string>, starts: seq<int>, i: nat, j: nat)
    requires IsRun(run, fs, starts) && Inv(run[0]) && i <= j < |run|
    ensures Inv(run[i]) && Inv(run[j])
    ensures Extends(run[i], run[j])
    ensures forall n :: i <= n < j ==> fs[n] in run[j].ts
    decreases j
  {
    if j > 0 {
      if i < j {
        RunInv(run, fs, starts, i, j - 1);
        AllocateInv(run[j - 1], run[j], fs[j - 1], starts[j - 1]);
      } else {
        RunInv(run, fs, starts, j - 1, j - 1);
        AllocateInv(run[j - 1], run[j], fs[j - 1], starts[j - 1]);
      }
    }
  }

  // ------------------------------------------------------------------ the object

  /** What setFromCache reads of a thread: its alive records by "stamp_id", and its recent stamp. */
  datatype CacheView = CacheView(datfile: string, hasRecord: bool, alive: map<string, Head>, recentStamp: int)

  predicate ViewValid(c: CacheView) {
    && c.datfile != "" && IsInt64(c.recentStamp)
    && forall k :: k in c.alive ==> IsInt64(c.alive[k].stamp)
  }

  /** Where the probe starts: the recent stamp, the first record in string order of its name, or a day ago. */
  function StartStamp(c: CacheView, dayAgo: int): int {
    if !c.hasRecord then c.recentStamp
    else
      var first := Least(c.alive.Keys);
      if first.Some? then c.alive[first.value].stamp else dayAgo
  }

  /** The alive records are listed under their "stamp_id", with stamps from 0 on. */
  ghost predicate Named(c: CacheView) {
    forall k :: k in c.alive ==> k == Idstr(c.alive[k]) && c.alive[k].stamp >= 0
  }

  ghost predicate IsAliveStamp(c: CacheView, n: int) {
    exists k :: k in c.alive && c.alive[k].stamp == n
  }

  lemma NameOrder(g: Head, h: Head)
    requires g.stamp >= 0 && h.stamp >= 0 && g.stamp != h.stamp
    ensures Lt(Idstr(g), Idstr(h)) <==> Lt(Itoa(g.stamp) + "_", Itoa(h.stamp) + "_")
  {
    DigitsRoundTrip(g.stamp);
    DigitsRoundTrip(h.stamp);
    EndedFieldOrder(Itoa(g.stamp), Itoa(h.stamp), '_', g.id, h.id);
  }

  /** Without alive records the probe starts at the recent stamp or a day ago, else at the stamp of an alive one. */
  lemma StartIsListed(c: CacheView, dayAgo: int)
    ensures !c.hasRecord ==> StartStamp(c, dayAgo) == c.recentStamp
    ensures c.hasRecord && c.alive == map[] ==> StartStamp(c, dayAgo) == dayAgo
    ensures c.hasRecord && c.alive != map[] ==> IsAliveStamp(c, StartStamp(c, dayAgo))
  {
    if c.alive != map[] {
      var k :| k in c.alive;
      assert c.alive.Keys != {};
    }
  }

  /**
   The names are in string order, so the stamp it starts at is the least of the alive ones if and
   only if no other is before it as a text that ends in an underscore.
   */
  lemma StartIsLeastExactly(c: CacheView, dayAgo: int, least: int)
    requires c.hasRecord && Named(c)
    requires IsAliveStamp(c, least) && forall n :: IsAliveStamp(c, n) ==> least <= n
    ensures StartStamp(c, dayAgo) == least
       <==> forall n :: IsAliveStamp(c, n) ==> !Lt(Itoa(n) + "_", Itoa(least) + "_")
  {
    var j :| j in c.alive && c.alive[j].stamp == least;
    assert c.alive.Keys != {};
    var k := Least(c.alive.Keys).value;
    var start := c.alive[k].stamp;
    LtIrreflexive(Itoa(least) + "_");
    if start == least {
      forall n | IsAliveStamp(c, n) ensures !Lt(Itoa(n) + "_", Itoa(least) + "_") {
        var i :| i in c.alive && c.alive[i].stamp == n;
        if n != least {
          NameOrder(c.alive[k], c.alive[i]);
          LtTotal(Itoa(n) + "_", Itoa(least) + "_");
        }
      }
    } else {
      assert IsAliveStamp(c, start);
      NameOrder(c.alive[k], c.alive[j]);
    }
  }

  /** So it is when the alive stamps have equally many digits, as the stamps since September 2001 do. */
  lemma StartIsLeast(c: CacheView, dayAgo: int, least: int)
    requires c.hasRecord && Named(c)
    requires IsAliveStamp(c, least) && forall n :: IsAliveStamp(c, n) ==> least <= n
    requires forall n :: IsAliveStamp(c, n) ==> |Itoa(n)| == |Itoa(least)|
    ensures StartStamp(c, dayAgo) == least
  {
    forall n | IsAliveStamp(c, n) ensures !Lt(Itoa(n) + "_", Itoa(least) + "_") {
      DigitsOrder(n, least);
      LtConcat(Itoa(n), Itoa(least), "_", "_");
      LtIrreflexive("_");
    }
    StartIsLeastExactly(c, dayAgo, least);
  }

  /** Of the alive stamps 9 and 10 the probe starts at 10. */
  lemma TenBeforeNine(dayAgo: int)
    ensures var nine, ten := Head("t", 9, "a"), Head("t", 10, "a");
      StartStamp(CacheView("t", true, map[Idstr(nine) := nine, Idstr(ten) := ten], 0), dayAgo) == 10
  {
    var nine, ten := Head("t", 9, "a"), Head("t", 10, "a");
    assert Idstr(nine)[0] == '9' && Idstr(ten)[0] == '1';
    var keys := (map[Idstr(nine) := nine, Idstr(ten) := ten]).Keys;
    assert Idstr(nine) in keys && Idstr(ten) in keys;
    assert Lt(Idstr(ten), Idstr(nine));
    LtTotal(Idstr(ten), Idstr(nine));
  }

  class KeyLibrary {
    var lib: Lib

    constructor ()
      ensures lib == Lib(map[], map[]) && Inv(lib)
    {
      lib := Lib(map[], map[]);
    }

    method SetEntry(stamp: int, filekey: string)
      modifies this
      ensures lib == Lib(old(lib).st[stamp := filekey], old(lib).ts[filekey := stamp])
    {
      lib := lib.(st := lib.st[stamp := filekey]);
      lib := lib.(ts := lib.ts[filekey := stamp]);
    }

    method SetFromCache(c: CacheView, dayAgo: int)
      requires Inv(lib) && HasRoom(lib) && ViewValid(c) && IsInt64(dayAgo)
      modifies this
      ensures Allocates(old(lib), lib, c.datfile, StartStamp(c, dayAgo)) && Inv(lib)
      ensures c.datfile in lib.ts && Extends(old(lib), lib) && |lib.st| <= |old(lib).st| + 1
    {
      if c.datfile in lib.ts {
        return;
      }
      var start := StartStamp(c, dayAgo);
      var firstStamp := start;
      ghost var i: nat := 0;
      ghost var f := FreeExists(lib.st);
      ghost var n := StepsTo(start, f);
      while firstStamp in lib.st
        invariant firstStamp == WrapAdd(start, i) && i <= n
        invariant forall j: nat :: j < i ==> WrapAdd(start, j) in lib.st
        decreases n - i
      {
        assert i != n;
        firstStamp := Incr(firstStamp);
        i := i + 1;
      }
      ghost var before := lib;
      assert IsFirstFree(before.st, start, firstStamp, i);
      SetEntry(firstStamp, c.datfile);
      assert lib == Lib(before.st[firstStamp := c.datfile], before.ts[c.datfile := firstStamp]);
      AllocateInv(old(lib), lib, c.datfile, start);
    }

    /** GetDatkey, then GetFilekey of its result, is the thread asked for. */
    method GetDatkey(c: CacheView, dayAgo: int) returns (v: int)
      requires Inv(lib) && HasRoom(lib) && ViewValid(c) && IsInt64(dayAgo)
      modifies this
      ensures Allocates(old(lib), lib, c.datfile, StartStamp(c, dayAgo)) && Inv(lib)
      ensures c.datfile in lib.ts && v == lib.ts[c.datfile] && v in lib.st && lib.st[v] == c.datfile
    {
      if c.datfile in lib.ts {
        return lib.ts[c.datfile];
      }
      SetFromCache(c, dayAgo);
      return lib.ts[c.datfile];
    }

    method GetFilekey(nDatkey: int) returns (f: string)
      requires Inv(lib)
      ensures f != "" <==> nDatkey in lib.st
      ensures f != "" ==> f in lib.ts && lib.ts[f] == nDatkey
    {
      if nDatkey in lib.st { return lib.st[nDatkey]; }
      return "";
    }

    /** Load: afterwards every thread of the list has a stamp, and old stamps are as they were. */
    method Load(caches: seq<CacheView>, dayAgo: int)
      requires Inv(lib) && |lib.st| + |caches| < TWO_TO_64 && IsInt64(dayAgo)
      requires forall i :: 0 <= i < |caches| ==> ViewValid(caches[i])
      modifies this
      ensures Inv(lib)
      ensures Extends(old(lib), lib)
      ensures forall i :: 0 <= i < |caches| ==> caches[i].datfile in lib.ts
    {
      for i := 0 to |caches|
        invariant Inv(lib) && |lib.st| <= |old(lib).st| + i
        invariant Extends(old(lib), lib)
        invariant forall j :: 0 <= j < i ==> caches[j].datfile in lib.ts
      {
        SetFromCache(caches[i], dayAgo);
      }
    }
  }
}
