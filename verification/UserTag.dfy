/**
 tag/user/user.go: the tags users give to threads, kept by thread in usertag and by tag in usertagTag.
 */
module UserTag {
  import opened Wrappers
  import opened JsonText
  import opened SetBucket
  import opened Bucket

  datatype Tags = Tags(usertag: Index, usertagTag: Index)

  ghost predicate Inv(tg: Tags) {
    Inverse(tg.usertag, tg.usertagTag)
  }

  /** thread carries tag. */
  predicate Carries(tg: Tags, thread: string, tag: string) {
    HasVal(tg.usertag, thread, tag)
  }

  // ------------------------------------------------------------------ the operations on values

  /** AddTX: an empty tag, or an empty thread with a tag, is an error. */
  function AddAll(tg: Tags, thread: string, tags: seq<string>): Option<Tags>
    decreases |tags|
  {
    if tags == [] then Some(tg)
    else
      var u, t := PutMap(tg.usertag, thread, tags[0]), PutMap(tg.usertagTag, tags[0], thread);
      if u.None? || t.None? then None else AddAll(Tags(u.value, t.value), thread, tags[1..])
  }

  /** The first part of Set: all tags of a thread taken off, an error if a tag is not a key of usertagTag. */
  function Strip(tg: Tags, thread: string): Option<Tags> {
    var ts := if thread in tg.usertag then tg.usertag[thread] else {};
    var byTag := DelAll(tg.usertagTag, ts, thread);
    if byTag.None? then None else Some(Tags(tg.usertag - {thread}, byTag.value))
  }

  function SetAll(tg: Tags, thread: string, tags: seq<string>): Option<Tags> {
    var stripped := Strip(tg, thread);
    if stripped.None? then None else AddAll(stripped.value, thread, tags)
  }

  /** The database refuses an empty key. */
  predicate Storable(thread: string, tags: seq<string>) {
    tags == [] || (thread != "" && "" !in tags)
  }

  /** Some tag of the list is y once it is stored. */
  ghost predicate Stores(tags: seq<string>, y: string) {
    exists t :: t in tags && ViaJson(t) == y
  }

  ghost predicate AllText(thread: string, tags: seq<string>) {
    IsUtf8(thread) && forall t :: t in tags ==> IsUtf8(t)
  }

  lemma StoresText(tags: seq<string>, y: string)
    requires forall t :: t in tags ==> IsUtf8(t)
    ensures Stores(tags, y) <==> y in tags
  {
    forall t | t in tags ensures ViaJson(t) == t { ViaJsonExactly(t); }
  }

  lemma StoresCons(tags: seq<string>, y: string)
    requires tags != []
    ensures Stores(tags, y) <==> ViaJson(tags[0]) == y || Stores(tags[1..], y)
  {
    assert forall t :: t in tags <==> t == tags[0] || t in tags[1..];
  }

  /** What AddTX adds to either bucket. */
  lemma {:induction false} AddEffect(tg: Tags, thread: string, tags: seq<string>)
    ensures AddAll(tg, thread, tags).Some? <==> Storable(thread, tags)
    ensures Storable(thread, tags) ==>
      var r := AddAll(tg, thread, tags).value;
      && (forall x, y :: HasVal(r.usertag, x, y) <==> HasVal(tg.usertag, x, y) || (x == thread && Stores(tags, y)))
      && (forall x, y :: HasVal(r.usertagTag, y, x) <==>
            HasVal(tg.usertagTag, y, x) || (y in tags && x == ViaJson(thread)))
      && (NoEmpty(tg.usertag) ==> NoEmpty(r.usertag)) && (NoEmpty(tg.usertagTag) ==> NoEmpty(r.usertagTag))
    decreases |tags|
  {
    if tags != [] {
      assert forall y :: y in tags <==> y == tags[0] || y in tags[1..];
      forall y ensures Stores(tags, y) <==> ViaJson(tags[0]) == y || Stores(tags[1..], y) { StoresCons(tags, y); }
      var u, t := PutMap(tg.usertag, thread, tags[0]), PutMap(tg.usertagTag, tags[0], thread);
      if u.Some? && t.Some? {
        AddEffect(Tags(u.value, t.value), thread, tags[1..]);
      }
    }
  }

  /** AddTX leaves the two buckets inverse exactly when it adds nothing or all its strings are UTF-8. */
  lemma AddInvExactly(tg: Tags, thread: string, tags: seq<string>)
    requires Inv(tg) && Storable(thread, tags)
    ensures AddAll(tg, thread, tags).Some?
    ensures Inv(AddAll(tg, thread, tags).value) <==> tags == [] || AllText(thread, tags)
  {
    AddEffect(tg, thread, tags);
    var r := AddAll(tg, thread, tags).value;
    if AllText(thread, tags) {
      ViaJsonExactly(thread);
      forall y ensures Stores(tags, y) <==> y in tags { StoresText(tags, y); }
    }
    if Inv(r) && tags != [] {
      forall t | t in tags ensures IsName(t) && IsName(thread) {
        assert HasVal(r.usertagTag, t, ViaJson(thread)) && t in r.usertagTag;
        InverseOther(r.usertag, r.usertagTag, t, "");
        assert Stores(tags, ViaJson(t));
        assert HasVal(r.usertag, thread, ViaJson(t)) && thread in r.usertag;
        InverseKeys(r.usertag, r.usertagTag, thread);
      }
      assert tags[0] in tags;
    }
  }

  lemma StripEffect(tg: Tags, thread: string)
    requires Inv(tg)
    ensures Strip(tg, thread).Some? && Inv(Strip(tg, thread).value)
    ensures forall x, y :: Carries(Strip(tg, thread).value, x, y) <==> Carries(tg, x, y) && x != thread
  {
    var ts := if thread in tg.usertag then tg.usertag[thread] else {};
    forall t | t in ts ensures t in tg.usertagTag { assert HasVal(tg.usertag, thread, t); }
    WithoutEffect(tg.usertagTag, ts, thread);
    var r := Strip(tg, thread).value;
    forall x, y ensures HasVal(r.usertag, x, y) <==> HasVal(r.usertagTag, y, x) {
      assert HasVal(tg.usertag, x, y) <==> HasVal(tg.usertagTag, y, x);
    }
  }

  /**
   Set leaves its thread with exactly what is stored of the given tags, every other thread with its
   own, and the buckets inverse exactly when it adds nothing or all its strings are UTF-8.
   */
  lemma SetEffect(tg: Tags, thread: string, tags: seq<string>)
    requires Inv(tg) && Storable(thread, tags)
    ensures SetAll(tg, thread, tags).Some?
    ensures forall x, y :: Carries(SetAll(tg, thread, tags).value, x, y) <==>
      if x == thread then Stores(tags, y) else Carries(tg, x, y)
    ensures Inv(SetAll(tg, thread, tags).value) <==> tags == [] || AllText(thread, tags)
  {
    StripEffect(tg, thread);
    AddEffect(Strip(tg, thread).value, thread, tags);
    AddInvExactly(Strip(tg, thread).value, thread, tags);
  }

  /** For tags in UTF-8 that is: exactly the given tags. */
  lemma SetTags(tg: Tags, thread: string, tags: seq<string>)
    requires Inv(tg) && Storable(thread, tags) && AllText(thread, tags)
    ensures SetAll(tg, thread, tags).Some? && Inv(SetAll(tg, thread, tags).value)
    ensures forall x, y :: Carries(SetAll(tg, thread, tags).value, x, y) <==>
      if x == thread then y in tags else Carries(tg, x, y)
  {
    SetEffect(tg, thread, tags);
    forall y ensures Stores(tags, y) <==> y in tags { StoresText(tags, y); }
  }

  // ------------------------------------------------------------------ setting again

  /** Set fails exactly when a tag the thread carries is not a key of usertagTag. */
  lemma SetFailsExactly(tg: Tags, thread: string, tags: seq<string>)
    requires Storable(thread, tags)
    ensures SetAll(tg, thread, tags).None? <==> exists y :: Carries(tg, thread, y) && y !in tg.usertagTag
  {
    var ts := if thread in tg.usertag then tg.usertag[thread] else {};
    assert forall y: string :: y in ts <==> Carries(tg, thread, y);
    if Strip(tg, thread).Some? {
      AddEffect(Strip(tg, thread).value, thread, tags);
    }
  }

  ghost predicate CarriedByOther(tg: Tags, thread: string, y: string) {
    exists x :: x != thread && Carries(tg, x, y)
  }

  /** The keys of usertagTag after Set: the given tags, and what another thread carries. */
  lemma KeysAfterSet(tg: Tags, thread: string, tags: seq<string>, y: string)
    requires Inv(tg) && Storable(thread, tags)
    ensures SetAll(tg, thread, tags).Some?
    ensures y in SetAll(tg, thread, tags).value.usertagTag <==> y in tags || CarriedByOther(tg, thread, y)
  {
    StripEffect(tg, thread);
    var stripped := Strip(tg, thread).value;
    AddEffect(stripped, thread, tags);
    var r := AddAll(stripped, thread, tags).value;
    HasSome(r.usertagTag, y);
    forall x ensures HasVal(stripped.usertagTag, y, x) <==> x != thread && Carries(tg, x, y) {
      assert Carries(stripped, x, y) <==> HasVal(stripped.usertagTag, y, x);
    }
    assert forall x :: HasVal(r.usertagTag, y, x) <==>
      (x != thread && Carries(tg, x, y)) || (y in tags && x == ViaJson(thread));
    if y in tags { assert HasVal(r.usertagTag, y, ViaJson(thread)); }
    if x :| x != thread && Carries(tg, x, y) { assert HasVal(r.usertagTag, y, x); }
    if x :| HasVal(r.usertagTag, y, x) { assert y in tags || Carries(tg, x, y); }
  }

  /** A given tag whose stored form is neither given nor carried by another thread. */
  ghost predicate Orphan(tg: Tags, thread: string, tags: seq<string>, t: string) {
    t in tags && ViaJson(t) !in tags && !CarriedByOther(tg, thread, ViaJson(t))
  }

  /** After a Set every further Set of the thread fails exactly when one of the tags is an orphan. */
  lemma SetAgainFailsExactly(tg: Tags, thread: string, tags: seq<string>, later: seq<string>)
    requires Inv(tg) && Storable(thread, tags) && Storable(thread, later)
    ensures SetAll(tg, thread, tags).Some?
    ensures SetAll(SetAll(tg, thread, tags).value, thread, later).None? <==> exists t :: Orphan(tg, thread, tags, t)
  {
    SetEffect(tg, thread, tags);
    var mid := SetAll(tg, thread, tags).value;
    SetFailsExactly(mid, thread, later);
    if y :| Carries(mid, thread, y) && y !in mid.usertagTag {
      assert Stores(tags, y);
      var t :| t in tags && ViaJson(t) == y;
      KeysAfterSet(tg, thread, tags, y);
      assert Orphan(tg, thread, tags, t);
    }
    if t :| Orphan(tg, thread, tags, t) {
      KeysAfterSet(tg, thread, tags, ViaJson(t));
      assert Stores(tags, ViaJson(t)) && Carries(mid, thread, ViaJson(t));
    }
  }

  /** So a tag that is not UTF-8 blocks its thread unless its stored form is a known tag. */
  lemma BadTagBlocks(tg: Tags, thread: string, tags: seq<string>, t: string, later: seq<string>)
    requires Inv(tg) && Storable(thread, tags) && Storable(thread, later)
    requires t in tags && !IsUtf8(t) && ViaJson(t) !in tags && !CarriedByOther(tg, thread, ViaJson(t))
    ensures SetAll(tg, thread, tags).Some? && SetAll(SetAll(tg, thread, tags).value, thread, later).None?
  {
    assert Orphan(tg, thread, tags, t);
    SetAgainFailsExactly(tg, thread, tags, later);
  }

  /** The tag FF, given to a thread of a fresh database, does both. */
  lemma ByteFFBlocks(thread: string, later: seq<string>)
    requires thread != "" && Storable(thread, later)
    ensures var r := SetAll(Tags(map[], map[]), thread, [FF]);
      r.Some? && !Inv(r.value) && SetAll(r.value, thread, later).None?
  {
    ByteFF();
    assert [FF][0] == FF;
    SetEffect(Tags(map[], map[]), thread, [FF]);
    BadTagBlocks(Tags(map[], map[]), thread, [FF], FF, later);
  }

  /** The pair that a given tag leaves in usertagTag is taken off again, is given again or was there. */
  ghost predicate Settled(tg: Tags, thread: string, t: string, second: seq<string>) {
    (IsUtf8(thread) && IsUtf8(t)) || t in second || Carries(tg, ViaJson(thread), t)
  }

  /**
   Only the last Set of a thread counts, exactly when no tag of the first is an orphan and all of
   them are settled; so for all tags in UTF-8.
   */
  lemma SetTwice(tg: Tags, thread: string, first: seq<string>, second: seq<string>)
    requires Inv(tg) && Storable(thread, first) && Storable(thread, second)
    ensures SetAll(tg, thread, first).Some?
    ensures SetAll(SetAll(tg, thread, first).value, thread, second) == SetAll(tg, thread, second)
       <==> (forall t :: t in first ==> !Orphan(tg, thread, first, t) && Settled(tg, thread, t, second))
    ensures AllText(thread, first) ==>
      SetAll(SetAll(tg, thread, first).value, thread, second) == SetAll(tg, thread, second)
  {
    SetEffect(tg, thread, second);
    SetAgainFailsExactly(tg, thread, first, second);
    var mid := SetAll(tg, thread, first).value;
    if SetAll(mid, thread, second).Some? {
      SetTwiceTags(tg, thread, first, second);
    }
    forall t | t in first && AllText(thread, first) ensures !Orphan(tg, thread, first, t) {
      ViaJsonExactly(t);
    }
  }

  lemma SetTwiceTags(tg: Tags, thread: string, first: seq<string>, second: seq<string>)
    requires Inv(tg) && Storable(thread, first) && Storable(thread, second)
    requires SetAll(tg, thread, first).Some? && SetAll(tg, thread, second).Some?
    requires SetAll(SetAll(tg, thread, first).value, thread, second).Some?
    ensures SetAll(SetAll(tg, thread, first).value, thread, second) == SetAll(tg, thread, second)
       <==> forall t :: t in first ==> Settled(tg, thread, t, second)
  {
    var s1, s2 := Strip(tg, thread).value, Strip(SetAll(tg, thread, first).value, thread).value;
    AfterStrip(tg, thread, first);
    AddEffect(s1, thread, second);
    AddEffect(s2, thread, second);
    var r1, r2 := AddAll(s1, thread, second).value, AddAll(s2, thread, second).value;
    SameRelation(r1.usertag, r2.usertag);
    forall y ensures (forall x :: HasVal(r1.usertagTag, y, x) <==> HasVal(r2.usertagTag, y, x))
      <==> (y in first ==> Settled(tg, thread, y, second)) {
      TextCarries(tg, ViaJson(thread), y);
      ViaJsonExactly(thread);
      assert HasVal(r2.usertagTag, y, ViaJson(thread)) <==>
        HasVal(s1.usertagTag, y, ViaJson(thread)) || y in second
        || (y in first && !(thread == ViaJson(thread) && IsUtf8(y)));
    }
    if forall t :: t in first ==> Settled(tg, thread, t, second) {
      SameRelation(r1.usertagTag, r2.usertagTag);
    }
  }

  lemma TextCarries(tg: Tags, x: string, y: string)
    ensures Carries(tg, x, y) ==> IsUtf8(y)
  {
  }

  // What is left of a first Set when the tags of its thread, which had none, are taken off again.
  lemma StripAfterAdd(s1: Tags, thread: string, first: seq<string>, mid: Tags, x: string, y: string)
    requires Inv(s1) && Storable(thread, first) && AddAll(s1, thread, first) == Some(mid)
    requires Strip(mid, thread).Some? && forall t :: !Carries(s1, thread, t)
    ensures var s2 := Strip(mid, thread).value;
      && NoEmpty(s2.usertag) && NoEmpty(s2.usertagTag)
      && (HasVal(s2.usertag, x, y) <==> HasVal(s1.usertag, x, y))
      && (HasVal(s2.usertagTag, y, x) <==>
            HasVal(s1.usertagTag, y, x) || (y in first && x == ViaJson(thread) && !(x == thread && IsUtf8(y))))
  {
    AddEffect(s1, thread, first);
    var ts := if thread in mid.usertag then mid.usertag[thread] else {};
    WithoutEffect(mid.usertagTag, ts, thread);
    assert !Carries(s1, thread, y) && (HasVal(s1.usertagTag, y, thread) <==> Carries(s1, thread, y));
    assert y in ts <==> HasVal(mid.usertag, thread, y);
    if y in first {
      ViaJsonExactly(y);
      assert IsUtf8(y) ==> Stores(first, y);
    }
  }

  // The two databases that the tags of a second Set are added to.
  lemma AfterStrip(tg: Tags, thread: string, first: seq<string>)
    requires Inv(tg) && Storable(thread, first)
    requires SetAll(tg, thread, first).Some? && Strip(SetAll(tg, thread, first).value, thread).Some?
    ensures Strip(tg, thread).Some? && Inv(Strip(tg, thread).value)
    ensures var s1, s2 := Strip(tg, thread).value, Strip(SetAll(tg, thread, first).value, thread).value;
      && NoEmpty(s2.usertag) && NoEmpty(s2.usertagTag)
      && (forall x, y :: HasVal(s1.usertag, x, y) <==> HasVal(s2.usertag, x, y))
      && (forall x, y :: HasVal(s1.usertagTag, y, x) <==> x != thread && Carries(tg, x, y))
      && (forall x, y :: HasVal(s2.usertagTag, y, x) <==>
            HasVal(s1.usertagTag, y, x) || (y in first && x == ViaJson(thread) && !(x == thread && IsUtf8(y))))
  {
    StripEffect(tg, thread);
    var s1, mid := Strip(tg, thread).value, SetAll(tg, thread, first).value;
    StripAfterAdd(s1, thread, first, mid, "", "");
    forall x, y ensures HasVal(s1.usertagTag, y, x) <==> x != thread && Carries(tg, x, y) {
      assert Carries(s1, x, y) <==> HasVal(s1.usertagTag, y, x);
    }
    var s2 := Strip(mid, thread).value;
    forall x, y ensures HasVal(s1.usertag, x, y) <==> HasVal(s2.usertag, x, y) {
      StripAfterAdd(s1, thread, first, mid, x, y);
    }
    forall x, y ensures HasVal(s2.usertagTag, y, x) <==>
        HasVal(s1.usertagTag, y, x) || (y in first && x == ViaJson(thread) && !(x == thread && IsUtf8(y))) {
      StripAfterAdd(s1, thread, first, mid, x, y);
    }
  }

  // ------------------------------------------------------------------ the object

  class UserTags {
    var db: Tags

    constructor ()
      ensures db == Tags(map[], map[]) && Inv(db)
    {
      db := Tags(map[], map[]);
    }

    /** AddTX on the working copy of an open transaction. */
    method AddTX(work: Tags, thread: string, tags: seq<string>) returns (after: Tags, ok: bool)
      ensures ok <==> Storable(thread, tags)
      ensures ok ==> AddAll(work, thread, tags) == Some(after)
    {
      AddEffect(work, thread, tags);
      after := work;
      for i := 0 to |tags|
        invariant AddAll(work, thread, tags) == AddAll(after, thread, tags[i..])
      {
        assert tags[i..][0] == tags[i] && tags[i..][1..] == tags[i + 1..];
        var u := PutMap(after.usertag, thread, tags[i]);
        if u.None? {
          return after, false;
        }
        after := after.(usertag := u.value);
        var t := PutMap(after.usertagTag, tags[i], thread);
        if t.None? {
          return after, false;
        }
        after := after.(usertagTag := t.value);
      }
      ok := true;
    }

    method Add(thread: string, tags: seq<string>) returns (ok: bool)
      modifies this
      ensures ok <==> Storable(thread, tags)
      ensures Some(db) == if ok then AddAll(old(db), thread, tags) else Some(old(db))
    {
      var after;
      after, ok := AddTX(db, thread, tags);
      if ok { db := after; }
    }

    // The first part of Set.
    method StripTX(work: Tags, thread: string) returns (after: Tags, ok: bool)
      ensures Strip(work, thread) == if ok then Some(after) else None
    {
      var ts := if thread in work.usertag then work.usertag[thread] else {};
      var byTag, rest := work.usertagTag, ts;
      ghost var done: set<string> := {};
      while rest != {}
        invariant done == ts - rest && rest <= ts && done <= work.usertagTag.Keys
        invariant byTag == Without(work.usertagTag, done, thread)
      {
        var t :| t in rest;
        WithoutStep(work.usertagTag, done, t, thread);
        var d := DelMap(byTag, t, thread);
        if d.None? {
          return work, false;
        }
        byTag := d.value;
        rest, done := rest - {t}, done + {t};
      }
      assert done == ts;
      return Tags(work.usertag - {thread}, byTag), true;
    }

    /** Set, in any state: an error leaves no trace. */
    method Set(thread: string, tags: seq<string>) returns (ok: bool)
      modifies this
      ensures ok <==> SetAll(old(db), thread, tags).Some?
      ensures Some(db) == if ok then SetAll(old(db), thread, tags) else Some(old(db))
    {
      var stripped, after;
      stripped, ok := StripTX(db, thread);
      if !ok {
        return false;
      }
      AddEffect(stripped, thread, tags);
      after, ok := AddTX(stripped, thread, tags);
      if ok { db := after; }
    }

    /** Get: the keys of usertagTag in byte order; from inverse buckets, the tags that some thread carries. */
    method Get() returns (tags: seq<string>)
      ensures Lists(tags, db.usertagTag.Keys)
      ensures Inv(db) ==> forall t :: t in tags <==> exists x :: Carries(db, x, t)
    {
      tags := ForEachKey(db.usertagTag);
      if Inv(db) {
        KeysCarried(db);
      }
    }
  }

  lemma KeysCarried(tg: Tags)
    requires Inv(tg)
    ensures forall t :: t in tg.usertagTag <==> exists x :: Carries(tg, x, t)
  {
    forall t ensures t in tg.usertagTag <==> exists x :: Carries(tg, x, t) {
      HasSome(tg.usertagTag, t);
      if x :| HasVal(tg.usertagTag, t, x) { assert Carries(tg, x, t); }
      if x :| Carries(tg, x, t) { assert HasVal(tg.usertagTag, t, x); }
    }
  }
}
