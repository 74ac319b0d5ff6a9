/**
 thread/cache.go, record/record.go, record/head.go: the record bucket, an insert-only store with
 tombstones, and the merge of lines received from other nodes.
 */
module Store {
  import opened Text
  import opened Markup
  import opened Keys
  import opened Bucket
  import opened JsonText
  import opened Records
  import opened RecordObject

  predicate IsTextHead(h: Head) {
    IsUtf8(h.datfile) && IsUtf8(h.id)
  }

  type TextHead = h: Head | IsTextHead(h) witness Head("", 0, "")

  /** A head after it was stored as JSON and read back. */
  function JsonHead(h: Head): TextHead {
    Head(ViaJson(h.datfile), h.stamp, ViaJson(h.id))
  }

  /** One row of the record bucket, as it is read back from its JSON. */
  datatype Row = Row(head: TextHead, body: Utf8Text, deleted: bool)

  type Rows = map<string, Row>

  /** Every row is stored under the key of its own head. */
  ghost predicate WellKeyed(rows: Rows) {
    forall k :: k in rows ==> IsInt64(rows[k].head.stamp) && NoNul(rows[k].head.datfile) && ToKey(rows[k].head) == k
  }

  datatype Err = NoErr | ErrGet | ErrSpam

  // ------------------------------------------------------------------ the operations on values

  /** SyncTX: a record is inserted once and never overwritten. */
  function SyncRows(rows: Rows, r: RecordState, deleted: bool): Rows
    requires InBounds(r) && IsInt64(r.head.stamp)
  {
    if ToKey(r.head) in rows then rows else rows[ToKey(r.head) := Row(JsonHead(r.head), ViaJson(Body(r)), deleted)]
  }

  /** Head.Remove: the row becomes a tombstone, written back under the key of its own head. */
  function RemoveRow(rows: Rows, h: Head): Rows
    requires IsInt64(h.stamp)
    requires ToKey(h) in rows ==> IsInt64(rows[ToKey(h)].head.stamp)
  {
    if ToKey(h) in rows then
      var d := rows[ToKey(h)];
      rows[ToKey(d.head) := d.(deleted := true)]
    else rows
  }

  /** Too large or listed as spam. */
  predicate IsBanned(env: Env, r: RecordState)
    requires InBounds(r)
  {
    |Recstr(r)| > env.limit * 1024 || env.spam(Recstr(r))
  }

  datatype Checked = Checked(rows: Rows, err: Err)

  /** Cache.CheckData. */
  function Check(env: Env, datfile: string, rows: Rows, line: string, begin: int, end: int): Checked {
    var p := Parse(Fresh(datfile), line);
    if !p.ok then Checked(rows, ErrGet)
    else
      ParseGood(Fresh(datfile), line);
      if ToKey(p.r.head) in rows then Checked(rows, NoErr)
      else if !Meets(env, p.r, begin, end) then Checked(rows, ErrGet)
      else Checked(SyncRows(rows, p.r, IsBanned(env, p.r)), if IsBanned(env, p.r) then ErrSpam else NoErr)
  }

  // ------------------------------------------------------------------ the objects

  /** The record bucket as a transaction sees it. */
  class RecordBucket {
    var rows: Rows

    constructor ()
      ensures rows == map[]
    {
      rows := map[];
    }

    method SyncTX(r: Record, deleted: bool)
      requires InBounds(r.State()) && IsInt64(r.head.stamp)
      modifies this
      ensures rows == SyncRows(old(rows), r.State(), deleted)
    {
      var k := ToKey(r.head);
      if k in rows {
        return;
      }
      var body := r.PrintBody();
      rows := rows[k := Row(JsonHead(r.head), ViaJson(body), deleted)];
    }

    method Remove(h: Head) returns (ok: bool)
      requires IsInt64(h.stamp) && (ToKey(h) in rows ==> IsInt64(rows[ToKey(h)].head.stamp))
      modifies this
      ensures rows == RemoveRow(old(rows), h) && (ok <==> ToKey(h) in old(rows))
    {
      if ToKey(h) !in rows {
        return false;
      }
      var d := rows[ToKey(h)];
      d := d.(deleted := true);
      rows := rows[ToKey(d.head) := d];
      return true;
    }

    /** Record.Load: parse the stored body behind the stamp and id of the record. */
    method Load(r: Record) returns (ok: bool)
      requires IsInt64(r.head.stamp)
      modifies r
      ensures ok <==> ToKey(old(r.head)) in rows && LoadRow(rows, old(r.State())).ok
      ensures r.State() == if ToKey(old(r.head)) in rows then LoadRow(rows, old(r.State())).r else old(r.State())
    {
      if ToKey(r.head) !in rows {
        return false;
      }
      var d := rows[ToKey(r.head)];
      ok := r.Parse(Line(r.head.stamp, r.head.id, d.body));
    }
  }

  function LoadRow(rows: Rows, r: RecordState): Parsed
    requires IsInt64(r.head.stamp) && ToKey(r.head) in rows
  {
    Parse(r, Line(r.head.stamp, r.head.id, rows[ToKey(r.head)].body))
  }

  /** thread.Cache. */
  class Cache {
    const datfile: string

    constructor (datfile: string)
      ensures this.datfile == datfile
    {
      this.datfile := datfile;
    }

    method CheckData(tx: RecordBucket, env: Env, res: string, begin: int, end: int) returns (err: Err)
      modifies tx
      ensures Checked(tx.rows, err) == Check(env, datfile, old(tx.rows), res, begin, end)
    {
      var r := new Record(datfile, "", 0);
      var parsed := r.Parse(res);
      if !parsed {
        return ErrGet;
      }
      ParseGood(Fresh(datfile), res);
      if ToKey(r.head) in tx.rows {
        return NoErr;
      }
      if !Meets(env, r.State(), begin, end) {
        return ErrGet;
      }
      var deleted := IsBanned(env, r.State());
      tx.SyncTX(r, deleted);
      return if deleted then ErrSpam else NoErr;
    }

    /** Cache.Stamp: the stamp of the last row, in key order, that is not deleted. */
    method Stamp(rows: Rows) returns (stamp: int)
      requires WellKeyed(rows) && NoNul(datfile)
      ensures IsLastStamp(rows, datfile, stamp)
    {
      var r, keys := GetPrefixed(rows, datfile + "\0");
      ThreadRows(rows, datfile, keys);
      stamp := 0;
      var i := |r| - 1;
      while i >= 0
        invariant -1 <= i < |r| && stamp == 0
        invariant forall j :: i < j < |r| ==> r[j].deleted
      {
        if !r[i].deleted {
          stamp := r[i].head.stamp;
          break;
        }
        i := i - 1;
      }
      ghost var alive := AliveKeys(rows, datfile);
      forall k | k in alive ensures StampAtMost(rows[k].head.stamp, stamp) {
        assert k in keys;
        var j :| 0 <= j < |keys| && keys[j] == k;
        assert i >= 0 && j <= i;
      }
      assert i >= 0 ==> keys[i] in alive;
    }
  }

  // ------------------------------------------------------------------ the newest record of a thread

  ghost function AliveKeys(rows: Rows, d: string): set<string> {
    set k | k in rows && rows[k].head.datfile == d && !rows[k].deleted
  }

  /** stamp is the greatest stamp of the thread's records that are not deleted, 0 if there are none. */
  ghost predicate IsThreadStamp(rows: Rows, d: string, stamp: int) {
    var alive := AliveKeys(rows, d);
    if alive == {} then stamp == 0
    else
      && (exists k :: k in alive && rows[k].head.stamp == stamp)
      && forall k :: k in alive ==> rows[k].head.stamp <= stamp
  }

  predicate StampAtMost(m: int, n: int) {
    m == n || StampLt(m, n)
  }

  /** stamp is the last of the thread's records that are not deleted, in byte order; 0 if there are none. */
  ghost predicate IsLastStamp(rows: Rows, d: string, stamp: int) {
    var alive := AliveKeys(rows, d);
    if alive == {} then stamp == 0
    else
      && (exists k :: k in alive && rows[k].head.stamp == stamp)
      && forall k :: k in alive ==> StampAtMost(rows[k].head.stamp, stamp)
  }

  /** The stamps of the thread's records that are not deleted are all negative or all not. */
  ghost predicate OneSign(rows: Rows, d: string) {
    forall j, k :: j in AliveKeys(rows, d) && k in AliveKeys(rows, d) ==>
      (rows[j].head.stamp >= 0 <==> rows[k].head.stamp >= 0)
  }

  /** The last stamp in byte order is the greatest one exactly when the stamps are of one sign. */
  lemma StampExactly(rows: Rows, d: string, stamp: int)
    requires IsLastStamp(rows, d, stamp)
    ensures IsThreadStamp(rows, d, stamp) <==> OneSign(rows, d)
  {
    var alive := AliveKeys(rows, d);
    if alive != {} {
      var k :| k in alive && rows[k].head.stamp == stamp;
      forall j | j in alive && StampAtMost(rows[j].head.stamp, stamp)
        ensures rows[j].head.stamp <= stamp <==> (rows[j].head.stamp >= 0 <==> stamp >= 0) {
      }
    }
  }

  // Two records of a thread, a second after and a second before the epoch.
  function RowsAroundZero(d: string): Rows
    requires IsUtf8(d)
  {
    var g, h := Head(d, 1, ""), Head(d, -1, "");
    map[ToKey(g) := Row(g, "", false)][ToKey(h) := Row(h, "", false)]
  }

  /** The stamp -1 hides the stamp 1. */
  lemma NegativeStampHides(d: string)
    requires IsUtf8(d) && NoNul(d)
    ensures var rows := RowsAroundZero(d);
      WellKeyed(rows) && IsLastStamp(rows, d, -1) && !IsThreadStamp(rows, d, -1)
  {
    var rows, g, h := RowsAroundZero(d), Head(d, 1, ""), Head(d, -1, "");
    KeyInjective(g, h);
    assert rows[ToKey(g)].head == g && rows[ToKey(h)].head == h;
    assert ToKey(g) in AliveKeys(rows, d) && ToKey(h) in AliveKeys(rows, d);
  }

  /** A listing of the keys under "datfile NUL": exactly the rows of the thread, in time order. */
  lemma ThreadRows(rows: Rows, d: string, keys: seq<string>)
    requires WellKeyed(rows) && NoNul(d) && Lists(keys, WithPrefix(rows, d + "\0"))
    ensures forall k :: k in keys <==> k in rows && rows[k].head.datfile == d
    ensures forall i :: 0 <= i < |keys| ==> keys[i] in rows && rows[keys[i]].head.datfile == d
    ensures forall i, j :: 0 <= i <= j < |keys| ==> StampAtMost(rows[keys[i]].head.stamp, rows[keys[j]].head.stamp)
  {
    forall k ensures k in keys <==> k in rows && rows[k].head.datfile == d {
      if k in rows { ThreadPrefix(d, rows[k].head); }
    }
    forall i | 0 <= i < |keys| ensures keys[i] in rows && rows[keys[i]].head.datfile == d {
      assert keys[i] in keys;
    }
    forall i, j | 0 <= i <= j < |keys| ensures StampAtMost(rows[keys[i]].head.stamp, rows[keys[j]].head.stamp) {
      KeyOrder(rows[keys[i]].head, rows[keys[j]].head);
      LtIrreflexive(d);
    }
  }

  /** Head.Remove leaves a tombstone: the row is no longer alive, and every other row is as it was. */
  lemma RemoveEffect(rows: Rows, h: Head)
    requires WellKeyed(rows) && IsInt64(h.stamp) && ToKey(h) in rows
    ensures var after, k := RemoveRow(rows, h), ToKey(h);
      && after.Keys == rows.Keys && (forall j :: j in rows && j != k ==> after[j] == rows[j])
      && after[k].head == rows[k].head && after[k].body == rows[k].body && after[k].deleted
      && forall d :: AliveKeys(after, d) == AliveKeys(rows, d) - {k}
  {
  }

  // ------------------------------------------------------------------ convergence

  /** A line whose record enters the store when its key is free. */
  predicate Accepted(env: Env, d: string, line: string, begin: int, end: int) {
    var p := Parse(Fresh(d), line);
    p.ok && (ParseGood(Fresh(d), line); Meets(env, p.r, begin, end))
  }

  function KeyOf(d: string, line: string): string
    requires Parse(Fresh(d), line).ok
  {
    ParseGood(Fresh(d), line);
    ToKey(Parse(Fresh(d), line).r.head)
  }

  function EntryOf(env: Env, d: string, line: string): Row
    requires Parse(Fresh(d), line).ok
  {
    ParseGood(Fresh(d), line);
    var r := Parse(Fresh(d), line).r;
    Row(JsonHead(r.head), ViaJson(Body(r)), IsBanned(env, r))
  }

  lemma CheckEffect(env: Env, d: string, rows: Rows, line: string, begin: int, end: int)
    ensures Check(env, d, rows, line, begin, end).rows
      == if Accepted(env, d, line, begin, end) && KeyOf(d, line) !in rows
         then rows[KeyOf(d, line) := EntryOf(env, d, line)] else rows
  {
    if Parse(Fresh(d), line).ok { ParseGood(Fresh(d), line); }
  }

  /** The body a line is checked with, before it is stored. */
  function BodyOf(d: string, line: string): string
    requires Parse(Fresh(d), line).ok
  {
    ParseGood(Fresh(d), line);
    Body(Parse(Fresh(d), line).r)
  }

  lemma TextHeadFixed(h: Head)
    ensures JsonHead(h) == h <==> IsTextHead(h)
  {
    ViaJsonExactly(h.datfile);
    ViaJsonExactly(h.id);
  }

  /** An accepted line is stored under the key of its entry's head, and its id is the hash of its body. */
  lemma EntryFacts(env: Env, d: string, line: string, begin: int, end: int)
    requires Accepted(env, d, line, begin, end) && IsUtf8(d)
    ensures var e := EntryOf(env, d, line);
      && IsInt64(e.head.stamp) && e.head.datfile == d && KeyOf(d, line) == ToKey(e.head)
      && e.head == Parse(Fresh(d), line).r.head
      && env.md5(BodyOf(d, line)) == e.head.id && e.body == ViaJson(BodyOf(d, line))
  {
    ParseGood(Fresh(d), line);
    DigestIsPlain(env.md5(BodyOf(d, line)));
    TextHeadFixed(Parse(Fresh(d), line).r.head);
  }

  /**
   CheckData case by case. The row it inserts is a tombstone, and its error the one for spam, exactly
   when the text of the record exceeds the limit in kilobytes or is listed as spam.
   */
  lemma CheckExactly(env: Env, d: string, rows: Rows, line: string, begin: int, end: int)
    ensures var c, p := Check(env, d, rows, line, begin, end), Parse(Fresh(d), line);
      if !p.ok then c == Checked(rows, ErrGet)
      else
        var h := p.r.head;
        && InBounds(p.r)
        && var text := Line(h.stamp, h.id, Body(p.r));
        if ToKey(h) in rows then c == Checked(rows, NoErr)
        else if h.stamp < begin || (0 < end < h.stamp) || env.md5(Body(p.r)) != h.id then c == Checked(rows, ErrGet)
        else
          && (forall k :: k in c.rows <==> k in rows || k == ToKey(h))
          && (forall k :: k in rows ==> c.rows[k] == rows[k])
          && c.rows[ToKey(h)].head == JsonHead(h) && c.rows[ToKey(h)].body == ViaJson(Body(p.r))
          && (c.rows[ToKey(h)].deleted <==> |text| > env.limit * 1024 || env.spam(text))
          && (c.err == ErrSpam <==> |text| > env.limit * 1024 || env.spam(text)) && c.err != ErrGet
  {
    if Parse(Fresh(d), line).ok { ParseGood(Fresh(d), line); }
  }

  /** Feeding lines to CheckData one after the other. */
  function Feed(env: Env, d: string, rows: Rows, lines: seq<string>, begin: int, end: int): Rows
    decreases |lines|
  {
    if lines == [] then rows
    else Feed(env, d, Check(env, d, rows, lines[0], begin, end).rows, lines[1..], begin, end)
  }

  /** The lines of a batch that would be stored under k. */
  predicate Offers(env: Env, d: string, line: string, begin: int, end: int, k: string) {
    Accepted(env, d, line, begin, end) && KeyOf(d, line) == k
  }

  /** Two accepted lines with one key and different entries. */
  ghost predicate Clash(env: Env, d: string, l: string, m: string, begin: int, end: int) {
    && Accepted(env, d, l, begin, end) && Accepted(env, d, m, begin, end)
    && KeyOf(d, l) == KeyOf(d, m) && EntryOf(env, d, l) != EntryOf(env, d, m)
  }

  /** Accepted lines with one key carry one entry. */
  ghost predicate Agree(env: Env, d: string, lines: seq<string>, begin: int, end: int) {
    forall l, m :: l in lines && m in lines ==> !Clash(env, d, l, m, begin, end)
  }

  /** The same lines, in any order and with any repetition. */
  ghost predicate SameLines(xs: seq<string>, ys: seq<string>) {
    forall l :: l in xs <==> l in ys
  }

  /** What a batch leaves in the store: old rows stay, and each free key offered gets an offered entry. */
  lemma {:induction false} FeedEffect(env: Env, d: string, rows: Rows, lines: seq<string>, begin: int, end: int,
      k: string)
    ensures var f := Feed(env, d, rows, lines, begin, end);
      && (k in rows ==> k in f && f[k] == rows[k])
      && (k in f <==> k in rows || exists l :: l in lines && Offers(env, d, l, begin, end, k))
      && (k in f && k !in rows ==>
            exists l :: l in lines && Offers(env, d, l, begin, end, k) && f[k] == EntryOf(env, d, l))
    decreases |lines|
  {
    if lines != [] {
      var l := lines[0];
      CheckEffect(env, d, rows, l, begin, end);
      var next := Check(env, d, rows, l, begin, end).rows;
      FeedEffect(env, d, next, lines[1..], begin, end, k);
      assert forall m :: m in lines <==> m == l || m in lines[1..];
      assert k in next && k !in rows ==>
        l in lines && Offers(env, d, l, begin, end, k) && next[k] == EntryOf(env, d, l);
    }
  }

  /**
   Convergence: lines that agree give the same store in every order and with any repetition, from
   any store.
   */
  lemma Converge(env: Env, d: string, rows: Rows, xs: seq<string>, ys: seq<string>, begin: int, end: int)
    requires Agree(env, d, xs, begin, end) && SameLines(xs, ys)
    ensures Feed(env, d, rows, xs, begin, end) == Feed(env, d, rows, ys, begin, end)
  {
    var f, g := Feed(env, d, rows, xs, begin, end), Feed(env, d, rows, ys, begin, end);
    forall k ensures (k in f <==> k in g) && (k in f ==> f[k] == g[k]) {
      ConvergeAt(env, d, rows, xs, ys, begin, end, k);
    }
    assert f.Keys == g.Keys;
  }

  lemma ConvergeAt(env: Env, d: string, rows: Rows, xs: seq<string>, ys: seq<string>, begin: int, end: int, k: string)
    requires Agree(env, d, xs, begin, end) && SameLines(xs, ys)
    ensures var f, g := Feed(env, d, rows, xs, begin, end), Feed(env, d, rows, ys, begin, end);
      (k in f <==> k in g) && (k in f ==> f[k] == g[k])
  {
    var f, g := Feed(env, d, rows, xs, begin, end), Feed(env, d, rows, ys, begin, end);
    FeedEffect(env, d, rows, xs, begin, end, k);
    FeedEffect(env, d, rows, ys, begin, end, k);
    if k in f && k !in rows {
      var l :| l in xs && Offers(env, d, l, begin, end, k) && f[k] == EntryOf(env, d, l);
      var m :| m in ys && Offers(env, d, m, begin, end, k) && g[k] == EntryOf(env, d, m);
      assert m in xs && !Clash(env, d, l, m, begin, end);
    }
  }

  /** Every order and repetition of the lines, fed to an empty store, gives one result. */
  ghost predicate OrderFree(env: Env, d: string, xs: seq<string>, begin: int, end: int) {
    forall ys, zs :: SameLines(xs, ys) && SameLines(xs, zs)
      ==> Feed(env, d, map[], ys, begin, end) == Feed(env, d, map[], zs, begin, end)
  }

  lemma AgreeIsOrderFree(env: Env, d: string, xs: seq<string>, begin: int, end: int)
    requires Agree(env, d, xs, begin, end)
    ensures OrderFree(env, d, xs, begin, end)
  {
    forall ys, zs | SameLines(xs, ys) && SameLines(xs, zs)
      ensures Feed(env, d, map[], ys, begin, end) == Feed(env, d, map[], zs, begin, end) {
      Converge(env, d, map[], xs, ys, begin, end);
      Converge(env, d, map[], xs, zs, begin, end);
    }
  }

  lemma ClashIsNotOrderFree(env: Env, d: string, xs: seq<string>, l: string, m: string, begin: int, end: int)
    requires l in xs && m in xs && Clash(env, d, l, m, begin, end)
    ensures !OrderFree(env, d, xs, begin, end)
  {
    var ys, zs := Diverge(env, d, l, m, xs, begin, end);
  }

  /** The store of a batch of lines is independent of their order exactly when they agree. */
  lemma ConvergeExactly(env: Env, d: string, xs: seq<string>, begin: int, end: int)
    ensures Agree(env, d, xs, begin, end) <==> OrderFree(env, d, xs, begin, end)
  {
    if Agree(env, d, xs, begin, end) {
      AgreeIsOrderFree(env, d, xs, begin, end);
    } else {
      var l, m :| l in xs && m in xs && Clash(env, d, l, m, begin, end);
      ClashIsNotOrderFree(env, d, xs, l, m, begin, end);
    }
  }

  lemma Diverge(env: Env, d: string, l: string, m: string, xs: seq<string>, begin: int, end: int)
      returns (ys: seq<string>, zs: seq<string>)
    requires l in xs && m in xs && Clash(env, d, l, m, begin, end)
    ensures SameLines(xs, ys) && SameLines(xs, zs)
    ensures Feed(env, d, map[], ys, begin, end) != Feed(env, d, map[], zs, begin, end)
  {
    ys, zs := [l] + xs, [m] + xs;
    FirstWins(env, d, l, xs, begin, end);
    FirstWins(env, d, m, xs, begin, end);
  }

  lemma FirstWins(env: Env, d: string, l: string, xs: seq<string>, begin: int, end: int)
    requires Accepted(env, d, l, begin, end)
    ensures KeyOf(d, l) in Feed(env, d, map[], [l] + xs, begin, end)
    ensures Feed(env, d, map[], [l] + xs, begin, end)[KeyOf(d, l)] == EntryOf(env, d, l)
  {
    assert ([l] + xs)[1..] == xs;
    CheckEffect(env, d, map[], l, begin, end);
    FeedEffect(env, d, Check(env, d, map[], l, begin, end).rows, xs, begin, end, KeyOf(d, l));
  }

  /** Two accepted lines with different bodies of one hash. */
  ghost predicate Collision(env: Env, d: string, l: string, m: string, begin: int, end: int) {
    && Accepted(env, d, l, begin, end) && Accepted(env, d, m, begin, end)
    && env.md5(BodyOf(d, l)) == env.md5(BodyOf(d, m)) && BodyOf(d, l) != BodyOf(d, m)
  }

  /** Without a hash collision among the accepted bodies the lines agree, so the store converges. */
  lemma CollisionFreeAgree(env: Env, d: string, lines: seq<string>, begin: int, end: int)
    requires NoNul(d) && forall l, m :: l in lines && m in lines ==> !Collision(env, d, l, m, begin, end)
    ensures Agree(env, d, lines, begin, end)
  {
    forall l, m | l in lines && m in lines ensures !Clash(env, d, l, m, begin, end) {
      if Clash(env, d, l, m, begin, end) {
        ClashIsCollision(env, d, l, m, begin, end);
      }
    }
  }

  lemma ClashIsCollision(env: Env, d: string, l: string, m: string, begin: int, end: int)
    requires NoNul(d) && Clash(env, d, l, m, begin, end)
    ensures Collision(env, d, l, m, begin, end)
  {
    ParseGood(Fresh(d), l);
    ParseGood(Fresh(d), m);
    KeyInjective(Parse(Fresh(d), l).r.head, Parse(Fresh(d), m).r.head);
  }

  // An entry is determined by the head and the body of its line.
  lemma EntryByBody(env: Env, d: string, line: string)
    requires Parse(Fresh(d), line).ok
    ensures var h := Parse(Fresh(d), line).r.head; var text := Line(h.stamp, h.id, BodyOf(d, line));
      var e := EntryOf(env, d, line);
      && e.head == JsonHead(h) && e.body == ViaJson(BodyOf(d, line))
      && (e.deleted <==> |text| > env.limit * 1024 || env.spam(text))
  {
    ParseGood(Fresh(d), line);
  }

  // ------------------------------------------------------------------ runs

  /** One operation on the record bucket. */
  datatype Op =
    | CheckOp(datfile: string, line: string, begin: int, end: int)
    | SyncOp(r: RecordState, deleted: bool)
    | RemoveOp(h: Head)

  /** Datfiles are UTF-8 without NUL, and so are the ids given to SyncTX. */
  predicate OpValid(op: Op) {
    match op
    case CheckOp(d, _, _, _) => NoNul(d) && IsUtf8(d)
    case SyncOp(r, _) => InBounds(r) && IsInt64(r.head.stamp) && NoNul(r.head.datfile) && IsTextHead(r.head)
    case RemoveOp(h) => IsInt64(h.stamp)
  }

  ghost function Apply(env: Env, rows: Rows, op: Op): Rows
    requires WellKeyed(rows) && OpValid(op)
  {
    match op
    case CheckOp(d, line, begin, end) => Check(env, d, rows, line, begin, end).rows
    case SyncOp(r, deleted) => SyncRows(rows, r, deleted)
    case RemoveOp(h) => RemoveRow(rows, h)
  }

  /** Nothing is lost: keys, heads and bodies stay, and a tombstone stays a tombstone. */
  ghost predicate Grows(before: Rows, after: Rows) {
    forall k :: k in before ==>
      k in after && after[k].head == before[k].head && after[k].body == before[k].body
      && (before[k].deleted ==> after[k].deleted)
  }

  lemma InsertGrows(rows: Rows, k: string, row: Row)
    requires WellKeyed(rows) && k !in rows
    requires IsInt64(row.head.stamp) && NoNul(row.head.datfile) && ToKey(row.head) == k
    ensures WellKeyed(rows[k := row]) && Grows(rows, rows[k := row])
  {
  }

  lemma RemoveGrows(rows: Rows, h: Head)
    requires WellKeyed(rows) && IsInt64(h.stamp)
    ensures WellKeyed(RemoveRow(rows, h)) && Grows(rows, RemoveRow(rows, h))
  {
  }

  lemma {:induction false} ViaJsonNoNul(s: string)
    requires NoNul(s)
    ensures NoNul(ViaJson(s))
    decreases |s|
  {
    if s != "" {
      var w := Width(s);
      ViaJsonNoNul(s[if w > 0 then w else 1..]);
    }
  }

  /**
   SyncTX leaves the rows under the keys of their own heads exactly when it inserts nothing or its
   record has a head in UTF-8; Head.Remove writes its tombstone under the key of the stored head.
   */
  lemma SyncWellKeyedExactly(rows: Rows, r: RecordState, deleted: bool)
    requires WellKeyed(rows) && InBounds(r) && IsInt64(r.head.stamp) && NoNul(r.head.datfile)
    ensures WellKeyed(SyncRows(rows, r, deleted)) <==> ToKey(r.head) in rows || IsTextHead(r.head)
  {
    if ToKey(r.head) !in rows {
      var h, after := r.head, SyncRows(rows, r, deleted);
      ViaJsonNoNul(h.datfile);
      TextHeadFixed(h);
      KeyInjective(JsonHead(h), h);
      assert after[ToKey(h)].head == JsonHead(h);
      assert forall k :: k in after && k != ToKey(h) ==> k in rows && after[k] == rows[k];
    }
  }

  lemma SyncGrows(rows: Rows, r: RecordState, deleted: bool)
    requires WellKeyed(rows) && InBounds(r) && IsInt64(r.head.stamp) && NoNul(r.head.datfile) && IsTextHead(r.head)
    ensures WellKeyed(SyncRows(rows, r, deleted)) && Grows(rows, SyncRows(rows, r, deleted))
  {
    SyncWellKeyedExactly(rows, r, deleted);
  }

  lemma CheckGrows(env: Env, d: string, rows: Rows, line: string, begin: int, end: int)
    requires WellKeyed(rows) && NoNul(d) && IsUtf8(d)
    ensures var after := Check(env, d, rows, line, begin, end).rows; WellKeyed(after) && Grows(rows, after)
  {
    CheckEffect(env, d, rows, line, begin, end);
    if Accepted(env, d, line, begin, end) && KeyOf(d, line) !in rows {
      EntryFacts(env, d, line, begin, end);
      InsertGrows(rows, KeyOf(d, line), EntryOf(env, d, line));
    }
  }

  lemma ApplyGrows(env: Env, rows: Rows, op: Op)
    requires WellKeyed(rows) && OpValid(op)
    ensures WellKeyed(Apply(env, rows, op)) && Grows(rows, Apply(env, rows, op))
  {
    match op
    case CheckOp(d, line, begin, end) => CheckGrows(env, d, rows, line, begin, end);
    case SyncOp(r, deleted) => SyncGrows(rows, r, deleted);
    case RemoveOp(h) => RemoveGrows(rows, h);
  }

  ghost function Run(env: Env, rows: Rows, ops: seq<Op>): (after: Rows)
    requires WellKeyed(rows) && forall i :: 0 <= i < |ops| ==> OpValid(ops[i])
    ensures WellKeyed(after)
    decreases |ops|
  {
    if ops == [] then rows
    else ApplyGrows(env, rows, ops[0]); Run(env, Apply(env, rows, ops[0]), ops[1..])
  }

  /** In every run of CheckData, SyncTX and Head.Remove the store only grows. */
  lemma {:induction false} RunGrows(env: Env, rows: Rows, ops: seq<Op>)
    requires WellKeyed(rows) && forall i :: 0 <= i < |ops| ==> OpValid(ops[i])
    ensures Grows(rows, Run(env, rows, ops))
    decreases |ops|
  {
    if ops != [] {
      ApplyGrows(env, rows, ops[0]);
      RunGrows(env, Apply(env, rows, ops[0]), ops[1..]);
    }
  }

  /** In every run after it a removed record stays a tombstone. */
  lemma RemovedStays(env: Env, rows: Rows, h: Head, ops: seq<Op>)
    requires WellKeyed(rows) && IsInt64(h.stamp) && ToKey(h) in rows
    requires forall i :: 0 <= i < |ops| ==> OpValid(ops[i])
    ensures WellKeyed(RemoveRow(rows, h))
    ensures var later := Run(env, RemoveRow(rows, h), ops); ToKey(h) in later && later[ToKey(h)].deleted
  {
    RemoveEffect(rows, h);
    RemoveGrows(rows, h);
    RunGrows(env, RemoveRow(rows, h), ops);
  }

  /** Every row's id is the hash of its body. */
  ghost predicate Hashed(env: Env, rows: Rows) {
    forall k :: k in rows ==> env.md5(rows[k].body) == rows[k].head.id
  }

  /**
   CheckData keeps every id the hash of its stored body exactly when it inserts nothing or the body
   it inserts has the hash of what JSON makes of it, as every body in UTF-8 does.
   */
  lemma CheckHashedExactly(env: Env, d: string, rows: Rows, line: string, begin: int, end: int)
    requires Hashed(env, rows) && IsUtf8(d)
    ensures Hashed(env, Check(env, d, rows, line, begin, end).rows)
       <==> (Accepted(env, d, line, begin, end) && KeyOf(d, line) !in rows ==>
               env.md5(ViaJson(BodyOf(d, line))) == env.md5(BodyOf(d, line)))
  {
    CheckEffect(env, d, rows, line, begin, end);
    var after := Check(env, d, rows, line, begin, end).rows;
    if Accepted(env, d, line, begin, end) && KeyOf(d, line) !in rows {
      EntryFacts(env, d, line, begin, end);
      assert after[KeyOf(d, line)] == EntryOf(env, d, line);
      assert forall k :: k in after && k != KeyOf(d, line) ==> k in rows && after[k] == rows[k];
    }
  }

  // The record with the one field body, whose value is the byte FF.
  function RecordFF(env: Env, d: string): RecordState {
    RecordState(Head(d, 1, env.md5("body:" + FF)), map["body" := FF], ["body"])
  }

  lemma RecordFFPrints(env: Env, d: string)
    ensures Printable(RecordFF(env, d)) && Body(RecordFF(env, d)) == "body:" + FF && !EndsInNewline(FF)
    ensures !IsUtf8("body:" + FF) && ViaJson("body:" + FF) != "body:" + FF
  {
    CanonicalPlain(FF);
    AbsentChar("body", "<>");
    DigestIsPlain(env.md5("body:" + FF));
    ByteFF();
    assert "body:" + FF == "body" + [':'] + FF;
    if IsUtf8("body:" + FF) { Utf8Cut("body", ':', FF); }
    ViaJsonExactly("body:" + FF);
  }

  /** The line of that record is accepted, and stored with another body. */
  lemma ByteFFIsChanged(env: Env, d: string)
    ensures var body := "body:" + FF; var l := Line(1, env.md5(body), body);
      Accepted(env, d, l, 1, 1) && BodyOf(d, l) == body && EntryOf(env, d, l).body != body
  {
    RecordFFPrints(env, d);
    ParsePrinted(RecordFF(env, d), Fresh(d));
  }

  /** The stored body has another hash than its id, unless md5 collides on the two bodies. */
  lemma ByteFFLosesHash(env: Env, d: string, rows: Rows)
    requires IsUtf8(d) && Hashed(env, rows) && ToKey(RecordFF(env, d).head) !in rows
    requires env.md5(ViaJson("body:" + FF)) != env.md5("body:" + FF)
    ensures var l := Line(1, env.md5("body:" + FF), "body:" + FF);
      !Hashed(env, Check(env, d, rows, l, 1, 1).rows)
  {
    RecordFFPrints(env, d);
    ParsePrinted(RecordFF(env, d), Fresh(d));
    ByteFFIsChanged(env, d);
    CheckHashedExactly(env, d, rows, Line(1, env.md5("body:" + FF), "body:" + FF), 1, 1);
  }

  /** The bodies an operation may insert are UTF-8, and SyncTX gets only records that pass md5check. */
  predicate KeepsHashes(env: Env, op: Op)
    requires OpValid(op)
  {
    match op
    case CheckOp(d, line, _, _) => Parse(Fresh(d), line).ok ==> IsUtf8(BodyOf(d, line))
    case SyncOp(r, _) => IsUtf8(Body(r)) && Md5check(env, r)
    case RemoveOp(_) => true
  }

  /** A line in UTF-8 has a body in UTF-8. */
  lemma TextLineKeepsHashes(env: Env, d: string, line: string, begin: int, end: int)
    requires NoNul(d) && IsUtf8(d) && IsUtf8(line)
    ensures KeepsHashes(env, CheckOp(d, line, begin, end))
  {
    if Parse(Fresh(d), line).ok { ParseUtf8(Fresh(d), line); }
  }

  lemma ApplyHashed(env: Env, rows: Rows, op: Op)
    requires WellKeyed(rows) && Hashed(env, rows) && OpValid(op) && KeepsHashes(env, op)
    ensures Hashed(env, Apply(env, rows, op))
  {
    match op
    case CheckOp(d, line, begin, end) =>
      CheckHashedExactly(env, d, rows, line, begin, end);
      if Parse(Fresh(d), line).ok { ViaJsonExactly(BodyOf(d, line)); }
    case SyncOp(r, deleted) =>
      ViaJsonExactly(Body(r));
      TextHeadFixed(r.head);
    case RemoveOp(h) =>
  }

  /** Runs that insert only bodies in UTF-8 keep every stored body true to its id. */
  lemma {:induction false} RunHashed(env: Env, rows: Rows, ops: seq<Op>)
    requires WellKeyed(rows) && Hashed(env, rows)
    requires forall i :: 0 <= i < |ops| ==> OpValid(ops[i]) && KeepsHashes(env, ops[i])
    ensures Hashed(env, Run(env, rows, ops))
    decreases |ops|
  {
    if ops != [] {
      ApplyGrows(env, rows, ops[0]);
      ApplyHashed(env, rows, ops[0]);
      RunHashed(env, Apply(env, rows, ops[0]), ops[1..]);
    }
  }

  // ------------------------------------------------------------------ storing, then loading

  /**
   A record stored in a free place is loaded back unchanged exactly when it is transportable and its
   body is UTF-8.
   */
  lemma SyncThenLoad(rows: Rows, r: RecordState, deleted: bool, contents: map<string, string>, keyOrder: seq<string>)
    requires WellFormed(r.contents, r.keyOrder)
    requires IsInt64(r.head.stamp) && !Contains(r.head.id, "<>") && ToKey(r.head) !in rows
    ensures InBounds(r)
    ensures LoadRow(SyncRows(rows, r, deleted), RecordState(r.head, contents, keyOrder)) == Parsed(r, true)
       <==> Transportable(r) && IsUtf8(Body(r))
  {
    WellFormedSize(r.contents, r.keyOrder);
    var r0 := RecordState(r.head, contents, keyOrder);
    ViaJsonExactly(Body(r));
    if Parse(r0, Line(r.head.stamp, r.head.id, ViaJson(Body(r)))) == Parsed(r, true) {
      ParseBodyUtf8(r0, r.head.stamp, r.head.id, ViaJson(Body(r)));
    }
    if IsUtf8(Body(r)) {
      LoadedExactly(r, r0);
    }
  }

  /** The record of the byte FF is not loaded back. */
  lemma ByteFFIsNotLoaded(env: Env, d: string, rows: Rows)
    requires ToKey(RecordFF(env, d).head) !in rows
    ensures InBounds(RecordFF(env, d))
    ensures var r := RecordFF(env, d);
      LoadRow(SyncRows(rows, r, false), RecordState(r.head, map[], [])) != Parsed(r, true)
  {
    RecordFFPrints(env, d);
    SyncThenLoad(rows, RecordFF(env, d), false, map[], []);
  }

  lemma LoadedExactly(r: RecordState, r0: RecordState)
    requires WellFormed(r.contents, r.keyOrder) && InBounds(r)
    requires IsInt64(r.head.stamp) && !Contains(r.head.id, "<>") && r0.head == r.head
    ensures Parse(r0, Recstr(r)) == Parsed(r, true) <==> Transportable(r)
  {
    ReceivedExactly(r);
    if Transportable(r) {
      WellFormedSize(r.contents, r.keyOrder);
      ParsePrinted(r, r0);
    }
    if Parse(r0, Recstr(r)) == Parsed(r, true) {
      ParseGood(r0, Recstr(r));
      TrimLastPrints(r);
      ParseIgnoresLineEnd(r0, Recstr(r));
      ParsePrinted(TrimLast(r), r0);
      ParsePrinted(TrimLast(r), Fresh(r.head.datfile));
      ParseIgnoresLineEnd(Fresh(r.head.datfile), Recstr(r));
    }
  }
}
