/**
 cgi/server/server_cgi.go and record/head.go: the range part of a request, the lines a server
 answers with, and the heads a client reads from them.
 */
module Server {
  import opened Wrappers
  import opened Text
  import opened Keys
  import opened Records
  import opened RecordObject
  import opened Store

  // ------------------------------------------------------------------ the range of a request

  /** math.MaxInt32, the end of a range that names none. */
  const LAST: int := 0x7fff_ffff

  datatype Range = Range(begin: int, end: int, id: string)

  /** One number of a range; an empty piece counts as 0. */
  function StampOf(piece: string): Option<int> {
    if piece == "" then Some(0) else ParseInt(piece)
  }

  /** The numbers of a range. None is a number that does not parse. */
  function Stamps(buf: seq<string>): (r: Option<seq<int>>)
    ensures r.Some? ==> |r.value| == |buf|
  {
    if buf == [] then Some([])
    else
      var n := |buf| - 1;
      var before, last := Stamps(buf[..n]), StampOf(buf[n]);
      if before.None? || last.None? then None else Some(before.value + [last.value])
  }

  /** parseStamp. */
  function ParseStamp(request: string, last: int): Range {
    var parts := Split(request, "/");
    var id := if |parts| > 1 then parts[1] else "";
    var stamp := if |parts| > 1 then parts[0] else request;
    var buf := Split(stamp, "-");
    var n := Stamps(buf);
    if n.None? then Range(0, 0, "")
    else if stamp == "" || stamp == "-" then Range(0, last, id)
    else if HasSuffix(stamp, "-") then Range(n.value[0], last, id)
    else if |buf| == 1 then Range(n.value[0], n.value[0], id)
    else if buf[0] == "" then Range(0, n.value[1], id)
    else Range(n.value[0], n.value[1], id)
  }

  lemma {:induction false} StampsPrefix(buf: seq<string>, n: nat)
    requires n <= |buf| && Stamps(buf[..n]).None?
    ensures Stamps(buf).None?
    decreases |buf| - n
  {
    if n < |buf| {
      assert buf[..n + 1][..n] == buf[..n];
      StampsPrefix(buf, n + 1);
    } else {
      assert buf[..n] == buf;
    }
  }

  // The loop of parseStamp over the pieces of the range.
  method ParseStamps(buf: seq<string>) returns (nstamps: seq<int>, ok: bool)
    ensures ok ==> Stamps(buf) == Some(nstamps)
    ensures !ok ==> Stamps(buf).None?
  {
    nstamps := seq(|buf|, _ => 0);
    for i := 0 to |buf|
      invariant |nstamps| == |buf|
      invariant Stamps(buf[..i]) == Some(nstamps[..i])
      invariant forall j :: i <= j < |buf| ==> nstamps[j] == 0
    {
      assert buf[..i + 1][..i] == buf[..i];
      if buf[i] == "" {
        assert nstamps[..i + 1] == nstamps[..i] + [0];
        continue;
      }
      var n := ParseInt(buf[i]);
      if n.None? {
        StampsPrefix(buf, i + 1);
        return nstamps, false;
      }
      ghost var before := nstamps;
      nstamps := nstamps[i := n.value];
      assert nstamps[..i + 1] == before[..i] + [n.value];
    }
    assert buf[..|buf|] == buf && nstamps[..|buf|] == nstamps;
    ok := true;
  }

  method ParseRange(request: string, last: int) returns (begin: int, end: int, id: string)
    ensures Range(begin, end, id) == ParseStamp(request, last)
  {
    var stamp := request;
    var buf := Split(stamp, "/");
    id := "";
    if |buf| > 1 {
      id := buf[1];
      stamp := buf[0];
    }
    buf := Split(stamp, "-");
    var nstamps, ok := ParseStamps(buf);
    if !ok {
      return 0, 0, "";
    }
    if stamp == "" || stamp == "-" {
      return 0, last, id;
    }
    if HasSuffix(stamp, "-") {
      return nstamps[0], last, id;
    }
    if |buf| == 1 {
      return nstamps[0], nstamps[0], id;
    }
    if buf[0] == "" {
      return 0, nstamps[1], id;
    }
    return nstamps[0], nstamps[1], id;
  }

  // ------------------------------------------------------------------ requests parse back

  lemma ItoaParts(n: int)
    requires 0 <= n && IsInt64(n)
    ensures Itoa(n) != "" && !Contains(Itoa(n), "-") && !Contains(Itoa(n), "/") && !Contains(Itoa(n), "_")
    ensures ParseInt(Itoa(n)) == Some(n)
  {
    AbsentChar(Itoa(n), "-");
    AbsentChar(Itoa(n), "/");
    AbsentChar(Itoa(n), "_");
    ParseIntItoa(n);
  }

  lemma StampsTwo(a: string, b: string, m: int, n: int)
    requires StampOf(a) == Some(m) && StampOf(b) == Some(n)
    ensures Stamps([a]) == Some([m]) && Stamps([a, b]) == Some([m, n])
  {
    assert Stamps([]) == Some([]);
    assert [a][..0] == [] && [] + [m] == [m];
    assert Stamps([a]) == Some([m]);
    assert [a, b][..1] == [a] && [m] + [n] == [m, n];
  }

  lemma DashRange(a: string, b: string)
    requires !Contains(a, "-") && !Contains(a, "/") && !Contains(b, "-") && !Contains(b, "/")
    ensures Split(a + "-" + b, "/") == [a + "-" + b] && Split(a + "-" + b, "-") == [a, b]
  {
    NoSlash(a, b);
    SplitLast(a + "-" + b, "/");
    SplitCons(a, b, "-");
    SplitLast(b, "-");
  }

  lemma {:induction false} ContainsChar(s: string, c: char)
    ensures Contains(s, [c]) <==> c in s
  {
    if s != "" {
      ContainsChar(s[1..], c);
      assert s == [s[0]] + s[1..];
      assert s[..1] == [s[0]];
    }
  }

  lemma NoSlash(a: string, b: string)
    requires !Contains(a, "/") && !Contains(b, "/")
    ensures !Contains(a + "-" + b, "/")
  {
    ContainsChar(a, '/');
    ContainsChar(b, '/');
    ContainsChar(a + "-" + b, '/');
  }

  /** The request "from-to" parses back to its bounds. */
  lemma FromTo(from: int, to: int, last: int)
    requires 0 <= from && 0 <= to && IsInt64(from) && IsInt64(to)
    ensures ParseStamp(Itoa(from) + "-" + Itoa(to), last) == Range(from, to, "")
  {
    ItoaParts(from);
    ItoaParts(to);
    var a, b := Itoa(from), Itoa(to);
    DashRange(a, b);
    StampsTwo(a, b, from, to);
    var s := a + "-" + b;
    assert s[|s| - 1] == b[|b| - 1];
    assert s[|s| - 1..] == [b[|b| - 1]];
    assert s[0] == a[0];
  }

  /** The request "begin-" means everything from begin on. */
  lemma FromOn(begin: int, last: int)
    requires 0 <= begin && IsInt64(begin)
    ensures ParseStamp(Itoa(begin) + "-", last) == Range(begin, last, "")
  {
    ItoaParts(begin);
    var a := Itoa(begin);
    assert a + "-" == a + "-" + "";
    AbsentChar("", "-");
    AbsentChar("", "/");
    DashRange(a, "");
    StampsTwo(a, "", begin, 0);
    assert (a + "-")[0] == a[0];
    assert (a + "-")[|a|..] == "-";
  }

  lemma OneStamp(a: string, n: int, id: string, last: int)
    requires a != "" && !Contains(a, "-") && !Contains(a, "/") && !Contains(id, "/") && ParseInt(a) == Some(n)
    ensures ParseStamp(a + "/" + id, last) == Range(n, n, id)
  {
    SplitCons(a, id, "/");
    SplitLast(id, "/");
    SplitLast(a, "-");
    StampsTwo(a, "", n, 0);
    ContainsChar(a, '-');
    assert a[|a| - 1..] == [a[|a| - 1]];
  }

  /** The request "stamp/id" means that stamp and that id. */
  lemma OneRecord(stamp: int, id: string, last: int)
    requires 0 <= stamp && IsInt64(stamp) && !Contains(id, "/")
    ensures ParseStamp(Itoa(stamp) + "/" + id, last) == Range(stamp, stamp, id)
  {
    ItoaParts(stamp);
    OneStamp(Itoa(stamp), stamp, id, last);
  }

  /** The request "-to" means everything up to that stamp. */
  lemma UpTo(to: int, last: int)
    requires 0 <= to && IsInt64(to)
    ensures ParseStamp("-" + Itoa(to), last) == Range(0, to, "")
  {
    ItoaParts(to);
    var b := Itoa(to);
    assert "" + "-" + b == "-" + b;
    AbsentChar("", "-");
    AbsentChar("", "/");
    DashRange("", b);
    StampsTwo("", b, 0, to);
    var s := "-" + b;
    assert s[|s| - 1] == b[|b| - 1];
    assert s[|s| - 1..] == [b[|b| - 1]];
  }

  /** The whole thread, asked for by "-" or by nothing; and a number that does not parse asks for 0 to 0. */
  lemma WholeThread(last: int)
    ensures ParseStamp("", last) == ParseStamp("-", last) == Range(0, last, "")
    ensures forall s :: s != "" && !Contains(s, "/") && !Contains(s, "-") && ParseInt(s).None? ==>
      ParseStamp(s, last) == Range(0, 0, "")
  {
    AbsentChar("", "-");
    AbsentChar("", "/");
    assert "" + "-" + "" == "-";
    DashRange("", "");
    StampsTwo("", "", 0, 0);
    SplitLast("", "/");
    SplitLast("", "-");
    forall s | s != "" && !Contains(s, "/") && !Contains(s, "-") && ParseInt(s).None?
      ensures ParseStamp(s, last) == Range(0, 0, "")
    {
      SplitLast(s, "/");
      SplitLast(s, "-");
      assert Stamps([s]).None?;
    }
  }

  // ------------------------------------------------------------------ the answer

  /** The rows that doGetHead selects: tombstones for /removed, the others for /get and /head. */
  ghost predicate SelectedOf(rows: Rows, d: string, r: Range, removed: bool, k: string) {
    k in rows && rows[k].head.datfile == d && rows[k].deleted == removed && InRange(rows[k].head, r.begin, r.end, r.id)
  }

  ghost predicate Selected(rows: Rows, d: string, r: Range, k: string) {
    SelectedOf(rows, d, r, false, k)
  }

  /** The request "stamp/id" selects the alive rows of that stamp whose "stamp_id" ends in id. */
  lemma OneRecordSelects(rows: Rows, d: string, stamp: int, id: string, last: int, k: string)
    requires k in rows && 0 <= stamp && IsInt64(stamp) && !Contains(id, "/")
    ensures Selected(rows, d, ParseStamp(Itoa(stamp) + "/" + id, last), k)
       <==> (rows[k].head.datfile == d && rows[k].head.stamp == stamp && !rows[k].deleted
         && exists p :: Itoa(stamp) + "_" + rows[k].head.id == p + id)
  {
    OneRecord(stamp, id, last);
    InRangeExactly(rows[k].head, stamp, stamp, id);
    if id == "" { assert Idstr(rows[k].head) == Idstr(rows[k].head) + id; }
  }

  /** Among ids of one length, as hashes are, that is the row of that very head and no other. */
  lemma OneHeadSelects(rows: Rows, d: string, stamp: int, id: string, last: int, k: string)
    requires WellKeyed(rows) && k in rows && |rows[k].head.id| == |id|
    requires 0 <= stamp && IsInt64(stamp) && !Contains(id, "/")
    ensures Selected(rows, d, ParseStamp(Itoa(stamp) + "/" + id, last), k)
       <==> rows[k].head == Head(d, stamp, id) && !rows[k].deleted
    ensures Selected(rows, d, ParseStamp(Itoa(stamp) + "/" + id, last), k) ==> k == ToKey(Head(d, stamp, id))
  {
    OneRecordSelects(rows, d, stamp, id, last, k);
    var s := Itoa(stamp) + "_" + rows[k].head.id;
    if exists p :: s == p + id {
      SameEnd(Itoa(stamp) + "_", rows[k].head.id, id);
    }
    if rows[k].head.id == id {
      assert s == Itoa(stamp) + "_" + id;
    }
  }

  lemma SameEnd(a: string, b: string, c: string)
    requires |b| == |c| && exists p :: a + b == p + c
    ensures b == c
  {
    var p :| a + b == p + c;
    assert b == (a + b)[|a|..] && c == (p + c)[|p|..];
  }

  /** The record a server loads from a row. */
  function Loaded(rows: Rows, k: string): Parsed
    requires k in rows
  {
    var row := rows[k];
    Parse(RecordState(row.head, map[], []), Line(row.head.stamp, row.head.id, row.body))
  }

  /** l is the line a server prints for row k. */
  ghost predicate PrintsAs(rows: Rows, k: string, l: string) {
    k in rows && Loaded(rows, k).ok && InBounds(Loaded(rows, k).r) && Recstr(Loaded(rows, k).r) == l
  }

  ghost predicate Wanted(rows: Rows, d: string, r: Range, k: string) {
    Selected(rows, d, r, k) && Loaded(rows, k).ok
  }

  /** lines answers a /get request: a printed line for each selected row that loads, nothing else. */
  ghost predicate AnswersGet(rows: Rows, d: string, r: Range, lines: seq<string>) {
    && (forall k :: Wanted(rows, d, r, k) ==> exists l :: l in lines && PrintsAs(rows, k, l))
    && (forall l :: l in lines ==> exists k :: Wanted(rows, d, r, k) && PrintsAs(rows, k, l))
  }

  /** One line of a /head answer. */
  function HeadLine(h: Head): string {
    Replace(Idstr(h), "_", "<>")
  }

  /** lines answers a /head or /removed request: the head line of each selected row, nothing else. */
  ghost predicate AnswersHeads(rows: Rows, d: string, r: Range, removed: bool, lines: seq<string>) {
    && (forall k :: SelectedOf(rows, d, r, removed, k) ==> HeadLine(rows[k].head) in lines)
    && (forall l :: l in lines ==> IsHeadLine(rows, d, r, removed, l))
  }

  ghost predicate AnswersHead(rows: Rows, d: string, r: Range, lines: seq<string>) {
    AnswersHeads(rows, d, r, false, lines)
  }

  ghost predicate IsHeadLine(rows: Rows, d: string, r: Range, removed: bool, l: string) {
    exists k :: SelectedOf(rows, d, r, removed, k) && HeadLine(rows[k].head) == l
  }

  /** The loop of doGetHead for /head and /removed, over the records of the thread in any order. */
  method DoHead(rows: Rows, d: string, begin: int, end: int, id: string, removed: bool) returns (lines: seq<string>)
    ensures AnswersHeads(rows, d, Range(begin, end, id), removed, lines)
  {
    lines := [];
    var recs := set k | k in rows && rows[k].head.datfile == d && rows[k].deleted == removed;
    var rest := recs;
    ghost var r := Range(begin, end, id);
    while rest != {}
      invariant rest <= recs
      invariant forall k :: SelectedOf(rows, d, r, removed, k) && k !in rest ==> HeadLine(rows[k].head) in lines
      invariant forall l :: l in lines ==> IsHeadLine(rows, d, r, removed, l)
    {
      var k :| k in rest;
      rest := rest - {k};
      if InRange(rows[k].head, begin, end, id) {
        assert SelectedOf(rows, d, r, removed, k);
        lines := lines + [HeadLine(rows[k].head)];
      }
    }
  }

  ghost predicate LineOf(rows: Rows, d: string, r: Range, done: set<string>, l: string) {
    exists k :: k in done && Wanted(rows, d, r, k) && PrintsAs(rows, k, l)
  }

  ghost predicate HasLine(rows: Rows, k: string, lines: seq<string>) {
    exists l :: l in lines && PrintsAs(rows, k, l)
  }

  // The part of an answer for the rows in done.
  ghost predicate AnswersFor(rows: Rows, d: string, r: Range, done: set<string>, lines: seq<string>) {
    && (forall k :: k in done && Wanted(rows, d, r, k) ==> HasLine(rows, k, lines))
    && (forall l :: l in lines ==> LineOf(rows, d, r, done, l))
  }

  lemma LineOfMore(rows: Rows, d: string, r: Range, done: set<string>, k: string, l: string)
    requires LineOf(rows, d, r, done, l)
    ensures LineOf(rows, d, r, done + {k}, l)
  {
    var j :| j in done && Wanted(rows, d, r, j) && PrintsAs(rows, j, l);
    assert j in done + {k};
  }

  lemma HasLineMore(rows: Rows, k: string, lines: seq<string>, m: string)
    requires HasLine(rows, k, lines)
    ensures HasLine(rows, k, lines + [m])
  {
    var l :| l in lines && PrintsAs(rows, k, l);
    assert l in lines + [m];
  }

  lemma AnswersAdd(rows: Rows, d: string, r: Range, done: set<string>, lines: seq<string>, k: string, l: string)
    requires AnswersFor(rows, d, r, done, lines) && Wanted(rows, d, r, k) && PrintsAs(rows, k, l)
    ensures AnswersFor(rows, d, r, done + {k}, lines + [l])
  {
    forall m | m in lines ensures LineOf(rows, d, r, done + {k}, m) { LineOfMore(rows, d, r, done, k, m); }
    forall j | j in done && Wanted(rows, d, r, j) ensures HasLine(rows, j, lines + [l]) {
      HasLineMore(rows, j, lines, l);
    }
  }

  lemma AnswersSkip(rows: Rows, d: string, r: Range, done: set<string>, lines: seq<string>, k: string)
    requires AnswersFor(rows, d, r, done, lines) && !Wanted(rows, d, r, k)
    ensures AnswersFor(rows, d, r, done + {k}, lines)
  {
    forall m | m in lines ensures LineOf(rows, d, r, done + {k}, m) { LineOfMore(rows, d, r, done, k, m); }
  }

  // One turn of the loop of doGetHead.
  method AnswerLine(rows: Rows, d: string, begin: int, end: int, id: string, k: string) returns (line: Option<string>)
    requires WellKeyed(rows) && k in rows && rows[k].head.datfile == d && !rows[k].deleted
    ensures line.None? ==> !Wanted(rows, d, Range(begin, end, id), k)
    ensures line.Some? ==> Wanted(rows, d, Range(begin, end, id), k) && PrintsAs(rows, k, line.value)
  {
    var row := rows[k];
    if !InRange(row.head, begin, end, id) {
      return None;
    }
    var r := new Record(row.head.datfile, row.head.id, row.head.stamp);
    if ToKey(r.head) !in rows {
      return None;
    }
    var ok := r.Parse(Line(r.head.stamp, r.head.id, rows[ToKey(r.head)].body));
    if !ok {
      return None;
    }
    ParseGood(RecordState(row.head, map[], []), Line(row.head.stamp, row.head.id, row.body));
    return Some(Recstr(r.State()));
  }

  lemma AnswersStep(rows: Rows, d: string, r: Range, done: set<string>, lines: seq<string>, k: string,
      line: Option<string>)
    requires AnswersFor(rows, d, r, done, lines)
    requires line.None? ==> !Wanted(rows, d, r, k)
    requires line.Some? ==> Wanted(rows, d, r, k) && PrintsAs(rows, k, line.value)
    ensures AnswersFor(rows, d, r, done + {k}, if line.Some? then lines + [line.value] else lines)
  {
    if line.Some? {
      AnswersAdd(rows, d, r, done, lines, k, line.value);
    } else {
      AnswersSkip(rows, d, r, done, lines, k);
    }
  }

  /** The loop of doGetHead for /get, over the alive records of the thread in any order. */
  method DoGet(rows: Rows, d: string, begin: int, end: int, id: string) returns (lines: seq<string>)
    requires WellKeyed(rows)
    ensures AnswersGet(rows, d, Range(begin, end, id), lines)
  {
    lines := [];
    var recs := set k | k in rows && rows[k].head.datfile == d && !rows[k].deleted;
    var rest := recs;
    ghost var done: set<string> := {};
    while rest != {}
      invariant rest <= recs && done + rest == recs
      invariant AnswersFor(rows, d, Range(begin, end, id), done, lines)
    {
      var k :| k in rest;
      rest := rest - {k};
      var line := AnswerLine(rows, d, begin, end, id, k);
      AnswersStep(rows, d, Range(begin, end, id), done, lines, k, line);
      if line.Some? {
        lines := lines + [line.value];
      }
      done := done + {k};
    }
  }

  // ------------------------------------------------------------------ the client's side of /head

  /** ParseHeadResponse: heads by "stamp_id"; one bad line discards the whole answer. */
  function ParseHeads(res: seq<string>, d: string): Option<map<string, Head>> {
    if res == [] then Some(map[])
    else
      var n := |res| - 1;
      var before := ParseHeads(res[..n], d);
      var strs := Split(TrimRight(res[n]), "<>");
      var stamp := ParseInt(strs[0]);
      if before.None? || |strs| < 2 || stamp.None? then None
      else var h := Head(d, stamp.value, strs[1]); Some(before.value[Idstr(h) := h])
  }

  lemma {:induction false} ParseHeadsPrefix(res: seq<string>, d: string, n: nat)
    requires n <= |res| && ParseHeads(res[..n], d).None?
    ensures ParseHeads(res, d).None?
    decreases |res| - n
  {
    if n < |res| {
      assert res[..n + 1][..n] == res[..n];
      ParseHeadsPrefix(res, d, n + 1);
    } else {
      assert res[..n] == res;
    }
  }

  method ParseHeadResponse(res: seq<string>, d: string) returns (m: Option<map<string, Head>>)
    ensures m == ParseHeads(res, d)
  {
    var heads: map<string, Head> := map[];
    for i := 0 to |res|
      invariant ParseHeads(res[..i], d) == Some(heads)
    {
      assert res[..i + 1][..i] == res[..i];
      var strs := Split(TrimRight(res[i]), "<>");
      if |strs| < 2 {
        ParseHeadsPrefix(res, d, i + 1);
        return None;
      }
      var stamp := ParseInt(strs[0]);
      if stamp.None? {
        ParseHeadsPrefix(res, d, i + 1);
        return None;
      }
      var h := Head(d, stamp.value, strs[1]);
      heads := heads[Idstr(h) := h];
    }
    assert res[..|res|] == res;
    return Some(heads);
  }

  /** An id that survives a /head line, as every hash does. */
  predicate PlainId(id: string) {
    '_' !in id && !Contains(id, "<>") && !EndsInNewline(id)
  }

  lemma HeadLineForm(h: Head)
    ensures HeadLine(h) == Itoa(h.stamp) + "<>" + Replace(h.id, "_", "<>")
  {
    var a := Itoa(h.stamp);
    assert '_' !in a;
    ReplaceCharConcat(a + "_", h.id, '_', "<>");
    ReplaceCharConcat(a, "_", '_', "<>");
    ReplaceAbsent(a, '_', "<>");
    assert Replace("_", "_", "<>") == "<>" by { assert "_"[1..] == ""; }
  }

  /** The pieces a client cuts a /head line into. */
  lemma HeadLinePieces(h: Head)
    ensures var id := TrimRight(Replace(h.id, "_", "<>"));
      Split(TrimRight(HeadLine(h)), "<>") == [Itoa(h.stamp)] + Split(id, "<>")
  {
    HeadLineForm(h);
    var a, x := Itoa(h.stamp), Replace(h.id, "_", "<>");
    assert (a + "<>")[|a| + 1] == '>';
    TrimRightConcat(a + "<>", x);
    AbsentChar(a, "<>");
    SplitCons(a, TrimRight(x), "<>");
  }

  lemma HeadLineParts(h: Head)
    requires IsInt64(h.stamp) && PlainId(h.id)
    ensures Split(TrimRight(HeadLine(h)), "<>") == [Itoa(h.stamp), h.id] && ParseInt(Itoa(h.stamp)) == Some(h.stamp)
  {
    HeadLinePieces(h);
    ReplaceAbsent(h.id, '_', "<>");
    TrimRightFixed(h.id);
    SplitLast(h.id, "<>");
    ParseIntItoa(h.stamp);
  }

  lemma {:induction false} NoneLeft(s: string)
    ensures '_' !in Replace(s, "_", "<>")
  {
    if s != "" {
      NoneLeft(s[1..]);
      assert HasPrefix(s, "_") <==> s[0] == '_' by { assert s[..1] == [s[0]]; }
    }
  }

  lemma {:induction false} TrimRightEnds(s: string)
    ensures !EndsInNewline(TrimRight(s)) && forall c :: c in TrimRight(s) ==> c in s
  {
    if EndsInNewline(s) { TrimRightEnds(s[..|s| - 1]); }
  }

  /** The id of a head is read back from its line exactly when it is plain. */
  lemma IdReadBackExactly(h: Head)
    ensures var strs := Split(TrimRight(HeadLine(h)), "<>");
      |strs| >= 2 && (strs[1] == h.id <==> PlainId(h.id))
  {
    HeadLinePieces(h);
    var x := Replace(h.id, "_", "<>");
    var id := TrimRight(x);
    NoneLeft(h.id);
    TrimRightEnds(x);
    SplitPieces(id, "<>");
    var first := Split(id, "<>")[0];
    if first == h.id {
      assert forall c :: c in first ==> c in id by { assert first == id[..|first|]; }
      ReplaceAbsent(h.id, '_', "<>");
      assert x == h.id;
      assert id == h.id;
    }
    if PlainId(h.id) {
      ReplaceAbsent(h.id, '_', "<>");
      TrimRightFixed(h.id);
      SplitLast(h.id, "<>");
    }
  }

  /** m holds exactly the heads hs, each under its "stamp_id". */
  ghost predicate HoldsHeads(m: map<string, Head>, hs: seq<Head>) {
    && (forall h :: h in hs ==> Idstr(h) in m && m[Idstr(h)] == h)
    && (forall k :: k in m ==> m[k] in hs && Idstr(m[k]) == k)
  }

  ghost predicate PlainHead(h: Head, d: string) {
    h.datfile == d && IsInt64(h.stamp) && PlainId(h.id)
  }

  lemma HoldsOneMore(m: map<string, Head>, hs: seq<Head>, h: Head, d: string)
    requires HoldsHeads(m, hs) && PlainHead(h, d) && forall g :: g in hs ==> PlainHead(g, d)
    ensures HoldsHeads(m[Idstr(h) := h], hs + [h])
  {
    forall g | g in hs && Idstr(g) == Idstr(h) ensures g == h {
      IdstrInjective(g, h);
    }
  }

  /** The lines are the /head lines of hs. */
  ghost predicate AreHeadLines(res: seq<string>, d: string, hs: seq<Head>) {
    |hs| == |res| && forall i :: 0 <= i < |res| ==> PlainHead(hs[i], d) && res[i] == HeadLine(hs[i])
  }

  lemma HeadLinesInit(res: seq<string>, d: string, hs: seq<Head>)
    requires AreHeadLines(res, d, hs) && res != []
    ensures var n := |res| - 1;
      AreHeadLines(res[..n], d, hs[..n]) && PlainHead(hs[n], d) && res[n] == HeadLine(hs[n]) && hs == hs[..n] + [hs[n]]
    ensures forall g :: g in hs[..|res| - 1] ==> PlainHead(g, d)
  {
  }

  /** The heads of a /head answer are read back: exactly the heads of the lines. */
  lemma {:induction false} HeadsReadBack(res: seq<string>, d: string, hs: seq<Head>)
    requires AreHeadLines(res, d, hs)
    ensures ParseHeads(res, d).Some? && HoldsHeads(ParseHeads(res, d).value, hs)
  {
    if res != [] {
      var n := |res| - 1;
      HeadLinesInit(res, d, hs);
      HeadsReadBack(res[..n], d, hs[..n]);
      HeadLineParts(hs[n]);
      ParseHeadsSnoc(res, d, hs[n]);
      HoldsOneMore(ParseHeads(res[..n], d).value, hs[..n], hs[n], d);
    }
  }

  /** A /head line tells its head. */
  lemma HeadLineInjective(g: Head, h: Head, d: string)
    requires PlainHead(g, d) && PlainHead(h, d) && HeadLine(g) == HeadLine(h)
    ensures g == h
  {
    HeadLineParts(g);
    HeadLineParts(h);
    assert [Itoa(g.stamp), g.id][0] == [Itoa(h.stamp), h.id][0] && [Itoa(g.stamp), g.id][1] == [Itoa(h.stamp), h.id][1];
  }

  /** The head of a selected row that a line is made of. */
  ghost function LineHead(rows: Rows, d: string, r: Range, l: string): (h: Head)
    requires IsHeadLine(rows, d, r, false, l)
    ensures HeadLine(h) == l && exists k :: Selected(rows, d, r, k) && rows[k].head == h
  {
    var k :| Selected(rows, d, r, k) && HeadLine(rows[k].head) == l;
    rows[k].head
  }

  lemma HeadsOfAnswer(rows: Rows, d: string, r: Range, lines: seq<string>) returns (hs: seq<Head>)
    requires forall l :: l in lines ==> IsHeadLine(rows, d, r, false, l)
    requires forall k :: Selected(rows, d, r, k) ==> PlainHead(rows[k].head, d)
    ensures AreHeadLines(lines, d, hs)
    ensures forall h :: h in hs ==> exists k :: Selected(rows, d, r, k) && rows[k].head == h
  {
    hs := seq(|lines|, i requires 0 <= i < |lines| => LineHead(rows, d, r, lines[i]));
  }

  /** The client reads back from a /head answer exactly the heads of the selected rows. */
  lemma AnswerReadBack(rows: Rows, d: string, r: Range, lines: seq<string>)
    requires AnswersHead(rows, d, r, lines)
    requires forall k :: Selected(rows, d, r, k) ==> PlainHead(rows[k].head, d)
    ensures var m := ParseHeads(lines, d);
      m.Some? && m.value.Values == set k | k in rows && Selected(rows, d, r, k) :: rows[k].head
  {
    var hs := HeadsOfAnswer(rows, d, r, lines);
    HeadsReadBack(lines, d, hs);
    var m := ParseHeads(lines, d).value;
    forall k | Selected(rows, d, r, k) ensures rows[k].head in hs {
      var i :| 0 <= i < |lines| && lines[i] == HeadLine(rows[k].head);
      HeadLineInjective(hs[i], rows[k].head, d);
    }
    forall h ensures h in m.Values <==> h in hs {
      if h in hs { assert m[Idstr(h)] == h; }
    }
  }

  lemma ParseHeadsSnoc(res: seq<string>, d: string, h: Head)
    requires res != [] && ParseHeads(res[..|res| - 1], d).Some? && h.datfile == d
    requires Split(TrimRight(res[|res| - 1]), "<>") == [Itoa(h.stamp), h.id] && ParseInt(Itoa(h.stamp)) == Some(h.stamp)
    ensures ParseHeads(res, d) == Some(ParseHeads(res[..|res| - 1], d).value[Idstr(h) := h])
  {
  }

  lemma IdstrInjective(g: Head, h: Head)
    requires g.datfile == h.datfile && IsInt64(g.stamp) && IsInt64(h.stamp)
    requires Idstr(g) == Idstr(h)
    ensures g == h
  {
    AbsentChar(Itoa(g.stamp), "_");
    AbsentChar(Itoa(h.stamp), "_");
    ParseIntItoa(g.stamp);
    ParseIntItoa(h.stamp);
    SplitCons(Itoa(g.stamp), g.id, "_");
    SplitCons(Itoa(h.stamp), h.id, "_");
    JoinSplit(g.id, "_");
    JoinSplit(h.id, "_");
    assert Split(Idstr(g), "_")[0] == Itoa(g.stamp) && Split(Idstr(g), "_")[1..] == Split(g.id, "_");
    assert Split(Idstr(h), "_")[0] == Itoa(h.stamp) && Split(Idstr(h), "_")[1..] == Split(h.id, "_");
  }
}
