/**
 record/record.go: the wire format of a record, stamp<>id<>key:value<>..., its parser and printer.
 */
module Records {
  import opened Wrappers
  import opened Text
  import opened Markup
  import opened Keys
  import opened JsonText

  /** What MD5digest prints: 32 hexadecimal digits. */
  type Digest = s: string | IsDigest(s) witness seq(32, _ => '0')

  predicate IsDigest(s: string) {
    |s| == 32 && forall i :: 0 <= i < 32 ==> IsDigit(s[i]) || 'a' <= s[i] <= 'f'
  }

  /** What the program takes from outside: the hash, the spam list and the size limit. */
  datatype Env = Env(md5: string -> Digest, spam: string -> bool, limit: nat)

  /** The value of a Record object. */
  datatype RecordState = RecordState(head: Head, contents: map<string, string>, keyOrder: seq<string>)

  function Fresh(datfile: string): RecordState {
    RecordState(Head(datfile, 0, ""), map[], [])
  }

  // ------------------------------------------------------------------ printing

  function Lookup(contents: map<string, string>, k: string): string {
    if k in contents then contents[k] else ""
  }

  /** The body fields: one slot per entry of contents, filled in key order. */
  function Pieces(contents: map<string, string>, keyOrder: seq<string>): (r: seq<string>)
    requires |keyOrder| <= |contents|
    ensures |r| == |contents|
  {
    seq(|contents|, i requires 0 <= i < |contents| =>
      if i < |keyOrder| then keyOrder[i] + ":" + Lookup(contents, keyOrder[i]) else "")
  }

  /** bodystr. */
  function Bodystr(contents: map<string, string>, keyOrder: seq<string>): string
    requires |keyOrder| <= |contents|
  {
    Join(Pieces(contents, keyOrder), "<>")
  }

  predicate InBounds(r: RecordState) {
    |r.keyOrder| <= |r.contents|
  }

  function Body(r: RecordState): string
    requires InBounds(r)
  {
    Bodystr(r.contents, r.keyOrder)
  }

  function Line(stamp: int, id: string, body: string): string {
    Itoa(stamp) + "<>" + id + "<>" + body
  }

  /** Record.Recstr. */
  function Recstr(r: RecordState): string
    requires InBounds(r)
  {
    Line(r.head.stamp, r.head.id, Body(r))
  }

  /** Head.Idstr. */
  function Idstr(h: Head): string {
    Itoa(h.stamp) + "_" + h.id
  }

  predicate Md5check(env: Env, r: RecordState)
    requires InBounds(r)
  {
    env.md5(Body(r)) == r.head.id
  }

  predicate Meets(env: Env, r: RecordState, begin: int, end: int)
    requires InBounds(r)
  {
    !(begin > r.head.stamp || (end > 0 && r.head.stamp > end)) && Md5check(env, r)
  }

  predicate InRange(h: Head, begin: int, end: int, id: string) {
    begin <= h.stamp && h.stamp <= end && (id == "" || HasSuffix(Idstr(h), id))
  }

  /** The range includes both its bounds; an id that is not empty must end the head's "stamp_id". */
  lemma InRangeExactly(h: Head, begin: int, end: int, id: string)
    ensures InRange(h, begin, end, id)
       <==> begin <= h.stamp <= end && (id == "" || exists p :: Itoa(h.stamp) + "_" + h.id == p + id)
  {
    var s := Itoa(h.stamp) + "_" + h.id;
    if InRange(h, begin, end, id) && id != "" {
      assert s == s[..|s| - |id|] + id;
    }
    if p :| s == p + id {
      assert s[|s| - |id|..] == id;
    }
  }

  // ------------------------------------------------------------------ parsing

  datatype Fields = Fields(ok: bool, contents: map<string, string>, keyOrder: seq<string>)

  /** The loop of Parse over the fields after stamp and id. */
  function ParseFields(pieces: seq<string>, contents: map<string, string>, keyOrder: seq<string>): Fields {
    if pieces == [] then Fields(true, contents, keyOrder)
    else
      var kv := pieces[0];
      var i := IndexOf(kv, ':');
      if i == |kv| then ParseFields(pieces[1..], contents, keyOrder)
      else
        var key, value := kv[..i], Normalise(kv[i + 1..]);
        if key in keyOrder then Fields(false, contents, keyOrder)
        else ParseFields(pieces[1..], contents[key := value], keyOrder + [key])
  }

  datatype Parsed = Parsed(r: RecordState, ok: bool)

  /** What Parse leaves in a record, also when it fails half way. */
  function Parse(r: RecordState, line: string): Parsed {
    var tmp := Split(TrimRight(line), "<>");
    if |tmp| < 2 then Parsed(r, false)
    else
      var stamp := ParseInt(tmp[0]);
      if stamp.None? then Parsed(r, false)
      else
        var r1 := if r.head.stamp == 0 then r.(head := r.head.(stamp := stamp.value)) else r;
        if r1.head.stamp != stamp.value then Parsed(r1, false)
        else
          var r2 := if r1.head.id == "" then r1.(head := r1.head.(id := tmp[1])) else r1;
          if r2.head.id != tmp[1] then Parsed(r2, false)
          else
            var f := ParseFields(tmp[2..], map[], []);
            Parsed(RecordState(r2.head, f.contents, f.keyOrder), f.ok)
  }

  // ------------------------------------------------------------------ what Parse establishes

  predicate NoDuplicates(xs: seq<string>) {
    forall i, j :: 0 <= i < j < |xs| ==> xs[i] != xs[j]
  }

  /** keyOrder lists the keys of contents, each once. */
  ghost predicate WellFormed(contents: map<string, string>, keyOrder: seq<string>) {
    && NoDuplicates(keyOrder)
    && (forall k :: k in keyOrder <==> k in contents)
  }

  lemma {:induction false} WellFormedSize(contents: map<string, string>, keyOrder: seq<string>)
    requires WellFormed(contents, keyOrder)
    ensures |keyOrder| == |contents|
  {
    SizeOfList(keyOrder, contents.Keys);
    assert |contents| == |contents.Keys|;
  }

  lemma {:induction false} SizeOfList(xs: seq<string>, s: set<string>)
    requires NoDuplicates(xs) && forall x :: x in xs <==> x in s
    ensures |xs| == |s|
  {
    if xs == [] {
      assert forall x :: x in s ==> x in xs;
    } else {
      var n := |xs| - 1;
      forall x ensures x in xs[..n] <==> x in s - {xs[n]} {
        if x in s - {xs[n]} { assert x in xs; var i :| 0 <= i < |xs| && xs[i] == x; assert xs[..n][i] == x; }
      }
      SizeOfList(xs[..n], s - {xs[n]});
    }
  }

  /** A key the format can carry. */
  predicate GoodKey(k: string) {
    ':' !in k && !Contains(k, "<>")
  }

  /** Fields the format can carry: well-formed, with good keys and canonical values. */
  ghost predicate GoodFields(contents: map<string, string>, keyOrder: seq<string>) {
    && WellFormed(contents, keyOrder)
    && forall k :: k in contents ==> GoodKey(k) && IsCanonical(contents[k])
  }

  lemma {:induction false} ContainsPrefix(a: string, b: string, sep: string)
    requires Contains(a, sep)
    ensures Contains(a + b, sep)
  {
    if HasPrefix(a, sep) {
      assert (a + b)[..|sep|] == a[..|sep|];
    } else {
      ContainsPrefix(a[1..], b, sep);
      assert (a + b)[1..] == a[1..] + b;
    }
  }

  lemma OneMoreGood(contents: map<string, string>, keyOrder: seq<string>, key: string, value: string)
    requires GoodFields(contents, keyOrder) && key !in keyOrder && GoodKey(key) && IsCanonical(value)
    ensures GoodFields(contents[key := value], keyOrder + [key])
  {
  }

  lemma KeyGood(kv: string, i: nat)
    requires i < |kv| && ':' !in kv[..i] && !Contains(kv, "<>")
    ensures GoodKey(kv[..i])
  {
    assert kv[..i] + kv[i..] == kv;
    if Contains(kv[..i], "<>") {
      ContainsPrefix(kv[..i], kv[i..], "<>");
    }
  }

  lemma {:induction false} ParseFieldsGood(pieces: seq<string>, contents: map<string, string>, keyOrder: seq<string>)
    requires GoodFields(contents, keyOrder)
    requires forall i :: 0 <= i < |pieces| ==> !Contains(pieces[i], "<>")
    ensures var f := ParseFields(pieces, contents, keyOrder); GoodFields(f.contents, f.keyOrder)
  {
    if pieces != [] {
      var kv := pieces[0];
      var i := IndexOf(kv, ':');
      if i == |kv| {
        ParseFieldsGood(pieces[1..], contents, keyOrder);
      } else if kv[..i] !in keyOrder {
        var key, value := kv[..i], Normalise(kv[i + 1..]);
        KeyGood(kv, i);
        NormaliseCanonical(kv[i + 1..]);
        OneMoreGood(contents, keyOrder, key, value);
        ParseFieldsGood(pieces[1..], contents[key := value], keyOrder + [key]);
      }
    }
  }

  /** Whatever line is parsed, an accepted record has good fields, so bodystr stays in bounds. */
  lemma ParseGood(r: RecordState, line: string)
    requires Parse(r, line).ok
    ensures var p := Parse(r, line).r; Printable(p) && InBounds(p) && p.head.datfile == r.head.datfile
  {
    var tmp := Split(TrimRight(line), "<>");
    SplitPieces(TrimRight(line), "<>");
    ParseFieldsGood(tmp[2..], map[], []);
    var p := Parse(r, line).r;
    WellFormedSize(p.contents, p.keyOrder);
  }

  // ------------------------------------------------------------------ what Parse accepts

  /** The field gives the key k the value v: it is cut at its first colon. */
  ghost predicate Gives(field: string, k: string, v: string) {
    ':' !in k && field == k + ":" + v
  }

  ghost predicate Names(field: string, k: string) {
    exists v :: Gives(field, k, v)
  }

  ghost predicate NamedOnce(fields: seq<string>) {
    forall i, j, k :: 0 <= i < j < |fields| && Names(fields[i], k) ==> !Names(fields[j], k)
  }

  ghost predicate NamesNone(fields: seq<string>, used: seq<string>) {
    forall i, k :: 0 <= i < |fields| && k in used ==> !Names(fields[i], k)
  }

  /** contents holds what the fields give, normalised, and nothing else but what was there before. */
  ghost predicate HoldsFields(fields: seq<string>, before: map<string, string>, contents: map<string, string>) {
    && (forall field, k, v :: field in fields && Gives(field, k, v) ==> k in contents && contents[k] == Normalise(v))
    && (forall k :: k in before ==> k in contents && contents[k] == before[k])
    && (forall k :: k in contents ==> k in before || exists field :: field in fields && Names(field, k))
  }

  lemma CutAtColon(field: string)
    ensures ':' !in field ==> IndexOf(field, ':') == |field|
    ensures ':' in field ==> IndexOf(field, ':') < |field|
    ensures ':' in field ==> Gives(field, field[..IndexOf(field, ':')], field[IndexOf(field, ':') + 1..])
  {
    var i := IndexOf(field, ':');
    if i < |field| { CutAt(field, i); }
  }

  lemma CutAt(field: string, i: nat)
    requires i < |field| && field[i] == ':' && forall j :: 0 <= j < i ==> field[j] != ':'
    ensures Gives(field, field[..i], field[i + 1..])
  {
    assert field == field[..i] + ":" + field[i + 1..];
  }

  /** A field gives one value to one key. */
  lemma GivesOne(field: string, k: string, v: string)
    requires Gives(field, k, v)
    ensures |k| == IndexOf(field, ':') < |field| && k == field[..|k|] && v == field[|k| + 1..]
  {
    assert field[|k|] == ':' && forall j :: 0 <= j < |k| ==> field[j] == k[j];
  }

  lemma NamedRest(fields: seq<string>, used: seq<string>, key: string)
    requires fields != [] && Names(fields[0], key) && forall k :: Names(fields[0], k) ==> k == key
    ensures NamedOnce(fields) && NamesNone(fields, used)
       <==> key !in used && NamedOnce(fields[1..]) && NamesNone(fields[1..], used + [key])
  {
    var rest := fields[1..];
    assert forall i :: 0 <= i < |rest| ==> rest[i] == fields[i + 1];
    assert forall i :: 1 <= i < |fields| ==> fields[i] == rest[i - 1];
    if key !in used && NamedOnce(rest) && NamesNone(rest, used + [key]) {
      forall i, k | 0 <= i < |fields| && k in used ensures !Names(fields[i], k) {
        if i > 0 { assert k in used + [key] && fields[i] == rest[i - 1]; }
      }
      assert key in used + [key];
    }
  }

  lemma NamedSkip(fields: seq<string>, used: seq<string>)
    requires fields != [] && forall k :: !Names(fields[0], k)
    ensures NamedOnce(fields) && NamesNone(fields, used) <==> NamedOnce(fields[1..]) && NamesNone(fields[1..], used)
  {
    var rest := fields[1..];
    assert forall i :: 0 <= i < |rest| ==> rest[i] == fields[i + 1];
    assert forall i :: 1 <= i < |fields| ==> fields[i] == rest[i - 1];
  }

  lemma HoldsStep(fields: seq<string>, before: map<string, string>, key: string, value: string,
      contents: map<string, string>)
    requires fields != [] && Gives(fields[0], key, value) && key !in before
    requires HoldsFields(fields[1..], before[key := Normalise(value)], contents)
    ensures HoldsFields(fields, before, contents)
  {
    assert forall field :: field in fields <==> field == fields[0] || field in fields[1..];
    assert key in before[key := Normalise(value)];
    forall k, v | Gives(fields[0], k, v) ensures k == key && v == value {
      GivesOne(fields[0], k, v);
      GivesOne(fields[0], key, value);
    }
    assert Names(fields[0], key);
  }

  lemma HoldsSkip(fields: seq<string>, before: map<string, string>, contents: map<string, string>)
    requires fields != [] && ':' !in fields[0] && HoldsFields(fields[1..], before, contents)
    ensures HoldsFields(fields, before, contents)
  {
    assert forall field :: field in fields <==> field == fields[0] || field in fields[1..];
    forall k, v | Gives(fields[0], k, v) ensures false { GivesOne(fields[0], k, v); }
  }

  lemma {:induction false} FieldsExactly(fields: seq<string>, contents: map<string, string>, keyOrder: seq<string>)
    requires forall k :: k in contents <==> k in keyOrder
    ensures var f := ParseFields(fields, contents, keyOrder);
      && (f.ok <==> NamedOnce(fields) && NamesNone(fields, keyOrder))
      && (f.ok ==> HoldsFields(fields, contents, f.contents))
  {
    if fields != [] {
      var kv, i, f := fields[0], IndexOf(fields[0], ':'), ParseFields(fields, contents, keyOrder);
      CutAtColon(kv);
      forall k | Names(kv, k) ensures i < |kv| && k == kv[..i] {
        var v :| Gives(kv, k, v);
        GivesOne(kv, k, v);
      }
      if i == |kv| {
        FieldsExactly(fields[1..], contents, keyOrder);
        NamedSkip(fields, keyOrder);
        if f.ok { HoldsSkip(fields, contents, f.contents); }
      } else {
        var key, value := kv[..i], kv[i + 1..];
        NamedRest(fields, keyOrder, key);
        if key !in keyOrder {
          FieldsExactly(fields[1..], contents[key := Normalise(value)], keyOrder + [key]);
          if f.ok { HoldsStep(fields, contents, key, value, f.contents); }
        }
      }
    }
  }

  /**
   Parse accepts a line if and only if it has a stamp and an id, which agree with those of the record
   where it has some, and no two of the other fields name one key. The record then has that stamp and
   that id, and of the fields exactly the normalised values.
   */
  lemma ParseExactly(r: RecordState, line: string)
    ensures var tmp, p := Split(TrimRight(line), "<>"), Parse(r, line);
      && (p.ok <==>
            && |tmp| >= 2 && NamedOnce(tmp[2..]) && ParseInt(tmp[0]).Some?
            && (r.head.stamp == 0 || ParseInt(tmp[0]) == Some(r.head.stamp))
            && (r.head.id == "" || r.head.id == tmp[1]))
      && (p.ok ==> p.r.head == Head(r.head.datfile, ParseInt(tmp[0]).value, tmp[1]))
      && (p.ok ==> HoldsFields(tmp[2..], map[], p.r.contents))
  {
    var tmp := Split(TrimRight(line), "<>");
    if |tmp| >= 2 {
      FieldsExactly(tmp[2..], map[], []);
    }
  }

  // ------------------------------------------------------------------ printing, then parsing

  ghost function FirstKeys(contents: map<string, string>, keyOrder: seq<string>, n: nat): map<string, string>
    requires n <= |keyOrder|
  {
    map k | k in contents && k in keyOrder[..n] :: contents[k]
  }

  lemma PieceParts(k: string, v: string)
    requires GoodKey(k) && IsCanonical(v)
    ensures var kv := k + ":" + v;
      IndexOf(kv, ':') == |k| && kv[..|k|] == k && kv[|k| + 1..] == v && Normalise(kv[|k| + 1..]) == v
  {
    var kv := k + ":" + v;
    assert kv[|k|] == ':';
    assert forall i :: 0 <= i < |k| ==> kv[i] == k[i];
    assert kv[|k| + 1..] == v;
    NormaliseFixed(v);
  }

  lemma {:induction false} PieceHasNoSeparator(k: string, v: string)
    requires !Contains(k, "<>") && IsCanonical(v)
    ensures !Contains(k + ":" + v, "<>")
  {
    var s := k + ":" + v;
    assert |s| >= 2 ==> s[..2][0] == s[0] && s[..2][1] == s[1];
    if k == "" {
      CanonicalHasNoSeparator(v);
      assert s[1..] == v;
    } else {
      PieceHasNoSeparator(k[1..], v);
      assert s[1..] == k[1..] + ":" + v;
      assert |k| >= 2 ==> k[..2] == s[..2];
      assert |k| == 1 ==> s[1] == ':';
    }
  }

  /** A record the format can carry. */
  ghost predicate Printable(r: RecordState) {
    && GoodFields(r.contents, r.keyOrder) && |r.keyOrder| == |r.contents|
    && IsInt64(r.head.stamp) && !Contains(r.head.id, "<>")
  }

  lemma ParsePiece(k: string, v: string, rest: seq<string>, contents: map<string, string>, keyOrder: seq<string>)
    requires GoodKey(k) && IsCanonical(v) && k !in keyOrder
    ensures ParseFields([k + ":" + v] + rest, contents, keyOrder)
         == ParseFields(rest, contents[k := v], keyOrder + [k])
  {
    PieceParts(k, v);
  }

  lemma {:induction false} ParsePieces(contents: map<string, string>, keyOrder: seq<string>, n: nat,
      rest: seq<string>, done: map<string, string>, order: seq<string>)
    requires GoodFields(contents, keyOrder) && n <= |keyOrder| && |keyOrder| == |contents|
    requires rest == Pieces(contents, keyOrder)[n..]
    requires done == FirstKeys(contents, keyOrder, n) && order == keyOrder[..n]
    ensures ParseFields(rest, done, order) == Fields(true, contents, keyOrder)
    decreases |rest|
  {
    if n == |keyOrder| {
      assert order == keyOrder;
      assert done == contents;
    } else {
      var k := keyOrder[n];
      FirstKeysNext(contents, keyOrder, n);
      ParsePieces(contents, keyOrder, n + 1, rest[1..], done[k := contents[k]], order + [k]);
      ParsePiece(k, contents[k], rest[1..], done, order);
      assert rest == [rest[0]] + rest[1..];
    }
  }

  lemma FirstKeysNext(contents: map<string, string>, keyOrder: seq<string>, n: nat)
    requires WellFormed(contents, keyOrder) && n < |keyOrder|
    ensures keyOrder[n] in contents && keyOrder[n] !in keyOrder[..n]
    ensures keyOrder[..n + 1] == keyOrder[..n] + [keyOrder[n]]
    ensures FirstKeys(contents, keyOrder, n + 1)
         == FirstKeys(contents, keyOrder, n)[keyOrder[n] := contents[keyOrder[n]]]
  {
    assert keyOrder[n] in keyOrder;
  }

  lemma PiecesHaveNoSeparator(contents: map<string, string>, keyOrder: seq<string>)
    requires GoodFields(contents, keyOrder) && |keyOrder| == |contents|
    ensures forall i :: 0 <= i < |contents| ==> !Contains(Pieces(contents, keyOrder)[i], "<>")
  {
    forall i | 0 <= i < |contents| ensures !Contains(Pieces(contents, keyOrder)[i], "<>") {
      var k := keyOrder[i];
      assert k in keyOrder;
      PieceHasNoSeparator(k, contents[k]);
    }
  }

  lemma SplitBody(r: RecordState)
    requires Printable(r)
    ensures Split(Body(r), "<>") == if r.contents == map[] then [""] else Pieces(r.contents, r.keyOrder)
  {
    var ps := Pieces(r.contents, r.keyOrder);
    if ps == [] {
      SplitLast("", "<>");
    } else {
      PiecesHaveNoSeparator(r.contents, r.keyOrder);
      SplitJoin(ps, "<>");
    }
  }

  lemma SplitTwo(a: string, b: string, c: string)
    requires !Contains(a, "<>") && !Contains(b, "<>")
    ensures Split(a + "<>" + (b + "<>" + c), "<>") == [a, b] + Split(c, "<>")
  {
    SplitCons(b, c, "<>");
    SplitCons(a, b + "<>" + c, "<>");
    assert [a] + ([b] + Split(c, "<>")) == [a, b] + Split(c, "<>");
  }

  lemma LineAssoc(stamp: int, id: string, body: string)
    ensures Line(stamp, id, body) == Itoa(stamp) + "<>" + (id + "<>" + body)
  {
  }

  /** The pieces of a printed line. */
  lemma SplitLine(stamp: int, id: string, body: string)
    requires !Contains(id, "<>")
    ensures Split(Line(stamp, id, body), "<>") == [Itoa(stamp), id] + Split(body, "<>")
  {
    AbsentChar(Itoa(stamp), "<>");
    LineAssoc(stamp, id, body);
    SplitTwo(Itoa(stamp), id, body);
  }

  // ------------------------------------------------------------------ the end of a line

  /** The last value of a record, the one a line can lose characters of. */
  function LastValue(r: RecordState): string {
    if r.keyOrder == [] then "" else Lookup(r.contents, r.keyOrder[|r.keyOrder| - 1])
  }

  predicate EndsInNewline(s: string) {
    s != "" && (s[|s| - 1] == '\r' || s[|s| - 1] == '\n')
  }

  /** A printed line up to its last value. */
  function LineInit(r: RecordState): string
    requires |r.keyOrder| == |r.contents|
  {
    var ps := Pieces(r.contents, r.keyOrder);
    Line(r.head.stamp, r.head.id, if ps == [] then "" else JoinInit(ps, "<>") + (r.keyOrder[|ps| - 1] + ":"))
  }

  lemma LineEnd(r: RecordState)
    requires |r.keyOrder| == |r.contents|
    ensures Recstr(r) == LineInit(r) + LastValue(r)
  {
    var ps := Pieces(r.contents, r.keyOrder);
    if ps != [] {
      JoinEnd(ps, "<>");
      var k := r.keyOrder[|ps| - 1];
    }
  }

  lemma LineInitEnd(r: RecordState)
    requires |r.keyOrder| == |r.contents|
    ensures LineInit(r) != "" && !EndsInNewline(LineInit(r))
  {
    var ps := Pieces(r.contents, r.keyOrder);
    var b := if ps == [] then "" else JoinInit(ps, "<>") + (r.keyOrder[|ps| - 1] + ":");
    assert b != "" ==> b[|b| - 1] == ':';
  }

  /** Is h0 a head that a line of h may be parsed into? */
  predicate Accepts(h0: Head, h: Head) {
    && h0.datfile == h.datfile
    && (h0.stamp == 0 || h0.stamp == h.stamp)
    && (h0.id == "" || h0.id == h.id)
  }

  lemma ParsePrintedBody(r: RecordState)
    requires Printable(r)
    ensures ParseFields(Split(Body(r), "<>"), map[], []) == Fields(true, r.contents, r.keyOrder)
  {
    SplitBody(r);
    if r.contents == map[] {
      assert [""] == [""] + [];
      assert r.keyOrder == [];
    } else {
      var ps := Pieces(r.contents, r.keyOrder);
      assert ps[0..] == ps;
      assert FirstKeys(r.contents, r.keyOrder, 0) == map[];
      ParsePieces(r.contents, r.keyOrder, 0, ps, map[], []);
    }
  }

  /** Parsing a printed record gives it back when its last value does not end in a newline char. */
  lemma ParsePrinted(r: RecordState, r0: RecordState)
    requires Printable(r) && Accepts(r0.head, r.head)
    requires !EndsInNewline(LastValue(r))
    ensures Parse(r0, Recstr(r)) == Parsed(r, true)
  {
    LineEnd(r);
    LineInitEnd(r);
    TrimRightFixed(Recstr(r));
    SplitLine(r.head.stamp, r.head.id, Body(r));
    ParsePrintedBody(r);
    ParseIntItoa(r.head.stamp);
  }

  // ------------------------------------------------------------------ the exact condition

  /** r with its last value trimmed as a line end is. */
  function TrimLast(r: RecordState): RecordState {
    if r.keyOrder == [] then r
    else
      var k := r.keyOrder[|r.keyOrder| - 1];
      r.(contents := r.contents[k := TrimRight(LastValue(r))])
  }

  lemma {:induction false} TrimRightConcat(a: string, v: string)
    requires a != "" && !EndsInNewline(a)
    ensures TrimRight(a + v) == a + TrimRight(v)
  {
    if EndsInNewline(v) {
      TrimRightConcat(a, v[..|v| - 1]);
      assert (a + v)[..|a| + |v| - 1] == a + v[..|v| - 1];
    } else {
      assert v == "" ==> a + v == a;
    }
  }

  lemma {:induction false} CanonicalTrim(v: string)
    requires IsCanonical(v) && EndsInNewline(v)
    ensures IsCanonical(v[..|v| - 1])
    decreases |v|
  {
    if HasPrefix(v, "<br>") && IsCanonical(v[4..]) {
      assert |v| > 4 by { assert v[..4][3] == v[3]; }
      CanonicalTrim(v[4..]);
      var w := v[..|v| - 1];
      assert w[4..] == v[4..][..|v| - 5];
      assert w[..4] == v[..4];
    } else if |v| > 1 {
      CanonicalTrim(v[1..]);
      var w := v[..|v| - 1];
      assert w[1..] == v[1..][..|v| - 2];
    }
  }

  lemma {:induction false} CanonicalTrimRight(v: string)
    requires IsCanonical(v)
    ensures IsCanonical(TrimRight(v))
  {
    if EndsInNewline(v) {
      CanonicalTrim(v);
      CanonicalTrimRight(v[..|v| - 1]);
    }
  }

  lemma UpdateGood(contents: map<string, string>, keyOrder: seq<string>, k: string, v: string)
    requires GoodFields(contents, keyOrder) && k in contents && IsCanonical(v)
    ensures GoodFields(contents[k := v], keyOrder)
  {
  }

  lemma TrimLastPrintable(r: RecordState)
    requires Printable(r)
    ensures Printable(TrimLast(r)) && LastValue(TrimLast(r)) == TrimRight(LastValue(r))
  {
    if r.keyOrder != [] {
      var k := r.keyOrder[|r.keyOrder| - 1];
      assert k in r.keyOrder;
      CanonicalTrimRight(r.contents[k]);
      UpdateGood(r.contents, r.keyOrder, k, TrimRight(LastValue(r)));
      WellFormedSize(TrimLast(r).contents, r.keyOrder);
    }
  }

  lemma PiecesAgree(contents: map<string, string>, keyOrder: seq<string>, n: nat, v: string)
    requires WellFormed(contents, keyOrder) && n == |keyOrder| - 1
    requires |keyOrder| == |contents| == |contents[keyOrder[n] := v]|
    ensures JoinInit(Pieces(contents, keyOrder), "<>") == JoinInit(Pieces(contents[keyOrder[n] := v], keyOrder), "<>")
  {
    var ps, qs := Pieces(contents, keyOrder), Pieces(contents[keyOrder[n] := v], keyOrder);
    forall i | 0 <= i < n ensures ps[i] == qs[i] { assert keyOrder[i] != keyOrder[n]; }
    JoinInitAgree(ps, qs, "<>");
  }

  lemma LineInitAgree(r: RecordState, q: RecordState)
    requires |r.keyOrder| == |r.contents| && |q.keyOrder| == |q.contents|
    requires r.head == q.head && r.keyOrder == q.keyOrder
    requires JoinInit(Pieces(r.contents, r.keyOrder), "<>") == JoinInit(Pieces(q.contents, q.keyOrder), "<>")
    ensures LineInit(r) == LineInit(q)
  {
  }

  lemma TrimLastInit(r: RecordState)
    requires Printable(r) && Printable(TrimLast(r))
    ensures LineInit(TrimLast(r)) == LineInit(r)
  {
    if r.keyOrder != [] {
      var n, v := |r.keyOrder| - 1, TrimRight(LastValue(r));
      assert TrimLast(r) == r.(contents := r.contents[r.keyOrder[n] := v]);
      PiecesAgree(r.contents, r.keyOrder, n, v);
      LineInitAgree(r, r.(contents := r.contents[r.keyOrder[n] := v]));
    }
  }

  lemma TrimLastPrints(r: RecordState)
    requires Printable(r)
    ensures Printable(TrimLast(r)) && !EndsInNewline(LastValue(TrimLast(r)))
    ensures TrimRight(Recstr(r)) == Recstr(TrimLast(r))
  {
    TrimLastPrintable(r);
    TrimLastInit(r);
    LineEnd(r);
    LineEnd(TrimLast(r));
    LineInitEnd(r);
    TrimRightConcat(LineInit(r), LastValue(r));
  }

  lemma ParseIgnoresLineEnd(r0: RecordState, line: string)
    ensures Parse(r0, line) == Parse(r0, TrimRight(line))
  {
    TrimRightFixed(TrimRight(line));
  }

  /**
   Parse, print, parse again: every accepted line is read back as the same record up to newline
   characters at the end of its last value ...
   */
  lemma Reparse(r0: RecordState, line: string)
    requires Parse(r0, line).ok
    ensures var r := Parse(r0, line).r;
      InBounds(r) && Parse(Fresh(r.head.datfile), Recstr(r)) == Parsed(TrimLast(r), true)
  {
    ParseGood(r0, line);
    var r := Parse(r0, line).r;
    TrimLastPrints(r);
    ParseIgnoresLineEnd(Fresh(r.head.datfile), Recstr(r));
    ParsePrinted(TrimLast(r), Fresh(r.head.datfile));
  }

  lemma TrimLastFixed(r: RecordState)
    requires Printable(r)
    ensures TrimLast(r) == r <==> (LastValue(r) != "" ==> LastValue(r)[|LastValue(r)| - 1] != '\r')
  {
    var v := LastValue(r);
    TrimRightFixed(v);
    if r.keyOrder != [] {
      var k := r.keyOrder[|r.keyOrder| - 1];
      assert k in r.keyOrder;
      CanonicalHasNoNewline(v);
      assert TrimLast(r).contents[k] == TrimRight(v);
      if TrimRight(v) == v { assert TrimLast(r).contents == r.contents; }
    }
  }

  /** ... so exactly as the same record when the last value does not end in a carriage return. */
  lemma ReparseExactly(r0: RecordState, line: string)
    requires Parse(r0, line).ok
    ensures var r := Parse(r0, line).r;
      InBounds(r)
      && (Parse(Fresh(r.head.datfile), Recstr(r)) == Parsed(r, true)
          <==> (LastValue(r) != "" ==> LastValue(r)[|LastValue(r)| - 1] != '\r'))
  {
    Reparse(r0, line);
    ParseGood(r0, line);
    TrimLastFixed(Parse(r0, line).r);
  }

  lemma SplitFour(a: string, b: string, c: string, d: string)
    requires !Contains(a, "<>") && !Contains(b, "<>") && !Contains(c, "<>") && !Contains(d, "<>")
    ensures Split(a + "<>" + (b + "<>" + (c + "<>" + d)), "<>") == [a, b, c, d]
  {
    SplitLast(d, "<>");
    SplitCons(c, d, "<>");
    SplitTwo(a, b, c + "<>" + d);
  }

  lemma CarriageReturnLine(line: string)
    requires line == "1<>a<>k:v\r<>x"
    ensures Split(line, "<>") == ["1", "a", "k" + ":" + "v\r", "x"]
  {
    AbsentChar("1", "<>");
    AbsentChar("a", "<>");
    AbsentChar("x", "<>");
    CanonicalPlain("v\r");
    AbsentChar("k", "<>");
    PieceHasNoSeparator("k", "v\r");
    SplitFour("1", "a", "k" + ":" + "v\r", "x");
    assert line == "1" + "<>" + ("a" + "<>" + ("k" + ":" + "v\r" + "<>" + "x"));
  }

  /** The line is accepted, but its value loses the CR when the record is printed and parsed. */
  lemma CarriageReturnIsLost(d: string, line: string)
    requires line == "1<>a<>k:v\r<>x"
    ensures var p := Parse(Fresh(d), line);
      p.ok && InBounds(p.r) && Parse(Fresh(d), Recstr(p.r)) != Parsed(p.r, true)
  {
    AbsentChar("k", "<>");
    CanonicalPlain("v\r");
    CarriageReturnLine(line);
    OneFieldLine(d, line, "k", "v\r", "k" + ":" + "v\r", "x");
    ReparseExactly(Fresh(d), line);
  }

  // A line of one field and a piece without a colon, which is skipped.
  lemma OneFieldLine(d: string, line: string, k: string, v: string, kv: string, rest: string)
    requires TrimRight(line) == line && Split(line, "<>") == ["1", "a", kv, rest] && kv == k + ":" + v
    requires GoodKey(k) && IsCanonical(v) && ':' !in rest
    ensures var p := Parse(Fresh(d), line); p.ok && LastValue(p.r) == v
  {
    assert Itoa(1) == "1";
    ParseIntItoa(1);
    assert Split(line, "<>")[2..] == [kv] + [rest];
    ParsePiece(k, v, [rest], map[], []);
    assert [rest][1..] == [];
    var contents := map[k := v];
    assert ParseFields([], contents, [k]) == Fields(true, contents, [k]);
    assert [] + [k] == [k] && map[][k := v] == contents;
    assert ParseFields([rest], contents, [k]) == Fields(true, contents, [k]);
  }

  lemma {:induction false} CanonicalHasNoNewline(v: string)
    requires IsCanonical(v)
    ensures '\n' !in v
    decreases |v|
  {
    if v == "" {
    } else if HasPrefix(v, "<br>") && IsCanonical(v[4..]) {
      CanonicalHasNoNewline(v[4..]);
      assert v == "<br>" + v[4..];
    } else {
      CanonicalHasNoNewline(v[1..]);
      assert v == [v[0]] + v[1..];
    }
  }

  // ------------------------------------------------------------------ text that is UTF-8

  lemma DigestIsPlain(d: Digest)
    ensures IsUtf8(d) && !Contains(d, "<>") && '_' !in d && !EndsInNewline(d) && d != ""
  {
    AsciiIsUtf8(d);
    AbsentChar(d, "<>");
  }

  lemma LineUtf8(stamp: int, id: string, body: string)
    requires IsUtf8(id) && IsUtf8(body)
    ensures IsUtf8(Line(stamp, id, body))
  {
    AsciiIsUtf8("<>");
    AsciiIsUtf8(Itoa(stamp));
    Utf8Concat(Itoa(stamp), "<>");
    Utf8Concat(Itoa(stamp) + "<>", id);
    Utf8Concat(Itoa(stamp) + "<>" + id, "<>");
    Utf8Concat(Itoa(stamp) + "<>" + id + "<>", body);
  }

  ghost predicate FieldsUtf8(contents: map<string, string>, keyOrder: seq<string>) {
    && AllUtf8(keyOrder)
    && forall k :: k in contents ==> IsUtf8(contents[k])
  }

  lemma PieceUtf8(kv: string)
    requires IsUtf8(kv) && IndexOf(kv, ':') < |kv|
    ensures IsUtf8(kv[..IndexOf(kv, ':')]) && IsUtf8(Normalise(kv[IndexOf(kv, ':') + 1..]))
  {
    var i := IndexOf(kv, ':');
    assert kv == kv[..i] + [kv[i]] + kv[i + 1..];
    Utf8Cut(kv[..i], kv[i], kv[i + 1..]);
    NormaliseUtf8(kv[i + 1..]);
  }

  lemma {:induction false} ParseFieldsUtf8(pieces: seq<string>, contents: map<string, string>, keyOrder: seq<string>)
    requires AllUtf8(pieces) && FieldsUtf8(contents, keyOrder)
    ensures var f := ParseFields(pieces, contents, keyOrder); FieldsUtf8(f.contents, f.keyOrder)
  {
    if pieces != [] {
      var kv := pieces[0];
      var i := IndexOf(kv, ':');
      if i == |kv| {
        ParseFieldsUtf8(pieces[1..], contents, keyOrder);
      } else if kv[..i] !in keyOrder {
        PieceUtf8(kv);
        ParseFieldsUtf8(pieces[1..], contents[kv[..i] := Normalise(kv[i + 1..])], keyOrder + [kv[..i]]);
      }
    }
  }

  lemma BodyUtf8(r: RecordState)
    requires InBounds(r) && FieldsUtf8(r.contents, r.keyOrder)
    ensures IsUtf8(Body(r))
  {
    var ps := Pieces(r.contents, r.keyOrder);
    forall i | 0 <= i < |ps| ensures IsUtf8(ps[i]) {
      if i < |r.keyOrder| {
        AsciiIsUtf8(":");
        Utf8Concat(r.keyOrder[i], ":");
        Utf8Concat(r.keyOrder[i] + ":", Lookup(r.contents, r.keyOrder[i]));
      }
    }
    JoinUtf8(ps);
  }

  lemma ParsedUtf8(r0: RecordState, line: string)
    requires Parse(r0, line).ok && AllUtf8(Split(TrimRight(line), "<>")[2..])
    ensures InBounds(Parse(r0, line).r) && IsUtf8(Body(Parse(r0, line).r))
  {
    ParseGood(r0, line);
    ParseFieldsUtf8(Split(TrimRight(line), "<>")[2..], map[], []);
    BodyUtf8(Parse(r0, line).r);
  }

  /** A line in UTF-8 is parsed into an id and a body in UTF-8. */
  lemma ParseUtf8(r0: RecordState, line: string)
    requires Parse(r0, line).ok && IsUtf8(line)
    ensures InBounds(Parse(r0, line).r) && IsUtf8(Parse(r0, line).r.head.id) && IsUtf8(Body(Parse(r0, line).r))
  {
    TrimRightUtf8(line);
    SplitUtf8(TrimRight(line));
    assert IsUtf8(Split(TrimRight(line), "<>")[1]);
    ParsedUtf8(r0, line);
  }

  /** The pieces of a line, whatever its body ends in. */
  lemma LinePieces(stamp: int, id: string, body: string)
    requires !Contains(id, "<>")
    ensures Split(TrimRight(Line(stamp, id, body)), "<>") == [Itoa(stamp), id] + Split(TrimRight(body), "<>")
  {
    var a := Itoa(stamp) + "<>" + id + "<>";
    assert a[|a| - 1] == '>';
    TrimRightConcat(a, body);
    assert Line(stamp, id, body) == a + body;
    SplitLine(stamp, id, TrimRight(body));
    assert Line(stamp, id, TrimRight(body)) == a + TrimRight(body);
  }

  /** So is a body in UTF-8, behind any stamp and id. */
  lemma ParseBodyUtf8(r0: RecordState, stamp: int, id: string, body: string)
    requires !Contains(id, "<>") && IsUtf8(body) && Parse(r0, Line(stamp, id, body)).ok
    ensures InBounds(Parse(r0, Line(stamp, id, body)).r) && IsUtf8(Body(Parse(r0, Line(stamp, id, body)).r))
  {
    LinePieces(stamp, id, body);
    TrimRightUtf8(body);
    SplitUtf8(TrimRight(body));
    ParsedUtf8(r0, Line(stamp, id, body));
  }
}
