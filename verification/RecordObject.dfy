/**
 record/record.go: the Record object, whose methods fill its head, contents and key order; and what
 a posted record looks like to the node that receives it.
 */
module RecordObject {
  import opened Wrappers
  import opened Text
  import opened Markup
  import opened Keys
  import opened Records
  import JsonText
  import NumberTheory
  import opened Apollo
  import opened Codec
  import opened Signature

  // ------------------------------------------------------------------ building

  /** The values that Build keeps. */
  function NonEmpty(body: map<string, string>): map<string, string> {
    map k | k in body && body[k] != "" :: body[k]
  }

  /** The fields of a record built from values in a given iteration order. */
  function BuiltFields(env: Env, values: map<string, string>, order: seq<string>, key: Option<PrivateKey>): Fields
    requires |order| <= |values|
  {
    if key.None? then Fields(true, values, order)
    else
      var sign := Encode(SignatureValue(key.value, env.md5(Bodystr(values, order))));
      Fields(true,
        values["pubkey" := Encode(key.value.keyN)]["sign" := sign]["target" := Join(order, ",")],
        order + ["pubkey", "sign", "target"])
  }

  predicate IsReserved(k: string) {
    k == "pubkey" || k == "sign" || k == "target"
  }

  /** r is what Build makes of body when the map is iterated in the given order. */
  ghost predicate IsBuilt(env: Env, r: RecordState, body: map<string, string>, key: Option<PrivateKey>,
      order: seq<string>) {
    && WellFormed(NonEmpty(body), order) && |order| <= |NonEmpty(body)|
    && BuiltFields(env, NonEmpty(body), order, key) == Fields(true, r.contents, r.keyOrder)
    && InBounds(r) && r.head.id == env.md5(Body(r))
  }

  lemma AddWellFormed(contents: map<string, string>, order: seq<string>, k: string, v: string)
    requires WellFormed(contents, order) && k !in contents
    ensures WellFormed(contents[k := v], order + [k])
  {
  }

  // The values kept so far when the keys in rest are still to come.
  ghost function Chosen(body: map<string, string>, rest: set<string>): map<string, string> {
    map k | k in body && k !in rest && body[k] != "" :: body[k]
  }

  /** The Record object. */
  class Record {
    var head: Head
    var contents: map<string, string>
    var keyOrder: seq<string>

    function State(): RecordState
      reads this
    {
      RecordState(head, contents, keyOrder)
    }

    /** record.New. */
    constructor (datfile: string, id: string, stamp: int)
      ensures State() == RecordState(Head(datfile, stamp, id), map[], [])
    {
      head := Head(datfile, stamp, id);
      contents := map[];
      keyOrder := [];
    }

    /** bodystr: a slot per entry, filled in key order, then joined. */
    method PrintBody() returns (s: string)
      requires InBounds(State())
      ensures s == Body(State())
    {
      var rs := seq(|contents|, _ => "");
      for i := 0 to |keyOrder|
        invariant |rs| == |contents|
        invariant forall j :: 0 <= j < i ==> rs[j] == Pieces(contents, keyOrder)[j]
        invariant forall j :: i <= j < |rs| ==> rs[j] == ""
      {
        var k := keyOrder[i];
        rs := rs[i := k + ":" + Lookup(contents, k)];
      }
      assert rs == Pieces(contents, keyOrder);
      s := Join(rs, "<>");
    }

    method Parse(recstr: string) returns (ok: bool)
      modifies this
      ensures Parsed(State(), ok) == Records.Parse(old(State()), recstr)
    {
      var tmp := Split(TrimRight(recstr), "<>");
      if |tmp| < 2 {
        return false;
      }
      var stamp := ParseInt(tmp[0]);
      if stamp.None? {
        return false;
      }
      if head.stamp == 0 {
        head := head.(stamp := stamp.value);
      }
      if head.stamp != stamp.value {
        return false;
      }
      if head.id == "" {
        head := head.(id := tmp[1]);
      }
      if head.id != tmp[1] {
        return false;
      }
      ok := ParseRest(tmp[2..]);
    }

    // The loop of Parse over the fields.
    method ParseRest(rest: seq<string>) returns (ok: bool)
      modifies this`contents, this`keyOrder
      ensures Fields(ok, contents, keyOrder) == ParseFields(rest, map[], [])
    {
      contents, keyOrder := map[], [];
      for n := 0 to |rest|
        invariant ParseFields(rest, map[], []) == ParseFields(rest[n..], contents, keyOrder)
      {
        var kv := rest[n];
        assert rest[n..] == [kv] + rest[n + 1..];
        var i := IndexOf(kv, ':');
        if i == |kv| {
          continue;
        }
        var key, value := kv[..i], Normalise(kv[i + 1..]);
        if key in keyOrder {
          return false;
        }
        keyOrder := keyOrder + [key];
        contents := contents[key := value];
      }
      return true;
    }

    /**
     Build; order is the iteration order of the map. None stands for the index error of bodystr: the
     key order still holds the keys of before, and a signed body may have a key that signing adds.
     */
    method Build(env: Env, stamp: int, body: map<string, string>, key: Option<PrivateKey>)
        returns (id: Option<string>, ghost order: seq<string>)
      modifies this
      ensures id.None? <==> old(keyOrder) != [] || (key.Some? && exists k :: k in NonEmpty(body) && IsReserved(k))
      ensures id.Some? ==> IsBuilt(env, State(), body, key, order) && id == Some(head.id)
      ensures id.Some? ==> head.datfile == old(head.datfile) && head.stamp == stamp
    {
      head := head.(stamp := stamp);
      order := Gather(body);
      WellFormedSize(contents, order);
      if !InBounds(State()) {
        return None, order;
      }
      assert keyOrder == order;
      if key.Some? {
        Sign(env, key.value);
        if !InBounds(State()) {
          return None, order;
        }
      }
      var text := PrintBody();
      var hash := env.md5(text);
      head := head.(id := hash);
      id := Some(hash);
    }

    // The loop of Build over the body.
    method Gather(body: map<string, string>) returns (ghost order: seq<string>)
      modifies this`contents, this`keyOrder
      ensures contents == NonEmpty(body) && WellFormed(contents, order) && keyOrder == old(keyOrder) + order
    {
      contents, order := map[], [];
      var rest := body.Keys;
      while rest != {}
        invariant rest <= body.Keys
        invariant contents == Chosen(body, rest) && WellFormed(contents, order) && keyOrder == old(keyOrder) + order
      {
        var k :| k in rest;
        rest := rest - {k};
        if body[k] == "" {
          continue;
        }
        AddWellFormed(contents, order, k, body[k]);
        contents := contents[k := body[k]];
        keyOrder := keyOrder + [k];
        order := order + [k];
      }
    }

    // The signed part of Build.
    method Sign(env: Env, key: PrivateKey)
      requires WellFormed(contents, keyOrder) && |keyOrder| == |contents|
      modifies this`contents, this`keyOrder
      ensures BuiltFields(env, old(contents), old(keyOrder), Some(key)) == Fields(true, contents, keyOrder)
      ensures |keyOrder| <= |contents| <==> forall k :: k in old(contents) ==> !IsReserved(k)
    {
      var pubkey := IntToBase64(key.keyN);
      var text := PrintBody();
      var sign := Signature.Sign(key, env.md5(text));
      contents := contents["pubkey" := pubkey]["sign" := sign]["target" := Join(keyOrder, ",")];
      keyOrder := keyOrder + ["pubkey", "sign", "target"];
    }
  }

  // ------------------------------------------------------------------ at the receiver

  /** Every key is good, every value is canonical, and the last one does not end in a newline char. */
  ghost predicate Transportable(r: RecordState) {
    GoodEntries(r.contents) && !EndsInNewline(LastValue(r))
  }

  ghost predicate GoodEntries(contents: map<string, string>) {
    forall k :: k in contents ==> GoodKey(k) && IsCanonical(contents[k])
  }

  lemma OneMoreEntry(contents: map<string, string>, k: string, v: string)
    requires k !in contents
    ensures GoodEntries(contents[k := v]) <==> GoodEntries(contents) && GoodKey(k) && IsCanonical(v)
  {
    var m := contents[k := v];
    assert m[k] == v && forall j :: j in contents ==> j in m && m[j] == contents[j];
  }

  /** A receiver reads a record back unchanged exactly when it is transportable. */
  lemma ReceivedExactly(r: RecordState)
    requires WellFormed(r.contents, r.keyOrder) && IsInt64(r.head.stamp) && !Contains(r.head.id, "<>")
    ensures InBounds(r) && (Parse(Fresh(r.head.datfile), Recstr(r)) == Parsed(r, true) <==> Transportable(r))
  {
    WellFormedSize(r.contents, r.keyOrder);
    var r0 := Fresh(r.head.datfile);
    if Transportable(r) {
      ParsePrinted(r, r0);
    }
    if Parse(r0, Recstr(r)) == Parsed(r, true) {
      ParseGood(r0, Recstr(r));
      TrimLastPrints(r);
      ParseIgnoresLineEnd(r0, Recstr(r));
      ParsePrinted(TrimLast(r), r0);
    }
  }

  lemma EscapedIsTransportable(v: string)
    ensures IsCanonical(Escape(v)) && !EndsInNewline(Escape(v))
  {
    EscapeOutput(v);
  }

  /** A canonical value without a trailing newline char, such as Escape makes. */
  predicate GoodValue(v: string) {
    IsCanonical(v) && !EndsInNewline(v)
  }

  /** The padding char after n is none of the three that Parse rewrites. */
  predicate PadIsCanonical(n: nat) {
    var b := PadByte(|Digits64(n)|);
    b != 10 && b != 60 && b != 62
  }

  lemma {:induction false} DigitsPlain(n: nat)
    ensures forall c :: c in Digits64(n) ==> c == '+' || c == '/' || IsDigit(c) || 'A' <= c <= 'Z' || 'a' <= c <= 'z'
  {
    if n > 0 { DigitsPlain(n / 64); }
  }

  lemma {:induction false} PlainThenChar(a: string, c: char)
    requires forall i :: 0 <= i < |a| ==> a[i] != '<' && a[i] != '>' && a[i] != '\n'
    ensures IsCanonical(a + [c]) <==> c != '<' && c != '>' && c != '\n'
  {
    var s := a + [c];
    assert |s| >= 4 ==> s[..4][0] == s[0] && s[..4][1] == s[1] && s[..4][2] == s[2] && s[..4][3] == s[3];
    if a == "" {
      assert s[1..] == "";
    } else {
      PlainThenChar(a[1..], c);
      assert s[1..] == a[1..] + [c];
    }
  }

  /** A printed number is canonical exactly when its padding char is. */
  lemma EncodeExactly(n: nat)
    ensures IsCanonical(Encode(n)) <==> PadIsCanonical(n)
  {
    DigitsPlain(n);
    var a, b := Digits64(n), PadByte(|Digits64(n)|);
    var pad := Utf8(b);
    var init := a + pad[..|pad| - 1];
    assert forall i :: 0 <= i < |init| ==> init[i] in a || init[i] in pad[..|pad| - 1];
    PlainThenChar(init, pad[|pad| - 1]);
    assert init + [pad[|pad| - 1]] == Encode(n);
  }

  /** A modulus and a signature of 82 to 86 digits are good values. */
  lemma InRangeIsGoodValue(n: nat)
    requires NumberTheory.Pow(64, 81) <= n < NumberTheory.Pow(64, 86)
    ensures PadIsCanonical(n) && GoodValue(Encode(n))
  {
    DigitsBetween(n, 81, 86);
    PadBytesNear86(|Digits64(n)|);
    EncodeExactly(n);
    var pad := Utf8(PadByte(|Digits64(n)|));
    assert Encode(n)[|Encode(n)| - 1] == pad[|pad| - 1];
  }

  lemma DigitsBetween(n: nat, lo: nat, hi: nat)
    requires NumberTheory.Pow(64, lo) <= n < NumberTheory.Pow(64, hi)
    ensures lo < |Digits64(n)| <= hi
  {
    DigitCount(n, lo);
    DigitCount(n, hi);
  }

  lemma PadBytesNear86(len: nat)
    requires 82 <= len <= 86
    ensures PadByte(len) in {0, 4, 65, 130, 195}
  {
  }

  /** The value that a signed record carries as its signature. */
  function BuiltSignature(env: Env, body: map<string, string>, key: PrivateKey, order: seq<string>): nat
    requires |order| <= |NonEmpty(body)|
  {
    SignatureValue(key, env.md5(Bodystr(NonEmpty(body), order)))
  }

  predicate LastKeyEnds(order: seq<string>) {
    order != [] && EndsInNewline(order[|order| - 1])
  }

  /**
   What a built record needs to verify everywhere: good keys and canonical values; the value that is
   printed last must not end in a newline char. That is the last value of an unsigned body, and the
   list of the keys of a signed one.
   */
  ghost predicate Postable(env: Env, body: map<string, string>, key: Option<PrivateKey>, order: seq<string>)
    requires |order| <= |NonEmpty(body)|
  {
    && GoodEntries(NonEmpty(body))
    && match key
       case None => order != [] ==> !EndsInNewline(Lookup(NonEmpty(body), order[|order| - 1]))
       case Some(sk) =>
         && (forall i :: 0 <= i < |order| ==> IsCanonical(order[i])) && !LastKeyEnds(order)
         && PadIsCanonical(sk.keyN) && PadIsCanonical(BuiltSignature(env, body, sk, order))
  }

  lemma {:induction false} CanonicalAtComma(x: string, t: string)
    ensures IsCanonical(x + ("," + t)) <==> IsCanonical(x) && IsCanonical(t)
    decreases |x|
  {
    var s := x + ("," + t);
    assert |s| >= 4 ==> s[..4][0] == s[0] && s[..4][1] == s[1] && s[..4][2] == s[2] && s[..4][3] == s[3];
    assert s[|x|] == ',';
    if x == "" {
      assert s[1..] == t;
    } else if HasPrefix(s, "<br>") {
      assert |x| >= 4 && x[..4] == s[..4];
      CanonicalAtComma(x[4..], t);
      assert s[4..] == x[4..] + ("," + t);
    } else {
      assert |x| >= 4 ==> x[..4] == s[..4];
      CanonicalAtComma(x[1..], t);
      assert s[1..] == x[1..] + ("," + t);
    }
  }

  /** The list of keys is canonical exactly when all keys are, and ends as the last key does. */
  lemma {:induction false} JoinKeys(xs: seq<string>)
    ensures IsCanonical(Join(xs, ",")) <==> forall i :: 0 <= i < |xs| ==> IsCanonical(xs[i])
    ensures EndsInNewline(Join(xs, ",")) <==> LastKeyEnds(xs)
  {
    if |xs| > 1 {
      var t := Join(xs[1..], ",");
      JoinKeys(xs[1..]);
      CanonicalAtComma(xs[0], t);
      assert xs[0] + ("," + t) == Join(xs, ",");
      assert t == "" ==> (xs[0] + ("," + t))[|xs[0]|] == ',';
      assert forall i :: 1 <= i < |xs| ==> xs[i] == xs[1..][i - 1];
      EndsAsTail(xs[1..]);
    }
  }

  lemma EndsAsTail(xs: seq<string>)
    requires xs != []
    ensures Join(xs, ",") == "" ==> xs[|xs| - 1] == ""
  {
    if |xs| > 1 { assert Join(xs, ",")[|xs[0]|] == ','; }
  }

  // The signed fields, when the body has a slot for each of them.
  lemma SignedFields(values: map<string, string>, order: seq<string>, p: string, s: string, t: string)
    requires WellFormed(values, order)
    requires |order| + 3 <= |values["pubkey" := p]["sign" := s]["target" := t]|
    ensures forall k :: k in values ==> !IsReserved(k)
    ensures var r := RecordState(Head("", 0, ""), values["pubkey" := p]["sign" := s]["target" := t],
        order + ["pubkey", "sign", "target"]);
      WellFormed(r.contents, r.keyOrder) && LastValue(r) == t
  {
    WellFormedSize(values, order);
    var names := {"pubkey", "sign", "target"};
    var added := values["pubkey" := p]["sign" := s]["target" := t];
    assert added.Keys == values.Keys + names && |added| == |added.Keys| && |values| == |values.Keys|;
    assert |added.Keys| == |values.Keys| + |names| - |values.Keys * names|;
    assert values.Keys * names == {};
    forall k | k in values ensures !IsReserved(k) {
      assert k !in values.Keys * names;
    }
    AddThreeWellFormed(values, order, "pubkey", "sign", "target", p, s, t);
  }

  lemma AddThreeWellFormed(values: map<string, string>, order: seq<string>, a: string, b: string, c: string,
      p: string, s: string, t: string)
    requires WellFormed(values, order) && a !in values && b !in values && c !in values
    requires a != b && b != c && a != c
    ensures WellFormed(values[a := p][b := s][c := t], order + [a, b, c])
  {
    AddWellFormed(values, order, a, p);
    AddWellFormed(values[a := p], order + [a], b, s);
    AddWellFormed(values[a := p][b := s], order + [a] + [b], c, t);
    assert order + [a] + [b] + [c] == order + [a, b, c];
  }

  lemma ReservedKeysGood()
    ensures GoodKey("pubkey") && GoodKey("sign") && GoodKey("target")
  {
    PlainKeyGood("pubkey");
    PlainKeyGood("sign");
    PlainKeyGood("target");
  }

  lemma PlainKeyGood(k: string)
    requires '<' !in k && ':' !in k
    ensures GoodKey(k)
  {
    AbsentChar(k, "<>");
  }

  lemma SignedTransportable(values: map<string, string>, order: seq<string>, p: string, s: string, t: string,
      r: RecordState)
    requires forall k :: k in values ==> !IsReserved(k)
    requires r.contents == values["pubkey" := p]["sign" := s]["target" := t]
    requires LastValue(r) == t
    ensures Transportable(r) <==>
      GoodEntries(values) && IsCanonical(p) && IsCanonical(s) && IsCanonical(t) && !EndsInNewline(t)
  {
    ReservedKeysGood();
    OneMoreEntry(values, "pubkey", p);
    OneMoreEntry(values["pubkey" := p], "sign", s);
    OneMoreEntry(values["pubkey" := p]["sign" := s], "target", t);
  }

  lemma SignedExactly(env: Env, r: RecordState, body: map<string, string>, sk: PrivateKey, order: seq<string>)
    requires IsBuilt(env, r, body, Some(sk), order)
    ensures WellFormed(r.contents, r.keyOrder)
    ensures Transportable(r) <==> Postable(env, body, Some(sk), order)
  {
    var values, n := NonEmpty(body), BuiltSignature(env, body, sk, order);
    SignedFields(values, order, Encode(sk.keyN), Encode(n), Join(order, ","));
    SignedTransportable(values, order, Encode(sk.keyN), Encode(n), Join(order, ","), r);
    EncodeExactly(sk.keyN);
    EncodeExactly(n);
    JoinKeys(order);
  }

  lemma UnsignedExactly(env: Env, r: RecordState, body: map<string, string>, order: seq<string>)
    requires IsBuilt(env, r, body, None, order)
    ensures WellFormed(r.contents, r.keyOrder)
    ensures Transportable(r) <==> Postable(env, body, None, order)
  {
    assert r.contents == NonEmpty(body) && r.keyOrder == order;
    if order != [] {
      assert LastValue(r) == Lookup(r.contents, order[|order| - 1]);
    }
  }

  /** A built record is well-formed, and transportable exactly when it is postable. */
  lemma BuiltIsTransportable(env: Env, r: RecordState, body: map<string, string>, key: Option<PrivateKey>,
      order: seq<string>)
    requires IsBuilt(env, r, body, key, order)
    ensures WellFormed(r.contents, r.keyOrder)
    ensures Transportable(r) <==> Postable(env, body, key, order)
  {
    if key.Some? {
      SignedExactly(env, r, body, key.value, order);
    } else {
      UnsignedExactly(env, r, body, order);
    }
  }

  /**
   A posted record verifies everywhere exactly when it is postable: what a receiver parses from the
   line has the same head, contents and key order. Its hash is its id in any case.
   */
  lemma PostedVerifies(env: Env, r: RecordState, body: map<string, string>, key: Option<PrivateKey>, order: seq<string>)
    requires IsBuilt(env, r, body, key, order) && IsInt64(r.head.stamp)
    ensures Md5check(env, r)
    ensures Parse(Fresh(r.head.datfile), Recstr(r)) == Parsed(r, true) <==> Postable(env, body, key, order)
  {
    BuiltIsTransportable(env, r, body, key, order);
    DigestIsPlain(r.head.id);
    ReceivedExactly(r);
  }

  /** k is a key whose value the poster gave and did not leave empty. */
  predicate IsGiven(body: map<string, string>, k: string) {
    k in body && body[k] != ""
  }

  /** What Build puts in: every value that is not empty, each key once in the key order. */
  lemma BuiltExactly(env: Env, r: RecordState, body: map<string, string>, key: Option<PrivateKey>, order: seq<string>)
    requires IsBuilt(env, r, body, key, order)
    ensures forall k :: IsGiven(body, k) ==> k in r.contents && r.contents[k] == body[k]
    ensures forall k :: k in r.contents <==> IsGiven(body, k) || (key.Some? && k in {"pubkey", "sign", "target"})
    ensures NoDuplicates(r.keyOrder) && forall k :: k in r.keyOrder <==> k in r.contents
    ensures key.None? ==> r.keyOrder == order
  {
    BuiltIsTransportable(env, r, body, key, order);
    GivenOnly(body);
    if key.Some? {
      var n := BuiltSignature(env, body, key.value, order);
      SignedFields(NonEmpty(body), order, Encode(key.value.keyN), Encode(n), Join(order, ","));
      SignedHolds(NonEmpty(body), Encode(key.value.keyN), Encode(n), Join(order, ","));
    }
  }

  lemma GivenOnly(body: map<string, string>)
    ensures forall k :: k in NonEmpty(body) <==> IsGiven(body, k)
    ensures forall k :: k in NonEmpty(body) ==> NonEmpty(body)[k] == body[k]
  {
  }

  lemma SignedHolds(values: map<string, string>, p: string, s: string, t: string)
    requires forall k :: k in values ==> !IsReserved(k)
    ensures var m := values["pubkey" := p]["sign" := s]["target" := t];
      && (forall k :: k in m <==> k in values || k in {"pubkey", "sign", "target"})
      && (forall k :: k in values ==> m[k] == values[k])
  {
  }

  /** What signing adds: the modulus, and a list from which the keys of the body can be read off in their order. */
  lemma SignedTarget(env: Env, r: RecordState, body: map<string, string>, key: PrivateKey, order: seq<string>)
    requires IsBuilt(env, r, body, Some(key), order)
    ensures "pubkey" in r.contents && r.contents["pubkey"] == Encode(key.keyN)
    ensures r.keyOrder == order + ["pubkey", "sign", "target"]
    ensures "target" in r.contents
    ensures order != [] && (forall k :: IsGiven(body, k) ==> ',' !in k) ==> Split(r.contents["target"], ",") == order
  {
    if order != [] && forall k :: IsGiven(body, k) ==> ',' !in k {
      GivenOnly(body);
      forall i | 0 <= i < |order| ensures !Contains(order[i], ",") {
        assert order[i] in order;
        AbsentChar(order[i], ",");
      }
      SplitJoin(order, ",");
    }
  }

  /** The padding is printed as Go converts a number to a string: the UTF-8 of that code point. */
  lemma PadIsUtf8(b: nat)
    requires b < 256
    ensures Utf8(b) == JsonText.EncodeRune(b)
  {
  }

  /** Values such as Escape makes are postable in any iteration order, signed by a key of 82 to 86 digits or not. */
  lemma EscapedIsPostable(env: Env, body: map<string, string>, key: Option<PrivateKey>, order: seq<string>)
    requires WellFormed(NonEmpty(body), order) && |order| <= |NonEmpty(body)|
    requires forall k :: k in NonEmpty(body) ==> GoodKey(k) && GoodValue(k) && GoodValue(body[k])
    requires key.Some? ==> PadIsCanonical(key.value.keyN) && PadIsCanonical(BuiltSignature(env, body, key.value, order))
    ensures Postable(env, body, key, order)
  {
    assert forall i :: 0 <= i < |order| ==> order[i] in order;
  }

  // ------------------------------------------------------------------ the signature of a post

  lemma HashBelowModulus(md: string, n: nat)
    requires |md| == 32 && (forall i :: 0 <= i < 32 ==> md[i] as nat < 256) && n >= NumberTheory.Pow(64, 81)
    ensures LittleEndian(md) < n
  {
    LittleEndianBound(md);
    NumberTheory.PowPow(2, 8, 32);
    NumberTheory.PowPow(2, 6, 81);
    assert NumberTheory.Pow(2, 8) == 256 && NumberTheory.Pow(2, 6) == 64;
    NumberTheory.PowAdd(2, 256, 230);
    PowPositive(2, 256);
    PowPositive(2, 230);
    NumberTheory.MulAtLeast(NumberTheory.Pow(2, 256), NumberTheory.Pow(2, 230));
  }

  lemma KeyTextLength(n: nat)
    requires n >= NumberTheory.Pow(64, 81)
    ensures |Encode(n)| >= 83
  {
    DigitCount(n, 81);
  }

  /**
   The signature in a signed post is one that Verify accepts, for the hash of the unsigned fields,
   exactly when the codec carries it; the key has two distinct primes and 82 to 86 digits.
   */
  lemma PostedSignatureVerifies(env: Env, r: RecordState, body: map<string, string>, key: PrivateKey,
      order: seq<string>, p: nat, q: nat)
    requires IsBuilt(env, r, body, Some(key), order) && KeyOf(key, p, q) && p != q
    requires NumberTheory.Pow(64, 81) <= key.keyN < NumberTheory.Pow(64, 86)
    ensures "sign" in r.contents && "pubkey" in r.contents
    ensures Verifies(env.md5(Bodystr(NonEmpty(body), order)), r.contents["sign"], r.contents["pubkey"])
       <==> Carried(BuiltSignature(env, body, key, order))
  {
    var md := env.md5(Bodystr(NonEmpty(body), order));
    InRangeIsCarried(key.keyN);
    HashBelowModulus(md, key.keyN);
    KeyTextLength(key.keyN);
    SignThenVerify(key, p, q, md);
  }
}
