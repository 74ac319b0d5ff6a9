/**
 util.Escape (util/util.go) and the value normalisation of Record.Parse (record/record.go): two
 chains of string replacements, each equal to one left-to-right scan.
 */
module Markup {
  import opened Text

  // ------------------------------------------------------------------ canonical text

  /** '<' and '>' occur only in "<br>", and there is no line feed. */
  predicate IsCanonical(s: string) {
    || s == ""
    || (HasPrefix(s, "<br>") && IsCanonical(s[4..]))
    || (s[0] != '<' && s[0] != '>' && s[0] != '\n' && IsCanonical(s[1..]))
  }

  lemma {:induction false} CanonicalConcat(a: string, b: string)
    requires IsCanonical(a) && IsCanonical(b)
    ensures IsCanonical(a + b)
    decreases |a|
  {
    if a == "" {
      assert a + b == b;
    } else if HasPrefix(a, "<br>") && IsCanonical(a[4..]) {
      CanonicalConcat(a[4..], b);
      assert (a + b)[4..] == a[4..] + b;
      assert (a + b)[..4] == a[..4];
    } else {
      CanonicalConcat(a[1..], b);
      assert (a + b)[1..] == a[1..] + b;
    }
  }

  lemma {:induction false} CanonicalPlain(s: string)
    requires '<' !in s && '>' !in s && '\n' !in s
    ensures IsCanonical(s)
  {
    if s != "" { CanonicalPlain(s[1..]); }
  }

  /** Canonical text holds no "<>", so it survives a split at "<>". */
  lemma {:induction false} CanonicalHasNoSeparator(s: string)
    requires IsCanonical(s)
    ensures !Contains(s, "<>")
    decreases |s|
  {
    if s == "" {
    } else if HasPrefix(s, "<br>") && IsCanonical(s[4..]) {
      CanonicalHasNoSeparator(s[4..]);
      assert s[..4][1] == s[1];
      assert s[..4][2] == s[2] && s[..4][3] == s[3];
      assert s[1..][1..][1..][1..] == s[4..];
      assert !Contains(s[1..][1..][1..], "<>");
      assert !Contains(s[1..][1..], "<>");
      assert !Contains(s[1..], "<>");
    } else {
      CanonicalHasNoSeparator(s[1..]);
    }
  }

  // ------------------------------------------------------------------ normalisation in Parse

  /** The four replacements Parse makes in a value. */
  function Normalise(v: string): string {
    Replace(Replace(Replace(Replace(v, "<br>", "\n"), "<", "&lt;"), ">", "&gt;"), "\n", "<br>")
  }

  /** The same as one scan. */
  function NormaliseScan(v: string): string {
    if v == "" then ""
    else if HasPrefix(v, "<br>") then "<br>" + NormaliseScan(v[4..])
    else (match v[0] case '<' => "&lt;" case '>' => "&gt;" case '\n' => "<br>" case c => [c]) + NormaliseScan(v[1..])
  }

  // The last three passes.
  function EscapeTags(s: string): string {
    Replace(Replace(Replace(s, "<", "&lt;"), ">", "&gt;"), "\n", "<br>")
  }

  lemma EscapeTagsCons(c: char, s: string)
    ensures EscapeTags([c] + s)
         == (match c case '<' => "&lt;" case '>' => "&gt;" case '\n' => "<br>" case d => [d]) + EscapeTags(s)
  {
    var s1 := Replace(s, "<", "&lt;");
    var s2 := Replace(s1, ">", "&gt;");
    ReplaceCharConcat([c], s, '<', "&lt;");
    var c1 := Replace([c], "<", "&lt;");
    ReplaceCharConcat(c1, s1, '>', "&gt;");
    var c2 := Replace(c1, ">", "&gt;");
    ReplaceCharConcat(c2, s2, '\n', "<br>");
    EscapeTagsChar(c);
  }

  lemma ReplaceOne(d: char, c: char, to: string)
    ensures Replace([d], [c], to) == if d == c then to else [d]
  {
    assert [d] + "" == [d];
  }

  lemma EscapeTagsChar(c: char)
    ensures EscapeTags([c]) == match c case '<' => "&lt;" case '>' => "&gt;" case '\n' => "<br>" case d => [d]
  {
    ReplaceOne(c, '<', "&lt;");
    ReplaceOne(c, '>', "&gt;");
    ReplaceOne(c, '\n', "<br>");
    ReplaceAbsent("&lt;", '>', "&gt;");
    ReplaceAbsent("&lt;", '\n', "<br>");
    ReplaceAbsent("&gt;", '\n', "<br>");
  }

  /** The replacement chain of Parse is the scan. */
  lemma {:induction false} NormaliseIsScan(v: string)
    ensures Normalise(v) == NormaliseScan(v)
    decreases |v|
  {
    if v == "" {
    } else if HasPrefix(v, "<br>") {
      NormaliseIsScan(v[4..]);
      EscapeTagsCons('\n', Replace(v[4..], "<br>", "\n"));
    } else {
      NormaliseIsScan(v[1..]);
      EscapeTagsCons(v[0], Replace(v[1..], "<br>", "\n"));
    }
  }

  lemma {:induction false} NormaliseCanonical(v: string)
    ensures IsCanonical(Normalise(v))
    decreases |v|
  {
    NormaliseIsScan(v);
    if v == "" {
    } else if HasPrefix(v, "<br>") {
      NormaliseIsScan(v[4..]);
      NormaliseCanonical(v[4..]);
      CanonicalConcat("<br>", NormaliseScan(v[4..]));
    } else {
      NormaliseIsScan(v[1..]);
      NormaliseCanonical(v[1..]);
      if v[0] == '<' { CanonicalPlain("&lt;"); CanonicalConcat("&lt;", NormaliseScan(v[1..])); }
      else if v[0] == '>' { CanonicalPlain("&gt;"); CanonicalConcat("&gt;", NormaliseScan(v[1..])); }
      else if v[0] == '\n' { CanonicalConcat("<br>", NormaliseScan(v[1..])); }
      else { CanonicalPlain([v[0]]); CanonicalConcat([v[0]], NormaliseScan(v[1..])); }
    }
  }

  /** Normalisation leaves a value alone exactly when the value is canonical. */
  lemma {:induction false} NormaliseFixed(v: string)
    ensures Normalise(v) == v <==> IsCanonical(v)
    decreases |v|
  {
    if Normalise(v) == v {
      NormaliseCanonical(v);
    }
    if IsCanonical(v) {
      NormaliseKeepsCanonical(v);
    }
  }

  lemma {:induction false} NormaliseKeepsCanonical(v: string)
    requires IsCanonical(v)
    ensures Normalise(v) == v
    decreases |v|
  {
    NormaliseIsScan(v);
    if v == "" {
    } else if HasPrefix(v, "<br>") && IsCanonical(v[4..]) {
      NormaliseKeepsCanonical(v[4..]);
      NormaliseIsScan(v[4..]);
      assert v == "<br>" + v[4..];
    } else {
      NormaliseKeepsCanonical(v[1..]);
      NormaliseIsScan(v[1..]);
    }
  }

  // ------------------------------------------------------------------ Escape

  /** The character classes of the entity expression. */
  datatype CharClass = Decimal | Hex | Alnum {
    predicate Has(c: char) {
      match this
      case Decimal => IsDigit(c)
      case Hex => IsDigit(c) || 'A' <= c <= 'F' || 'a' <= c <= 'f'
      case Alnum => IsDigit(c) || 'A' <= c <= 'Z' || 'a' <= c <= 'z'
    }

    predicate HasAll(s: string) {
      s == "" || (Has(s[0]) && HasAll(s[1..]))
    }
  }

  /** The body of an entity: "#" digits, "#x" hex digits, or letters and digits. */
  predicate IsEntityBody(b: string) {
    || (|b| > 1 && b[0] == '#' && Decimal.HasAll(b[1..]))
    || (|b| > 2 && b[0] == '#' && (b[1] == 'x' || b[1] == 'X') && Hex.HasAll(b[2..]))
    || (|b| > 0 && Alnum.HasAll(b))
  }

  lemma {:induction false} HasAllExactly(k: CharClass, s: string)
    ensures k.HasAll(s) <==> forall i :: 0 <= i < |s| ==> k.Has(s[i])
  {
    if s != "" {
      HasAllExactly(k, s[1..]);
      assert s == [s[0]] + s[1..];
    }
  }

  predicate AllDecimal(s: string) {
    forall i :: 0 <= i < |s| ==> '0' <= s[i] <= '9'
  }

  predicate AllHex(s: string) {
    forall i :: 0 <= i < |s| ==> '0' <= s[i] <= '9' || 'A' <= s[i] <= 'F' || 'a' <= s[i] <= 'f'
  }

  predicate AllAlnum(s: string) {
    forall i :: 0 <= i < |s| ==> '0' <= s[i] <= '9' || 'A' <= s[i] <= 'Z' || 'a' <= s[i] <= 'z'
  }

  /** The three forms of an entity: a decimal number, a hexadecimal one, or a name of letters and digits. */
  lemma EntityBodyExactly(b: string)
    ensures IsEntityBody(b) <==>
      || (exists ds :: ds != "" && AllDecimal(ds) && b == "#" + ds)
      || (exists hs :: hs != "" && AllHex(hs) && (b == "#x" + hs || b == "#X" + hs))
      || (b != "" && AllAlnum(b))
  {
    HasAllExactly(Alnum, b);
    if |b| > 1 && b[0] == '#' {
      HasAllExactly(Decimal, b[1..]);
      assert b == "#" + b[1..];
    }
    if |b| > 2 && b[0] == '#' {
      HasAllExactly(Hex, b[2..]);
      assert b[1] == 'x' ==> b == "#x" + b[2..];
      assert b[1] == 'X' ==> b == "#X" + b[2..];
    }
    forall ds | b == "#" + ds ensures b[1..] == ds { }
    forall hs | b == "#x" + hs || b == "#X" + hs ensures b[2..] == hs { }
  }

  /** Does s go on, after an '&', as a well-formed entity? */
  predicate OpensEntity(s: string) {
    var j := IndexOf(s, ';');
    j < |s| && IsEntityBody(s[..j])
  }

  /** The regular-expression pass: "&amp;body;" becomes "&body;", leftmost first. */
  function KeepEntities(t: string): string
    decreases |t|
  {
    if t == "" then ""
    else if t[0] != '&' then [t[0]] + KeepEntities(t[1..])
    else if HasPrefix(t, "&amp;") && OpensEntity(t[5..]) then
      var n := 5 + IndexOf(t[5..], ';') + 1;
      "&" + t[5..n] + KeepEntities(t[n..])
    else [t[0]] + KeepEntities(t[1..])
  }

  // The last four passes.
  function EscapeChars(s: string): string {
    Replace(Replace(Replace(Replace(s, "<", "&lt;"), ">", "&gt;"), "\r", ""), "\n", "<br>")
  }

  function Escape(msg: string): string {
    EscapeChars(KeepEntities(Replace(msg, "&", "&amp;")))
  }

  // What one char other than '&' becomes.
  function EscapeChar(c: char): string {
    match c
    case '<' => "&lt;"
    case '>' => "&gt;"
    case '\r' => ""
    case '\n' => "<br>"
    case d => [d]
  }

  /** Escape as one scan: an '&' stays only where it opens a well-formed entity. */
  function EscapeScan(s: string): string {
    if s == "" then ""
    else if s[0] == '&' then (if OpensEntity(s[1..]) then "&" else "&amp;") + EscapeScan(s[1..])
    else EscapeChar(s[0]) + EscapeScan(s[1..])
  }

  // The first two passes as one scan.
  function AmpScan(s: string): string {
    if s == "" then ""
    else if s[0] == '&' then (if OpensEntity(s[1..]) then "&" else "&amp;") + AmpScan(s[1..])
    else [s[0]] + AmpScan(s[1..])
  }

  lemma {:induction false} AmpScanPlain(u: string, a: string, b: string)
    requires u == a + b && '&' !in a
    ensures AmpScan(u) == a + AmpScan(b)
  {
    if a != "" {
      AmpScanPlain(u[1..], a[1..], b);
      assert u[0] == a[0];
    } else {
      assert u == b;
    }
  }

  lemma {:induction false} ClassChars(k: CharClass, s: string)
    requires k.HasAll(s)
    ensures forall i :: 0 <= i < |s| ==> Alnum.Has(s[i])
  {
    if s != "" {
      ClassChars(k, s[1..]);
      forall i | 0 <= i < |s| ensures Alnum.Has(s[i]) {
        if i > 0 { assert s[i] == s[1..][i - 1]; }
      }
    }
  }

  lemma EntityBodyChars(b: string)
    requires IsEntityBody(b)
    ensures forall i :: 0 <= i < |b| ==> Alnum.Has(b[i]) || b[i] == '#'
  {
    if b[0] == '#' && Decimal.HasAll(b[1..]) {
      ClassChars(Decimal, b[1..]);
      assert forall i :: 1 <= i < |b| ==> b[i] == b[1..][i - 1];
    } else if b[0] == '#' && Hex.HasAll(b[2..]) {
      ClassChars(Hex, b[2..]);
      assert forall i :: 2 <= i < |b| ==> b[i] == b[2..][i - 2];
    } else {
      ClassChars(Alnum, b);
    }
  }

  lemma EntityHasNoAmp(u: string)
    requires OpensEntity(u)
    ensures IndexOf(u, '&') > IndexOf(u, ';')
  {
    var k, j := IndexOf(u, '&'), IndexOf(u, ';');
    if k < j {
      assert u[..j][k] == '&';
      EntityBodyChars(u[..j]);
    }
  }

  // Two texts that agree up to the first '&' of u agree on whether they start an entity.
  lemma OpensEntityAgree(u: string, t: string, k: nat)
    requires k == IndexOf(u, '&') && k <= |t| && u[..k] == t[..k]
    requires OpensEntity(u)
    ensures OpensEntity(t) && IndexOf(t, ';') == IndexOf(u, ';') < k
  {
    EntityHasNoAmp(u);
    var j := IndexOf(u, ';');
    assert t[..k][..j] == t[..j] && u[..k][..j] == u[..j];
  }

  // Doubling the ampersands of u neither opens nor closes an entity at its start.
  lemma OpensEntityAmp(u: string)
    ensures OpensEntity(Replace(u, "&", "&amp;")) <==> OpensEntity(u)
    ensures OpensEntity(u) ==> '&' !in u[..IndexOf(u, ';') + 1]
    ensures OpensEntity(u) ==> IndexOf(Replace(u, "&", "&amp;"), ';') == IndexOf(u, ';')
  {
    var k := IndexOf(u, '&');
    var t := Replace(u, "&", "&amp;");
    ReplacePrefix(u, k, '&', "&amp;");
    assert t[..k] == u[..k];
    FirstAmp(u, t, k);
    if OpensEntity(u) { OpensEntityAgree(u, t, k); }
    if OpensEntity(t) { OpensEntityAgree(t, u, k); }
  }

  lemma FirstAmp(u: string, t: string, k: nat)
    requires k == IndexOf(u, '&') && t == u[..k] + Replace(u[k..], "&", "&amp;")
    ensures IndexOf(t, '&') == k
  {
    assert forall i :: 0 <= i < k ==> t[i] == u[i];
    if k < |u| {
      assert u[k..] == ['&'] + u[k + 1..];
      assert t[k] == '&';
    }
  }

  lemma KeepEntitiesChar(c: char, s: string)
    requires c != '&'
    ensures KeepEntities([c] + s) == [c] + KeepEntities(s)
  {
    var t := [c] + s;
    assert t[0] == c && t[1..] == s;
  }

  lemma KeepEntitiesUnfold(t: string, w: string, rest: string)
    requires HasPrefix(t, "&amp;") && t[5..] == w + rest
    requires OpensEntity(w + rest) && |w| == IndexOf(w + rest, ';') + 1
    ensures KeepEntities(t) == "&" + w + KeepEntities(rest)
  {
    assert t[0] == t[..5][0] == '&';
    assert t[5..5 + |w|] == w;
    assert t[5 + |w|..] == rest;
  }

  // A doubled ampersand is undone when the text after it starts with an entity w ...
  lemma KeepEntitiesUndo(w: string, rest: string)
    requires OpensEntity(w + rest) && |w| == IndexOf(w + rest, ';') + 1
    ensures KeepEntities("&amp;" + (w + rest)) == "&" + (w + KeepEntities(rest))
  {
    KeepEntitiesUnfold("&amp;" + (w + rest), w, rest);
  }

  lemma KeepEntitiesSkip(a: string)
    ensures KeepEntities("amp;" + a) == "amp;" + KeepEntities(a)
  {
    KeepEntitiesChar(';', a);
    KeepEntitiesChar('p', [';'] + a);
    KeepEntitiesChar('m', ['p'] + ([';'] + a));
    KeepEntitiesChar('a', ['m'] + (['p'] + ([';'] + a)));
    assert "amp;" + a == ['a'] + (['m'] + (['p'] + ([';'] + a)));
  }

  // ... and kept otherwise.
  lemma KeepEntitiesStay(a: string)
    requires !OpensEntity(a)
    ensures KeepEntities("&amp;" + a) == "&amp;" + KeepEntities(a)
  {
    var t := "&amp;" + a;
    assert t[5..] == a;
    assert t[1..] == "amp;" + a;
    KeepEntitiesSkip(a);
    assert KeepEntities(t) == [t[0]] + KeepEntities(t[1..]);
    var k := KeepEntities(a);
    assert ['&'] + ("amp;" + k) == "&amp;" + k;
  }

  // An entity w at the start of u stays in front when the ampersands are doubled.
  lemma AmpAfterEntity(u: string, w: string, rest: string)
    requires OpensEntity(u) && u == w + rest && |w| == IndexOf(u, ';') + 1
    ensures '&' !in w
    ensures var a := w + Replace(rest, "&", "&amp;");
      Replace(u, "&", "&amp;") == a && OpensEntity(a) && |w| == IndexOf(a, ';') + 1
  {
    OpensEntityAmp(u);
    assert u[..|w|] == w && u[|w|..] == rest;
    ReplacePrefix(u, |w|, '&', "&amp;");
  }

  // The step over an entity at the start of u.
  lemma KeepEntitiesEntity(u: string, w: string, rest: string)
    requires OpensEntity(u) && u == w + rest && |w| == IndexOf(u, ';') + 1
    requires KeepEntities(Replace(rest, "&", "&amp;")) == AmpScan(rest)
    ensures KeepEntities("&amp;" + Replace(u, "&", "&amp;")) == "&" + AmpScan(u)
  {
    AmpAfterEntity(u, w, rest);
    KeepEntitiesUndo(w, Replace(rest, "&", "&amp;"));
    AmpScanPlain(u, w, rest);
  }

  lemma {:induction false} KeepEntitiesIsAmpScan(s: string)
    ensures KeepEntities(Replace(s, "&", "&amp;")) == AmpScan(s)
    decreases |s|
  {
    if s == "" {
    } else {
      var u := s[1..];
      var a := Replace(u, "&", "&amp;");
      assert s[..1] == [s[0]];
      if s[0] == '&' {
        OpensEntityAmp(u);
        if OpensEntity(u) {
          var j := IndexOf(u, ';') + 1;
          KeepEntitiesIsAmpScan(u[j..]);
          KeepEntitiesEntity(u, u[..j], u[j..]);
        } else {
          KeepEntitiesStay(a);
          KeepEntitiesIsAmpScan(u);
        }
      } else {
        KeepEntitiesIsAmpScan(u);
        KeepEntitiesChar(s[0], a);
      }
    }
  }

  lemma EscapeCharsConcat(a: string, b: string)
    ensures EscapeChars(a + b) == EscapeChars(a) + EscapeChars(b)
  {
    ReplaceCharConcat(a, b, '<', "&lt;");
    var a1, b1 := Replace(a, "<", "&lt;"), Replace(b, "<", "&lt;");
    ReplaceCharConcat(a1, b1, '>', "&gt;");
    var a2, b2 := Replace(a1, ">", "&gt;"), Replace(b1, ">", "&gt;");
    ReplaceCharConcat(a2, b2, '\r', "");
    ReplaceCharConcat(Replace(a2, "\r", ""), Replace(b2, "\r", ""), '\n', "<br>");
  }

  lemma EscapeCharsPlain(s: string)
    requires '<' !in s && '>' !in s && '\r' !in s && '\n' !in s
    ensures EscapeChars(s) == s
  {
    ReplaceAbsent(s, '<', "&lt;");
    ReplaceAbsent(s, '>', "&gt;");
    ReplaceAbsent(s, '\r', "");
    ReplaceAbsent(s, '\n', "<br>");
  }

  lemma EscapeCharsOne(c: char)
    ensures EscapeChars([c]) == EscapeChar(c)
  {
    var s := [c];
    ReplaceOne(c, '<', "&lt;");
    if c == '<' {
      ReplaceAbsent("&lt;", '>', "&gt;");
      ReplaceAbsent("&lt;", '\r', "");
      ReplaceAbsent("&lt;", '\n', "<br>");
    } else if c == '>' {
      ReplaceOne(c, '>', "&gt;");
      ReplaceAbsent("&gt;", '\r', "");
      ReplaceAbsent("&gt;", '\n', "<br>");
    } else {
      ReplaceAbsent(s, '>', "&gt;");
      ReplaceOne(c, '\r', "");
      ReplaceOne(c, '\n', "<br>");
    }
  }

  /** The replace-then-undo passes of Escape equal the single scan. */
  lemma EscapeIsScan(msg: string)
    ensures Escape(msg) == EscapeScan(msg)
  {
    KeepEntitiesIsAmpScan(msg);
    EscapeCharsOfAmpScan(msg);
  }

  lemma {:induction false} EscapeCharsOfAmpScan(s: string)
    ensures EscapeChars(AmpScan(s)) == EscapeScan(s)
  {
    if s != "" {
      EscapeCharsOfAmpScan(s[1..]);
      if s[0] == '&' {
        var a := if OpensEntity(s[1..]) then "&" else "&amp;";
        EscapeCharsConcat(a, AmpScan(s[1..]));
        EscapeCharsPlain(a);
      } else {
        EscapeCharsConcat([s[0]], AmpScan(s[1..]));
        EscapeCharsOne(s[0]);
      }
    }
  }

  // ------------------------------------------------------------------ what Escape guarantees

  /** Every '&' opens a well-formed entity. */
  predicate EntitiesOnly(s: string) {
    s == "" || ((s[0] == '&' ==> OpensEntity(s[1..])) && EntitiesOnly(s[1..]))
  }

  // A char that a scan passes on unchanged.
  predicate IsPlain(c: char) {
    c != '&' && c != '<' && c != '>' && c != '\r' && c != '\n'
  }

  lemma EscapeScanPlainStep(c: char, a: string, b: string)
    requires IsPlain(c) && EscapeScan(a + b) == a + EscapeScan(b)
    ensures EscapeScan([c] + a + b) == [c] + a + EscapeScan(b)
  {
    assert [c] + a + b == [c] + (a + b);
  }

  lemma {:induction false} EscapeScanPlain(a: string, b: string)
    requires forall i :: 0 <= i < |a| ==> IsPlain(a[i])
    ensures EscapeScan(a + b) == a + EscapeScan(b)
  {
    if a == "" {
      assert a + b == b;
    } else {
      EscapeScanPlain(a[1..], b);
      EscapeScanPlainStep(a[0], a[1..], b);
      assert [a[0]] + a[1..] == a;
    }
  }

  lemma OpensEntityEscaped(u: string)
    requires OpensEntity(u)
    ensures OpensEntity(EscapeScan(u))
  {
    var j := IndexOf(u, ';');
    var b := u[..j];
    EntityBodyChars(b);
    assert u == (b + ";") + u[j + 1..];
    EscapeScanPlain(b + ";", u[j + 1..]);
    EntityThenRest(b, EscapeScan(u[j + 1..]));
  }

  lemma EntityThenRest(b: string, rest: string)
    requires IsEntityBody(b)
    ensures OpensEntity(b + ";" + rest)
  {
    var s := b + ";" + rest;
    EntityBodyChars(b);
    assert s[|b|] == ';';
    forall i | 0 <= i < |b| ensures s[i] != ';' { assert s[i] == b[i]; }
    assert IndexOf(s, ';') == |b|;
    assert s[..|b|] == b;
  }

  lemma {:induction false} EntitiesOnlyPlain(a: string, b: string)
    requires '&' !in a && EntitiesOnly(b)
    ensures EntitiesOnly(a + b)
  {
    if a == "" {
      assert a + b == b;
    } else {
      EntitiesOnlyPlain(a[1..], b);
      assert (a + b)[1..] == a[1..] + b;
    }
  }

  lemma EntitiesOnlyCons(body: string, b: string)
    requires EntitiesOnly(b) && IsEntityBody(body)
    ensures EntitiesOnly("&" + body + ";" + b)
  {
    EntityBodyChars(body);
    EntityThenRest(body, b);
    EntitiesOnlyPlain(body + ";", b);
    var s := "&" + body + ";" + b;
    assert s[1..] == body + ";" + b == (body + ";") + b;
  }

  /** Escaped text is canonical, has no carriage return, and every '&' in it opens an entity. */
  lemma {:induction false} EscapeOutput(s: string)
    ensures IsEscaped(Escape(s))
  {
    EscapeIsScan(s);
    if s != "" {
      EscapeOutput(s[1..]);
      EscapeIsScan(s[1..]);
      if s[0] == '&' {
        EscapeAmpOutput(s[1..]);
      } else {
        EscapeCharOutput(s[0], EscapeScan(s[1..]));
      }
    }
  }

  predicate IsEscaped(s: string) {
    IsCanonical(s) && '\r' !in s && '\n' !in s && EntitiesOnly(s)
  }

  lemma EscapeAmpOutput(u: string)
    requires IsEscaped(EscapeScan(u))
    ensures IsEscaped((if OpensEntity(u) then "&" else "&amp;") + EscapeScan(u))
  {
    if OpensEntity(u) {
      OpensEntityEscaped(u);
    } else {
      DoubledAmp(EscapeScan(u));
    }
  }

  lemma DoubledAmp(r: string)
    requires IsEscaped(r)
    ensures IsEscaped("&amp;" + r)
  {
    CanonicalPlain("&amp;");
    CanonicalConcat("&amp;", r);
    EntitiesOnlyCons("amp", r);
    assert "&" + "amp" + ";" + r == "&amp;" + r;
  }

  lemma EscapeCharOutput(c: char, r: string)
    requires c != '&' && IsEscaped(r)
    ensures IsEscaped(EscapeChar(c) + r)
  {
    var e := EscapeChar(c);
    if c == '\n' { assert e[4..] == ""; } else { CanonicalPlain(e); }
    CanonicalConcat(e, r);
    if c == '<' {
      EntitiesOnlyCons("lt", r);
      assert "&" + "lt" + ";" + r == e + r;
    } else if c == '>' {
      EntitiesOnlyCons("gt", r);
      assert "&" + "gt" + ";" + r == e + r;
    } else {
      EntitiesOnlyPlain(e, r);
    }
  }

  lemma {:induction false} EscapeScanFixed(t: string)
    requires EntitiesOnly(t) && '<' !in t && '>' !in t && '\r' !in t && '\n' !in t
    ensures EscapeScan(t) == t
  {
    if t != "" { EscapeScanFixed(t[1..]); }
  }

  // An angle bracket in the output of a scan comes from a line feed.
  lemma {:induction false} BracketsFromNewlines(s: string)
    ensures '<' in EscapeScan(s) <==> '\n' in s
    ensures '>' in EscapeScan(s) <==> '\n' in s
  {
    if s != "" {
      BracketsFromNewlines(s[1..]);
      assert s == [s[0]] + s[1..];
      assert "<br>"[0] == '<' && "<br>"[3] == '>';
    }
  }

  /** Escape is idempotent on a text exactly when the text has no line feed. */
  lemma EscapeIdempotentExactly(s: string)
    ensures Escape(Escape(s)) == Escape(s) <==> '\n' !in s
  {
    var t := Escape(s);
    EscapeIsScan(s);
    EscapeIsScan(t);
    EscapeOutput(s);
    BracketsFromNewlines(s);
    BracketsFromNewlines(t);
    if '\n' !in s { EscapeScanFixed(t); }
  }
}
