/**
 thread/download/download.go: the loop of getWithRange, from the ranges that Get returns through the
 answers of a peer to the rows of the local store. One call of it is a session.
 */
module Sync {
  import opened Wrappers
  import opened Text
  import opened Keys
  import opened Records
  import opened JsonText
  import opened Store
  import opened Server
  import opened Download

  /** The answer to the request of turn i for the range from-to; None is a failed request. */
  type Talk = (nat, int, int) -> Option<seq<string>>

  // ------------------------------------------------------------------ one session

  /** One turn of the loop that ends in Finished(n, true), with the scheduler and the store around it. */
  datatype Turn = Turn(before: State, rows: Rows, from: int, to: int, given: set<string>, mid: State,
    after: State, rowsAfter: Rows, ok: nat)

  /** The last call of Get. */
  datatype Final = Final(from: int, to: int, given: set<string>, mid: State)

  datatype Session = Session(turns: seq<Turn>, final: Final, got: bool)

  /** How many lines of an answer CheckData takes without an error. */
  function OkCount(env: Env, d: string, rows: Rows, lines: seq<string>, begin: int, end: int): nat
    decreases |lines|
  {
    if lines == [] then 0
    else
      var c := Check(env, d, rows, lines[0], begin, end);
      (if c.err == NoErr then 1 else 0) + OkCount(env, d, c.rows, lines[1..], begin, end)
  }

  /** CheckData takes the line without an error: its record is known, or it is clean, in range and has its hash. */
  ghost predicate Counts(env: Env, d: string, rows: Rows, line: string, begin: int, end: int) {
    var p := Parse(Fresh(d), line);
    && p.ok && InBounds(p.r)
    && var text := Line(p.r.head.stamp, p.r.head.id, Body(p.r));
    || ToKey(p.r.head) in rows
    || (begin <= p.r.head.stamp && (end <= 0 || p.r.head.stamp <= end) && env.md5(Body(p.r)) == p.r.head.id
        && |text| <= env.limit * 1024 && !env.spam(text))
  }

  lemma CountsExactly(env: Env, d: string, rows: Rows, line: string, begin: int, end: int)
    ensures Check(env, d, rows, line, begin, end).err == NoErr <==> Counts(env, d, rows, line, begin, end)
  {
    CheckExactly(env, d, rows, line, begin, end);
  }

  /** Line i counts, for the store that the lines before it have left. */
  ghost predicate CountsAt(env: Env, d: string, rows: Rows, lines: seq<string>, begin: int, end: int, i: nat) {
    i < |lines| && Counts(env, d, Feed(env, d, rows, lines[..i], begin, end), lines[i], begin, end)
  }

  ghost predicate SomeCounts(env: Env, d: string, rows: Rows, lines: seq<string>, begin: int, end: int) {
    exists i :: CountsAt(env, d, rows, lines, begin, end, i)
  }

  lemma {:induction false} OkCountExactly(env: Env, d: string, rows: Rows, lines: seq<string>, begin: int, end: int)
    ensures OkCount(env, d, rows, lines, begin, end) > 0 <==> SomeCounts(env, d, rows, lines, begin, end)
    decreases |lines|
  {
    if lines != [] {
      var next := Check(env, d, rows, lines[0], begin, end).rows;
      CountsExactly(env, d, rows, lines[0], begin, end);
      OkCountExactly(env, d, next, lines[1..], begin, end);
      SomeCountsStep(env, d, rows, lines, begin, end, next);
    }
  }

  lemma CountsAtNext(env: Env, d: string, rows: Rows, lines: seq<string>, begin: int, end: int, i: nat)
    requires lines != []
    ensures CountsAt(env, d, rows, lines, begin, end, i + 1)
       <==> CountsAt(env, d, Check(env, d, rows, lines[0], begin, end).rows, lines[1..], begin, end, i)
  {
    if i + 1 < |lines| {
      assert lines[..i + 1][1..] == lines[1..][..i] && lines[..i + 1][0] == lines[0];
    }
  }

  lemma CountsAtFirst(env: Env, d: string, rows: Rows, lines: seq<string>, begin: int, end: int)
    requires lines != []
    ensures CountsAt(env, d, rows, lines, begin, end, 0) <==> Counts(env, d, rows, lines[0], begin, end)
  {
    assert Feed(env, d, rows, lines[..0], begin, end) == rows;
  }

  // The first line counts, or one of the others does for the store that it leaves.
  lemma SomeCountsStep(env: Env, d: string, rows: Rows, lines: seq<string>, begin: int, end: int, next: Rows)
    requires lines != [] && next == Check(env, d, rows, lines[0], begin, end).rows
    ensures SomeCounts(env, d, rows, lines, begin, end)
       <==> Counts(env, d, rows, lines[0], begin, end) || SomeCounts(env, d, next, lines[1..], begin, end)
  {
    CountsAtFirst(env, d, rows, lines, begin, end);
    if i :| CountsAt(env, d, next, lines[1..], begin, end, i) {
      CountsAtNext(env, d, rows, lines, begin, end, i);
    }
    if i: nat :| i > 0 && CountsAt(env, d, rows, lines, begin, end, i) {
      CountsAtNext(env, d, rows, lines, begin, end, i - 1);
    }
  }

  ghost predicate IsTurn(env: Env, d: string, n: string, talk: Talk, i: nat, t: Turn) {
    && t.from > 0 && GetStep(t.before, n, t.mid, t.from, t.to, t.given)
    && talk(i, t.from, t.to).Some?
    && t.rowsAfter == Feed(env, d, t.rows, talk(i, t.from, t.to).value, t.from, t.to)
    && t.ok == OkCount(env, d, t.rows, talk(i, t.from, t.to).value, t.from, t.to)
    && t.after == FinishedState(t.mid, n, true)
  }

  ghost function StateAfter(st: State, turns: seq<Turn>): State {
    if turns == [] then st else turns[|turns| - 1].after
  }

  ghost function RowsAfter(rows: Rows, turns: seq<Turn>): Rows {
    if turns == [] then rows else turns[|turns| - 1].rowsAfter
  }

  ghost predicate AreTurns(env: Env, d: string, n: string, talk: Talk, turns: seq<Turn>, st: State, rows: Rows)
    decreases |turns|
  {
    turns == [] ||
    var i, t := |turns| - 1, turns[|turns| - 1];
    && AreTurns(env, d, n, talk, turns[..i], st, rows)
    && IsTurn(env, d, n, talk, i, t)
    && t.before == StateAfter(st, turns[..i]) && t.rows == RowsAfter(rows, turns[..i])
  }

  /** Did the last turn save something? */
  predicate LastSaved(turns: seq<Turn>) {
    turns != [] && turns[|turns| - 1].ok > 0
  }

  /** The end of a session after the given turns. */
  ghost predicate IsEnd(n: string, talk: Talk, i: nat, f: Final, at: State, st1: State) {
    && GetStep(at, n, f.mid, f.from, f.to, f.given)
    && if f.from <= 0 then st1 == f.mid else talk(i, f.from, f.to).None? && st1 == FinishedState(f.mid, n, false)
  }

  /** A session from st and rows to st1 and rows1. */
  ghost predicate IsSession(env: Env, d: string, n: string, talk: Talk, s: Session, st: State, rows: Rows,
      st1: State, rows1: Rows) {
    && AreTurns(env, d, n, talk, s.turns, st, rows)
    && rows1 == RowsAfter(rows, s.turns)
    && IsEnd(n, talk, |s.turns|, s.final, StateAfter(st, s.turns), st1)
    && (s.got <==> LastSaved(s.turns) && s.final.from <= 0)
  }

  /**
   getWithRange says that it returns whether records were got. It returns whether it ended empty-handed
   after an answer with a line that counts; the answers before the last do not matter, and known
   records count.
   */
  lemma GotExactly(env: Env, d: string, n: string, talk: Talk, s: Session, st: State, rows: Rows, st1: State,
      rows1: Rows)
    requires IsSession(env, d, n, talk, s, st, rows, st1, rows1)
    ensures s.got <==> s.final.from <= 0 && s.turns != [] && var i := |s.turns| - 1; var t := s.turns[i];
      talk(i, t.from, t.to).Some? && SomeCounts(env, d, t.rows, talk(i, t.from, t.to).value, t.from, t.to)
  {
    if s.turns != [] {
      var i := |s.turns| - 1;
      var t := s.turns[i];
      assert IsTurn(env, d, n, talk, i, t);
      OkCountExactly(env, d, t.rows, talk(i, t.from, t.to).value, t.from, t.to);
    }
  }

  /** An answer with just the line of a known record counts, though it stores nothing. */
  lemma KnownCounts(env: Env, d: string, rows: Rows, line: string, begin: int, end: int)
    requires Parse(Fresh(d), line).ok && ToKey(Parse(Fresh(d), line).r.head) in rows
    ensures OkCount(env, d, rows, [line], begin, end) == 1 && Feed(env, d, rows, [line], begin, end) == rows
  {
    CheckExactly(env, d, rows, line, begin, end);
    var c := Check(env, d, rows, line, begin, end);
    assert [line][1..] == [];
    assert Feed(env, d, c.rows, [], begin, end) == c.rows && OkCount(env, d, c.rows, [], begin, end) == 0;
  }

  // The loop over the lines of an answer.
  method CheckAll(ca: Cache, tx: RecordBucket, env: Env, ress: seq<string>, from: int, to: int) returns (okcount: nat)
    modifies tx
    ensures tx.rows == Feed(env, ca.datfile, old(tx.rows), ress, from, to)
    ensures okcount == OkCount(env, ca.datfile, old(tx.rows), ress, from, to)
  {
    okcount := 0;
    for i := 0 to |ress|
      invariant Feed(env, ca.datfile, tx.rows, ress[i..], from, to)
        == Feed(env, ca.datfile, old(tx.rows), ress, from, to)
      invariant okcount + OkCount(env, ca.datfile, tx.rows, ress[i..], from, to)
        == OkCount(env, ca.datfile, old(tx.rows), ress, from, to)
    {
      assert ress[i..][0] == ress[i] && ress[i..][1..] == ress[i + 1..];
      var errf := ca.CheckData(tx, env, ress[i], from, to);
      if errf == NoErr {
        okcount := okcount + 1;
      }
    }
  }

  // The part of a turn after Get: the lines of an answer are checked and the hand-out is ended.
  method Fetch(n: string, ca: Cache, dm: Manager, tx: RecordBucket, env: Env, ress: Option<seq<string>>, from: int,
      to: int)
      returns (okcount: Option<nat>)
    modifies dm, dm.registry, tx
    ensures dm.Now() == FinishedState(old(dm.Now()), n, ress.Some?) && (okcount.Some? <==> ress.Some?)
    ensures ress.None? ==> tx.rows == old(tx.rows)
    ensures ress.Some? ==> tx.rows == Feed(env, ca.datfile, old(tx.rows), ress.value, from, to)
    ensures ress.Some? ==> okcount == Some(OkCount(env, ca.datfile, old(tx.rows), ress.value, from, to))
  {
    if ress.None? {
      dm.Finished(n, false);
      return None;
    }
    var count := CheckAll(ca, tx, env, ress.value, from, to);
    dm.Finished(n, true);
    return Some(count);
  }

  /** A turn spends failures, or what a target could still fail, so the loop ends. */
  lemma TurnFalls(env: Env, d: string, n: string, talk: Talk, i: nat, t: Turn)
    requires IsTurn(env, d, n, talk, i, t) && Inv(t.before.recs)
    ensures Inv(t.after.recs) && |Credits(t.after.recs)| < |Credits(t.before.recs)|
  {
    StepInv(t.before, GetEvent(n, t.from, t.to, t.given), t.mid);
    CreditsShrink(t.before, GetEvent(n, t.from, t.to, t.given), t.mid);
    StepInv(t.mid, FinishedEvent(n, true), t.after);
    var k :| k in t.given;
    FinishedFalls(t.mid, n, true, k);
    SubsetSize(Credits(t.mid.recs), Credits(t.before.recs));
  }

  lemma TurnsNext(env: Env, d: string, n: string, talk: Talk, turns: seq<Turn>, t: Turn, st: State, rows: Rows)
    requires AreTurns(env, d, n, talk, turns, st, rows) && IsTurn(env, d, n, talk, |turns|, t)
    requires t.before == StateAfter(st, turns) && t.rows == RowsAfter(rows, turns) && Inv(t.before.recs)
    ensures var next := turns + [t];
      && AreTurns(env, d, n, talk, next, st, rows)
      && StateAfter(st, next) == t.after && RowsAfter(rows, next) == t.rowsAfter && (LastSaved(next) <==> t.ok > 0)
      && Inv(t.after.recs) && |Credits(t.after.recs)| < |Credits(t.before.recs)|
  {
    assert (turns + [t])[..|turns|] == turns;
    TurnFalls(env, d, n, talk, |turns|, t);
  }

  /** What one pass through the loop does; None ends it. */
  method OneTurn(n: string, ca: Cache, dm: Manager, tx: RecordBucket, env: Env, talk: Talk, i: nat)
      returns (okcount: Option<nat>, from: int, ghost t: Turn, ghost f: Final)
    requires Inv(dm.recs) && dm.datfile == ca.datfile
    modifies dm, dm.registry, tx
    ensures okcount.None? ==> IsEnd(n, talk, i, f, old(dm.Now()), dm.Now()) && f.from == from && tx.rows == old(tx.rows)
    ensures okcount.Some? ==> IsTurn(env, ca.datfile, n, talk, i, t) && okcount.value == t.ok
    ensures okcount.Some? ==>
      t.before == old(dm.Now()) && t.rows == old(tx.rows) && t.after == dm.Now() && t.rowsAfter == tx.rows
  {
    var to;
    ghost var given;
    from, to, given := dm.Get(n);
    ghost var mid := dm.Now();
    t, f := *, Final(from, to, given, mid);
    if from <= 0 {
      return None, from, t, f;
    }
    okcount := Fetch(n, ca, dm, tx, env, talk(i, from, to), from, to);
    if okcount.Some? {
      t := Turn(old(dm.Now()), old(tx.rows), from, to, given, mid, dm.Now(), tx.rows, okcount.value);
    }
  }

  method GetWithRange(n: string, ca: Cache, dm: Manager, tx: RecordBucket, env: Env, talk: Talk)
      returns (got: bool, ghost s: Session)
    requires Inv(dm.recs) && dm.datfile == ca.datfile
    modifies dm, dm.registry, tx
    ensures IsSession(env, ca.datfile, n, talk, s, old(dm.Now()), old(tx.rows), dm.Now(), tx.rows) && got == s.got
  {
    got := false;
    var i: nat := 0;
    ghost var turns: seq<Turn> := [];
    while true
      invariant Inv(dm.recs) && i == |turns| && got == LastSaved(turns)
      invariant AreTurns(env, ca.datfile, n, talk, turns, old(dm.Now()), old(tx.rows))
      invariant dm.Now() == StateAfter(old(dm.Now()), turns) && tx.rows == RowsAfter(old(tx.rows), turns)
      decreases |Credits(dm.recs)|
    {
      var okcount, from;
      ghost var t, f;
      okcount, from, t, f := OneTurn(n, ca, dm, tx, env, talk, i);
      if okcount.None? {
        got := got && from <= 0;
        return got, Session(turns, f, got);
      }
      got := okcount.value > 0;
      TurnsNext(env, ca.datfile, n, talk, turns, t, old(dm.Now()), old(tx.rows));
      turns := turns + [t];
      i := i + 1;
    }
  }

  // ------------------------------------------------------------------ what a session does to the targets

  /** The targets handed out in the turns. */
  ghost function Handed(turns: seq<Turn>): set<string> {
    if turns == [] then {} else Handed(turns[..|turns| - 1]) + turns[|turns| - 1].given
  }

  ghost predicate NoneDownloading(recs: Recs, n: string) {
    forall k :: k in recs ==> recs[k].downloading != Some(n)
  }

  /** A turn takes given out of the targets of n that can be handed out, and finishes them. */
  ghost predicate Advances(before: Recs, after: Recs, n: string, given: set<string>) {
    && Inv(after) && Keeps(before, after)
    && given <= EligibleKeys(before, n) && EligibleKeys(after, n) == EligibleKeys(before, n) - given
    && (forall k :: k in given ==> after[k].finished && before[k].stamp > 0)
    && NoneDownloading(after, n)
  }

  lemma HandedFinished(st: State, mid: State, n: string, given: set<string>)
    requires mid.recs == HandTo(st.recs, given, n) && given <= EligibleKeys(st.recs, n)
    requires FinishedState(mid, n, true).recs.Keys == st.recs.Keys
    ensures var after := FinishedState(mid, n, true).recs;
      && EligibleKeys(after, n) == EligibleKeys(st.recs, n) - given
      && NoneDownloading(after, n) && forall k :: k in given ==> after[k].finished
  {
    forall k | k in st.recs
      ensures var t := FinishedState(mid, n, true).recs[k];
        (Eligible(t, n) <==> Eligible(st.recs[k], n) && k !in given)
        && t.downloading != Some(n) && (k in given ==> t.finished) {
      FinishedTarget(mid, n, true, k);
    }
  }

  lemma TurnEffect(env: Env, d: string, n: string, talk: Talk, i: nat, t: Turn)
    requires IsTurn(env, d, n, talk, i, t) && Inv(t.before.recs)
    ensures Advances(t.before.recs, t.after.recs, n, t.given)
  {
    TurnKeeps(t.before, t.mid, t.after, n, t.from, t.to, t.given);
    HandedFinished(t.before, t.mid, n, t.given);
  }

  lemma TurnKeeps(before: State, mid: State, after: State, n: string, from: int, to: int, given: set<string>)
    requires Inv(before.recs) && GetStep(before, n, mid, from, to, given) && from > 0
    requires after == FinishedState(mid, n, true)
    ensures Inv(after.recs) && Keeps(before.recs, after.recs)
    ensures mid.recs == HandTo(before.recs, given, n) && given <= EligibleKeys(before.recs, n)
    ensures forall k :: k in given ==> from <= before.recs[k].stamp <= to
  {
    StepInv(before, GetEvent(n, from, to, given), mid);
    StepInv(mid, FinishedEvent(n, true), after);
    KeepsTwice(before.recs, mid.recs, after.recs);
  }

  // Finished on one target.
  lemma FinishedTarget(st: State, n: string, success: bool, k: string)
    requires k in st.recs
    ensures var after := FinishedState(st, n, success).recs;
      var ended := EndHandOut(st.recs[k], n, success);
      k in after && (after[k] == ended || after[k] == GaveUp(ended))
  {
  }

  /** The targets of n after the ones in handed were handed out and finished. */
  ghost predicate Progress(start: Recs, at: Recs, n: string, handed: set<string>) {
    && Inv(at) && Keeps(start, at)
    && EligibleKeys(at, n) == EligibleKeys(start, n) - handed
    && handed <= EligibleKeys(start, n)
    && (forall k :: k in handed ==> at[k].finished && start[k].stamp > 0)
    && (NoneDownloading(start, n) ==> NoneDownloading(at, n))
  }

  lemma ProgressStart(recs: Recs, n: string)
    requires Inv(recs)
    ensures Progress(recs, recs, n, {})
  {
  }

  lemma ProgressStep(start: Recs, before: Recs, after: Recs, n: string, handed: set<string>, given: set<string>)
    requires Progress(start, before, n, handed) && Advances(before, after, n, given)
    ensures Progress(start, after, n, handed + given)
  {
    KeepsTwice(start, before, after);
    forall k | k in handed + given ensures after[k].finished && start[k].stamp > 0 {
      assert k in start && start[k].stamp == before[k].stamp;
    }
  }

  lemma {:induction false} TurnsEffect(env: Env, d: string, n: string, talk: Talk, turns: seq<Turn>, st: State,
      rows: Rows)
    requires AreTurns(env, d, n, talk, turns, st, rows) && Inv(st.recs)
    ensures Progress(st.recs, StateAfter(st, turns).recs, n, Handed(turns))
    decreases |turns|
  {
    if turns == [] {
      ProgressStart(st.recs, n);
    } else {
      var i, t := |turns| - 1, turns[|turns| - 1];
      TurnsEffect(env, d, n, talk, turns[..i], st, rows);
      TurnEffect(env, d, n, talk, i, t);
      ProgressStep(st.recs, t.before.recs, t.after.recs, n, Handed(turns[..i]), t.given);
    }
  }

  /** The peer never fails to answer. */
  ghost predicate NeverFails(talk: Talk) {
    forall i, from, to :: talk(i, from, to).Some?
  }

  /**
   A session with a peer that answers leaves a target marked as being downloaded, for good, exactly
   when one that the peer could serve has a stamp that is not positive: the loop ends before Finished.
   */
  lemma StuckExactly(env: Env, d: string, n: string, talk: Talk, s: Session, st: State, rows: Rows, st1: State,
      rows1: Rows)
    requires IsSession(env, d, n, talk, s, st, rows, st1, rows1) && NeverFails(talk)
    requires Inv(st.recs) && NoneDownloading(st.recs, n)
    ensures NoneDownloading(st1.recs, n) <==> forall k :: k in EligibleKeys(st.recs, n) ==> st.recs[k].stamp > 0
  {
    TurnsEffect(env, d, n, talk, s.turns, st, rows);
    LastGet(st.recs, StateAfter(st, s.turns), st1, n, Handed(s.turns), s.final);
    assert EligibleKeys(st.recs, n) == Handed(s.turns) <==> NoneDownloading(st1.recs, n);
  }

  /** A session with a single target of stamp 0 ends at once and leaves it marked. */
  lemma StampZeroSticks(env: Env, d: string, n: string, talk: Talk, rows: Rows)
    ensures var st := State(map["k" := Target([n], None, false, 0, 0)], false);
      var mid := State(HandTo(st.recs, {"k"}, n), true);
      IsSession(env, d, n, talk, Session([], Final(0, 0, {"k"}, mid), false), st, rows, mid, rows)
      && NoneDownloading(st.recs, n) && !NoneDownloading(mid.recs, n)
  {
    var st := State(map["k" := Target([n], None, false, 0, 0)], false);
    var mid := State(HandTo(st.recs, {"k"}, n), true);
    assert EligibleKeys(st.recs, n) == {"k"};
    assert IsHandOut(st.recs, n, {"k"}, 0, 0);
    assert mid.recs["k"].downloading == Some(n);
  }

  // The call of Get that ends a session with a peer that answers.
  lemma LastGet(start: Recs, end: State, st1: State, n: string, handed: set<string>, f: Final)
    requires Progress(start, end.recs, n, handed) && GetStep(end, n, st1, f.from, f.to, f.given) && f.from <= 0
    ensures Keeps(start, st1.recs)
    ensures if EligibleKeys(start, n) == handed then NoneDownloading(start, n) ==> NoneDownloading(st1.recs, n)
            else !NoneDownloading(st1.recs, n) && exists k :: k in EligibleKeys(start, n) && start[k].stamp <= 0
  {
    StepInv(end, GetEvent(n, f.from, f.to, f.given), st1);
    KeepsTwice(start, end.recs, st1.recs);
    if EligibleKeys(start, n) == handed {
      CheckedDownloads(end, n);
    } else {
      var e :| e in EligibleKeys(start, n) && e !in handed;
      assert e in EligibleKeys(end.recs, n);
      var k :| k in f.given && end.recs[k].stamp == f.from;
      assert k in EligibleKeys(end.recs, n) && start[k].stamp == f.from;
      assert k in st1.recs && st1.recs[k].downloading == Some(n);
    }
  }

  lemma CheckedDownloads(st: State, n: string)
    ensures NoneDownloading(CheckedState(st).recs, n) <==> NoneDownloading(st.recs, n)
  {
    forall k | k in st.recs
      ensures k in CheckedState(st).recs && CheckedState(st).recs[k].downloading == st.recs[k].downloading {
    }
  }

  // ------------------------------------------------------------------ what a session does to the store

  /** Row k of the peer is alive, loads, and its body less the line end has the hash that is its id. */
  ghost predicate Held(env: Env, peer: Rows, d: string, k: string) {
    && k in peer && peer[k].head.datfile == d && !peer[k].deleted
    && Loaded(peer, k).ok
    && (LoadedGood(peer, k); env.md5(Body(TrimLast(Loaded(peer, k).r))) == peer[k].head.id)
  }

  lemma LoadedGood(peer: Rows, k: string)
    requires k in peer && Loaded(peer, k).ok
    ensures var r := Loaded(peer, k).r; Printable(r) && InBounds(r) && InBounds(TrimLast(r))
  {
    var row := peer[k];
    ParseGood(RecordState(row.head, map[], []), Line(row.head.stamp, row.head.id, row.body));
    TrimLastPrintable(Loaded(peer, k).r);
  }

  /** A row is loaded with its own head. */
  lemma LoadedHead(peer: Rows, k: string)
    requires k in peer && Loaded(peer, k).ok && IsInt64(peer[k].head.stamp)
    ensures Loaded(peer, k).r.head == peer[k].head
  {
    var h, body := peer[k].head, peer[k].body;
    StampPiece(h.stamp, h.id, body);
    ParseIntItoa(h.stamp);
    if h.id == "" { IdPiece(h.stamp, body); }
  }

  lemma IdPiece(stamp: int, body: string)
    ensures var tmp := Split(TrimRight(Line(stamp, "", body)), "<>"); |tmp| >= 2 && tmp[1] == ""
  {
    AbsentChar("", "<>");
    LinePieces(stamp, "", body);
  }

  lemma StampPiece(stamp: int, id: string, body: string)
    ensures Split(TrimRight(Line(stamp, id, body)), "<>")[0] == Itoa(stamp)
  {
    var a := Itoa(stamp) + "<>";
    TrimRightConcat(a, id + "<>" + body);
    assert Line(stamp, id, body) == a + (id + "<>" + body);
    AbsentChar(Itoa(stamp), "<>");
    SplitCons(Itoa(stamp), TrimRight(id + "<>" + body), "<>");
  }

  /** What the client parses the line of a row into: the record loaded from it, less the line end. */
  lemma PrintedLineParsed(peer: Rows, d: string, k: string, l: string)
    requires WellKeyed(peer) && k in peer && peer[k].head.datfile == d && PrintsAs(peer, k, l)
    ensures Parse(Fresh(d), l) == Parsed(TrimLast(Loaded(peer, k).r), true) && KeyOf(d, l) == k
  {
    var row := peer[k];
    LoadedHead(peer, k);
    LoadedGood(peer, k);
    Reparse(RecordState(row.head, map[], []), Line(row.head.stamp, row.head.id, row.body));
  }

  /** When the line a server prints for a row is accepted by the client: exactly when the row is held. */
  lemma LineOffersExactly(env: Env, peer: Rows, d: string, k: string, l: string, begin: int, end: int)
    requires WellKeyed(peer) && k in peer && peer[k].head.datfile == d && !peer[k].deleted && PrintsAs(peer, k, l)
    requires begin <= peer[k].head.stamp <= end
    ensures Parse(Fresh(d), l) == Parsed(TrimLast(Loaded(peer, k).r), true) && KeyOf(d, l) == k
    ensures Accepted(env, d, l, begin, end) <==> Held(env, peer, d, k)
  {
    LoadedHead(peer, k);
    LoadedGood(peer, k);
    PrintedLineParsed(peer, d, k, l);
  }

  /** lines answers the request "from-to" on the peer. */
  ghost predicate Answers(peer: Rows, d: string, from: int, to: int, lines: seq<string>) {
    AnswersGet(peer, d, ParseStamp(Itoa(from) + "-" + Itoa(to), LAST), lines)
  }

  /** The client parses l into the record that the peer loads from row k, less the line end. */
  ghost predicate IsLineOf(peer: Rows, d: string, k: string, l: string) {
    k in peer && Loaded(peer, k).ok && Parse(Fresh(d), l) == Parsed(TrimLast(Loaded(peer, k).r), true)
  }

  /**
   One answer: a row in the range is offered by it exactly when the peer holds it.
   */
  lemma AnswerOffersExactly(env: Env, peer: Rows, d: string, from: int, to: int, lines: seq<string>, k: string)
    requires WellKeyed(peer) && Answers(peer, d, from, to, lines)
    requires 0 < from <= to && IsInt64(from) && IsInt64(to)
    ensures (exists l :: l in lines && Offers(env, d, l, from, to, k))
        <==> Held(env, peer, d, k) && from <= peer[k].head.stamp <= to
    ensures forall l :: l in lines && Offers(env, d, l, from, to, k) ==> IsLineOf(peer, d, k, l)
  {
    FromTo(from, to, LAST);
    var r := Range(from, to, "");
    if Held(env, peer, d, k) && from <= peer[k].head.stamp <= to {
      assert Wanted(peer, d, r, k);
      var l :| l in lines && PrintsAs(peer, k, l);
      LineOffersExactly(env, peer, d, k, l, from, to);
      assert Offers(env, d, l, from, to, k);
    }
    forall l | l in lines && Offers(env, d, l, from, to, k)
      ensures Held(env, peer, d, k) && from <= peer[k].head.stamp <= to && IsLineOf(peer, d, k, l) {
      var j :| Wanted(peer, d, r, j) && PrintsAs(peer, j, l);
      LineOffersExactly(env, peer, d, j, l, from, to);
    }
  }

  /** The peer answers every request from its rows. */
  ghost predicate Serves(peer: Rows, d: string, talk: Talk) {
    NeverFails(talk) && forall i, from, to :: Answers(peer, d, from, to, talk(i, from, to).value)
  }

  ghost predicate PositiveStamps(recs: Recs, n: string) {
    forall k :: k in EligibleKeys(recs, n) ==> 0 < recs[k].stamp <= MAX_INT64
  }

  /** A row enters the store in a turn exactly when the peer holds it and its stamp is in the range. */
  lemma TurnStores(env: Env, d: string, n: string, talk: Talk, i: nat, t: Turn, peer: Rows, k: string)
    requires IsTurn(env, d, n, talk, i, t) && PositiveStamps(t.before.recs, n)
    requires WellKeyed(peer) && Serves(peer, d, talk)
    ensures k in t.rowsAfter <==> k in t.rows || (Held(env, peer, d, k) && t.from <= peer[k].head.stamp <= t.to)
    ensures k in t.rows ==> t.rowsAfter[k] == t.rows[k]
    ensures k in t.rowsAfter && k !in t.rows ==> IsFetched(env, d, peer, k, t.rowsAfter[k])
  {
    var lines := talk(i, t.from, t.to).value;
    assert t.given <= EligibleKeys(t.before.recs, n);
    assert Answers(peer, d, t.from, t.to, lines);
    AnswerOffersExactly(env, peer, d, t.from, t.to, lines, k);
    FeedEffect(env, d, t.rows, lines, t.from, t.to, k);
    if k in t.rowsAfter && k !in t.rows {
      var l :| l in lines && Offers(env, d, l, t.from, t.to, k) && t.rowsAfter[k] == EntryOf(env, d, l);
      AnsweredUtf8(peer, d, t.from, t.to, lines, l);
      EntryIsFetched(env, d, peer, k, l, t.from, t.to);
    }
  }

  lemma EntryIsFetched(env: Env, d: string, peer: Rows, k: string, l: string, from: int, to: int)
    requires WellKeyed(peer) && Held(env, peer, d, k) && IsLineOf(peer, d, k, l)
    requires Accepted(env, d, l, from, to) && IsUtf8(l) && IsUtf8(d)
    ensures IsFetched(env, d, peer, k, EntryOf(env, d, l))
  {
    LoadedGood(peer, k);
    LoadedHead(peer, k);
    EntryFacts(env, d, l, from, to);
    EntryByBody(env, d, l);
    ParseUtf8(Fresh(d), l);
    ViaJsonExactly(BodyOf(d, l));
  }

  /** The lines a server prints are UTF-8, as its rows are. */
  lemma PrintedUtf8(peer: Rows, k: string, l: string)
    requires k in peer && PrintsAs(peer, k, l)
    ensures IsUtf8(l)
  {
    var row := peer[k];
    LineUtf8(row.head.stamp, row.head.id, row.body);
    ParseUtf8(RecordState(row.head, map[], []), Line(row.head.stamp, row.head.id, row.body));
    var r := Loaded(peer, k).r;
    LineUtf8(r.head.stamp, r.head.id, Body(r));
  }

  lemma AnsweredUtf8(peer: Rows, d: string, from: int, to: int, lines: seq<string>, l: string)
    requires Answers(peer, d, from, to, lines) && l in lines
    ensures IsUtf8(l) && IsUtf8(d)
  {
    var r := ParseStamp(Itoa(from) + "-" + Itoa(to), LAST);
    var k :| Wanted(peer, d, r, k) && PrintsAs(peer, k, l);
    PrintedUtf8(peer, k, l);
    assert IsTextHead(peer[k].head);
  }

  /**
   A new row of the local store: the record that the peer holds, less the line end. Its hash is its id,
   and it is a tombstone exactly when its text exceeds the limit or is listed as spam here.
   */
  ghost predicate IsFetched(env: Env, d: string, peer: Rows, k: string, row: Row) {
    && Held(env, peer, d, k) && row.head == peer[k].head
    && (LoadedGood(peer, k); row.body == Body(TrimLast(Loaded(peer, k).r)))
    && env.md5(row.body) == row.head.id
    && var text := Line(row.head.stamp, row.head.id, row.body);
       row.deleted <==> |text| > env.limit * 1024 || env.spam(text)
  }

  /** From rows to f old rows stay and new rows are fetched. */
  ghost predicate Fetches(env: Env, d: string, peer: Rows, rows: Rows, f: Rows, k: string) {
    && (k in rows ==> k in f && f[k] == rows[k])
    && (k in f && k !in rows ==> IsFetched(env, d, peer, k, f[k]))
  }

  /** Over the turns: the row of a target handed out in them is there if the peer holds it. */
  lemma {:induction false} TurnsStore(env: Env, d: string, n: string, talk: Talk, turns: seq<Turn>, st: State,
      rows: Rows,
      peer: Rows, k: string, target: string)
    requires AreTurns(env, d, n, talk, turns, st, rows)
    requires Inv(st.recs) && PositiveStamps(st.recs, n)
    requires WellKeyed(peer) && Serves(peer, d, talk)
    ensures Fetches(env, d, peer, rows, RowsAfter(rows, turns), k)
    ensures target in Handed(turns) && target in st.recs ==>
      Held(env, peer, d, k) && st.recs[target].stamp == peer[k].head.stamp ==> k in RowsAfter(rows, turns)
    decreases |turns|
  {
    if turns != [] {
      var i, t := |turns| - 1, turns[|turns| - 1];
      TurnsStore(env, d, n, talk, turns[..i], st, rows, peer, k, target);
      TurnsEffect(env, d, n, talk, turns[..i], st, rows);
      TurnFetches(env, d, n, talk, i, t, st.recs, Handed(turns[..i]), rows, peer, k, target);
    }
  }

  lemma TurnFetches(env: Env, d: string, n: string, talk: Talk, i: nat, t: Turn, start: Recs, handed: set<string>,
      rows: Rows,
      peer: Rows, k: string, target: string)
    requires IsTurn(env, d, n, talk, i, t) && Progress(start, t.before.recs, n, handed) && PositiveStamps(start, n)
    requires WellKeyed(peer) && Serves(peer, d, talk) && Fetches(env, d, peer, rows, t.rows, k)
    ensures Fetches(env, d, peer, rows, t.rowsAfter, k) && (k in t.rows ==> k in t.rowsAfter)
    ensures target in t.given && target in start && Held(env, peer, d, k) && start[target].stamp == peer[k].head.stamp
      ==> k in t.rowsAfter
  {
    TurnStores(env, d, n, talk, i, t, peer, k);
    TurnKeeps(t.before, t.mid, t.after, n, t.from, t.to, t.given);
  }

  /**
   A session is complete: with a peer that answers and positive stamps every target the peer could
   serve ends up finished, and the record of such a target is a key of the store afterwards exactly
   when it was one before or the peer holds it.
   */
  lemma SessionComplete(env: Env, d: string, n: string, talk: Talk, s: Session, st: State, rows: Rows, st1: State,
      rows1: Rows,
      peer: Rows)
    requires IsSession(env, d, n, talk, s, st, rows, st1, rows1)
    requires Inv(st.recs) && LocalFinished(st.recs) && PositiveStamps(st.recs, n)
    requires WellKeyed(peer) && NoNul(d) && Serves(peer, d, talk)
    ensures forall k :: k in EligibleKeys(st.recs, n) ==> k in st1.recs && st1.recs[k].finished
    ensures forall h: Head :: HeadRecstr(h) in EligibleKeys(st.recs, n) && h.datfile == d ==>
      IsInt64(h.stamp) && (ToKey(h) in rows1 <==> ToKey(h) in rows || Held(env, peer, d, ToKey(h)))
    ensures forall k :: k in rows1 && k !in rows ==> IsFetched(env, d, peer, k, rows1[k])
    ensures forall k :: k in rows ==> k in rows1 && rows1[k] == rows[k]
  {
    AllFinished(env, d, n, talk, s, st, rows, st1, rows1);
    forall k ensures (k in rows ==> k in rows1 && rows1[k] == rows[k])
      && (k in rows1 && k !in rows ==> IsFetched(env, d, peer, k, rows1[k])) {
      TurnsStore(env, d, n, talk, s.turns, st, rows, peer, k, "");
    }
    forall h: Head | HeadRecstr(h) in EligibleKeys(st.recs, n) && h.datfile == d
      ensures IsInt64(h.stamp) && (ToKey(h) in rows1 <==> ToKey(h) in rows || Held(env, peer, d, ToKey(h))) {
      TargetStored(env, d, n, talk, s, st, rows, st1, rows1, peer, h);
    }
  }

  lemma AllFinished(env: Env, d: string, n: string, talk: Talk, s: Session, st: State, rows: Rows, st1: State,
      rows1: Rows)
    requires IsSession(env, d, n, talk, s, st, rows, st1, rows1) && NeverFails(talk)
    requires Inv(st.recs) && PositiveStamps(st.recs, n)
    ensures Handed(s.turns) == EligibleKeys(st.recs, n)
    ensures forall k :: k in EligibleKeys(st.recs, n) ==> k in st1.recs && st1.recs[k].finished
  {
    TurnsEffect(env, d, n, talk, s.turns, st, rows);
    LastGet(st.recs, StateAfter(st, s.turns), st1, n, Handed(s.turns), s.final);
  }

  lemma TargetStored(env: Env, d: string, n: string, talk: Talk, s: Session, st: State, rows: Rows, st1: State,
      rows1: Rows,
      peer: Rows, h: Head)
    requires IsSession(env, d, n, talk, s, st, rows, st1, rows1)
    requires Inv(st.recs) && LocalFinished(st.recs) && PositiveStamps(st.recs, n)
    requires WellKeyed(peer) && NoNul(d) && Serves(peer, d, talk)
    requires HeadRecstr(h) in EligibleKeys(st.recs, n) && h.datfile == d
    ensures IsInt64(h.stamp) && (ToKey(h) in rows1 <==> ToKey(h) in rows || Held(env, peer, d, ToKey(h)))
  {
    var k := HeadRecstr(h);
    var g :| IsKeyOf(k, g, st.recs[k]);
    RecstrStamp(g, h);
    AllFinished(env, d, n, talk, s, st, rows, st1, rows1);
    assert k in Handed(s.turns);
    TurnsStore(env, d, n, talk, s.turns, st, rows, peer, ToKey(h), k);
    if Held(env, peer, d, ToKey(h)) {
      KeyInjective(peer[ToKey(h)].head, h);
    }
  }

  // ------------------------------------------------------------------ which rows a peer holds

  /**
   A row that CheckData stored from a line with a body in UTF-8, and that nobody removed, is held
   exactly when its body less the line end still has its hash; so it is when the last value of the
   line does not end in a carriage return.
   */
  lemma StoredIsHeld(env: Env, peer: Rows, d: string, k: string, line: string, begin: int, end: int)
    requires Offers(env, d, line, begin, end, k) && k in peer && peer[k] == EntryOf(env, d, line) && !peer[k].deleted
    requires IsUtf8(d) && IsUtf8(BodyOf(d, line))
    ensures var r := Parse(Fresh(d), line).r;
      && InBounds(TrimLast(r))
      && (Held(env, peer, d, k) <==> env.md5(Body(TrimLast(r))) == r.head.id)
      && (!EndsInNewline(LastValue(r)) ==> Held(env, peer, d, k))
  {
    ParseGood(Fresh(d), line);
    EntryFacts(env, d, line, begin, end);
    ViaJsonExactly(BodyOf(d, line));
    var r := Parse(Fresh(d), line).r;
    var r0 := RecordState(r.head, map[], []);
    TrimLastPrintable(r);
    TrimLastPrints(r);
    ParseIgnoresLineEnd(r0, Recstr(r));
    ParsePrinted(TrimLast(r), r0);
    TrimLastTwice(r);
  }

  lemma TrimLastTwice(r: RecordState)
    requires Printable(r) && Printable(TrimLast(r)) && !EndsInNewline(LastValue(TrimLast(r)))
    ensures TrimLast(TrimLast(r)) == TrimLast(r)
    ensures !EndsInNewline(LastValue(r)) ==> TrimLast(r) == r
  {
    TrimLastFixed(TrimLast(r));
    TrimLastFixed(r);
  }

  /** No line of a /get answer is parsed into a record under the key of a tombstone. */
  lemma TombstoneNotGot(rows: Rows, k: string, d: string, r: Range, lines: seq<string>)
    requires WellKeyed(rows) && k in rows && rows[k].deleted && AnswersGet(rows, d, r, lines)
    ensures forall l :: l in lines && Parse(Fresh(d), l).ok ==> KeyOf(d, l) != k
  {
    forall l | l in lines && Parse(Fresh(d), l).ok ensures KeyOf(d, l) != k {
      var j :| Wanted(rows, d, r, j) && PrintsAs(rows, j, l);
      PrintedLineParsed(rows, d, j, l);
    }
  }

  /** No line of a /head answer is that of a tombstone. */
  lemma TombstoneNotHeaded(rows: Rows, h: Head, r: Range, lines: seq<string>)
    requires WellKeyed(rows) && PlainHead(h, h.datfile) && ToKey(h) in rows && rows[ToKey(h)].deleted
    requires AnswersHead(rows, h.datfile, r, lines)
    requires forall k :: Selected(rows, h.datfile, r, k) ==> PlainHead(rows[k].head, h.datfile)
    ensures HeadLine(h) !in lines
  {
    if HeadLine(h) in lines {
      var j :| Selected(rows, h.datfile, r, j) && HeadLine(rows[j].head) == HeadLine(h);
      HeadLineInjective(rows[j].head, h, h.datfile);
    }
  }

  /** No later answer to /get or /head has the line of a removed record. */
  lemma RemovedIsNotAnswered(env: Env, rows: Rows, h: Head, ops: seq<Op>, later: Rows, r: Range, lines: seq<string>)
    requires WellKeyed(rows) && PlainHead(h, h.datfile) && ToKey(h) in rows
    requires forall i :: 0 <= i < |ops| ==> OpValid(ops[i])
    requires WellKeyed(RemoveRow(rows, h)) && later == Run(env, RemoveRow(rows, h), ops)
    ensures AnswersGet(later, h.datfile, r, lines) ==>
      forall l :: l in lines && Parse(Fresh(h.datfile), l).ok ==> KeyOf(h.datfile, l) != ToKey(h)
    ensures AnswersHead(later, h.datfile, r, lines)
      && (forall k :: Selected(later, h.datfile, r, k) ==> PlainHead(later[k].head, h.datfile))
      ==> HeadLine(h) !in lines
  {
    RemovedStays(env, rows, h, ops);
    if AnswersGet(later, h.datfile, r, lines) {
      TombstoneNotGot(later, ToKey(h), h.datfile, r, lines);
    }
    if AnswersHead(later, h.datfile, r, lines)
      && forall k :: Selected(later, h.datfile, r, k) ==> PlainHead(later[k].head, h.datfile) {
      TombstoneNotHeaded(later, h, r, lines);
    }
  }

  // ------------------------------------------------------------------ a whole round: /head, Set, then the session

  lemma SetPositive(rows: Rows, d: string, hs: set<Head>, n: string, recs: Recs)
    requires SetStep(LocalRecs(rows, d), hs, n, recs) && forall h :: h in hs ==> 0 < h.stamp <= MAX_INT64
    ensures PositiveStamps(recs, n)
  {
    forall k | k in EligibleKeys(recs, n) ensures 0 < recs[k].stamp <= MAX_INT64 {
      var h :| h in NewHeads(LocalRecs(rows, d), hs) && HeadRecstr(h) == k;
    }
  }

  /** A head whose Idstr is local is the head of a local row. */
  lemma LocalHead(rows: Rows, d: string, h: Head)
    requires WellKeyed(rows) && h.datfile == d && IsInt64(h.stamp) && Idstr(h) in LocalIds(rows, d)
    ensures ToKey(h) in rows
  {
    var j :| j in rows && rows[j].head.datfile == d && Idstr(rows[j].head) == Idstr(h);
    IdstrInjective(rows[j].head, h);
  }

  /** The peer's rows in a range can be announced: plain ids and positive stamps. */
  ghost predicate Announceable(peer: Rows, d: string, r: Range) {
    forall k :: Selected(peer, d, r, k) ==> PlainHead(peer[k].head, d) && peer[k].head.stamp > 0
  }

  /** A whole round: a new manager takes the peer's /head answer and then runs a session with it. */
  ghost predicate IsRound(env: Env, d: string, n: string, talk: Talk, res: seq<string>, recs: Recs, registered: bool,
      s: Session, rows: Rows, st1: State, rows1: Rows) {
    && ParseHeads(res, d).Some? && LocalFinished(recs)
    && SetStep(LocalRecs(rows, d), ParseHeads(res, d).value.Values, n, recs)
    && IsSession(env, d, n, talk, s, State(recs, registered), rows, st1, rows1)
  }

  lemma AfterSet(rows: Rows, d: string, hs: set<Head>, n: string, recs: Recs)
    requires SetStep(LocalRecs(rows, d), hs, n, recs) && forall h :: h in hs ==> 0 < h.stamp <= MAX_INT64
    ensures Inv(recs) && PositiveStamps(recs, n)
  {
    NewManagerInv(rows, d);
    SetKeeps(LocalRecs(rows, d), hs, n, recs, false);
    SetPositive(rows, d, hs, n, recs);
  }

  /** A round gets the record of a head in the answer exactly if the peer holds it. */
  lemma RoundHead(env: Env, d: string, n: string, talk: Talk, heads: set<Head>, recs: Recs, registered: bool,
      s: Session,
      rows: Rows, st1: State, rows1: Rows, peer: Rows, h: Head)
    requires WellKeyed(rows) && WellKeyed(peer) && NoNul(d) && Serves(peer, d, talk)
    requires LocalFinished(recs) && SetStep(LocalRecs(rows, d), heads, n, recs)
    requires IsSession(env, d, n, talk, s, State(recs, registered), rows, st1, rows1)
    requires h in heads && h.datfile == d && forall g :: g in heads ==> 0 < g.stamp <= MAX_INT64
    ensures ToKey(h) in rows1 <==> ToKey(h) in rows || Held(env, peer, d, ToKey(h))
  {
    AfterSet(rows, d, heads, n, recs);
    RowFetched(rows, d, n, recs, heads, h);
    if HeadRecstr(h) in EligibleKeys(recs, n) {
      TargetStored(env, d, n, talk, s, State(recs, registered), rows, st1, rows1, peer, h);
    } else {
      TurnsStore(env, d, n, talk, s.turns, State(recs, registered), rows, peer, ToKey(h), "");
    }
  }

  /** The alive rows of a thread from begin on. */
  ghost predicate AliveFrom(peer: Rows, d: string, begin: int, k: string) {
    k in peer && peer[k].head.datfile == d && !peer[k].deleted && begin <= peer[k].head.stamp <= 0x7fff_ffff
  }

  /** The request "begin-" selects exactly these rows. */
  lemma FromOnSelects(peer: Rows, d: string, begin: int, k: string)
    requires 0 <= begin && IsInt64(begin)
    ensures Selected(peer, d, ParseStamp(Itoa(begin) + "-", LAST), k) <==> AliveFrom(peer, d, begin, k)
  {
    FromOn(begin, LAST);
  }

  /**
   A whole round copies the thread: of the peer's rows from begin on that are not tombstones the local
   store has exactly those it had before and those the peer holds. No local row has changed, and the
   new rows are the peer's records, alive unless they are too large or spam.
   */
  lemma RoundComplete(env: Env, d: string, n: string, begin: int, talk: Talk, res: seq<string>, recs: Recs,
      registered: bool, s: Session, rows: Rows, st1: State, rows1: Rows, peer: Rows)
    requires WellKeyed(rows) && WellKeyed(peer) && NoNul(d) && 0 <= begin && IsInt64(begin)
    requires var r := ParseStamp(Itoa(begin) + "-", LAST); AnswersHead(peer, d, r, res) && Announceable(peer, d, r)
    requires Serves(peer, d, talk)
    requires IsRound(env, d, n, talk, res, recs, registered, s, rows, st1, rows1)
    ensures forall k :: AliveFrom(peer, d, begin, k) ==> (k in rows1 <==> k in rows || Held(env, peer, d, k))
    ensures forall k :: k in rows ==> k in rows1 && rows1[k] == rows[k]
    ensures forall k :: k in rows1 && k !in rows ==> IsFetched(env, d, peer, k, rows1[k])
    ensures forall k :: AliveFrom(peer, d, begin, k) && k !in rows && HeldClean(env, peer, d, k) ==>
      k in AliveKeys(rows1, d)
  {
    FromOn(begin, LAST);
    AnswerReadBack(peer, d, Range(begin, LAST, ""), res);
    var heads := ParseHeads(res, d).value.Values;
    forall k | AliveFrom(peer, d, begin, k) ensures k in rows1 <==> k in rows || Held(env, peer, d, k) {
      FromOnSelects(peer, d, begin, k);
      RoundHead(env, d, n, talk, heads, recs, registered, s, rows, st1, rows1, peer, peer[k].head);
    }
    AfterSet(rows, d, heads, n, recs);
    RowsKept(env, d, n, talk, s, State(recs, registered), rows, st1, rows1, peer);
  }

  /** The peer holds row k, and its text is neither too large nor listed as spam here. */
  ghost predicate HeldClean(env: Env, peer: Rows, d: string, k: string) {
    && Held(env, peer, d, k)
    && (LoadedGood(peer, k);
        var h := peer[k].head;
        var text := Line(h.stamp, h.id, Body(TrimLast(Loaded(peer, k).r)));
        |text| <= env.limit * 1024 && !env.spam(text))
  }

  lemma RowsKept(env: Env, d: string, n: string, talk: Talk, s: Session, st: State, rows: Rows, st1: State,
      rows1: Rows, peer: Rows)
    requires IsSession(env, d, n, talk, s, st, rows, st1, rows1)
    requires Inv(st.recs) && PositiveStamps(st.recs, n) && WellKeyed(peer) && Serves(peer, d, talk)
    ensures forall k :: k in rows ==> k in rows1 && rows1[k] == rows[k]
    ensures forall k :: k in rows1 && k !in rows ==> IsFetched(env, d, peer, k, rows1[k])
  {
    forall k | k in rows ensures k in rows1 && rows1[k] == rows[k] {
      TurnsStore(env, d, n, talk, s.turns, st, rows, peer, k, "");
    }
    forall k | k in rows1 && k !in rows ensures IsFetched(env, d, peer, k, rows1[k]) {
      TurnsStore(env, d, n, talk, s.turns, st, rows, peer, k, "");
    }
  }

  // A head of the answer is local already or can be handed out.
  lemma RowFetched(rows: Rows, d: string, n: string, recs: Recs, hs: set<Head>, h: Head)
    requires WellKeyed(rows) && SetStep(LocalRecs(rows, d), hs, n, recs)
    requires h in hs && h.datfile == d && IsInt64(h.stamp)
    ensures ToKey(h) in rows || HeadRecstr(h) in EligibleKeys(recs, n)
  {
    if Idstr(h) in LocalRecs(rows, d) {
      LocalHead(rows, d, h);
    } else {
      assert h in NewHeads(LocalRecs(rows, d), hs);
    }
  }
}
