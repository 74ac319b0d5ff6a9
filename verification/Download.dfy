/**
 thread/download/download.go: the scheduler that hands ranges of records to peers. A node is its
 nodestr; the global table of managers is a registry object.
 */
module Download {
  import opened Wrappers
  import opened Text
  import opened Keys
  import Records
  import Server
  import Store

  const MAX_RETRY: nat := 5

  /** targetRec. */
  datatype Target = Target(nodes: seq<string>, downloading: Option<string>, finished: bool, count: nat, stamp: int)

  type Recs = map<string, Target>

  /** The targets of a manager, and whether a manager is registered under its datfile. */
  datatype State = State(recs: Recs, registered: bool)

  // ------------------------------------------------------------------ the operations on values

  predicate Eligible(t: Target, n: string) {
    n in t.nodes && !t.finished && t.downloading.None? && t.count < MAX_RETRY
  }

  ghost function EligibleKeys(recs: Recs, n: string): set<string> {
    set k | k in recs && Eligible(recs[k], n)
  }

  function GaveUp(t: Target): Target {
    if t.count >= MAX_RETRY then t.(finished := true) else t
  }

  /** checkFinished: exhausted targets count as finished, and a finished manager is deregistered. */
  function CheckedState(st: State): State {
    if !st.registered then st
    else
      var recs := map k | k in st.recs :: GaveUp(st.recs[k]);
      State(recs, exists k :: k in recs && !recs[k].finished)
  }

  function HandTo(recs: Recs, given: set<string>, n: string): Recs {
    map k | k in recs :: if k in given then recs[k].(downloading := Some(n)) else recs[k]
  }

  function EndHandOut(t: Target, n: string, success: bool): Target {
    if t.downloading == Some(n) then
      if success then t.(finished := true, downloading := None) else t.(count := t.count + 1, downloading := None)
    else t
  }

  /** Finished. */
  function FinishedState(st: State, n: string, success: bool): State {
    CheckedState(st.(recs := map k | k in st.recs :: EndHandOut(st.recs[k], n, success)))
  }

  /** How many of the eligible targets one call hands out. */
  function HandCount(eligible: nat): nat {
    if eligible > 5 then eligible / 2 + 1 else eligible
  }

  /** given are the newest of the eligible targets, and from, to their least and greatest stamp. */
  ghost predicate IsHandOut(recs: Recs, n: string, given: set<string>, from: int, to: int) {
    var e := EligibleKeys(recs, n);
    && given <= e && given != {} && |given| == HandCount(|e|)
    && (forall k, j :: k in given && j in e && j !in given ==> recs[j].stamp <= recs[k].stamp)
    && (forall k :: k in given ==> from <= recs[k].stamp <= to)
    && (exists k :: k in given && recs[k].stamp == from)
    && (exists k :: k in given && recs[k].stamp == to)
  }

  /** Get. */
  ghost predicate GetStep(st: State, n: string, after: State, from: int, to: int, given: set<string>) {
    if EligibleKeys(st.recs, n) == {} then
      given == {} && from == -1 && to == -1 && after == CheckedState(st)
    else
      IsHandOut(st.recs, n, given, from, to) && after == State(HandTo(st.recs, given, n), true)
  }

  // ------------------------------------------------------------------ runs

  datatype Event =
    | GetEvent(node: string, from: int, to: int, given: set<string>)
    | FinishedEvent(node: string, success: bool)
    | SetEvent(heads: set<Head>, node: string)
    | OtherEvent(registered: bool)   // another manager of the datfile enters or leaves the registry

  ghost predicate Step(st: State, e: Event, after: State) {
    match e
    case GetEvent(n, from, to, given) => GetStep(st, n, after, from, to, given)
    case FinishedEvent(n, success) => after == FinishedState(st, n, success)
    case SetEvent(heads, n) => SetStep(st.recs, heads, n, after.recs) && after.registered == st.registered
    case OtherEvent(registered) => after == st.(registered := registered)
  }

  /** Does the event give target k anew? */
  ghost predicate Brings(st: State, e: Event, k: string) {
    e.SetEvent? && k in NewKeys(st.recs, e.heads)
  }

  ghost predicate SetFree(es: seq<Event>) {
    forall i :: 0 <= i < |es| ==> !es[i].SetEvent?
  }

  ghost predicate IsRun(sts: seq<State>, es: seq<Event>) {
    && |sts| == |es| + 1
    && forall i :: 0 <= i < |es| ==> Step(sts[i], es[i], sts[i + 1])
  }

  /** No count passes 5, and only unfinished targets that have failed less than 5 times are handed out. */
  ghost predicate Inv(recs: Recs) {
    forall k :: k in recs ==>
      recs[k].count <= MAX_RETRY && (recs[k].downloading.Some? ==> !recs[k].finished && recs[k].count < MAX_RETRY)
  }

  /** What every step but Set keeps: the targets with their stamps and nodes, and what is finished. */
  ghost predicate Keeps(before: Recs, after: Recs) {
    && after.Keys == before.Keys
    && forall k :: k in before ==>
      && after[k].stamp == before[k].stamp && after[k].nodes == before[k].nodes
      && (before[k].finished ==> after[k].finished)
  }

  lemma HandToInv(recs: Recs, n: string, given: set<string>)
    requires Inv(recs) && given <= EligibleKeys(recs, n)
    ensures Inv(HandTo(recs, given, n)) && Keeps(recs, HandTo(recs, given, n))
  {
  }

  lemma CheckedInv(st: State)
    requires Inv(st.recs)
    ensures Inv(CheckedState(st).recs) && Keeps(st.recs, CheckedState(st).recs)
  {
  }

  lemma EndHandOutsInv(recs: Recs, n: string, success: bool)
    requires Inv(recs)
    ensures var after := map k | k in recs :: EndHandOut(recs[k], n, success); Inv(after) && Keeps(recs, after)
  {
  }

  lemma StepInv(st: State, e: Event, after: State)
    requires Inv(st.recs) && Step(st, e, after)
    ensures Inv(after.recs) && (!e.SetEvent? ==> Keeps(st.recs, after.recs))
  {
    match e
    case GetEvent(n, from, to, given) =>
      CheckedInv(st);
      if EligibleKeys(st.recs, n) != {} { HandToInv(st.recs, n, given); }
    case FinishedEvent(n, success) =>
      EndHandOutsInv(st.recs, n, success);
      CheckedInv(st.(recs := map k | k in st.recs :: EndHandOut(st.recs[k], n, success)));
    case SetEvent(heads, n) =>
      SetKeeps(st.recs, heads, n, after.recs, st.registered);
    case OtherEvent(_) =>
  }

  lemma KeepsTwice(a: Recs, b: Recs, c: Recs)
    requires Keeps(a, b) && Keeps(b, c)
    ensures Keeps(a, c)
  {
  }

  lemma {:induction false} RunInv(sts: seq<State>, es: seq<Event>, i: nat)
    requires IsRun(sts, es) && Inv(sts[0].recs) && i < |sts|
    ensures Inv(sts[i].recs) && (SetFree(es) ==> Keeps(sts[0].recs, sts[i].recs))
  {
    if i > 0 {
      RunInv(sts, es, i - 1);
      StepInv(sts[i - 1], es[i - 1], sts[i]);
      if SetFree(es) { KeepsTwice(sts[0].recs, sts[i - 1].recs, sts[i].recs); }
    }
  }

  /** In every run a target that is being downloaded, finished or exhausted is never handed out. */
  lemma RunExclusion(sts: seq<State>, es: seq<Event>, i: nat, k: string)
    requires IsRun(sts, es) && Inv(sts[0].recs) && i < |es| && es[i].GetEvent? && k in es[i].given
    ensures k in sts[i].recs && Inv(sts[i].recs)
    ensures var t := sts[i].recs[k]; !t.finished && t.downloading.None? && t.count < MAX_RETRY && es[i].node in t.nodes
    ensures k in sts[i + 1].recs && sts[i + 1].recs[k].downloading == Some(es[i].node)
    ensures es[i].from <= sts[i].recs[k].stamp <= es[i].to
  {
    RunInv(sts, es, i);
    assert Step(sts[i], es[i], sts[i + 1]);
  }

  /**
   In every run, with Set or without, a target that a node downloads stays with that node, and is
   handed to nobody, until its Finished or until a Set brings the target's head again.
   */
  lemma {:induction false} RunDownload(sts: seq<State>, es: seq<Event>, i: nat, j: nat, k: string, a: string)
    requires IsRun(sts, es) && i <= j < |sts| && k in sts[i].recs && sts[i].recs[k].downloading == Some(a)
    requires forall m :: i <= m < j ==> !Brings(sts[m], es[m], k) && !(es[m].FinishedEvent? && es[m].node == a)
    ensures k in sts[j].recs && sts[j].recs[k].downloading == Some(a)
    ensures forall m :: i <= m < j && es[m].GetEvent? ==> k !in es[m].given
  {
    if i < j {
      RunDownload(sts, es, i, j - 1, k, a);
    }
  }

  /**
   Get in full. A target of n can be handed out when it is not finished, nobody downloads it and it has
   failed less than 5 times; the newest of these are, all of up to 5 and one more than half of more.
   */
  lemma GetExactly(st: State, n: string, after: State, from: int, to: int, given: set<string>)
    requires GetStep(st, n, after, from, to, given)
    ensures var e := set k | k in st.recs && n in st.recs[k].nodes && !st.recs[k].finished
        && st.recs[k].downloading.None? && st.recs[k].count < 5;
      && given <= e && |given| == (if |e| <= 5 then |e| else |e| / 2 + 1)
      && (forall k, j :: k in given && j in e - given ==> st.recs[j].stamp <= st.recs[k].stamp)
      && (e == {} ==> from == -1 && to == -1)
      && (e != {} ==>
            && given != {} && (forall k :: k in given ==> from <= st.recs[k].stamp <= to)
            && (exists k :: k in given && st.recs[k].stamp == from)
            && (exists k :: k in given && st.recs[k].stamp == to)
            && after.registered && after.recs.Keys == st.recs.Keys
            && (forall k :: k in st.recs && k !in given ==> after.recs[k] == st.recs[k])
            && (forall k :: k in given ==> after.recs[k] == st.recs[k].(downloading := Some(n))))
  {
    var e := set k | k in st.recs && n in st.recs[k].nodes && !st.recs[k].finished
      && st.recs[k].downloading.None? && st.recs[k].count < 5;
    assert e == EligibleKeys(st.recs, n);
  }

  /** A Get that has nothing to hand out finishes the targets that have failed 5 times and changes no other. */
  lemma EmptyGetExactly(st: State, n: string, after: State, from: int, to: int, k: string)
    requires GetStep(st, n, after, from, to, {}) && k in st.recs
    ensures k in after.recs && after.recs[k]
         == if st.registered && st.recs[k].count >= 5 then st.recs[k].(finished := true) else st.recs[k]
    ensures after.registered <==> st.registered && exists j :: j in after.recs && !after.recs[j].finished
  {
  }

  /**
   Finished in full, for one target: a hand-out of n ends with success or one more failure, and while the
   manager is registered the fifth failure finishes the target.
   */
  lemma FinishedExactly(st: State, n: string, success: bool, k: string)
    requires k in st.recs
    ensures var t, after := st.recs[k], FinishedState(st, n, success);
      && k in after.recs
      && var u, ended := after.recs[k], t.downloading == Some(n);
      && u.nodes == t.nodes && u.stamp == t.stamp
      && u.count == t.count + (if ended && !success then 1 else 0)
      && u.downloading == (if ended then None else t.downloading)
      && (u.finished <==> t.finished || (ended && success) || (st.registered && u.count >= 5))
      && (after.registered <==> st.registered && exists j :: j in after.recs && !after.recs[j].finished)
  {
  }

  /** n asks and fails, again and again. */
  ghost predicate IsRetrying(sts: seq<State>, es: seq<Event>, n: string) {
    && IsRun(sts, es) && |es| % 2 == 0
    && forall i :: 0 <= i < |es| ==>
      if i % 2 == 0 then es[i].GetEvent? && es[i].node == n else es[i] == FinishedEvent(n, false)
  }

  /** A lone target after i such rounds, with c failures before them. */
  function Retried(k: string, ns: seq<string>, c: nat, stamp: int, i: nat): Recs {
    map[k := Target(ns, None, c + i >= 5, if c + i < 5 then c + i else 5, stamp)]
  }

  // The hand-outs of the first i rounds.
  ghost predicate HandedLone(es: seq<Event>, k: string, c: nat, i: nat)
    requires 2 * i <= |es|
  {
    forall j :: 0 <= j < i && es[2 * j].GetEvent? ==> es[2 * j].given == if c + j < 5 then {k} else {}
  }

  /**
   A lone target of a node that keeps failing is handed out exactly 5 times, less the failures it came
   with, and then, and not before, it is finished and its manager deregistered.
   */
  lemma {:induction false} RetriedFiveTimes(sts: seq<State>, es: seq<Event>, n: string, k: string, ns: seq<string>,
      c: nat, stamp: int, i: nat)
    requires IsRetrying(sts, es, n) && n in ns && c < 5 && 2 * i <= |es|
    requires sts[0].recs == map[k := Target(ns, None, false, c, stamp)]
    ensures sts[2 * i].recs == Retried(k, ns, c, stamp, i) && HandedLone(es, k, c, i)
    ensures i > 0 ==> (sts[2 * i].registered <==> c + i < 5)
  {
    if i > 0 {
      RetriedFiveTimes(sts, es, n, k, ns, c, stamp, i - 1);
      var a := 2 * (i - 1);
      Round(sts, es, n, a);
      RetriedOnce(sts[a], sts[a + 1], sts[a + 2], es[a], n, k, ns, c, stamp, i - 1);
      HandedOnce(es, k, c, i);
    }
  }

  lemma HandedOnce(es: seq<Event>, k: string, c: nat, i: nat)
    requires i > 0 && 2 * i <= |es| && HandedLone(es, k, c, i - 1) && es[2 * (i - 1)].GetEvent?
    requires es[2 * (i - 1)].given == if c + (i - 1) < 5 then {k} else {}
    ensures HandedLone(es, k, c, i)
  {
  }

  lemma Round(sts: seq<State>, es: seq<Event>, n: string, a: nat)
    requires IsRetrying(sts, es, n) && a % 2 == 0 && a + 2 <= |es|
    ensures es[a].GetEvent? && es[a].node == n && Step(sts[a], es[a], sts[a + 1])
    ensures sts[a + 2] == FinishedState(sts[a + 1], n, false)
  {
    assert Step(sts[a], es[a], sts[a + 1]) && Step(sts[a + 1], es[a + 1], sts[a + 2]);
  }

  lemma RetriedOnce(st: State, mid: State, after: State, e: Event, n: string, k: string, ns: seq<string>, c: nat,
      stamp: int, i: nat)
    requires n in ns && c < 5 && st.recs == Retried(k, ns, c, stamp, i)
    requires i > 0 ==> (st.registered <==> c + i < 5)
    requires e.GetEvent? && e.node == n && Step(st, e, mid) && after == FinishedState(mid, n, false)
    ensures e.given == if c + i < 5 then {k} else {}
    ensures after.recs == Retried(k, ns, c, stamp, i + 1) && (after.registered <==> c + i + 1 < 5)
  {
    var t := Target(ns, None, c + i >= 5, if c + i < 5 then c + i else 5, stamp);
    LoneGet(st, mid, e, n, k, t);
    LoneFinished(mid, n, k);
    assert after.recs == map[k := after.recs[k]];
  }

  lemma LoneGet(st: State, mid: State, e: Event, n: string, k: string, t: Target)
    requires st.recs == map[k := t] && t.downloading.None? && t.count <= 5 && (t.finished <==> t.count >= 5)
    requires e.GetEvent? && e.node == n && Step(st, e, mid) && n in t.nodes
    ensures if t.count < 5
      then e.given == {k} && mid == State(map[k := t.(downloading := Some(n))], true)
      else e.given == {} && mid == State(map[k := t], false)
  {
    GetExactly(st, n, mid, e.from, e.to, e.given);
    if t.count < 5 {
      assert EligibleKeys(st.recs, n) == {k};
      assert e.given == {k};
    } else {
      assert EligibleKeys(st.recs, n) == {};
      assert mid.recs == st.recs;
    }
  }

  lemma LoneFinished(mid: State, n: string, k: string)
    requires mid.recs.Keys == {k}
    ensures var after, t := FinishedState(mid, n, false), mid.recs[k];
      && after.recs.Keys == {k}
      && var ended := t.downloading == Some(n);
      var count := t.count + (if ended then 1 else 0);
      && after.recs[k] == t.(downloading := if ended then None else t.downloading, count := count,
           finished := t.finished || (mid.registered && count >= 5))
      && (after.registered <==> mid.registered && !after.recs[k].finished)
  {
    FinishedExactly(mid, n, false, k);
  }

  // ------------------------------------------------------------------ progress

  /** The failures each unfinished target has left: their number is the sum of 5 - count. */
  ghost function Credits(recs: Recs): set<(string, int)> {
    set k, i | k in recs && 0 <= i < MAX_RETRY && !recs[k].finished && recs[k].count <= i :: (k, i)
  }

  lemma CreditsOf(recs: Recs, k: string, i: int)
    ensures (k, i) in Credits(recs) <==> k in recs && 0 <= i < MAX_RETRY && !recs[k].finished && recs[k].count <= i
  {
  }

  /** The sum over the unfinished targets of 5 minus their count. */
  ghost function FailuresLeft(recs: Recs): nat
    requires Inv(recs)
    decreases |recs|
  {
    if recs == map[] then 0
    else
      var k :| k in recs;
      (if recs[k].finished then 0 else MAX_RETRY - recs[k].count) + FailuresLeft(recs - {k})
  }

  ghost function PairsFrom(k: string, lo: nat): (r: set<(string, int)>)
    requires lo <= MAX_RETRY
    ensures |r| == MAX_RETRY - lo && forall c :: c in r <==> c.0 == k && lo <= c.1 < MAX_RETRY
    decreases MAX_RETRY - lo
  {
    if lo == MAX_RETRY then {} else PairsFrom(k, lo + 1) + {(k, lo as int)}
  }

  // The credits of one target.
  ghost function OwnCredits(recs: Recs, k: string): set<(string, int)>
    requires Inv(recs) && k in recs
  {
    PairsFrom(k, if recs[k].finished then MAX_RETRY else recs[k].count)
  }

  lemma CreditOfEither(recs: Recs, k: string, j: string, i: int)
    requires Inv(recs) && k in recs
    ensures (j, i) in Credits(recs) <==> (j, i) in Credits(recs - {k}) || (j, i) in OwnCredits(recs, k)
    ensures !((j, i) in Credits(recs - {k}) && (j, i) in OwnCredits(recs, k))
  {
    CreditsOf(recs, j, i);
    CreditsOf(recs - {k}, j, i);
  }

  lemma SizeOfUnion<T>(a: set<T>, b: set<T>, c: set<T>)
    requires forall x :: (x in a <==> x in b || x in c) && !(x in b && x in c)
    ensures |a| == |b| + |c|
  {
    assert a == b + c;
    assert b * c == {};
  }

  lemma CreditsStep(recs: Recs, k: string)
    requires Inv(recs) && k in recs
    ensures |Credits(recs)| == |Credits(recs - {k})| + if recs[k].finished then 0 else MAX_RETRY - recs[k].count
  {
    var all, others, own := Credits(recs), Credits(recs - {k}), OwnCredits(recs, k);
    forall x ensures (x in all <==> x in others || x in own) && !(x in others && x in own) {
      CreditOfEither(recs, k, x.0, x.1);
    }
    SizeOfUnion(all, others, own);
  }

  /** The set has that size. */
  lemma {:induction false} CreditsSize(recs: Recs)
    requires Inv(recs)
    ensures |Credits(recs)| == FailuresLeft(recs)
    decreases |recs|
  {
    if recs == map[] {
      assert Credits(recs) == {};
    } else {
      var k :| k in recs && FailuresLeft(recs)
        == (if recs[k].finished then 0 else MAX_RETRY - recs[k].count) + FailuresLeft(recs - {k});
      CreditsStep(recs, k);
      CreditsSize(recs - {k});
    }
  }

  /** No step but Set adds a failure to spend, so the sum never grows ... */
  lemma CreditsShrink(st: State, e: Event, after: State)
    requires Inv(st.recs) && Step(st, e, after) && !e.SetEvent?
    ensures Credits(after.recs) <= Credits(st.recs)
  {
    StepInv(st, e, after);
    forall c | c in Credits(after.recs) ensures c in Credits(st.recs) {
    }
  }

  /** ... and it falls at every Finished that ends a hand-out. */
  lemma FinishedFalls(st: State, n: string, success: bool, k: string)
    requires Inv(st.recs) && k in st.recs && st.recs[k].downloading == Some(n)
    ensures Credits(FinishedState(st, n, success).recs) < Credits(st.recs)
    ensures |Credits(FinishedState(st, n, success).recs)| < |Credits(st.recs)|
  {
    var after := FinishedState(st, n, success);
    CreditsShrink(st, FinishedEvent(n, success), after);
    var c := (k, st.recs[k].count as int);
    SubsetSize(Credits(after.recs), Credits(st.recs) - {c});
  }

  /** How often a target was handed out in a run. */
  ghost function HandOuts(es: seq<Event>, k: string): nat {
    if es == [] then 0
    else HandOuts(es[..|es| - 1], k) + if es[|es| - 1].GetEvent? && k in es[|es| - 1].given then 1 else 0
  }

  // What the hand-outs of a target so far amount to in its state.
  ghost predicate Accounted(t: Target, start: nat, handed: nat) {
    if t.finished then start + handed <= MAX_RETRY
    else start + handed == t.count + if t.downloading.Some? then 1 else 0
  }

  lemma StepAccounted(st: State, e: Event, after: State, k: string, start: nat, handed: nat)
    requires Inv(st.recs) && Step(st, e, after) && !Brings(st, e, k)
    requires k in st.recs && Accounted(st.recs[k], start, handed)
    ensures k in after.recs
    ensures Accounted(after.recs[k], start, handed + if e.GetEvent? && k in e.given then 1 else 0)
  {
  }

  lemma {:induction false} RunAccounted(sts: seq<State>, es: seq<Event>, k: string, n: nat)
    requires IsRun(sts, es) && Inv(sts[0].recs) && k in sts[0].recs && n <= |es|
    requires !sts[0].recs[k].finished && sts[0].recs[k].downloading.None?
    requires forall i :: 0 <= i < |es| ==> !Brings(sts[i], es[i], k)
    ensures k in sts[n].recs && Accounted(sts[n].recs[k], sts[0].recs[k].count, HandOuts(es[..n], k))
  {
    if n > 0 {
      RunAccounted(sts, es, k, n - 1);
      RunInv(sts, es, n - 1);
      StepAccounted(sts[n - 1], es[n - 1], sts[n], k, sts[0].recs[k].count, HandOuts(es[..n - 1], k));
      assert es[..n][..n - 1] == es[..n - 1];
    }
  }

  /**
   In every run a target that no Set brings anew is handed out at most 5 times, less the failures it
   came with.
   */
  lemma AtMostFive(sts: seq<State>, es: seq<Event>, k: string)
    requires IsRun(sts, es) && Inv(sts[0].recs) && k in sts[0].recs
    requires !sts[0].recs[k].finished && sts[0].recs[k].downloading.None?
    requires forall i :: 0 <= i < |es| ==> !Brings(sts[i], es[i], k)
    ensures HandOuts(es, k) + sts[0].recs[k].count <= 5
  {
    RunAccounted(sts, es, k, |es|);
    assert es[..|es|] == es;
    RunInv(sts, es, |es|);
  }

  // ------------------------------------------------------------------ the only manager of a datfile

  /** A registered manager has an unfinished target, and targets in download keep it registered. */
  ghost predicate SoleInv(st: State) {
    && Inv(st.recs)
    && (st.registered ==> exists k :: k in st.recs && !st.recs[k].finished)
    && ((exists k :: k in st.recs && st.recs[k].downloading.Some?) ==> st.registered)
    && (forall k :: k in st.recs && !st.recs[k].finished ==> st.recs[k].count < MAX_RETRY)
  }

  lemma SoleStep(st: State, e: Event, after: State)
    requires SoleInv(st) && Step(st, e, after) && !e.OtherEvent?
    ensures SoleInv(after)
  {
    StepInv(st, e, after);
    match e
    case GetEvent(n, from, to, given) =>
      if given != {} {
        var k :| k in given;
        assert k in after.recs && !after.recs[k].finished;
      } else {
        SoleCheck(st);
      }
    case FinishedEvent(n, success) =>
      SoleFinished(st, n, success);
    case SetEvent(heads, n) =>
      SetKeeps(st.recs, heads, n, after.recs, st.registered);
    case OtherEvent(_) =>
  }

  lemma SoleCheck(st: State)
    requires SoleInv(st)
    ensures CheckedState(st) == st
  {
    if st.registered {
      assert forall k :: k in st.recs ==> GaveUp(st.recs[k]) == st.recs[k];
      assert (map k | k in st.recs :: GaveUp(st.recs[k])) == st.recs;
    }
  }

  lemma SoleFinished(st: State, n: string, success: bool)
    requires SoleInv(st)
    ensures SoleInv(FinishedState(st, n, success))
  {
    var after := FinishedState(st, n, success);
    StepInv(st, FinishedEvent(n, success), after);
    if st.registered {
      forall k | k in after.recs && after.recs[k].downloading.Some? ensures after.registered {
        assert !after.recs[k].finished;
      }
    } else {
      assert forall k :: k in st.recs ==> EndHandOut(st.recs[k], n, success) == st.recs[k];
      assert after.recs == st.recs;
    }
  }

  /**
   In every run, with Set or without, in which a manager is the only one for its datfile it has an unfinished target
   while it is registered, and every unfinished target can still be handed out.
   */
  lemma {:induction false} SoleRun(sts: seq<State>, es: seq<Event>, i: nat)
    requires IsRun(sts, es) && SoleInv(sts[0]) && i < |sts|
    requires forall j :: 0 <= j < |es| ==> !es[j].OtherEvent?
    ensures SoleInv(sts[i])
  {
    if i > 0 {
      SoleRun(sts, es, i - 1);
      SoleStep(sts[i - 1], es[i - 1], sts[i]);
    }
  }

  // ------------------------------------------------------------------ Set

  /** Head.Recstr, the key under which Set inserts. */
  function HeadRecstr(h: Head): string {
    Records.Line(h.stamp, h.id, h.datfile)
  }

  /** One turn of the loop of Set: the lookup is by Idstr, the insertion by Recstr. */
  function SetOne(recs: Recs, h: Head, n: string): Recs {
    if Records.Idstr(h) in recs then
      var t := recs[Records.Idstr(h)];
      if !t.finished then recs[Records.Idstr(h) := t.(nodes := t.nodes + [n])] else recs
    else recs[HeadRecstr(h) := Target([n], None, false, 0, h.stamp)]
  }

  /** Every target is a local record, finished from the start, or was inserted by Set. */
  ghost predicate LocalFinished(recs: Recs) {
    forall k :: k in recs ==> recs[k].finished || exists h: Head :: IsKeyOf(k, h, recs[k])
  }

  /** k is the key that Set gives to h, and t has its stamp. */
  ghost predicate IsKeyOf(k: string, h: Head, t: Target) {
    k == HeadRecstr(h) && t.stamp == h.stamp
  }

  lemma KeysDiffer(g: Head, h: Head)
    ensures Records.Idstr(g) != HeadRecstr(h)
  {
    var a, b := Records.Idstr(g), HeadRecstr(h);
    var m, n := |Itoa(g.stamp)|, |Itoa(h.stamp)|;
    var i := if m < n then m else n;
    assert a[m] == '_' && b[n] == '<';
    assert a[..m] == Itoa(g.stamp) && b[..n] == Itoa(h.stamp);
    assert i < m ==> a[i] == a[..m][i];
    assert i < n ==> b[i] == b[..n][i];
    assert a[i] != b[i];
  }

  /** The key that Set gives to a head tells its stamp. */
  lemma RecstrStamp(g: Head, h: Head)
    requires HeadRecstr(g) == HeadRecstr(h)
    ensures g.stamp == h.stamp
  {
    StampFirst(g);
    StampFirst(h);
    var m, n := if g.stamp < 0 then -g.stamp else g.stamp, if h.stamp < 0 then -h.stamp else h.stamp;
    DigitsRoundTrip(m);
    DigitsRoundTrip(n);
    assert Digits(m)[0] != '-' && Digits(n)[0] != '-';
    assert g.stamp < 0 ==> Itoa(g.stamp)[1..] == Digits(m);
    assert h.stamp < 0 ==> Itoa(h.stamp)[1..] == Digits(n);
  }

  lemma StampFirst(h: Head)
    ensures Split(HeadRecstr(h), "<>")[0] == Itoa(h.stamp)
  {
    AbsentChar(Itoa(h.stamp), "<>");
    Records.LineAssoc(h.stamp, h.id, h.datfile);
    SplitCons(Itoa(h.stamp), h.id + "<>" + h.datfile, "<>");
  }

  /** Set keeps the targets of different heads apart: the key tells the head, for ids without a separator. */
  lemma RecstrInjective(g: Head, h: Head)
    requires g.datfile == h.datfile && !Contains(g.id, "<>") && !Contains(h.id, "<>")
    ensures HeadRecstr(g) == HeadRecstr(h) <==> g == h
  {
    if HeadRecstr(g) == HeadRecstr(h) {
      RecstrStamp(g, h);
      RecstrParts(g);
      RecstrParts(h);
    }
  }

  lemma RecstrParts(h: Head)
    requires !Contains(h.id, "<>")
    ensures |Split(HeadRecstr(h), "<>")| > 1 && Split(HeadRecstr(h), "<>")[1] == h.id
  {
    AbsentChar(Itoa(h.stamp), "<>");
    Records.LineAssoc(h.stamp, h.id, h.datfile);
    SplitCons(Itoa(h.stamp), h.id + "<>" + h.datfile, "<>");
    SplitCons(h.id, h.datfile, "<>");
  }

  lemma StepLocalFinished(st: State, e: Event, after: State)
    requires Inv(st.recs) && LocalFinished(st.recs) && Step(st, e, after)
    ensures LocalFinished(after.recs)
  {
    StepInv(st, e, after);
    forall k | k in after.recs ensures after.recs[k].finished || exists h :: IsKeyOf(k, h, after.recs[k]) {
      if Brings(st, e, k) {
        var h :| h in NewHeads(st.recs, e.heads) && HeadRecstr(h) == k;
        assert IsKeyOf(k, h, after.recs[k]);
      } else if !after.recs[k].finished {
        var h :| IsKeyOf(k, h, st.recs[k]);
        assert IsKeyOf(k, h, after.recs[k]);
      }
    }
  }

  /**
   Because of the two keys a head that is not a local record always gets a fresh target: one that
   Set had made before, with its other nodes, its failures and its download, is replaced.
   */
  lemma SetReplaces(recs: Recs, h: Head, n: string)
    requires LocalFinished(recs)
    ensures LocalFinished(SetOne(recs, h, n))
    ensures SetOne(recs, h, n)
         == if Records.Idstr(h) in recs then recs else recs[HeadRecstr(h) := Target([n], None, false, 0, h.stamp)]
  {
    if Records.Idstr(h) in recs && !recs[Records.Idstr(h)].finished {
      var g :| IsKeyOf(Records.Idstr(h), g, recs[Records.Idstr(h)]);
      KeysDiffer(h, g);
    }
    var after := SetOne(recs, h, n);
    forall k | k in after ensures after[k].finished || exists g :: IsKeyOf(k, g, after[k]) {
      if k == HeadRecstr(h) && Records.Idstr(h) !in recs { assert IsKeyOf(k, h, after[k]); }
      else { assert after[k] == recs[k]; }
    }
  }

  /** The heads of an answer that are not local records. */
  ghost function NewHeads(recs: Recs, hs: set<Head>): set<Head> {
    set h | h in hs && Records.Idstr(h) !in recs
  }

  ghost function NewKeys(recs: Recs, hs: set<Head>): set<string> {
    set h | h in NewHeads(recs, hs) :: HeadRecstr(h)
  }

  /** Set: a fresh target for every head that is not a local record; every other target stays. */
  ghost predicate SetStep(before: Recs, hs: set<Head>, n: string, after: Recs) {
    && after.Keys == before.Keys + NewKeys(before, hs)
    && (forall h :: h in NewHeads(before, hs) ==> after[HeadRecstr(h)] == Target([n], None, false, 0, h.stamp))
    && (forall k :: k in before && k !in NewKeys(before, hs) ==> after[k] == before[k])
  }

  lemma SetStepNext(before: Recs, hs: set<Head>, n: string, mid: Recs, h: Head)
    requires LocalFinished(before) && LocalFinished(mid) && SetStep(before, hs, n, mid)
    ensures SetStep(before, hs + {h}, n, SetOne(mid, h, n)) && LocalFinished(SetOne(mid, h, n))
  {
    SetReplaces(mid, h, n);
    assert forall g :: Records.Idstr(h) != HeadRecstr(g) by {
      forall g ensures Records.Idstr(h) != HeadRecstr(g) { KeysDiffer(h, g); }
    }
    if Records.Idstr(h) in before {
      assert NewHeads(before, hs + {h}) == NewHeads(before, hs);
    } else {
      SetStepNew(before, hs, n, mid, h);
    }
  }

  lemma SetStepNew(before: Recs, hs: set<Head>, n: string, mid: Recs, h: Head)
    requires SetStep(before, hs, n, mid) && Records.Idstr(h) !in before
    ensures SetStep(before, hs + {h}, n, mid[HeadRecstr(h) := Target([n], None, false, 0, h.stamp)])
  {
    forall g | g in NewHeads(before, hs) && HeadRecstr(g) == HeadRecstr(h) ensures g.stamp == h.stamp {
      RecstrStamp(g, h);
    }
  }

  /** What holds in every run also holds across Set: the bounds, and what a sole manager keeps. */
  lemma SetKeeps(before: Recs, hs: set<Head>, n: string, after: Recs, registered: bool)
    requires SetStep(before, hs, n, after)
    ensures Inv(before) ==> Inv(after)
    ensures SoleInv(State(before, registered)) ==> SoleInv(State(after, registered))
  {
    assert forall k :: k in after && k !in NewKeys(before, hs) ==> after[k] == before[k];
    if SoleInv(State(before, registered)) && registered {
      var k :| k in before && !before[k].finished;
      assert k in after && !after[k].finished;
    }
  }

  ghost predicate LeavesDownloads(before: Recs, after: Recs) {
    forall k :: k in before && before[k].downloading.Some? ==>
      k in after && after[k].downloading == before[k].downloading
  }

  /**
   A download does not survive a Set of its head: Set leaves the downloads in progress alone exactly
   when no head it brings is the target of one.
   */
  lemma SetLeavesDownloadsExactly(before: Recs, hs: set<Head>, n: string, after: Recs)
    requires SetStep(before, hs, n, after)
    ensures LeavesDownloads(before, after) <==>
      forall h :: h in NewHeads(before, hs) && HeadRecstr(h) in before ==> before[HeadRecstr(h)].downloading.None?
  {
    forall k | k in before && k in NewKeys(before, hs) ensures after[k].downloading.None? {
      var h :| h in NewHeads(before, hs) && HeadRecstr(h) == k;
    }
  }

  // ------------------------------------------------------------------ the objects

  /** The global table of managers, by datfile. */
  class Registry {
    var managers: map<string, Manager>

    constructor ()
      ensures managers == map[]
    {
      managers := map[];
    }

    /** NewManger: the registered manager if there is one, else a new one with the local records finished. */
    method NewManager(rows: Store.Rows, datfile: string) returns (dm: Manager)
      ensures datfile in managers ==> dm == managers[datfile]
      ensures datfile !in managers ==> fresh(dm) && dm.registry == this && dm.datfile == datfile
      ensures datfile !in managers ==> dm.recs == LocalRecs(rows, datfile)
    {
      if datfile in managers {
        return managers[datfile];
      }
      dm := new Manager(datfile, this);
      var ids := LocalIds(rows, datfile);
      var rest := ids;
      while rest != {}
        invariant fresh(dm) && rest <= ids
        invariant dm.recs == map id | id in ids - rest :: Target([], None, true, 0, 0)
      {
        var id :| id in rest;
        rest := rest - {id};
        dm.recs := dm.recs[id := Target([], None, true, 0, 0)];
      }
    }
  }

  /** The keys of LoadRecords(All). */
  function LocalIds(rows: Store.Rows, datfile: string): set<string> {
    set k | k in rows && rows[k].head.datfile == datfile :: Records.Idstr(rows[k].head)
  }

  /** The targets of a new manager. */
  function LocalRecs(rows: Store.Rows, datfile: string): Recs {
    map id | id in LocalIds(rows, datfile) :: Target([], None, true, 0, 0)
  }

  /** A new manager has a finished target for every local record, removed or not, and no other. */
  lemma NewManagerInv(rows: Store.Rows, datfile: string)
    ensures var recs := LocalRecs(rows, datfile);
      && Inv(recs) && LocalFinished(recs) && SoleInv(State(recs, false))
      && (forall k :: k in rows && rows[k].head.datfile == datfile ==>
            Itoa(rows[k].head.stamp) + "_" + rows[k].head.id in recs)
      && (forall id :: id in recs ==> recs[id].finished && recs[id].downloading.None?)
      && (forall id :: id in recs ==> IsLocal(rows, datfile, id))
  {
    var recs := LocalRecs(rows, datfile);
    forall k | k in rows && rows[k].head.datfile == datfile ensures Records.Idstr(rows[k].head) in recs {
      assert Records.Idstr(rows[k].head) in LocalIds(rows, datfile);
    }
    forall id | id in recs ensures IsLocal(rows, datfile, id) {
      assert id in LocalIds(rows, datfile);
    }
  }

  ghost predicate IsLocal(rows: Store.Rows, datfile: string, id: string) {
    exists k :: k in rows && rows[k].head.datfile == datfile && Records.Idstr(rows[k].head) == id
  }

  /** download.Manager. */
  class Manager {
    const datfile: string
    const registry: Registry
    var recs: Recs

    constructor (datfile: string, registry: Registry)
      ensures this.datfile == datfile && this.registry == registry && recs == map[]
    {
      this.datfile, this.registry := datfile, registry;
      recs := map[];
    }

    ghost function Now(): State
      reads this, registry
    {
      State(recs, datfile in registry.managers)
    }

    method Set(res: seq<string>, n: string)
      requires LocalFinished(recs)
      modifies this`recs
      ensures LocalFinished(recs)
      ensures var heads := Server.ParseHeads(res, datfile);
        SetStep(old(recs), if heads.None? then {} else heads.value.Values, n, recs)
    {
      var heads := Server.ParseHeadResponse(res, datfile);
      if heads.None? {
        return;
      }
      var rest := heads.value.Keys;
      ghost var done: set<Head> := {};
      while rest != {}
        invariant rest <= heads.value.Keys && LocalFinished(recs)
        invariant done == set k | k in heads.value && k !in rest :: heads.value[k]
        invariant SetStep(old(recs), done, n, recs)
      {
        var k :| k in rest;
        rest := rest - {k};
        SetStepNext(old(recs), done, n, recs, heads.value[k]);
        done := done + {heads.value[k]};
        recs := SetOne(recs, heads.value[k], n);
      }
      assert done == heads.value.Values;
    }

    /** Get. given are the targets handed out. */
    method Get(n: string) returns (from: int, to: int, ghost given: set<string>)
      modifies this`recs, registry
      ensures GetStep(old(Now()), n, Now(), from, to, given)
      ensures forall d :: d != datfile ==> (d in registry.managers <==> d in old(registry.managers))
    {
      var s := Collect(n);
      if s == [] {
        CheckFinished();
        return -1, -1, {};
      }
      registry.managers := registry.managers[datfile := this];
      from, to, given := Assign(n, s);
    }

    // The part of Get that sorts the eligible targets s and hands out the newest.
    method Assign(n: string, s: seq<string>) returns (from: int, to: int, ghost given: set<string>)
      requires s != [] && NoRepeats(s) && Elements(s) == EligibleKeys(recs, n)
      modifies this`recs
      ensures IsHandOut(old(recs), n, given, from, to) && recs == HandTo(old(recs), given, n)
    {
      assert forall k :: k in s ==> k in Elements(s);
      var sorted := SortedDown(recs, s);
      SameElements(sorted, s);
      var begin := if |s| > 5 then |s| / 2 else |s| - 1;
      FirstAreHandOut(recs, n, sorted, begin);
      given := Elements(sorted[..begin + 1]);
      from, to := recs[sorted[begin]].stamp, recs[sorted[0]].stamp;
      Mark(n, sorted[..begin + 1]);
    }

    // The last loop of Get.
    method Mark(n: string, s: seq<string>)
      requires forall k :: k in s ==> k in recs
      modifies this`recs
      ensures recs == HandTo(old(recs), Elements(s), n)
    {
      for i := 0 to |s|
        invariant recs == HandTo(old(recs), Elements(s[..i]), n)
      {
        assert s[i] in s;
        recs := recs[s[i] := recs[s[i]].(downloading := Some(n))];
      }
      assert s[..|s|] == s;
    }

    // The first loop of Get.
    method Collect(n: string) returns (s: seq<string>)
      ensures NoRepeats(s) && Elements(s) == EligibleKeys(recs, n)
    {
      s := [];
      var rest := recs.Keys;
      while rest != {}
        invariant rest <= recs.Keys && NoRepeats(s)
        invariant Elements(s) == set k | k in recs && k !in rest && Eligible(recs[k], n)
      {
        var k :| k in rest;
        assert k !in Elements(s);
        if Eligible(recs[k], n) {
          assert Elements(s + [k]) == Elements(s) + {k};
          s := s + [k];
        }
        rest := rest - {k};
      }
    }

    method CheckFinished()
      modifies this`recs, registry
      ensures Now() == CheckedState(old(Now()))
      ensures forall d :: d != datfile ==> (d in registry.managers <==> d in old(registry.managers))
    {
      if datfile !in registry.managers {
        return;
      }
      var finished := true;
      var rest := recs.Keys;
      ghost var before := recs;
      while rest != {}
        invariant rest <= before.Keys && recs.Keys == before.Keys && registry.managers == old(registry.managers)
        invariant forall k :: k in before ==> recs[k] == if k in rest then before[k] else GaveUp(before[k])
        invariant finished <==> forall k :: k in before && k !in rest ==> recs[k].finished
      {
        var k :| k in rest;
        rest := rest - {k};
        if recs[k].count >= MAX_RETRY {
          recs := recs[k := recs[k].(finished := true)];
        }
        if !recs[k].finished {
          finished := false;
        }
      }
      assert recs == map k | k in before :: GaveUp(before[k]);
      if finished {
        registry.managers := registry.managers - {datfile};
      }
    }

    method Finished(n: string, success: bool)
      modifies this`recs, registry
      ensures Now() == FinishedState(old(Now()), n, success)
      ensures forall d :: d != datfile ==> (d in registry.managers <==> d in old(registry.managers))
    {
      var rest := recs.Keys;
      ghost var before := recs;
      while rest != {}
        invariant rest <= before.Keys && recs.Keys == before.Keys && registry.managers == old(registry.managers)
        invariant forall k :: k in before ==>
          recs[k] == if k in rest then before[k] else EndHandOut(before[k], n, success)
      {
        var k :| k in rest;
        rest := rest - {k};
        if recs[k].downloading == Some(n) {
          if success {
            recs := recs[k := recs[k].(finished := true)];
          } else {
            recs := recs[k := recs[k].(count := recs[k].count + 1)];
          }
          recs := recs[k := recs[k].(downloading := None)];
        }
      }
      assert recs == map k | k in before :: EndHandOut(before[k], n, success);
      CheckFinished();
    }
  }

  // ------------------------------------------------------------------ sort.Sort(sort.Reverse(s))

  ghost function Elements(s: seq<string>): set<string> {
    set k | k in s
  }

  ghost predicate NoRepeats(s: seq<string>) {
    forall i, j :: 0 <= i < j < |s| ==> s[i] != s[j]
  }

  lemma {:induction false} ListSize(s: seq<string>)
    requires NoRepeats(s)
    ensures |Elements(s)| == |s|
  {
    if s != [] {
      var n := |s| - 1;
      ListSize(s[..n]);
      assert s == s[..n] + [s[n]];
      assert Elements(s) == Elements(s[..n]) + {s[n]};
    }
  }

  /** s lists targets, the newest first. */
  ghost predicate Down(recs: Recs, s: seq<string>) {
    && (forall k :: k in s ==> k in recs)
    && (forall i, j :: 0 <= i < j < |s| ==> s[i] in recs && s[j] in recs && recs[s[i]].stamp >= recs[s[j]].stamp)
  }

  lemma DownCons(recs: Recs, y: string, s: seq<string>)
    requires Down(recs, s) && y in recs && forall k :: k in s ==> recs[y].stamp >= recs[k].stamp
    ensures Down(recs, [y] + s)
  {
    forall j | 0 <= j < |s| ensures recs[y].stamp >= recs[s[j]].stamp { assert s[j] in s; }
  }

  lemma DownTail(recs: Recs, s: seq<string>)
    requires Down(recs, s) && s != []
    ensures Down(recs, s[1..]) && forall k :: k in s[1..] ==> recs[s[0]].stamp >= recs[k].stamp
  {
  }

  function InsertDown(recs: Recs, x: string, s: seq<string>): (r: seq<string>)
    requires x in recs && Down(recs, s)
    ensures Down(recs, r) && multiset(r) == multiset(s) + multiset{x}
  {
    if s == [] then [x]
    else
      DownTail(recs, s);
      assert s == [s[0]] + s[1..];
      if recs[x].stamp >= recs[s[0]].stamp then
        DownCons(recs, x, s);
        [x] + s
      else
        var r := InsertDown(recs, x, s[1..]);
        assert forall k :: k in r ==> k in multiset(r);
        DownCons(recs, s[0], r);
        [s[0]] + r
  }

  function SortedDown(recs: Recs, s: seq<string>): (r: seq<string>)
    requires forall k :: k in s ==> k in recs
    ensures Down(recs, r) && multiset(r) == multiset(s)
  {
    if s == [] then []
    else
      assert s == [s[0]] + s[1..];
      InsertDown(recs, s[0], SortedDown(recs, s[1..]))
  }

  lemma SameElements(r: seq<string>, s: seq<string>)
    requires multiset(r) == multiset(s) && NoRepeats(s)
    ensures NoRepeats(r) && Elements(r) == Elements(s) && |r| == |s|
  {
    assert |multiset(r)| == |r| && |multiset(s)| == |s|;
    assert forall k :: k in r <==> k in multiset(r);
    assert forall k :: k in s <==> k in multiset(s);
    forall i, j | 0 <= i < j < |r| ensures r[i] != r[j] {
      NoneTwice(s, r[j]);
      if r[i] == r[j] { Twice(r, i, j); }
    }
  }

  lemma {:induction false} NoneTwice(s: seq<string>, k: string)
    requires NoRepeats(s)
    ensures multiset(s)[k] <= 1
  {
    if s != [] {
      assert s == [s[0]] + s[1..];
      NoneTwice(s[1..], k);
      if k == s[0] { assert k !in s[1..]; }
    }
  }

  lemma Twice(s: seq<string>, i: nat, j: nat)
    requires i < j < |s| && s[i] == s[j]
    ensures multiset(s)[s[j]] >= 2
  {
    assert s == s[..i + 1] + s[i + 1..];
    assert s[i + 1..][j - i - 1] == s[j] && s[..i + 1][i] == s[i];
    assert s[j] in s[..i + 1] && s[j] in s[i + 1..];
  }

  lemma FirstOfDown(recs: Recs, s: seq<string>, begin: nat, a: nat, b: nat)
    requires Down(recs, s) && a <= begin < |s| && b < |s|
    ensures s[a] in recs && s[b] in recs && s[begin] in recs && s[0] in recs
    ensures recs[s[begin]].stamp <= recs[s[a]].stamp <= recs[s[0]].stamp
    ensures b > begin ==> recs[s[b]].stamp <= recs[s[a]].stamp
  {
    assert s[begin] in s;
  }

  lemma InFirst(s: seq<string>, begin: nat, k: string) returns (a: nat)
    requires begin < |s| && k in Elements(s)
    ensures a < |s| && s[a] == k && (k in Elements(s[..begin + 1]) ==> a <= begin)
    ensures k !in Elements(s[..begin + 1]) ==> a > begin
  {
    if k in s[..begin + 1] {
      a :| 0 <= a <= begin && s[a] == k;
    } else {
      assert forall i :: 0 <= i <= begin ==> s[i] in s[..begin + 1];
      a :| 0 <= a < |s| && s[a] == k;
    }
  }

  /** The first half of the sorted targets are a hand-out. */
  lemma FirstAreHandOut(recs: Recs, n: string, s: seq<string>, begin: nat)
    requires Down(recs, s) && NoRepeats(s) && Elements(s) == EligibleKeys(recs, n)
    requires s != [] && begin == if |s| > 5 then |s| / 2 else |s| - 1
    ensures s[begin] in recs && s[0] in recs
    ensures IsHandOut(recs, n, Elements(s[..begin + 1]), recs[s[begin]].stamp, recs[s[0]].stamp)
  {
    ListSize(s);
    ListSize(s[..begin + 1]);
    var given := Elements(s[..begin + 1]);
    assert s[..begin + 1][0] == s[0] && s[..begin + 1][begin] == s[begin];
    assert s[0] in given && s[begin] in given && given <= Elements(s);
    forall k, j | k in given && j in Elements(s) && j !in given ensures recs[j].stamp <= recs[k].stamp {
      var a := InFirst(s, begin, k);
      var b := InFirst(s, begin, j);
      FirstOfDown(recs, s, begin, a, b);
    }
    forall k | k in given ensures recs[s[begin]].stamp <= recs[k].stamp <= recs[s[0]].stamp {
      var a := InFirst(s, begin, k);
      FirstOfDown(recs, s, begin, a, 0);
    }
  }
}
