/**
 updateque/updateque.go: the gate that keeps a node from broadcasting one record twice within an
 hour. It remembers the time of each broadcast in a map that is pruned at every request.
 */
module UpdateQue {

  /** One hour, in the unit of the clock. */
  const HOUR: nat := 3600

  type Updated = map<string, int>

  datatype Request = Request(hash: string, time: int)

  /** time.Now().After(v.Add(oldUpdated)). */
  predicate Expired(v: int, now: int) {
    now > v + HOUR
  }

  /** The map after deleteOldUpdated. */
  function Pruned(updated: Updated, now: int): Updated {
    map k | k in updated && !Expired(updated[k], now) :: updated[k]
  }

  /** The global map and the gate at the top of doUpdateNode. */
  class UpdateQue {
    var updated: Updated

    constructor ()
      ensures updated == map[]
    {
      updated := map[];
    }

    method DeleteOldUpdated(now: int)
      modifies this
      ensures updated == Pruned(old(updated), now)
    {
      var rest := updated.Keys;
      while rest != {}
        invariant rest <= updated.Keys <= old(updated).Keys
        invariant forall k :: k in updated ==> updated[k] == old(updated)[k]
        invariant forall k :: k in old(updated) ==>
          (k in updated <==> k in rest || !Expired(old(updated)[k], now))
      {
        var k :| k in rest;
        rest := rest - {k};
        if Expired(updated[k], now) {
          updated := updated - {k};
        }
      }
    }

    /** The gate: true lets the broadcast through and notes its time. */
    method Gate(r: Request) returns (pass: bool)
      modifies this
      ensures pass <==> Passes(old(updated), r)
      ensures updated == After(old(updated), r)
    {
      DeleteOldUpdated(r.time);
      if r.hash in updated {
        return false;
      }
      updated := updated[r.hash := r.time];
      return true;
    }
  }

  predicate Passes(updated: Updated, r: Request) {
    r.hash !in Pruned(updated, r.time)
  }

  function After(updated: Updated, r: Request): Updated {
    if Passes(updated, r) then Pruned(updated, r.time)[r.hash := r.time] else Pruned(updated, r.time)
  }

  // ------------------------------------------------------------------ runs

  /** The map before request n of a run that starts empty. */
  function StateAt(rs: seq<Request>, n: nat): Updated
    requires n <= |rs|
  {
    if n == 0 then map[] else After(StateAt(rs, n - 1), rs[n - 1])
  }

  /** Does request i of the run pass the gate? */
  predicate PassedAt(rs: seq<Request>, i: nat)
    requires i < |rs|
  {
    Passes(StateAt(rs, i), rs[i])
  }

  /** s holds times of broadcasts among the first n requests. */
  ghost predicate AllNoted(rs: seq<Request>, n: nat, s: Updated)
    requires n <= |rs|
  {
    forall k :: k in s ==> exists i :: 0 <= i < n && NotedAt(rs, i, k, s[k])
  }

  ghost predicate NotedAt(rs: seq<Request>, i: nat, k: string, t: int)
    requires i < |rs|
  {
    PassedAt(rs, i) && rs[i].hash == k && rs[i].time == t
  }

  lemma {:induction false} RunNoted(rs: seq<Request>, n: nat)
    requires n <= |rs|
    ensures AllNoted(rs, n, StateAt(rs, n))
  {
    if n > 0 {
      RunNoted(rs, n - 1);
      var s, t, r := StateAt(rs, n - 1), StateAt(rs, n), rs[n - 1];
      forall k | k in t ensures exists i :: 0 <= i < n && NotedAt(rs, i, k, t[k]) {
        if PassedAt(rs, n - 1) && k == r.hash {
          assert NotedAt(rs, n - 1, k, t[k]);
        } else {
          assert k in s && t[k] == s[k];
        }
      }
    }
  }

  /** Was broadcast i over an hour old at some request after it and before n? */
  ghost predicate ExpiredBefore(rs: seq<Request>, i: nat, n: nat)
    requires n <= |rs| && i < |rs|
  {
    exists k :: i < k < n && Expired(rs[i].time, rs[k].time)
  }

  /** A broadcast stays noted with its time until a request finds it over an hour old. */
  lemma {:induction false} RunKept(rs: seq<Request>, n: nat, i: nat)
    requires i < n <= |rs| && PassedAt(rs, i) && !ExpiredBefore(rs, i, n)
    ensures rs[i].hash in StateAt(rs, n) && StateAt(rs, n)[rs[i].hash] == rs[i].time
  {
    if i < n - 1 {
      assert !ExpiredBefore(rs, i, n - 1);
      RunKept(rs, n - 1, i);
      assert !Expired(rs[i].time, rs[n - 1].time);
    }
  }

  // ------------------------------------------------------------------ the full history

  /** The gate agrees with the history at request i: it passes when no broadcast of its hash is within the hour. */
  ghost predicate AgreesAt(rs: seq<Request>, i: nat)
    requires i < |rs|
  {
    PassedAt(rs, i) <==>
      forall j :: 0 <= j < i && rs[j].hash == rs[i].hash && PassedAt(rs, j) ==> Expired(rs[j].time, rs[i].time)
  }

  ghost predicate HasTimes(rs: seq<Request>, ts: seq<int>) {
    |rs| == |ts| && forall i :: 0 <= i < |rs| ==> rs[i].time == ts[i]
  }

  /** What is over an hour old stays so at every later reading of the clock. */
  ghost predicate Steady(ts: seq<int>) {
    forall i, k, j :: 0 <= i < k < j < |ts| && Expired(ts[i], ts[k]) ==> Expired(ts[i], ts[j])
  }

  ghost predicate AlwaysAgrees(ts: seq<int>) {
    forall rs, i :: HasTimes(rs, ts) && 0 <= i < |rs| ==> AgreesAt(rs, i)
  }

  /** A clock that never goes back is steady. */
  lemma ForwardIsSteady(ts: seq<int>)
    requires forall i, j :: 0 <= i <= j < |ts| ==> ts[i] <= ts[j]
    ensures Steady(ts)
  {
  }

  lemma SteadyAgrees(rs: seq<Request>, ts: seq<int>, i: nat)
    requires HasTimes(rs, ts) && Steady(ts) && i < |rs|
    ensures AgreesAt(rs, i)
  {
    RunNoted(rs, i);
    var s := StateAt(rs, i);
    if !PassedAt(rs, i) {
      var j :| 0 <= j < i && NotedAt(rs, j, rs[i].hash, s[rs[i].hash]);
      assert rs[j].hash == rs[i].hash && PassedAt(rs, j);
    } else {
      forall j | 0 <= j < i && rs[j].hash == rs[i].hash && PassedAt(rs, j) ensures Expired(rs[j].time, rs[i].time) {
        if ExpiredBefore(rs, j, i) {
          var k :| j < k < i && Expired(rs[j].time, rs[k].time);
          assert Expired(ts[j], ts[k]);
        } else {
          RunKept(rs, i, j);
        }
      }
    }
  }

  /**
   In seconds: with a clock that does not go back a request passes exactly when every broadcast of its
   hash before it is more than 3600 seconds old. So two broadcasts of one hash are more than an hour apart.
   */
  lemma HourApart(rs: seq<Request>, i: nat)
    requires i < |rs| && forall a, b :: 0 <= a <= b < |rs| ==> rs[a].time <= rs[b].time
    ensures PassedAt(rs, i) <==>
      forall j :: 0 <= j < i && rs[j].hash == rs[i].hash && PassedAt(rs, j) ==> rs[i].time > rs[j].time + 3600
  {
    var ts := seq(|rs|, n requires 0 <= n < |rs| => rs[n].time);
    ForwardIsSteady(ts);
    SteadyAgrees(rs, ts, i);
  }

  /** Readings ts, one hash at i and j, another one everywhere else. */
  function TwoHashes(ts: seq<int>, i: nat, j: nat): (rs: seq<Request>)
    ensures HasTimes(rs, ts)
  {
    seq(|ts|, n requires 0 <= n < |ts| => Request(if n == i || n == j then "a" else "b", ts[n]))
  }

  /** h is the hash of requests i and j and of no other. */
  ghost predicate OnlyAt(rs: seq<Request>, h: string, i: nat, j: nat) {
    forall m :: 0 <= m < |rs| ==> (rs[m].hash == h <==> m == i || m == j)
  }

  // Once request k has found the broadcast at i over an hour old it is gone until j.
  lemma {:induction false} GoneAfter(rs: seq<Request>, h: string, i: nat, k: nat, j: nat, n: nat)
    requires i < k < n <= j < |rs| && OnlyAt(rs, h, i, j) && Expired(rs[i].time, rs[k].time)
    ensures h !in StateAt(rs, n)
  {
    if n - 1 > k {
      GoneAfter(rs, h, i, k, j, n - 1);
    } else {
      RunNoted(rs, k);
    }
  }

  /**
   A clock that falls back below a reading at which a broadcast was pruned lets its hash pass twice
   within the hour.
   */
  lemma ClockBackward(ts: seq<int>, i: nat, k: nat, j: nat)
    requires i < k < j < |ts| && Expired(ts[i], ts[k]) && !Expired(ts[i], ts[j])
    ensures var rs := TwoHashes(ts, i, j);
      rs[i].hash == rs[j].hash && PassedAt(rs, i) && PassedAt(rs, j) && !AgreesAt(rs, j)
  {
    var rs := TwoHashes(ts, i, j);
    assert OnlyAt(rs, "a", i, j);
    RunNoted(rs, i);
    GoneAfter(rs, "a", i, k, j, j);
  }

  /**
   The pruned map agrees with the full history, at every request of every run with these readings of
   the clock, exactly when the readings are steady. Two broadcasts of one hash are then over an hour
   apart.
   */
  lemma GateAgreesWithHistory(ts: seq<int>)
    ensures AlwaysAgrees(ts) <==> Steady(ts)
  {
    if Steady(ts) {
      forall rs, i | HasTimes(rs, ts) && 0 <= i < |rs| ensures AgreesAt(rs, i) {
        SteadyAgrees(rs, ts, i);
      }
    } else {
      var i, k, j :| 0 <= i < k < j < |ts| && Expired(ts[i], ts[k]) && !Expired(ts[i], ts[j]);
      ClockBackward(ts, i, k, j);
      assert HasTimes(TwoHashes(ts, i, j), ts);
    }
  }
}
