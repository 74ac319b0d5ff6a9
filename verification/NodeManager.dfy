/**
 node/manager/manager.go: which nodes have which thread. lookupT maps a thread to its nodes and
 lookupA a node to its threads; the node list is the thread "\x01".
 */
module NodeManager {
  import opened Wrappers
  import opened JsonText
  import opened SetBucket

  const DEFAULT_NODES: nat := 100
  const SHARE_NODES: nat := 100
  const LIST: string := [1 as char]

  /** The two lookup buckets. */
  datatype Tables = Tables(lookupT: Index, lookupA: Index)

  function NodesOf(tb: Tables, datfile: string): set<Utf8Text> {
    if datfile in tb.lookupT then tb.lookupT[datfile] else {}
  }

  /** At most 100 nodes a thread. */
  ghost predicate Bounded(tb: Tables) {
    forall t :: |NodesOf(tb, t)| <= 100
  }

  /** Exact inverses without empty sets, and at most 100 nodes a thread. */
  ghost predicate Inv(tb: Tables) {
    Inverse(tb.lookupT, tb.lookupA) && Bounded(tb)
  }

  // ------------------------------------------------------------------ the operations on values

  /** appendable, which reads the committed tables. */
  predicate Appendable(committed: Tables, datfile: string, n: Option<string>, allowed: string -> bool) {
    && |NodesOf(committed, datfile)| < (if datfile != "" then SHARE_NODES else DEFAULT_NODES)
    && n.Some? && allowed(n.value) && !HasVal(committed.lookupT, datfile, n.value)
  }

  /**
   AppendToTableTX: the check reads the committed tables, the insertions go to the open transaction.
   An error of either insertion is only logged.
   */
  function Append(committed: Tables, work: Tables, datfile: string, n: Option<string>,
      allowed: string -> bool): Tables {
    if Appendable(committed, datfile, n, allowed)
    then Tables(PutLogged(work.lookupT, datfile, n.value), PutLogged(work.lookupA, n.value, datfile))
    else work
  }

  /** Several appends of one node in one transaction. */
  function AppendAll(committed: Tables, work: Tables, datfiles: seq<string>, n: Option<string>,
      allowed: string -> bool): Tables
    decreases |datfiles|
  {
    if datfiles == [] then work
    else AppendAll(committed, Append(committed, work, datfiles[0], n, allowed), datfiles[1..], n, allowed)
  }

  /** removeFromTable; None stands for its errors. */
  function Remove(tb: Tables, datfile: string, n: Option<string>): Option<Tables> {
    if n.None? || !HasVal(tb.lookupT, datfile, n.value) then None
    else
      var t := DelMap(tb.lookupT, datfile, n.value);
      var a := DelMap(tb.lookupA, n.value, datfile);
      if t.None? || a.None? then None else Some(Tables(t.value, a.value))
  }

  /** RemoveFromAllTable; None stands for its errors. */
  function RemoveAll(tb: Tables, n: string): Option<Tables> {
    if n !in tb.lookupA then None
    else
      var t := DelAll(tb.lookupT, tb.lookupA[n], n);
      if t.None? then None else Some(Tables(t.value, tb.lookupA - {n}))
  }

  // ------------------------------------------------------------------ one transaction

  /** The open transaction of a node n: what it may add to the committed tables. */
  ghost predicate TxInv(committed: Tables, work: Tables, n: Option<string>) {
    forall t, a :: HasVal(work.lookupT, t, a) ==>
      HasVal(committed.lookupT, t, a) || (n.Some? && a == ViaJson(n.value) && |NodesOf(committed, t)| < 100)
  }

  /**
   A thread grows only when the committed tables leave room, and by one node at most. The bound rests
   on every transaction appending one node: with room for one more, two would take a thread to 101.
   */
  lemma TxBound(committed: Tables, work: Tables, n: Option<string>)
    requires Bounded(committed) && TxInv(committed, work, n)
    ensures Bounded(work)
  {
    forall t ensures |NodesOf(work, t)| <= 100 {
      var before, after := NodesOf(committed, t), NodesOf(work, t);
      assert forall a :: a in after ==> HasVal(work.lookupT, t, a);
      if after <= before {
        SubsetSize(after, before);
      } else {
        var a :| a in after && a !in before;
        assert HasVal(work.lookupT, t, a);
        assert after <= before + {ViaJson(n.value)};
        SubsetSize(after, before + {ViaJson(n.value)});
      }
    }
  }

  lemma {:induction false} AppendAllTxInv(committed: Tables, work: Tables, datfiles: seq<string>,
      n: Option<string>, allowed: string -> bool)
    requires TxInv(committed, work, n)
    ensures TxInv(committed, AppendAll(committed, work, datfiles, n, allowed), n)
    decreases |datfiles|
  {
    if datfiles != [] {
      AppendAllTxInv(committed, Append(committed, work, datfiles[0], n, allowed), datfiles[1..], n, allowed);
    }
  }

  /** One append leaves the tables inverse exactly when it adds nothing or adds a pair of names. */
  lemma AppendInverseExactly(committed: Tables, work: Tables, datfile: string, n: string, allowed: string -> bool)
    requires Inverse(work.lookupT, work.lookupA)
    ensures var after := Append(committed, work, datfile, Some(n), allowed);
      Inverse(after.lookupT, after.lookupA)
      <==> (Appendable(committed, datfile, Some(n), allowed) ==>
              (IsName(datfile) && IsName(n)) || (datfile == "" && n == ""))
  {
    PutInverseExactly(work.lookupT, work.lookupA, datfile, n);
  }

  lemma {:induction false} AppendAllInverse(committed: Tables, work: Tables, datfiles: seq<string>,
      n: Option<string>, allowed: string -> bool)
    requires Inverse(work.lookupT, work.lookupA)
    requires n.Some? ==> IsName(n.value) && forall i :: 0 <= i < |datfiles| ==> IsName(datfiles[i])
    ensures var after := AppendAll(committed, work, datfiles, n, allowed); Inverse(after.lookupT, after.lookupA)
    decreases |datfiles|
  {
    if datfiles != [] {
      if n.Some? { AppendInverseExactly(committed, work, datfiles[0], n.value, allowed); }
      AppendAllInverse(committed, Append(committed, work, datfiles[0], n, allowed), datfiles[1..], n, allowed);
    }
  }

  /**
   What a transaction of appends changes: an allowed node joins every thread named that does not have it
   and has less than 100, nothing else.
   */
  lemma {:induction false} AppendAllEffect(committed: Tables, work: Tables, datfiles: seq<string>,
      n: Option<string>, allowed: string -> bool, t: string, a: string)
    ensures HasVal(AppendAll(committed, work, datfiles, n, allowed).lookupT, t, a)
       <==> HasVal(work.lookupT, t, a)
            || (n.Some? && a == ViaJson(n.value) && t != "" && t in datfiles
                && allowed(n.value) && n.value !in NodesOf(committed, t) && |NodesOf(committed, t)| < 100)
    decreases |datfiles|
  {
    if datfiles != [] {
      AppendAllEffect(committed, Append(committed, work, datfiles[0], n, allowed), datfiles[1..], n, allowed, t, a);
      assert t in datfiles <==> t == datfiles[0] || t in datfiles[1..];
    }
  }

  // ------------------------------------------------------------------ runs of transactions

  /** A transaction on the lookup buckets; the others of the package are made of these. */
  datatype Op =
    | AppendOp(datfiles: seq<string>, n: Option<string>)
    | RemoveOp(datfile: string, n: Option<string>)
    | RemoveAllOp(node: string)

  function Apply(tb: Tables, op: Op, allowed: string -> bool): Tables {
    match op
    case AppendOp(datfiles, n) => AppendAll(tb, tb, datfiles, n, allowed)
    case RemoveOp(datfile, n) => if Remove(tb, datfile, n).Some? then Remove(tb, datfile, n).value else tb
    case RemoveAllOp(n) => if RemoveAll(tb, n).Some? then RemoveAll(tb, n).value else tb
  }

  /** RemoveFromAllTable takes its node from every thread and changes nothing else. */
  lemma RemoveAllEffect(tb: Tables, n: string)
    requires Inv(tb)
    ensures RemoveAll(tb, n).Some? <==> n in tb.lookupA
    ensures n in tb.lookupA ==>
      var r := RemoveAll(tb, n).value;
      Inv(r) && forall t, a :: HasVal(r.lookupT, t, a) <==> HasVal(tb.lookupT, t, a) && a != n
  {
    if n in tb.lookupA {
      var ks := tb.lookupA[n];
      forall t ensures t in ks <==> HasVal(tb.lookupT, t, n) {
        assert t in ks <==> HasVal(tb.lookupA, n, t);
      }
      assert ks <= tb.lookupT.Keys;
      WithoutEffect(tb.lookupT, ks, n);
      ApplyBounded(tb, RemoveAllOp(n), _ => true);
      var r := RemoveAll(tb, n).value;
      forall x, y ensures HasVal(r.lookupT, x, y) <==> HasVal(r.lookupA, y, x) {
        assert HasVal(tb.lookupT, x, y) <==> HasVal(tb.lookupA, y, x);
      }
    }
  }

  lemma Shrinks(tb: Tables, r: Tables)
    requires Bounded(tb) && forall t, a :: HasVal(r.lookupT, t, a) ==> HasVal(tb.lookupT, t, a)
    ensures Bounded(r)
  {
    forall t ensures |NodesOf(r, t)| <= 100 {
      assert forall a :: a in NodesOf(r, t) ==> HasVal(r.lookupT, t, a);
      SubsetSize(NodesOf(r, t), NodesOf(tb, t));
    }
  }

  lemma ApplyBounded(tb: Tables, op: Op, allowed: string -> bool)
    requires Bounded(tb)
    ensures Bounded(Apply(tb, op, allowed))
  {
    match op
    case AppendOp(datfiles, n) =>
      AppendAllTxInv(tb, tb, datfiles, n, allowed);
      TxBound(tb, Apply(tb, op, allowed), n);
    case RemoveOp(datfile, n) =>
      Shrinks(tb, Apply(tb, op, allowed));
    case RemoveAllOp(n) =>
      if RemoveAll(tb, n).Some? { WithoutEffect(tb.lookupT, tb.lookupA[n], n); }
      Shrinks(tb, Apply(tb, op, allowed));
  }

  /** A removal takes one pair from both tables, and fails exactly when the pair is missing. */
  lemma RemoveEffect(tb: Tables, datfile: string, n: Option<string>)
    requires Inv(tb)
    ensures Remove(tb, datfile, n).Some? <==> n.Some? && HasVal(tb.lookupT, datfile, n.value)
    ensures Remove(tb, datfile, n).Some? ==>
      var r := Remove(tb, datfile, n).value;
      Inv(r) && forall t, a :: HasVal(r.lookupT, t, a) <==> HasVal(tb.lookupT, t, a) && !(t == datfile && a == n.value)
  {
    if n.Some? && HasVal(tb.lookupT, datfile, n.value) {
      Shrinks(tb, Remove(tb, datfile, n).value);
    }
  }

  /** The node and the threads of an append are names; removals are free. */
  predicate Named(op: Op) {
    op.AppendOp? && op.n.Some? ==> IsName(op.n.value) && forall i :: 0 <= i < |op.datfiles| ==> IsName(op.datfiles[i])
  }

  lemma ApplyInv(tb: Tables, op: Op, allowed: string -> bool)
    requires Inv(tb) && Named(op)
    ensures Inv(Apply(tb, op, allowed))
  {
    ApplyBounded(tb, op, allowed);
    match op
    case AppendOp(datfiles, n) => AppendAllInverse(tb, tb, datfiles, n, allowed);
    case RemoveOp(datfile, n) => RemoveEffect(tb, datfile, n);
    case RemoveAllOp(n) => RemoveAllEffect(tb, n);
  }

  function Run(tb: Tables, ops: seq<Op>, allowed: string -> bool): Tables
    decreases |ops|
  {
    if ops == [] then tb else Run(Apply(tb, ops[0], allowed), ops[1..], allowed)
  }

  /**
   In every reachable state no thread has more than 100 nodes, whatever strings the nodes and threads
   are, although the capacity check of each append reads the tables of before its transaction.
   */
  lemma {:induction false} RunBounded(tb: Tables, ops: seq<Op>, allowed: string -> bool)
    requires Bounded(tb)
    ensures Bounded(Run(tb, ops, allowed))
    decreases |ops|
  {
    if ops != [] {
      ApplyBounded(tb, ops[0], allowed);
      RunBounded(Apply(tb, ops[0], allowed), ops[1..], allowed);
    }
  }

  /** And in every run whose appends are of names the lookups are exact inverses without empty sets. */
  lemma {:induction false} RunInv(tb: Tables, ops: seq<Op>, allowed: string -> bool)
    requires Inv(tb) && forall i :: 0 <= i < |ops| ==> Named(ops[i])
    ensures Inv(Run(tb, ops, allowed))
    decreases |ops|
  {
    if ops != [] {
      ApplyInv(tb, ops[0], allowed);
      RunInv(Apply(tb, ops[0], allowed), ops[1..], allowed);
    }
  }

  // ------------------------------------------------------------------ the objects

  /** A write transaction: a working copy of the tables. */
  class Tx {
    var work: Tables

    constructor (committed: Tables)
      ensures work == committed
    {
      work := committed;
    }
  }

  class Manager {
    var tables: Tables
    const allowed: string -> bool

    constructor (allowed: string -> bool)
      ensures this.allowed == allowed && tables == Tables(map[], map[]) && Inv(tables)
    {
      this.allowed := allowed;
      tables := Tables(map[], map[]);
    }

    method ListLen(datfile: string) returns (l: nat)
      ensures l == |NodesOf(tables, datfile)|
    {
      l := |NodesOf(tables, datfile)|;
    }

    method AppendToTableTX(tx: Tx, datfile: string, n: Option<string>)
      modifies tx
      ensures tx.work == Append(tables, old(tx.work), datfile, n, allowed)
    {
      var l := ListLen(datfile);
      var appendable := ((datfile != "" && l < SHARE_NODES) || (datfile == "" && l < DEFAULT_NODES))
        && n.Some? && allowed(n.value) && !HasVal(tables.lookupT, datfile, n.value);
      if !appendable {
        return;
      }
      var t := PutMap(tx.work.lookupT, datfile, n.value);
      if t.Some? {
        tx.work := tx.work.(lookupT := t.value);
      }
      var a := PutMap(tx.work.lookupA, n.value, datfile);
      if a.Some? {
        tx.work := tx.work.(lookupA := a.value);
      }
    }

    method AppendToTable(datfile: string, n: Option<string>)
      modifies this
      ensures tables == Apply(old(tables), AppendOp([datfile], n), allowed)
    {
      var tx := new Tx(tables);
      AppendToTableTX(tx, datfile, n);
      assert AppendAll(tables, tx.work, [datfile][1..], n, allowed) == tx.work;
      tables := tx.work;
    }

    /** The appends of recentlist.get: one node, the threads of the tagged lines, one transaction. */
    method AppendFromRecent(datfiles: seq<string>, n: Option<string>)
      modifies this
      ensures tables == Apply(old(tables), AppendOp(datfiles, n), allowed)
    {
      var tx := new Tx(tables);
      for i := 0 to |datfiles|
        invariant tables == old(tables)
        invariant AppendAll(tables, tables, datfiles, n, allowed)
          == AppendAll(tables, tx.work, datfiles[i..], n, allowed)
      {
        AppendToTableTX(tx, datfiles[i], n);
        assert datfiles[i..][1..] == datfiles[i + 1..];
      }
      tables := tx.work;
    }

    method RemoveFromTable(datfile: string, n: Option<string>) returns (ok: bool)
      modifies this
      ensures tables == Apply(old(tables), RemoveOp(datfile, n), allowed)
      ensures ok <==> Remove(old(tables), datfile, n).Some?
    {
      if n.None? || !HasVal(tables.lookupT, datfile, n.value) {
        return false;
      }
      var t := DelMap(tables.lookupT, datfile, n.value);
      var a := DelMap(tables.lookupA, n.value, datfile);
      if t.None? || a.None? {
        return false;
      }
      tables := Tables(t.value, a.value);
      return true;
    }

    /** RemoveFromAllTable: an error in the loop drops the transaction. */
    method RemoveFromAllTable(n: string) returns (ok: bool)
      modifies this
      ensures tables == Apply(old(tables), RemoveAllOp(n), allowed)
      ensures ok <==> RemoveAll(old(tables), n).Some?
    {
      if n !in tables.lookupA {
        return false;
      }
      var threads := tables.lookupA[n];
      var tx := new Tx(tables);
      tx.work := tx.work.(lookupA := tx.work.lookupA - {n});
      var rest := threads;
      ghost var done: set<string> := {};
      while rest != {}
        invariant tables == old(tables)
        invariant done == threads - rest && rest <= threads && done <= tables.lookupT.Keys
        invariant tx.work == Tables(Without(tables.lookupT, done, n), tables.lookupA - {n})
      {
        var t :| t in rest;
        WithoutStep(tables.lookupT, done, t, n);
        var d := DelMap(tx.work.lookupT, t, n);
        if d.None? {
          return false;
        }
        tx.work := tx.work.(lookupT := d.value);
        rest, done := rest - {t}, done + {t};
      }
      assert done == threads;
      tables := tx.work;
      return true;
    }

    /** ReplaceNodeInList: a full list gives up one node, any one, before the new one is appended. */
    method ReplaceNodeInList(n: string) returns (removed: Option<string>)
      modifies this
      ensures !allowed(n) || n in old(NodesOf(tables, LIST)) ==> removed.None? && tables == old(tables)
      ensures allowed(n) && n !in old(NodesOf(tables, LIST)) ==>
        && (removed.Some? <==> |old(NodesOf(tables, LIST))| >= 100)
        && (removed.Some? ==> removed.value in old(NodesOf(tables, LIST)))
        && tables == Replaced(old(tables), n, removed, allowed)
    {
      var l := ListLen(LIST);
      if !allowed(n) || HasVal(tables.lookupT, LIST, n) {
        return None;
      }
      removed := None;
      if l >= DEFAULT_NODES {
        var picked :| picked in NodesOf(tables, LIST);
        removed := Some(picked);
        var ok := RemoveFromTable(LIST, removed);
      }
      AppendToTable(LIST, Some(n));
    }
  }

  /** A removal, even one that fails, and an append. */
  function Replaced(tb: Tables, n: string, removed: Option<string>, allowed: string -> bool): Tables {
    var mid := if removed.Some? then Apply(tb, RemoveOp(LIST, removed), allowed) else tb;
    Apply(mid, AppendOp([LIST], Some(n)), allowed)
  }

  /**
   From inverse tables within the bound a full list swaps one node for the new one, any other list just
   gains it, and no other thread changes; the tables stay inverse if the new node is a name.
   */
  lemma ReplaceEffect(tb: Tables, n: string, removed: Option<string>, allowed: string -> bool)
    requires Inv(tb) && allowed(n) && n !in NodesOf(tb, [1 as char])
    requires removed.Some? <==> |NodesOf(tb, [1 as char])| >= 100
    requires removed.Some? ==> removed.value in NodesOf(tb, [1 as char])
    ensures var after := Replaced(tb, n, removed, allowed);
      && Bounded(after) && (IsName(n) ==> Inv(after))
      && NodesOf(after, [1 as char])
        == (NodesOf(tb, [1 as char]) - (if removed.Some? then {removed.value} else {})) + {ViaJson(n)}
      && forall t :: t != [1 as char] ==> NodesOf(after, t) == NodesOf(tb, t)
  {
    var mid := if removed.Some? then Apply(tb, RemoveOp(LIST, removed), allowed) else tb;
    if removed.Some? {
      RemoveEffect(tb, LIST, removed);
      NodesAfterRemove(tb, mid, LIST, removed.value);
    }
    AppendToList(mid, n, allowed);
  }

  lemma AppendToList(tb: Tables, n: string, allowed: string -> bool)
    requires Inv(tb) && Appendable(tb, LIST, Some(n), allowed)
    ensures var after := Apply(tb, AppendOp([LIST], Some(n)), allowed);
      && Bounded(after) && (IsName(n) ==> Inv(after))
      && forall t :: NodesOf(after, t) == if t == LIST then NodesOf(tb, t) + {ViaJson(n)} else NodesOf(tb, t)
  {
    AsciiIsUtf8(LIST);
    ApplyBounded(tb, AppendOp([LIST], Some(n)), allowed);
    if IsName(n) { ApplyInv(tb, AppendOp([LIST], Some(n)), allowed); }
    NodesAfterAppend(tb, LIST, n, allowed);
  }

  /** A node whose name is the byte FF is appended to one table as itself and to the other as U+FFFD. */
  lemma ByteFFBreaks(datfile: string, allowed: string -> bool)
    requires IsName(datfile) && allowed(FF)
    ensures var tb := Tables(map[], map[]); var after := Append(tb, tb, datfile, Some(FF), allowed);
      Inv(tb) && !Inverse(after.lookupT, after.lookupA)
  {
    var tb := Tables(map[], map[]);
    ByteFF();
    AppendInverseExactly(tb, tb, datfile, FF, allowed);
  }

  lemma NodesAfterRemove(tb: Tables, after: Tables, datfile: string, n: string)
    requires Inv(tb) && n in NodesOf(tb, datfile)
    requires Remove(tb, datfile, Some(n)) == Some(after)
    ensures forall t :: NodesOf(after, t) == if t == datfile then NodesOf(tb, t) - {n} else NodesOf(tb, t)
  {
    RemoveEffect(tb, datfile, Some(n));
    forall t ensures NodesOf(after, t) == if t == datfile then NodesOf(tb, t) - {n} else NodesOf(tb, t) {
      var goal := if t == datfile then NodesOf(tb, t) - {n} else NodesOf(tb, t);
      forall a ensures a in NodesOf(after, t) <==> a in goal {
        assert HasVal(after.lookupT, t, a) <==> HasVal(tb.lookupT, t, a) && !(t == datfile && a == n);
      }
    }
  }

  lemma NodesAfterAppend(tb: Tables, datfile: string, n: string, allowed: string -> bool)
    requires Appendable(tb, datfile, Some(n), allowed) && datfile != ""
    ensures var after := Apply(tb, AppendOp([datfile], Some(n)), allowed);
      forall t :: NodesOf(after, t) == if t == datfile then NodesOf(tb, t) + {ViaJson(n)} else NodesOf(tb, t)
  {
    assert AppendAll(tb, Append(tb, tb, datfile, Some(n), allowed), [datfile][1..], Some(n), allowed)
        == Append(tb, tb, datfile, Some(n), allowed);
  }
}
