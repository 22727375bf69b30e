/** Transactions in the replicated log: when members, or one member before and after a
    crash, part because a client waited for one execution only. */
module TxnReplay {
  import opened KV
  import opened TxnSpec
  import opened TxnLaws
  import opened ApplyOnce

  /** A member's key-value state; it is down once a transaction panicked. */
  datatype Member = Up(view: View) | Down

  function ExecTxn(leases: set<int>, s: Member, t: Txn): Member {
    if s.Down? then Down
    else
      var v := s.view;
      match FinalState(v, Execute(v, leases, t))
      case None => Down
      case Some((kvs, rev)) =>
        if kvs == v.kvs && rev == v.rev then s else Up(View(v.firstRev, rev, kvs, v.past[v.rev := v.kvs]))
  }

  function TxnMachine(leases: set<int>): Machine<Member, Txn> {
    Machine((s: Member, t: Txn) => ExecTxn(leases, s, t), (t: Txn) => DropRanges(t))
  }

  /** The revision never goes back. */
  lemma ExecKeepsView(leases: set<int>, v: View, t: Txn)
    requires ValidView(v)
    ensures ExecTxn(leases, Up(v), t).Up? ==> ValidView(ExecTxn(leases, Up(v), t).view)
  {
    if IsTxnReadonly(t) {
      ReadonlyKeepsState(v, leases, t);
    } else {
      ExecuteWriting(v, leases, t);
      if RunLeaves(Leaves(v, t), KV.Begin(v, false)).Some? {
        RunKeeps(v, Leaves(v, t));
      }
    }
  }

  /** It makes no difference to a transaction whether a client waits if and only if
      dropping its ranges is harmless. */
  lemma TxnIndifferent(leases: set<int>, v: View, t: Txn)
    requires ValidView(v)
    ensures Indifferent(TxnMachine(leases), Up(v), V3Request(t, true)) <==> DropIsHarmless(v, leases, t)
  {
    DropRangesAgrees(v, leases, t);
  }

  /** No transaction is without side effect, even one that only reads. */
  predicate TxnLog(log: seq<Entry<Txn>>) {
    forall i :: 0 <= i < |log| && log[i].payload.V3Request? ==> log[i].payload.sideEffect
  }

  lemma {:induction false} AfterIsValid(leases: set<int>, v: View, log: seq<Entry<Txn>>, waited: seq<bool>, n: nat)
    requires ValidView(v) && TxnLog(log) && n <= |log| && n <= |waited|
    ensures var s := After(TxnMachine(leases), Up(v), log, waited, n); s.Up? ==> ValidView(s.view)
  {
    if n > 0 {
      AfterIsValid(leases, v, log, waited, n - 1);
      var s, p := After(TxnMachine(leases), Up(v), log, waited, n - 1), log[n - 1].payload;
      if s.Up? && p.V3Request? {
        ExecKeepsView(leases, s.view, p.req);
        ExecKeepsView(leases, s.view, DropRanges(p.req));
      }
    }
  }

  /** Dropping the ranges of entry `i` is harmless in the state it meets. */
  predicate HarmlessAt(leases: set<int>, v: View, log: seq<Entry<Txn>>, waited: seq<bool>, i: nat)
    requires i < |log| && i < |waited|
  {
    var s := After(TxnMachine(leases), Up(v), log, waited, i);
    log[i].payload.V3Request? && s.Up? ==> DropIsHarmless(s.view, leases, log[i].payload.req)
  }

  /** Two executions of a log of transactions, with clients waiting here or there, go
      through the same states if and only if, wherever a client waited in one of them only,
      the transaction's range checks pass in the state it met, or another check stops it
      either way, or it would not have written. */
  lemma TxnExecutionsAgree(leases: set<int>, v: View, log: seq<Entry<Txn>>, a: seq<bool>, b: seq<bool>, n: nat)
    requires ValidView(v) && TxnLog(log) && n <= |log| && n <= |a| && n <= |b|
    ensures SameStates(TxnMachine(leases), Up(v), log, a, b, n) <==>
            forall i: nat :: i < n && a[i] != b[i] ==> HarmlessAt(leases, v, log, a, i)
  {
    var m := TxnMachine(leases);
    ExecutionsAgree(m, Up(v), log, a, b, n);
    forall i: nat | i < n
      ensures Indifferent(m, After(m, Up(v), log, a, i), log[i].payload) <==> HarmlessAt(leases, v, log, a, i)
    {
      AfterIsValid(leases, v, log, a, i);
      var s, p := After(m, Up(v), log, a, i), log[i].payload;
      if s.Up? && p.V3Request? {
        TxnIndifferent(leases, s.view, p.req);
      }
    }
  }

  /** A store on which nothing has been written. */
  const FRESH := View(-1, 1, map[], map[])

  /** A run in which a crash changes the state: a client waits for a transaction of a read
      at a future revision beside a put, and is told that it is rejected. The member dies,
      starts again and replays the entry; nobody waits, the read is dropped, and the put is
      done. */
  method ReplayDoesRejected() returns (before: Member, after: Member)
    ensures before == Up(FRESH) && after.Up? && after.view.rev == FRESH.rev + 1
  {
    var t := Txn([], MIXED, []);
    DropRangesCanDiverge(FRESH);
    before, after := ExecutedTwice(TxnMachine({}), Up(FRESH), t);
  }
}
