/** When a checked transaction can still panic, what read-only transactions do, and
    when dropping reads nobody waits for is invisible. */
module TxnLaws {
  import opened Bytes
  import opened KV
  import opened TxnSpec
  import opened TxnApply

  // ---------- A transaction is its leaves ----------

  /** Run requests one after the other; None is a panic. */
  function RunLeaves(reqs: seq<Request>, w: Writer): Option<Writer>
    requires forall r :: r in reqs ==> !r.RequestTxn?
  {
    if |reqs| == 0 then Some(w)
    else
      var before := RunLeaves(reqs[..|reqs| - 1], w);
      if before.None? then None
      else match DoLeaf(before.value, reqs[|reqs| - 1]) case Ok(w', _) => Some(w') case Panicked => None
  }

  lemma {:induction false} RunConcat(a: seq<Request>, b: seq<Request>, w: Writer)
    requires forall r :: r in a + b ==> !r.RequestTxn?
    requires forall r :: r in a ==> !r.RequestTxn?
    requires forall r :: r in b ==> !r.RequestTxn?
    ensures RunLeaves(a + b, w) == if RunLeaves(a, w).None? then None else RunLeaves(b, RunLeaves(a, w).value)
  {
    if |b| == 0 {
      assert a + b == a;
    } else {
      var b' := b[..|b| - 1];
      assert (a + b)[..|a + b| - 1] == a + b';
      RunConcat(a, b', w);
    }
  }

  /** The nested structure only decides which requests run and in which order. */
  lemma {:induction false} InterpretIsLeaves(v: View, t: Txn, w: Writer)
    ensures match Interpret(v, t, w)
            case Ok(w', _) => RunLeaves(Leaves(v, t), w) == Some(w')
            case Panicked => RunLeaves(Leaves(v, t), w) == None
    decreases t, 1
  {
    if ComparesHold(v, t.compare) { InterpretAllIsLeaves(v, t.success, w); } else { InterpretAllIsLeaves(v, t.failure, w); }
  }

  lemma {:induction false} InterpretAllIsLeaves(v: View, reqs: seq<Request>, w: Writer)
    ensures match InterpretAll(v, reqs, w)
            case Ok(w', _) => RunLeaves(LeavesOfAll(v, reqs), w) == Some(w')
            case Panicked => RunLeaves(LeavesOfAll(v, reqs), w) == None
    decreases reqs, 0
  {
    if |reqs| > 0 {
      var n := |reqs| - 1;
      InterpretAllIsLeaves(v, reqs[..n], w);
      RunConcat(LeavesOfAll(v, reqs[..n]), LeavesOfOne(v, reqs[n]), w);
      match InterpretAll(v, reqs[..n], w)
      case Ok(w1, _) => InterpretOneIsLeaves(v, reqs[n], w1);
      case Panicked =>
    }
  }

  lemma {:induction false} InterpretOneIsLeaves(v: View, req: Request, w: Writer)
    ensures match InterpretOne(v, req, w)
            case Ok(w', _) => RunLeaves(LeavesOfOne(v, req), w) == Some(w')
            case Panicked => RunLeaves(LeavesOfOne(v, req), w) == None
    decreases req, 2
  {
    if req.RequestTxn? {
      InterpretIsLeaves(v, req.txn, w);
    } else {
      assert [req][..0] == [];
      assert RunLeaves([], w) == Some(w);
    }
  }

  // ---------- When a checked transaction panics ----------

  /** Whether `k` exists after `reqs`: the last request that puts or deletes it
      decides, else the state before. */
  predicate PresentAfter(v: View, reqs: seq<Request>, k: Key) {
    if |reqs| == 0 then k in v.kvs
    else
      match reqs[|reqs| - 1]
      case RequestPut(p) => p.key == k || PresentAfter(v, reqs[..|reqs| - 1], k)
      case RequestDeleteRange(d) => !Hit(k, d.key, MkGteRange(d.rangeEnd)) && PresentAfter(v, reqs[..|reqs| - 1], k)
      case _ => PresentAfter(v, reqs[..|reqs| - 1], k)
  }

  /** Request `i` is not empty, and if it keeps the old value or lease of a key,
      that key is there at that point. */
  predicate Sound(v: View, reqs: seq<Request>, i: nat)
    requires i < |reqs|
  {
    match reqs[i]
    case RequestPut(p) => p.ignoreValue || p.ignoreLease ==> PresentAfter(v, reqs[..i], p.key)
    case NoRequest => false
    case _ => true
  }

  lemma {:induction false} RunKeeps(v: View, reqs: seq<Request>)
    requires forall r :: r in reqs ==> !r.RequestTxn?
    requires RunLeaves(reqs, Begin(v, false)).Some?
    ensures var w := RunLeaves(reqs, Begin(v, false)).value;
            && w.base == v && !w.readonly
            && (forall k :: k in w.kvs <==> PresentAfter(v, reqs, k))
  {
    if |reqs| > 0 {
      RunKeeps(v, reqs[..|reqs| - 1]);
    }
  }

  /** A range request that passed its check cannot fail later in the transaction. */
  lemma CheckedRangeRuns(v: View, w: Writer, r: RangeReq)
    requires ValidView(v) && w.base == v
    requires CheckRequest(v, CheckRange, RequestRange(r)).None?
    ensures DoRange(w, r).Ok?
  {
  }

  /** After the pre-state checks pass, applying the transaction panics if and only
      if some request on the chosen path is empty or is a put that keeps the value
      or lease of a key which the requests before it have left absent. */
  lemma {:induction false} PanicFree(v: View, reqs: seq<Request>)
    requires ValidView(v) && forall r :: r in reqs ==> !r.RequestTxn?
    requires FirstError(v, CheckRange, reqs).None?
    ensures RunLeaves(reqs, Begin(v, false)).Some? <==> forall i :: 0 <= i < |reqs| ==> Sound(v, reqs, i)
  {
    if |reqs| > 0 {
      var n := |reqs| - 1;
      var before := reqs[..n];
      PanicFree(v, before);
      forall i | 0 <= i < n ensures Sound(v, reqs, i) <==> Sound(v, before, i) {
        assert before[..i] == reqs[..i];
      }
      if RunLeaves(before, Begin(v, false)).Some? {
        LastRuns(v, reqs);
      }
    }
  }

  lemma LastRuns(v: View, reqs: seq<Request>)
    requires ValidView(v) && |reqs| > 0 && forall r :: r in reqs ==> !r.RequestTxn?
    requires CheckRequest(v, CheckRange, reqs[|reqs| - 1]).None?
    requires RunLeaves(reqs[..|reqs| - 1], Begin(v, false)).Some?
    ensures RunLeaves(reqs, Begin(v, false)).Some? <==> Sound(v, reqs, |reqs| - 1)
  {
    var n := |reqs| - 1;
    RunKeeps(v, reqs[..n]);
    if reqs[n].RequestRange? {
      CheckedRangeRuns(v, RunLeaves(reqs[..n], Begin(v, false)).value, reqs[n].range);
    }
  }

  /** `req` deletes the key whose old value or lease the put `kept` keeps. */
  predicate DeletesKept(req: Request, kept: Request) {
    && req.RequestDeleteRange? && kept.RequestPut?
    && (kept.put.ignoreValue || kept.put.ignoreLease)
    && Hit(kept.put.key, req.delete.key, MkGteRange(req.delete.rangeEnd))
  }

  /** The condition stated for one transaction: checks pass, no empty request, and
      no key is deleted that a later value- or lease-keeping put names. */
  lemma CheckedTxnRuns(v: View, leases: set<int>, t: Txn)
    requires ValidView(v)
    requires FirstError(v, CheckPut(leases), Leaves(v, t)).None? && FirstError(v, CheckRange, Leaves(v, t)).None?
    requires forall i :: 0 <= i < |Leaves(v, t)| ==> !Leaves(v, t)[i].NoRequest?
    requires forall i, j :: 0 <= i < j < |Leaves(v, t)| ==> !DeletesKept(Leaves(v, t)[i], Leaves(v, t)[j])
    ensures Interpret(v, t, Begin(v, false)).Ok?
  {
    var reqs := Leaves(v, t);
    FirstErrorNone(v, CheckPut(leases), reqs);
    forall j | 0 <= j < |reqs| ensures Sound(v, reqs, j) {
      if reqs[j].RequestPut? && (reqs[j].put.ignoreValue || reqs[j].put.ignoreLease) {
        assert CheckRequest(v, CheckPut(leases), reqs[j]).None?;
        assert forall i :: 0 <= i < j ==> !DeletesKept(reqs[i], reqs[j]);
        NeverDeleted(v, reqs[..j], reqs[j].put.key);
      }
    }
    PanicFree(v, reqs);
    InterpretIsLeaves(v, t, Begin(v, false));
  }

  lemma {:induction false} NeverDeleted(v: View, reqs: seq<Request>, k: Key)
    requires k in v.kvs
    requires forall i :: 0 <= i < |reqs| && reqs[i].RequestDeleteRange? ==> !Hit(k, reqs[i].delete.key, MkGteRange(reqs[i].delete.rangeEnd))
    ensures PresentAfter(v, reqs, k)
  {
    if |reqs| > 0 {
      NeverDeleted(v, reqs[..|reqs| - 1], k);
    }
  }

  // ---------- Read-only transactions ----------

  predicate IsTxnReadonly(t: Txn) {
    && (forall i :: 0 <= i < |t.success| ==> t.success[i].RequestRange?)
    && (forall i :: 0 <= i < |t.failure| ==> t.failure[i].RequestRange?)
  }

  lemma {:induction false} RangesAreLeaves(v: View, reqs: seq<Request>)
    requires forall i :: 0 <= i < |reqs| ==> reqs[i].RequestRange?
    ensures LeavesOfAll(v, reqs) == reqs
  {
    if |reqs| > 0 {
      var n := |reqs| - 1;
      RangesAreLeaves(v, reqs[..n]);
      assert LeavesOfAll(v, reqs) == LeavesOfAll(v, reqs[..n]) + LeavesOfOne(v, reqs[n]);
      assert LeavesOfOne(v, reqs[n]) == [reqs[n]];
    }
  }

  lemma {:induction false} RangesKeepState(v: View, reqs: seq<Request>, w: Writer)
    requires ValidView(v) && w.base == v
    requires forall i :: 0 <= i < |reqs| ==> reqs[i].RequestRange?
    requires FirstError(v, CheckRange, reqs).None?
    ensures RunLeaves(reqs, w) == Some(w)
  {
    if |reqs| > 0 {
      RangesKeepState(v, reqs[..|reqs| - 1], w);
      CheckedRangeRuns(v, w, reqs[|reqs| - 1].range);
    }
  }

  /** A transaction classed read-only runs on a writer that refuses every write, and
      still never panics once its ranges are checked: it never reaches a write. */
  lemma ReadonlyTxnRuns(v: View, t: Txn)
    requires ValidView(v) && IsTxnReadonly(t)
    requires FirstError(v, CheckRange, Leaves(v, t)).None?
    ensures Interpret(v, t, Begin(v, true)).Ok? && Interpret(v, t, Begin(v, true)).w == Begin(v, true)
  {
    RangesAreLeaves(v, Chosen(v, t));
    RangesKeepState(v, Chosen(v, t), Begin(v, true));
    InterpretIsLeaves(v, t, Begin(v, true));
  }

  // ---------- The whole request ----------

  datatype TxnOutcome =
    | Rejected(err: Error)
    | Committed(resp: TxnResp, rev: int, kvs: KVs)
    | Crashed

  function Execute(v: View, leases: set<int>, t: Txn): TxnOutcome {
    var readonly := IsTxnReadonly(t);
    var put := if readonly then None else FirstError(v, CheckPut(leases), Leaves(v, t));
    var range := FirstError(v, CheckRange, Leaves(v, t));
    if put.Some? then Rejected(put.value)
    else if range.Some? then Rejected(range.value)
    else match Interpret(v, t, Begin(v, readonly))
         case Ok(w, resp) => Committed(resp, w.CurrentRev(), w.kvs)
         case Panicked => Crashed
  }

  method TxnReadonly(t: Txn) returns (readonly: bool)
    ensures readonly == IsTxnReadonly(t)
  {
    for i := 0 to |t.success|
      invariant forall j :: 0 <= j < i ==> t.success[j].RequestRange?
    {
      if !t.success[i].RequestRange? {
        return false;
      }
    }
    for i := 0 to |t.failure|
      invariant forall j :: 0 <= j < i ==> t.failure[j].RequestRange?
    {
      if !t.failure[i].RequestRange? {
        return false;
      }
    }
    return true;
  }

  /** Path first, checks next, allocation, then execution: together they do exactly
      what the recursive interpreter says. */
  method ApplyWholeTxn(v: View, leases: set<int>, t: Txn) returns (outcome: TxnOutcome)
    ensures outcome == Execute(v, leases, t)
  {
    var readonly := TxnReadonly(t);
    var txnPath := CompareToPath(v, t);
    if !readonly {
      var _, err := CheckRequests(v, t, txnPath, CheckPut(leases));
      if err.Some? {
        return Rejected(err.value);
      }
    }
    var _, err := CheckRequests(v, t, txnPath, CheckRange);
    if err.Some? {
      return Rejected(err.value);
    }
    var txnResp, _ := NewTxnResp(t, txnPath, v);
    var txn := new TxnWriter(v, readonly);
    var _, filled, panicked := ApplyTxn(txn, t, txnPath, txnResp, v);
    if panicked {
      return Crashed;
    }
    var rev := txn.base.rev;
    if txn.changes != 0 {
      rev := rev + 1;
    }
    return Committed(filled, rev, txn.kvs);
  }

  // ---------- Dropping reads nobody waits for ----------

  function WithoutRanges(reqs: seq<Request>): seq<Request> {
    if |reqs| == 0 then []
    else
      var before := WithoutRanges(reqs[..|reqs| - 1]);
      if reqs[|reqs| - 1].RequestRange? then before else before + [reqs[|reqs| - 1]]
  }

  function DropRanges(t: Txn): Txn {
    Txn(t.compare, WithoutRanges(t.success), WithoutRanges(t.failure))
  }

  /** The in-place filter over one branch; the first `j` elements are the result. */
  method RemoveNeedlessRangeReqs(ops: array<Request>) returns (j: nat)
    modifies ops
    ensures j <= ops.Length && ops[..j] == WithoutRanges(old(ops[..]))
  {
    j := 0;
    for i := 0 to ops.Length
      invariant j <= i && ops[..j] == WithoutRanges(old(ops[..i]))
      invariant ops[i..] == old(ops[i..])
    {
      assert old(ops[..i + 1])[..i] == old(ops[..i]);
      assert ops[i] == old(ops[i]);
      if ops[i].RequestRange? {
        continue;
      }
      ops[j] := ops[i];
      j := j + 1;
    }
    assert old(ops[..ops.Length]) == old(ops[..]);
  }

  /** Nothing on the path writes: no put, no delete that hits a key, no empty
      request. */
  predicate Quiet(v: View, reqs: seq<Request>) {
    forall i :: 0 <= i < |reqs| ==>
      match reqs[i]
      case RequestPut(_) => false
      case RequestDeleteRange(d) => Select(v.kvs, d.key, MkGteRange(d.rangeEnd)) == map[]
      case NoRequest => false
      case _ => true
  }

  lemma QuietStep(v: View, w: Writer, req: Request)
    requires ValidView(v) && w.base == v && !w.readonly && !req.RequestTxn?
    requires CheckRequest(v, CheckRange, req).None?
    ensures w == Begin(v, false) && Quiet(v, [req]) ==> DoLeaf(w, req).Ok? && DoLeaf(w, req).w == w
    ensures DoLeaf(w, req).Ok? ==> DoLeaf(w, req).w.changes >= w.changes
    ensures w == Begin(v, false) && !Quiet(v, [req]) && DoLeaf(w, req).Ok? ==> DoLeaf(w, req).w.changes > 0
  {
    assert [req][0] == req;
    if req.RequestDeleteRange? {
      var sel := Select(v.kvs, req.delete.key, MkGteRange(req.delete.rangeEnd));
      assert sel != map[] ==> |sel| > 0;
      assert sel == map[] ==> v.kvs - sel.Keys == v.kvs;
    }
    if req.RequestRange? {
      CheckedRangeRuns(v, w, req.range);
    }
  }

  lemma {:induction false} QuietRuns(v: View, reqs: seq<Request>)
    requires ValidView(v) && forall r :: r in reqs ==> !r.RequestTxn?
    requires FirstError(v, CheckRange, reqs).None?
    ensures Quiet(v, reqs) ==> RunLeaves(reqs, Begin(v, false)) == Some(Begin(v, false))
    ensures RunLeaves(reqs, Begin(v, false)).Some? && !Quiet(v, reqs) ==> RunLeaves(reqs, Begin(v, false)).value.changes > 0
  {
    if |reqs| > 0 {
      var n := |reqs| - 1;
      QuietRuns(v, reqs[..n]);
      assert reqs == reqs[..n] + [reqs[n]];
      QuietConcat(v, reqs[..n], [reqs[n]]);
      var run := RunLeaves(reqs[..n], Begin(v, false));
      if run.Some? {
        RunKeeps(v, reqs[..n]);
        QuietStep(v, run.value, reqs[n]);
      }
    }
  }

  lemma {:induction false} DropKeepsLeaves(v: View, reqs: seq<Request>, leases: set<int>)
    ensures FirstError(v, CheckPut(leases), LeavesOfAll(v, WithoutRanges(reqs))) ==
            FirstError(v, CheckPut(leases), LeavesOfAll(v, reqs))
    ensures FirstError(v, CheckRange, LeavesOfAll(v, reqs)).None? ==>
            FirstError(v, CheckRange, LeavesOfAll(v, WithoutRanges(reqs))).None?
    ensures Quiet(v, LeavesOfAll(v, WithoutRanges(reqs))) <==> Quiet(v, LeavesOfAll(v, reqs))
  {
    if |reqs| > 0 {
      var n := |reqs| - 1;
      var rest, one := LeavesOfAll(v, reqs[..n]), LeavesOfOne(v, reqs[n]);
      var rest' := LeavesOfAll(v, WithoutRanges(reqs[..n]));
      DropKeepsLeaves(v, reqs[..n], leases);
      FirstErrorConcat(v, CheckPut(leases), rest, one);
      FirstErrorConcat(v, CheckRange, rest, one);
      FirstErrorConcat(v, CheckPut(leases), rest', one);
      FirstErrorConcat(v, CheckRange, rest', one);
      QuietConcat(v, rest, one);
      QuietConcat(v, rest', one);
      if reqs[n].RequestRange? {
        assert FirstError(v, CheckPut(leases), one).None? by { assert one[..0] == []; }
      } else {
        var kept := WithoutRanges(reqs[..n]) + [reqs[n]];
        assert kept[..|kept| - 1] == WithoutRanges(reqs[..n]);
      }
    }
  }

  lemma QuietConcat(v: View, a: seq<Request>, b: seq<Request>)
    ensures Quiet(v, a + b) <==> Quiet(v, a) && Quiet(v, b)
  {
    if Quiet(v, a + b) {
      assert forall i :: 0 <= i < |a| ==> (a + b)[i] == a[i];
      assert forall i :: 0 <= i < |b| ==> (a + b)[|a| + i] == b[i];
    }
  }

  /** Checked ranges do not matter to the state. */
  lemma {:induction false} DropKeepsRun(v: View, reqs: seq<Request>)
    requires ValidView(v) && FirstError(v, CheckRange, LeavesOfAll(v, reqs)).None?
    ensures RunLeaves(LeavesOfAll(v, WithoutRanges(reqs)), Begin(v, false)) == RunLeaves(LeavesOfAll(v, reqs), Begin(v, false))
  {
    if |reqs| > 0 {
      var n := |reqs| - 1;
      var rest, one := LeavesOfAll(v, reqs[..n]), LeavesOfOne(v, reqs[n]);
      FirstErrorConcat(v, CheckRange, rest, one);
      DropKeepsRun(v, reqs[..n]);
      RunConcat(rest, one, Begin(v, false));
      var run := RunLeaves(rest, Begin(v, false));
      if reqs[n].RequestRange? {
        if run.Some? {
          RunKeeps(v, rest);
          assert one[..0] == [] && FirstError(v, CheckRange, one) == CheckRequest(v, CheckRange, reqs[n]);
          CheckedRangeRuns(v, run.value, reqs[n].range);
        }
      } else {
        var kept := WithoutRanges(reqs[..n]) + [reqs[n]];
        assert kept[..|kept| - 1] == WithoutRanges(reqs[..n]);
        RunConcat(LeavesOfAll(v, WithoutRanges(reqs[..n])), one, Begin(v, false));
      }
    }
  }

  lemma {:induction false} DropKeepsKinds(reqs: seq<Request>)
    ensures forall r :: r in WithoutRanges(reqs) ==> !r.RequestRange?
    ensures WithoutRanges(reqs) == [] <==> forall i :: 0 <= i < |reqs| ==> reqs[i].RequestRange?
  {
    if |reqs| > 0 {
      DropKeepsKinds(reqs[..|reqs| - 1]);
    }
  }

  lemma DropKeepsClass(t: Txn)
    ensures IsTxnReadonly(t) <==> IsTxnReadonly(DropRanges(t))
  {
    DropKeepsKinds(t.success);
    DropKeepsKinds(t.failure);
    var d := DropRanges(t);
    assert d.success != [] ==> d.success[0] in d.success;
    assert d.failure != [] ==> d.failure[0] in d.failure;
  }

  /** The state a member is left in: key-value map and revision, None after a panic. */
  function FinalState(v: View, outcome: TxnOutcome): Option<(KVs, int)> {
    match outcome
    case Rejected(_) => Some((v.kvs, v.rev))
    case Committed(_, rev, kvs) => Some((kvs, rev))
    case Crashed => None
  }

  /** The range checks pass, or some other check stops the transaction with and without
      its top-level range requests, or nothing on the path would have written. */
  predicate DropIsHarmless(v: View, leases: set<int>, t: Txn) {
    || FirstError(v, CheckRange, Leaves(v, t)).None?
    || FirstError(v, CheckRange, Leaves(v, DropRanges(t))).Some?
    || (!IsTxnReadonly(t) && FirstError(v, CheckPut(leases), Leaves(v, t)).Some?)
    || Quiet(v, Leaves(v, t))
  }

  /** One member applies the transaction as proposed, another drops its top-level
      range requests because no client of its waits. They end in the same state if
      and only if that is harmless by the checks and requests of the state before. */
  lemma DropRangesAgrees(v: View, leases: set<int>, t: Txn)
    requires ValidView(v)
    ensures FinalState(v, Execute(v, leases, t)) == FinalState(v, Execute(v, leases, DropRanges(t))) <==>
            DropIsHarmless(v, leases, t)
  {
    var d := DropRanges(t);
    var reqs := Chosen(v, t);
    assert Chosen(v, d) == WithoutRanges(reqs);
    DropKeepsLeaves(v, reqs, leases);
    DropKeepsClass(t);
    if IsTxnReadonly(t) {
      DropReadonly(v, leases, t);
    } else {
      DropWriting(v, leases, t);
    }
  }

  lemma ReadonlyKeepsState(v: View, leases: set<int>, t: Txn)
    requires ValidView(v) && IsTxnReadonly(t)
    ensures FinalState(v, Execute(v, leases, t)) == Some((v.kvs, v.rev))
  {
    if FirstError(v, CheckRange, Leaves(v, t)).None? {
      ReadonlyTxnRuns(v, t);
    }
  }

  lemma DropReadonly(v: View, leases: set<int>, t: Txn)
    requires ValidView(v) && IsTxnReadonly(t) && IsTxnReadonly(DropRanges(t))
    ensures Quiet(v, Leaves(v, t))
    ensures FinalState(v, Execute(v, leases, t)) == FinalState(v, Execute(v, leases, DropRanges(t)))
  {
    RangesAreLeaves(v, Chosen(v, t));
    ReadonlyKeepsState(v, leases, t);
    ReadonlyKeepsState(v, leases, DropRanges(t));
  }

  lemma ExecuteWriting(v: View, leases: set<int>, t: Txn)
    requires !IsTxnReadonly(t)
    ensures var run := RunLeaves(Leaves(v, t), Begin(v, false));
            FinalState(v, Execute(v, leases, t)) ==
            if FirstError(v, CheckPut(leases), Leaves(v, t)).Some? || FirstError(v, CheckRange, Leaves(v, t)).Some?
            then Some((v.kvs, v.rev))
            else if run.None? then None else Some((run.value.kvs, run.value.CurrentRev()))
  {
    InterpretIsLeaves(v, t, Begin(v, false));
  }

  lemma DropWriting(v: View, leases: set<int>, t: Txn)
    requires ValidView(v) && !IsTxnReadonly(t) && !IsTxnReadonly(DropRanges(t))
    ensures FinalState(v, Execute(v, leases, t)) == FinalState(v, Execute(v, leases, DropRanges(t))) <==>
            || FirstError(v, CheckRange, Leaves(v, t)).None?
            || FirstError(v, CheckRange, Leaves(v, DropRanges(t))).Some?
            || FirstError(v, CheckPut(leases), Leaves(v, t)).Some?
            || Quiet(v, Leaves(v, t))
  {
    var reqs := Chosen(v, t);
    DropKeepsLeaves(v, reqs, leases);
    ExecuteWriting(v, leases, t);
    ExecuteWriting(v, leases, DropRanges(t));
    var kept := Leaves(v, DropRanges(t));
    assert kept == LeavesOfAll(v, WithoutRanges(reqs));
    if FirstError(v, CheckRange, Leaves(v, t)).None? {
      DropKeepsRun(v, reqs);
    } else if FirstError(v, CheckRange, kept).None? {
      QuietRuns(v, kept);
      if RunLeaves(kept, Begin(v, false)).Some? {
        RunKeeps(v, kept);
      }
    }
  }

  lemma {:induction false} FlatLeaves(v: View, reqs: seq<Request>)
    requires forall r :: r in reqs ==> !r.RequestTxn?
    ensures LeavesOfAll(v, reqs) == reqs
  {
    if |reqs| > 0 {
      FlatLeaves(v, reqs[..|reqs| - 1]);
    }
  }

  const READ_AHEAD := RequestRange(RangeReq([7], NoEnd, 100))
  const PLAIN_PUT := RequestPut(PutReq([7], [1], NO_LEASE, false, false, false))

  const MIXED := [READ_AHEAD, PLAIN_PUT]

  lemma MixedDropped()
    ensures WithoutRanges(MIXED) == [PLAIN_PUT] && WithoutRanges([]) == []
  {
    assert MIXED[..1] == [READ_AHEAD] && MIXED[..1][..0] == [];
    assert WithoutRanges(MIXED[..1]) == [];
  }

  lemma MixedFails(v: View)
    requires v.rev < 100
    ensures FirstError(v, CheckRange, MIXED).Some? && FirstError(v, CheckPut({}), MIXED).None?
    ensures FirstError(v, CheckRange, [PLAIN_PUT]).None?
  {
    FirstErrorNone(v, CheckRange, MIXED);
    FirstErrorNone(v, CheckRange, [PLAIN_PUT]);
    FirstErrorNone(v, CheckPut({}), MIXED);
    assert CheckRequest(v, CheckRange, MIXED[0]).Some?;
  }

  /** A concrete case: a read at a future revision beside a put. A member whose
      client waits rejects the transaction, any other member commits the put. */
  lemma DropRangesCanDiverge(v: View)
    requires ValidView(v) && v.rev < 100
    ensures var t := Txn([], MIXED, []);
            && FinalState(v, Execute(v, {}, t)) == Some((v.kvs, v.rev))
            && FinalState(v, Execute(v, {}, DropRanges(t))).Some?
            && FinalState(v, Execute(v, {}, DropRanges(t))).value.1 == v.rev + 1
  {
    var t := Txn([], MIXED, []);
    MixedDropped();
    assert Chosen(v, t) == MIXED && Chosen(v, DropRanges(t)) == [PLAIN_PUT];
    FlatLeaves(v, MIXED);
    FlatLeaves(v, [PLAIN_PUT]);
    MixedFails(v);
    assert MIXED[1].RequestPut? && [PLAIN_PUT][0].RequestPut?;
    ExecuteWriting(v, {}, t);
    ExecuteWriting(v, {}, DropRanges(t));
    PlainPutRuns(v);
  }

  lemma PlainPutRuns(v: View)
    requires ValidView(v)
    ensures RunLeaves([PLAIN_PUT], Begin(v, false)).Some? && RunLeaves([PLAIN_PUT], Begin(v, false)).value.CurrentRev() == v.rev + 1
    ensures FirstError(v, CheckPut({}), [PLAIN_PUT]).None?
  {
    assert [PLAIN_PUT][..0] == [];
    assert RunLeaves([], Begin(v, false)) == Some(Begin(v, false));
    FirstErrorNone(v, CheckPut({}), [PLAIN_PUT]);
  }
}
