/** The transaction interpreter as the program runs it: one flat list of condition
    outcomes is computed first, then consumed by slicing in four places. Each of
    them is proved to hand every nested transaction its own sub-list. */
module TxnApply {
  import opened Bytes
  import opened KV
  import opened TxnSpec

  /** A write transaction of the store. */
  class TxnWriter {
    const base: View
    const readonly: bool
    var kvs: KVs
    var changes: nat

    function State(): Writer
      reads this
    {
      Writer(base, readonly, kvs, changes)
    }

    constructor (v: View, readonly: bool)
      ensures State() == Begin(v, readonly)
    {
      this.base, this.readonly, kvs, changes := v, readonly, v.kvs, 0;
    }

    method Range(r: RangeReq) returns (ok: bool, resp: RangeResp)
      ensures match DoRange(State(), r) case Ok(_, x) => ok && resp == x case Panicked => !ok
    {
      var cur := if changes > 0 then base.rev + 1 else base.rev;
      resp := RangeResp(cur, map[]);
      if r.revision > cur {
        return false, resp;
      }
      var rev := r.revision;
      if rev <= 0 {
        rev := cur;
      }
      if rev < base.firstRev {
        return false, resp;
      }
      var seen: KVs := map[];
      if rev == cur {
        seen := kvs;
      } else if rev == base.rev {
        seen := base.kvs;
      } else if rev in base.past {
        seen := base.past[rev];
      }
      return true, RangeResp(cur, Select(seen, r.key, MkGteRange(r.rangeEnd)));
    }

    method Put(p: PutReq) returns (ok: bool, resp: PutResp)
      modifies this
      ensures match DoPut(old(State()), p) case Ok(w, x) => ok && State() == w && resp == x case Panicked => !ok
    {
      resp := PutResp(base.rev + 1, None);
      var val, leaseID := p.value, p.lease;
      if readonly {
        return false, resp;
      }
      if p.ignoreValue || p.ignoreLease {
        if p.key !in kvs {
          return false, resp;
        }
      }
      if p.ignoreValue {
        val := kvs[p.key].value;
      }
      if p.ignoreLease {
        leaseID := kvs[p.key].lease;
      }
      if p.prevKv && p.key in kvs {
        resp := resp.(prev := Some(kvs[p.key]));
      }
      var rev := base.rev + 1;
      var created, ver := rev, 0;
      if p.key in kvs {
        created, ver := kvs[p.key].createRev, kvs[p.key].version;
      }
      ver := ver + 1;
      kvs := kvs[p.key := KeyValue(p.key, val, created, rev, ver, leaseID)];
      changes := changes + 1;
      return true, resp;
    }

    method DeleteRange(d: DeleteReq) returns (ok: bool, resp: DeleteResp)
      modifies this
      ensures match DoDelete(old(State()), d) case Ok(w, x) => ok && State() == w && resp == x case Panicked => !ok
    {
      resp := DeleteResp(base.rev, 0, None);
      if readonly {
        return false, resp;
      }
      var sel := Select(kvs, d.key, MkGteRange(d.rangeEnd));
      if d.prevKv {
        resp := resp.(prev := Some(sel));
      }
      kvs := kvs - sel.Keys;
      changes := changes + |sel|;
      var rev := if |sel| != 0 || changes > 0 then base.rev + 1 else base.rev;
      return true, resp.(deleted := |sel|, rev := rev);
    }
  }

  method CompareToPath(v: View, t: Txn) returns (path: seq<bool>)
    ensures path == PathOf(v, t)
    decreases t
  {
    var ok := ApplyCompares(v, t.compare);
    path := [ok];
    var ops := if ok then t.success else t.failure;
    for i := 0 to |ops|
      invariant path == [ok] + PathOfAll(v, ops[..i])
    {
      PathSegment(v, ops, i);
      if !ops[i].RequestTxn? {
        continue;
      }
      var nested := CompareToPath(v, ops[i].txn);
      path := path + nested;
    }
    assert ops[..|ops|] == ops;
  }

  /** `here` elements of the path are consumed once the first `i` requests are
      done. */
  ghost predicate Consumed(v: View, t: Txn, i: nat, here: nat) {
    i <= |Chosen(v, t)| && here == |PathOfAll(v, Chosen(v, t)[..i])|
  }

  /** The rest of the path after `i` requests starts with the sub-list of request
      `i`, whatever follows the whole path. */
  lemma NestedPath(v: View, t: Txn, path: seq<bool>, i: nat, here: nat)
    requires PathOf(v, t) <= path && i < |Chosen(v, t)| && Consumed(v, t, i, here)
    ensures here < |path| && path[here..][1..] == path[here + 1..]
    ensures PathOfOne(v, Chosen(v, t)[i]) <= path[here + 1..]
    ensures var next := here + |PathOfOne(v, Chosen(v, t)[i])|;
            Consumed(v, t, i + 1, next) && next < |path| && path[here..][next - here..] == path[next..]
  {
    var reqs := Chosen(v, t);
    PathSegment(v, reqs, i);
    assert PathOf(v, t) == [ComparesHold(v, t.compare)] + PathOfAll(v, reqs);
    Middle(path, ComparesHold(v, t.compare), PathOfAll(v, reqs), PathOfAll(v, reqs[..i]), PathOfOne(v, reqs[i]));
  }

  lemma Middle(path: seq<bool>, first: bool, all: seq<bool>, before: seq<bool>, here: seq<bool>)
    requires [first] + all <= path && before + here <= all
    ensures |before| + |here| < |path| && path[|before|..][1..] == path[|before| + 1..] && here <= path[|before| + 1..]
    ensures path[|before|..][|here|..] == path[|before| + |here|..]
  {
    var n := |before|;
    assert path[n..][1..] == path[n + 1..];
    forall k | 0 <= k < |here| ensures here[k] == path[n + 1 + k] {
      assert here[k] == (before + here)[n + k] == all[n + k] == ([first] + all)[n + 1 + k];
    }
  }

  lemma AllConsumed(v: View, t: Txn, here: nat)
    requires Consumed(v, t, |Chosen(v, t)|, here)
    ensures here == |PathOf(v, t)| - 1
  {
    assert Chosen(v, t)[..|Chosen(v, t)|] == Chosen(v, t);
  }

  /** The blank slot of one request; a nested transaction consumes its share of the
      path. `rest` is still headed by the last element consumed. */
  method NewSlot(req: Request, rest: seq<bool>, ghost v: View) returns (slot: ResponseOp, consumed: nat)
    requires |rest| > 0 && PathOfOne(v, req) <= rest[1..]
    ensures slot == BlankOne(v, req) && consumed == |PathOfOne(v, req)|
    decreases req, 0
  {
    consumed := 0;
    match req {
      case RequestRange(_) => slot := ResponseRange(None);
      case RequestPut(_) => slot := ResponsePut(None);
      case RequestDeleteRange(_) => slot := ResponseDeleteRange(None);
      case RequestTxn(nested) =>
        var resp, txns := NewTxnResp(nested, rest[1..], v);
        slot, consumed := ResponseTxn(resp), txns + 1;
      case NoRequest => slot := NilSlot;
    }
  }

  method NewTxnResp(t: Txn, path: seq<bool>, ghost v: View) returns (resp: TxnResp, txnCount: nat)
    requires PathOf(v, t) <= path
    ensures resp == BlankTxn(v, t) && txnCount == |PathOf(v, t)| - 1
    decreases t, 1
  {
    var reqs := if !path[0] then t.failure else t.success;
    var resps, txnPath := [], path;
    txnCount := 0;
    for i := 0 to |reqs|
      invariant resps == BlankedTo(v, t, i)
      invariant Consumed(v, t, i, txnCount) && txnCount < |path|
      invariant txnPath == path[txnCount..]
    {
      NestedPath(v, t, path, i, txnCount);
      BlankNext(v, t, i);
      var slot, consumed := NewSlot(reqs[i], txnPath, v);
      resps := resps + [slot];
      txnPath := txnPath[consumed..];
      txnCount := txnCount + consumed;
    }
    AllConsumed(v, t, txnCount);
    AllBlanked(v, t);
    resp := TxnResp(path[0], resps);
  }

  /** The slots of the first `i` requests of the chosen branch. */
  function BlankedTo(v: View, t: Txn, i: nat): seq<ResponseOp>
    requires i <= |Chosen(v, t)|
  {
    BlankAll(v, Chosen(v, t)[..i])
  }

  lemma BlankNext(v: View, t: Txn, i: nat)
    requires i < |Chosen(v, t)|
    ensures BlankedTo(v, t, i + 1) == BlankedTo(v, t, i) + [BlankOne(v, Chosen(v, t)[i])]
  {
    var reqs := Chosen(v, t);
    assert reqs[..i + 1][..i] == reqs[..i];
  }

  lemma AllBlanked(v: View, t: Txn)
    ensures BlankTxn(v, t) == TxnResp(ComparesHold(v, t.compare), BlankedTo(v, t, |Chosen(v, t)|))
  {
    assert Chosen(v, t)[..|Chosen(v, t)|] == Chosen(v, t);
  }

  /** Check one request; a nested transaction is checked along its share of the path. */
  method CheckOne(v: View, req: Request, rest: seq<bool>, check: Check) returns (consumed: nat, err: Option<Error>)
    requires |rest| > 0 && PathOfOne(v, req) <= rest[1..]
    ensures err == FirstError(v, check, LeavesOfOne(v, req))
    ensures err.None? ==> consumed == |PathOfOne(v, req)|
    decreases req, 0
  {
    if req.RequestTxn? {
      consumed, err := CheckRequests(v, req.txn, rest[1..], check);
      return consumed + 1, err;
    }
    LeavesSegment(v, check, [req], 0);
    return 0, CheckRequest(v, check, req);
  }

  /** The same for request `i` of a chosen branch, `count` elements of whose path are
      consumed. */
  method CheckNext(v: View, t: Txn, req: Request, rest: seq<bool>, check: Check, ghost path: seq<bool>, ghost i: nat, ghost count: nat)
    returns (consumed: nat, err: Option<Error>)
    requires PathOf(v, t) <= path && i < |Chosen(v, t)| && req == Chosen(v, t)[i]
    requires CheckedTo(v, check, t, i) && Consumed(v, t, i, count) && count < |path| && rest == path[count..]
    ensures err.None? ==> CheckedTo(v, check, t, i + 1) && Consumed(v, t, i + 1, count + consumed) && count + consumed < |path|
    ensures err.Some? ==> err == FirstError(v, check, Leaves(v, t))
    decreases t, 0
  {
    NestedPath(v, t, path, i, count);
    CheckedNext(v, check, t, i);
    consumed, err := CheckOne(v, req, rest, check);
  }

  method CheckRequests(v: View, t: Txn, path: seq<bool>, check: Check) returns (count: nat, err: Option<Error>)
    requires PathOf(v, t) <= path
    ensures err == FirstError(v, check, Leaves(v, t))
    ensures err.None? ==> count == |PathOf(v, t)| - 1
    decreases t, 1
  {
    var reqs := if !path[0] then t.failure else t.success;
    var txnPath := path;
    count := 0;
    for i := 0 to |reqs|
      invariant CheckedTo(v, check, t, i)
      invariant Consumed(v, t, i, count) && count < |path|
      invariant txnPath == path[count..]
    {
      var consumed;
      consumed, err := CheckNext(v, t, reqs[i], txnPath, check, path, i, count);
      if err.Some? {
        return 0, err;
      }
      count := count + consumed;
      txnPath := txnPath[consumed..];
    }
    AllConsumed(v, t, count);
    AllChecked(v, check, t);
    return count, None;
  }

  /** No error in the first `i` requests of the chosen branch. */
  predicate CheckedTo(v: View, check: Check, t: Txn, i: nat) {
    i <= |Chosen(v, t)| && FirstError(v, check, LeavesOfAll(v, Chosen(v, t)[..i])).None?
  }

  /** While no error is found, the error of the next request is that of the whole. */
  lemma CheckedNext(v: View, check: Check, t: Txn, i: nat)
    requires i < |Chosen(v, t)| && CheckedTo(v, check, t, i)
    ensures var here := FirstError(v, check, LeavesOfOne(v, Chosen(v, t)[i]));
            if here.None? then CheckedTo(v, check, t, i + 1) else FirstError(v, check, Leaves(v, t)) == here
  {
    LeavesSegment(v, check, Chosen(v, t), i);
  }

  lemma AllChecked(v: View, check: Check, t: Txn)
    requires CheckedTo(v, check, t, |Chosen(v, t)|)
    ensures FirstError(v, check, Leaves(v, t)).None?
  {
    assert Chosen(v, t)[..|Chosen(v, t)|] == Chosen(v, t);
  }

  lemma {:induction false} LeavesSegment(v: View, check: Check, reqs: seq<Request>, i: nat)
    requires i < |reqs|
    ensures var before, here := FirstError(v, check, LeavesOfAll(v, reqs[..i])), FirstError(v, check, LeavesOfOne(v, reqs[i]));
            && FirstError(v, check, LeavesOfAll(v, reqs[..i + 1])) == (if before.Some? then before else here)
            && (before.Some? ==> FirstError(v, check, LeavesOfAll(v, reqs)) == before)
            && (before.None? && here.Some? ==> FirstError(v, check, LeavesOfAll(v, reqs)) == here)
            && (!reqs[i].RequestTxn? ==> here == CheckRequest(v, check, reqs[i]))
    decreases |reqs| - i
  {
    assert reqs[..i + 1][..i] == reqs[..i];
    FirstErrorConcat(v, check, LeavesOfAll(v, reqs[..i]), LeavesOfOne(v, reqs[i]));
    if i < |reqs| - 1 {
      LeavesSegment(v, check, reqs, i + 1);
    } else {
      assert reqs[..i + 1] == reqs;
    }
  }

  lemma {:induction false} PanicSpreads(v: View, reqs: seq<Request>, w: Writer, i: nat)
    requires i <= |reqs| && InterpretAll(v, reqs[..i], w).Panicked?
    ensures InterpretAll(v, reqs, w).Panicked?
    decreases |reqs| - i
  {
    if i < |reqs| {
      assert reqs[..i + 1][..i] == reqs[..i];
      PanicSpreads(v, reqs, w, i + 1);
    } else {
      assert reqs[..i] == reqs;
    }
  }

  /** The first `i` requests of the chosen branch ran, up to state `w` and responses `done`. */
  predicate RanTo(v: View, t: Txn, w0: Writer, i: nat, w: Writer, done: seq<ResponseOp>) {
    i <= |Chosen(v, t)| && InterpretAll(v, Chosen(v, t)[..i], w0) == Ok(w, done)
  }

  lemma InterpretNext(v: View, t: Txn, w0: Writer, i: nat, w: Writer, done: seq<ResponseOp>)
    requires i < |Chosen(v, t)| && RanTo(v, t, w0, i, w, done)
    ensures match InterpretOne(v, Chosen(v, t)[i], w)
            case Ok(w', slot) => RanTo(v, t, w0, i + 1, w', done + [slot])
            case Panicked => Interpret(v, t, w0).Panicked?
  {
    var reqs := Chosen(v, t);
    assert reqs[..i + 1][..i] == reqs[..i];
    if InterpretOne(v, reqs[i], w).Panicked? {
      PanicSpreads(v, reqs, w0, i + 1);
    }
  }

  lemma InterpretDone(v: View, t: Txn, w0: Writer, w: Writer, done: seq<ResponseOp>)
    requires RanTo(v, t, w0, |Chosen(v, t)|, w, done)
    ensures Interpret(v, t, w0) == Ok(w, TxnResp(ComparesHold(v, t.compare), done))
  {
    assert Chosen(v, t)[..|Chosen(v, t)|] == Chosen(v, t);
  }

  /** Execute one request of a transaction into its slot. `rest` is what is left of
      the path, still headed by the last element consumed. */
  method ApplyOne(txn: TxnWriter, req: Request, rest: seq<bool>, slot: ResponseOp, ghost v: View)
    returns (ok: bool, consumed: nat, filled: ResponseOp)
    requires |rest| > 0 && PathOfOne(v, req) <= rest[1..] && slot == BlankOne(v, req)
    modifies txn
    ensures match InterpretOne(v, req, old(txn.State()))
            case Ok(w, s) => ok && txn.State() == w && filled == s && consumed == |PathOfOne(v, req)|
            case Panicked => !ok
    decreases req, 0
  {
    consumed, filled := 0, slot;
    match req {
      case RequestRange(r) =>
        var resp;
        ok, resp := txn.Range(r);
        assert slot.ResponseRange?;
        filled := ResponseRange(Some(resp));
      case RequestPut(p) =>
        var resp;
        ok, resp := txn.Put(p);
        assert slot.ResponsePut?;
        filled := ResponsePut(Some(resp));
      case RequestDeleteRange(d) =>
        var resp;
        ok, resp := txn.DeleteRange(d);
        assert slot.ResponseDeleteRange?;
        filled := ResponseDeleteRange(Some(resp));
      case RequestTxn(nested) =>
        assert slot.ResponseTxn?;
        var applyTxns, resp, panicked := ApplyTxn(txn, nested, rest[1..], slot.txn, v);
        ok, consumed, filled := !panicked, applyTxns + 1, ResponseTxn(resp);
      case NoRequest =>
        // The slot is nil and is dereferenced before the request is looked at.
        assert slot.NilSlot?;
        ok := false;
    }
  }

  /** Execution along the flat path equals the recursive interpreter: same state,
      same responses, a panic exactly when it panics, and every slot filled has the
      type it was allocated with. */
  method ApplyTxn(txn: TxnWriter, t: Txn, path: seq<bool>, tresp: TxnResp, ghost v: View)
    returns (txns: nat, filled: TxnResp, panicked: bool)
    requires PathOf(v, t) <= path && tresp == BlankTxn(v, t)
    modifies txn
    ensures match Interpret(v, t, old(txn.State()))
            case Ok(w, resp) => !panicked && txn.State() == w && filled == resp && txns == |PathOf(v, t)| - 1
            case Panicked => panicked
    decreases t, 1
  {
    var reqs := if !path[0] then t.failure else t.success;
    ghost var w0 := txn.State();
    var txnPath, slots, done := path, tresp.responses, [];
    txns := 0;
    filled := tresp;
    for i := 0 to |reqs|
      invariant RanTo(v, t, w0, i, txn.State(), done)
      invariant Consumed(v, t, i, txns) && txns < |path|
      invariant txnPath == path[txns..]
    {
      NestedPath(v, t, path, i, txns);
      BlankSlot(v, reqs, i);
      InterpretNext(v, t, w0, i, txn.State(), done);
      var ok, consumed, slot := ApplyOne(txn, reqs[i], txnPath, slots[i], v);
      if !ok {
        return txns, filled, true;
      }
      done := done + [slot];
      txns := txns + consumed;
      txnPath := txnPath[consumed..];
    }
    AllConsumed(v, t, txns);
    InterpretDone(v, t, w0, txn.State(), done);
    return txns, tresp.(responses := done), false;
  }
}
