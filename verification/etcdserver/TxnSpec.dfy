/** What a nested transaction means: a recursive interpreter whose conditions are
    all evaluated on the state before the transaction. */
module TxnSpec {
  import opened Bytes
  import opened KV

  /** The branch of `t` that the pre-state selects. */
  function Chosen(v: View, t: Txn): seq<Request> {
    if ComparesHold(v, t.compare) then t.success else t.failure
  }

  /** The outcomes of all conditions on the chosen path, in preorder. */
  function PathOf(v: View, t: Txn): (path: seq<bool>)
    ensures |path| > 0 && path[0] == ComparesHold(v, t.compare)
    decreases t, 1
  {
    [ComparesHold(v, t.compare)] + if ComparesHold(v, t.compare) then PathOfAll(v, t.success) else PathOfAll(v, t.failure)
  }

  function PathOfAll(v: View, reqs: seq<Request>): seq<bool>
    decreases reqs, 0
  {
    if |reqs| == 0 then []
    else
      PathOfAll(v, reqs[..|reqs| - 1]) + PathOfOne(v, reqs[|reqs| - 1])
  }

  function PathOfOne(v: View, req: Request): seq<bool>
    decreases req, 2
  {
    if req.RequestTxn? then PathOf(v, req.txn) else []
  }

  /** The response as first allocated: every slot typed, none filled. */
  function BlankTxn(v: View, t: Txn): TxnResp
    decreases t, 1
  {
    TxnResp(ComparesHold(v, t.compare),
            if ComparesHold(v, t.compare) then BlankAll(v, t.success) else BlankAll(v, t.failure))
  }

  function BlankAll(v: View, reqs: seq<Request>): (slots: seq<ResponseOp>)
    ensures |slots| == |reqs|
    decreases reqs, 0
  {
    if |reqs| == 0 then []
    else
      BlankAll(v, reqs[..|reqs| - 1]) + [BlankOne(v, reqs[|reqs| - 1])]
  }

  function BlankOne(v: View, req: Request): ResponseOp
    decreases req, 2
  {
    match req
    case RequestRange(_) => ResponseRange(None)
    case RequestPut(_) => ResponsePut(None)
    case RequestDeleteRange(_) => ResponseDeleteRange(None)
    case RequestTxn(t) => ResponseTxn(BlankTxn(v, t))
    case NoRequest => NilSlot
  }

  /** One request that is not a transaction. */
  function DoLeaf(w: Writer, req: Request): OpResult<ResponseOp>
    requires !req.RequestTxn?
  {
    match req
    case RequestRange(r) =>
      (match DoRange(w, r) case Ok(w', resp) => Ok(w', ResponseRange(Some(resp))) case Panicked => Panicked)
    case RequestPut(p) =>
      (match DoPut(w, p) case Ok(w', resp) => Ok(w', ResponsePut(Some(resp))) case Panicked => Panicked)
    case RequestDeleteRange(d) =>
      (match DoDelete(w, d) case Ok(w', resp) => Ok(w', ResponseDeleteRange(Some(resp))) case Panicked => Panicked)
    case NoRequest => Panicked
  }

  /** The recursive interpreter: conditions are read in `v`, effects go to `w`. */
  function Interpret(v: View, t: Txn, w: Writer): OpResult<TxnResp>
    decreases t, 1
  {
    match if ComparesHold(v, t.compare) then InterpretAll(v, t.success, w) else InterpretAll(v, t.failure, w)
    case Ok(w', slots) => Ok(w', TxnResp(ComparesHold(v, t.compare), slots))
    case Panicked => Panicked
  }

  function InterpretAll(v: View, reqs: seq<Request>, w: Writer): (r: OpResult<seq<ResponseOp>>)
    ensures r.Ok? ==> |r.resp| == |reqs|
    decreases reqs, 0
  {
    if |reqs| == 0 then Ok(w, [])
    else
      match InterpretAll(v, reqs[..|reqs| - 1], w)
      case Panicked => Panicked
      case Ok(w1, slots) =>
        match InterpretOne(v, reqs[|reqs| - 1], w1)
        case Ok(w2, slot) => Ok(w2, slots + [slot])
        case Panicked => Panicked
  }

  function InterpretOne(v: View, req: Request, w: Writer): OpResult<ResponseOp>
    decreases req, 2
  {
    if req.RequestTxn? then
      match Interpret(v, req.txn, w)
      case Ok(w', resp) => Ok(w', ResponseTxn(resp))
      case Panicked => Panicked
    else DoLeaf(w, req)
  }

  /** The requests on the chosen path that are not transactions, in order. */
  function Leaves(v: View, t: Txn): (out: seq<Request>)
    ensures forall r :: r in out ==> !r.RequestTxn?
    decreases t, 1
  {
    if ComparesHold(v, t.compare) then LeavesOfAll(v, t.success) else LeavesOfAll(v, t.failure)
  }

  function LeavesOfAll(v: View, reqs: seq<Request>): (out: seq<Request>)
    ensures forall r :: r in out ==> !r.RequestTxn?
    decreases reqs, 0
  {
    if |reqs| == 0 then []
    else
      LeavesOfAll(v, reqs[..|reqs| - 1]) + LeavesOfOne(v, reqs[|reqs| - 1])
  }

  function LeavesOfOne(v: View, req: Request): (out: seq<Request>)
    ensures forall r :: r in out ==> !r.RequestTxn?
    decreases req, 2
  {
    if req.RequestTxn? then Leaves(v, req.txn) else [req]
  }

  // ---------- Checks ----------

  datatype Error = ErrKeyNotFound | ErrLeaseNotFound | ErrFutureRev | ErrCompacted

  datatype Check = CheckPut(leases: set<int>) | CheckRange

  const NO_LEASE := 0

  function CheckRequest(v: View, check: Check, req: Request): Option<Error> {
    match check
    case CheckPut(leases) =>
      if !req.RequestPut? then None
      else if (req.put.ignoreValue || req.put.ignoreLease) && req.put.key !in v.kvs then Some(ErrKeyNotFound)
      else if req.put.lease != NO_LEASE && req.put.lease !in leases then Some(ErrLeaseNotFound)
      else None
    case CheckRange =>
      if !req.RequestRange? || req.range.revision == 0 then None
      else if req.range.revision > v.rev then Some(ErrFutureRev)
      else if req.range.revision < v.firstRev then Some(ErrCompacted)
      else None
  }

  /** The first error along a list of requests. */
  function FirstError(v: View, check: Check, reqs: seq<Request>): Option<Error> {
    if |reqs| == 0 then None
    else
      var before := FirstError(v, check, reqs[..|reqs| - 1]);
      if before.Some? then before else CheckRequest(v, check, reqs[|reqs| - 1])
  }

  lemma {:induction false} FirstErrorConcat(v: View, check: Check, a: seq<Request>, b: seq<Request>)
    ensures FirstError(v, check, a + b) ==
            if FirstError(v, check, a).Some? then FirstError(v, check, a) else FirstError(v, check, b)
  {
    if |b| == 0 {
      assert a + b == a;
    } else {
      FirstErrorConcat(v, check, a, b[..|b| - 1]);
      assert (a + b)[..|a + b| - 1] == a + b[..|b| - 1];
    }
  }

  lemma {:induction false} FirstErrorNone(v: View, check: Check, reqs: seq<Request>)
    ensures FirstError(v, check, reqs).None? <==> forall i :: 0 <= i < |reqs| ==> CheckRequest(v, check, reqs[i]).None?
  {
    if |reqs| > 0 {
      FirstErrorNone(v, check, reqs[..|reqs| - 1]);
    }
  }

  // ---------- Segments of the flat path ----------

  /** The sub-list that belongs to request `i` inside the path of `reqs`. */
  lemma {:induction false} PathSegment(v: View, reqs: seq<Request>, i: nat)
    requires i < |reqs|
    ensures PathOfAll(v, reqs[..i + 1]) == PathOfAll(v, reqs[..i]) + PathOfOne(v, reqs[i])
    ensures PathOfAll(v, reqs[..i + 1]) <= PathOfAll(v, reqs)
    decreases |reqs| - i
  {
    assert reqs[..i + 1][..i] == reqs[..i];
    if i == |reqs| - 1 {
      assert reqs[..i + 1] == reqs;
    } else {
      PathSegment(v, reqs, i + 1);
    }
  }

  lemma {:induction false} BlankSlot(v: View, reqs: seq<Request>, i: nat)
    requires i < |reqs|
    ensures BlankAll(v, reqs)[i] == BlankOne(v, reqs[i])
    decreases |reqs|
  {
    if i < |reqs| - 1 {
      BlankSlot(v, reqs[..|reqs| - 1], i);
    }
  }
}
