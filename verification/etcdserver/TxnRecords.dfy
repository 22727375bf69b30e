/** What a transaction leaves and answers, told from the list of its requests and the records
    before it alone. */
module TxnRecords {
  import opened Bytes
  import opened KV
  import opened TxnSpec
  import opened TxnLaws

  // ---------- The path ----------

  /** The requests that run are those of the success branch if every comparison is true of
      the records before the transaction, else those of the failure branch; a nested
      transaction stands for the requests it runs itself. */
  lemma PathMeans(v: View, t: Txn)
    ensures Leaves(v, t) ==
            LeavesOfAll(v, if forall i :: 0 <= i < |t.compare| ==> ComparisonTrue(v, t.compare[i]) then t.success else t.failure)
    ensures forall reqs, req :: LeavesOfAll(v, reqs + [req]) ==
                                LeavesOfAll(v, reqs) + if req.RequestTxn? then Leaves(v, req.txn) else [req]
    ensures LeavesOfAll(v, []) == []
  {
    forall i | 0 <= i < |t.compare| ensures CompareHolds(v, t.compare[i]) <==> ComparisonTrue(v, t.compare[i]) {
      ComparisonMeans(v, t.compare[i]);
    }
    forall reqs, req
      ensures LeavesOfAll(v, reqs + [req]) == LeavesOfAll(v, reqs) + if req.RequestTxn? then Leaves(v, req.txn) else [req]
    {
      assert (reqs + [req])[..|reqs|] == reqs;
    }
  }

  // ---------- One key ----------

  predicate Deletes(req: Request, k: Key) {
    req.RequestDeleteRange? && Hit(k, req.delete.key, MkGteRange(req.delete.rangeEnd))
  }

  predicate Puts(req: Request, k: Key) {
    req.RequestPut? && req.put.key == k
  }

  predicate Deleted(reqs: seq<Request>, k: Key) {
    exists i :: 0 <= i < |reqs| && Deletes(reqs[i], k)
  }

  /** The requests after the last deletion of the key. */
  function SinceDeletion(reqs: seq<Request>, k: Key): seq<Request> {
    if |reqs| == 0 || Deletes(reqs[|reqs| - 1], k) then []
    else SinceDeletion(reqs[..|reqs| - 1], k) + [reqs[|reqs| - 1]]
  }

  /** How often the requests put the key. */
  function PutCount(reqs: seq<Request>, k: Key): nat {
    if |reqs| == 0 then 0 else PutCount(reqs[..|reqs| - 1], k) + if Puts(reqs[|reqs| - 1], k) then 1 else 0
  }

  /** The value, or lease, of the last put of the key that does not keep the one before. */
  function LastValue(reqs: seq<Request>, k: Key, before: Key): Key {
    if |reqs| == 0 then before
    else
      var last := reqs[|reqs| - 1];
      if Puts(last, k) && !last.put.ignoreValue then last.put.value else LastValue(reqs[..|reqs| - 1], k, before)
  }

  function LastLease(reqs: seq<Request>, k: Key, before: int): int {
    if |reqs| == 0 then before
    else
      var last := reqs[|reqs| - 1];
      if Puts(last, k) && !last.put.ignoreLease then last.put.lease else LastLease(reqs[..|reqs| - 1], k, before)
  }

  /** The record of a key that `puts` put and nothing deleted, if it had the record `was`
      before, or none. */
  function RecordFrom(v: View, was: Option<KeyValue>, puts: seq<Request>, k: Key): Option<KeyValue> {
    var n, kv := PutCount(puts, k), if was.Some? then was.value else NO_KV;
    if n == 0 then was
    else
      Some(KeyValue(k, LastValue(puts, k, kv.value), if was.Some? then kv.createRev else v.rev + 1, v.rev + 1,
                    kv.version + n, LastLease(puts, k, kv.lease)))
  }

  /** The record of the key after the requests. If it was there before and no request deleted
      it, it keeps its creation and goes on counting versions; else both begin anew with the
      first put after the last deletion. */
  function RecordAfter(v: View, reqs: seq<Request>, k: Key): Option<KeyValue> {
    RecordFrom(v, if k in v.kvs && !Deleted(reqs, k) then Some(v.kvs[k]) else None, SinceDeletion(reqs, k), k)
  }

  lemma SinceNext(reqs: seq<Request>, req: Request, k: Key)
    ensures SinceDeletion(reqs + [req], k) == if Deletes(req, k) then [] else SinceDeletion(reqs, k) + [req]
    ensures Deleted(reqs + [req], k) <==> Deleted(reqs, k) || Deletes(req, k)
  {
    var more := reqs + [req];
    assert more[..|more| - 1] == reqs;
    if Deleted(reqs, k) {
      var i :| 0 <= i < |reqs| && Deletes(reqs[i], k);
      assert more[i] == reqs[i];
    }
    assert more[|reqs|] == req;
  }

  lemma PutsNext(puts: seq<Request>, req: Request, k: Key, value: Key, lease: int)
    ensures PutCount(puts + [req], k) == PutCount(puts, k) + if Puts(req, k) then 1 else 0
    ensures LastValue(puts + [req], k, value) ==
              if Puts(req, k) && !req.put.ignoreValue then req.put.value else LastValue(puts, k, value)
    ensures LastLease(puts + [req], k, lease) ==
              if Puts(req, k) && !req.put.ignoreLease then req.put.lease else LastLease(puts, k, lease)
  {
    var more := puts + [req];
    assert more[..|more| - 1] == puts;
  }

  lemma {:induction false} NoPutsKeep(puts: seq<Request>, k: Key, value: Key, lease: int)
    requires PutCount(puts, k) == 0
    ensures LastValue(puts, k, value) == value && LastLease(puts, k, lease) == lease
  {
    if |puts| > 0 {
      NoPutsKeep(puts[..|puts| - 1], k, value, lease);
    }
  }

  /** A put, in terms of the record before it. */
  predicate PutOn(v: View, before: Option<KeyValue>, p: PutReq, after: Option<KeyValue>) {
    if before.None? then
      !p.ignoreValue && !p.ignoreLease ==> after == Some(KeyValue(p.key, p.value, v.rev + 1, v.rev + 1, 1, p.lease))
    else
      var kv := before.value;
      after == Some(KeyValue(p.key, if p.ignoreValue then kv.value else p.value, kv.createRev, v.rev + 1, kv.version + 1,
                             if p.ignoreLease then kv.lease else p.lease))
  }

  lemma FromNext(v: View, was: Option<KeyValue>, puts: seq<Request>, req: Request, k: Key)
    ensures !Puts(req, k) ==> RecordFrom(v, was, puts + [req], k) == RecordFrom(v, was, puts, k)
    ensures Puts(req, k) ==> PutOn(v, RecordFrom(v, was, puts, k), req.put, RecordFrom(v, was, puts + [req], k))
  {
    var kv := if was.Some? then was.value else NO_KV;
    PutsNext(puts, req, k, kv.value, kv.lease);
    if PutCount(puts, k) == 0 {
      NoPutsKeep(puts, k, kv.value, kv.lease);
    }
  }

  /** One more request, in terms of the record before it. */
  lemma RecordNext(v: View, reqs: seq<Request>, req: Request, k: Key)
    ensures var before, after := RecordAfter(v, reqs, k), RecordAfter(v, reqs + [req], k);
            if Deletes(req, k) then after == None
            else if Puts(req, k) then PutOn(v, before, req.put, after)
            else after == before
  {
    SinceNext(reqs, req, k);
    FromNext(v, if k in v.kvs && !Deleted(reqs, k) then Some(v.kvs[k]) else None, SinceDeletion(reqs, k), req, k);
  }

  lemma RecordFirst(v: View, k: Key)
    ensures RecordAfter(v, [], k) == if k in v.kvs then Some(v.kvs[k]) else None
  {
  }

  /** The state of a writer is the records told by the requests it has done. */
  ghost predicate Tells(v: View, reqs: seq<Request>, w: Writer) {
    w.base == v && forall k {:trigger RecordAfter(v, reqs, k)} :: RecordAfter(v, reqs, k) == if k in w.kvs then Some(w.kvs[k]) else None
  }

  /** After requests that ran, every key has the record that the requests tell. */
  lemma {:induction false} RunTells(v: View, readonly: bool, reqs: seq<Request>)
    requires forall r :: r in reqs ==> !r.RequestTxn?
    requires RunLeaves(reqs, Begin(v, readonly)).Some?
    ensures Tells(v, reqs, RunLeaves(reqs, Begin(v, readonly)).value)
  {
    if |reqs| == 0 {
      forall k ensures RecordAfter(v, reqs, k) == if k in v.kvs then Some(v.kvs[k]) else None {
        RecordFirst(v, k);
      }
    } else {
      var n := |reqs| - 1;
      RunTells(v, readonly, reqs[..n]);
      assert reqs == reqs[..n] + [reqs[n]];
      StepTells(v, reqs[..n], RunLeaves(reqs[..n], Begin(v, readonly)).value, reqs[n]);
    }
  }

  lemma StepTells(v: View, reqs: seq<Request>, w: Writer, req: Request)
    requires Tells(v, reqs, w) && !req.RequestTxn? && DoLeaf(w, req).Ok?
    ensures Tells(v, reqs + [req], DoLeaf(w, req).w)
  {
    var w' := DoLeaf(w, req).w;
    forall k ensures RecordAfter(v, reqs + [req], k) == if k in w'.kvs then Some(w'.kvs[k]) else None {
      RecordNext(v, reqs, req, k);
      assert RecordAfter(v, reqs, k) == if k in w.kvs then Some(w.kvs[k]) else None;
    }
  }

  // ---------- Responses ----------

  /** Run requests one after the other and collect their responses. */
  function RunAll(reqs: seq<Request>, w: Writer): (r: OpResult<seq<ResponseOp>>)
    requires forall r :: r in reqs ==> !r.RequestTxn?
    ensures r.Ok? ==> |r.resp| == |reqs|
  {
    if |reqs| == 0 then Ok(w, [])
    else
      match RunAll(reqs[..|reqs| - 1], w)
      case Panicked => Panicked
      case Ok(w1, done) =>
        match DoLeaf(w1, reqs[|reqs| - 1])
        case Ok(w2, resp) => Ok(w2, done + [resp])
        case Panicked => Panicked
  }

  /** The responses inside a response, without the nesting. */
  function Flat(slots: seq<ResponseOp>): seq<ResponseOp>
    decreases slots, 0
  {
    if |slots| == 0 then [] else Flat(slots[..|slots| - 1]) + FlatOne(slots[|slots| - 1])
  }

  function FlatOne(slot: ResponseOp): seq<ResponseOp>
    decreases slot, 1
  {
    if slot.ResponseTxn? then Flat(slot.txn.responses) else [slot]
  }

  lemma {:induction false} RunAllConcat(a: seq<Request>, b: seq<Request>, w: Writer)
    requires forall r :: r in a + b ==> !r.RequestTxn?
    requires forall r :: r in a ==> !r.RequestTxn?
    requires forall r :: r in b ==> !r.RequestTxn?
    ensures RunAll(a + b, w) ==
            match RunAll(a, w)
            case Panicked => Panicked
            case Ok(w1, done) => (match RunAll(b, w1) case Panicked => Panicked case Ok(w2, more) => Ok(w2, done + more))
  {
    if |b| == 0 {
      assert a + b == a;
      match RunAll(a, w)
      case Ok(w1, done) => assert done + [] == done;
      case Panicked =>
    } else {
      var m := |b| - 1;
      assert (a + b)[..|a + b| - 1] == a + b[..m];
      RunAllConcat(a, b[..m], w);
      match RunAll(a, w)
      case Ok(w1, done) =>
        match RunAll(b[..m], w1) {
          case Ok(w2, more) => assert forall resp :: (done + more) + [resp] == done + (more + [resp]);
          case Panicked =>
        }
      case Panicked =>
    }
  }

  /** A nested transaction answers what its requests answer one after the other. */
  lemma {:induction false} TxnAnswers(v: View, t: Txn, w: Writer)
    ensures match Interpret(v, t, w)
            case Ok(w', resp) => RunAll(Leaves(v, t), w) == Ok(w', Flat(resp.responses))
            case Panicked => RunAll(Leaves(v, t), w) == Panicked
    decreases t, 1
  {
    if ComparesHold(v, t.compare) { AllAnswer(v, t.success, w); } else { AllAnswer(v, t.failure, w); }
  }

  lemma {:induction false} AllAnswer(v: View, reqs: seq<Request>, w: Writer)
    ensures match InterpretAll(v, reqs, w)
            case Ok(w', slots) => RunAll(LeavesOfAll(v, reqs), w) == Ok(w', Flat(slots))
            case Panicked => RunAll(LeavesOfAll(v, reqs), w) == Panicked
    decreases reqs, 0
  {
    if |reqs| > 0 {
      var n := |reqs| - 1;
      AllAnswer(v, reqs[..n], w);
      RunAllConcat(LeavesOfAll(v, reqs[..n]), LeavesOfOne(v, reqs[n]), w);
      match InterpretAll(v, reqs[..n], w)
      case Ok(w1, slots) =>
        OneAnswers(v, reqs[n], w1);
        assert forall slot :: (slots + [slot])[..|slots|] == slots;
      case Panicked =>
    }
  }

  lemma {:induction false} OneAnswers(v: View, req: Request, w: Writer)
    ensures match InterpretOne(v, req, w)
            case Ok(w', slot) => RunAll(LeavesOfOne(v, req), w) == Ok(w', FlatOne(slot))
            case Panicked => RunAll(LeavesOfOne(v, req), w) == Panicked
    decreases req, 2
  {
    if req.RequestTxn? {
      TxnAnswers(v, req.txn, w);
    } else {
      assert [req][..0] == [] && RunAll([], w) == Ok(w, []);
      assert forall slot: ResponseOp :: Flat([slot]) == FlatOne(slot) by {
        assert forall slot: ResponseOp :: [slot][..0] == [];
      }
      assert forall resp: ResponseOp :: [] + [resp] == [resp];
    }
  }

  /** Some request wrote: a put, or a delete of a key that was there at its turn. */
  ghost predicate Wrote(v: View, reqs: seq<Request>) {
    exists i :: 0 <= i < |reqs| &&
      (reqs[i].RequestPut? || exists k :: Deletes(reqs[i], k) && RecordAfter(v, reqs[..i], k).Some?)
  }

  /** The records asked for are those of the keys in the range that the requests before
      left, each as they left it. */
  ghost predicate ListsAfter(v: View, reqs: seq<Request>, key: Key, rangeEnd: RangeEnd, kvs: KVs) {
    forall k {:trigger RecordAfter(v, reqs, k)} ::
      (if Hit(k, key, MkGteRange(rangeEnd)) then RecordAfter(v, reqs, k) else None) == if k in kvs then Some(kvs[k]) else None
  }

  /** What request `req` answers after `reqs`: a range, what they left (or what was there
      at the revision asked for, if that is an earlier one); a put, the record before it if
      it is wanted; a delete, how many records there were and these if they are wanted. All
      answer the revision as of then. */
  ghost predicate AnswersAfter(v: View, reqs: seq<Request>, req: Request, resp: ResponseOp) {
    var rev := if Wrote(v, reqs) then v.rev + 1 else v.rev;
    match req
    case RequestRange(r) =>
      && resp.ResponseRange? && resp.range.Some? && resp.range.value.rev == rev
      && v.firstRev <= (if r.revision <= 0 then rev else r.revision) && r.revision <= rev
      && (r.revision <= 0 || r.revision == rev ==> ListsAfter(v, reqs, r.key, r.rangeEnd, resp.range.value.kvs))
      && (0 < r.revision == v.rev < rev ==> ListsAfter(v, [], r.key, r.rangeEnd, resp.range.value.kvs))
      && (0 < r.revision < v.rev ==>
           forall k :: (if k in resp.range.value.kvs then Some(resp.range.value.kvs[k]) else None) ==
             if Hit(k, r.key, MkGteRange(r.rangeEnd)) && r.revision in v.past && k in v.past[r.revision]
             then Some(v.past[r.revision][k]) else None)
    case RequestPut(p) =>
      resp == ResponsePut(Some(PutResp(v.rev + 1, if p.prevKv then RecordAfter(v, reqs, p.key) else None)))
    case RequestDeleteRange(d) =>
      && resp.ResponseDeleteRange? && resp.delete.Some?
      && (exists kvs: KVs :: ListsAfter(v, reqs, d.key, d.rangeEnd, kvs) && resp.delete.value.deleted == |kvs|
                             && resp.delete.value.prev == if d.prevKv then Some(kvs) else None)
      && resp.delete.value.rev == if Wrote(v, reqs + [req]) then v.rev + 1 else v.rev
    case _ => false
  }

  lemma WroteNext(v: View, reqs: seq<Request>, req: Request)
    ensures Wrote(v, reqs + [req]) <==>
              Wrote(v, reqs) || req.RequestPut? || exists k :: Deletes(req, k) && RecordAfter(v, reqs, k).Some?
  {
    var more := reqs + [req];
    forall i | 0 <= i < |reqs| ensures more[i] == reqs[i] && more[..i] == reqs[..i] {
    }
    assert more[|reqs|] == req && more[..|reqs|] == reqs;
  }

  lemma {:induction false} ChangesTell(v: View, readonly: bool, reqs: seq<Request>)
    requires forall r :: r in reqs ==> !r.RequestTxn?
    requires RunLeaves(reqs, Begin(v, readonly)).Some?
    ensures RunLeaves(reqs, Begin(v, readonly)).value.changes > 0 <==> Wrote(v, reqs)
  {
    if |reqs| > 0 {
      var n := |reqs| - 1;
      ChangesTell(v, readonly, reqs[..n]);
      RunTells(v, readonly, reqs[..n]);
      assert reqs == reqs[..n] + [reqs[n]];
      WroteNext(v, reqs[..n], reqs[n]);
      ChangeTells(v, reqs[..n], RunLeaves(reqs[..n], Begin(v, readonly)).value, reqs[n]);
    }
  }

  lemma ChangeTells(v: View, reqs: seq<Request>, w: Writer, req: Request)
    requires Tells(v, reqs, w) && !req.RequestTxn? && DoLeaf(w, req).Ok?
    ensures DoLeaf(w, req).w.changes > 0 <==>
              w.changes > 0 || req.RequestPut? || exists k :: Deletes(req, k) && RecordAfter(v, reqs, k).Some?
  {
    if req.RequestDeleteRange? {
      var sel := Select(w.kvs, req.delete.key, MkGteRange(req.delete.rangeEnd));
      if k :| k in sel {
        assert RecordAfter(v, reqs, k).Some?;
        assert |sel| > 0;
      }
      if k :| Deletes(req, k) && RecordAfter(v, reqs, k).Some? {
        assert k in sel;
      }
    }
  }

  lemma SelectLists(v: View, reqs: seq<Request>, kvs: KVs, key: Key, rangeEnd: RangeEnd)
    requires forall k {:trigger RecordAfter(v, reqs, k)} :: RecordAfter(v, reqs, k) == if k in kvs then Some(kvs[k]) else None
    ensures ListsAfter(v, reqs, key, rangeEnd, Select(kvs, key, MkGteRange(rangeEnd)))
  {
  }

  lemma LeafAnswers(v: View, reqs: seq<Request>, w: Writer, req: Request)
    requires Tells(v, reqs, w) && !req.RequestTxn? && DoLeaf(w, req).Ok? && (w.changes > 0 <==> Wrote(v, reqs))
    ensures AnswersAfter(v, reqs, req, DoLeaf(w, req).resp)
  {
    match req
    case RequestRange(r) =>
      SelectLists(v, reqs, w.kvs, r.key, r.rangeEnd);
      forall k ensures RecordAfter(v, [], k) == if k in v.kvs then Some(v.kvs[k]) else None {
        RecordFirst(v, k);
      }
      SelectLists(v, [], v.kvs, r.key, r.rangeEnd);
    case RequestPut(p) =>
      assert RecordAfter(v, reqs, p.key) == if p.key in w.kvs then Some(w.kvs[p.key]) else None;
    case RequestDeleteRange(d) =>
      SelectLists(v, reqs, w.kvs, d.key, d.rangeEnd);
      WroteNext(v, reqs, req);
      ChangeTells(v, reqs, w, req);
    case NoRequest =>
  }

  lemma {:induction false} RunAllIsRun(reqs: seq<Request>, w: Writer)
    requires forall r :: r in reqs ==> !r.RequestTxn?
    ensures RunAll(reqs, w).Ok? <==> RunLeaves(reqs, w).Some?
    ensures RunAll(reqs, w).Ok? ==> RunLeaves(reqs, w).value == RunAll(reqs, w).w
  {
    if |reqs| > 0 {
      RunAllIsRun(reqs[..|reqs| - 1], w);
    }
  }

  lemma LastAnswers(v: View, readonly: bool, reqs: seq<Request>)
    requires |reqs| > 0 && forall r :: r in reqs ==> !r.RequestTxn?
    requires RunAll(reqs, Begin(v, readonly)).Ok?
    ensures var n := |reqs| - 1; AnswersAfter(v, reqs[..n], reqs[n], RunAll(reqs, Begin(v, readonly)).resp[n])
  {
    var before := reqs[..|reqs| - 1];
    RunAllIsRun(before, Begin(v, readonly));
    RunTells(v, readonly, before);
    ChangesTell(v, readonly, before);
    LeafAnswers(v, before, RunLeaves(before, Begin(v, readonly)).value, reqs[|reqs| - 1]);
  }

  /** Every response of a run tells what the requests before it had left. */
  lemma {:induction false} RunAnswers(v: View, readonly: bool, reqs: seq<Request>, i: nat)
    requires i < |reqs| && forall r :: r in reqs ==> !r.RequestTxn?
    requires RunAll(reqs, Begin(v, readonly)).Ok?
    ensures AnswersAfter(v, reqs[..i], reqs[i], RunAll(reqs, Begin(v, readonly)).resp[i])
    decreases |reqs|
  {
    if i < |reqs| - 1 {
      var before := reqs[..|reqs| - 1];
      RunAnswers(v, readonly, before, i);
      assert before[..i] == reqs[..i] && before[i] == reqs[i];
      assert RunAll(reqs, Begin(v, readonly)).resp[i] == RunAll(before, Begin(v, readonly)).resp[i];
    } else {
      LastAnswers(v, readonly, reqs);
    }
  }

  /** A committed transaction leaves exactly the records that the requests on its chosen
      path tell, at the next revision if any of them wrote. */
  lemma TxnTells(v: View, leases: set<int>, t: Txn, k: Key)
    requires Execute(v, leases, t).Committed?
    ensures Execute(v, leases, t).rev == if Wrote(v, Leaves(v, t)) then v.rev + 1 else v.rev
    ensures RecordAfter(v, Leaves(v, t), k) ==
              if k in Execute(v, leases, t).kvs then Some(Execute(v, leases, t).kvs[k]) else None
  {
    var readonly := IsTxnReadonly(t);
    InterpretIsLeaves(v, t, Begin(v, readonly));
    RunTells(v, readonly, Leaves(v, t));
    ChangesTell(v, readonly, Leaves(v, t));
    assert Tells(v, Leaves(v, t), RunLeaves(Leaves(v, t), Begin(v, readonly)).value);
  }

  /** The responses of a transaction, without the nesting, are those of the requests on its
      chosen path, each told by the requests before it. */
  lemma TxnResponsesTell(v: View, leases: set<int>, t: Txn, i: nat)
    requires Execute(v, leases, t).Committed? && i < |Leaves(v, t)|
    ensures |Flat(Execute(v, leases, t).resp.responses)| == |Leaves(v, t)|
    ensures Execute(v, leases, t).resp.succeeded <==> forall j :: 0 <= j < |t.compare| ==> ComparisonTrue(v, t.compare[j])
    ensures AnswersAfter(v, Leaves(v, t)[..i], Leaves(v, t)[i], Flat(Execute(v, leases, t).resp.responses)[i])
  {
    TxnAnswers(v, t, Begin(v, IsTxnReadonly(t)));
    forall j | 0 <= j < |t.compare| ensures CompareHolds(v, t.compare[j]) <==> ComparisonTrue(v, t.compare[j]) {
      ComparisonMeans(v, t.compare[j]);
    }
    RunAnswers(v, IsTxnReadonly(t), Leaves(v, t), i);
  }

  // ---------- Checks ----------

  /** The put names a lease that does not exist, or keeps a value or lease of a key that does
      not. */
  predicate PutFails(v: View, leases: set<int>, req: Request, err: Error) {
    req.RequestPut? &&
    var absent := (req.put.ignoreValue || req.put.ignoreLease) && req.put.key !in v.kvs;
    if err == ErrKeyNotFound then absent
    else err == ErrLeaseNotFound && !absent && req.put.lease != 0 && req.put.lease !in leases
  }

  /** The range asks for a revision that is not there yet, or not there any more. */
  predicate RangeFails(v: View, req: Request, err: Error) {
    req.RequestRange? && req.range.revision != 0 &&
    if err == ErrFutureRev then req.range.revision > v.rev
    else err == ErrCompacted && req.range.revision <= v.rev && req.range.revision < v.firstRev
  }

  /** Request `i` is the first put, or the first range, that fails. */
  ghost predicate PutFailsFirst(v: View, leases: set<int>, reqs: seq<Request>, i: nat, err: Error)
    requires i < |reqs|
  {
    PutFails(v, leases, reqs[i], err) && forall j, e :: 0 <= j < i ==> !PutFails(v, leases, reqs[j], e)
  }

  ghost predicate RangeFailsFirst(v: View, reqs: seq<Request>, i: nat, err: Error)
    requires i < |reqs|
  {
    RangeFails(v, reqs[i], err) && forall j, e :: 0 <= j < i ==> !RangeFails(v, reqs[j], e)
  }

  lemma CheckMeans(v: View, leases: set<int>, req: Request)
    ensures forall e :: CheckRequest(v, CheckPut(leases), req) == Some(e) <==> PutFails(v, leases, req, e)
    ensures forall e :: CheckRequest(v, CheckRange, req) == Some(e) <==> RangeFails(v, req, e)
  {
  }

  lemma {:induction false} FirstErrorAt(v: View, check: Check, reqs: seq<Request>) returns (i: nat)
    requires FirstError(v, check, reqs).Some?
    ensures i < |reqs| && CheckRequest(v, check, reqs[i]) == FirstError(v, check, reqs)
    ensures forall j :: 0 <= j < i ==> CheckRequest(v, check, reqs[j]).None?
  {
    var n := |reqs| - 1;
    if FirstError(v, check, reqs[..n]).Some? {
      i := FirstErrorAt(v, check, reqs[..n]);
    } else {
      i := n;
      FirstErrorNone(v, check, reqs[..n]);
      forall j | 0 <= j < n ensures CheckRequest(v, check, reqs[j]).None? {
        assert reqs[..n][j] == reqs[j];
      }
    }
  }

  /** The first error of the puts, and that of the ranges, by the requests that fail. */
  lemma PutErrorMeans(v: View, leases: set<int>, reqs: seq<Request>)
    ensures FirstError(v, CheckPut(leases), reqs).None? <==> forall j, e :: 0 <= j < |reqs| ==> !PutFails(v, leases, reqs[j], e)
    ensures forall e :: FirstError(v, CheckPut(leases), reqs) == Some(e) <==>
              exists i: nat :: i < |reqs| && PutFailsFirst(v, leases, reqs, i, e)
  {
    forall req, e ensures CheckRequest(v, CheckPut(leases), req) == Some(e) <==> PutFails(v, leases, req, e) {
      CheckMeans(v, leases, req);
    }
    FirstErrorNone(v, CheckPut(leases), reqs);
    if FirstError(v, CheckPut(leases), reqs).Some? {
      var i := FirstErrorAt(v, CheckPut(leases), reqs);
      assert PutFailsFirst(v, leases, reqs, i, FirstError(v, CheckPut(leases), reqs).value);
    }
  }

  lemma RangeErrorMeans(v: View, leases: set<int>, reqs: seq<Request>)
    ensures FirstError(v, CheckRange, reqs).None? <==> forall j, e :: 0 <= j < |reqs| ==> !RangeFails(v, reqs[j], e)
    ensures forall e :: FirstError(v, CheckRange, reqs) == Some(e) <==>
              exists i: nat :: i < |reqs| && RangeFailsFirst(v, reqs, i, e)
  {
    forall req, e ensures CheckRequest(v, CheckRange, req) == Some(e) <==> RangeFails(v, req, e) {
      CheckMeans(v, leases, req);
    }
    FirstErrorNone(v, CheckRange, reqs);
    if FirstError(v, CheckRange, reqs).Some? {
      var i := FirstErrorAt(v, CheckRange, reqs);
      assert RangeFailsFirst(v, reqs, i, FirstError(v, CheckRange, reqs).value);
    }
  }

  /** A transaction is rejected if and only if some put or range on its chosen path fails, with
      the error of the first put that does, else of the first range. */
  lemma RejectionMeans(v: View, leases: set<int>, t: Txn, err: Error)
    ensures Execute(v, leases, t) == Rejected(err) <==>
              || (exists i: nat :: i < |Leaves(v, t)| && PutFailsFirst(v, leases, Leaves(v, t), i, err))
              || ((forall j, e :: 0 <= j < |Leaves(v, t)| ==> !PutFails(v, leases, Leaves(v, t)[j], e)) &&
                  exists i: nat :: i < |Leaves(v, t)| && RangeFailsFirst(v, Leaves(v, t), i, err))
  {
    PutErrorMeans(v, leases, Leaves(v, t));
    RangeErrorMeans(v, leases, Leaves(v, t));
    if IsTxnReadonly(t) {
      ReadonlyPutsNothing(v, leases, t);
    }
  }

  lemma ReadonlyPutsNothing(v: View, leases: set<int>, t: Txn)
    requires IsTxnReadonly(t)
    ensures FirstError(v, CheckPut(leases), Leaves(v, t)).None?
  {
    RangesAreLeaves(v, Chosen(v, t));
    FirstErrorNone(v, CheckPut(leases), Leaves(v, t));
  }
}
