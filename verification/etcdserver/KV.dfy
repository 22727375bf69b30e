/** The key-value state a transaction reads and writes, and the requests that act
    on it. */
module KV {
  import opened Bytes

  datatype Option<T> = None | Some(value: T)

  datatype KeyValue = KeyValue(key: Key, value: Key, createRev: int, modRev: int, version: int, lease: int)

  const NO_KV := KeyValue([], [], 0, 0, 0, 0)

  type KVs = map<Key, KeyValue>

  /** A read view: the state at the current revision, the committed states behind
      it and the last compaction. */
  datatype View = View(firstRev: int, rev: int, kvs: KVs, past: map<int, KVs>)

  /** The current revision starts at 1 and a compaction never passes it. */
  predicate ValidView(v: View) {
    v.rev >= 1 && v.firstRev <= v.rev
  }

  /** A write transaction that began at `base`. It writes at the next revision and
      reads its own writes. */
  datatype Writer = Writer(base: View, readonly: bool, kvs: KVs, changes: nat) {
    function CurrentRev(): int {
      if changes > 0 then base.rev + 1 else base.rev
    }
  }

  function Begin(v: View, readonly: bool): Writer {
    Writer(v, readonly, v.kvs, 0)
  }

  // ---------- Requests ----------

  datatype RangeReq = RangeReq(key: Key, rangeEnd: RangeEnd, revision: int)

  datatype PutReq = PutReq(key: Key, value: Key, lease: int, ignoreValue: bool, ignoreLease: bool, prevKv: bool)

  datatype DeleteReq = DeleteReq(key: Key, rangeEnd: RangeEnd, prevKv: bool)

  datatype Target = VERSION | CREATE | MOD | VALUE | LEASE | UNKNOWN_TARGET

  datatype Relation = EQUAL | NOT_EQUAL | GREATER | LESS | UNKNOWN_RELATION

  datatype TargetUnion =
    | Version(n: int) | CreateRevision(n: int) | ModRevision(n: int) | Lease(n: int) | Value(bytes: Key) | NoTarget

  datatype Compare = Compare(key: Key, rangeEnd: RangeEnd, relation: Relation, target: Target, union: TargetUnion)

  datatype Request =
    | RequestRange(range: RangeReq)
    | RequestPut(put: PutReq)
    | RequestDeleteRange(delete: DeleteReq)
    | RequestTxn(txn: Txn)
    | NoRequest

  datatype Txn = Txn(compare: seq<Compare>, success: seq<Request>, failure: seq<Request>)

  // ---------- Responses ----------

  datatype RangeResp = RangeResp(rev: int, kvs: KVs)

  datatype PutResp = PutResp(rev: int, prev: Option<KeyValue>)

  datatype DeleteResp = DeleteResp(rev: int, deleted: nat, prev: Option<KVs>)

  /** A slot is allocated with its type and filled later; an empty request leaves a
      nil slot. */
  datatype ResponseOp =
    | ResponseRange(range: Option<RangeResp>)
    | ResponsePut(put: Option<PutResp>)
    | ResponseDeleteRange(delete: Option<DeleteResp>)
    | ResponseTxn(txn: TxnResp)
    | NilSlot

  datatype TxnResp = TxnResp(succeeded: bool, responses: seq<ResponseOp>)

  // ---------- Ranges ----------

  /** A range end of one zero byte asks for every key from the start on. */
  function MkGteRange(end: RangeEnd): RangeEnd {
    if end == End([0]) then End([]) else end
  }

  predicate Hit(k: Key, key: Key, end: RangeEnd) {
    if end.NoEnd? then k == key else InScan(k, key, end.key)
  }

  function Select(kvs: KVs, key: Key, end: RangeEnd): KVs {
    map k | k in kvs && Hit(k, key, end) :: kvs[k]
  }

  // ---------- Comparisons ----------

  function CompareInt(a: int, b: int): int {
    if a < b then -1 else if a > b then 1 else 0
  }

  predicate RelationHolds(relation: Relation, c: int) {
    match relation
    case EQUAL => c == 0
    case NOT_EQUAL => c != 0
    case GREATER => c > 0
    case LESS => c < 0
    case UNKNOWN_RELATION => true
  }

  /** A target union of another kind than the target counts as zero or empty. */
  predicate CompareKV(c: Compare, kv: KeyValue) {
    var order := match c.target
      case VALUE => Bytes.Compare(kv.value, if c.union.Value? then c.union.bytes else [])
      case CREATE => CompareInt(kv.createRev, if c.union.CreateRevision? then c.union.n else 0)
      case MOD => CompareInt(kv.modRev, if c.union.ModRevision? then c.union.n else 0)
      case VERSION => CompareInt(kv.version, if c.union.Version? then c.union.n else 0)
      case LEASE => CompareInt(kv.lease, if c.union.Lease? then c.union.n else 0)
      case UNKNOWN_TARGET => 0;
    RelationHolds(c.relation, order)
  }

  /** The comparison holds of every selected key; of a missing key it holds when it
      holds of the zero record, but a value comparison never does. */
  predicate CompareHolds(v: View, c: Compare) {
    var sel := Select(v.kvs, c.key, MkGteRange(c.rangeEnd));
    if sel == map[] then c.target != VALUE && CompareKV(c, NO_KV)
    else forall k :: k in sel ==> CompareKV(c, sel[k])
  }

  predicate ComparesHold(v: View, cs: seq<Compare>) {
    forall i :: 0 <= i < |cs| ==> CompareHolds(v, cs[i])
  }

  /** The comparison of two numbers, or of two byte strings, that the relation names. */
  predicate NumbersRelate(a: int, relation: Relation, b: int) {
    (relation == EQUAL ==> a == b) && (relation == NOT_EQUAL ==> a != b) && (relation == GREATER ==> a > b) && (relation == LESS ==> a < b)
  }

  predicate BytesRelate(a: Key, relation: Relation, b: Key) {
    (relation == EQUAL ==> a == b) && (relation == NOT_EQUAL ==> a != b) && (relation == GREATER ==> Less(b, a)) && (relation == LESS ==> Less(a, b))
  }

  /** The record's field that the target names stands in the relation to the operand; an
      operand of another kind is zero or empty, an unknown target compares equal. */
  predicate FieldRelates(c: Compare, kv: KeyValue) {
    && (c.target == VERSION ==> NumbersRelate(kv.version, c.relation, if c.union.Version? then c.union.n else 0))
    && (c.target == CREATE ==> NumbersRelate(kv.createRev, c.relation, if c.union.CreateRevision? then c.union.n else 0))
    && (c.target == MOD ==> NumbersRelate(kv.modRev, c.relation, if c.union.ModRevision? then c.union.n else 0))
    && (c.target == LEASE ==> NumbersRelate(kv.lease, c.relation, if c.union.Lease? then c.union.n else 0))
    && (c.target == VALUE ==> BytesRelate(kv.value, c.relation, if c.union.Value? then c.union.bytes else []))
    && (c.target == UNKNOWN_TARGET ==> NumbersRelate(0, c.relation, 0))
  }

  /** The named field of every record in the range stands in the relation; if the range
      holds none, the fields of an absent key are zero, and a value comparison fails. */
  ghost predicate ComparisonTrue(v: View, c: Compare) {
    if exists k :: k in v.kvs && Hit(k, c.key, MkGteRange(c.rangeEnd))
    then forall k :: k in v.kvs && Hit(k, c.key, MkGteRange(c.rangeEnd)) ==> FieldRelates(c, v.kvs[k])
    else c.target != VALUE && FieldRelates(c, KeyValue([], [], 0, 0, 0, 0))
  }

  lemma ComparisonMeans(v: View, c: Compare)
    ensures CompareHolds(v, c) <==> ComparisonTrue(v, c)
  {
    var sel := Select(v.kvs, c.key, MkGteRange(c.rangeEnd));
    forall k ensures k in sel <==> k in v.kvs && Hit(k, c.key, MkGteRange(c.rangeEnd)) {
    }
    forall kv ensures CompareKV(c, kv) <==> FieldRelates(c, kv) {
      FieldMeans(c, kv);
    }
    if sel != map[] {
      var k :| k in sel;
      assert k in v.kvs;
    }
  }

  lemma FieldMeans(c: Compare, kv: KeyValue)
    ensures CompareKV(c, kv) <==> FieldRelates(c, kv)
  {
    var b := if c.union.Value? then c.union.bytes else [];
    CompareEqual(kv.value, b);
    CompareAntisymmetric(kv.value, b);
  }

  method ApplyCompare(v: View, c: Compare) returns (ok: bool)
    ensures ok == CompareHolds(v, c)
  {
    var sel := Select(v.kvs, c.key, MkGteRange(c.rangeEnd));
    if sel == map[] {
      if c.target == VALUE {
        return false;
      }
      return CompareKV(c, NO_KV);
    }
    var todo := sel.Keys;
    while todo != {}
      invariant todo <= sel.Keys
      invariant forall k :: k in sel && k !in todo ==> CompareKV(c, sel[k])
    {
      var k :| k in todo;
      if !CompareKV(c, sel[k]) {
        return false;
      }
      todo := todo - {k};
    }
    return true;
  }

  method ApplyCompares(v: View, cs: seq<Compare>) returns (ok: bool)
    ensures ok == ComparesHold(v, cs)
  {
    for i := 0 to |cs|
      invariant forall j :: 0 <= j < i ==> CompareHolds(v, cs[j])
    {
      var holds := ApplyCompare(v, cs[i]);
      if !holds {
        return false;
      }
    }
    return true;
  }

  // ---------- Single requests on a transaction ----------

  /** The outcome of a request inside a transaction; an error there is a panic. */
  datatype OpResult<T> = Ok(w: Writer, resp: T) | Panicked

  function DoRange(w: Writer, r: RangeReq): OpResult<RangeResp> {
    var cur := w.CurrentRev();
    var rev := if r.revision <= 0 then cur else r.revision;
    if r.revision > cur || rev < w.base.firstRev then Panicked
    else
      var kvs := if rev == cur then w.kvs
                 else if rev == w.base.rev then w.base.kvs
                 else if rev in w.base.past then w.base.past[rev]
                 else map[];
      Ok(w, RangeResp(cur, Select(kvs, r.key, MkGteRange(r.rangeEnd))))
  }

  function DoPut(w: Writer, p: PutReq): OpResult<PutResp> {
    if w.readonly || ((p.ignoreValue || p.ignoreLease) && p.key !in w.kvs) then Panicked
    else
      var rev := w.base.rev + 1;
      var prev := if p.key in w.kvs then Some(w.kvs[p.key]) else None;
      var kv := KeyValue(
        p.key,
        if p.ignoreValue then w.kvs[p.key].value else p.value,
        if prev.Some? then prev.value.createRev else rev,
        rev,
        if prev.Some? then prev.value.version + 1 else 1,
        if p.ignoreLease then w.kvs[p.key].lease else p.lease);
      Ok(w.(kvs := w.kvs[p.key := kv], changes := w.changes + 1),
         PutResp(rev, if p.prevKv then prev else None))
  }

  function DoDelete(w: Writer, d: DeleteReq): OpResult<DeleteResp> {
    if w.readonly then Panicked
    else
      var sel := Select(w.kvs, d.key, MkGteRange(d.rangeEnd));
      var w' := w.(kvs := w.kvs - sel.Keys, changes := w.changes + |sel|);
      Ok(w', DeleteResp(w'.CurrentRev(), |sel|, if d.prevKv then Some(sel) else None))
  }
}
