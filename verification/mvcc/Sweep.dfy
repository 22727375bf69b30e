/** Physical compaction: the key bucket of the backend and the batched sweep that
    deletes every record the index no longer names. */
module Sweep {
  import opened Bytes
  import opened Revisions
  import opened KeyIndexSpec
  import opened TreeIndexSpec

  /** The bucket keys in their byte order, which is the order of revisions. */
  class KeyBucket {
    var records: seq<Revision>

    ghost predicate Valid()
      reads this
    {
      Increasing(records) && forall r :: r in records ==> r.main >= 0 && r.sub >= 0
    }

    /** The first `limit` records from `last` on whose main revision is at most
        `upTo`; all of them when `limit` is not positive. */
    method UnsafeRange(last: Revision, upTo: int, limit: int) returns (keys: seq<Revision>)
      requires Valid()
      ensures Increasing(keys)
      ensures forall r :: r in keys ==> r in records && !last.GreaterThan(r) && r.main <= upTo
      ensures limit > 0 ==> |keys| <= limit
      ensures forall r :: r in records && !last.GreaterThan(r) && r.main <= upTo ==>
                r in keys || (0 < limit == |keys| && r.GreaterThan(keys[|keys| - 1]))
    {
      keys := [];
      for i := 0 to |records|
        invariant Increasing(keys)
        invariant forall r :: r in keys ==> r in records[..i] && !last.GreaterThan(r) && r.main <= upTo
        invariant limit > 0 ==> |keys| <= limit
        invariant forall r :: r in records[..i] && !last.GreaterThan(r) && r.main <= upTo ==>
                    r in keys || (0 < limit == |keys| && r.GreaterThan(keys[|keys| - 1]))
      {
        var r := records[i];
        assert records[..i + 1] == records[..i] + [r];
        assert AboveAll(r, records[..i]);
        if !last.GreaterThan(r) && r.main <= upTo && (limit <= 0 || |keys| < limit) {
          keys := keys + [r];
        } else if |keys| > 0 {
          assert keys[|keys| - 1] in keys;
        }
      }
      assert records[..|records|] == records;
    }

    method UnsafeDelete(key: Revision)
      requires Valid()
      modifies this
      ensures Valid()
      ensures forall r :: r in records <==> r in old(records) && r != key
    {
      for i := 0 to |records|
        invariant records == old(records) && key !in records[..i]
      {
        assert records[..i + 1] == records[..i] + [records[i]];
        if records[i] == key {
          ghost var before := records;
          assert before == before[..i] + [key] + before[i + 1..];
          assert key !in before[i + 1..];
          records := records[..i] + records[i + 1..];
          return;
        }
      }
      assert records[..|records|] == records;
    }

    method Append(revs: seq<Revision>)
      requires Valid() && Increasing(records + revs)
      requires forall r :: r in revs ==> r.main >= 0 && r.sub >= 0
      modifies this
      ensures Valid() && records == old(records) + revs
    {
      records := records + revs;
    }
  }

  /** What happens during the pause after a batch: records committed by writers,
      and whether the store is being stopped. */
  datatype Pause = Pause(arrivals: seq<Revision>, stop: bool)

  function Arrivals(pauses: seq<Pause>): seq<Revision> {
    if |pauses| == 0 then [] else pauses[0].arrivals + Arrivals(pauses[1..])
  }

  lemma {:induction false} ArrivalsSplit(pauses: seq<Pause>, i: nat)
    requires i < |pauses|
    ensures Arrivals(pauses[i..]) == pauses[i].arrivals + Arrivals(pauses[i + 1..])
  {
  }

  ghost function Unswept(records: set<Revision>, last: Revision, c: int): set<Revision> {
    set r | r in records && r.main <= c && !last.GreaterThan(r)
  }

  /** One batch: afterwards nothing between `last` and the end of the batch is left
      except what is in `keep`. */
  method DeleteBatch(b: KeyBucket, keys: seq<Revision>, keep: set<Revision>)
    requires b.Valid() && forall r :: r in keys ==> r in b.records
    modifies b
    ensures b.Valid()
    ensures forall r :: r in b.records <==> r in old(b.records) && (r in keep || r !in keys)
  {
    for i := 0 to |keys|
      invariant b.Valid()
      invariant forall r :: r in b.records <==> r in old(b.records) && (r in keep || r !in keys[..i])
    {
      assert forall r :: r in keys[..i + 1] <==> r in keys[..i] || r == keys[i];
      if keys[i] !in keep {
        b.UnsafeDelete(keys[i]);
      }
    }
    assert keys[..|keys|] == keys;
  }

  /** The sweep. It ends for every positive batch limit, whatever writers do in
      its pauses. Finished, it has left exactly the records above `c` and those in
      `keep`; stopped early, it has removed only records it was to remove. */
  method ScheduleCompaction(b: KeyBucket, c: int, keep: set<Revision>, batchLimit: int, pauses: seq<Pause>)
    returns (finished: bool, rounds: nat)
    requires b.Valid() && batchLimit > 0
    requires Increasing(Arrivals(pauses))
    requires forall r :: r in Arrivals(pauses) ==> AboveAll(r, b.records)
    requires forall r :: r in Arrivals(pauses) ==> r.main > c && r.main >= 0 && r.sub >= 0
    modifies b
    ensures b.Valid() && rounds <= |pauses|
    ensures finished ==> forall r :: r in b.records <==>
              (r in old(b.records) || r in Arrivals(pauses[..rounds])) && (r.main > c || r in keep)
    ensures !finished ==> forall r :: r in b.records ==> r in old(b.records) || r in Arrivals(pauses[..rounds])
    ensures !finished ==> forall r :: (r in old(b.records) || r in Arrivals(pauses[..rounds])) && (r.main > c || r in keep) ==> r in b.records
  {
    var last := ZERO;
    rounds := 0;
    ghost var records0 := b.records;
    ghost var all := set r | r in b.records;
    while true
      invariant b.Valid() && rounds <= |pauses|
      invariant forall r :: r in all <==> r in records0 || r in Arrivals(pauses[..rounds])
      invariant SweptTo(b.records, all, last, c, keep)
      invariant Increasing(Arrivals(pauses[rounds..]))
      invariant forall r :: r in Arrivals(pauses[rounds..]) ==> AboveAll(r, b.records)
      invariant forall r :: r in Arrivals(pauses[rounds..]) ==> r.main > c && r.main >= 0 && r.sub >= 0
      decreases Unswept(all, last, c)
    {
      var done;
      done, last := SweepBatch(b, c, keep, batchLimit, last, all);
      if done {
        return true, rounds;
      }
      if rounds < |pauses| {
        var pause := pauses[rounds];
        NextPause(pauses, rounds, b.records);
        b.Append(pause.arrivals);
        ArrivedSwept(b.records[..|b.records| - |pause.arrivals|], pause.arrivals, all, last, c, keep);
        all := all + set r | r in pause.arrivals;
        rounds := rounds + 1;
        if pause.stop {
          return false, rounds;
        }
      }
    }
  }

  /** Below `last` only the kept records and those above `c` are left; nothing below
      `last` is above `c`. */
  ghost predicate SweptTo(records: seq<Revision>, all: set<Revision>, last: Revision, c: int, keep: set<Revision>) {
    && (forall r :: r in records <==> r in all && (r in keep || r.main > c || !last.GreaterThan(r)))
    && (forall r: Revision :: last.GreaterThan(r) && r.main >= 0 && r.sub >= 0 ==> r.main <= c)
  }

  /** One turn of the loop: fetch a batch, delete it, move the cursor past it. */
  method SweepBatch(b: KeyBucket, c: int, keep: set<Revision>, batchLimit: int, last: Revision, ghost all: set<Revision>)
    returns (done: bool, last': Revision)
    requires b.Valid() && batchLimit > 0 && SweptTo(b.records, all, last, c, keep)
    modifies b
    ensures b.Valid() && forall r :: r in b.records ==> r in old(b.records)
    ensures done ==> forall r :: r in b.records <==> r in all && (r in keep || r.main > c)
    ensures !done ==> SweptTo(b.records, all, last', c, keep) && Unswept(all, last', c) < Unswept(all, last, c)
  {
    var keys := b.UnsafeRange(last, c, batchLimit);
    assert |keys| > 0 ==> keys[|keys| - 1] in keys;
    DeleteBatch(b, keys, keep);
    if |keys| < batchLimit {
      return true, last;
    }
    var rev := keys[|keys| - 1];
    assert rev in Unswept(all, last, c);
    last' := Revision(rev.main, rev.sub + 1);
    assert Unswept(all, last', c) <= Unswept(all, last, c) - {rev};
    return false, last';
  }

  lemma ArrivedSwept(records: seq<Revision>, arrivals: seq<Revision>, all: set<Revision>, last: Revision, c: int, keep: set<Revision>)
    requires SweptTo(records, all, last, c, keep)
    requires forall r :: r in arrivals ==> r.main > c && r.main >= 0 && r.sub >= 0
    ensures SweptTo(records + arrivals, all + (set r | r in arrivals), last, c, keep)
  {
  }

  lemma NextPause(pauses: seq<Pause>, n: nat, records: seq<Revision>)
    requires n < |pauses| && Increasing(records) && Increasing(Arrivals(pauses[n..]))
    requires forall r :: r in Arrivals(pauses[n..]) ==> AboveAll(r, records)
    ensures Increasing(records + pauses[n].arrivals) && Increasing(Arrivals(pauses[n + 1..]))
    ensures forall r :: r in Arrivals(pauses[n + 1..]) ==> r in Arrivals(pauses[n..]) && AboveAll(r, records + pauses[n].arrivals)
    ensures forall r :: r in pauses[n].arrivals ==> r in Arrivals(pauses[n..])
    ensures forall r :: r in Arrivals(pauses[..n + 1]) <==> r in Arrivals(pauses[..n]) || r in pauses[n].arrivals
  {
    ArrivalsSplit(pauses, n);
    AppendPause(pauses, n);
    SplitIncreasing(records, pauses[n].arrivals, Arrivals(pauses[n + 1..]));
  }

  lemma SplitIncreasing(records: seq<Revision>, now: seq<Revision>, later: seq<Revision>)
    requires Increasing(records) && Increasing(now + later)
    requires forall r :: r in now + later ==> AboveAll(r, records)
    ensures Increasing(records + now) && Increasing(later)
    ensures forall r :: r in later ==> AboveAll(r, records + now)
  {
    var revs := records + now;
    forall i, j | 0 <= i < j < |revs| ensures revs[j].GreaterThan(revs[i]) {
      if i < |records| <= j {
        assert (now + later)[j - |records|] in now + later;
      } else if |records| <= i {
        assert (now + later)[j - |records|].GreaterThan((now + later)[i - |records|]);
      }
    }
    forall i, j | 0 <= i < j < |later| ensures later[j].GreaterThan(later[i]) {
      assert (now + later)[|now| + j].GreaterThan((now + later)[|now| + i]);
    }
    forall r, q | r in later && q in records + now ensures r.GreaterThan(q) {
      var i :| 0 <= i < |later| && later[i] == r;
      assert (now + later)[|now| + i] in now + later;
      if q in now {
        var j :| 0 <= j < |now| && now[j] == q;
        assert (now + later)[|now| + i].GreaterThan((now + later)[j]);
      }
    }
  }

  lemma {:induction false} AppendPause(pauses: seq<Pause>, i: nat)
    requires i < |pauses|
    ensures Arrivals(pauses[..i + 1]) == Arrivals(pauses[..i]) + pauses[i].arrivals
    decreases i
  {
    if i > 0 {
      AppendPause(pauses[1..], i - 1);
      assert pauses[1..][..i] == pauses[..i + 1][1..];
      assert pauses[1..][..i - 1] == pauses[..i][1..];
    } else {
      assert pauses[..1][1..] == [];
    }
  }

  // ---------- Index and backend name the same revisions ----------

  function LogRevs(log: Log): set<Revision> {
    set c | c in log :: c.event.rev
  }

  predicate OnlyWrites(ops: seq<Op>) {
    forall op :: op in ops ==> !op.OpCompact?
  }

  /** A write adds exactly its own revision to the index. */
  lemma WriteAddsRev(s: State, op: Op)
    requires Good(s) && Enabled(s, op) && !op.OpCompact?
    ensures IndexRevs(Step(s, op).tree) == IndexRevs(s.tree) + (LogRevs(Step(s, op).log) - LogRevs(s.log))
    ensures LogRevs(s.log) <= LogRevs(Step(s, op).log)
  {
    var s' := Step(s, op);
    if s' != s {
      var ch := s'.log[|s.log|];
      assert s'.log == s.log + [ch];
      assert LogRevs(s'.log) == LogRevs(s.log) + {op.rev};
      assert op.rev !in LogRevs(s.log);
      WrittenKey(s, op);
      forall r ensures r in IndexRevs(s'.tree) <==> r in IndexRevs(s.tree) + {op.rev} {
        KeyAddsRev(s.tree, s'.tree, op.key, op.rev, r);
      }
    }
  }

  lemma WrittenKey(s: State, op: Op)
    requires NonEmptyEntries(s.tree) && !op.OpCompact? && Step(s, op) != s
    ensures var t' := Step(s, op).tree;
            op.key in t' && AllRevs(t'[op.key].generations) == AllRevs(GensOf(s.tree, op.key)) + [op.rev]
  {
    var gens := GensOf(s.tree, op.key);
    PutKeepsRevs(gens, op.rev);
    TombstoneKeepsRevs(gens, op.rev);
    assert PutGens([], op.rev) == PutGens([NO_GENERATION], op.rev);
  }

  lemma KeyAddsRev(t: Tree, t': Tree, k: Key, rev: Revision, r: Revision)
    requires k in t' && AllRevs(t'[k].generations) == AllRevs(GensOf(t, k)) + [rev]
    requires forall k' :: k' != k ==> (k' in t <==> k' in t') && (k' in t ==> t'[k'] == t[k'])
    ensures r in IndexRevs(t') <==> r in IndexRevs(t) || r == rev
  {
    assert AllRevs([NO_GENERATION]) == [];
    if r in IndexRevs(t') {
      var k' :| k' in t' && r in AllRevs(t'[k'].generations);
      if k' == k && r != rev {
        assert r in AllRevs(GensOf(t, k)) && k in t;
      }
    }
    if r in IndexRevs(t) {
      var k' :| k' in t && r in AllRevs(t[k'].generations);
      assert k' in t' && r in AllRevs(t'[k'].generations);
    }
    if r == rev {
      assert r in AllRevs(t'[k].generations);
    }
  }

  lemma {:induction false} WritesAddRevs(s: State, ops: seq<Op>)
    requires Good(s) && Allowed(s, ops) && OnlyWrites(ops)
    ensures IndexRevs(Run(s, ops).tree) == IndexRevs(s.tree) + (LogRevs(Run(s, ops).log) - LogRevs(s.log))
    ensures LogRevs(s.log) <= LogRevs(Run(s, ops).log)
    decreases |ops|
  {
    if |ops| > 0 {
      StepIsGood(s, ops[0]);
      WriteAddsRev(s, ops[0]);
      WritesAddRevs(Step(s, ops[0]), ops[1..]);
    }
  }

  lemma {:induction false} WritesStayAbove(s: State, ops: seq<Op>)
    requires Good(s) && Allowed(s, ops) && OnlyWrites(ops)
    ensures forall c :: c in Run(s, ops).log ==> c in s.log || c.event.rev.main > s.compacted
    ensures Run(s, ops).compacted == s.compacted
    decreases |ops|
  {
    if |ops| > 0 {
      StepIsGood(s, ops[0]);
      WriteStaysAbove(s, ops[0]);
      WritesStayAbove(Step(s, ops[0]), ops[1..]);
    }
  }

  lemma WriteStaysAbove(s: State, op: Op)
    requires Good(s) && Enabled(s, op) && !op.OpCompact?
    ensures Step(s, op).compacted == s.compacted
    ensures forall c :: c in Step(s, op).log ==> c in s.log || c.event.rev.main > s.compacted
  {
    var s' := Step(s, op);
    if s' != s {
      assert s'.log == s.log + [s'.log[|s.log|]];
    }
  }

  /** If the backend held exactly the index's revisions when the compaction was
      taken, then after the tree walk, the sweep with the returned keep set, and
      whatever was written meanwhile, it again holds exactly the revisions of the
      index. */
  lemma SweepRestoresAgreement(s: State, c: int, writes: seq<Op>, before: set<Revision>, after: set<Revision>)
    requires Good(s) && s.compacted <= c
    requires Allowed(Step(s, OpCompact(c)), writes) && OnlyWrites(writes)
    requires before == IndexRevs(s.tree)
    requires var arrived := LogRevs(Run(Step(s, OpCompact(c)), writes).log) - LogRevs(s.log);
             forall r :: r in after <==> (r in before || r in arrived) && (r.main > c || r in KeepTree(s.tree, c))
    ensures after == IndexRevs(Run(Step(s, OpCompact(c)), writes).tree)
  {
    var a := Step(s, OpCompact(c));
    StepIsGood(s, OpCompact(c));
    CompactedIndexRevs(s, c);
    WritesAddRevs(a, writes);
    WritesStayAbove(a, writes);
  }

  /** Writes above `c` leave what a compaction at `c` keeps of every key. */
  lemma {:induction false} WritesKeep(s: State, ops: seq<Op>, c: int, k: Key)
    requires Good(s) && Allowed(s, ops) && OnlyWrites(ops) && s.compacted == c
    ensures KeptRev(Build(HistoryOf(Run(s, ops).log, k)), c) == KeptRev(Build(HistoryOf(s.log, k)), c)
    decreases |ops|
  {
    if |ops| > 0 {
      var s' := Step(s, ops[0]);
      StepIsGood(s, ops[0]);
      if s' != s {
        WriteKeeps(s.log, s'.log[|s.log|], c, k);
        assert s'.log == s.log + [s'.log[|s.log|]];
      }
      WritesKeep(s', ops[1..], c, k);
    }
  }

  /** The keep set computed again after the compaction and later writes is the one
      the compaction returned. */
  lemma KeepIsStable(s: State, c: int, writes: seq<Op>)
    requires Good(s) && s.compacted <= c
    requires Allowed(Step(s, OpCompact(c)), writes) && OnlyWrites(writes)
    ensures Good(Run(Step(s, OpCompact(c)), writes))
    ensures KeepTree(Run(Step(s, OpCompact(c)), writes).tree, c) == KeepTree(s.tree, c)
  {
    var a := Step(s, OpCompact(c));
    StepIsGood(s, OpCompact(c));
    RunIsGood(a, writes);
    WritesStayAbove(a, writes);
    var e := Run(a, writes);
    forall r ensures r in KeepTree(e.tree, c) <==> r in KeepTree(s.tree, c) {
      forall k ensures KeptOf(e.log, k, c) == KeptOf(s.log, k, c) {
        WritesKeep(a, writes, c, k);
      }
      KeepIsFromLog(e.tree, e.log, c, c, r);
      KeepIsFromLog(s.tree, s.log, s.compacted, c, r);
    }
  }

  /** A sweep that was stopped early can be run again, with the keep set computed anew
      from the compacted index and whatever was written since: backend and index agree
      again. */
  lemma SweepResumes(s: State, c: int, writes: seq<Op>, partial: set<Revision>, after: set<Revision>)
    requires Good(s) && s.compacted <= c
    requires Allowed(Step(s, OpCompact(c)), writes) && OnlyWrites(writes)
    requires var e := Run(Step(s, OpCompact(c)), writes);
             var held := IndexRevs(s.tree) + (LogRevs(e.log) - LogRevs(s.log));
             && partial <= held && (forall r :: r in held && (r.main > c || r in KeepTree(s.tree, c)) ==> r in partial)
             && NonEmptyEntries(e.tree) && after == set r | r in partial && (r.main > c || r in KeepTree(e.tree, c))
    ensures after == IndexRevs(Run(Step(s, OpCompact(c)), writes).tree)
  {
    KeepIsStable(s, c, writes);
    SweepRestoresAgreement(s, c, writes, IndexRevs(s.tree), after);
  }
}
