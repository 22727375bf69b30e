/** Compaction as it really runs: the tree is cloned once, then the keys of the
    clone are compacted one lock section at a time while writers slip in between.
    The result is the same as compacting atomically before all those writes. */
module CompactionRun {
  import opened Bytes
  import opened Revisions
  import opened KeyIndexSpec
  import opened TreeIndexSpec

  /** `pending` are the keys of the clone still to be visited, in order. A visited
      key that has left the tree is the "failed to delete" panic. */
  datatype Walk =
    | Walking(tree: Tree, log: Log, pending: seq<Key>, available: set<Revision>)
    | FailedToDelete

  datatype Turn = Visit | Write(op: Op)

  function Start(s: State, keys: seq<Key>): Walk {
    Walking(s.tree, s.log, keys, {})
  }

  ghost predicate CanTake(w: Walk, c: int, turn: Turn) {
    && w.Walking? && NonEmptyEntries(w.tree)
    && match turn
       case Visit => |w.pending| > 0
       case Write(op) => !op.OpCompact? && op.rev.main > 0 && op.rev.main > c && AboveLog(op.rev, w.log)
  }

  ghost function Take(w: Walk, c: int, turn: Turn): Walk
    requires CanTake(w, c, turn)
  {
    match turn
    case Visit =>
      var k := w.pending[0];
      if k !in w.tree then FailedToDelete
      else Walking(CompactKey(w.tree, k, c), w.log, w.pending[1..], w.available + KeptRev(w.tree[k].generations, c))
    case Write(op) =>
      var s := Step(State(w.tree, w.log, c), op);
      Walking(s.tree, s.log, w.pending, w.available)
  }

  ghost predicate CanTakeAll(w: Walk, c: int, turns: seq<Turn>)
    decreases |turns|
  {
    |turns| > 0 ==> CanTake(w, c, turns[0]) && CanTakeAll(Take(w, c, turns[0]), c, turns[1..])
  }

  ghost function TakeAll(w: Walk, c: int, turns: seq<Turn>): Walk
    requires CanTakeAll(w, c, turns)
    decreases |turns|
  {
    if |turns| == 0 then w else TakeAll(Take(w, c, turns[0]), c, turns[1..])
  }

  /** The writes of a schedule, in order. */
  function Writes(turns: seq<Turn>): seq<Op> {
    if |turns| == 0 then []
    else if turns[0].Visit? then Writes(turns[1..])
    else [turns[0].op] + Writes(turns[1..])
  }

  function PendingSet(w: Walk): set<Key>
    requires w.Walking?
  {
    set k | k in w.pending
  }

  predicate Distinct(keys: seq<Key>) {
    forall i, j :: 0 <= i < j < |keys| ==> keys[i] != keys[j]
  }

  /** Visited keys are compacted at `c`, pending ones still at `floor`; a pending
      key has not left the tree. */
  ghost predicate TreeMatches(w: Walk, floor: int, c: int) {
    && w.Walking? && NonEmptyEntries(w.tree) && floor <= c
    && AgreesExcept(w.tree, w.log, PendingSet(w), floor, c)
    && Distinct(w.pending)
    && forall k :: k in w.pending ==> k in w.tree
  }

  /** The collected set holds what the visited keys keep. */
  ghost predicate Collected(w: Walk, log: Log, keys: seq<Key>, c: int) {
    && w.Walking?
    && (forall k :: k in w.pending ==> k in keys)
    && (forall k :: KeptOf(w.log, k, c) == KeptOf(log, k, c))
    && (forall r :: r in w.available <==> exists k :: k in keys && k !in w.pending && r in KeptOf(log, k, c))
  }

  /** The walk `w` beside the state `a` of the atomic run, for a compaction that
      started in `s` with clone `keys`. */
  ghost predicate Matches(w: Walk, a: State, s: State, keys: seq<Key>, c: int) {
    && TreeMatches(w, s.compacted, c)
    && Collected(w, s.log, keys, c)
    && Good(a) && a.compacted == c && a.log == w.log
  }

  lemma StartMatches(s: State, keys: seq<Key>, c: int)
    requires Good(s) && s.compacted <= c
    requires Ascending(keys) && forall k :: k in keys <==> k in s.tree
    ensures Matches(Start(s, keys), Step(s, OpCompact(c)), s, keys, c)
  {
    var w := Start(s, keys);
    StepIsGood(s, OpCompact(c));
    forall i, j | 0 <= i < j < |keys| ensures keys[i] != keys[j] {
      assert Less(keys[i], keys[j]);
      CompareEqual(keys[i], keys[j]);
    }
    forall k ensures KeyAgrees(s.tree, k, HistoryOf(s.log, k), if k in PendingSet(w) then s.compacted else c) {
      assert KeyAgrees(s.tree, k, HistoryOf(s.log, k), s.compacted);
      if k !in keys {
        CompactKeyAgrees(s.tree, k, HistoryOf(s.log, k), s.compacted, c);
      }
    }
  }

  lemma VisitTree(w: Walk, floor: int, c: int)
    requires TreeMatches(w, floor, c) && CanTake(w, c, Visit)
    ensures TreeMatches(Take(w, c, Visit), floor, c)
    ensures KeptRev(w.tree[w.pending[0]].generations, c) == KeptOf(w.log, w.pending[0], c)
  {
    var k0 := w.pending[0];
    var w' := Take(w, c, Visit);
    assert PendingSet(w') == PendingSet(w) - {k0};
    assert KeyAgrees(w.tree, k0, HistoryOf(w.log, k0), floor);
    CompactKeyAgrees(w.tree, k0, HistoryOf(w.log, k0), floor, c);
    forall k ensures KeyAgrees(w'.tree, k, HistoryOf(w.log, k), if k in PendingSet(w') then floor else c) {
      if k != k0 {
        assert KeyAgrees(w.tree, k, HistoryOf(w.log, k), if k in PendingSet(w) then floor else c);
        SameSlot(w.tree, w'.tree, k, HistoryOf(w.log, k), if k in PendingSet(w) then floor else c);
      }
    }
  }

  lemma VisitCollects(w: Walk, log: Log, keys: seq<Key>, c: int)
    requires CanTake(w, c, Visit) && Distinct(w.pending) && w.pending[0] in w.tree
    requires KeptRev(w.tree[w.pending[0]].generations, c) == KeptOf(w.log, w.pending[0], c)
    requires Collected(w, log, keys, c)
    ensures Collected(Take(w, c, Visit), log, keys, c)
  {
    var k0 := w.pending[0];
    var w' := Take(w, c, Visit);
    assert KeptOf(w.log, k0, c) == KeptOf(log, k0, c);
    assert forall k :: k in w.pending <==> k == k0 || k in w'.pending;
    assert k0 !in w'.pending && k0 in keys;
    forall r ensures r in w'.available <==> exists k :: k in keys && k !in w'.pending && r in KeptOf(log, k, c) {
      if r in w.available {
        var k :| k in keys && k !in w.pending && r in KeptOf(log, k, c);
        assert k !in w'.pending;
      }
      if k :| k in keys && k !in w'.pending && r in KeptOf(log, k, c) {
        assert k == k0 || r in w.available;
      }
    }
  }

  lemma WriteMatches(w: Walk, a: State, s: State, keys: seq<Key>, c: int, op: Op)
    requires Matches(w, a, s, keys, c) && CanTake(w, c, Write(op))
    ensures Enabled(a, op)
    ensures Matches(Take(w, c, Write(op)), Step(a, op), s, keys, c)
  {
    StepIsGood(a, op);
    SameAnswer(w, a, s.compacted, c, op);
    if op.OpPut? || CanTombstone(w.tree, op.key) {
      var ch := Change(op.key, if op.OpPut? then Put(op.rev) else Tombstone(op.rev));
      WriteTreeMatches(w, s.compacted, c, op, ch);
      WriteCollected(w, Take(w, c, Write(op)), s.log, keys, c, ch);
    }
  }

  /** Both trees accept or refuse a tombstone alike. */
  lemma SameAnswer(w: Walk, a: State, floor: int, c: int, op: Op)
    requires TreeMatches(w, floor, c) && Good(a) && a.compacted == c && a.log == w.log && !op.OpCompact?
    ensures CanTombstone(w.tree, op.key) <==> CanTombstone(a.tree, op.key)
  {
    var level := if op.key in PendingSet(w) then floor else c;
    var h := HistoryOf(w.log, op.key);
    assert KeyAgrees(w.tree, op.key, h, level);
    assert KeyAgrees(a.tree, op.key, h, c) && ValidHistory(h);
    TombstoneAccepted(w.tree, op.key, h, level);
    TombstoneAccepted(a.tree, op.key, h, c);
  }

  lemma WriteTreeMatches(w: Walk, floor: int, c: int, op: Op, ch: Change)
    requires TreeMatches(w, floor, c) && ValidLog(w.log) && CanTake(w, c, Write(op))
    requires ch == Change(op.key, if op.OpPut? then Put(op.rev) else Tombstone(op.rev))
    requires op.OpPut? || CanTombstone(w.tree, op.key)
    ensures TreeMatches(Take(w, c, Write(op)), floor, c)
    ensures Take(w, c, Write(op)) == Walking(WriteTree(w.tree, ch), w.log + [ch], w.pending, w.available)
  {
    var w' := Take(w, c, Write(op));
    assert PendingSet(w') == PendingSet(w);
    WriteStep(w.tree, w.log, PendingSet(w), floor, c, ch);
  }

  lemma WriteCollected(w: Walk, w': Walk, log: Log, keys: seq<Key>, c: int, ch: Change)
    requires Collected(w, log, keys, c) && ch.event.rev.main > c
    requires w'.Walking? && w'.log == w.log + [ch] && w'.pending == w.pending && w'.available == w.available
    ensures Collected(w', log, keys, c)
  {
    forall k ensures KeptOf(w'.log, k, c) == KeptOf(log, k, c) {
      WriteKeeps(w.log, ch, c, k);
      assert KeptOf(w.log, k, c) == KeptOf(log, k, c);
    }
  }

  /** Every schedule of visits and writes matches the atomic run of its writes. */
  lemma {:induction false} ScheduleMatches(w: Walk, a: State, s: State, keys: seq<Key>, c: int, turns: seq<Turn>)
    requires Matches(w, a, s, keys, c) && CanTakeAll(w, c, turns)
    ensures Allowed(a, Writes(turns))
    ensures Matches(TakeAll(w, c, turns), Run(a, Writes(turns)), s, keys, c)
    decreases |turns|
  {
    if |turns| > 0 {
      match turns[0]
      case Visit =>
        VisitTree(w, s.compacted, c);
        VisitCollects(w, s.log, keys, c);
        ScheduleMatches(Take(w, c, Visit), a, s, keys, c, turns[1..]);
      case Write(op) =>
        WriteMatches(w, a, s, keys, c, op);
        ScheduleMatches(Take(w, c, Write(op)), Step(a, op), s, keys, c, turns[1..]);
        assert Writes(turns)[1..] == Writes(turns[1..]);
    }
  }

  lemma FinishedWalk(w: Walk, a: State, s: State, keys: seq<Key>, c: int)
    requires Matches(w, a, s, keys, c) && |w.pending| == 0
    requires Good(s) && forall k :: k in keys <==> k in s.tree
    ensures w.tree == a.tree
    ensures w.available == KeepTree(s.tree, c)
  {
    assert PendingSet(w) == {};
    forall k ensures KeyAgrees(w.tree, k, HistoryOf(w.log, k), c) {
      assert KeyAgrees(w.tree, k, HistoryOf(w.log, k), if k in PendingSet(w) then s.compacted else c);
    }
    AgreementDetermines(w.tree, a.tree, w.log, c);
    forall r ensures r in w.available <==> r in KeepTree(s.tree, c) {
      KeepIsFromLog(s.tree, s.log, s.compacted, c, r);
      if KeptAt(s.log, c, r) {
        var k :| r in KeptOf(s.log, k, c);
        assert KeyAgrees(s.tree, k, HistoryOf(s.log, k), s.compacted);
        CompactKeyAgrees(s.tree, k, HistoryOf(s.log, k), s.compacted, c);
        assert k in keys && r in KeptOf(s.log, k, c);
      }
    }
  }

  /** Compaction interleaved with any writes above `c`: it never fails to delete;
      at every point all reads at or above `c` are what the atomic run answers and
      what the history says; and once every key of the clone is visited the tree
      is the one an atomic compaction followed by the writes yields, and the
      returned set is the keep set of the starting tree. */
  lemma InterleavedCompaction(s: State, keys: seq<Key>, c: int, turns: seq<Turn>, k: Key, atRev: int)
    requires Good(s) && s.compacted <= c <= atRev
    requires Ascending(keys) && forall k :: k in keys <==> k in s.tree
    requires CanTakeAll(Start(s, keys), c, turns)
    ensures TakeAll(Start(s, keys), c, turns).Walking?
    ensures Allowed(s, [OpCompact(c)] + Writes(turns))
    ensures var w, a := TakeAll(Start(s, keys), c, turns), Run(s, [OpCompact(c)] + Writes(turns));
            && w.log == a.log
            && GetTree(w.tree, k, atRev) == GetTree(a.tree, k, atRev) == Lookup(HistoryOf(w.log, k), atRev)
            && (|w.pending| == 0 ==> w.tree == a.tree && w.available == KeepTree(s.tree, c))
  {
    var ops := [OpCompact(c)] + Writes(turns);
    assert ops[1..] == Writes(turns);
    StartMatches(s, keys, c);
    ScheduleMatches(Start(s, keys), Step(s, OpCompact(c)), s, keys, c, turns);
    var w, a := TakeAll(Start(s, keys), c, turns), Run(s, ops);
    var h := HistoryOf(w.log, k);
    var pending := PendingSet(w);
    assert KeyAgrees(w.tree, k, h, if k in pending then s.compacted else c);
    assert KeyAgrees(a.tree, k, h, c) && ValidHistory(h);
    KeyReads(w.tree, k, h, if k in pending then s.compacted else c, atRev);
    KeyReads(a.tree, k, h, c, atRev);
    if |w.pending| == 0 {
      FinishedWalk(w, a, s, keys, c);
    }
  }
}
