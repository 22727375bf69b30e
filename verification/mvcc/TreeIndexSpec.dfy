/** The whole revision index as a value: a tree of key entries, the operations on
    it, the log of changes it must agree with, and the laws of complete runs. */
module TreeIndexSpec {
  import opened Bytes
  import opened Revisions
  import opened KeyIndexSpec
  import Laws = KeyIndexLaws

  datatype Entry = Entry(modified: Revision, generations: seq<Generation>)

  type Tree = map<Key, Entry>

  // ---------- Operations ----------

  function GensOf(t: Tree, k: Key): seq<Generation> {
    if k in t then t[k].generations else [NO_GENERATION]
  }

  function PutTree(t: Tree, k: Key, rev: Revision): Tree {
    t[k := Entry(rev, PutGens(if k in t then t[k].generations else [], rev))]
  }

  /** A tombstone is refused when the key is absent or already dead. */
  predicate CanTombstone(t: Tree, k: Key) {
    k in t && |t[k].generations| > 0 && !LastIsEmpty(t[k].generations)
  }

  function TombstoneTree(t: Tree, k: Key, rev: Revision): Tree {
    if CanTombstone(t, k) then t[k := Entry(rev, TombstoneGens(t[k].generations, rev))] else t
  }

  function GetTree(t: Tree, k: Key, atRev: int): GetResult {
    if k in t && |t[k].generations| > 0 then GetGens(t[k].generations, atRev) else RevisionNotFound
  }

  ghost predicate NonEmptyEntries(t: Tree) {
    forall k :: k in t ==> |t[k].generations| > 0
  }

  /** Compaction of one key, as the locked section of the tree walk performs it. */
  function CompactKey(t: Tree, k: Key, c: int): Tree
    requires k in t ==> |t[k].generations| > 0
  {
    if k !in t then t
    else
      var gens := CompactGens(t[k].generations, c);
      if IsEmpty(gens) then t - {k} else t[k := Entry(t[k].modified, gens)]
  }

  function CompactTree(t: Tree, c: int): Tree
    requires NonEmptyEntries(t)
  {
    map k | k in t && !IsEmpty(CompactGens(t[k].generations, c)) ::
      Entry(t[k].modified, CompactGens(t[k].generations, c))
  }

  /** The revisions at or below `c` that survive a compaction at `c`. */
  function KeepTree(t: Tree, c: int): set<Revision>
    requires NonEmptyEntries(t)
  {
    set k, r | k in t && r in KeptRev(t[k].generations, c) :: r
  }

  /** Every revision the index names, hence every backend record it needs. */
  function IndexRevs(t: Tree): set<Revision> {
    set k, r | k in t && r in AllRevs(t[k].generations) :: r
  }

  // ---------- The log ----------

  datatype Change = Change(key: Key, event: Event)

  type Log = seq<Change>

  function HistoryOf(log: Log, k: Key): (h: History)
    ensures forall e :: e in h <==> Change(k, e) in log
  {
    if |log| == 0 then []
    else
      var c := log[|log| - 1];
      var h := HistoryOf(log[..|log| - 1], k);
      assert log == log[..|log| - 1] + [c];
      if c.key == k then h + [c.event] else h
  }

  predicate AboveLog(rev: Revision, log: Log) {
    forall c :: c in log ==> rev.GreaterThan(c.event.rev)
  }

  /** Revisions increase along the whole log and every key's part of it is a valid
      history. */
  ghost predicate ValidLog(log: Log) {
    && (forall i, j :: 0 <= i < j < |log| ==> log[j].event.rev.GreaterThan(log[i].event.rev))
    && (forall k :: ValidHistory(HistoryOf(log, k)))
  }

  // ---------- Agreement of tree and log ----------

  /** Key `k` is stored exactly as its history, compacted at `c`, demands: it is
      absent when nothing is left of it. */
  ghost predicate KeyAgrees(t: Tree, k: Key, h: History, c: int) {
    && GensOf(t, k) == CompactGens(Build(h), c)
    && (k in t ==> !IsEmpty(t[k].generations) && |h| > 0 && t[k].modified == h[|h| - 1].rev)
  }

  /** Keys in `pending` still show the older compaction `floor`, all others `c`. */
  ghost predicate AgreesExcept(t: Tree, log: Log, pending: set<Key>, floor: int, c: int) {
    forall k :: KeyAgrees(t, k, HistoryOf(log, k), if k in pending then floor else c)
  }

  ghost predicate Agrees(t: Tree, log: Log, c: int) {
    forall k :: KeyAgrees(t, k, HistoryOf(log, k), c)
  }

  lemma AgreementDetermines(t: Tree, u: Tree, log: Log, c: int)
    requires Agrees(t, log, c) && Agrees(u, log, c)
    ensures t == u
  {
    forall k ensures k in t <==> k in u {
      assert KeyAgrees(t, k, HistoryOf(log, k), c) && KeyAgrees(u, k, HistoryOf(log, k), c);
    }
    forall k | k in t ensures t[k] == u[k] {
      assert KeyAgrees(t, k, HistoryOf(log, k), c) && KeyAgrees(u, k, HistoryOf(log, k), c);
    }
  }

  lemma HistoryAppend(log: Log, c: Change, k: Key)
    ensures HistoryOf(log + [c], k) == if c.key == k then HistoryOf(log, k) + [c.event] else HistoryOf(log, k)
  {
    assert (log + [c])[..|log|] == log;
  }

  /** A new change keeps the log valid: it only has to be newer than all others,
      and a tombstone may only follow a put. */
  lemma AppendIsValid(log: Log, c: Change)
    requires ValidLog(log) && AboveLog(c.event.rev, log) && c.event.rev.main > 0
    requires c.event.Tombstone? ==> Live(HistoryOf(log, c.key))
    ensures ValidLog(log + [c])
  {
    forall k ensures ValidHistory(HistoryOf(log + [c], k)) {
      HistoryAppend(log, c, k);
      var h := HistoryOf(log, k);
      assert ValidHistory(h);
      if c.key == k {
        var h' := h + [c.event];
        forall i, j | 0 <= i < j < |h'| ensures RevsOf(h')[j].GreaterThan(RevsOf(h')[i]) {
          if j == |h| {
            assert h[i] in h;
          } else {
            assert RevsOf(h)[j] == RevsOf(h')[j] && RevsOf(h)[i] == RevsOf(h')[i];
          }
        }
        forall i | 0 <= i < |h'| ensures DeletesLive(h', i) {
          assert h'[..i] == h[..i] && (i < |h| ==> DeletesLive(h, i));
        }
      }
    }
  }

  // ---------- Single steps keep the agreement ----------

  lemma PutIsNotEmpty(gens: seq<Generation>, rev: Revision)
    ensures !IsEmpty(PutGens(gens, rev)) && !LastIsEmpty(PutGens(gens, rev))
  {
  }

  lemma PutKey(t: Tree, k: Key, h: History, c: int, rev: Revision)
    requires KeyAgrees(t, k, h, c) && rev.main > c
    ensures KeyAgrees(PutTree(t, k, rev), k, h + [Put(rev)], c)
  {
    var h' := h + [Put(rev)];
    assert h'[..|h|] == h;
    Laws.CompactAfterPut(Build(h), rev, c);
    PutIsNotEmpty(GensOf(t, k), rev);
    assert PutGens([], rev) == PutGens([NO_GENERATION], rev);
  }

  /** The tombstone is accepted exactly when the key is alive. */
  lemma TombstoneAccepted(t: Tree, k: Key, h: History, c: int)
    requires KeyAgrees(t, k, h, c) && ValidHistory(h)
    ensures CanTombstone(t, k) <==> Live(h)
  {
    Laws.BuildIsValid(h);
    Laws.BuildLastGeneration(h);
    CompactIsValid(Build(h), ZERO, c);
  }

  lemma TombstoneKey(t: Tree, k: Key, h: History, c: int, rev: Revision)
    requires KeyAgrees(t, k, h, c) && rev.main > c && CanTombstone(t, k)
    ensures KeyAgrees(TombstoneTree(t, k, rev), k, h + [Tombstone(rev)], c)
  {
    var h' := h + [Tombstone(rev)];
    assert h'[..|h|] == h;
    Laws.CompactAfterTombstone(Build(h), rev, c);
  }

  lemma CompactKeyAgrees(t: Tree, k: Key, h: History, a: int, c: int)
    requires KeyAgrees(t, k, h, a) && a <= c
    ensures KeyAgrees(CompactKey(t, k, c), k, h, c)
    ensures k in t ==> KeptRev(t[k].generations, c) == KeptRev(Build(h), c)
    ensures k !in t ==> KeptRev(Build(h), c) == {}
  {
    Laws.CompactTwice(Build(h), a, c);
    if k !in t {
      assert CompactGens([NO_GENERATION], c) == [NO_GENERATION];
    } else {
      EmptyIsNone(CompactGens(t[k].generations, c), h, c);
    }
  }

  /** An index entry with nothing left is literally the blank one. */
  lemma EmptyIsNone(gens: seq<Generation>, h: History, c: int)
    requires gens == CompactGens(Build(h), c)
    ensures IsEmpty(gens) ==> gens == [NO_GENERATION]
  {
    Laws.BuildLastGeneration(h);
    LastAfterCompact(Build(h), c);
  }

  lemma LastAfterCompact(gens: seq<Generation>, c: int)
    requires |gens| > 0
    ensures var gens' := CompactGens(gens, c);
            gens'[|gens'| - 1].created == gens[|gens| - 1].created && gens'[|gens'| - 1].ver == gens[|gens| - 1].ver
            && (LastIsEmpty(gens') <==> LastIsEmpty(gens))
  {
  }

  // ---------- Complete runs ----------

  datatype Op =
    | OpPut(key: Key, rev: Revision)
    | OpTombstone(key: Key, rev: Revision)
    | OpCompact(at: int)

  /** The index beside the log of all accepted changes. */
  datatype State = State(tree: Tree, log: Log, compacted: int)

  const INITIAL := State(map[], [], -1)

  /** Writes carry increasing revisions, above the last compaction; compactions do
      not go back. */
  predicate Enabled(s: State, op: Op) {
    match op
    case OpCompact(c) => c >= s.compacted
    case _ => op.rev.main > 0 && op.rev.main > s.compacted && AboveLog(op.rev, s.log)
  }

  ghost function Step(s: State, op: Op): State
    requires NonEmptyEntries(s.tree)
  {
    match op
    case OpPut(k, rev) => State(PutTree(s.tree, k, rev), s.log + [Change(k, Put(rev))], s.compacted)
    case OpTombstone(k, rev) =>
      if CanTombstone(s.tree, k)
      then State(TombstoneTree(s.tree, k, rev), s.log + [Change(k, Tombstone(rev))], s.compacted)
      else s
    case OpCompact(c) => State(CompactTree(s.tree, c), s.log, c)
  }

  ghost predicate Good(s: State) {
    ValidLog(s.log) && Agrees(s.tree, s.log, s.compacted) && NonEmptyEntries(s.tree)
  }

  /** Agreement at a key is a matter of that key's slot alone. */
  lemma SameSlot(t: Tree, u: Tree, k: Key, h: History, c: int)
    requires KeyAgrees(t, k, h, c)
    requires (k in t <==> k in u) && (k in t ==> t[k] == u[k])
    ensures KeyAgrees(u, k, h, c)
  {
  }

  function WriteTree(t: Tree, ch: Change): Tree {
    if ch.event.Put? then PutTree(t, ch.key, ch.event.rev) else TombstoneTree(t, ch.key, ch.event.rev)
  }

  lemma WriteKey(t: Tree, h: History, level: int, ch: Change)
    requires KeyAgrees(t, ch.key, h, level) && ch.event.rev.main > level
    requires ch.event.Tombstone? ==> CanTombstone(t, ch.key)
    ensures KeyAgrees(WriteTree(t, ch), ch.key, h + [ch.event], level)
  {
    match ch.event
    case Put(rev) => PutKey(t, ch.key, h, level, rev);
    case Tombstone(rev) => TombstoneKey(t, ch.key, h, level, rev);
  }

  /** A write above `c` keeps the agreement of every key, compacted or not. */
  lemma WriteStep(t: Tree, log: Log, pending: set<Key>, floor: int, c: int, ch: Change)
    requires ValidLog(log) && AgreesExcept(t, log, pending, floor, c) && floor <= c
    requires ch.event.rev.main > 0 && ch.event.rev.main > c && AboveLog(ch.event.rev, log)
    requires ch.event.Tombstone? ==> CanTombstone(t, ch.key)
    ensures ValidLog(log + [ch]) && AgreesExcept(WriteTree(t, ch), log + [ch], pending, floor, c)
  {
    var h := HistoryOf(log, ch.key);
    var level := if ch.key in pending then floor else c;
    assert KeyAgrees(t, ch.key, h, level);
    assert ValidHistory(h);
    TombstoneAccepted(t, ch.key, h, level);
    AppendIsValid(log, ch);
    WriteKey(t, h, level, ch);
    var t' := WriteTree(t, ch);
    forall k ensures KeyAgrees(t', k, HistoryOf(log + [ch], k), if k in pending then floor else c) {
      HistoryAppend(log, ch, k);
      if k != ch.key {
        SameSlot(t, t', k, HistoryOf(log, k), if k in pending then floor else c);
      }
    }
  }

  /** A write above `c` does not change what a compaction at `c` keeps. */
  lemma WriteKeeps(log: Log, ch: Change, c: int, k: Key)
    requires ch.event.rev.main > c
    ensures KeptRev(Build(HistoryOf(log + [ch], k)), c) == KeptRev(Build(HistoryOf(log, k)), c)
  {
    HistoryAppend(log, ch, k);
    if k == ch.key {
      var h := HistoryOf(log, k);
      assert (h + [ch.event])[..|h|] == h;
      Laws.CompactAfterPut(Build(h), ch.event.rev, c);
      Laws.CompactAfterTombstone(Build(h), ch.event.rev, c);
    }
  }

  lemma CompactTreeSlot(t: Tree, k: Key, c: int)
    requires NonEmptyEntries(t)
    ensures var u, v := CompactTree(t, c), CompactKey(t, k, c);
            (k in u <==> k in v) && (k in u ==> u[k] == v[k])
  {
  }

  lemma CompactStep(t: Tree, log: Log, a: int, c: int)
    requires NonEmptyEntries(t) && Agrees(t, log, a) && a <= c
    ensures Agrees(CompactTree(t, c), log, c) && NonEmptyEntries(CompactTree(t, c))
  {
    forall k ensures KeyAgrees(CompactTree(t, c), k, HistoryOf(log, k), c) {
      assert KeyAgrees(t, k, HistoryOf(log, k), a);
      CompactKeyAgrees(t, k, HistoryOf(log, k), a, c);
      CompactTreeSlot(t, k, c);
      SameSlot(CompactKey(t, k, c), CompactTree(t, c), k, HistoryOf(log, k), c);
    }
  }

  /** What a compaction at `c` of the key's whole history keeps. */
  function KeptOf(log: Log, k: Key, c: int): set<Revision> {
    KeptRev(Build(HistoryOf(log, k)), c)
  }

  ghost predicate KeptAt(log: Log, c: int, r: Revision) {
    exists k {:trigger KeptOf(log, k, c)} :: r in KeptOf(log, k, c)
  }

  /** The keep set is fixed by the log alone. */
  lemma KeepIsFromLog(t: Tree, log: Log, a: int, c: int, r: Revision)
    requires NonEmptyEntries(t) && Agrees(t, log, a) && a <= c
    ensures r in KeepTree(t, c) <==> KeptAt(log, c, r)
  {
    if r in KeepTree(t, c) {
      var k :| k in t && r in KeptRev(t[k].generations, c);
      assert KeyAgrees(t, k, HistoryOf(log, k), a);
      CompactKeyAgrees(t, k, HistoryOf(log, k), a, c);
      assert r in KeptOf(log, k, c);
    }
    if KeptAt(log, c, r) {
      var k :| r in KeptOf(log, k, c);
      assert KeyAgrees(t, k, HistoryOf(log, k), a);
      CompactKeyAgrees(t, k, HistoryOf(log, k), a, c);
    }
  }

  lemma StepIsGood(s: State, op: Op)
    requires Good(s) && Enabled(s, op)
    ensures Good(Step(s, op))
  {
    match op
    case OpPut(k, rev) =>
      WriteStep(s.tree, s.log, {}, s.compacted, s.compacted, Change(k, Put(rev)));
      AgreesWithNonePending(Step(s, op).tree, Step(s, op).log, s.compacted);
    case OpTombstone(k, rev) =>
      if CanTombstone(s.tree, k) {
        WriteStep(s.tree, s.log, {}, s.compacted, s.compacted, Change(k, Tombstone(rev)));
        AgreesWithNonePending(Step(s, op).tree, Step(s, op).log, s.compacted);
      }
    case OpCompact(c) =>
      CompactStep(s.tree, s.log, s.compacted, c);
  }

  lemma AgreesWithNonePending(t: Tree, log: Log, c: int)
    requires AgreesExcept(t, log, {}, c, c)
    ensures Agrees(t, log, c)
  {
    forall k ensures KeyAgrees(t, k, HistoryOf(log, k), c) {
      assert KeyAgrees(t, k, HistoryOf(log, k), if k in {} then c else c);
    }
  }

  ghost predicate Allowed(s: State, ops: seq<Op>)
    decreases |ops|
  {
    |ops| > 0 ==> NonEmptyEntries(s.tree) && Enabled(s, ops[0]) && Allowed(Step(s, ops[0]), ops[1..])
  }

  ghost function Run(s: State, ops: seq<Op>): State
    requires Allowed(s, ops)
    decreases |ops|
  {
    if |ops| == 0 then s else Run(Step(s, ops[0]), ops[1..])
  }

  lemma {:induction false} RunIsGood(s: State, ops: seq<Op>)
    requires Good(s) && Allowed(s, ops)
    ensures Good(Run(s, ops))
    decreases |ops|
  {
    if |ops| > 0 {
      StepIsGood(s, ops[0]);
      RunIsGood(Step(s, ops[0]), ops[1..]);
    }
  }

  lemma InitialIsGood()
    ensures Good(INITIAL)
  {
    forall k ensures KeyAgrees(map[], k, HistoryOf([], k), -1) && ValidHistory(HistoryOf([], k)) {
      assert HistoryOf([], k) == [];
      assert CompactGens([NO_GENERATION], -1) == [NO_GENERATION];
    }
  }

  /** Reads at or above a key's compaction agree with the history, whether the
      entry was trimmed, removed, or removed and created again. */
  lemma KeyReads(t: Tree, k: Key, h: History, c: int, atRev: int)
    requires KeyAgrees(t, k, h, c) && ValidHistory(h) && c <= atRev
    ensures GetTree(t, k, atRev) == Lookup(h, atRev)
  {
    Laws.GetIsLookup(h, atRev);
    Laws.GetAfterCompact(Build(h), c, atRev);
  }

  /** The main law of the index: after any run of puts, tombstones and
      compactions, every read at or above the last compaction returns what the
      full, never compacted history says. */
  lemma RunReadsAgree(ops: seq<Op>, k: Key, atRev: int)
    requires Allowed(INITIAL, ops)
    requires atRev >= Run(INITIAL, ops).compacted
    ensures var s := Run(INITIAL, ops); GetTree(s.tree, k, atRev) == Lookup(HistoryOf(s.log, k), atRev)
  {
    InitialIsGood();
    RunIsGood(INITIAL, ops);
    var s := Run(INITIAL, ops);
    assert KeyAgrees(s.tree, k, HistoryOf(s.log, k), s.compacted);
    KeyReads(s.tree, k, HistoryOf(s.log, k), s.compacted, atRev);
  }

  /** Compacting twice gives the same tree and the same second keep set as the
      second compaction alone. */
  lemma CompactionsCompose(s: State, a: int, b: int)
    requires Good(s) && s.compacted <= a <= b
    ensures NonEmptyEntries(CompactTree(s.tree, a))
    ensures CompactTree(CompactTree(s.tree, a), b) == CompactTree(s.tree, b)
    ensures KeepTree(CompactTree(s.tree, a), b) == KeepTree(s.tree, b)
  {
    CompactStep(s.tree, s.log, s.compacted, a);
    CompactStep(CompactTree(s.tree, a), s.log, a, b);
    CompactStep(s.tree, s.log, s.compacted, b);
    AgreementDetermines(CompactTree(CompactTree(s.tree, a), b), CompactTree(s.tree, b), s.log, b);
    forall r ensures r in KeepTree(CompactTree(s.tree, a), b) <==> r in KeepTree(s.tree, b) {
      KeepIsFromLog(CompactTree(s.tree, a), s.log, a, b, r);
      KeepIsFromLog(s.tree, s.log, s.compacted, b, r);
    }
  }

  // ---------- Index and backend ----------

  /** The revisions named by the compacted tree are those above the compaction
      plus the keep set: logical and physical compaction remove the same records. */
  lemma CompactedIndexRevs(s: State, c: int)
    requires Good(s) && s.compacted <= c
    ensures IndexRevs(CompactTree(s.tree, c)) ==
            set r | r in IndexRevs(s.tree) && (r.main > c || r in KeepTree(s.tree, c))
  {
    forall r ensures r in IndexRevs(CompactTree(s.tree, c)) <==> r in IndexRevs(s.tree) && (r.main > c || r in KeepTree(s.tree, c)) {
      CompactedIndexRev(s, c, r);
    }
  }

  lemma CompactedIndexRev(s: State, c: int, r: Revision)
    requires Good(s) && s.compacted <= c
    ensures r in IndexRevs(CompactTree(s.tree, c)) <==> r in IndexRevs(s.tree) && (r.main > c || r in KeepTree(s.tree, c))
  {
    var t, t' := s.tree, CompactTree(s.tree, c);
    if r in IndexRevs(t) && r.main > c {
      var k :| k in t && r in AllRevs(t[k].generations);
      KeyKeeps(s, c, k, r);
    }
    if r in IndexRevs(t) && r in KeepTree(t, c) {
      var k :| k in t && r in KeptRev(t[k].generations, c);
      KeyKeeps(s, c, k, r);
    }
    if r in IndexRevs(t') {
      var k :| k in t' && r in AllRevs(t'[k].generations);
      KeyKeeps(s, c, k, r);
    }
  }

  lemma KeyKeeps(s: State, c: int, k: Key, r: Revision)
    requires Good(s) && k in s.tree
    ensures r in AllRevs(CompactGens(s.tree[k].generations, c)) <==>
              r in AllRevs(s.tree[k].generations) && (r.main > c || r in KeptRev(s.tree[k].generations, c))
    ensures r in KeptRev(s.tree[k].generations, c) ==> r in AllRevs(s.tree[k].generations)
    ensures r in AllRevs(CompactGens(s.tree[k].generations, c)) ==> k in CompactTree(s.tree, c)
  {
    EntryIsValid(s, k);
    Laws.CompactedRev(s.tree[k].generations, ZERO, c, r);
  }

  lemma EntryIsValid(s: State, k: Key)
    requires Good(s) && k in s.tree
    ensures Valid(s.tree[k].generations, ZERO)
    ensures forall r :: r in AllRevs(s.tree[k].generations) ==> r in RevsOf(HistoryOf(s.log, k))
    ensures !IsEmpty(s.tree[k].generations)
  {
    var h := HistoryOf(s.log, k);
    assert KeyAgrees(s.tree, k, h, s.compacted) && ValidHistory(h);
    Laws.BuildIsValid(h);
    CompactIsValid(Build(h), ZERO, s.compacted);
    Laws.CompactedRevs(Build(h), ZERO, s.compacted);
  }
}
