/** What the disk holds over any run of writes, compactions, sweeps and crashes, and when
    a start brings back the store that was there. */
module Crashes {
  import opened Bytes
  import opened Revisions
  import opened KeyIndexSpec
  import opened TreeIndexSpec
  import opened Restart
  import opened Stores
  import Laws = KeyIndexLaws
  import Reads = TreeIndexReads
  import TreeIndexes
  import Sweep

  // ---------- One key under sweeps and writes ----------

  /** What is at or below `c` is a history that a compaction leaves low. */
  lemma LowKept(h: History, c: int, low: nat)
    requires ValidHistory(h) && HighFrom(h, c, low)
    ensures KeptRev(Build(h[..low]), c) == if Live(h[..low]) then {h[..low][low - 1].rev} else {}
  {
    BuildIsLow(h, c, low);
    CompactLow(Build(h[..low]), h[..low], c);
  }

  lemma HighKept(h: History, c: int, low: nat)
    requires HighFrom(h, c, low)
    ensures KeptRev(Build(h), c) == KeptRev(Build(h[..low]), c)
  {
    assert h[..|h|] == h;
    HighKeeps(h, c, low, |h|);
  }

  /** A compaction keeps the newest event at or below it, if that is a put. */
  lemma KeptIs(h: History, c: int, low: nat)
    requires ValidHistory(h) && HighFrom(h, c, low)
    ensures KeptRev(Build(h), c) == if Live(h[..low]) then {h[low - 1].rev} else {}
  {
    LowKept(h, c, low);
    HighKept(h, c, low);
  }

  lemma DistinctEvents(h: History, i: nat, j: nat)
    requires ValidHistory(h) && i < |h| && j < |h|
    ensures h[i].rev == h[j].rev ==> i == j
  {
    if i < j { assert RevsOf(h)[j].GreaterThan(RevsOf(h)[i]); }
    if j < i { assert RevsOf(h)[i].GreaterThan(RevsOf(h)[j]); }
  }

  /** The event a compaction keeps stands at one place. */
  lemma KeptAtPlace(h: History, c: int, low: nat, j: nat)
    requires ValidHistory(h) && HighFrom(h, c, low) && j < |h|
    ensures h[j].rev in KeptRev(Build(h), c) <==> Live(h[..low]) && j + 1 == low
  {
    if low > 0 {
      DistinctEvents(h, j, low - 1);
    }
    KeptIs(h, c, low);
  }

  /** What a sweep at `a` leaves is also a state in which a sweep at a later revision can
      begin. */
  lemma CutMovesUp(h: History, held: set<Revision>, a: int, c: int)
    requires ValidHistory(h) && a <= c && CutSomewhere(h, held, a)
    ensures CutSomewhere(h, held, c)
  {
    var i: nat :| Cut(h, held, a, i);
    var lowA := LowCount(h, a, |h|);
    var lowC := LowCount(h, c, |h|);
    var from := if Live(h[..lowA]) && lowA - 1 < i then lowA - 1 else i;
    forall j | 0 <= j < |h| ensures CutAt(h, held, c, from, j) {
      CutAtMovesUp(h, held, a, c, i, lowA, lowC, from, j);
    }
    assert Cut(h, held, c, from);
  }

  lemma CutAtMovesUp(h: History, held: set<Revision>, a: int, c: int, i: nat, lowA: nat, lowC: nat, from: nat, j: nat)
    requires ValidHistory(h) && a <= c && Cut(h, held, a, i) && HighFrom(h, a, lowA) && HighFrom(h, c, lowC) && j < |h|
    requires from == if Live(h[..lowA]) && lowA - 1 < i then lowA - 1 else i
    ensures CutAt(h, held, c, from, j)
  {
    KeptAtPlace(h, a, lowA, j);
    KeptAtPlace(h, c, lowC, j);
    assert CutAt(h, held, a, i, j);
  }

  lemma KeptIsEvent(log: Log, c: int, k: Key, r: Revision)
    requires ValidLog(log) && r in KeptRev(Build(HistoryOf(log, k)), c)
    ensures r in RevsOf(HistoryOf(log, k)) && r.main <= c
  {
    var h := HistoryOf(log, k);
    Laws.BuildIsValid(h);
    Laws.CompactedRev(Build(h), ZERO, c, r);
  }

  lemma KeptOfKey(log: Log, c: int, k: Key, r: Revision)
    requires ValidLog(log) && r in RevsOf(HistoryOf(log, k))
    ensures KeptAt(log, c, r) <==> r in KeptRev(Build(HistoryOf(log, k)), c)
  {
    assert KeptOf(log, k, c) == KeptRev(Build(HistoryOf(log, k)), c);
    if KeptAt(log, c, r) {
      var k' :| r in KeptOf(log, k', c);
      KeptIsEvent(log, c, k', r);
      if k' != k {
        Reads.DistinctKeysDistinctRevs(log, k, k', r);
      }
    }
  }

  /** The records left when a sweep at `c` has come up to `last`. */
  ghost function SweptUpTo(log: Log, held: set<Revision>, c: int, last: Revision): set<Revision> {
    set r | r in held && (r.main > c || KeptAt(log, c, r) || !last.GreaterThan(r))
  }

  /** Every batch of the sweep leaves such records, when its keep set is what a compaction
      at `c` keeps. */
  lemma BatchLeaves(log: Log, held: set<Revision>, records: seq<Revision>, last: Revision, c: int, keep: set<Revision>)
    requires Sweep.SweptTo(records, held, last, c, keep) && forall r :: r in held ==> (r in keep <==> KeptAt(log, c, r))
    ensures (set r | r in records) == SweptUpTo(log, held, c, last)
  {
  }

  /** The first event not below the cursor. */
  lemma {:induction false} CursorAt(h: History, last: Revision, n: nat) returns (p: nat)
    requires ValidHistory(h) && n <= |h|
    ensures p <= n && forall j :: 0 <= j < n ==> (last.GreaterThan(h[j].rev) <==> j < p)
  {
    if n == 0 || last.GreaterThan(h[n - 1].rev) {
      p := n;
      forall j | 0 <= j < n ensures last.GreaterThan(h[j].rev) {
        assert j == n - 1 || RevsOf(h)[n - 1].GreaterThan(RevsOf(h)[j]);
      }
    } else {
      p := CursorAt(h, last, n - 1);
    }
  }

  lemma SweepKeepsCut(log: Log, held: set<Revision>, k: Key, c: int, last: Revision)
    requires ValidLog(log) && CutSomewhere(HistoryOf(log, k), held, c)
    ensures CutSomewhere(HistoryOf(log, k), SweptUpTo(log, held, c, last), c)
  {
    var h := HistoryOf(log, k);
    assert ValidHistory(h);
    var i: nat :| Cut(h, held, c, i);
    var p := CursorAt(h, last, |h|);
    var low := LowCount(h, c, |h|);
    var q := if p < low then p else low;
    var from := if i < q then q else i;
    var left := SweptUpTo(log, held, c, last);
    forall j | 0 <= j < |h| ensures CutAt(h, left, c, from, j) {
      assert CutAt(h, held, c, i, j) && RevsOf(h)[j] == h[j].rev;
      KeptOfKey(log, c, k, h[j].rev);
    }
    assert Cut(h, left, c, from);
  }

  /** A record written above `c` is there, and does not disturb the others. */
  lemma WriteKeepsCut(log: Log, ch: Change, held: set<Revision>, k: Key, c: int)
    requires ValidLog(log) && ValidLog(log + [ch]) && ch.event.rev.main > c && CutSomewhere(HistoryOf(log, k), held, c)
    ensures CutSomewhere(HistoryOf(log + [ch], k), held + {ch.event.rev}, c)
  {
    var h := HistoryOf(log, k);
    HistoryAppend(log, ch, k);
    WriteKeeps(log, ch, c, k);
    forall j | 0 <= j < |h| ensures h[j].rev != ch.event.rev {
      OlderEvent(log, ch, k, j);
    }
    HeldGrows(h, held, ch.event.rev, c);
    if ch.key == k {
      AppendKeepsCut(h, ch.event, held, c);
    }
  }

  lemma HeldGrows(h: History, held: set<Revision>, rev: Revision, c: int)
    requires CutSomewhere(h, held, c) && forall j :: 0 <= j < |h| ==> h[j].rev != rev
    ensures CutSomewhere(h, held + {rev}, c)
  {
    var i: nat :| Cut(h, held, c, i);
    forall j | 0 <= j < |h| ensures CutAt(h, held + {rev}, c, i, j) {
      assert CutAt(h, held, c, i, j);
    }
    assert Cut(h, held + {rev}, c, i);
  }

  lemma AppendKeepsCut(h: History, e: Event, held: set<Revision>, c: int)
    requires CutSomewhere(h, held, c) && KeptRev(Build(h + [e]), c) == KeptRev(Build(h), c)
    requires forall j :: 0 <= j < |h| ==> h[j].rev != e.rev
    ensures CutSomewhere(h + [e], held + {e.rev}, c)
  {
    var i: nat :| Cut(h, held, c, i);
    var from := if i <= |h| then i else |h|;
    var more, h' := held + {e.rev}, h + [e];
    forall j | 0 <= j < |h'| ensures CutAt(h', more, c, from, j) {
      assert j < |h| ==> h'[j] == h[j] && CutAt(h, held, c, i, j);
    }
    assert Cut(h', more, c, from);
  }

  lemma OlderEvent(log: Log, ch: Change, k: Key, j: nat)
    requires ValidLog(log + [ch]) && j < |HistoryOf(log, k)|
    ensures HistoryOf(log, k)[j].rev != ch.event.rev
  {
    var e := HistoryOf(log, k)[j];
    assert e in HistoryOf(log, k);
    var x :| 0 <= x < |log| && log[x] == Change(k, e);
    assert (log + [ch])[|log|].event.rev.GreaterThan((log + [ch])[x].event.rev);
  }

  // ---------- The disk ----------

  /** The current revision of a store that has written the log. */
  function StoreRev(log: Log): int {
    if |log| == 0 then 1 else log[|log| - 1].event.rev.main
  }

  /** The store that never crashed. */
  function LiveStore(s: State): StoreState {
    StoreState(s.tree, StoreRev(s.log), s.compacted)
  }

  /** What is on disk, beside the index and log of the store that never crashed (`s`, whose
      last compaction is the one scheduled): the records, the compaction whose sweep is
      under way or was the last, and the last one finished. */
  datatype Disk = Disk(s: State, held: set<Revision>, level: int, finished: int)

  const EMPTY_DISK := Disk(INITIAL, {}, -1, -1)

  function MarkOf(c: int): Mark {
    if c == -1 then Unset else At(c)
  }

  function BackendOf(d: Disk): Backend {
    Backend(StoredOf(d.s.log, d.held, |d.s.log|), MarkOf(d.finished), MarkOf(d.s.compacted))
  }

  /** A record of the newest transaction is still there, or nothing was written. */
  predicate NewestHeld(log: Log, held: set<Revision>) {
    StoreRev(log) == 1 || exists j :: 0 <= j < |log| && log[j].event.rev.main == StoreRev(log) && log[j].event.rev in held
  }

  /** The newest record is there, or no compaction is pending. */
  predicate RevisionSafe(d: Disk) {
    d.finished == d.s.compacted || NewestHeld(d.s.log, d.held)
  }

  /** A pending compaction at revision 0 is not taken up again by a start. */
  predicate Restorable(d: Disk) {
    d.finished == d.s.compacted || (NewestHeld(d.s.log, d.held) && d.s.compacted != 0)
  }

  datatype DiskOp =
    | Wrote(op: Op)
    | Scheduled(rev: int)
    | Begun(rev: int)
    | Swept(last: Revision)
    | Finished
    | Restarted

  /** A compaction is scheduled above the one before and not above the current revision.
      Sweeps run one after the other, in the order they were scheduled in; one that has
      deleted all it was to delete is marked as finished. A start does not go through the
      compactions in between again, but takes up the last one. */
  ghost predicate CanDo(d: Disk, op: DiskOp) {
    match op
    case Wrote(w) => !w.OpCompact? && w.rev.sub >= 0 && Enabled(d.s, w)
    case Scheduled(c) => d.s.compacted < c <= StoreRev(d.s.log)
    case Begun(c) => d.level <= c <= d.s.compacted
    case Swept(_) => true
    case Finished => forall r :: r in d.held ==> r.main > d.level || KeptAt(d.s.log, d.level, r)
    case Restarted => Restorable(d)
  }

  ghost function Do(d: Disk, op: DiskOp): Disk
    requires NonEmptyEntries(d.s.tree)
  {
    match op
    case Wrote(w) =>
      var s := Step(d.s, w);
      d.(s := s, held := if s.log == d.s.log || w.OpCompact? then d.held else d.held + {w.rev})
    case Scheduled(c) => d.(s := Step(d.s, OpCompact(c)))
    case Begun(c) => d.(level := c)
    case Swept(last) => d.(held := SweptUpTo(d.s.log, d.held, d.level, last))
    case Finished => d.(finished := d.level)
    case Restarted => d.(level := d.s.compacted)
  }

  ghost predicate GoodDisk(d: Disk) {
    && Good(d.s) && HoldsCuts(d.s.log, d.held, d.level)
    && -1 <= d.finished <= d.level <= d.s.compacted <= StoreRev(d.s.log)
    && d.held <= Sweep.LogRevs(d.s.log) && forall ch :: ch in d.s.log ==> ch.event.rev.sub >= 0
  }

  lemma StoreIsGood(d: Disk, w: Op)
    requires GoodDisk(d) && CanDo(d, Wrote(w))
    ensures GoodDisk(Do(d, Wrote(w)))
  {
    StepIsGood(d.s, w);
    var s := Step(d.s, w);
    if s.log != d.s.log {
      var ch := s.log[|d.s.log|];
      assert s.log == d.s.log + [ch] && ch.event.rev == w.rev;
      forall k ensures CutSomewhere(HistoryOf(s.log, k), d.held + {w.rev}, d.level) {
        assert CutSomewhere(HistoryOf(d.s.log, k), d.held, d.level);
        WriteKeepsCut(d.s.log, ch, d.held, k, d.level);
      }
    }
  }

  lemma DoIsGood(d: Disk, op: DiskOp)
    requires GoodDisk(d) && CanDo(d, op)
    ensures GoodDisk(Do(d, op))
  {
    match op
    case Wrote(w) => StoreIsGood(d, w);
    case Scheduled(c) => StepIsGood(d.s, OpCompact(c));
    case Begun(c) => LevelRises(d, c);
    case Swept(last) =>
      forall k ensures CutSomewhere(HistoryOf(d.s.log, k), SweptUpTo(d.s.log, d.held, d.level, last), d.level) {
        assert CutSomewhere(HistoryOf(d.s.log, k), d.held, d.level);
        SweepKeepsCut(d.s.log, d.held, k, d.level, last);
      }
    case Finished =>
    case Restarted => LevelRises(d, d.s.compacted);
  }

  lemma LevelRises(d: Disk, c: int)
    requires GoodDisk(d) && d.level <= c
    ensures HoldsCuts(d.s.log, d.held, c)
  {
    forall k ensures CutSomewhere(HistoryOf(d.s.log, k), d.held, c) {
      assert ValidHistory(HistoryOf(d.s.log, k)) && CutSomewhere(HistoryOf(d.s.log, k), d.held, d.level);
      CutMovesUp(HistoryOf(d.s.log, k), d.held, d.level, c);
    }
  }

  ghost predicate CanDoAll(d: Disk, ops: seq<DiskOp>)
    decreases |ops|
  {
    |ops| > 0 ==> NonEmptyEntries(d.s.tree) && CanDo(d, ops[0]) && CanDoAll(Do(d, ops[0]), ops[1..])
  }

  ghost function DoAll(d: Disk, ops: seq<DiskOp>): Disk
    requires CanDoAll(d, ops)
    decreases |ops|
  {
    if |ops| == 0 then d else DoAll(Do(d, ops[0]), ops[1..])
  }

  lemma {:induction false} DoAllIsGood(d: Disk, ops: seq<DiskOp>)
    requires GoodDisk(d) && CanDoAll(d, ops)
    ensures GoodDisk(DoAll(d, ops))
    decreases |ops|
  {
    if |ops| > 0 {
      DoIsGood(d, ops[0]);
      DoAllIsGood(Do(d, ops[0]), ops[1..]);
    }
  }

  lemma EmptyDiskIsGood()
    ensures GoodDisk(EMPTY_DISK)
  {
    InitialIsGood();
    forall k ensures CutSomewhere(HistoryOf([], k), {}, -1) {
      assert Cut(HistoryOf([], k), {}, -1, 0);
    }
  }

  // ---------- Transactions of the store are runs of the index ----------

  lemma MainsAscend(log: Log, i: nat, j: nat)
    requires ValidLog(log) && i <= j < |log|
    ensures 1 <= log[i].event.rev.main <= log[j].event.rev.main
  {
    var e, k := log[i].event, log[i].key;
    assert Change(k, e) in log && e in HistoryOf(log, k) && ValidHistory(HistoryOf(log, k));
    assert i == j || log[j].event.rev.GreaterThan(log[i].event.rev);
  }

  lemma NextIsAbove(log: Log)
    requires ValidLog(log)
    ensures StoreRev(log) >= 1 && AboveLog(Revision(StoreRev(log) + 1, 0), log)
  {
    forall ch | ch in log ensures ch.event.rev.main <= StoreRev(log) {
      var i :| 0 <= i < |log| && log[i] == ch;
      MainsAscend(log, i, |log| - 1);
    }
    if |log| > 0 {
      MainsAscend(log, |log| - 1, |log| - 1);
    }
  }

  lemma {:induction false} RunThen(s: State, ops: seq<Op>, op: Op)
    requires Good(s) && Allowed(s, ops) && Enabled(Run(s, ops), op)
    ensures NonEmptyEntries(Run(s, ops).tree) && Allowed(s, ops + [op]) && Run(s, ops + [op]) == Step(Run(s, ops), op)
    decreases |ops|
  {
    if |ops| == 0 {
      assert ([] + [op])[1..] == [];
    } else {
      StepIsGood(s, ops[0]);
      RunThen(Step(s, ops[0]), ops[1..], op);
      assert (ops + [op])[1..] == ops[1..] + [op];
    }
  }

  /** What a write adds to the history: a put always, a delete only of a key that is alive.
      The changes of a transaction are numbered from 0. */
  function ChangeOf(log: Log, main: int, n: nat, w: Write): Log {
    match w
    case WPut(k) => [Change(k, Put(Revision(main, n)))]
    case WDelete(k) => if Live(HistoryOf(log, k)) then [Change(k, Tombstone(Revision(main, n)))] else []
  }

  /** What the writes of a transaction at `main` add to the history. */
  function ChangesOf(log: Log, main: int, ws: seq<Write>): Log {
    if |ws| == 0 then []
    else
      var before := ChangesOf(log, main, ws[..|ws| - 1]);
      before + ChangeOf(log + before, main, |before|, ws[|ws| - 1])
  }

  /** The index and log inside a transaction at `main` that began in `s` and has made
      `changes`. */
  ghost predicate Inside(s: State, e: State, main: int, x: Written, changes: Log) {
    && Good(e) && e.tree == x.tree && e.compacted == s.compacted && AboveLog(Revision(main, x.changes), e.log)
    && e.log == s.log + changes && |changes| == x.changes
    && (if x.changes == 0 then e == s else StoreRev(e.log) == main)
  }

  lemma WriteInside(s: State, e: State, main: int, x: Written, changes: Log, w: Write)
    requires Inside(s, e, main, x, changes) && main > 0 && main > s.compacted
    ensures var op := if w.WPut? then OpPut(w.key, Revision(main, x.changes)) else OpTombstone(w.key, Revision(main, x.changes));
            && Enabled(e, op)
            && Inside(s, Step(e, op), main, WriteOn(x, main, w), changes + ChangeOf(e.log, main, x.changes, w))
  {
    var rev := Revision(main, x.changes);
    var op := if w.WPut? then OpPut(w.key, rev) else OpTombstone(w.key, rev);
    StepIsGood(e, op);
    assert KeyAgrees(e.tree, w.key, HistoryOf(e.log, w.key), e.compacted) && ValidHistory(HistoryOf(e.log, w.key));
    TombstoneAccepted(e.tree, w.key, HistoryOf(e.log, w.key), e.compacted);
    var more := ChangeOf(e.log, main, x.changes, w);
    assert Step(e, op).log == e.log + more == s.log + (changes + more);
  }

  lemma {:induction false} WritesAreRun(s: State, main: int, ws: seq<Write>) returns (ops: seq<Op>)
    requires Good(s) && main == StoreRev(s.log) + 1 && s.compacted < main
    ensures Allowed(s, ops) && Sweep.OnlyWrites(ops) && Inside(s, Run(s, ops), main, WriteAll(s.tree, main, ws), ChangesOf(s.log, main, ws))
  {
    if |ws| == 0 {
      NextIsAbove(s.log);
      ops := [];
    } else {
      var before := WritesAreRun(s, main, ws[..|ws| - 1]);
      ops := WriteThen(s, main, ws, before);
    }
  }

  lemma WriteThen(s: State, main: int, ws: seq<Write>, before: seq<Op>) returns (ops: seq<Op>)
    requires Good(s) && main == StoreRev(s.log) + 1 && s.compacted < main && |ws| > 0
    requires Allowed(s, before) && Sweep.OnlyWrites(before)
    requires var init := ws[..|ws| - 1]; Inside(s, Run(s, before), main, WriteAll(s.tree, main, init), ChangesOf(s.log, main, init))
    ensures Allowed(s, ops) && Sweep.OnlyWrites(ops) && Inside(s, Run(s, ops), main, WriteAll(s.tree, main, ws), ChangesOf(s.log, main, ws))
  {
    var w, init := ws[|ws| - 1], ws[..|ws| - 1];
    var x := WriteAll(s.tree, main, init);
    NextIsAbove(s.log);
    WriteInside(s, Run(s, before), main, x, ChangesOf(s.log, main, init), w);
    var op := if w.WPut? then OpPut(w.key, Revision(main, x.changes)) else OpTombstone(w.key, Revision(main, x.changes));
    RunThen(s, before, op);
    ops := before + [op];
  }

  /** A transaction of the store is a run of index operations under revisions that were not
      given out before, and adds to the history exactly what its writes say. */
  lemma CommitIsRun(s: State, ws: seq<Write>) returns (ops: seq<Op>)
    requires Good(s) && s.compacted <= StoreRev(s.log)
    ensures Allowed(s, ops) && Sweep.OnlyWrites(ops) && Good(Run(s, ops))
    ensures LiveStore(Run(s, ops)) == Commit(LiveStore(s), ws)
    ensures Run(s, ops).log == s.log + ChangesOf(s.log, StoreRev(s.log) + 1, ws)
  {
    ops := WritesAreRun(s, StoreRev(s.log) + 1, ws);
    InsideCommits(s, Run(s, ops), ws);
  }

  lemma InsideCommits(s: State, e: State, ws: seq<Write>)
    requires var main := StoreRev(s.log) + 1; Inside(s, e, main, WriteAll(s.tree, main, ws), ChangesOf(s.log, main, ws))
    ensures LiveStore(e) == Commit(LiveStore(s), ws)
  {
  }

  // ---------- The revision a start finds ----------

  /** The last record is that of the last event still held. */
  lemma {:induction false} LastMainIs(log: Log, held: set<Revision>, n: nat) returns (i: int)
    requires n <= |log|
    ensures -1 <= i < n && forall j :: i < j < n ==> log[j].event.rev !in held
    ensures LastMain(StoredOf(log, held, n)) == if i == -1 then 1 else log[i].event.rev.main
    ensures i >= 0 ==> log[i].event.rev in held
  {
    if n == 0 {
      i := -1;
    } else {
      LastEvent(log, n);
      if log[n - 1].event.rev in held {
        i := n - 1;
      } else {
        i := LastMainIs(log, held, n - 1);
      }
    }
  }

  /** The revision of the last record is the current one exactly when a record of the newest
      transaction is held; else it is lower. */
  lemma LastRecord(log: Log, held: set<Revision>)
    requires ValidLog(log)
    ensures LastMain(StoredOf(log, held, |log|)) <= StoreRev(log)
    ensures LastMain(StoredOf(log, held, |log|)) == StoreRev(log) <==> NewestHeld(log, held)
  {
    var i := LastMainIs(log, held, |log|);
    if |log| > 0 {
      MainsAscend(log, if i == -1 then 0 else i, |log| - 1);
    }
    if j :| 0 <= j < |log| && log[j].event.rev.main == StoreRev(log) && log[j].event.rev in held {
      MainsAscend(log, j, i);
    }
  }

  /** Nothing above a sweep is ever lost. */
  lemma HighIsHeld(log: Log, held: set<Revision>, c: int)
    requires ValidLog(log) && HoldsCuts(log, held, c) && StoreRev(log) > c
    ensures NewestHeld(log, held)
  {
    if |log| > 0 {
      var ch := log[|log| - 1];
      var h := HistoryOf(log, ch.key);
      LastEvent(log, |log|);
      assert log[..|log|] == log && CutSomewhere(h, held, c);
      var i: nat :| Cut(h, held, c, i);
      assert CutAt(h, held, c, i, |h| - 1);
    }
  }

  /** Revision and bound of the restored store. */
  lemma RestoredBounds(d: Disk)
    requires GoodDisk(d)
    ensures var r := RestoreStore(BackendOf(d));
            && d.finished <= r.compactMainRev && r.compactMainRev <= r.currentRev <= StoreRev(d.s.log) && r.currentRev >= 1
            && (r.currentRev == StoreRev(d.s.log) <==> RevisionSafe(d))
            && (r.compactMainRev == d.s.compacted <==> Restorable(d))
            && (!RevisionSafe(d) ==> StoreRev(d.s.log) == d.s.compacted)
            && r.compactMainRev == if Restorable(d) then d.s.compacted else d.finished
  {
    LastRecord(d.s.log, d.held);
    var i := LastMainIs(d.s.log, d.held, |d.s.log|);
    if i >= 0 {
      MainsAscend(d.s.log, i, i);
    }
    LevelRises(d, d.s.compacted);
    if StoreRev(d.s.log) > d.s.compacted {
      HighIsHeld(d.s.log, d.held, d.s.compacted);
    }
  }

  // ---------- The store a start makes ----------

  lemma GoodIsTidy(s: State)
    requires Good(s)
    ensures Tidy(s.tree)
  {
    forall k | k in s.tree ensures TidyAt(s.tree, k) {
      var h := HistoryOf(s.log, k);
      assert KeyAgrees(s.tree, k, h, s.compacted);
      Laws.BuildLastGeneration(h);
      LastAfterCompact(Build(h), s.compacted);
    }
  }

  lemma {:induction false} ReadIsTidy(stored: seq<Stored>)
    ensures Tidy(ReadAll(stored))
  {
    if |stored| > 0 {
      var t, x := ReadAll(stored[..|stored| - 1]), stored[|stored| - 1];
      ReadIsTidy(stored[..|stored| - 1]);
      TidyWrite(t, x.key, x.rec.event.rev);
      var u := ReadAll(stored);
      if x.rec.event.Put? {
        forall k | k in u ensures TidyAt(u, k) {
          assert k != x.key ==> TidyAt(t, k);
          assert PutTree(t, x.key, x.rec.event.rev).Keys == u.Keys && TidyAt(PutTree(t, x.key, x.rec.event.rev), k);
        }
      }
    }
  }

  /** Once compacted, the index read back is like the one that never was lost, whatever had
      been swept. */
  lemma IndexRestored(d: Disk)
    requires GoodDisk(d)
    ensures BecomeAlike(RestoreStore(BackendOf(d)).tree, d.s.tree, d.s.compacted)
  {
    var t := RestoredTree(d.s.log, d.held, |d.s.log|);
    ReadIsRestored(d.s.log, d.held, |d.s.log|);
    ReadIsTidy(StoredOf(d.s.log, d.held, |d.s.log|));
    GoodIsTidy(d.s);
    LevelRises(d, d.s.compacted);
    RestartRestores(d.s, d.held);
    AlreadyAlike(t, d.s.tree, d.s.compacted);
    RestoreKeepsTree(BackendOf(d));
  }

  lemma RestoreKeepsTree(b: Backend)
    ensures RestoreStore(b).tree == ReadAll(b.stored)
  {
  }

  /** An index that is already compacted. */
  lemma AlreadyAlike(t: Tree, u: Tree, c: int)
    requires Tidy(t) && Tidy(u) && NonEmptyEntries(t) && TreesAlike(CompactTree(t, c), u)
    ensures BecomeAlike(t, u, c)
  {
    TidyCompact(t, c);
    TidyIsNonEmpty(CompactTree(t, c));
    TidyIsNonEmpty(u);
    CompactGoesOn(CompactTree(t, c), u, c);
    CompactTreeTwice(t, c, c);
  }

  /** The keep set computed from the index read back, for the rest of the sweep, is what a
      compaction of the whole history keeps. */
  lemma ResumedKeep(d: Disk, r: Revision)
    requires GoodDisk(d)
    ensures NonEmptyEntries(RestoreStore(BackendOf(d)).tree)
    ensures r in KeepTree(RestoreStore(BackendOf(d)).tree, d.s.compacted) <==> KeptAt(d.s.log, d.s.compacted, r)
  {
    ReadIsRestored(d.s.log, d.held, |d.s.log|);
    RestoreKeepsTree(BackendOf(d));
    LevelRises(d, d.s.compacted);
    RestartRestores(d.s, d.held);
    KeepIsFromLog(d.s.tree, d.s.log, d.s.compacted, d.s.compacted, r);
  }

  /** All range reads of two stores agree. */
  ghost predicate SameReads(x: StoreState, y: StoreState, keys: seq<Key>, others: seq<Key>) {
    forall key: Key, end: RangeEnd, rev: int :: StoreRange(x, keys, key, end, rev) == StoreRange(y, others, key, end, rev)
  }

  /** A start brings back the current revision and all reads if and only if no compaction
      is pending or a record of the newest transaction is still there; with the pending
      compaction, the whole store, if and only if moreover that compaction is not at 0. */
  lemma StartIsExact(d: Disk, keys: seq<Key>, others: seq<Key>)
    requires GoodDisk(d) && KeysOf(keys, RestoreStore(BackendOf(d)).tree) && KeysOf(others, d.s.tree)
    ensures var r, was := RestoreStore(BackendOf(d)), LiveStore(d.s);
            && (r.currentRev == was.currentRev <==> RevisionSafe(d))
            && (r.compactMainRev == was.compactMainRev <==> Restorable(d))
            && (SameReads(r, was, keys, others) <==> RevisionSafe(d))
            && (Like(r, was) <==> Restorable(d))
            && BecomeAlike(r.tree, was.tree, was.compactMainRev)
  {
    var r, was := RestoreStore(BackendOf(d)), LiveStore(d.s);
    RestoredBounds(d);
    IndexRestored(d);
    if RevisionSafe(d) {
      SafeReads(d, keys, others);
    } else {
      var n := was.currentRev;
      assert StoreRange(r, keys, [], NoEnd, n).Failed? && StoreRange(was, others, [], NoEnd, n).Pairs?;
    }
  }

  lemma SafeReads(d: Disk, keys: seq<Key>, others: seq<Key>)
    requires GoodDisk(d) && KeysOf(keys, RestoreStore(BackendOf(d)).tree) && KeysOf(others, d.s.tree)
    requires RevisionSafe(d)
    ensures SameReads(RestoreStore(BackendOf(d)), LiveStore(d.s), keys, others)
  {
    var r, was := RestoreStore(BackendOf(d)), LiveStore(d.s);
    RestoredBounds(d);
    IndexRestored(d);
    forall key: Key, end: RangeEnd, rev: int ensures StoreRange(r, keys, key, end, rev) == StoreRange(was, others, key, end, rev) {
      if ReadAt(r, rev) >= was.compactMainRev {
        AnswersAlike(r, was, was.compactMainRev, keys, others, key, end, rev);
      }
    }
  }

  /** Every run of writes, compactions, sweeps, crashes and starts: at any point of it, a
      crash and a start bring the store back under exactly that condition. */
  lemma RunRestarts(ops: seq<DiskOp>, keys: seq<Key>, others: seq<Key>)
    requires CanDoAll(EMPTY_DISK, ops)
    requires KeysOf(keys, RestoreStore(BackendOf(DoAll(EMPTY_DISK, ops))).tree) && KeysOf(others, DoAll(EMPTY_DISK, ops).s.tree)
    ensures var d := DoAll(EMPTY_DISK, ops);
            && (Like(RestoreStore(BackendOf(d)), LiveStore(d.s)) <==> Restorable(d))
            && (SameReads(RestoreStore(BackendOf(d)), LiveStore(d.s), keys, others) <==> RevisionSafe(d))
  {
    EmptyDiskIsGood();
    DoAllIsGood(EMPTY_DISK, ops);
    StartIsExact(DoAll(EMPTY_DISK, ops), keys, others);
  }

  /** A store that came back goes on as the one that never crashed, whatever is written and
      compacted next, and the walk of the index that is under way in it is not seen. */
  lemma StartGoesOn(d: Disk, ops: seq<StoreOp>, walked: int)
    requires GoodDisk(d) && Restorable(d) && walked <= d.s.compacted
    ensures NonEmptyEntries(RestoreStore(BackendOf(d)).tree)
    ensures var r := RestoreStore(BackendOf(d));
            Like(StoreRun(r.(tree := CompactTree(r.tree, walked)), ops), StoreRun(LiveStore(d.s), ops))
  {
    var r := RestoreStore(BackendOf(d));
    RestoredBounds(d);
    IndexRestored(d);
    BackgroundIsUnseen(r, walked);
    LikeGoesOn(r.(tree := CompactTree(r.tree, walked)), LiveStore(d.s), ops);
  }

  /** The start itself, on the records and marks of the disk. */
  method Reopen(d: Disk) returns (store: Store)
    requires GoodDisk(d)
    ensures fresh(store) && store.Valid() && store.State() == RestoreStore(BackendOf(d))
    ensures Like(store.State(), LiveStore(d.s)) <==> Restorable(d)
  {
    store := new Store();
    store.finishedCompact, store.scheduledCompact := MarkOf(d.finished), MarkOf(d.s.compacted);
    StoredIsReadable(d.s.log, d.held, |d.s.log|);
    store.Restore(StoredOf(d.s.log, d.held, |d.s.log|));
    RestoredBounds(d);
    IndexRestored(d);
  }

  /** When the last sweep is through, however often it was interrupted, the backend holds
      exactly the records the index names. */
  lemma SweptHoldsIndex(d: Disk)
    requires GoodDisk(d) && d.level == d.s.compacted && CanDo(d, Finished)
    ensures d.held == IndexRevs(d.s.tree)
  {
    forall r ensures r in d.held <==> r in IndexRevs(d.s.tree) {
      if r in d.held {
        HeldHasEvent(d, r);
      }
      if r in IndexRevs(d.s.tree) {
        NamedIsHeld(d, r);
      }
    }
  }

  lemma HeldHasEvent(d: Disk, r: Revision)
    requires GoodDisk(d) && d.level == d.s.compacted && CanDo(d, Finished) && r in d.held
    ensures r in IndexRevs(d.s.tree)
  {
    var ch :| ch in d.s.log && ch.event.rev == r;
    var h := HistoryOf(d.s.log, ch.key);
    assert ch == Change(ch.key, ch.event) && ch.event in h;
    var j :| 0 <= j < |h| && h[j] == ch.event;
    HeldIsNamed(d, ch.key, j);
    assert AllRevs([NO_GENERATION]) == [];
  }

  lemma NamedIsHeld(d: Disk, r: Revision)
    requires GoodDisk(d) && d.level == d.s.compacted && CanDo(d, Finished) && r in IndexRevs(d.s.tree)
    ensures r in d.held
  {
    var k :| k in d.s.tree && r in AllRevs(d.s.tree[k].generations);
    EntryIsValid(d.s, k);
    var h := HistoryOf(d.s.log, k);
    var j :| 0 <= j < |h| && RevsOf(h)[j] == r;
    HeldIsNamed(d, k, j);
  }

  lemma HeldIsNamed(d: Disk, k: Key, j: nat)
    requires GoodDisk(d) && d.level == d.s.compacted && CanDo(d, Finished) && j < |HistoryOf(d.s.log, k)|
    ensures var r := HistoryOf(d.s.log, k)[j].rev; r in d.held <==> r in AllRevs(GensOf(d.s.tree, k))
  {
    var h, c := HistoryOf(d.s.log, k), d.level;
    var r := h[j].rev;
    assert RevsOf(h)[j] == r && KeyAgrees(d.s.tree, k, h, c) && ValidHistory(h) && CutSomewhere(h, d.held, c);
    Laws.BuildIsValid(h);
    Laws.CompactedRev(Build(h), ZERO, c, r);
    KeptOfKey(d.s.log, c, k, r);
    var i: nat :| Cut(h, d.held, c, i);
    assert CutAt(h, d.held, c, i, j);
  }

  // ---------- What a read of the store means ----------

  /** The key is asked for: the one key, or one from `key` on that is below the end, if
      there is an end. */
  predicate Asked(k: Key, key: Key, end: RangeEnd) {
    match end
    case NoEnd => k == key
    case End(e) => Compare(k, key) >= 0 && (e != [] ==> Compare(k, e) < 0)
  }

  /** The revisions are those of the keys `ks`, which are, in key order, exactly the keys
      asked for that the history has at `at`; each is the revision of its last change then. */
  ghost predicate ListsHistory(log: Log, key: Key, end: RangeEnd, at: int, ks: seq<Key>, revs: seq<Revision>) {
    && Ascending(ks) && |revs| == |ks|
    && (forall k :: k in ks <==> Asked(k, key, end) && Lookup(HistoryOf(log, k), at).Found?)
    && (forall i :: 0 <= i < |ks| ==> var x := Lookup(HistoryOf(log, ks[i]), at); x.Found? && revs[i] == x.modified)
  }

  lemma VisibleIsHistory(s: State, keys: seq<Key>, key: Key, end: RangeEnd, at: int) returns (ks: seq<Key>)
    requires Good(s) && KeysOf(keys, s.tree) && s.compacted <= at
    ensures ListsHistory(s.log, key, end, at, ks, TreeIndexes.VisibleRevs(s.tree, RangedKeys(keys, key, end), at))
  {
    var ranged := RangedKeys(keys, key, end);
    if end.End? {
      ScanIsAscending(keys, key, end.key);
    }
    ks := TreeIndexes.VisibleKeys(s.tree, ranged, at);
    Reads.RangeMeans(s, ranged, at);
    forall k ensures k in ks <==> Asked(k, key, end) && Lookup(HistoryOf(s.log, k), at).Found? {
      if Lookup(HistoryOf(s.log, k), at).Found? {
        RangedMeans(s, keys, key, end, at, k);
      }
    }
  }

  lemma RangedMeans(s: State, keys: seq<Key>, key: Key, end: RangeEnd, at: int, k: Key)
    requires Good(s) && KeysOf(keys, s.tree) && s.compacted <= at && Lookup(HistoryOf(s.log, k), at).Found?
    ensures k in RangedKeys(keys, key, end) <==> Asked(k, key, end)
  {
    Reads.OneReadMeans(s, k, at);
  }

  /** A range read of the live store. Above the current revision it is refused as future;
      else a revision of 0 or less asks for the current one, and below the last compaction
      it is refused as compacted. Any other lists, in key order, for exactly those keys asked
      for that existed at the revision asked for, the revision they had then. */
  lemma RangeMeansHistory(s: State, keys: seq<Key>, key: Key, end: RangeEnd, rev: int) returns (ks: seq<Key>)
    requires Good(s) && KeysOf(keys, s.tree)
    ensures var now := StoreRev(s.log); var at := if rev <= 0 then now else rev;
            var r := StoreRange(LiveStore(s), keys, key, end, rev);
            && (r == Failed(ErrFutureRev) <==> rev > now)
            && (r == Failed(ErrCompacted) <==> rev <= now && at < s.compacted)
            && (rev <= now && at >= s.compacted ==> r.Pairs? && r.rev == now && ListsHistory(s.log, key, end, at, ks, r.revs))
  {
    var at := if rev <= 0 then StoreRev(s.log) else rev;
    ks := [];
    if rev <= StoreRev(s.log) && at >= s.compacted {
      ks := VisibleIsHistory(s, keys, key, end, at);
    }
  }

  /** So answers every read of a store that a start brought back, whatever had been swept
      when the process died. */
  lemma RestartedRangeMeans(d: Disk, keys: seq<Key>, others: seq<Key>, key: Key, end: RangeEnd, rev: int) returns (ks: seq<Key>)
    requires GoodDisk(d) && RevisionSafe(d) && KeysOf(keys, RestoreStore(BackendOf(d)).tree) && KeysOf(others, d.s.tree)
    requires rev <= StoreRev(d.s.log) && d.s.compacted <= if rev <= 0 then StoreRev(d.s.log) else rev
    ensures var at := if rev <= 0 then StoreRev(d.s.log) else rev;
            var r := StoreRange(RestoreStore(BackendOf(d)), keys, key, end, rev);
            r.Pairs? && r.rev == StoreRev(d.s.log) && ListsHistory(d.s.log, key, end, at, ks, r.revs)
  {
    ks := RangeMeansHistory(d.s, others, key, end, rev);
    SafeReads(d, keys, others);
  }

  // ---------- Every run of the store ----------

  /** What the operations of a run say, kept as a plain history: all changes ever made and
      the last compaction accepted. A compaction is accepted above the one before, up to the
      current revision. */
  datatype Past = Past(log: Log, compacted: int)

  function PastOf(ops: seq<StoreOp>): Past {
    if |ops| == 0 then Past([], -1)
    else PastStep(PastOf(ops[..|ops| - 1]), ops[|ops| - 1])
  }

  function PastStep(p: Past, op: StoreOp): Past {
    match op
    case DoWrite(ws) => p.(log := p.log + ChangesOf(p.log, StoreRev(p.log) + 1, ws))
    case DoCompact(rev) => if p.compacted < rev <= StoreRev(p.log) then p.(compacted := rev) else p
  }

  /** A store run from the beginning is like the index of its plain history. */
  lemma {:induction false} StoreRunIsRun(ops: seq<StoreOp>) returns (s: State)
    ensures Good(s) && s.log == PastOf(ops).log && s.compacted == PastOf(ops).compacted <= StoreRev(s.log)
    ensures Like(StoreRun(NEW_STORE, ops), LiveStore(s))
  {
    if |ops| == 0 {
      s := INITIAL;
      InitialIsGood();
    } else {
      var s0 := StoreRunIsRun(ops[..|ops| - 1]);
      s := LikeStep(StoreRun(NEW_STORE, ops[..|ops| - 1]), s0, ops[|ops| - 1]);
    }
  }

  lemma LikeStep(x: StoreState, s0: State, op: StoreOp) returns (s: State)
    requires Good(s0) && s0.compacted <= StoreRev(s0.log) && Like(x, LiveStore(s0))
    ensures Good(s) && s.compacted <= StoreRev(s.log) && Like(StoreStep(x, op), LiveStore(s))
    ensures Past(s.log, s.compacted) == PastStep(Past(s0.log, s0.compacted), op)
  {
    LikeSteps(x, LiveStore(s0), op);
    if op.DoWrite? {
      s := WriteStepIsRun(s0, op.ws);
    } else {
      s := CompactIsRun(s0, op.rev);
      LikeAfterCompact(StoreStep(x, op), s0, s, op.rev);
    }
  }

  lemma WriteStepIsRun(s0: State, ws: seq<Write>) returns (s: State)
    requires Good(s0) && s0.compacted <= StoreRev(s0.log)
    ensures Good(s) && LiveStore(s) == Commit(LiveStore(s0), ws)
    ensures s.compacted == s0.compacted <= StoreRev(s.log) && s.log == s0.log + ChangesOf(s0.log, StoreRev(s0.log) + 1, ws)
  {
    var run := CommitIsRun(s0, ws);
    s := Run(s0, run);
    WritesKeepBound(s0, run);
  }

  lemma LikeAfterCompact(x: StoreState, s0: State, s: State, rev: int)
    requires Like(x, CompactStore(LiveStore(s0), rev)) && Good(s) && s.log == s0.log && s.compacted <= StoreRev(s.log)
    requires s.compacted == if s0.compacted < rev <= StoreRev(s0.log) then rev else s0.compacted
    requires Tidy(s.tree) && Tidy(s0.tree) && Settled(s.tree, s.compacted) == Settled(s0.tree, s.compacted)
    ensures Like(x, LiveStore(s))
  {
    NextIsAbove(s.log);
    LikeAgain(x, CompactStore(LiveStore(s0), rev), LiveStore(s));
  }

  lemma WritesKeepBound(s: State, ops: seq<Op>)
    requires Good(s) && Allowed(s, ops) && Sweep.OnlyWrites(ops)
    ensures Run(s, ops).compacted == s.compacted
  {
    Sweep.WritesStayAbove(s, ops);
  }

  lemma CompactIsRun(s0: State, rev: int) returns (s: State)
    requires Good(s0) && s0.compacted <= StoreRev(s0.log)
    ensures Good(s) && s.log == s0.log && s.compacted == if s0.compacted < rev <= StoreRev(s0.log) then rev else s0.compacted
    ensures Tidy(s.tree) && Tidy(s0.tree) && Settled(s.tree, s.compacted) == Settled(s0.tree, s.compacted)
  {
    s := s0;
    GoodIsTidy(s0);
    if s0.compacted < rev <= StoreRev(s0.log) {
      s := Step(s0, OpCompact(rev));
      StepIsGood(s0, OpCompact(rev));
      CompactTreeTwice(s0.tree, rev, rev);
    }
    GoodIsTidy(s);
  }

  /** How far the index has been walked makes no difference to likeness. */
  lemma LikeAgain(x: StoreState, y: StoreState, z: StoreState)
    requires Like(x, y) && Proper(z) && z.currentRev == y.currentRev && z.compactMainRev == y.compactMainRev
    requires Settled(z.tree, z.compactMainRev) == Settled(y.tree, z.compactMainRev)
    ensures Like(x, z)
  {
  }

  /** After any run of transactions and compactions from the empty store, a range read is
      refused above the last revision given out and below the last compaction accepted, and
      any other lists, in key order, the keys asked for that the plain history of all writes
      has at that revision, each with the revision of its last change. */
  lemma StoreReadsHistory(ops: seq<StoreOp>, keys: seq<Key>, key: Key, end: RangeEnd, rev: int) returns (ks: seq<Key>)
    requires KeysOf(keys, StoreRun(NEW_STORE, ops).tree)
    ensures var p := PastOf(ops); var now := StoreRev(p.log); var at := if rev <= 0 then now else rev;
            var r := StoreRange(StoreRun(NEW_STORE, ops), keys, key, end, rev);
            && (r == Failed(ErrFutureRev) <==> rev > now)
            && (r == Failed(ErrCompacted) <==> rev <= now && at < p.compacted)
            && (rev <= now && at >= p.compacted ==> r.Pairs? && r.rev == now && ListsHistory(p.log, key, end, at, ks, r.revs))
  {
    var s := StoreRunIsRun(ops);
    var others := SortedKeys(s.tree.Keys);
    ks := RangeMeansHistory(s, others, key, end, rev);
    LikeReads(StoreRun(NEW_STORE, ops), LiveStore(s), keys, others, key, end, rev);
  }

  /** In any such run a compaction is accepted exactly above the last one accepted and not
      above the last revision given out. From then on reads below it are refused, and reads
      from it on go on being answered. */
  lemma CompactMeans(ops: seq<StoreOp>, rev: int, keys: seq<Key>, key: Key, end: RangeEnd, at: int)
    ensures var p := PastOf(ops);
            CompactError(StoreRun(NEW_STORE, ops), rev) ==
              if rev <= p.compacted then ErrCompacted else if rev > StoreRev(p.log) then ErrFutureRev else NoError
    ensures var p := PastOf(ops); var s := StoreRun(NEW_STORE, ops + [DoCompact(rev)]);
            p.compacted < rev <= StoreRev(p.log) && 0 < at <= StoreRev(p.log) ==>
              (StoreRange(s, keys, key, end, at) == Failed(ErrCompacted) <==> at < rev)
              && (at >= rev ==> StoreRange(s, keys, key, end, at).Pairs?)
  {
    var s := StoreRunIsRun(ops);
    assert (ops + [DoCompact(rev)])[..|ops|] == ops;
  }

  // ---------- The run in which a start fails ----------

  const K: Key := [7]

  const LOSING_LOG: Log := [Change(K, Put(Revision(2, 0))), Change(K, Tombstone(Revision(3, 0)))]

  /** A key is put and deleted, the compaction is at the delete, and the batch limit is 2. */
  const LOSING_SWEEP: seq<DiskOp> := [Scheduled(3), Begun(3), Swept(Revision(3, 1))]
  const LOSING_RUN: seq<DiskOp> := [Wrote(OpPut(K, Revision(2, 0))), Wrote(OpTombstone(K, Revision(3, 0)))] + LOSING_SWEEP

  lemma DoFirst(d: Disk, op: DiskOp, ops: seq<DiskOp>)
    requires NonEmptyEntries(d.s.tree) && CanDo(d, op) && CanDoAll(Do(d, op), ops)
    ensures CanDoAll(d, [op] + ops) && DoAll(d, [op] + ops) == DoAll(Do(d, op), ops)
  {
    assert ([op] + ops)[0] == op && ([op] + ops)[1..] == ops;
  }

  lemma LosingHistory(k: Key)
    ensures HistoryOf(LOSING_LOG, k) == if k == K then [Put(Revision(2, 0)), Tombstone(Revision(3, 0))] else []
  {
    var c := LOSING_LOG[0];
    assert LOSING_LOG[..1] == [] + [c] && LOSING_LOG == [c] + [LOSING_LOG[1]];
    HistoryAppend([], c, k);
    HistoryAppend([c], LOSING_LOG[1], k);
  }

  /** Nothing of the key is kept at 3. */
  lemma LosingSweep(held: set<Revision>)
    requires ValidLog(LOSING_LOG) && held == {Revision(2, 0), Revision(3, 0)}
    ensures SweptUpTo(LOSING_LOG, held, 3, Revision(3, 1)) == {}
  {
    forall k ensures KeptRev(Build(HistoryOf(LOSING_LOG, k)), 3) == {} {
      NothingKept(k);
    }
  }

  lemma NothingKept(k: Key)
    requires ValidLog(LOSING_LOG)
    ensures KeptRev(Build(HistoryOf(LOSING_LOG, k)), 3) == {}
  {
    var h := HistoryOf(LOSING_LOG, k);
    assert ValidHistory(h);
    LosingHistory(k);
    assert h[..|h|] == h;
    KeptIs(h, 3, |h|);
  }

  lemma LosingRest(d: Disk)
    requires GoodDisk(d) && d.s.log == LOSING_LOG && d.held == {Revision(2, 0), Revision(3, 0)}
    requires d.level == d.finished == d.s.compacted == -1
    ensures CanDoAll(d, LOSING_SWEEP)
    ensures var e := DoAll(d, LOSING_SWEEP); e.held == {} && e.finished == -1 && e.s.compacted == 3 && e.s.log == LOSING_LOG
  {
    var d1 := Do(d, Scheduled(3));
    DoIsGood(d, Scheduled(3));
    var d2 := Do(d1, Begun(3));
    DoIsGood(d1, Begun(3));
    var d3 := Do(d2, Swept(Revision(3, 1)));
    LosingSweep(d.held);
    DoFirst(d2, Swept(Revision(3, 1)), []);
    DoFirst(d1, Begun(3), [Swept(Revision(3, 1))]);
    DoFirst(d, Scheduled(3), [Begun(3), Swept(Revision(3, 1))]);
    assert LOSING_SWEEP == [Scheduled(3)] + ([Begun(3)] + ([Swept(Revision(3, 1))] + []));
  }

  lemma LosingState()
    ensures CanDoAll(EMPTY_DISK, LOSING_RUN)
    ensures var d := DoAll(EMPTY_DISK, LOSING_RUN); d.held == {} && d.finished == -1 && d.s.compacted == 3 && d.s.log == LOSING_LOG
  {
    var put, delete := Wrote(OpPut(K, Revision(2, 0))), Wrote(OpTombstone(K, Revision(3, 0)));
    EmptyDiskIsGood();
    var d := Do(EMPTY_DISK, put);
    DoIsGood(EMPTY_DISK, put);
    LosingDelete(d);
    DoFirst(EMPTY_DISK, put, [delete] + LOSING_SWEEP);
    assert LOSING_RUN == [put] + ([delete] + LOSING_SWEEP);
  }

  lemma LosingDelete(d: Disk)
    requires GoodDisk(d) && d.s.log == [LOSING_LOG[0]] && CanTombstone(d.s.tree, K) && d.held == {Revision(2, 0)}
    requires d.level == d.finished == d.s.compacted == -1
    ensures var ops := [Wrote(OpTombstone(K, Revision(3, 0)))] + LOSING_SWEEP;
            CanDoAll(d, ops) && var e := DoAll(d, ops); e.held == {} && e.finished == -1 && e.s.compacted == 3 && e.s.log == LOSING_LOG
  {
    var delete := Wrote(OpTombstone(K, Revision(3, 0)));
    DoIsGood(d, delete);
    assert Do(d, delete).s.log == d.s.log + [LOSING_LOG[1]];
    LosingRest(Do(d, delete));
    DoFirst(d, delete, LOSING_SWEEP);
  }

  /** A full last batch deletes the newest record of all, a tombstone, and the process dies
      in the pause after it. At the start the current revision is 1 again: the pending
      compaction is refused, reads at 3 are told that 3 is in the future, and the next
      write is given revision 2, which was given out before. */
  lemma StartCanFail()
    ensures CanDoAll(EMPTY_DISK, LOSING_RUN)
    ensures var d := DoAll(EMPTY_DISK, LOSING_RUN); var r := RestoreStore(BackendOf(d));
            && !Restorable(d) && r == NEW_STORE && CompactError(r, d.s.compacted) == ErrFutureRev
            && StoreRange(LiveStore(d.s), [], K, NoEnd, 3).Pairs? && StoreRange(r, [], K, NoEnd, 3) == Failed(ErrFutureRev)
            && Commit(r, [WPut(K)]).tree[K].modified == d.s.log[0].event.rev
  {
    LosingState();
    var d := DoAll(EMPTY_DISK, LOSING_RUN);
    assert StoredOf(d.s.log, {}, 2) == StoredOf(d.s.log, {}, 1) == StoredOf(d.s.log, {}, 0) == [];
    var r := RestoreStore(BackendOf(d));
    assert r == NEW_STORE;
    assert [WPut(K)][..0] == [];
    assert WriteAll(r.tree, 2, [WPut(K)]) == WriteOn(Written(r.tree, 0), 2, WPut(K));
  }
}
