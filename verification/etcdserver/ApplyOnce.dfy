/** Exactly-once application of the replicated log across crashes, replays and
    snapshots. Every committed entry is executed once on the way to the state a member
    holds, but what it does can depend on who waited for it; the state is the fold of a
    prefix of the log and of a record of who did. */
module ApplyOnce {

  /** How members execute requests. `strip` is what is left of a request that nobody
      waits for: a transaction loses range requests, any other stays as it is. */
  datatype Machine<!S, !R> = Machine(exec: (S, R) -> S, strip: R -> R)

  datatype Payload<R> =
    | NoOp
    | V2Request
    | V3Request(req: R, sideEffect: bool)
    | ConfChange

  datatype Entry<R> = Entry(index: nat, payload: Payload<R>)

  /** Entry `i` of the committed log has index `i + 1`. */
  predicate ValidLog<R>(log: seq<Entry<R>>) {
    forall i :: 0 <= i < |log| ==> log[i].index == i + 1
  }

  /** What one entry makes of the state. `waited`: a client of the member waits for the
      answer. */
  function ApplyOne<S, R>(m: Machine<S, R>, s: S, p: Payload<R>, waited: bool): S {
    if p.V3Request? && (waited || p.sideEffect) then m.exec(s, if waited then p.req else m.strip(p.req)) else s
  }

  /** It makes no difference whether a client waits. */
  predicate Indifferent<S(==), R>(m: Machine<S, R>, s: S, p: Payload<R>) {
    ApplyOne(m, s, p, true) == ApplyOne(m, s, p, false)
  }

  /** The state after applying the first `n` entries once, in order; a client waited for
      entry `i` if `waited[i]`. */
  function After<S, R>(m: Machine<S, R>, initial: S, log: seq<Entry<R>>, waited: seq<bool>, n: nat): S
    requires n <= |log| && n <= |waited|
  {
    if n == 0 then initial
    else ApplyOne(m, After(m, initial, log, waited, n - 1), log[n - 1].payload, waited[n - 1])
  }

  lemma {:induction false} AfterSame<S, R>(m: Machine<S, R>, initial: S, log: seq<Entry<R>>, more: seq<Entry<R>>,
                                           waited: seq<bool>, later: seq<bool>, n: nat)
    requires n <= |log| && n <= |waited| && log <= more && n <= |later| && waited[..n] == later[..n]
    ensures After(m, initial, log, waited, n) == After(m, initial, more, later, n)
  {
    if n > 0 {
      assert waited[..n - 1] == waited[..n][..n - 1] == later[..n - 1];
      assert waited[n - 1] == waited[..n][n - 1] == later[n - 1];
      AfterSame(m, initial, log, more, waited, later, n - 1);
    }
  }

  /** The index of the last entry up to `n` that changed the state, `saved` if none after
      `done` did. */
  function SavedAt<S(==), R>(m: Machine<S, R>, initial: S, log: seq<Entry<R>>, waited: seq<bool>, done: nat, saved: nat, n: nat): nat
    requires n <= |log| && n <= |waited|
  {
    if n <= done then saved
    else if After(m, initial, log, waited, n) != After(m, initial, log, waited, n - 1) then n
    else SavedAt(m, initial, log, waited, done, saved, n - 1)
  }

  /** From the record `from` and the saved index `saved` on, entries were executed up to
      the end of `to`; whatever changed the state saved its index. */
  ghost predicate Executed<S, R>(m: Machine<S, R>, initial: S, log: seq<Entry<R>>, from: seq<bool>, saved: nat, to: seq<bool>, saved': nat) {
    from <= to && |to| <= |log| && saved' == SavedAt(m, initial, log, to, |from|, saved, |to|)
  }

  lemma {:induction false} SavedSame<S, R>(m: Machine<S, R>, initial: S, log: seq<Entry<R>>, waited: seq<bool>, later: seq<bool>,
                                           done: nat, saved: nat, n: nat)
    requires n <= |log| && n <= |waited| && waited <= later
    ensures SavedAt(m, initial, log, waited, done, saved, n) == SavedAt(m, initial, log, later, done, saved, n)
  {
    if n > done {
      AfterSame(m, initial, log, log, waited, later, n);
      AfterSame(m, initial, log, log, waited, later, n - 1);
      SavedSame(m, initial, log, waited, later, done, saved, n - 1);
    }
  }

  /** One more entry. */
  lemma ExecutedNext<S, R>(m: Machine<S, R>, initial: S, log: seq<Entry<R>>, from: seq<bool>, saved: nat, to: seq<bool>, saved': nat, needResult: bool)
    requires Executed(m, initial, log, from, saved, to, saved') && |to| < |log|
    ensures var s := After(m, initial, log, to, |to|);
            Executed(m, initial, log, from, saved, to + [needResult],
                     if ApplyOne(m, s, log[|to|].payload, needResult) == s then saved' else |to| + 1)
  {
    AfterSame(m, initial, log, log, to, to + [needResult], |to|);
    SavedSame(m, initial, log, to, to + [needResult], |from|, saved, |to|);
  }

  // ---------- Members and replays ----------

  /** Two executions of a log go through the same states. */
  ghost predicate SameStates<S, R>(m: Machine<S, R>, initial: S, log: seq<Entry<R>>, a: seq<bool>, b: seq<bool>, n: nat)
    requires n <= |log| && n <= |a| && n <= |b|
  {
    forall i: nat :: i <= n ==> After(m, initial, log, a, i) == After(m, initial, log, b, i)
  }

  /** Where a client waited in one execution only, that made no difference in the state
      the entry met. */
  ghost predicate WaitingIsIdle<S, R>(m: Machine<S, R>, initial: S, log: seq<Entry<R>>, a: seq<bool>, b: seq<bool>, n: nat)
    requires n <= |log| && n <= |a| && n <= |b|
  {
    forall i: nat :: i < n && a[i] != b[i] ==> Indifferent(m, After(m, initial, log, a, i), log[i].payload)
  }

  /** Two executions of the same log, on two members or before and after a crash, go
      through the same states if and only if waiting never made a difference. */
  lemma {:induction false} ExecutionsAgree<S, R>(m: Machine<S, R>, initial: S, log: seq<Entry<R>>, a: seq<bool>, b: seq<bool>, n: nat)
    requires n <= |log| && n <= |a| && n <= |b|
    ensures SameStates(m, initial, log, a, b, n) <==> WaitingIsIdle(m, initial, log, a, b, n)
  {
    if n > 0 {
      ExecutionsAgree(m, initial, log, a, b, n - 1);
      var s, p := After(m, initial, log, a, n - 1), log[n - 1].payload;
      assert After(m, initial, log, a, n) == ApplyOne(m, s, p, a[n - 1]);
      assert SameStates(m, initial, log, a, b, n) <==>
             SameStates(m, initial, log, a, b, n - 1) && After(m, initial, log, a, n) == After(m, initial, log, b, n);
      assert WaitingIsIdle(m, initial, log, a, b, n) <==>
             WaitingIsIdle(m, initial, log, a, b, n - 1) && (a[n - 1] != b[n - 1] ==> Indifferent(m, s, p));
      assert SameStates(m, initial, log, a, b, n - 1) ==> s == After(m, initial, log, b, n - 1);
    }
  }

  // ---------- Database files ----------

  /** A database file: the key-value state and the consistent index stored in it. */
  datatype Db<S> = Db(kv: S, index: nat)

  ghost predicate GoodDb<S, R>(m: Machine<S, R>, initial: S, log: seq<Entry<R>>, waited: seq<bool>, db: Db<S>) {
    db.index <= |log| && db.index <= |waited| && db.kv == After(m, initial, log, waited, db.index)
  }

  lemma GoodDbExtends<S, R>(m: Machine<S, R>, initial: S, log: seq<Entry<R>>, more: seq<Entry<R>>,
                            waited: seq<bool>, later: seq<bool>, db: Db<S>)
    requires GoodDb(m, initial, log, waited, db) && log <= more && db.index <= |later| && waited[..db.index] == later[..db.index]
    ensures GoodDb(m, initial, more, later, db)
  {
    AfterSame(m, initial, log, more, waited, later, db.index);
  }

  /** Files received under a snapshot index are not behind it, each with the record of the
      executions that made it. */
  ghost predicate GoodFiles<S, R>(m: Machine<S, R>, initial: S, log: seq<Entry<R>>, files: map<nat, Db<S>>, records: map<nat, seq<bool>>) {
    && files.Keys == records.Keys
    && (forall i {:trigger GoodFile(m, initial, log, files, records, i)} :: i in files ==> GoodFile(m, initial, log, files, records, i))
  }

  ghost predicate GoodFile<S, R>(m: Machine<S, R>, initial: S, log: seq<Entry<R>>, files: map<nat, Db<S>>, records: map<nat, seq<bool>>, i: nat)
    requires i in files && i in records
  {
    i <= files[i].index == |records[i]| && GoodDb(m, initial, log, records[i], files[i])
  }

  lemma GoodFilesExtend<S, R>(m: Machine<S, R>, initial: S, log: seq<Entry<R>>, more: seq<Entry<R>>, files: map<nat, Db<S>>, records: map<nat, seq<bool>>)
    requires GoodFiles(m, initial, log, files, records) && log <= more
    ensures GoodFiles(m, initial, more, files, records)
  {
    forall i | i in files ensures GoodFile(m, initial, more, files, records, i) {
      assert GoodFile(m, initial, log, files, records, i);
      GoodDbExtends(m, initial, log, more, records[i], records[i], files[i]);
    }
  }

  lemma GoodFilesWith<S, R>(m: Machine<S, R>, initial: S, log: seq<Entry<R>>, files: map<nat, Db<S>>, records: map<nat, seq<bool>>,
                            index: nat, db: Db<S>, record: seq<bool>)
    requires GoodFiles(m, initial, log, files, records)
    requires index <= db.index == |record| && GoodDb(m, initial, log, record, db)
    ensures GoodFiles(m, initial, log, files[index := db], records[index := record])
    ensures GoodFiles(m, initial, log, files - {index}, records - {index})
  {
    forall i | i in files && i != index
      ensures GoodFile(m, initial, log, files[index := db], records[index := record], i)
      ensures GoodFile(m, initial, log, files - {index}, records - {index}, i)
    {
      assert GoodFile(m, initial, log, files, records, i);
    }
    assert GoodFile(m, initial, log, files[index := db], records[index := record], index);
  }

  /** Two members that have executed up to the same index, in states that their logs and
      records explain: same states all along, and so the same state now, if waiting never
      made a difference; and they have parted somewhere if it did. */
  lemma MembersAgree<S, R>(m: Machine<S, R>, initial: S, log: seq<Entry<R>>, more: seq<Entry<R>>, a: seq<bool>, b: seq<bool>, x: Db<S>, y: Db<S>)
    requires log <= more && GoodDb(m, initial, log, a, x) && GoodDb(m, initial, more, b, y) && x.index == y.index
    ensures SameStates(m, initial, more, a, b, x.index) <==> WaitingIsIdle(m, initial, more, a, b, x.index)
    ensures WaitingIsIdle(m, initial, more, a, b, x.index) ==> x.kv == y.kv
    ensures x.index > 0 && WaitingIsIdle(m, initial, more, a, b, x.index - 1) ==>
              (x.kv == y.kv <==> a[x.index - 1] == b[x.index - 1] ||
                                 Indifferent(m, After(m, initial, more, a, x.index - 1), more[x.index - 1].payload))
  {
    GoodDbExtends(m, initial, log, more, a, a, x);
    ExecutionsAgree(m, initial, more, a, b, x.index);
    if x.index > 0 {
      ExecutionsAgree(m, initial, more, a, b, x.index - 1);
    }
  }

  /** What surrounds one entry: whether a client of this member waits for its
      answer, and whether the backend's batch timer fires right after it. */
  datatype Around = Around(needResult: bool, flush: bool)

  /** The record from entry `from` on is what surrounded the entries, which began after
      `skip` others. */
  predicate Recorded(waited: seq<bool>, from: nat, around: seq<Around>, skip: nat) {
    forall i {:trigger RecordedAt(waited, around, skip, i)} :: from <= i < |waited| ==> RecordedAt(waited, around, skip, i)
  }

  predicate RecordedAt(waited: seq<bool>, around: seq<Around>, skip: nat, i: nat)
    requires i < |waited|
  {
    0 <= i - skip < |around| && waited[i] == around[i - skip].needResult
  }

  lemma RecordedNext(waited: seq<bool>, from: nat, around: seq<Around>, skip: nat)
    requires Recorded(waited, from, around, skip) && 0 <= |waited| - skip < |around|
    ensures Recorded(waited + [around[|waited| - skip].needResult], from, around, skip)
  {
    var more := waited + [around[|waited| - skip].needResult];
    forall i | from <= i < |more| ensures RecordedAt(more, around, skip, i) {
      assert i < |waited| ==> RecordedAt(waited, around, skip, i);
    }
  }

  lemma RecordedShift(waited: seq<bool>, from: nat, around: seq<Around>, skip: nat, cut: nat)
    requires cut <= |around| && Recorded(waited, from, around[cut..], skip + cut)
    ensures Recorded(waited, from, around, skip)
  {
    forall i | from <= i < |waited| ensures RecordedAt(waited, around, skip, i) {
      assert RecordedAt(waited, around[cut..], skip + cut, i);
    }
  }

  class Server<S(==), R> {
    const machine: Machine<S, R>
    const initial: S
    /** Everything the cluster has committed, known here or not. */
    ghost var log: seq<Entry<R>>
    /** For which entries a client waited in the executions that made `kv`, and in those
        that made the database files received. */
    ghost var waited: seq<bool>
    ghost var receivedWaited: map<nat, seq<bool>>

    // Lost in a crash.
    var kv: S              // the backend as the running server sees it
    var savedIndex: nat    // the consistent index inside that backend
    var consistIndex: nat  // index of the entry being, or last, executed
    var appliedi: nat
    var snapi: nat
    var pendingSnaps: set<nat>  // local snapshots being written in the background

    // Survives a crash.
    var disk: Db<S>                 // the backend as committed
    var snapIndex: nat              // newest persisted raft snapshot
    var received: map<nat, Db<S>>   // database files sent with leader snapshots

    /** The state is the fold of the log up to the consistent index. */
    ghost predicate Current()
      reads this
    {
      && |waited| == consistIndex
      && GoodDb(machine, initial, log, waited, Db(kv, consistIndex))
      && savedIndex <= consistIndex
      && GoodDb(machine, initial, log, waited, Db(kv, savedIndex))
    }

    /** What a restart can rely on. A snapshot is never ahead of the consistent
        index of the database that a restart will open. */
    ghost predicate Durable()
      reads this
    {
      && GoodDb(machine, initial, log, waited, disk)
      && GoodFiles(machine, initial, log, received, receivedWaited)
      && (snapIndex <= disk.index || snapIndex in received)
    }

    ghost predicate Valid()
      reads this
    {
      && ValidLog(log)
      && Current()
      && Durable()
      && disk.index <= savedIndex
      && snapi <= appliedi <= consistIndex
      && (forall p :: p in pendingSnaps ==> p <= appliedi && p <= disk.index)
    }

    constructor (machine: Machine<S, R>, initial: S)
      ensures Valid() && log == [] && kv == initial && this.machine == machine && this.initial == initial
      ensures consistIndex == savedIndex == appliedi == snapIndex == 0 && received == map[] && disk == Db(initial, 0)
    {
      this.machine, this.initial, log, waited, receivedWaited := machine, initial, [], [], map[];
      kv, savedIndex, consistIndex, appliedi, snapi := initial, 0, 0, 0, 0;
      pendingSnaps, disk, snapIndex, received := {}, Db(initial, 0), 0, map[];
    }

    /** Raft commits more entries; committed entries never change. */
    ghost method Commit(more: seq<Entry<R>>)
      requires Valid() && ValidLog(log + more)
      modifies `log
      ensures Valid() && log == old(log) + more
    {
      GoodDbExtends(machine, initial, log, log + more, waited, waited, Db(kv, consistIndex));
      GoodDbExtends(machine, initial, log, log + more, waited, waited, Db(kv, savedIndex));
      GoodDbExtends(machine, initial, log, log + more, waited, waited, disk);
      GoodFilesExtend(machine, initial, log, log + more, received, receivedWaited);
      log := log + more;
    }

    /** A v3 request runs in one backend transaction. If it changes anything, the
        consistent index is stored with the change. */
    method ApplyV3(req: R)
      modifies `kv, `savedIndex
      ensures kv == machine.exec(old(kv), req)
      ensures savedIndex == if kv == old(kv) then old(savedIndex) else consistIndex
    {
      var next := machine.exec(kv, req);
      if next != kv {
        kv := next;
        savedIndex := consistIndex;
      }
    }

    /** The next entry is set as the one being executed; who waits for it is recorded. */
    method Begin(index: nat, ghost needResult: bool)
      requires Valid() && index == consistIndex + 1 <= |log|
      modifies `consistIndex, `waited
      ensures consistIndex == index && waited == old(waited) + [needResult]
      ensures GoodDb(machine, initial, log, waited, Db(kv, index - 1)) && GoodDb(machine, initial, log, waited, Db(kv, savedIndex))
      ensures GoodDb(machine, initial, log, waited, disk)
    {
      consistIndex := index;
      ghost var now := waited + [needResult];
      GoodDbExtends(machine, initial, log, log, waited, now, Db(kv, index - 1));
      GoodDbExtends(machine, initial, log, log, waited, now, Db(kv, savedIndex));
      GoodDbExtends(machine, initial, log, log, waited, now, disk);
      waited := now;
    }

    /** An entry already executed is passed over. Any other is executed, whole if a
        client of this member waits for the answer (`needResult`), else without the range
        requests of a transaction, and not at all if it has no side effect either. */
    method ApplyEntryNormal(e: Entry<R>, needResult: bool)
      requires Valid() && !e.payload.ConfChange?
      requires 1 <= e.index <= |log| && e == log[e.index - 1] && e.index <= consistIndex + 1
      modifies `kv, `savedIndex, `consistIndex, `waited
      ensures Valid()
      ensures e.index <= old(consistIndex) ==>
                consistIndex == old(consistIndex) && waited == old(waited) && kv == old(kv) && savedIndex == old(savedIndex)
      ensures e.index > old(consistIndex) ==>
                && consistIndex == e.index && waited == old(waited) + [needResult]
                && kv == ApplyOne(machine, old(kv), e.payload, needResult)
                && savedIndex == if kv == old(kv) then old(savedIndex) else e.index
      ensures e.index > old(consistIndex) ==>
                match e.payload
                case V3Request(req, sideEffect) =>
                  if needResult then kv == machine.exec(old(kv), req)
                  else if sideEffect then kv == machine.exec(old(kv), machine.strip(req))
                  else kv == old(kv)
                case _ => kv == old(kv)
    {
      var shouldApplyV3 := false;
      if e.index > consistIndex {
        Begin(e.index, needResult);
        shouldApplyV3 := true;
      }
      match e.payload {
        case NoOp => return;
        case V2Request => return;
        case ConfChange =>
        case V3Request(req, sideEffect) =>
          if !shouldApplyV3 {
            return;
          }
          if needResult || sideEffect {
            var r := req;
            if !needResult {
              r := machine.strip(req);
            }
            ApplyV3(r);
          }
      }
    }

    method ApplyConfChange(e: Entry<R>, ghost needResult: bool)
      requires Valid() && e.payload.ConfChange?
      requires 1 <= e.index <= |log| && e == log[e.index - 1] && e.index <= consistIndex + 1
      modifies `consistIndex, `waited
      ensures Valid()
      ensures consistIndex == if e.index > old(consistIndex) then e.index else old(consistIndex)
      ensures waited == if e.index > old(consistIndex) then old(waited) + [needResult] else old(waited)
    {
      if e.index > consistIndex {
        Begin(e.index, needResult);
      }
    }

    /** The backend writes its batch to disk now and then, data and index together. */
    method BackendCommit()
      requires Valid()
      modifies `disk
      ensures Valid() && disk == Db(kv, savedIndex)
    {
      disk := Db(kv, savedIndex);
    }

    /** One entry, executed or passed over, and perhaps a flush after it. */
    method ApplyOneEntry(e: Entry<R>, around: Around)
      requires Valid() && 1 <= e.index <= |log| && e == log[e.index - 1] && e.index == appliedi + 1
      modifies `kv, `savedIndex, `consistIndex, `appliedi, `disk, `waited
      ensures Valid() && appliedi == e.index
      ensures consistIndex == if e.index > old(consistIndex) then e.index else old(consistIndex)
      ensures e.index <= old(consistIndex) ==> waited == old(waited) && savedIndex == old(savedIndex)
      ensures e.index > old(consistIndex) ==>
                && waited == old(waited) + [around.needResult]
                && savedIndex == if ApplyOne(machine, old(kv), e.payload, around.needResult) == old(kv) then old(savedIndex) else e.index
      ensures disk == if around.flush then Db(kv, savedIndex) else old(disk)
    {
      if e.payload.ConfChange? {
        ApplyConfChange(e, around.needResult);
      } else {
        ApplyEntryNormal(e, around.needResult);
      }
      appliedi := e.index;
      if around.flush {
        BackendCommit();
      }
    }

    /** The entries in order. The state is valid after each of them, so a crash may
        come at any of these points. */
    method Apply(es: seq<Entry<R>>, around: seq<Around>)
      requires Valid() && |es| > 0 && |around| == |es|
      requires appliedi + |es| <= |log| && es == log[appliedi..appliedi + |es|]
      modifies `kv, `savedIndex, `consistIndex, `appliedi, `disk, `waited
      ensures Valid() && appliedi == old(appliedi) + |es|
      ensures consistIndex == if appliedi > old(consistIndex) then appliedi else old(consistIndex)
      ensures old(waited) <= waited
      ensures Recorded(waited, old(consistIndex), around, old(appliedi))
      ensures Executed(machine, initial, log, old(waited), old(savedIndex), waited, savedIndex)
      ensures around[|es| - 1].flush ==> disk == Db(kv, savedIndex)
    {
      ghost var first, saved, skip := waited, savedIndex, appliedi;
      for i := 0 to |es|
        invariant Valid() && appliedi == skip + i
        invariant consistIndex == if appliedi > |first| then appliedi else |first|
        invariant Executed(machine, initial, log, first, saved, waited, savedIndex)
        invariant Recorded(waited, |first|, around, skip)
        invariant i > 0 && around[i - 1].flush ==> disk == Db(kv, savedIndex)
      {
        assert es[i] == log[appliedi];
        ApplyNext(es[i], around, i, first, saved, skip);
      }
    }

    /** Entry `i` of those handed over, the record and saved index being `first` and `saved`
        before the first of them. */
    method ApplyNext(e: Entry<R>, around: seq<Around>, i: nat, ghost first: seq<bool>, ghost saved: nat, ghost skip: nat)
      requires Valid() && 1 <= e.index <= |log| && e == log[e.index - 1] && e.index == appliedi + 1
      requires i < |around| && appliedi == skip + i && consistIndex == if appliedi > |first| then appliedi else |first|
      requires Executed(machine, initial, log, first, saved, waited, savedIndex) && Recorded(waited, |first|, around, skip)
      modifies `kv, `savedIndex, `consistIndex, `appliedi, `disk, `waited
      ensures Valid() && appliedi == e.index && consistIndex == if appliedi > |first| then appliedi else |first|
      ensures Executed(machine, initial, log, first, saved, waited, savedIndex) && Recorded(waited, |first|, around, skip)
      ensures around[i].flush ==> disk == Db(kv, savedIndex)
    {
      if e.index > consistIndex {
        RecordedNext(waited, |first|, around, skip);
        ExecutedNext(machine, initial, log, first, saved, waited, savedIndex, around[i].needResult);
      }
      ApplyOneEntry(e, around[i]);
    }

    /** Committed entries handed over by raft, from anywhere at or before the next
        one to apply. Entries already applied in this run are cut off; entries
        executed before a crash are passed over. */
    method ApplyEntries(entries: seq<Entry<R>>, around: seq<Around>)
      requires Valid() && |around| == |entries|
      requires |entries| > 0 ==>
                 1 <= entries[0].index <= appliedi + 1 &&
                 entries[0].index - 1 + |entries| <= |log| &&
                 entries == log[entries[0].index - 1..entries[0].index - 1 + |entries|]
      modifies `kv, `savedIndex, `consistIndex, `appliedi, `disk, `waited
      ensures Valid() && old(waited) <= waited
      ensures |entries| == 0 ==> appliedi == old(appliedi) && waited == old(waited) && savedIndex == old(savedIndex) && disk == old(disk)
      ensures |entries| > 0 ==>
                var last, skip := entries[0].index - 1 + |entries|, entries[0].index - 1;
                && appliedi == (if last > old(appliedi) then last else old(appliedi))
                && consistIndex == (if last > old(consistIndex) then last else old(consistIndex))
                && Recorded(waited, old(consistIndex), around, skip)
                && (last > old(appliedi) && around[|entries| - 1].flush ==> disk == Db(kv, savedIndex))
      ensures Executed(machine, initial, log, old(waited), old(savedIndex), waited, savedIndex)
    {
      if |entries| == 0 {
        return;
      }
      var firsti := entries[0].index;
      var skip := appliedi + 1 - firsti;
      if skip < |entries| {
        assert entries[skip..] == log[appliedi..appliedi + |entries[skip..]|];
        Apply(entries[skip..], around[skip..]);
        RecordedShift(waited, old(consistIndex), around, firsti - 1, skip);
      }
    }

    /** KV().Commit(): store the consistent index and force the batch out. */
    method KVCommit()
      requires Valid()
      modifies `savedIndex, `disk
      ensures Valid() && savedIndex == consistIndex && disk == Db(kv, consistIndex)
    {
      savedIndex := consistIndex;
      disk := Db(kv, savedIndex);
    }

    method TriggerSnapshot(snapshotCount: nat)
      requires Valid()
      modifies `savedIndex, `disk, `snapi, `pendingSnaps
      ensures Valid()
      ensures appliedi - old(snapi) > snapshotCount ==> snapi == appliedi && appliedi in pendingSnaps && disk.index == consistIndex
    {
      if appliedi - snapi <= snapshotCount {
        return;
      }
      KVCommit();
      pendingSnaps := pendingSnaps + {appliedi};
      snapi := appliedi;
    }

    /** The background part of a local snapshot: raft may have a newer one. */
    method SaveLocalSnapshot(p: nat)
      requires Valid() && p in pendingSnaps
      modifies `snapIndex, `pendingSnaps
      ensures Valid() && snapIndex >= old(snapIndex) && snapIndex >= p
      ensures snapIndex != old(snapIndex) ==> snapIndex <= disk.index
    {
      pendingSnaps := pendingSnaps - {p};
      if p > snapIndex {
        snapIndex := p;
      }
    }

    /** What this member sends to a slow follower: its database is never behind the
        index the snapshot claims, and the same executions explain it. */
    method CreateMergedSnapshot() returns (index: nat, db: Db<S>)
      requires Valid()
      modifies `savedIndex, `disk
      ensures Valid() && index == appliedi && index <= db.index == |waited| && GoodDb(machine, initial, log, waited, db)
    {
      KVCommit();
      return appliedi, disk;
    }

    /** A database file arrives ahead of the leader snapshot that names it. */
    method ReceiveDb(index: nat, db: Db<S>, ghost record: seq<bool>)
      requires Valid() && index <= db.index == |record| && GoodDb(machine, initial, log, record, db)
      modifies `received, `receivedWaited
      ensures Valid() && received == old(received)[index := db] && receivedWaited == old(receivedWaited)[index := record]
    {
      GoodFilesWith(machine, initial, log, received, receivedWaited, index, db, record);
      received := received[index := db];
      receivedWaited := receivedWaited[index := record];
    }

    /** The raft routine persists a leader snapshot. */
    method SaveLeaderSnapshot(index: nat)
      requires Valid() && index in received && index > snapIndex
      modifies `snapIndex
      ensures Valid() && snapIndex == index
    {
      snapIndex := index;
    }

    /** A received database file becomes the one on disk. */
    method OpenReceived(index: nat)
      requires Durable() && index in received
      modifies `disk, `waited, `received, `receivedWaited
      ensures disk == old(received[index]) && waited == old(receivedWaited[index])
      ensures index <= disk.index == |waited| && GoodDb(machine, initial, log, waited, disk)
      ensures received == old(received) - {index} && receivedWaited == old(receivedWaited) - {index}
      ensures GoodFiles(machine, initial, log, received, receivedWaited)
    {
      assert GoodFile(machine, initial, log, received, receivedWaited, index);
      disk, waited := received[index], receivedWaited[index];
      GoodFilesWith(machine, initial, log, received, receivedWaited, index, disk, waited);
      received, receivedWaited := received - {index}, receivedWaited - {index};
    }

    /** Replace the backend by the received file; runs after the snapshot is
        persisted. An index not above the applied one is a panic in the program. */
    method ApplySnapshot(index: nat)
      requires Valid() && index > appliedi && index in received && snapIndex == index
      modifies this
      ensures Valid() && log == old(log) && appliedi == snapi == index && snapIndex == old(snapIndex)
      ensures kv == old(received[index].kv) && consistIndex == old(received[index].index)
      ensures waited == old(receivedWaited[index])
    {
      OpenReceived(index);
      kv, savedIndex, consistIndex := disk.kv, disk.index, disk.index;
      appliedi, snapi := index, index;
    }

    /** Crash and start again. The database of a persisted leader snapshot that was
        not yet put in place is used if the old one is behind. The start never
        refuses with "database file does not match with snapshot". */
    method CrashAndRestart() returns (mismatch: bool)
      requires Valid()
      modifies this
      ensures Valid() && log == old(log)
      ensures !mismatch
      ensures appliedi == snapi == snapIndex == old(snapIndex)
      ensures disk == if old(snapIndex <= disk.index) then old(disk) else old(received)[snapIndex]
      ensures kv == disk.kv && savedIndex == consistIndex == disk.index
      ensures waited == if old(snapIndex <= disk.index) then old(waited)[..disk.index] else old(receivedWaited)[snapIndex]
    {
      if !(snapIndex <= disk.index) {
        OpenReceived(snapIndex);
      } else {
        GoodDbExtends(machine, initial, log, log, waited, waited[..disk.index], disk);
        waited := waited[..disk.index];
      }
      mismatch := disk.index < snapIndex;
      kv, savedIndex, consistIndex := disk.kv, disk.index, disk.index;
      appliedi, snapi := snapIndex, snapIndex;
      pendingSnaps := {};
    }
  }

  lemma ReplayMeans<S, R>(m: Machine<S, R>, initial: S, log: seq<Entry<R>>, a: seq<bool>, b: seq<bool>, x: Db<S>, y: Db<S>)
    requires GoodDb(m, initial, log, a, x) && GoodDb(m, initial, log, b, y) && x.index <= y.index
    ensures SameStates(m, initial, log, a, b, x.index) <==> WaitingIsIdle(m, initial, log, a, b, x.index)
    ensures WaitingIsIdle(m, initial, log, a, b, x.index) && x.index == y.index ==> x.kv == y.kv
  {
    ExecutionsAgree(m, initial, log, a, b, x.index);
  }

  /** The executions behind the database that a restart opens. */
  ghost function RecordOnDisk<S, R>(s: Server<S, R>): (record: seq<bool>)
    requires s.Valid()
    reads s
    ensures |record| == if s.snapIndex <= s.disk.index then s.disk.index else s.received[s.snapIndex].index
  {
    if s.snapIndex <= s.disk.index then s.waited[..s.disk.index]
    else
      assert GoodFile(s.machine, s.initial, s.log, s.received, s.receivedWaited, s.snapIndex);
      s.receivedWaited[s.snapIndex]
  }

  /** Crash, restart, and replay of everything executed before. Each entry is executed once
      on the way to the new state. The replay goes through the states of the first execution
      if and only if no entry that ran again met a state where it matters whether a client
      waits; then it ends in the state from before the crash. */
  method ReplayIsHarmless<S(==), R>(s: Server<S, R>, ghost upTo: nat, entries: seq<Entry<R>>, around: seq<Around>)
    requires s.Valid() && upTo == s.consistIndex && |around| == |entries|
    requires s.snapIndex < upTo && s.snapIndex + |entries| == upTo && entries == s.log[s.snapIndex..upTo]
    modifies s
    ensures s.Valid() && s.log == old(s.log)
    ensures s.consistIndex == if |old(RecordOnDisk(s))| > upTo then |old(RecordOnDisk(s))| else upTo
    ensures old(RecordOnDisk(s)) <= s.waited && Recorded(s.waited, |old(RecordOnDisk(s))|, around, old(s.snapIndex))
    ensures SameStates(s.machine, s.initial, s.log, old(s.waited), s.waited, upTo) <==>
            WaitingIsIdle(s.machine, s.initial, s.log, old(s.waited), s.waited, upTo)
    ensures WaitingIsIdle(s.machine, s.initial, s.log, old(s.waited), s.waited, upTo) && s.consistIndex == upTo ==> s.kv == old(s.kv)
  {
    ghost var first, kv, record := s.waited, s.kv, RecordOnDisk(s);
    assert entries[0] == s.log[s.snapIndex];
    var _ := s.CrashAndRestart();
    assert s.waited == record;
    s.ApplyEntries(entries, around);
    ReplayMeans(s.machine, s.initial, s.log, first, s.waited, Db(kv, upTo), Db(s.kv, s.consistIndex));
  }

  /** The run in which that goes wrong. A client waits for a request that changes nothing,
      so nothing is stored, not even that it was executed. After a crash it is executed
      again; nobody waits, and what is left of it may act. */
  method ExecutedTwice<S(==), R>(m: Machine<S, R>, initial: S, req: R) returns (before: S, after: S)
    requires m.exec(initial, req) == initial
    ensures before == initial && after == m.exec(initial, m.strip(req))
  {
    var e := Entry(1, V3Request(req, true));
    var s := ExecuteAwaited(m, initial, e);
    before := s.kv;
    var _ := s.CrashAndRestart();
    s.ApplyEntries([e], [Around(false, true)]);
    assert RecordedAt(s.waited, [Around(false, true)], 0, 0);
    after := s.kv;
  }

  method ExecuteAwaited<S(==), R>(m: Machine<S, R>, initial: S, e: Entry<R>) returns (s: Server<S, R>)
    requires e.index == 1 && e.payload.V3Request? && m.exec(initial, e.payload.req) == initial
    ensures fresh(s) && s.Valid() && s.machine == m && s.initial == initial && s.log == [e]
    ensures s.kv == initial && s.disk == Db(initial, 0) && s.snapIndex == 0
  {
    s := new Server(m, initial);
    s.Commit([e]);
    assert s.log == [e] && s.waited == [];
    s.ApplyEntries([e], [Around(true, true)]);
    assert RecordedAt(s.waited, [Around(true, true)], 0, 0);
    assert After(m, initial, [e], s.waited, 1) == After(m, initial, [e], s.waited, 0);
    assert SavedAt(m, initial, [e], s.waited, 0, 0, 1) == SavedAt(m, initial, [e], s.waited, 0, 0, 0) == 0;
  }
}
