/** The store around the index: the current revision, the compaction bound, the guards of
    reads and compactions, and how all of it comes back from the backend at a start. */
module Stores {
  import opened Bytes
  import opened Revisions
  import opened KeyIndexSpec
  import opened TreeIndexSpec
  import opened TreeIndexes
  import Laws = KeyIndexLaws
  import Reads = TreeIndexReads
  import opened Restart

  // ---------- The store as a value ----------

  datatype StoreState = StoreState(tree: Tree, currentRev: int, compactMainRev: int)

  const NEW_STORE := StoreState(map[], 1, -1)

  datatype StoreError = NoError | ErrFutureRev | ErrCompacted

  /** A range read of the store: the revisions of the records it returns, and the
      revision it was answered at. */
  datatype ReadResult = Failed(error: StoreError) | Pairs(revs: seq<Revision>, rev: int)

  function RangedKeys(keys: seq<Key>, key: Key, end: RangeEnd): seq<Key> {
    if end.NoEnd? then [key] else Scan(keys, key, end.key)
  }

  /** Revision 0 or less asks for the current one. */
  function ReadAt(s: StoreState, rev: int): int {
    if rev <= 0 then s.currentRev else rev
  }

  /** `keys` are those of the index. */
  function StoreRange(s: StoreState, keys: seq<Key>, key: Key, end: RangeEnd, rev: int): ReadResult {
    if rev > s.currentRev then Failed(ErrFutureRev)
    else if ReadAt(s, rev) < s.compactMainRev then Failed(ErrCompacted)
    else Pairs(VisibleRevs(s.tree, RangedKeys(keys, key, end), ReadAt(s, rev)), s.currentRev)
  }

  datatype Write = WPut(key: Key) | WDelete(key: Key)

  /** The tree inside a transaction and the number of changes so far. */
  datatype Written = Written(tree: Tree, changes: nat)

  /** One write. Deleting a key that does not exist is no change. */
  function WriteOn(x: Written, main: int, w: Write): Written {
    var rev := Revision(main, x.changes);
    match w
    case WPut(k) => Written(PutTree(x.tree, k, rev), x.changes + 1)
    case WDelete(k) => if CanTombstone(x.tree, k) then Written(TombstoneTree(x.tree, k, rev), x.changes + 1) else x
  }

  function WriteAll(t: Tree, main: int, ws: seq<Write>): Written {
    if |ws| == 0 then Written(t, 0) else WriteOn(WriteAll(t, main, ws[..|ws| - 1]), main, ws[|ws| - 1])
  }

  /** A transaction writes at the next revision, which becomes the current one if it
      changed anything. */
  function Commit(s: StoreState, ws: seq<Write>): StoreState {
    var x := WriteAll(s.tree, s.currentRev + 1, ws);
    if x.changes == 0 then s else s.(tree := x.tree, currentRev := s.currentRev + 1)
  }

  function CompactError(s: StoreState, rev: int): StoreError {
    if rev <= s.compactMainRev then ErrCompacted else if rev > s.currentRev then ErrFutureRev else NoError
  }

  /** An accepted compaction moves the bound; the index follows in the background. */
  function CompactStore(s: StoreState, rev: int): StoreState {
    if CompactError(s, rev) == NoError then s.(compactMainRev := rev) else s
  }

  /** A revision in the meta bucket. */
  datatype Mark = Unset | At(rev: int)

  /** What the backend holds: records in revision order, the last finished and the last
      scheduled compaction. */
  datatype Backend = Backend(stored: seq<Stored>, finished: Mark, scheduled: Mark)

  /** The store that a start makes of a backend: the index from the records, and the
      current revision and the bound of the last record and the finished compaction. */
  function RestoreStore(b: Backend): StoreState {
    Resume(StoreState(ReadAll(b.stored), LastMain(b.stored), if b.finished.At? then b.finished.rev else -1), b.scheduled)
  }

  /** The current revision is at least the finished compaction. A scheduled compaction is
      resumed if it is above the finished one, not 0, and not above the current revision. */
  function Resume(s: StoreState, scheduled: Mark): StoreState {
    var raised := if s.currentRev < s.compactMainRev then s.(currentRev := s.compactMainRev) else s;
    if scheduled.At? && scheduled.rev > s.compactMainRev && scheduled.rev != 0 then CompactStore(raised, scheduled.rev) else raised
  }

  /** No key was changed above main revision `rev`. */
  predicate WrittenUpTo(t: Tree, rev: int) {
    forall k :: k in t ==> t[k].modified.main <= rev
  }

  /** No key was changed at or above `rev`. */
  predicate WrittenBelow(t: Tree, rev: Revision) {
    forall k :: k in t ==> rev.GreaterThan(t[k].modified)
  }

  lemma {:induction false} WriteAllBelow(t: Tree, main: int, ws: seq<Write>)
    requires WrittenUpTo(t, main - 1)
    ensures var x := WriteAll(t, main, ws);
            WrittenBelow(x.tree, Revision(main, x.changes)) && WrittenUpTo(x.tree, main) && (x.changes == 0 ==> x.tree == t)
  {
    if |ws| > 0 {
      WriteAllBelow(t, main, ws[..|ws| - 1]);
    }
  }

  // ---------- The store object ----------

  class Store {
    var kvindex: TreeIndex
    var currentRev: int
    var compactMainRev: int
    var finishedCompact: Mark   // these two are in the backend
    var scheduledCompact: Mark

    /** No key was changed above the current revision. */
    ghost predicate Valid()
      reads this, kvindex, kvindex.items.Values
    {
      kvindex.Valid() && currentRev >= 1 && WrittenUpTo(kvindex.View(), currentRev)
    }

    ghost function State(): StoreState
      reads this, kvindex, kvindex.items.Values
    {
      StoreState(kvindex.View(), currentRev, compactMainRev)
    }

    constructor ()
      ensures Valid() && State() == NEW_STORE && finishedCompact == scheduledCompact == Unset
    {
      kvindex := new TreeIndex();
      currentRev, compactMainRev, finishedCompact, scheduledCompact := 1, -1, Unset, Unset;
    }

    method Range(key: Key, end: RangeEnd, rev: int) returns (r: ReadResult)
      requires Valid()
      ensures r == StoreRange(State(), kvindex.keys, key, end, rev)
    {
      if rev > currentRev {
        return Failed(ErrFutureRev);
      }
      var at := rev;
      if rev <= 0 {
        at := currentRev;
      }
      if at < compactMainRev {
        return Failed(ErrCompacted);
      }
      var revs := kvindex.Revisions(key, end, at);
      return Pairs(revs, currentRev);
    }

    /** The scheduled compaction is on disk before the call returns. */
    method UpdateCompactRev(rev: int) returns (err: StoreError)
      requires Valid()
      modifies `compactMainRev, `scheduledCompact
      ensures Valid() && State() == CompactStore(old(State()), rev) && err == CompactError(old(State()), rev)
      ensures scheduledCompact == if err == NoError then At(rev) else old(scheduledCompact)
    {
      if rev <= compactMainRev {
        return ErrCompacted;
      }
      if rev > currentRev {
        return ErrFutureRev;
      }
      compactMainRev := rev;
      scheduledCompact := At(rev);
      return NoError;
    }

    /** A new index, read from the records. */
    method LoadIndex(stored: seq<Stored>)
      requires AscendingStored(stored) && forall x :: x in stored ==> Readable(x)
      modifies `kvindex, `currentRev
      ensures Valid() && fresh(kvindex) && kvindex.View() == ReadAll(stored) && currentRev == LastMain(stored)
    {
      kvindex := new TreeIndex();
      currentRev := RestoreIntoIndex(kvindex, stored);
      ReadIsBelow(stored);
    }

    /** Everything but the backend is made anew. */
    method Restore(stored: seq<Stored>)
      requires AscendingStored(stored) && forall x :: x in stored ==> Readable(x)
      modifies this
      ensures Valid() && fresh(kvindex)
      ensures State() == RestoreStore(Backend(stored, old(finishedCompact), old(scheduledCompact)))
      ensures finishedCompact == old(finishedCompact) && scheduledCompact == old(scheduledCompact)
    {
      compactMainRev := -1;
      if finishedCompact.At? {
        compactMainRev := finishedCompact.rev;
      }
      LoadIndex(stored);
      ResumeCompaction();
    }

    /** The end of a restore: the finished compaction is a lower bound of the current
        revision, and the scheduled one is taken up again. */
    method ResumeCompaction()
      requires Valid()
      modifies `currentRev, `compactMainRev, `scheduledCompact
      ensures Valid() && State() == Resume(old(State()), old(scheduledCompact)) && scheduledCompact == old(scheduledCompact)
    {
      var scheduled := 0;
      if scheduledCompact.At? {
        scheduled := scheduledCompact.rev;
      }
      if currentRev < compactMainRev {
        currentRev := compactMainRev;
      }
      if scheduled <= compactMainRev {
        scheduled := 0;
      }
      if scheduled != 0 {
        var _ := UpdateCompactRev(scheduled);
      }
    }

    /** A write transaction. Only if it changed something is there a new revision. */
    method WriteTxn(ws: seq<Write>)
      requires Valid()
      modifies this, kvindex, kvindex.items.Values
      ensures Valid() && kvindex == old(kvindex) && State() == Commit(old(State()), ws)
      ensures fresh(kvindex.items.Values - old(kvindex.items.Values))
    {
      WriteAllBelow(kvindex.View(), currentRev + 1, ws);
      var changes := WriteChanges(kvindex, currentRev + 1, ws);
      End(changes);
    }

    /** The end of a write transaction that made `changes`. */
    method End(changes: nat)
      requires kvindex.Valid() && currentRev >= 1 && WrittenUpTo(kvindex.View(), if changes == 0 then currentRev else currentRev + 1)
      modifies `currentRev
      ensures Valid() && currentRev == (if changes == 0 then old(currentRev) else old(currentRev) + 1)
    {
      if changes != 0 {
        currentRev := currentRev + 1;
      }
    }
  }

  /** One change of a transaction that made `changes` before; the count with this one. */
  method WriteOne(ti: TreeIndex, main: int, w: Write, changes: nat) returns (changes': nat)
    requires ti.Valid() && main > 0 && WrittenBelow(ti.View(), Revision(main, changes))
    modifies ti, ti.items.Values
    ensures ti.Valid() && fresh(ti.items.Values - old(ti.items.Values))
    ensures Written(ti.View(), changes') == WriteOn(Written(old(ti.View()), changes), main, w)
  {
    var rev := Revision(main, changes);
    assert w.key in ti.items ==> ti.View()[w.key].modified == ti.items[w.key].modified;
    changes' := changes;
    if w.WPut? {
      ti.Put(w.key, rev);
      changes' := changes + 1;
    } else {
      var deleted := ti.Tombstone(w.key, rev);
      if deleted {
        changes' := changes + 1;
      }
    }
  }

  method WriteChanges(ti: TreeIndex, main: int, ws: seq<Write>) returns (changes: nat)
    requires ti.Valid() && main > 0 && WrittenUpTo(ti.View(), main - 1)
    modifies ti, ti.items.Values
    ensures ti.Valid() && fresh(ti.items.Values - old(ti.items.Values))
    ensures Written(ti.View(), changes) == WriteAll(old(ti.View()), main, ws)
  {
    ghost var t := ti.View();
    changes := 0;
    for i := 0 to |ws|
      invariant ti.Valid() && fresh(ti.items.Values - old(ti.items.Values))
      invariant Written(ti.View(), changes) == WriteAll(t, main, ws[..i])
    {
      assert ws[..i + 1][..i] == ws[..i];
      WriteAllBelow(t, main, ws[..i]);
      changes := WriteOne(ti, main, ws[i], changes);
    }
    assert ws[..|ws|] == ws;
  }

  /** The index read back is not above the last record. */
  lemma ReadIsBelow(stored: seq<Stored>)
    requires AscendingStored(stored) && forall x :: x in stored ==> Readable(x)
    ensures LastMain(stored) >= 1 && WrittenUpTo(ReadAll(stored), LastMain(stored))
  {
    var n := |stored| - 1;
    assert n >= 0 ==> stored[n] in stored;
    forall k | k in ReadAll(stored) ensures ReadAll(stored)[k].modified.main <= LastMain(stored) {
      ModifiedIsRead(stored, k);
      var i :| 0 <= i < |stored| && ReadAll(stored)[k].modified == stored[i].rec.event.rev;
      assert i == n || stored[n].rec.event.rev.GreaterThan(stored[i].rec.event.rev);
    }
  }

  // ---------- Stores that answer alike ----------

  /** The shape of every index: entries are not empty, and a key that is deleted ends with
      a blank generation. */
  ghost predicate Tidy(t: Tree) {
    forall k {:trigger TidyAt(t, k)} :: k in t ==> TidyAt(t, k)
  }

  predicate TidyAt(t: Tree, k: Key)
    requires k in t
  {
    |t[k].generations| > 0 && (LastIsEmpty(t[k].generations) ==> t[k].generations[|t[k].generations| - 1] == NO_GENERATION)
  }

  lemma TidyIsNonEmpty(t: Tree)
    requires Tidy(t)
    ensures NonEmptyEntries(t)
  {
    forall k | k in t ensures |t[k].generations| > 0 {
      assert TidyAt(t, k);
    }
  }

  /** The index once the background compaction has caught up with the bound. */
  ghost function Settled(t: Tree, c: int): Tree
    requires Tidy(t)
  {
    TidyIsNonEmpty(t);
    CompactTree(t, c)
  }

  /** Indexes that are alike once compacted at `c`. */
  ghost predicate BecomeAlike(t: Tree, u: Tree, c: int) {
    Tidy(t) && Tidy(u) && TreesAlike(Settled(t, c), Settled(u, c))
  }

  ghost predicate Proper(s: StoreState) {
    Tidy(s.tree) && s.currentRev >= 1 && s.compactMainRev <= s.currentRev
  }

  /** Same revision, same bound, and indexes that become alike; how far the background
      compaction has come in either does not matter. */
  ghost predicate Like(x: StoreState, y: StoreState) {
    && Proper(x) && Proper(y) && x.currentRev == y.currentRev && x.compactMainRev == y.compactMainRev
    && BecomeAlike(x.tree, y.tree, x.compactMainRev)
  }

  lemma TidyWrite(t: Tree, k: Key, rev: Revision)
    requires Tidy(t)
    ensures Tidy(PutTree(t, k, rev)) && Tidy(TombstoneTree(t, k, rev))
  {
    var u, v := PutTree(t, k, rev), TombstoneTree(t, k, rev);
    PutIsNotEmpty(if k in t then t[k].generations else [], rev);
    forall k' | k' in u ensures TidyAt(u, k') {
      assert k' != k ==> TidyAt(t, k');
    }
    forall k' | k' in v ensures TidyAt(v, k') {
      assert TidyAt(t, k');
    }
  }

  lemma TidyCompact(t: Tree, c: int)
    requires Tidy(t)
    ensures NonEmptyEntries(t) && Tidy(CompactTree(t, c))
  {
    TidyIsNonEmpty(t);
    var u := CompactTree(t, c);
    forall k | k in u ensures TidyAt(u, k) {
      assert TidyAt(t, k);
      LastAfterCompact(t[k].generations, c);
    }
  }

  /** Compaction then has nothing left of a key exactly when it is one blank generation. */
  lemma BlankKey(t: Tree, k: Key, c: int)
    requires Tidy(t) && k in t
    ensures TidyAt(t, k) && (IsEmpty(CompactGens(t[k].generations, c)) ==> CompactGens(t[k].generations, c) == [NO_GENERATION])
  {
    assert TidyAt(t, k);
    LastAfterCompact(t[k].generations, c);
  }

  predicate SameAt(t: Tree, u: Tree, k: Key) {
    (k in t <==> k in u) && (k in t ==> t[k] == u[k])
  }

  lemma SameTree(t: Tree, u: Tree)
    requires forall k {:trigger SameAt(t, u, k)} :: SameAt(t, u, k)
    ensures t == u
  {
    forall k ensures k in t <==> k in u {
      assert SameAt(t, u, k);
    }
    forall k | k in t ensures t[k] == u[k] {
      assert SameAt(t, u, k);
    }
  }

  /** Writes above the bound commute with the background compaction. */
  lemma PutSettles(t: Tree, k: Key, rev: Revision, c: int)
    requires Tidy(t) && rev.main > c
    ensures NonEmptyEntries(t) && NonEmptyEntries(PutTree(t, k, rev))
    ensures CompactTree(PutTree(t, k, rev), c) == PutTree(CompactTree(t, c), k, rev)
  {
    TidyIsNonEmpty(t);
    TidyWrite(t, k, rev);
    TidyIsNonEmpty(PutTree(t, k, rev));
    var u, v := CompactTree(PutTree(t, k, rev), c), PutTree(CompactTree(t, c), k, rev);
    forall j ensures SameAt(u, v, j) {
      if j == k {
        PutKeySettles(t, k, rev, c);
      }
    }
    SameTree(u, v);
  }

  lemma PutKeySettles(t: Tree, k: Key, rev: Revision, c: int)
    requires Tidy(t) && NonEmptyEntries(t) && rev.main > c
    ensures var gens, low := if k in t then t[k].generations else [], CompactTree(t, c);
            && CompactGens(PutGens(gens, rev), c) == PutGens(if k in low then low[k].generations else [], rev)
            && !IsEmpty(CompactGens(PutGens(gens, rev), c))
  {
    assert PutGens([NO_GENERATION], rev) == PutGens([], rev);
    if k in t {
      BlankKey(t, k, c);
      Laws.CompactAfterPut(t[k].generations, rev, c);
      PutIsNotEmpty(CompactGens(t[k].generations, c), rev);
    } else {
      Laws.CompactAfterPut([NO_GENERATION], rev, c);
      assert CompactGens([NO_GENERATION], c) == [NO_GENERATION];
      PutIsNotEmpty([NO_GENERATION], rev);
    }
  }

  lemma OtherKeySettles(t: Tree, u: Tree, c: int, j: Key)
    requires NonEmptyEntries(t) && NonEmptyEntries(u) && SameAt(t, u, j)
    ensures SameAt(CompactTree(t, c), CompactTree(u, c), j)
  {
  }

  lemma TombstoneSettles(t: Tree, k: Key, rev: Revision, c: int)
    requires Tidy(t) && rev.main > c
    ensures NonEmptyEntries(t) && NonEmptyEntries(TombstoneTree(t, k, rev))
    ensures CanTombstone(t, k) <==> CanTombstone(CompactTree(t, c), k)
    ensures CompactTree(TombstoneTree(t, k, rev), c) == TombstoneTree(CompactTree(t, c), k, rev)
  {
    TidyIsNonEmpty(t);
    TidyWrite(t, k, rev);
    TidyIsNonEmpty(TombstoneTree(t, k, rev));
    TombstoneKeySettles(t, k, rev, c);
    var u, v := CompactTree(TombstoneTree(t, k, rev), c), TombstoneTree(CompactTree(t, c), k, rev);
    forall j ensures SameAt(u, v, j) {
      if j != k {
        OtherKeySettles(t, TombstoneTree(t, k, rev), c, j);
      }
    }
    SameTree(u, v);
  }

  lemma TombstoneGensSettle(gens: seq<Generation>, rev: Revision, c: int)
    requires |gens| > 0 && rev.main > c
    ensures CompactGens(TombstoneGens(gens, rev), c) == TombstoneGens(CompactGens(gens, c), rev)
    ensures !IsEmpty(TombstoneGens(CompactGens(gens, c), rev))
  {
    Laws.CompactAfterTombstone(gens, rev, c);
    TombstoneIsNotEmpty(CompactGens(gens, c), rev);
  }

  lemma TombstoneKeySettles(t: Tree, k: Key, rev: Revision, c: int)
    requires Tidy(t) && NonEmptyEntries(t) && NonEmptyEntries(TombstoneTree(t, k, rev)) && rev.main > c
    ensures CanTombstone(t, k) <==> CanTombstone(CompactTree(t, c), k)
    ensures SameAt(CompactTree(TombstoneTree(t, k, rev), c), TombstoneTree(CompactTree(t, c), k, rev), k)
  {
    AcceptedAlike(t, k, c);
    if CanTombstone(t, k) {
      TombstoneGensSettle(t[k].generations, rev, c);
      assert TombstoneTree(t, k, rev)[k] == Entry(rev, TombstoneGens(t[k].generations, rev));
    }
  }

  lemma AcceptedAlike(t: Tree, k: Key, c: int)
    requires Tidy(t) && NonEmptyEntries(t)
    ensures CanTombstone(t, k) <==> CanTombstone(CompactTree(t, c), k)
    ensures CanTombstone(t, k) ==> CompactTree(t, c)[k].generations == CompactGens(t[k].generations, c)
  {
    if k in t {
      BlankKey(t, k, c);
      CompactKeepsLast(t[k].generations, c);
    }
  }

  /** Trees under one transaction: as far written, and alike once compacted. */
  ghost predicate WrittenAlike(x: Written, y: Written, c: int) {
    x.changes == y.changes && BecomeAlike(x.tree, y.tree, c)
  }

  lemma PutAlikeTrees(t: Tree, u: Tree, c: int, k: Key, rev: Revision)
    requires BecomeAlike(t, u, c) && rev.main > c
    ensures BecomeAlike(PutTree(t, k, rev), PutTree(u, k, rev), c)
  {
    TidyWrite(t, k, rev);
    TidyWrite(u, k, rev);
    PutSettles(t, k, rev, c);
    PutSettles(u, k, rev, c);
    PutGoesOn(Settled(t, c), Settled(u, c), k, rev);
  }

  lemma TombstoneAlikeTrees(t: Tree, u: Tree, c: int, k: Key, rev: Revision)
    requires BecomeAlike(t, u, c) && rev.main > c
    ensures BecomeAlike(TombstoneTree(t, k, rev), TombstoneTree(u, k, rev), c)
    ensures CanTombstone(t, k) <==> CanTombstone(u, k)
  {
    TidyWrite(t, k, rev);
    TidyWrite(u, k, rev);
    TombstoneSettles(t, k, rev, c);
    TombstoneSettles(u, k, rev, c);
    TombstoneGoesOn(Settled(t, c), Settled(u, c), k, rev);
  }

  lemma WriteAlike(x: Written, y: Written, c: int, main: int, w: Write)
    requires WrittenAlike(x, y, c) && main > c
    ensures WrittenAlike(WriteOn(x, main, w), WriteOn(y, main, w), c)
  {
    var rev := Revision(main, x.changes);
    if w.WPut? {
      PutAlikeTrees(x.tree, y.tree, c, w.key, rev);
    } else {
      TombstoneAlikeTrees(x.tree, y.tree, c, w.key, rev);
    }
  }

  lemma {:induction false} WritesAlike(t: Tree, u: Tree, c: int, main: int, ws: seq<Write>)
    requires WrittenAlike(Written(t, 0), Written(u, 0), c) && main > c
    ensures WrittenAlike(WriteAll(t, main, ws), WriteAll(u, main, ws), c)
  {
    if |ws| > 0 {
      WritesAlike(t, u, c, main, ws[..|ws| - 1]);
      WriteAlike(WriteAll(t, main, ws[..|ws| - 1]), WriteAll(u, main, ws[..|ws| - 1]), c, main, ws[|ws| - 1]);
    }
  }

  /** A compaction at a later bound hides an earlier one. */
  lemma CompactTreeTwice(t: Tree, a: int, c: int)
    requires Tidy(t) && a <= c
    ensures NonEmptyEntries(t) && NonEmptyEntries(CompactTree(t, a))
    ensures CompactTree(CompactTree(t, a), c) == CompactTree(t, c)
    ensures KeepTree(CompactTree(t, a), c) == KeepTree(t, c)
  {
    TidyCompact(t, a);
    TidyIsNonEmpty(CompactTree(t, a));
    var low := CompactTree(t, a);
    forall j ensures SameAt(CompactTree(low, c), CompactTree(t, c), j) {
      KeyTwice(t, a, c, j);
    }
    SameTree(CompactTree(low, c), CompactTree(t, c));
    forall r ensures r in KeepTree(low, c) <==> r in KeepTree(t, c) {
      KeptTwice(t, a, c, r);
    }
  }

  lemma KeyTwice(t: Tree, a: int, c: int, k: Key)
    requires Tidy(t) && NonEmptyEntries(t) && NonEmptyEntries(CompactTree(t, a)) && a <= c
    ensures SameAt(CompactTree(CompactTree(t, a), c), CompactTree(t, c), k)
    ensures k in t && k in CompactTree(t, a) ==> KeptRev(CompactTree(t, a)[k].generations, c) == KeptRev(t[k].generations, c)
    ensures k in t && k !in CompactTree(t, a) ==> KeptRev(t[k].generations, c) == {}
  {
    if k in t {
      BlankKey(t, k, a);
      Laws.CompactTwice(t[k].generations, a, c);
      assert CompactGens([NO_GENERATION], c) == [NO_GENERATION] && KeptRev([NO_GENERATION], c) == {};
    }
  }

  lemma KeptTwice(t: Tree, a: int, c: int, r: Revision)
    requires Tidy(t) && NonEmptyEntries(t) && NonEmptyEntries(CompactTree(t, a)) && a <= c
    ensures r in KeepTree(CompactTree(t, a), c) <==> r in KeepTree(t, c)
  {
    if r in KeepTree(CompactTree(t, a), c) {
      var k :| k in CompactTree(t, a) && r in KeptRev(CompactTree(t, a)[k].generations, c);
      KeyTwice(t, a, c, k);
    }
    if r in KeepTree(t, c) {
      var k :| k in t && r in KeptRev(t[k].generations, c);
      KeyTwice(t, a, c, k);
    }
  }

  datatype StoreOp = DoWrite(ws: seq<Write>) | DoCompact(rev: int)

  function StoreStep(s: StoreState, op: StoreOp): StoreState {
    match op
    case DoWrite(ws) => Commit(s, ws)
    case DoCompact(rev) => CompactStore(s, rev)
  }

  function StoreRun(s: StoreState, ops: seq<StoreOp>): StoreState {
    if |ops| == 0 then s else StoreStep(StoreRun(s, ops[..|ops| - 1]), ops[|ops| - 1])
  }

  lemma LikeSteps(x: StoreState, y: StoreState, op: StoreOp)
    requires Like(x, y)
    ensures Like(StoreStep(x, op), StoreStep(y, op))
  {
    match op
    case DoWrite(ws) => WritesAlike(x.tree, y.tree, x.compactMainRev, x.currentRev + 1, ws);
    case DoCompact(rev) =>
      if CompactError(x, rev) == NoError {
        LaterAlike(x.tree, y.tree, x.compactMainRev, rev);
      }
  }

  lemma LaterAlike(t: Tree, u: Tree, a: int, c: int)
    requires BecomeAlike(t, u, a) && a <= c
    ensures BecomeAlike(t, u, c)
  {
    CompactTreeTwice(t, a, c);
    CompactTreeTwice(u, a, c);
    CompactGoesOn(Settled(t, a), Settled(u, a), c);
  }

  /** From there on both stores go the same way, whatever is written and compacted: the
      revisions they give out, the compactions they refuse, the tombstones they accept. */
  lemma {:induction false} LikeGoesOn(x: StoreState, y: StoreState, ops: seq<StoreOp>)
    requires Like(x, y)
    ensures Like(StoreRun(x, ops), StoreRun(y, ops))
    ensures forall rev :: CompactError(StoreRun(x, ops), rev) == CompactError(StoreRun(y, ops), rev)
  {
    if |ops| > 0 {
      LikeGoesOn(x, y, ops[..|ops| - 1]);
      LikeSteps(StoreRun(x, ops[..|ops| - 1]), StoreRun(y, ops[..|ops| - 1]), ops[|ops| - 1]);
    }
  }

  /** A step of the background compaction is not seen. */
  lemma BackgroundIsUnseen(s: StoreState, c: int)
    requires Proper(s) && c <= s.compactMainRev
    ensures NonEmptyEntries(s.tree) && Proper(s.(tree := CompactTree(s.tree, c)))
    ensures Settled(CompactTree(s.tree, c), s.compactMainRev) == Settled(s.tree, s.compactMainRev)
  {
    TidyCompact(s.tree, c);
    CompactTreeTwice(s.tree, c, s.compactMainRev);
  }

  // ---------- Reads ----------

  lemma SettledReads(t: Tree, k: Key, c: int, atRev: int)
    requires Tidy(t) && c <= atRev
    ensures NonEmptyEntries(t) && GetTree(CompactTree(t, c), k, atRev) == GetTree(t, k, atRev)
  {
    TidyIsNonEmpty(t);
    if k in t {
      BlankKey(t, k, c);
      Laws.GetAfterCompact(t[k].generations, c, atRev);
    }
  }

  ghost predicate KeysOf(keys: seq<Key>, t: Tree) {
    Ascending(keys) && forall k :: k in keys <==> k in t
  }

  /** Above the bound two indexes that become alike already answer alike, and list the
      same keys. */
  lemma RangesAlike(t: Tree, u: Tree, c: int, keys: seq<Key>, others: seq<Key>, key: Key, end: RangeEnd, atRev: int)
    requires BecomeAlike(t, u, c) && c <= atRev && KeysOf(keys, t) && KeysOf(others, u)
    ensures VisibleRevs(t, RangedKeys(keys, key, end), atRev) == VisibleRevs(u, RangedKeys(others, key, end), atRev)
  {
    var ks, ls := RangedKeys(keys, key, end), RangedKeys(others, key, end);
    if end.End? {
      ScanIsAscending(keys, key, end.key);
      ScanIsAscending(others, key, end.key);
    }
    Reads.VisibleInOrder(t, ks, atRev);
    Reads.VisibleInOrder(u, ls, atRev);
    var a, b := VisibleKeys(t, ks, atRev), VisibleKeys(u, ls, atRev);
    forall k ensures k in a <==> k in b {
      Reads.VisibleMember(t, ks, atRev, k);
      Reads.VisibleMember(u, ls, atRev, k);
      OneAlike(t, u, c, k, atRev);
    }
    AscendingUnique(a, b);
    forall i | 0 <= i < |a| ensures VisibleRevs(t, ks, atRev)[i] == VisibleRevs(u, ls, atRev)[i] {
      Reads.VisibleAt(t, ks, atRev, i);
      Reads.VisibleAt(u, ls, atRev, i);
      OneAlike(t, u, c, a[i], atRev);
    }
  }

  lemma OneAlike(t: Tree, u: Tree, c: int, k: Key, atRev: int)
    requires BecomeAlike(t, u, c) && c <= atRev
    ensures SameAnswer(GetTree(t, k, atRev), GetTree(u, k, atRev))
  {
    SettledReads(t, k, c, atRev);
    SettledReads(u, k, c, atRev);
    AlikeTreeReads(Settled(t, c), Settled(u, c), k, atRev);
  }

  lemma AnswersAlike(x: StoreState, y: StoreState, c: int, keys: seq<Key>, others: seq<Key>, key: Key, end: RangeEnd, rev: int)
    requires x.currentRev == y.currentRev && c <= ReadAt(x, rev)
    requires ReadAt(x, rev) < x.compactMainRev <==> ReadAt(x, rev) < y.compactMainRev
    requires BecomeAlike(x.tree, y.tree, c) && KeysOf(keys, x.tree) && KeysOf(others, y.tree)
    ensures StoreRange(x, keys, key, end, rev) == StoreRange(y, others, key, end, rev)
  {
    RangesAlike(x.tree, y.tree, c, keys, others, key, end, ReadAt(x, rev));
  }

  /** Like stores give the same answer to every range read at every revision, errors
      included. */
  lemma LikeReads(x: StoreState, y: StoreState, keys: seq<Key>, others: seq<Key>, key: Key, end: RangeEnd, rev: int)
    requires Like(x, y) && KeysOf(keys, x.tree) && KeysOf(others, y.tree)
    ensures StoreRange(x, keys, key, end, rev) == StoreRange(y, others, key, end, rev)
  {
    if ReadAt(x, rev) >= x.compactMainRev {
      AnswersAlike(x, y, x.compactMainRev, keys, others, key, end, rev);
    }
  }
}
