/** The index rebuilt from whatever records the backend holds, perhaps in the middle of a
    sweep. Compacted again, it is the index as it was, but for the sub-revision of a
    creation, which no record keeps. */
module Restart {
  import opened Bytes
  import opened Revisions
  import opened KeyIndexSpec
  import opened TreeIndexSpec
  import opened TreeIndexes
  import Laws = KeyIndexLaws
  import Reads = TreeIndexReads

  /** A backend record: the event and, for a put, the creation revision and the version
      that were stored with the value. */
  datatype Record = Record(event: Event, create: int, version: int)

  /** The record written for event `j`. */
  function RecordOf(h: History, j: nat): Record
    requires j < |h|
  {
    if h[j].Put? then Record(h[j], CreatedBy(h[..j + 1]).main, VersionOf(h[..j + 1])) else Record(h[j], 0, 0)
  }

  // ---------- One key ----------

  /** The key's entry while the records are read. */
  datatype Slot = Absent | Present(gens: seq<Generation>)

  function RestoreOne(slot: Slot, rec: Record): Slot {
    match rec.event
    case Put(rev) =>
      if slot.Absent? then Present([Generation(rec.version, Revision(rec.create, 0), [rev])])
      else Present(PutGens(slot.gens, rev))
    case Tombstone(rev) =>
      if slot.Absent? || |slot.gens| == 0 || LastIsEmpty(slot.gens) then slot else Present(TombstoneGens(slot.gens, rev))
  }

  /** The entry after those of the first `n` records that are in the backend. */
  function Restored(h: History, held: set<Revision>, n: nat): Slot
    requires n <= |h|
  {
    if n == 0 then Absent
    else
      var before := Restored(h, held, n - 1);
      if h[n - 1].rev in held then RestoreOne(before, RecordOf(h, n - 1)) else before
  }

  /** The events above `c` are those from place `low` on. */
  ghost predicate HighFrom(h: History, c: int, low: nat) {
    low <= |h| && forall j {:trigger h[j]} :: 0 <= j < |h| ==> (h[j].rev.main > c <==> j >= low)
  }

  /** What a stopped or finished sweep leaves of a key: everything from some event on,
      everything above `c`, and the record a compaction at `c` keeps. */
  ghost predicate Cut(h: History, held: set<Revision>, c: int, i: nat) {
    forall j {:trigger CutAt(h, held, c, i, j)} :: 0 <= j < |h| ==> CutAt(h, held, c, i, j)
  }

  ghost predicate CutAt(h: History, held: set<Revision>, c: int, i: nat, j: nat)
    requires j < |h|
  {
    && (h[j].rev.main > c ==> j >= i)
    && (h[j].rev in held <==> j >= i || h[j].rev in KeptRev(Build(h), c))
  }

  /** The same generations, but perhaps for the sub-revision of a creation. */
  predicate Alike(a: seq<Generation>, b: seq<Generation>) {
    |a| == |b| && forall i :: 0 <= i < |a| ==> SameLife(a[i], b[i])
  }

  predicate SameLife(a: Generation, b: Generation) {
    a.ver == b.ver && a.revs == b.revs && a.created.main == b.created.main
  }

  /** The entry, once compacted at `c`, is like `gens`; no entry is like an empty one. */
  predicate SlotAlike(slot: Slot, gens: seq<Generation>, c: int) {
    if slot.Absent? then gens == [NO_GENERATION] else |slot.gens| > 0 && Alike(CompactGens(slot.gens, c), gens)
  }

  lemma PutAlike(a: seq<Generation>, b: seq<Generation>, rev: Revision)
    requires |a| > 0 && Alike(a, b)
    ensures Alike(PutGens(a, rev), PutGens(b, rev)) && Alike(TombstoneGens(a, rev), TombstoneGens(b, rev))
  {
    var n := |a| - 1;
    assert SameLife(a[n], b[n]);
    assert SameLife(Extend(a[n], rev), Extend(b[n], rev));
    var p, q := PutGens(a, rev), PutGens(b, rev);
    forall i | 0 <= i <= n ensures SameLife(p[i], q[i]) {
      assert SameLife(a[i], b[i]);
    }
    assert SameLife(NO_GENERATION, NO_GENERATION);
  }

  /** All but the last generation ended by `c`; the last is the current life of `p`. */
  ghost predicate AllLow(gens: seq<Generation>, p: History, c: int) {
    && |gens| > 0
    && (forall j :: 0 <= j < |gens| - 1 ==> EndedBy(gens[j], c))
    && var g := gens[|gens| - 1];
       if Live(p) then
         && |g.revs| > 0 && g.revs[|g.revs| - 1] == p[|p| - 1].rev && p[|p| - 1].rev.main <= c
         && g.ver == VersionOf(p) && g.created.main == CreatedBy(p).main
       else g == NO_GENERATION
  }

  /** Compacted, only the newest revision of a live key is left. */
  lemma {:induction false} CompactLow(gens: seq<Generation>, p: History, c: int)
    requires AllLow(gens, p, c)
    ensures var g := gens[|gens| - 1];
            CompactGens(gens, c) == [if Live(p) then g.(revs := [p[|p| - 1].rev]) else NO_GENERATION]
    ensures KeptRev(gens, c) == if Live(p) then {p[|p| - 1].rev} else {}
    decreases |gens|
  {
    if |gens| > 1 {
      CompactTail(gens, c);
      CompactLow(gens[1..], p, c);
    } else {
      CompactHead(gens, c);
      var g := gens[0];
      if Live(p) {
        WalkIsUnique(g.revs, c, |g.revs| - 1);
        assert g.revs[|g.revs| - 1..] == [p[|p| - 1].rev];
      }
    }
  }

  /** A put or tombstone at or below `c` keeps the entry low. */
  lemma LowNext(gens: seq<Generation>, h: History, n: nat, c: int)
    requires ValidHistory(h) && n < |h| && h[n].rev.main <= c && AllLow(gens, h[..n], c)
    ensures h[n].Put? ==> AllLow(PutGens(gens, h[n].rev), h[..n + 1], c)
    ensures h[n].Tombstone? ==> !LastIsEmpty(gens) && AllLow(TombstoneGens(gens, h[n].rev), h[..n + 1], c)
  {
    assert h[..n + 1][..n] == h[..n] && DeletesLive(h, n);
    var g := Extend(gens[|gens| - 1], h[n].rev);
    assert g.revs[|g.revs| - 1] == h[n].rev;
    if h[n].Put? {
      assert PutGens(gens, h[n].rev)[|gens| - 1] == g;
    } else {
      var after := TombstoneGens(gens, h[n].rev);
      assert after[|gens| - 1] == g && |after| == |gens| + 1;
    }
  }

  /** The index that the first `n` events build. */
  function BuildTo(h: History, n: nat): (gens: seq<Generation>)
    requires n <= |h|
    ensures |gens| > 0
  {
    if n == 0 then [NO_GENERATION]
    else if h[n - 1].Put? then PutGens(BuildTo(h, n - 1), h[n - 1].rev)
    else TombstoneGens(BuildTo(h, n - 1), h[n - 1].rev)
  }

  lemma {:induction false} BuildToIs(h: History, n: nat)
    requires n <= |h|
    ensures BuildTo(h, n) == Build(h[..n])
  {
    if n > 0 {
      BuildToIs(h, n - 1);
      BuildNext(h, n);
    }
  }

  /** The index that a history at or below `c` builds is low. */
  lemma {:induction false} BuildIsLow(h: History, c: int, n: nat)
    requires ValidHistory(h) && n <= |h| && forall j :: 0 <= j < n ==> h[j].rev.main <= c
    ensures AllLow(Build(h[..n]), h[..n], c)
  {
    if n > 0 {
      BuildIsLow(h, c, n - 1);
      BuildNext(h, n);
      LowNext(Build(h[..n - 1]), h, n - 1, c);
    }
  }

  lemma BuildNext(h: History, n: nat)
    requires 0 < n <= |h|
    ensures var gens, rev := Build(h[..n - 1]), h[n - 1].rev;
            Build(h[..n]) == if h[n - 1].Put? then PutGens(gens, rev) else TombstoneGens(gens, rev)
  {
    assert h[..n][..n - 1] == h[..n - 1] && h[..n][n - 1] == h[n - 1];
  }

  /** Reading the records at or below `c`: an entry, if there is one yet, is low; there
      is none only if the key is dead or its last put was swept. */
  lemma {:induction false} RestoredIsLow(h: History, held: set<Revision>, c: int, i: nat, n: nat, kept: set<Revision>)
    requires ValidHistory(h) && n <= |h| && forall j :: 0 <= j < n ==> h[j].rev.main <= c
    requires forall j :: 0 <= j < n ==> (h[j].rev in held <==> j >= i || h[j].rev in kept)
    requires forall j :: 0 <= j < n - 1 ==> h[j].rev !in kept
    ensures var s := Restored(h, held, n);
            && (s.Present? ==> AllLow(s.gens, h[..n], c))
            && (s.Absent? ==> !Live(h[..n]) || h[n - 1].rev !in held)
            && ((forall j :: 0 <= j < n ==> h[j].rev !in held) ==> s.Absent?)
    decreases n
  {
    if n > 0 {
      RestoredIsLow(h, held, c, i, n - 1, kept);
      var before := Restored(h, held, n - 1);
      assert h[..n][..n - 1] == h[..n - 1];
      if h[n - 1].rev in held {
        RestoreOneIsLow(h, before, c, n);
      } else {
        assert forall j :: 0 <= j < n - 1 ==> h[j].rev !in held;
      }
    }
  }

  lemma RestoreOneIsLow(h: History, before: Slot, c: int, n: nat)
    requires ValidHistory(h) && 0 < n <= |h| && h[n - 1].rev.main <= c
    requires before.Present? ==> AllLow(before.gens, h[..n - 1], c)
    ensures var s := RestoreOne(before, RecordOf(h, n - 1));
            && (s.Present? ==> AllLow(s.gens, h[..n], c))
            && (s.Absent? ==> !Live(h[..n]) && before.Absent?)
  {
    assert h[..n][..n - 1] == h[..n - 1] && h[..n][n - 1] == h[n - 1];
    if before.Present? {
      LowNext(before.gens, h, n - 1, c);
    } else if h[n - 1].Put? {
      assert RestoreOne(before, RecordOf(h, n - 1)).gens[0].revs == [h[n - 1].rev];
    }
  }

  /** Events above `c` leave what a compaction at `c` keeps. */
  lemma {:induction false} HighKeeps(h: History, c: int, low: nat, n: nat)
    requires low <= n <= |h| && forall j :: low <= j < n ==> h[j].rev.main > c
    ensures KeptRev(Build(h[..n]), c) == KeptRev(Build(h[..low]), c)
    decreases n
  {
    if low < n {
      HighKeeps(h, c, low, n - 1);
      assert h[..n][..n - 1] == h[..n - 1];
      Laws.CompactAfterPut(Build(h[..n - 1]), h[n - 1].rev, c);
      Laws.CompactAfterTombstone(Build(h[..n - 1]), h[n - 1].rev, c);
    }
  }

  /** What is kept is the newest event at or below `c`, so that the sweep left of the events
      before it only those from place `i` on. */
  lemma LowHeld(h: History, held: set<Revision>, c: int, i: nat, low: nat, kept: set<Revision>)
    requires ValidHistory(h) && HighFrom(h, c, low) && Cut(h, held, c, i) && AllLow(Build(h[..low]), h[..low], c)
    requires kept == KeptRev(Build(h[..low]), c)
    ensures forall j :: 0 <= j < low ==> (h[j].rev in held <==> j >= i || h[j].rev in kept)
    ensures forall j :: 0 <= j < low - 1 ==> h[j].rev !in kept
  {
    HighKeeps(h, c, low, |h|);
    assert h[..|h|] == h;
    CompactLow(Build(h[..low]), h[..low], c);
    forall j | 0 <= j < low ensures h[j].rev in held <==> j >= i || h[j].rev in kept {
      assert CutAt(h, held, c, i, j);
    }
    forall j | 0 <= j < low - 1 ensures h[j].rev !in kept {
      assert RevsOf(h)[low - 1].GreaterThan(RevsOf(h)[j]);
    }
  }

  /** Before the events above `c`, the compacted entry is the one that was there. */
  lemma LowAlike(h: History, held: set<Revision>, c: int, i: nat, low: nat)
    requires ValidHistory(h) && HighFrom(h, c, low) && Cut(h, held, c, i)
    ensures SlotAlike(Restored(h, held, low), CompactGens(BuildTo(h, low), c), c)
  {
    BuildToIs(h, low);
    BuildIsLow(h, c, low);
    var kept := KeptRev(Build(h[..low]), c);
    LowHeld(h, held, c, i, low, kept);
    RestoredIsLow(h, held, c, i, low, kept);
    CompactLow(Build(h[..low]), h[..low], c);
    LowSlot(Restored(h, held, low), Build(h[..low]), h[..low], c);
  }

  /** Two low entries of the same events become alike. */
  lemma LowSlot(slot: Slot, gens: seq<Generation>, p: History, c: int)
    requires AllLow(gens, p, c) && if slot.Present? then AllLow(slot.gens, p, c) else !Live(p)
    ensures SlotAlike(slot, CompactGens(gens, c), c)
  {
    CompactLow(gens, p, c);
    if slot.Present? {
      CompactLow(slot.gens, p, c);
      assert SameLife(CompactGens(slot.gens, c)[0], CompactGens(gens, c)[0]);
    }
  }

  lemma CompactKeepsLast(gens: seq<Generation>, c: int)
    requires |gens| > 0
    ensures LastIsEmpty(CompactGens(gens, c)) <==> LastIsEmpty(gens)
  {
    var i := GenerationAt(gens, c);
    assert Trim(gens[i], c).IsEmpty() <==> gens[i].IsEmpty();
  }

  /** One event above `c`, read from its record. */
  lemma HighNext(h: History, slot: Slot, c: int, n: nat)
    requires ValidHistory(h) && n < |h| && h[n].rev.main > c && SlotAlike(slot, CompactGens(BuildTo(h, n), c), c)
    ensures SlotAlike(RestoreOne(slot, RecordOf(h, n)), CompactGens(BuildTo(h, n + 1), c), c)
  {
    BuildToIs(h, n);
    var p, gens, rev := h[..n], Build(h[..n]), h[n].rev;
    assert h[..n + 1][..n] == p && DeletesLive(h, n);
    Laws.BuildLastGeneration(p);
    CompactKeepsLast(gens, c);
    Laws.CompactAfterPut(gens, rev, c);
    Laws.CompactAfterTombstone(gens, rev, c);
    if slot.Present? {
      PresentNext(slot.gens, CompactGens(gens, c), rev, c);
    } else if h[n].Put? {
      FirstPutAlike(h, c, n);
    }
  }

  lemma PresentNext(a: seq<Generation>, b: seq<Generation>, rev: Revision, c: int)
    requires |a| > 0 && rev.main > c && Alike(CompactGens(a, c), b)
    ensures |b| > 0 && (LastIsEmpty(a) <==> LastIsEmpty(b))
    ensures Alike(CompactGens(PutGens(a, rev), c), PutGens(b, rev))
    ensures Alike(CompactGens(TombstoneGens(a, rev), c), TombstoneGens(b, rev))
  {
    CompactKeepsLast(a, c);
    assert SameLife(CompactGens(a, c)[|b| - 1], b[|b| - 1]);
    Laws.CompactAfterPut(a, rev, c);
    Laws.CompactAfterTombstone(a, rev, c);
    PutAlike(CompactGens(a, c), b, rev);
  }

  /** The first record of a key that was not there. */
  lemma FirstPutAlike(h: History, c: int, n: nat)
    requires ValidHistory(h) && n < |h| && h[n].Put? && h[n].rev.main > c
    requires CompactGens(Build(h[..n]), c) == [NO_GENERATION]
    ensures SlotAlike(RestoreOne(Absent, RecordOf(h, n)), PutGens([NO_GENERATION], h[n].rev), c)
  {
    assert h[..n + 1][..n] == h[..n];
    Laws.BuildLastGeneration(h[..n]);
    CompactKeepsLast(Build(h[..n]), c);
    assert LastIsEmpty([NO_GENERATION]) && !Live(h[..n]);
    var p := h[..n + 1];
    assert Live(p) && p[|p| - 1] == h[n] && p[..|p| - 1] == h[..n];
    assert !Live(p[..|p| - 1]);
    assert VersionOf(p) == 1;
    assert CreatedBy(p) == p[|p| - 1].rev;
    var gens := RestoreOne(Absent, RecordOf(h, n)).gens;
    CompactHead(gens, c);
    assert Extend(NO_GENERATION, h[n].rev) == Generation(1, h[n].rev, [] + [h[n].rev]);
    assert [] + [h[n].rev] == [h[n].rev] && [NO_GENERATION][..0] == [];
    assert PutGens([NO_GENERATION], h[n].rev) == [Generation(1, h[n].rev, [h[n].rev])];
    assert SameLife(gens[0], PutGens([NO_GENERATION], h[n].rev)[0]);
  }

  /** Whatever a sweep had left, the key is rebuilt: compacted again, its entry is like
      the compacted entry of its full history. */
  lemma {:induction false} RestoredAlike(h: History, held: set<Revision>, c: int, i: nat, low: nat, n: nat)
    requires ValidHistory(h) && HighFrom(h, c, low) && low <= n <= |h| && Cut(h, held, c, i)
    ensures SlotAlike(Restored(h, held, n), CompactGens(BuildTo(h, n), c), c)
    decreases n
  {
    if n == low {
      LowAlike(h, held, c, i, low);
    } else {
      RestoredAlike(h, held, c, i, low, n - 1);
      assert CutAt(h, held, c, i, n - 1);
      HighNext(h, Restored(h, held, n - 1), c, n - 1);
    }
  }

  lemma {:induction false} LowCount(h: History, c: int, n: nat) returns (low: nat)
    requires ValidHistory(h) && n <= |h|
    ensures low <= n && forall j :: 0 <= j < n ==> (h[j].rev.main > c <==> j >= low)
  {
    if n == 0 || h[n - 1].rev.main <= c {
      low := n;
      forall j | 0 <= j < n ensures h[j].rev.main <= c {
        assert j == n - 1 || RevsOf(h)[n - 1].GreaterThan(RevsOf(h)[j]);
      }
    } else {
      low := LowCount(h, c, n - 1);
    }
  }

  lemma KeyRestored(h: History, held: set<Revision>, c: int, i: nat)
    requires ValidHistory(h) && Cut(h, held, c, i)
    ensures SlotAlike(Restored(h, held, |h|), CompactGens(Build(h), c), c)
  {
    var low := LowCount(h, c, |h|);
    RestoredAlike(h, held, c, i, low, |h|);
    BuildToIs(h, |h|);
    assert h[..|h|] == h;
  }

  // ---------- What readers see ----------

  /** The same answer, but perhaps for the sub-revision of the creation. */
  predicate SameAnswer(a: GetResult, b: GetResult) {
    if a.Found? then b.Found? && a.modified == b.modified && a.version == b.version && a.created.main == b.created.main
    else b.RevisionNotFound?
  }

  lemma {:induction false} AlikeReads(a: seq<Generation>, b: seq<Generation>, atRev: int)
    requires |a| > 0 && Alike(a, b)
    ensures SameAnswer(GetGens(a, atRev), GetGens(b, atRev))
    ensures KeptRev(a, atRev) == KeptRev(b, atRev)
    ensures IsEmpty(a) <==> IsEmpty(b)
    decreases |a|
  {
    assert SameLife(a[0], b[0]);
    if |a| > 1 && EndedBy(a[0], atRev) {
      TailAlike(a, b);
      AlikeReads(a[1..], b[1..], atRev);
      CompactTail(a, atRev);
      CompactTail(b, atRev);
    } else {
      CompactHead(a, atRev);
      CompactHead(b, atRev);
    }
  }

  // ---------- The whole index ----------

  function SlotOf(t: Tree, k: Key): Slot {
    if k in t then Present(t[k].generations) else Absent
  }

  /** One record read into the tree. */
  function RestoreKey(t: Tree, k: Key, rec: Record): Tree {
    match rec.event
    case Put(rev) => t[k := Entry(rev, RestoreOne(SlotOf(t, k), rec).gens)]
    case Tombstone(rev) => TombstoneTree(t, k, rev)
  }

  /** The tree after those of the first `n` records that are in the backend. */
  function RestoredTree(log: Log, held: set<Revision>, n: nat): Tree
    requires n <= |log|
  {
    if n == 0 then map[]
    else
      var before, h := RestoredTree(log, held, n - 1), HistoryOf(log[..n], log[n - 1].key);
      assert log[..n][n - 1] == Change(log[n - 1].key, log[n - 1].event) && log[n - 1].event in h;
      if log[n - 1].event.rev in held then RestoreKey(before, log[n - 1].key, RecordOf(h, |h| - 1)) else before
  }

  /** Each key's entry comes from its own records alone. */
  lemma {:induction false} RestoredSlot(log: Log, held: set<Revision>, n: nat, k: Key)
    requires n <= |log|
    ensures var h := HistoryOf(log[..n], k); SlotOf(RestoredTree(log, held, n), k) == Restored(h, held, |h|)
  {
    if n > 0 {
      RestoredSlot(log, held, n - 1, k);
      assert log[..n][..n - 1] == log[..n - 1];
      var before, h := HistoryOf(log[..n - 1], k), HistoryOf(log[..n], k);
      if log[n - 1].key == k {
        assert h == before + [log[n - 1].event];
        RestoredPrefix(before, h, held, |before|);
      }
    }
  }

  lemma {:induction false} RestoredHasGens(h: History, held: set<Revision>, n: nat)
    requires n <= |h|
    ensures Restored(h, held, n).Present? ==> |Restored(h, held, n).gens| > 0
  {
    if n > 0 {
      RestoredHasGens(h, held, n - 1);
    }
  }

  /** Later events do not change what earlier records restore. */
  lemma {:induction false} RestoredPrefix(p: History, h: History, held: set<Revision>, n: nat)
    requires n <= |p| && p <= h
    ensures Restored(p, held, n) == Restored(h, held, n)
  {
    if n > 0 {
      RestoredPrefix(p, h, held, n - 1);
      assert p[..n] == h[..n] && p[n - 1] == h[n - 1];
    }
  }

  // ---------- Reading the records ----------

  /** A record with its key, as the backend stores it under its revision. */
  datatype Stored = Stored(key: Key, rec: Record)

  /** The records in the backend, in the order of their revisions. */
  function StoredOf(log: Log, held: set<Revision>, n: nat): seq<Stored>
    requires n <= |log|
  {
    if n == 0 then []
    else
      var before, h := StoredOf(log, held, n - 1), HistoryOf(log[..n], log[n - 1].key);
      assert log[..n][n - 1] == Change(log[n - 1].key, log[n - 1].event) && log[n - 1].event in h;
      if log[n - 1].event.rev in held then before + [Stored(log[n - 1].key, RecordOf(h, |h| - 1))] else before
  }

  function ReadAll(stored: seq<Stored>): Tree {
    if |stored| == 0 then map[]
    else RestoreKey(ReadAll(stored[..|stored| - 1]), stored[|stored| - 1].key, stored[|stored| - 1].rec)
  }

  lemma {:induction false} ReadIsRestored(log: Log, held: set<Revision>, n: nat)
    requires n <= |log|
    ensures ReadAll(StoredOf(log, held, n)) == RestoredTree(log, held, n)
  {
    if n > 0 {
      ReadIsRestored(log, held, n - 1);
      var before := StoredOf(log, held, n - 1);
      assert forall x :: (before + [x])[..|before|] == before;
    }
  }

  /** The record can follow whatever lies below its revision. */
  predicate Readable(x: Stored) {
    var rev := x.rec.event.rev;
    rev.main > 0 && (x.rec.event.Put? ==> x.rec.create > 0 && !Revision(x.rec.create, 0).GreaterThan(rev))
  }

  predicate AscendingStored(stored: seq<Stored>) {
    forall i, j :: 0 <= i < j < |stored| ==> stored[j].rec.event.rev.GreaterThan(stored[i].rec.event.rev)
  }

  /** What a member that dies leaves behind can be read back: revisions ascend, and no
      record claims a creation above itself. */
  lemma {:induction false} StoredIsReadable(log: Log, held: set<Revision>, n: nat)
    requires ValidLog(log) && n <= |log| && forall ch :: ch in log ==> ch.event.rev.sub >= 0
    ensures var stored := StoredOf(log, held, n);
            && AscendingStored(stored) && (forall x :: x in stored ==> Readable(x))
            && (forall j :: 0 <= j < |stored| ==> exists i :: 0 <= i < n && log[i].event.rev == stored[j].rec.event.rev)
  {
    if n > 0 {
      StoredIsReadable(log, held, n - 1);
      NextIsReadable(log, n);
    }
  }

  /** The histories grow with the log. */
  lemma {:induction false} HistoryGrows(log: Log, more: Log, k: Key)
    ensures HistoryOf(log, k) <= HistoryOf(log + more, k)
  {
    if |more| == 0 {
      assert log + more == log;
    } else {
      var n := |more| - 1;
      HistoryGrows(log, more[..n], k);
      assert (log + more)[..|log + more| - 1] == log + more[..n];
    }
  }

  lemma NextIsReadable(log: Log, n: nat)
    requires ValidLog(log) && 0 < n <= |log| && forall ch :: ch in log ==> ch.event.rev.sub >= 0
    ensures var h := HistoryOf(log[..n], log[n - 1].key);
            && |h| > 0 && RecordOf(h, |h| - 1).event == log[n - 1].event
            && Readable(Stored(log[n - 1].key, RecordOf(h, |h| - 1)))
  {
    LastEvent(log, n);
    var k := log[n - 1].key;
    HistoryPrefix(log, n, k);
    assert log[n - 1] in log;
    RecordIsReadable(HistoryOf(log, k), HistoryOf(log[..n], k), k);
  }

  lemma HistoryPrefix(log: Log, n: nat, k: Key)
    requires ValidLog(log) && n <= |log|
    ensures HistoryOf(log[..n], k) <= HistoryOf(log, k) && ValidHistory(HistoryOf(log, k))
  {
    assert log == log[..n] + log[n..];
    HistoryGrows(log[..n], log[n..], k);
  }

  lemma LastEvent(log: Log, n: nat)
    requires 0 < n <= |log|
    ensures var h := HistoryOf(log[..n], log[n - 1].key); |h| > 0 && h[|h| - 1] == log[n - 1].event
  {
    assert log[..n][..n - 1] == log[..n - 1] && log[..n][n - 1] == log[n - 1];
  }

  lemma RecordIsReadable(whole: History, h: History, k: Key)
    requires ValidHistory(whole) && h <= whole && |h| > 0 && h[|h| - 1].rev.sub >= 0
    ensures RecordOf(h, |h| - 1).event == h[|h| - 1] && Readable(Stored(k, RecordOf(h, |h| - 1)))
  {
    assert h[..|h|] == h == whole[..|h|];
    if h[|h| - 1].Put? {
      CreatedNotAfter(whole, |h|);
    }
  }

  lemma {:induction false} CreatedNotAfter(h: History, n: nat)
    requires ValidHistory(h) && 0 < n <= |h| && h[n - 1].Put?
    ensures 0 < CreatedBy(h[..n]).main <= h[n - 1].rev.main
  {
    var p := h[..n];
    assert p[..n - 1] == h[..n - 1] && p[n - 1] == h[n - 1];
    if Live(p[..n - 1]) {
      CreatedNotAfter(h, n - 1);
      assert RevsOf(h)[n - 1].GreaterThan(RevsOf(h)[n - 2]);
    }
  }

  /** One record read into the tree of key index objects. */
  method RestoreRecord(ti: TreeIndex, x: Stored)
    requires ti.Valid() && Readable(x)
    requires x.key in ti.items ==> x.rec.event.rev.GreaterThan(ti.items[x.key].modified)
    modifies ti, ti.items.Values
    ensures ti.Valid() && ti.View() == RestoreKey(old(ti.View()), x.key, x.rec)
    ensures fresh(ti.items.Values - old(ti.items.Values))
  {
    var rev := x.rec.event.rev;
    if x.key in ti.items {
      if x.rec.event.Tombstone? {
        var _ := ti.Tombstone(x.key, rev);
      } else {
        ti.Put(x.key, rev);
      }
    } else if !x.rec.event.Tombstone? {
      ti.RestoreNew(x.key, Revision(x.rec.create, 0), rev, x.rec.version);
    }
  }

  lemma {:induction false} ModifiedIsRead(stored: seq<Stored>, k: Key)
    requires k in ReadAll(stored)
    ensures exists i :: 0 <= i < |stored| && ReadAll(stored)[k].modified == stored[i].rec.event.rev
  {
    var n := |stored| - 1;
    var before := ReadAll(stored[..n]);
    if k in before && ReadAll(stored)[k].modified == before[k].modified {
      ModifiedIsRead(stored[..n], k);
    } else {
      assert ReadAll(stored)[k].modified == stored[n].rec.event.rev;
    }
  }

  /** The main revision of the last record, 1 if there is none. */
  function LastMain(stored: seq<Stored>): int {
    if |stored| == 0 then 1 else stored[|stored| - 1].rec.event.rev.main
  }

  /** Read all records back into an empty index. */
  method RestoreIntoIndex(ti: TreeIndex, stored: seq<Stored>) returns (currentRev: int)
    requires ti.Valid() && ti.View() == map[] && AscendingStored(stored) && forall x :: x in stored ==> Readable(x)
    modifies ti, ti.items.Values
    ensures ti.Valid() && ti.View() == ReadAll(stored) && currentRev == LastMain(stored)
  {
    currentRev := 1;
    for i := 0 to |stored|
      invariant ti.Valid() && ti.View() == ReadAll(stored[..i]) && currentRev == LastMain(stored[..i])
      invariant fresh(ti.items.Values - old(ti.items.Values))
    {
      assert stored[..i + 1][..i] == stored[..i];
      if stored[i].key in ti.items {
        assert ti.View()[stored[i].key].modified == ti.items[stored[i].key].modified;
        ModifiedIsRead(stored[..i], stored[i].key);
      }
      currentRev := stored[i].rec.event.rev.main;
      RestoreRecord(ti, stored[i]);
    }
    assert stored[..|stored|] == stored;
  }

  ghost predicate TreesAlike(t: Tree, u: Tree) {
    forall k :: (k in t <==> k in u) && (k in t ==> |t[k].generations| > 0 && Alike(t[k].generations, u[k].generations))
  }

  /** The backend holds, of every key, what a stopped or finished sweep leaves. */
  ghost predicate HoldsCuts(log: Log, held: set<Revision>, c: int) {
    forall k :: CutSomewhere(HistoryOf(log, k), held, c)
  }

  ghost predicate CutSomewhere(h: History, held: set<Revision>, c: int) {
    exists i: nat :: Cut(h, held, c, i)
  }

  lemma RestoredEntry(e: State, held: set<Revision>, k: Key)
    requires Good(e) && HoldsCuts(e.log, held, e.compacted)
    ensures SlotAlike(SlotOf(RestoredTree(e.log, held, |e.log|), k), GensOf(e.tree, k), e.compacted)
    ensures k in RestoredTree(e.log, held, |e.log|) ==> |RestoredTree(e.log, held, |e.log|)[k].generations| > 0
  {
    var h := HistoryOf(e.log, k);
    assert e.log[..|e.log|] == e.log;
    assert KeyAgrees(e.tree, k, h, e.compacted) && ValidHistory(h) && CutSomewhere(h, held, e.compacted);
    var i: nat :| Cut(h, held, e.compacted, i);
    KeyRestored(h, held, e.compacted, i);
    RestoredSlot(e.log, held, |e.log|, k);
    RestoredHasGens(h, held, |h|);
  }

  /** Compacted again, the rebuilt index is the one from before the crash, but for the
      sub-revisions of creations. Its keep set is the same too. */
  lemma RestartRestores(e: State, held: set<Revision>)
    requires Good(e) && HoldsCuts(e.log, held, e.compacted)
    ensures var t := RestoredTree(e.log, held, |e.log|);
            && NonEmptyEntries(t) && NonEmptyEntries(e.tree)
            && TreesAlike(CompactTree(t, e.compacted), e.tree)
            && KeepTree(t, e.compacted) == KeepTree(e.tree, e.compacted)
  {
    var t, c := RestoredTree(e.log, held, |e.log|), e.compacted;
    forall k ensures k in t ==> |t[k].generations| > 0 {
      RestoredEntry(e, held, k);
    }
    forall k
      ensures var v := CompactTree(t, c);
              (k in v <==> k in e.tree) && (k in v ==> |v[k].generations| > 0 && Alike(v[k].generations, e.tree[k].generations))
    {
      EntryAlike(e, held, k);
    }
    forall r ensures r in KeepTree(t, c) <==> r in KeepTree(e.tree, c) {
      if r in KeepTree(t, c) {
        var k :| k in t && r in KeptRev(t[k].generations, c);
        KeptAlike(e, held, k);
      }
      if r in KeepTree(e.tree, c) {
        var k :| k in e.tree && r in KeptRev(e.tree[k].generations, c);
        KeptAlike(e, held, k);
      }
    }
  }

  lemma EntryAlike(e: State, held: set<Revision>, k: Key)
    requires Good(e) && HoldsCuts(e.log, held, e.compacted) && NonEmptyEntries(RestoredTree(e.log, held, |e.log|))
    ensures var v := CompactTree(RestoredTree(e.log, held, |e.log|), e.compacted);
            (k in v <==> k in e.tree) && (k in v ==> |v[k].generations| > 0 && Alike(v[k].generations, e.tree[k].generations))
  {
    var t, c := RestoredTree(e.log, held, |e.log|), e.compacted;
    RestoredEntry(e, held, k);
    assert KeyAgrees(e.tree, k, HistoryOf(e.log, k), c);
    if k in t {
      AlikeReads(CompactGens(t[k].generations, c), GensOf(e.tree, k), c);
    }
  }

  lemma KeptAlike(e: State, held: set<Revision>, k: Key)
    requires Good(e) && HoldsCuts(e.log, held, e.compacted)
    ensures var t := RestoredTree(e.log, held, |e.log|);
            && (k in t ==> |t[k].generations| > 0 && KeptRev(t[k].generations, e.compacted) == KeptRev(GensOf(e.tree, k), e.compacted))
            && (k !in t ==> KeptRev(GensOf(e.tree, k), e.compacted) == {})
            && (k !in e.tree ==> KeptRev(GensOf(e.tree, k), e.compacted) == {})
  {
    var t, c := RestoredTree(e.log, held, |e.log|), e.compacted;
    RestoredEntry(e, held, k);
    if k in t {
      Laws.CompactTwice(t[k].generations, c, c);
      AlikeReads(CompactGens(t[k].generations, c), GensOf(e.tree, k), c);
    }
  }

  lemma AlikeTreeReads(t: Tree, u: Tree, k: Key, atRev: int)
    requires TreesAlike(t, u)
    ensures SameAnswer(GetTree(t, k, atRev), GetTree(u, k, atRev))
  {
    if k in t {
      AlikeReads(t[k].generations, u[k].generations, atRev);
    }
  }

  lemma {:induction false} CompactAlike(a: seq<Generation>, b: seq<Generation>, c: int)
    requires |a| > 0 && Alike(a, b)
    ensures Alike(CompactGens(a, c), CompactGens(b, c))
    decreases |a|
  {
    assert SameLife(a[0], b[0]);
    if |a| > 1 && EndedBy(a[0], c) {
      TailAlike(a, b);
      CompactAlike(a[1..], b[1..], c);
      CompactTail(a, c);
      CompactTail(b, c);
    } else {
      CompactHead(a, c);
      CompactHead(b, c);
      HeadAlike(a, b, Trim(a[0], c), Trim(b[0], c));
    }
  }

  lemma TailAlike(a: seq<Generation>, b: seq<Generation>)
    requires |a| > 0 && Alike(a, b)
    ensures Alike(a[1..], b[1..])
  {
    forall i | 0 <= i < |a| - 1 ensures SameLife(a[1..][i], b[1..][i]) {
      assert SameLife(a[i + 1], b[i + 1]);
    }
  }

  lemma HeadAlike(a: seq<Generation>, b: seq<Generation>, x: Generation, y: Generation)
    requires |a| > 0 && Alike(a, b) && SameLife(x, y)
    ensures Alike([x] + a[1..], [y] + b[1..])
  {
    TailAlike(a, b);
    var p, q := [x] + a[1..], [y] + b[1..];
    forall i | 0 <= i < |p| ensures SameLife(p[i], q[i]) {
      assert i > 0 ==> SameLife(a[1..][i - 1], b[1..][i - 1]);
    }
  }

  lemma PutGoesOn(t: Tree, u: Tree, k: Key, rev: Revision)
    requires TreesAlike(t, u)
    ensures TreesAlike(PutTree(t, k, rev), PutTree(u, k, rev))
  {
    if k in t {
      PutAlike(t[k].generations, u[k].generations, rev);
    } else {
      assert forall i :: 0 <= i < |PutGens([], rev)| ==> SameLife(PutGens([], rev)[i], PutGens([], rev)[i]);
    }
  }

  lemma TombstoneGoesOn(t: Tree, u: Tree, k: Key, rev: Revision)
    requires TreesAlike(t, u)
    ensures (CanTombstone(t, k) <==> CanTombstone(u, k)) && TreesAlike(TombstoneTree(t, k, rev), TombstoneTree(u, k, rev))
  {
    if k in t {
      var n := |t[k].generations| - 1;
      assert SameLife(t[k].generations[n], u[k].generations[n]);
      PutAlike(t[k].generations, u[k].generations, rev);
    }
  }

  lemma CompactGoesOn(t: Tree, u: Tree, c: int)
    requires TreesAlike(t, u) && NonEmptyEntries(t) && NonEmptyEntries(u)
    ensures TreesAlike(CompactTree(t, c), CompactTree(u, c)) && KeepTree(t, c) == KeepTree(u, c)
  {
    forall k | k in t
      ensures Alike(CompactGens(t[k].generations, c), CompactGens(u[k].generations, c))
      ensures IsEmpty(CompactGens(t[k].generations, c)) <==> IsEmpty(CompactGens(u[k].generations, c))
      ensures KeptRev(t[k].generations, c) == KeptRev(u[k].generations, c)
    {
      CompactAlike(t[k].generations, u[k].generations, c);
      AlikeReads(CompactGens(t[k].generations, c), CompactGens(u[k].generations, c), c);
      AlikeReads(t[k].generations, u[k].generations, c);
    }
  }
}
