/** What range reads and watch reads of the whole index mean in terms of the log. */
module TreeIndexReads {
  import opened Bytes
  import opened Revisions
  import opened KeyIndexSpec
  import opened KeyIndexes
  import opened TreeIndexSpec
  import opened TreeIndexes
  import Laws = KeyIndexLaws

  // ---------- Range ----------

  /** A range read lists, in key order, exactly the keys that exist at `atRev`,
      each with the revision its history gives. */
  lemma RangeMeans(s: State, ks: seq<Key>, atRev: int)
    requires Good(s) && Ascending(ks) && s.compacted <= atRev
    ensures forall k :: k in VisibleKeys(s.tree, ks, atRev) <==> k in ks && Lookup(HistoryOf(s.log, k), atRev).Found?
    ensures Ascending(VisibleKeys(s.tree, ks, atRev))
    ensures |VisibleRevs(s.tree, ks, atRev)| == |VisibleKeys(s.tree, ks, atRev)|
    ensures forall i :: 0 <= i < |VisibleKeys(s.tree, ks, atRev)| ==>
              var r := Lookup(HistoryOf(s.log, VisibleKeys(s.tree, ks, atRev)[i]), atRev);
              r.Found? && VisibleRevs(s.tree, ks, atRev)[i] == r.modified
  {
    var out, revs := VisibleKeys(s.tree, ks, atRev), VisibleRevs(s.tree, ks, atRev);
    VisibleInOrder(s.tree, ks, atRev);
    forall k ensures k in out <==> k in ks && Lookup(HistoryOf(s.log, k), atRev).Found? {
      VisibleMember(s.tree, ks, atRev, k);
      OneReadMeans(s, k, atRev);
    }
    forall i | 0 <= i < |out|
      ensures var r := Lookup(HistoryOf(s.log, out[i]), atRev); r.Found? && revs[i] == r.modified
    {
      VisibleAt(s.tree, ks, atRev, i);
      OneReadMeans(s, out[i], atRev);
    }
  }

  lemma {:induction false} VisibleMember(t: Tree, ks: seq<Key>, atRev: int, k: Key)
    ensures k in VisibleKeys(t, ks, atRev) <==> k in ks && GetTree(t, k, atRev).Found?
  {
    if |ks| > 0 {
      VisibleMember(t, ks[..|ks| - 1], atRev, k);
      assert ks == ks[..|ks| - 1] + [ks[|ks| - 1]];
    }
  }

  lemma {:induction false} VisibleInOrder(t: Tree, ks: seq<Key>, atRev: int)
    requires Ascending(ks)
    ensures Ascending(VisibleKeys(t, ks, atRev)) && |VisibleRevs(t, ks, atRev)| == |VisibleKeys(t, ks, atRev)|
  {
    if |ks| > 0 {
      var n := |ks| - 1;
      VisibleInOrder(t, ks[..n], atRev);
      var before := VisibleKeys(t, ks[..n], atRev);
      forall i | 0 <= i < |before| ensures Less(before[i], ks[n]) {
        VisibleMember(t, ks[..n], atRev, before[i]);
      }
    }
  }

  lemma {:induction false} VisibleAt(t: Tree, ks: seq<Key>, atRev: int, i: nat)
    requires i < |VisibleKeys(t, ks, atRev)| == |VisibleRevs(t, ks, atRev)|
    ensures var r := GetTree(t, VisibleKeys(t, ks, atRev)[i], atRev); r.Found? && VisibleRevs(t, ks, atRev)[i] == r.modified
  {
    if |ks| > 0 && i < |VisibleKeys(t, ks[..|ks| - 1], atRev)| {
      VisibleAt(t, ks[..|ks| - 1], atRev, i);
    }
  }

  lemma OneReadMeans(s: State, k: Key, atRev: int)
    requires Good(s) && s.compacted <= atRev
    ensures GetTree(s.tree, k, atRev) == Lookup(HistoryOf(s.log, k), atRev)
  {
    var h := HistoryOf(s.log, k);
    assert KeyAgrees(s.tree, k, h, s.compacted) && ValidHistory(h);
    KeyReads(s.tree, k, h, s.compacted, atRev);
  }

  // ---------- Watch reads ----------

  /** One key's share: above the last compaction nothing is lost. */
  lemma SinceKeyMeans(s: State, k: Key, rev: int)
    requires Good(s) && s.compacted < rev
    ensures SinceKey(s.tree, k, rev) == CollapsedSince(RevsOf(HistoryOf(s.log, k)), rev)
    ensures forall r :: r in SinceKey(s.tree, k, rev) <==> Laws.NewestOfTxn(RevsOf(HistoryOf(s.log, k)), rev, r)
  {
    var h := HistoryOf(s.log, k);
    assert KeyAgrees(s.tree, k, h, s.compacted) && ValidHistory(h);
    Laws.BuildIsValid(h);
    Laws.SinceAfterCompact(Build(h), ZERO, s.compacted, rev);
    Laws.CollapsedSinceMeans(RevsOf(h), rev);
  }

  lemma {:induction false} SinceKeysMember(t: Tree, ks: seq<Key>, rev: int, r: Revision)
    ensures r in SinceKeys(t, ks, rev) <==> exists k :: k in ks && r in SinceKey(t, k, rev)
  {
    if |ks| > 0 {
      SinceKeysMember(t, ks[..|ks| - 1], rev, r);
      assert forall k :: k in ks <==> k in ks[..|ks| - 1] || k == ks[|ks| - 1];
    }
  }

  lemma DistinctKeysDistinctRevs(log: Log, k: Key, k': Key, r: Revision)
    requires ValidLog(log) && k != k' && r in RevsOf(HistoryOf(log, k))
    ensures r !in RevsOf(HistoryOf(log, k'))
  {
    var h, h' := HistoryOf(log, k), HistoryOf(log, k');
    var i :| 0 <= i < |h| && RevsOf(h)[i] == r;
    assert h[i] in h;
    var a :| 0 <= a < |log| && log[a] == Change(k, h[i]);
    forall j | 0 <= j < |h'| ensures RevsOf(h')[j] != r {
      assert h'[j] in h';
      var b :| 0 <= b < |log| && log[b] == Change(k', h'[j]);
      if a < b { assert log[b].event.rev.GreaterThan(log[a].event.rev); }
      if b < a { assert log[a].event.rev.GreaterThan(log[b].event.rev); }
    }
  }

  predicate NoDuplicates(revs: seq<Revision>) {
    forall i, j :: 0 <= i < j < |revs| ==> revs[i] != revs[j]
  }

  lemma NotShared(s: State, ks: seq<Key>, k0: Key, rev: int, r: Revision)
    requires Good(s) && s.compacted < rev && k0 !in ks && r in SinceKeys(s.tree, ks, rev)
    ensures r !in SinceKey(s.tree, k0, rev)
  {
    SinceKeysMember(s.tree, ks, rev, r);
    var k :| k in ks && r in SinceKey(s.tree, k, rev);
    SinceKeyMeans(s, k, rev);
    SinceKeyMeans(s, k0, rev);
    DistinctKeysDistinctRevs(s.log, k, k0, r);
  }

  lemma SinceKeyDistinct(s: State, k: Key, rev: int)
    requires Good(s) && s.compacted < rev
    ensures NoDuplicates(SinceKey(s.tree, k, rev))
  {
    assert ValidHistory(HistoryOf(s.log, k));
    SinceKeyMeans(s, k, rev);
    Laws.CollapsedSinceMeans(RevsOf(HistoryOf(s.log, k)), rev);
  }

  lemma {:induction false} SinceKeysDistinct(s: State, ks: seq<Key>, rev: int)
    requires Good(s) && DistinctKeySeq(ks) && s.compacted < rev
    ensures NoDuplicates(SinceKeys(s.tree, ks, rev))
  {
    if |ks| > 0 {
      var n := |ks| - 1;
      var before, here := SinceKeys(s.tree, ks[..n], rev), SinceKey(s.tree, ks[n], rev);
      SinceKeysDistinct(s, ks[..n], rev);
      SinceKeyDistinct(s, ks[n], rev);
      forall i, j | 0 <= i < |before| && 0 <= j < |here| ensures before[i] != here[j] {
        assert before[i] in before && here[j] in here;
        NotShared(s, ks[..n], ks[n], rev, before[i]);
      }
    }
  }

  /** RangeSince, as its contract fixes it (sorted, and the same multiset as the
      concatenated shares): every change at or after `rev` in the scanned keys that
      is the newest of its transaction for its key, once, in revision order. */
  lemma RangeSinceMeans(s: State, ks: seq<Key>, rev: int, out: seq<Revision>)
    requires Good(s) && Ascending(ks) && s.compacted < rev
    requires SortedRevs(out) && multiset(out) == multiset(SinceKeys(s.tree, ks, rev))
    ensures Increasing(out)
    ensures forall r :: r in out <==> exists k :: k in ks && Laws.NewestOfTxn(RevsOf(HistoryOf(s.log, k)), rev, r)
  {
    var all := SinceKeys(s.tree, ks, rev);
    DistinctKeys(ks);
    SinceKeysDistinct(s, ks, rev);
    SortedDistinct(out, all);
    forall r ensures r in out <==> exists k :: k in ks && Laws.NewestOfTxn(RevsOf(HistoryOf(s.log, k)), rev, r) {
      assert r in out <==> r in multiset(out);
      assert r in all <==> r in multiset(all);
      SinceKeysMember(s.tree, ks, rev, r);
      forall k | k in ks ensures r in SinceKey(s.tree, k, rev) <==> Laws.NewestOfTxn(RevsOf(HistoryOf(s.log, k)), rev, r) {
        SinceKeyMeans(s, k, rev);
      }
    }
  }

  lemma {:induction false} AtMostOnce(revs: seq<Revision>, r: Revision)
    requires NoDuplicates(revs)
    ensures multiset(revs)[r] <= 1
  {
    if |revs| > 0 {
      var n := |revs| - 1;
      AtMostOnce(revs[..n], r);
      assert revs == revs[..n] + [revs[n]];
    }
  }

  lemma Twice(revs: seq<Revision>, i: nat, j: nat)
    requires i < j < |revs| && revs[i] == revs[j]
    ensures multiset(revs)[revs[i]] >= 2
  {
    assert revs == revs[..i] + [revs[i]] + revs[i + 1..j] + [revs[j]] + revs[j + 1..];
  }

  lemma SortedDistinct(out: seq<Revision>, all: seq<Revision>)
    requires SortedRevs(out) && NoDuplicates(all) && multiset(out) == multiset(all)
    ensures Increasing(out)
  {
    forall i, j | 0 <= i < j < |out| ensures out[j].GreaterThan(out[i]) {
      AtMostOnce(all, out[i]);
      if out[i] == out[j] {
        Twice(out, i, j);
      }
    }
  }

  // ---------- Shape of every reachable index ----------

  /** In every reachable index each generation but the last of each key keeps at
      least two revisions, and no empty key stays in the tree. */
  lemma ReachableShape(ops: seq<Op>, k: Key, i: nat)
    requires Allowed(INITIAL, ops) && k in Run(INITIAL, ops).tree
    requires i < |Run(INITIAL, ops).tree[k].generations|
    ensures var gens := Run(INITIAL, ops).tree[k].generations;
            (i < |gens| - 1 ==> |gens[i].revs| >= 2) && !IsEmpty(gens)
  {
    InitialIsGood();
    RunIsGood(INITIAL, ops);
    var s := Run(INITIAL, ops);
    EntryIsValid(s, k);
    if i < |s.tree[k].generations| - 1 {
      ClosedGeneration(s.tree[k].generations, ZERO, i);
    }
  }
}
