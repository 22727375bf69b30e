/** The revision index as the program keeps it: an ordered tree of key index
    objects, changed in place. Each method is proved against TreeIndexSpec. */
module TreeIndexes {
  import opened Bytes
  import opened Revisions
  import opened KeyIndexSpec
  import opened KeyIndexes
  import opened TreeIndexSpec
  import Laws = KeyIndexLaws

  /** The live keys among `ks` at `atRev` and their revisions, in the order of `ks`. */
  function VisibleKeys(t: Tree, ks: seq<Key>, atRev: int): seq<Key> {
    if |ks| == 0 then []
    else
      var before := VisibleKeys(t, ks[..|ks| - 1], atRev);
      if GetTree(t, ks[|ks| - 1], atRev).Found? then before + [ks[|ks| - 1]] else before
  }

  function VisibleRevs(t: Tree, ks: seq<Key>, atRev: int): seq<Revision> {
    if |ks| == 0 then []
    else
      var before := VisibleRevs(t, ks[..|ks| - 1], atRev);
      var r := GetTree(t, ks[|ks| - 1], atRev);
      if r.Found? then before + [r.modified] else before
  }

  function SinceKey(t: Tree, k: Key, rev: int): seq<Revision> {
    CollapsedSince(AllRevs(GensOf(t, k)), rev)
  }

  function SinceKeys(t: Tree, ks: seq<Key>, rev: int): seq<Revision> {
    if |ks| == 0 then []
    else SinceKeys(t, ks[..|ks| - 1], rev) + SinceKey(t, ks[|ks| - 1], rev)
  }

  predicate SortedRevs(revs: seq<Revision>) {
    forall i, j :: 0 <= i < j < |revs| ==> !revs[i].GreaterThan(revs[j])
  }

  lemma TombstoneIsNotEmpty(gens: seq<Generation>, rev: Revision)
    ensures |TombstoneGens(gens, rev)| > 1
  {
  }

  /** sort.Sort on revisions. */
  method SortRevisions(revs: seq<Revision>) returns (out: seq<Revision>)
    ensures SortedRevs(out) && multiset(out) == multiset(revs)
  {
    out := [];
    for n := 0 to |revs|
      invariant SortedRevs(out) && multiset(out) == multiset(revs[..n])
    {
      assert revs[..n + 1] == revs[..n] + [revs[n]];
      var i: nat := |out|;
      while i > 0 && out[i - 1].GreaterThan(revs[n])
        invariant i <= |out|
        invariant forall j :: i <= j < |out| ==> out[j].GreaterThan(revs[n])
      {
        i := i - 1;
      }
      InsertedRev(out, revs[n], i);
      assert out == out[..i] + out[i..];
      out := out[..i] + [revs[n]] + out[i..];
    }
    assert revs[..|revs|] == revs;
  }

  lemma InsertedRev(out: seq<Revision>, rev: Revision, i: nat)
    requires SortedRevs(out) && i <= |out| && (i > 0 ==> !out[i - 1].GreaterThan(rev))
    requires forall j :: i <= j < |out| ==> out[j].GreaterThan(rev)
    ensures SortedRevs(out[..i] + [rev] + out[i..])
  {
    forall j | 0 <= j < i ensures !out[j].GreaterThan(rev) {
      assert j == i - 1 || !out[j].GreaterThan(out[i - 1]);
    }
  }

  /** An object fit to stand in the tree under key `k`. */
  ghost predicate Stored(ki: KeyIndex, k: Key)
    reads ki
  {
    ki.key == k && ki.Valid() && |ki.generations| > 0 && !ki.IsEmpty()
  }

  function EntryOf(ki: KeyIndex): Entry
    reads ki
  {
    Entry(ki.modified, ki.generations)
  }

  /** Compact the keys of `ks` one after the other. */
  ghost function CompactKeys(t: Tree, ks: seq<Key>, rev: int): (t': Tree)
    requires NonEmptyEntries(t)
    ensures NonEmptyEntries(t')
  {
    if |ks| == 0 then t else CompactKey(CompactKeys(t, ks[..|ks| - 1], rev), ks[|ks| - 1], rev)
  }

  ghost function KeptKeys(t: Tree, ks: seq<Key>, rev: int): set<Revision>
    requires NonEmptyEntries(t)
  {
    if |ks| == 0 then {}
    else
      var k := ks[|ks| - 1];
      KeptKeys(t, ks[..|ks| - 1], rev) + if k in t then KeptRev(t[k].generations, rev) else {}
  }

  lemma {:induction false} UnvisitedKey(t: Tree, ks: seq<Key>, k: Key, rev: int)
    requires NonEmptyEntries(t) && k !in ks
    ensures var u := CompactKeys(t, ks, rev); (k in u <==> k in t) && (k in t ==> u[k] == t[k])
  {
    if |ks| > 0 {
      assert ks[|ks| - 1] in ks;
      UnvisitedKey(t, ks[..|ks| - 1], k, rev);
    }
  }

  lemma {:induction false} VisitedKey(t: Tree, ks: seq<Key>, k: Key, rev: int)
    requires NonEmptyEntries(t) && DistinctKeySeq(ks) && k in ks
    ensures var u, v := CompactKeys(t, ks, rev), CompactKey(t, k, rev);
            (k in u <==> k in v) && (k in u ==> u[k] == v[k])
  {
    var init, last := ks[..|ks| - 1], ks[|ks| - 1];
    if k == last {
      UnvisitedKey(t, init, k, rev);
    } else {
      VisitedKey(t, init, k, rev);
    }
  }

  predicate DistinctKeySeq(ks: seq<Key>) {
    forall i, j :: 0 <= i < j < |ks| ==> ks[i] != ks[j]
  }

  lemma DistinctKeys(ks: seq<Key>)
    requires Ascending(ks)
    ensures DistinctKeySeq(ks)
  {
    forall i, j | 0 <= i < j < |ks| ensures ks[i] != ks[j] {
      assert Less(ks[i], ks[j]);
      CompareEqual(ks[i], ks[j]);
    }
  }

  /** Visiting every key is compacting the tree. */
  lemma CompactAllKeys(t: Tree, ks: seq<Key>, rev: int)
    requires NonEmptyEntries(t) && DistinctKeySeq(ks) && forall k :: k in ks <==> k in t
    ensures CompactKeys(t, ks, rev) == CompactTree(t, rev)
    ensures KeptKeys(t, ks, rev) == KeepTree(t, rev)
  {
    var u, v := CompactKeys(t, ks, rev), CompactTree(t, rev);
    forall k ensures (k in u <==> k in v) && (k in u ==> u[k] == v[k]) {
      CompactTreeSlot(t, k, rev);
      if k in ks { VisitedKey(t, ks, k, rev); } else { UnvisitedKey(t, ks, k, rev); }
    }
    assert u.Keys == v.Keys;
    KeptAllKeys(t, ks, rev);
  }

  lemma {:induction false} KeptMember(t: Tree, ks: seq<Key>, rev: int, r: Revision)
    requires NonEmptyEntries(t)
    ensures r in KeptKeys(t, ks, rev) <==> exists k :: k in ks && k in t && r in KeptRev(t[k].generations, rev)
  {
    if |ks| > 0 {
      KeptMember(t, ks[..|ks| - 1], rev, r);
      assert forall k :: k in ks <==> k in ks[..|ks| - 1] || k == ks[|ks| - 1];
    }
  }

  lemma KeptAllKeys(t: Tree, ks: seq<Key>, rev: int)
    requires NonEmptyEntries(t) && forall k :: k in ks <==> k in t
    ensures KeptKeys(t, ks, rev) == KeepTree(t, rev)
  {
    forall r ensures r in KeptKeys(t, ks, rev) <==> r in KeepTree(t, rev) {
      KeptMember(t, ks, rev, r);
    }
  }

  class TreeIndex {
    var keys: seq<Key>
    var items: map<Key, KeyIndex>

    ghost predicate Ordered()
      reads this
    {
      && Ascending(keys)
      && (forall k :: k in keys <==> k in items)
      && (forall k :: k in items ==> items[k].key == k)
    }

    ghost predicate Valid()
      reads this, items.Values
    {
      Ordered() && forall k {:trigger StoredAt(k)} :: k in items ==> StoredAt(k)
    }

    ghost predicate StoredAt(k: Key)
      requires k in items
      reads this, items[k]
    {
      Stored(items[k], k)
    }

    ghost function View(): Tree
      reads this, items.Values
    {
      map k | k in items :: EntryOf(items[k])
    }

    constructor ()
      ensures Valid() && View() == map[] && items == map[]
    {
      keys, items := [], map[];
    }

    /** ReplaceOrInsert of a key that is not in the tree yet. */
    method Insert(ki: KeyIndex)
      requires Ordered()
      requires ki.key !in items
      modifies this
      ensures items == old(items)[ki.key := ki]
      ensures Ordered()
    {
      var i := 0;
      while i < |keys| && Less(keys[i], ki.key)
        invariant 0 <= i <= |keys|
        invariant forall j :: 0 <= j < i ==> Less(keys[j], ki.key)
      {
        i := i + 1;
      }
      forall j | i <= j < |keys| ensures Less(ki.key, keys[j]) {
        CompareAntisymmetric(keys[i], ki.key);
        CompareEqual(keys[i], ki.key);
        if j > i { CompareTransitive(ki.key, keys[i], keys[j]); }
      }
      assert keys == keys[..i] + keys[i..];
      keys := keys[..i] + [ki.key] + keys[i..];
      items := items[ki.key := ki];
    }

    /** False when the key is not in the tree. */
    method Delete(key: Key) returns (found: bool)
      requires Ordered()
      modifies this
      ensures found <==> key in old(items)
      ensures items == old(items) - {key}
      ensures Ordered()
    {
      for i := 0 to |keys|
        invariant keys == old(keys) && items == old(items) && key !in keys[..i]
      {
        assert keys[..i + 1] == keys[..i] + [keys[i]];
        if keys[i] == key {
          CompareEqual(key, key);
          assert keys == keys[..i] + [key] + keys[i + 1..];
          assert forall j :: i < j < |keys| ==> Less(keys[i], keys[j]);
          keys := keys[..i] + keys[i + 1..];
          items := items - {key};
          return true;
        }
      }
      assert keys[..|keys|] == keys;
      return false;
    }

    /** An entry whose object did not change. */
    twostate lemma SameEntry(k: Key)
      requires k in old(items) && k in items && items[k] == old(items)[k] && unchanged(items[k])
      requires old(StoredAt(k))
      ensures StoredAt(k) && View()[k] == old(View())[k]
    {
    }

    /** Only the object `ki` of the tree was edited. */
    twostate lemma OnlyChanged(ki: KeyIndex)
      requires old(Valid()) && items == old(items) && keys == old(keys)
      requires Stored(ki, ki.key) && ki.key in items && items[ki.key] == ki
      requires forall k :: k in items && k != ki.key ==> unchanged(items[k])
      ensures Valid() && View() == old(View())[ki.key := EntryOf(ki)]
    {
      var now, was := View(), old(View());
      assert StoredAt(ki.key);
      assert now.Keys == was.Keys == items.Keys;
      forall k | k in items && k != ki.key ensures StoredAt(k) && now[k] == was[k] {
        SameEntry(k);
      }
    }

    /** Only the new object `ki` was added. */
    twostate lemma OnlyAdded(new ki: KeyIndex)
      requires old(Valid()) && Ordered() && items == old(items)[ki.key := ki] && ki.key !in old(items)
      requires Stored(ki, ki.key)
      requires forall k :: k in old(items) ==> unchanged(old(items)[k])
      ensures Valid() && View() == old(View())[ki.key := EntryOf(ki)]
    {
      var now, was := View(), old(View());
      assert StoredAt(ki.key);
      assert now.Keys == was.Keys + {ki.key};
      forall k | k in old(items) ensures k in items && StoredAt(k) && now[k] == was[k] {
        SameEntry(k);
      }
    }

    /** Only the key `k` was dropped. */
    twostate lemma OnlyDropped(k0: Key)
      requires old(Valid()) && Ordered() && items == old(items) - {k0}
      requires forall k :: k in items ==> unchanged(items[k])
      ensures Valid() && View() == old(View()) - {k0}
    {
      var now, was := View(), old(View());
      assert now.Keys == was.Keys - {k0};
      forall k | k in items ensures StoredAt(k) && now[k] == was[k] {
        SameEntry(k);
      }
    }

    method PutNew(key: Key, rev: Revision)
      requires Valid() && rev.main > 0 && key !in items
      modifies this
      ensures Valid() && View() == old(View())[key := Entry(rev, PutGens([], rev))]
      ensures fresh(items.Values - old(items.Values))
    {
      var keyi := new KeyIndex(key);
      keyi.Put(rev.main, rev.sub);
      PutIsNotEmpty([], rev);
      Insert(keyi);
      OnlyAdded(keyi);
    }

    /** A key seen for the first time while records are read back. */
    method RestoreNew(key: Key, created: Revision, rev: Revision, ver: int)
      requires Valid() && key !in items
      requires created.main > 0 && created.GreaterThan(ZERO) && !created.GreaterThan(rev)
      modifies this
      ensures Valid() && View() == old(View())[key := Entry(rev, [Generation(ver, created, [rev])])]
      ensures fresh(items.Values - old(items.Values))
    {
      var keyi := new KeyIndex(key);
      keyi.Restore(created, rev, ver);
      Insert(keyi);
      OnlyAdded(keyi);
    }

    method Put(key: Key, rev: Revision)
      requires Valid() && rev.main > 0
      requires key in items ==> rev.GreaterThan(items[key].modified)
      modifies this, items.Values
      ensures Valid() && View() == PutTree(old(View()), key, rev)
      ensures fresh(items.Values - old(items.Values))
    {
      if key !in items {
        PutNew(key, rev);
        return;
      }
      PutIsNotEmpty(items[key].generations, rev);
      assert StoredAt(key);
      var okeyi := items[key];
      okeyi.Put(rev.main, rev.sub);
      OnlyChanged(okeyi);
    }

    method Get(key: Key, atRev: int) returns (r: GetResult)
      requires Valid()
      ensures r == GetTree(View(), key, atRev)
    {
      if key !in items {
        return RevisionNotFound;
      }
      assert StoredAt(key);
      r := items[key].Get(atRev);
    }

    /** False stands for the "revision not found" error. */
    method Tombstone(key: Key, rev: Revision) returns (ok: bool)
      requires Valid() && rev.main > 0
      requires key in items ==> rev.GreaterThan(items[key].modified)
      modifies items.Values
      ensures Valid() && View() == TombstoneTree(old(View()), key, rev)
      ensures ok <==> CanTombstone(old(View()), key)
    {
      if key !in items {
        return false;
      }
      assert StoredAt(key);
      var ki := items[key];
      TombstoneIsNotEmpty(ki.generations, rev);
      ok := ki.Tombstone(rev.main, rev.sub);
      OnlyChanged(ki);
    }

    /** The keys that an ascending walk from `key` up to `end` meets. */
    method Visit(key: Key, end: Key) returns (ks: seq<Key>)
      requires Ascending(keys)
      ensures ks == Scan(keys, key, end)
    {
      ks := [];
      for i := 0 to |keys|
        invariant ks == Scan(keys[..i], key, end)
      {
        assert keys[..i + 1][..i] == keys[..i];
        if Less(keys[i], key) {
          continue;
        }
        if |end| > 0 && !Less(keys[i], end) {
          ScanStops(keys, i, key, end);
          return;
        }
        ks := ks + [keys[i]];
      }
      assert keys[..|keys|] == keys;
    }

    /** What the read of one stored key sees. */
    method GetStored(key: Key, atRev: int) returns (r: GetResult)
      requires Valid() && key in items
      ensures r == GetTree(View(), key, atRev)
    {
      assert StoredAt(key);
      r := items[key].Get(atRev);
    }

    method Range(key: Key, end: RangeEnd, atRev: int) returns (outKeys: seq<Key>, revs: seq<Revision>)
      requires Valid()
      ensures var ks := if end.NoEnd? then [key] else Scan(keys, key, end.key);
              outKeys == VisibleKeys(View(), ks, atRev) && revs == VisibleRevs(View(), ks, atRev)
    {
      if end.NoEnd? {
        outKeys, revs := RangeOne(key, atRev);
        return;
      }
      var ks := Visit(key, end.key);
      outKeys, revs := RangeAll(ks, atRev, View());
    }

    method RangeAll(ks: seq<Key>, atRev: int, ghost t: Tree) returns (outKeys: seq<Key>, revs: seq<Revision>)
      requires Valid() && t == View() && forall k :: k in ks ==> k in items
      ensures outKeys == VisibleKeys(t, ks, atRev) && revs == VisibleRevs(t, ks, atRev)
    {
      outKeys, revs := [], [];
      for i := 0 to |ks|
        invariant outKeys == VisibleKeys(t, ks[..i], atRev) && revs == VisibleRevs(t, ks[..i], atRev)
      {
        assert ks[..i + 1][..i] == ks[..i];
        var r := GetStored(ks[i], atRev);
        if r.Found? {
          outKeys, revs := outKeys + [ks[i]], revs + [r.modified];
        }
      }
      assert ks[..|ks|] == ks;
    }

    method RangeOne(key: Key, atRev: int) returns (outKeys: seq<Key>, revs: seq<Revision>)
      requires Valid()
      ensures outKeys == VisibleKeys(View(), [key], atRev) && revs == VisibleRevs(View(), [key], atRev)
    {
      var r := Get(key, atRev);
      assert [key][..0] == [];
      if r.Found? {
        return [key], [r.modified];
      }
      return [], [];
    }

    /** The revisions alone; the reads of a range fetch the records by them. */
    method Revisions(key: Key, end: RangeEnd, atRev: int) returns (revs: seq<Revision>)
      requires Valid()
      ensures revs == VisibleRevs(View(), if end.NoEnd? then [key] else Scan(keys, key, end.key), atRev)
    {
      if end.NoEnd? {
        var _, rev := RangeOne(key, atRev);
        return rev;
      }
      var ks := Visit(key, end.key);
      revs := RevisionsAll(ks, atRev, View());
    }

    method RevisionsAll(ks: seq<Key>, atRev: int, ghost t: Tree) returns (revs: seq<Revision>)
      requires Valid() && t == View() && forall k :: k in ks ==> k in items
      ensures revs == VisibleRevs(t, ks, atRev)
    {
      revs := [];
      for i := 0 to |ks|
        invariant revs == VisibleRevs(t, ks[..i], atRev)
      {
        assert ks[..i + 1][..i] == ks[..i];
        var r := GetStored(ks[i], atRev);
        if r.Found? {
          revs := revs + [r.modified];
        }
      }
      assert ks[..|ks|] == ks;
    }

    method SinceStored(key: Key, rev: int) returns (revs: seq<Revision>)
      requires Valid() && key in items
      ensures revs == SinceKey(View(), key, rev)
    {
      assert StoredAt(key);
      revs := items[key].Since(rev);
    }

    method RangeSince(key: Key, end: RangeEnd, rev: int) returns (revs: seq<Revision>)
      requires Valid()
      ensures end.NoEnd? ==> revs == if key in View() then SinceKey(View(), key, rev) else []
      ensures end.End? ==> SortedRevs(revs) && multiset(revs) == multiset(SinceKeys(View(), Scan(keys, key, end.key), rev))
    {
      if end.NoEnd? {
        revs := [];
        if key in items {
          revs := SinceStored(key, rev);
        }
        return;
      }
      var ks := Visit(key, end.key);
      revs := SinceAll(ks, rev, View());
      revs := SortRevisions(revs);
    }

    method SinceAll(ks: seq<Key>, rev: int, ghost t: Tree) returns (revs: seq<Revision>)
      requires Valid() && t == View() && forall k :: k in ks ==> k in items
      ensures revs == SinceKeys(t, ks, rev)
    {
      revs := [];
      for i := 0 to |ks|
        invariant revs == SinceKeys(t, ks[..i], rev)
      {
        assert ks[..i + 1][..i] == ks[..i];
        var some := SinceStored(ks[i], rev);
        revs := revs + some;
      }
      assert ks[..|ks|] == ks;
    }

    /** The locked section of the tree walk: compact one key of the clone and drop
        it from the tree when nothing is left. */
    method CompactOne(keyi: KeyIndex, rev: int, available: set<Revision>) returns (available': set<Revision>)
      requires Valid() && keyi.key in items && items[keyi.key] == keyi
      requires |View()[keyi.key].generations| > 0
      modifies this, keyi
      ensures Valid() && View() == CompactKey(old(View()), keyi.key, rev)
      ensures available' == available + KeptRev(old(View())[keyi.key].generations, rev)
      ensures forall k :: k in items ==> k in old(items) && items[k] == old(items)[k]
    {
      assert StoredAt(keyi.key);
      assert View()[keyi.key] == EntryOf(keyi);
      available' := keyi.Compact(rev, available);
      if keyi.IsEmpty() {
        var found := Delete(keyi.key);
        assert found;
        OnlyDropped(keyi.key);
      } else {
        OnlyChanged(keyi);
      }
    }

    method Compact(rev: int) returns (available: set<Revision>)
      requires Valid()
      modifies this, items.Values
      ensures old(NonEmptyEntries(View()))
      ensures Valid() && View() == CompactTree(old(View()), rev)
      ensures available == KeepTree(old(View()), rev)
    {
      available := {};
      EntriesAreStored();
      ghost var before := View();
      var clone, objects := keys, items;
      DistinctKeys(clone);
      for i := 0 to |clone|
        invariant Valid()
        invariant forall k :: k in items ==> k in objects && items[k] == objects[k] && objects[k].key == k
        invariant View() == CompactKeys(before, clone[..i], rev)
        invariant available == KeptKeys(before, clone[..i], rev)
      {
        ghost var done := clone[..i];
        assert clone[..i + 1][..i] == done && clone[i] in clone && clone[i] !in done;
        UnvisitedKey(before, done, clone[i], rev);
        assert clone[i] in View();
        available := CompactOne(objects[clone[i]], rev, available);
      }
      assert clone[..|clone|] == clone;
      CompactAllKeys(before, clone, rev);
    }

    lemma EntriesAreStored()
      requires Valid()
      ensures NonEmptyEntries(View())
    {
      forall k | k in View() ensures |View()[k].generations| > 0 {
        assert StoredAt(k);
      }
    }

    method Keep(rev: int) returns (available: set<Revision>)
      requires Valid()
      ensures NonEmptyEntries(View()) && available == KeepTree(View(), rev)
    {
      available := {};
      EntriesAreStored();
      ghost var t := View();
      for i := 0 to |keys|
        invariant available == KeptKeys(t, keys[..i], rev)
      {
        assert keys[i] in keys;
        assert StoredAt(keys[i]);
        assert keys[..i + 1][..i] == keys[..i];
        available := items[keys[i]].Keep(rev, available);
      }
      assert keys[..|keys|] == keys;
      KeptAllKeys(t, keys, rev);
    }
  }
}
