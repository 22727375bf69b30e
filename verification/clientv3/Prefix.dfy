/** Prefix queries of the client: the key interval a prefix becomes, and what a scan
    of that interval meets. */
module Prefixes {
  import opened Bytes
  import KV
  import Revisions
  import TreeIndexSpec
  import TreeIndexes
  import Reads = TreeIndexReads

  /** Asks for everything from the key on. */
  const NO_PREFIX_END: Key := [0]

  predicate StartsWith(k: Key, p: Key) {
    |p| <= |k| && k[..|p|] == p
  }

  /** The last byte that can be raised is, and what follows it is dropped. */
  function PrefixEnd(p: Key): (end: Key)
    ensures |end| > 0
  {
    if |p| == 0 then NO_PREFIX_END
    else if p[|p| - 1] < 255 then p[..|p| - 1] + [p[|p| - 1] + 1]
    else PrefixEnd(p[..|p| - 1])
  }

  method GetPrefix(key: Key) returns (end: Key)
    ensures end == PrefixEnd(key)
  {
    var buf := new Byte[|key|](i requires 0 <= i < |key| => key[i]);
    var i := |key| - 1;
    assert key[..i + 1] == key;
    while i >= 0
      invariant -1 <= i < |key| && buf[..] == key
      invariant PrefixEnd(key[..i + 1]) == PrefixEnd(key)
    {
      assert key[..i + 1][..i] == key[..i];
      if buf[i] < 255 {
        buf[i] := buf[i] + 1;
        assert buf[..i] == key[..i];
        return buf[..i + 1];
      }
      i := i - 1;
    }
    return NO_PREFIX_END;
  }

  /** A client operation under its options. */
  class Op {
    var key: Key
    var end: RangeEnd

    constructor (key: Key)
      ensures this.key == key && end == NoEnd
    {
      this.key, end := key, NoEnd;
    }

    method WithPrefix()
      modifies this
      ensures key == ScanStart(old(key)) && end == End(PrefixEnd(old(key)))
      ensures forall k :: KV.Hit(k, key, KV.MkGteRange(end)) <==> |k| > 0 && StartsWith(k, old(key))
    {
      forall k ensures KV.Hit(k, ScanStart(key), ScanEnd(key)) <==> |k| > 0 && StartsWith(k, key) {
        PrefixHits(key, k);
      }
      if |key| == 0 {
        key, end := [0], End([0]);
        return;
      }
      var e := GetPrefix(key);
      end := End(e);
    }

    method WithFromKey()
      modifies this
      ensures key == ScanStart(old(key)) && end == End(NO_PREFIX_END)
      ensures forall k :: KV.Hit(k, key, KV.MkGteRange(end)) <==> |k| > 0 && AtMost(old(key), k)
    {
      forall k ensures KV.Hit(k, ScanStart(key), KV.MkGteRange(End(NO_PREFIX_END))) <==> |k| > 0 && AtMost(key, k) {
        FromKeyHits(key, k);
      }
      if |key| == 0 {
        key := [0];
      }
      end := End([0]);
    }
  }

  // ---------- The interval of a prefix ----------

  /** The end, seen from the front: the first byte is raised only when no later byte
      can be. */
  lemma {:induction false} PrefixEndFront(p: Key)
    requires |p| > 0
    ensures PrefixEnd(p) == if PrefixEnd(p[1..]) != NO_PREFIX_END then [p[0]] + PrefixEnd(p[1..])
                            else if p[0] < 255 then [p[0] + 1]
                            else NO_PREFIX_END
    decreases |p|
  {
    var n := |p| - 1;
    if n == 0 {
      assert p[1..] == [] && p[..0] == [];
    } else {
      assert p[1..][n - 1] == p[n] && p[1..][..n - 1] == p[..n][1..];
      if p[n] < 255 {
        assert p[..n] == [p[0]] + p[..n][1..];
        assert PrefixEnd(p[1..]) == p[..n][1..] + [p[n] + 1];
        assert PrefixEnd(p[1..])[|p[..n][1..]|] == p[n] + 1;
      } else {
        PrefixEndFront(p[..n]);
      }
    }
  }

  /** A key is in the interval of a prefix if and only if it starts with it; a prefix
      of 0xff bytes alone has an open interval. */
  lemma {:induction false} PrefixInterval(p: Key, k: Key)
    requires |p| > 0
    ensures InScan(k, p, if PrefixEnd(p) == NO_PREFIX_END then [] else PrefixEnd(p)) <==> StartsWith(k, p)
    decreases |p|
  {
    PrefixEndFront(p);
    var q := p[1..];
    if |k| > 0 {
      assert StartsWith(k, p) <==> k[0] == p[0] && StartsWith(k[1..], q) by {
        if k[0] == p[0] && StartsWith(k[1..], q) {
          assert k[..|p|] == [k[0]] + k[1..][..|q|];
        }
        if StartsWith(k, p) {
          assert k[..|p|][0] == k[0] && k[1..][..|q|] == k[..|p|][1..];
        }
      }
      if |q| > 0 {
        PrefixInterval(q, k[1..]);
      }
      var e := PrefixEnd(q);
      assert q == [] ==> !Less(k[1..], q) && StartsWith(k[1..], q);
      if e != NO_PREFIX_END {
        assert PrefixEnd(p)[1..] == e && |PrefixEnd(p)| > 1;
        assert !Less(k[1..], q) && Less(k[1..], e) <==> StartsWith(k[1..], q);
      } else if p[0] < 255 {
        assert PrefixEnd(p)[1..] == [] && Compare(k[1..], []) >= 0;
        assert Less(k, PrefixEnd(p)) <==> k[0] <= p[0];
      }
    }
  }

  /** The range the server scans for a prefix query. */
  function ScanStart(p: Key): Key {
    if p == [] then [0] else p
  }

  function ScanEnd(p: Key): RangeEnd {
    KV.MkGteRange(End(PrefixEnd(p)))
  }

  /** The interval of a prefix, as the client makes it and the server reads it, holds
      exactly the non-empty keys with that prefix. */
  lemma PrefixHits(p: Key, k: Key)
    ensures KV.Hit(k, ScanStart(p), ScanEnd(p)) <==> |k| > 0 && StartsWith(k, p)
  {
    if |p| > 0 {
      PrefixInterval(p, k);
    } else if |k| > 0 {
      assert Compare(k, [0]) >= 0;
    }
  }

  // ---------- From a key on ----------

  /** The empty byte string is the least key, and [0] the least that is not empty. */
  lemma LeastKeys(k: Key)
    ensures AtMost([], k) && (|k| > 0 <==> AtMost([0], k))
  {
    if |k| > 0 {
      assert Compare([0], k) == if 0 < k[0] then -1 else Compare([0][1..], k[1..]);
    }
  }

  /** The interval of a from-key query, as the client makes it and the server reads it,
      holds exactly the non-empty keys at or above the key. */
  lemma FromKeyHits(key: Key, k: Key)
    ensures KV.Hit(k, ScanStart(key), KV.MkGteRange(End(NO_PREFIX_END))) <==> |k| > 0 && AtMost(key, k)
  {
    CompareAntisymmetric(k, ScanStart(key));
    LeastKeys(k);
    if |k| == 0 && |key| > 0 {
      assert Compare(key, k) == 1;
    }
  }

  /** A from-key read of the index lists, in order, exactly the keys at or above the key
      that exist at the revision. */
  lemma FromKeyRead(s: TreeIndexSpec.State, keys: seq<Key>, key: Key, atRev: int)
    requires TreeIndexSpec.Good(s) && Ascending(keys) && [] !in keys && s.compacted <= atRev
    requires forall k :: k in s.tree ==> k in keys
    ensures var out := TreeIndexes.VisibleKeys(s.tree, Scan(keys, ScanStart(key), KV.MkGteRange(End(NO_PREFIX_END)).key), atRev);
            && Ascending(out)
            && (forall k :: k in out <==>
                 (AtMost(key, k) && Revisions.Lookup(TreeIndexSpec.HistoryOf(s.log, k), atRev).Found?))
  {
    var end := KV.MkGteRange(End(NO_PREFIX_END)).key;
    var ks := Scan(keys, ScanStart(key), end);
    ScanIsAscending(keys, ScanStart(key), end);
    Reads.RangeMeans(s, ks, atRev);
    forall k: Key ensures k in ks <==> k in keys && AtMost(key, k) {
      FromKeyHits(key, k);
    }
    forall k: Key | Revisions.Lookup(TreeIndexSpec.HistoryOf(s.log, k), atRev).Found? ensures k in keys {
      ExistingIsKey(s, k, atRev);
    }
  }

  lemma ExistingIsKey(s: TreeIndexSpec.State, k: Key, atRev: int)
    requires TreeIndexSpec.Good(s) && s.compacted <= atRev
    requires Revisions.Lookup(TreeIndexSpec.HistoryOf(s.log, k), atRev).Found?
    ensures k in s.tree
  {
    TreeIndexSpec.KeyReads(s.tree, k, TreeIndexSpec.HistoryOf(s.log, k), s.compacted, atRev);
  }

  /** A prefix read of the index lists, in order, exactly the keys with the prefix that
      exist at the revision. */
  lemma PrefixRead(s: TreeIndexSpec.State, keys: seq<Key>, p: Key, atRev: int)
    requires TreeIndexSpec.Good(s) && Ascending(keys) && [] !in keys && s.compacted <= atRev
    requires forall k :: k in s.tree ==> k in keys
    ensures var out := TreeIndexes.VisibleKeys(s.tree, Scan(keys, ScanStart(p), ScanEnd(p).key), atRev);
            && Ascending(out)
            && (forall k :: k in out <==>
                 (StartsWith(k, p) && Revisions.Lookup(TreeIndexSpec.HistoryOf(s.log, k), atRev).Found?))
  {
    var ks := Scan(keys, ScanStart(p), ScanEnd(p).key);
    ScanIsAscending(keys, ScanStart(p), ScanEnd(p).key);
    Reads.RangeMeans(s, ks, atRev);
    forall k: Key ensures k in ks <==> k in keys && StartsWith(k, p) {
      PrefixHits(p, k);
    }
    forall k: Key | Revisions.Lookup(TreeIndexSpec.HistoryOf(s.log, k), atRev).Found? ensures k in keys {
      ExistingIsKey(s, k, atRev);
    }
  }
}
