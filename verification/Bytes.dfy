/** Byte strings under the lexicographic order that keys, user names and role
    names are compared with. */
module Bytes {
  type Byte = b: int | 0 <= b < 256

  type Key = seq<Byte>

  /** -1, 0 or 1, as bytes.Compare. */
  function Compare(a: Key, b: Key): (c: int) {
    if |a| == 0 && |b| == 0 then 0
    else if |a| == 0 then -1
    else if |b| == 0 then 1
    else if a[0] < b[0] then -1
    else if a[0] > b[0] then 1
    else Compare(a[1..], b[1..])
  }

  predicate Less(a: Key, b: Key) {
    Compare(a, b) < 0
  }

  predicate AtMost(a: Key, b: Key) {
    Compare(a, b) <= 0
  }

  lemma {:induction false} CompareEqual(a: Key, b: Key)
    ensures Compare(a, b) == 0 <==> a == b
  {
    if |a| > 0 && |b| > 0 && a[0] == b[0] {
      CompareEqual(a[1..], b[1..]);
      assert a == [a[0]] + a[1..] && b == [b[0]] + b[1..];
    }
  }

  lemma {:induction false} CompareAntisymmetric(a: Key, b: Key)
    ensures Compare(a, b) == -Compare(b, a)
  {
    if |a| > 0 && |b| > 0 && a[0] == b[0] {
      CompareAntisymmetric(a[1..], b[1..]);
    }
  }

  lemma {:induction false} CompareTransitive(a: Key, b: Key, c: Key)
    requires Compare(a, b) <= 0 && Compare(b, c) <= 0
    ensures Compare(a, c) <= 0
    ensures Compare(a, b) < 0 || Compare(b, c) < 0 ==> Compare(a, c) < 0
  {
    if |a| > 0 && |b| > 0 && |c| > 0 && a[0] == b[0] == c[0] {
      CompareTransitive(a[1..], b[1..], c[1..]);
    }
  }

  /** Strictly ascending, hence also free of duplicates. */
  predicate Ascending(keys: seq<Key>) {
    forall i, j :: 0 <= i < j < |keys| ==> Less(keys[i], keys[j])
  }

  /** An ascending sequence is determined by its elements. */
  lemma {:induction false} AscendingUnique(a: seq<Key>, b: seq<Key>)
    requires Ascending(a) && Ascending(b)
    requires forall k :: k in a <==> k in b
    ensures a == b
  {
    assert |a| > 0 ==> a[0] in a;
    assert |b| > 0 ==> b[0] in b;
    if |a| > 0 && |b| > 0 {
      LeastMember(a, b[0]);
      LeastMember(b, a[0]);
      CompareAntisymmetric(a[0], b[0]);
      CompareEqual(a[0], b[0]);
      forall k ensures k in a[1..] <==> k in b[1..] {
        TailMembers(a, k);
        TailMembers(b, k);
      }
      AscendingUnique(a[1..], b[1..]);
      assert a == [a[0]] + a[1..] && b == [b[0]] + b[1..];
    }
  }

  lemma LeastMember(a: seq<Key>, k: Key)
    requires Ascending(a) && |a| > 0 && k in a
    ensures AtMost(a[0], k)
  {
    var i :| 0 <= i < |a| && a[i] == k;
    if i == 0 {
      CompareEqual(a[0], k);
    }
  }

  lemma TailMembers(a: seq<Key>, k: Key)
    requires Ascending(a) && |a| > 0
    ensures k in a[1..] <==> k in a && k != a[0]
  {
    if k in a[1..] {
      var i :| 1 <= i < |a| && a[i] == k;
      assert Less(a[0], a[i]);
      CompareEqual(a[0], a[0]);
    }
  }

  /** Every finite set of keys can be put in order. */
  lemma {:induction false} SortedKeys(keys: set<Key>) returns (ks: seq<Key>)
    ensures Ascending(ks) && forall k :: k in ks <==> k in keys
    decreases |keys|
  {
    if keys == {} {
      ks := [];
    } else {
      var k :| k in keys;
      var rest := SortedKeys(keys - {k});
      ks := KeyInserted(rest, k);
    }
  }

  lemma {:induction false} KeyInserted(rest: seq<Key>, k: Key) returns (ks: seq<Key>)
    requires Ascending(rest) && k !in rest
    ensures Ascending(ks) && forall x :: x in ks <==> x in rest || x == k
  {
    if |rest| == 0 {
      ks := [k];
    } else if Less(k, rest[0]) {
      ks := [k] + rest;
      forall j | 0 <= j < |rest| ensures Less(k, rest[j]) {
        if j > 0 {
          CompareTransitive(k, rest[0], rest[j]);
        }
      }
    } else {
      CompareAntisymmetric(k, rest[0]);
      CompareEqual(k, rest[0]);
      var tail := KeyInserted(rest[1..], k);
      assert rest == [rest[0]] + rest[1..];
      ks := [rest[0]] + tail;
      forall j | 0 <= j < |tail| ensures Less(rest[0], tail[j]) {
        assert tail[j] in tail;
      }
    }
  }

  /** The end of a range: nil asks for the single key, an empty end is unbounded. */
  datatype RangeEnd = NoEnd | End(key: Key)

  /** The key is visited by a scan from `from` up to, not including, `end`. */
  predicate InScan(k: Key, from: Key, end: Key) {
    !Less(k, from) && (|end| == 0 || Less(k, end))
  }

  function Scan(keys: seq<Key>, from: Key, end: Key): (out: seq<Key>)
    ensures forall k :: k in out <==> k in keys && InScan(k, from, end)
  {
    if |keys| == 0 then []
    else
      var before := Scan(keys[..|keys| - 1], from, end);
      var k := keys[|keys| - 1];
      if InScan(k, from, end) then before + [k] else before
  }

  /** A scan meets the keys in order. */
  lemma {:induction false} ScanIsAscending(keys: seq<Key>, from: Key, end: Key)
    requires Ascending(keys)
    ensures Ascending(Scan(keys, from, end))
  {
    if |keys| > 0 {
      var before := Scan(keys[..|keys| - 1], from, end);
      ScanIsAscending(keys[..|keys| - 1], from, end);
      forall i | 0 <= i < |before| ensures Less(before[i], keys[|keys| - 1]) {
        assert before[i] in keys[..|keys| - 1];
      }
    }
  }

  /** Once a key reaches the end of the range, no later key is in it. */
  lemma {:induction false} ScanStops(keys: seq<Key>, i: nat, from: Key, end: Key)
    requires Ascending(keys) && i <= |keys| && |end| > 0
    requires i < |keys| ==> !Less(keys[i], end)
    ensures Scan(keys, from, end) == Scan(keys[..i], from, end)
    decreases |keys|
  {
    if i < |keys| {
      var n := |keys| - 1;
      ScanStops(keys[..n], i, from, end);
      assert keys[..n][..i] == keys[..i];
      if i < n {
        CompareAntisymmetric(end, keys[i]);
        CompareAntisymmetric(end, keys[n]);
        CompareTransitive(end, keys[i], keys[n]);
      }
    } else {
      assert keys[..i] == keys;
    }
  }
}
