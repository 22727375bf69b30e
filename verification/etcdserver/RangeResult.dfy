/** What a range request returns: one more pair than the limit is fetched when that is
    enough, revision filters prune the fetched pairs in place, and the rest is sorted
    and cut at the limit. */
module RangeResults {
  import opened Bytes
  import opened KV

  datatype SortOrder = NONE | ASCEND | DESCEND

  datatype SortTarget = KEY | BY_VERSION | BY_CREATE | BY_MOD | BY_VALUE

  datatype Request = Request(limit: int, sortOrder: SortOrder, sortTarget: SortTarget,
                             minMod: int, maxMod: int, minCreate: int, maxCreate: int, countOnly: bool, keysOnly: bool)

  datatype Response = Response(kvs: seq<KeyValue>, more: bool, count: nat)

  // ---------- What is asked for ----------

  /** The pair passes every filter that is set. */
  predicate Passes(r: Request, kv: KeyValue) {
    && (r.maxMod != 0 ==> kv.modRev <= r.maxMod)
    && (r.minMod != 0 ==> kv.modRev >= r.minMod)
    && (r.maxCreate != 0 ==> kv.createRev <= r.maxCreate)
    && (r.minCreate != 0 ==> kv.createRev >= r.minCreate)
  }

  function Filter(p: KeyValue -> bool, kvs: seq<KeyValue>): seq<KeyValue> {
    if |kvs| == 0 then []
    else
      var before := Filter(p, kvs[..|kvs| - 1]);
      if p(kvs[|kvs| - 1]) then before + [kvs[|kvs| - 1]] else before
  }

  /** `a` sorts strictly before `b` on the target. */
  predicate Below(target: SortTarget, a: KeyValue, b: KeyValue) {
    match target
    case KEY => Less(a.key, b.key)
    case BY_VERSION => a.version < b.version
    case BY_CREATE => a.createRev < b.createRev
    case BY_MOD => a.modRev < b.modRev
    case BY_VALUE => Less(a.value, b.value)
  }

  /** `a` may not come after `b`. */
  predicate Before(target: SortTarget, order: SortOrder, a: KeyValue, b: KeyValue) {
    if order == DESCEND then Below(target, b, a) else Below(target, a, b)
  }

  /** The order that applies: targets other than the key ascend by default. */
  function OrderOf(r: Request): SortOrder {
    if r.sortTarget != KEY && r.sortOrder == NONE then ASCEND else r.sortOrder
  }

  predicate SortedBy(target: SortTarget, order: SortOrder, kvs: seq<KeyValue>) {
    forall i, j :: 0 <= i < j < |kvs| ==> !Before(target, order, kvs[j], kvs[i])
  }

  /** An arrangement of the pairs that pass: in key order as found, or sorted, pairs
      that tie in any order. */
  ghost predicate Arranged(r: Request, found: seq<KeyValue>, all: seq<KeyValue>) {
    var passing := Filter(kv => Passes(r, kv), found);
    if OrderOf(r) == NONE then all == passing
    else SortedBy(r.sortTarget, OrderOf(r), all) && multiset(all) == multiset(passing)
  }

  function Take(limit: int, kvs: seq<KeyValue>): seq<KeyValue> {
    if 0 < limit < |kvs| then kvs[..limit] else kvs
  }

  function Strip(keysOnly: bool, kvs: seq<KeyValue>): (r: seq<KeyValue>)
    ensures |r| == |kvs| && forall i :: 0 <= i < |kvs| ==> r[i] == if keysOnly then kvs[i].(value := []) else kvs[i]
  {
    seq(|kvs|, i requires 0 <= i < |kvs| => if keysOnly then kvs[i].(value := []) else kvs[i])
  }

  /** The pairs and the flag owed: fetch all, filter, arrange, take the limit. */
  ghost predicate Answers(r: Request, found: seq<KeyValue>, kvs: seq<KeyValue>, more: bool) {
    exists all :: Arranged(r, found, all) && kvs == Take(r.limit, all) && more == (0 < r.limit < |all|)
  }

  /** A sort by something else than the key that nobody asked an order for, cut before
      it is sorted. */
  predicate CutBeforeSort(r: Request) {
    && r.limit > 0 && r.sortTarget != KEY && r.sortOrder == NONE
    && r.minMod == 0 && r.maxMod == 0 && r.minCreate == 0 && r.maxCreate == 0
  }

  // ---------- The program ----------

  /** Move the pairs to keep to the front; the answer is how many they are. */
  method PruneKVs(kvs: array<KeyValue>, n: nat, isPrunable: KeyValue -> bool) returns (j: nat)
    requires n <= kvs.Length
    modifies kvs
    ensures j <= n && kvs[..j] == Filter(kv => !isPrunable(kv), old(kvs[..n]))
  {
    j := 0;
    ghost var s := kvs[..n];
    var keep := kv => !isPrunable(kv);
    for i := 0 to n
      invariant j <= i && forall k :: i <= k < n ==> kvs[k] == s[k]
      invariant kvs[..j] == Filter(keep, s[..i])
    {
      FilterNext(keep, s, i);
      ghost var kept := kvs[..j];
      kvs[j] := kvs[i];
      assert kvs[..j] == kept && kvs[..j + 1] == kept + [s[i]];
      if !isPrunable(kvs[i]) {
        j := j + 1;
      }
    }
    assert s[..n] == s;
  }

  lemma FilterNext(p: KeyValue -> bool, s: seq<KeyValue>, i: nat)
    requires i < |s|
    ensures Filter(p, s[..i + 1]) == Filter(p, s[..i]) + if p(s[i]) then [s[i]] else []
  {
    assert s[..i + 1][..i] == s[..i];
  }

  lemma {:induction false} FilterTwice(p: KeyValue -> bool, q: KeyValue -> bool, pq: KeyValue -> bool, kvs: seq<KeyValue>)
    requires forall x :: pq(x) <==> p(x) && q(x)
    ensures Filter(q, Filter(p, kvs)) == Filter(pq, kvs)
  {
    if |kvs| > 0 {
      var n := |kvs| - 1;
      FilterTwice(p, q, pq, kvs[..n]);
      var before := Filter(p, kvs[..n]);
      if p(kvs[n]) {
        assert (before + [kvs[n]])[..|before|] == before;
      }
    }
  }

  lemma {:induction false} FilterAll(p: KeyValue -> bool, kvs: seq<KeyValue>)
    requires forall x :: p(x)
    ensures Filter(p, kvs) == kvs
  {
    if |kvs| > 0 {
      FilterAll(p, kvs[..|kvs| - 1]);
    }
  }

  /** The four filters, one after the other. */
  method PruneAll(kvs: array<KeyValue>, r: Request) returns (n: nat)
    modifies kvs
    ensures n <= kvs.Length && kvs[..n] == Filter(kv => Passes(r, kv), old(kvs[..]))
  {
    ghost var s := kvs[..];
    n := kvs.Length;
    ghost var p0: KeyValue -> bool := kv => true;
    FilterAll(p0, s);
    assert kvs[..n] == Filter(p0, s);
    ghost var p1: KeyValue -> bool := (kv: KeyValue) => r.maxMod != 0 ==> kv.modRev <= r.maxMod;
    n := PruneIf(kvs, n, r.maxMod != 0, (kv: KeyValue) => kv.modRev > r.maxMod, s, p0, p1);
    ghost var p2: KeyValue -> bool := kv => p1(kv) && (r.minMod != 0 ==> kv.modRev >= r.minMod);
    n := PruneIf(kvs, n, r.minMod != 0, (kv: KeyValue) => kv.modRev < r.minMod, s, p1, p2);
    ghost var p3: KeyValue -> bool := kv => p2(kv) && (r.maxCreate != 0 ==> kv.createRev <= r.maxCreate);
    n := PruneIf(kvs, n, r.maxCreate != 0, (kv: KeyValue) => kv.createRev > r.maxCreate, s, p2, p3);
    n := PruneIf(kvs, n, r.minCreate != 0, (kv: KeyValue) => kv.createRev < r.minCreate, s, p3, (kv: KeyValue) => Passes(r, kv));
  }

  /** Apply a filter that is set, after those that make up `p`. */
  method PruneIf(kvs: array<KeyValue>, n: nat, on: bool, isPrunable: KeyValue -> bool,
                 ghost s: seq<KeyValue>, ghost p: KeyValue -> bool, ghost pq: KeyValue -> bool) returns (m: nat)
    requires n <= kvs.Length && kvs[..n] == Filter(p, s)
    requires forall kv :: pq(kv) <==> p(kv) && (on ==> !isPrunable(kv))
    modifies kvs
    ensures m <= kvs.Length && kvs[..m] == Filter(pq, s)
  {
    m := n;
    if on {
      m := PruneKVs(kvs, n, isPrunable);
    }
    ghost var q: KeyValue -> bool := kv => on ==> !isPrunable(kv);
    if on {
      SameFilter(q, kv => !isPrunable(kv), Filter(p, s));
    } else {
      FilterAll(q, Filter(p, s));
    }
    FilterTwice(p, q, pq, s);
  }

  lemma {:induction false} SameFilter(p: KeyValue -> bool, q: KeyValue -> bool, kvs: seq<KeyValue>)
    requires forall x :: p(x) <==> q(x)
    ensures Filter(p, kvs) == Filter(q, kvs)
  {
    if |kvs| > 0 {
      SameFilter(p, q, kvs[..|kvs| - 1]);
    }
  }

  /** Sort, by insertion. */
  method Sort(target: SortTarget, order: SortOrder, kvs: seq<KeyValue>) returns (sorted: seq<KeyValue>)
    ensures SortedBy(target, order, sorted) && multiset(sorted) == multiset(kvs)
  {
    sorted := [];
    for i := 0 to |kvs|
      invariant SortedBy(target, order, sorted) && multiset(sorted) == multiset(kvs[..i])
    {
      var n: nat := |sorted|;
      while n > 0 && Before(target, order, kvs[i], sorted[n - 1])
        invariant n <= |sorted|
        invariant forall k :: n <= k < |sorted| ==> Before(target, order, kvs[i], sorted[k])
      {
        n := n - 1;
      }
      InsertedSorted(target, order, sorted, kvs[i], n);
      assert sorted == sorted[..n] + sorted[n..];
      assert kvs[..i + 1] == kvs[..i] + [kvs[i]];
      sorted := sorted[..n] + [kvs[i]] + sorted[n..];
    }
    assert kvs[..|kvs|] == kvs;
  }

  lemma BeforeIsOrder(target: SortTarget, order: SortOrder, a: KeyValue, b: KeyValue, c: KeyValue)
    ensures Before(target, order, a, b) ==> !Before(target, order, b, a)
    ensures !Before(target, order, b, a) && !Before(target, order, c, b) ==> !Before(target, order, c, a)
  {
    CompareAntisymmetric(a.key, b.key);
    CompareAntisymmetric(b.key, c.key);
    CompareAntisymmetric(a.key, c.key);
    CompareAntisymmetric(a.value, b.value);
    CompareAntisymmetric(b.value, c.value);
    CompareAntisymmetric(a.value, c.value);
    if AtMost(a.key, b.key) && AtMost(b.key, c.key) {
      CompareTransitive(a.key, b.key, c.key);
    }
    if AtMost(c.key, b.key) && AtMost(b.key, a.key) {
      CompareTransitive(c.key, b.key, a.key);
    }
    if AtMost(a.value, b.value) && AtMost(b.value, c.value) {
      CompareTransitive(a.value, b.value, c.value);
    }
    if AtMost(c.value, b.value) && AtMost(b.value, a.value) {
      CompareTransitive(c.value, b.value, a.value);
    }
  }

  lemma InsertedSorted(target: SortTarget, order: SortOrder, s: seq<KeyValue>, x: KeyValue, n: nat)
    requires SortedBy(target, order, s) && n <= |s|
    requires n > 0 ==> !Before(target, order, x, s[n - 1])
    requires forall k :: n <= k < |s| ==> Before(target, order, x, s[k])
    ensures SortedBy(target, order, s[..n] + [x] + s[n..])
  {
    forall k | 0 <= k < |s|
      ensures k < n ==> !Before(target, order, x, s[k])
      ensures k >= n ==> !Before(target, order, s[k], x)
    {
      if k < n {
        BeforeIsOrder(target, order, s[k], s[n - 1], x);
      } else {
        BeforeIsOrder(target, order, x, s[k], x);
      }
    }
  }

  /** Filter and sort what was fetched and cut it at the limit. */
  method Finish(r: Request, fetched: seq<KeyValue>) returns (kvs: seq<KeyValue>, more: bool)
    ensures Answers(r, fetched, kvs, more)
  {
    var buf := new KeyValue[|fetched|](i requires 0 <= i < |fetched| => fetched[i]);
    assert buf[..] == fetched;
    var n := PruneAll(buf, r);
    kvs := buf[..n];
    var order := r.sortOrder;
    if r.sortTarget != KEY && order == NONE {
      order := ASCEND;
    }
    if order != NONE {
      kvs := Sort(r.sortTarget, order, kvs);
    }
    ghost var all := kvs;
    assert Arranged(r, fetched, all);
    more := false;
    if r.limit > 0 && |kvs| > r.limit {
      kvs := kvs[..r.limit];
      more := true;
    }
    assert kvs == Take(r.limit, all);
  }

  /** Answer from the pairs found, which lie in key order. */
  method Range(r: Request, found: seq<KeyValue>) returns (resp: Response, ghost kvs: seq<KeyValue>)
    ensures resp.count == |found| && resp.kvs == Strip(r.keysOnly, kvs)
    ensures r.countOnly ==> kvs == [] && !resp.more
    ensures !r.countOnly ==> Answers(r, if CutBeforeSort(r) then Take(r.limit + 1, found) else found, kvs, resp.more)
    ensures !r.countOnly && (r.sortTarget != KEY || r.sortOrder != NONE || KeyOrdered(found)) ==>
              Owed(r, if CutBeforeSort(r) then Take(r.limit + 1, found) else found, kvs, resp.more)
  {
    var limit := r.limit;
    if r.sortOrder != NONE || r.minMod != 0 || r.maxMod != 0 || r.minCreate != 0 || r.maxCreate != 0 {
      // Everything is fetched; the rest happens afterwards.
      limit := 0;
    }
    if limit > 0 {
      // One more than asked for tells whether there is more.
      limit := limit + 1;
    }
    if r.countOnly {
      kvs := [];
      return Response(Strip(r.keysOnly, []), false, |found|), [];
    }
    var fetched := Take(limit, found);
    var out, more := Finish(r, fetched);
    kvs := out;
    if limit > 0 && r.sortTarget == KEY {
      OneExtraIsEnough(r, found, kvs, more);
    } else {
      assert fetched == if CutBeforeSort(r) then Take(r.limit + 1, found) else found;
    }
    resp := Response(Strip(r.keysOnly, out), more, |found|);
    if r.sortTarget != KEY || r.sortOrder != NONE || KeyOrdered(found) {
      AnswersMean(r, if CutBeforeSort(r) then Take(r.limit + 1, found) else found, kvs, more);
    }
  }

  /** In key order without filters, one pair beyond the limit decides everything. */
  lemma OneExtraIsEnough(r: Request, found: seq<KeyValue>, kvs: seq<KeyValue>, more: bool)
    requires r.limit > 0 && r.sortTarget == KEY && r.sortOrder == NONE
    requires r.minMod == 0 && r.maxMod == 0 && r.minCreate == 0 && r.maxCreate == 0
    requires Answers(r, Take(r.limit + 1, found), kvs, more)
    ensures Answers(r, found, kvs, more)
  {
    FilterAll(kv => Passes(r, kv), found);
    FilterAll(kv => Passes(r, kv), Take(r.limit + 1, found));
    assert Arranged(r, found, found);
    assert Take(r.limit, Take(r.limit + 1, found)) == Take(r.limit, found);
  }

  // ---------- The answer in the fields of the pairs ----------

  /** `b` may come after `a` in the answer: the field that is sorted by does not fall, or
      does not rise when the order is descending. */
  predicate MayFollow(r: Request, a: KeyValue, b: KeyValue) {
    match r.sortTarget
    case KEY => if r.sortOrder == DESCEND then AtMost(b.key, a.key) else AtMost(a.key, b.key)
    case BY_VERSION => if r.sortOrder == DESCEND then b.version <= a.version else a.version <= b.version
    case BY_CREATE => if r.sortOrder == DESCEND then b.createRev <= a.createRev else a.createRev <= b.createRev
    case BY_MOD => if r.sortOrder == DESCEND then b.modRev <= a.modRev else a.modRev <= b.modRev
    case BY_VALUE => if r.sortOrder == DESCEND then AtMost(b.value, a.value) else AtMost(a.value, b.value)
  }

  /** Some bound that is set, not 0, shuts the pair out. */
  predicate Refused(r: Request, kv: KeyValue) {
    || (r.maxMod != 0 && kv.modRev > r.maxMod)
    || (r.minMod != 0 && kv.modRev < r.minMod)
    || (r.maxCreate != 0 && kv.createRev > r.maxCreate)
    || (r.minCreate != 0 && kv.createRev < r.minCreate)
  }

  /** A pair that no bound shuts out is found more often than it is returned. */
  ghost predicate LeftOut(r: Request, found: seq<KeyValue>, kvs: seq<KeyValue>, x: KeyValue) {
    x in found && !Refused(r, x) && multiset(kvs)[x] < multiset(found)[x]
  }

  predicate KeyOrdered(kvs: seq<KeyValue>) {
    forall i, j :: 0 <= i < j < |kvs| ==> AtMost(kvs[i].key, kvs[j].key)
  }

  /** The pairs returned are some of those found, none shut out, in order; those left out
      may all come after them; some are if and only if the flag says so, and then the limit
      is full. */
  ghost predicate Owed(r: Request, found: seq<KeyValue>, kvs: seq<KeyValue>, more: bool) {
    && (forall i, j :: 0 <= i < j < |kvs| ==> MayFollow(r, kvs[i], kvs[j]))
    && (forall x :: x in kvs ==> x in found && !Refused(r, x)) && multiset(kvs) <= multiset(found)
    && (forall x, y :: LeftOut(r, found, kvs, x) && y in kvs ==> MayFollow(r, y, x))
    && (more <==> exists x :: LeftOut(r, found, kvs, x))
    && (more ==> |kvs| == r.limit) && (r.limit > 0 ==> |kvs| <= r.limit)
  }

  lemma {:induction false} FilterCount(p: KeyValue -> bool, kvs: seq<KeyValue>, x: KeyValue)
    ensures multiset(Filter(p, kvs))[x] == if p(x) then multiset(kvs)[x] else 0
  {
    if |kvs| > 0 {
      var n := |kvs| - 1;
      FilterCount(p, kvs[..n], x);
      assert kvs == kvs[..n] + [kvs[n]];
    }
  }

  lemma {:induction false} FilterKeepsOrder(p: KeyValue -> bool, kvs: seq<KeyValue>)
    requires KeyOrdered(kvs)
    ensures KeyOrdered(Filter(p, kvs)) && forall x :: x in Filter(p, kvs) ==> x in kvs
  {
    if |kvs| > 0 {
      var n := |kvs| - 1;
      FilterKeepsOrder(p, kvs[..n]);
      var before := Filter(p, kvs[..n]);
      forall i | 0 <= i < |before| ensures AtMost(before[i].key, kvs[n].key) {
        assert before[i] in kvs[..n];
      }
    }
  }

  lemma AllInOrder(r: Request, found: seq<KeyValue>, all: seq<KeyValue>)
    requires Arranged(r, found, all) && (r.sortTarget != KEY || r.sortOrder != NONE || KeyOrdered(found))
    ensures forall i, j :: 0 <= i < j < |all| ==> MayFollow(r, all[i], all[j])
  {
    if OrderOf(r) == NONE {
      FilterKeepsOrder(kv => Passes(r, kv), found);
    } else {
      forall i, j | 0 <= i < j < |all| ensures MayFollow(r, all[i], all[j]) {
        CompareAntisymmetric(all[i].key, all[j].key);
        CompareAntisymmetric(all[i].value, all[j].value);
        assert !Before(r.sortTarget, OrderOf(r), all[j], all[i]);
      }
    }
  }

  lemma AllCounts(r: Request, found: seq<KeyValue>, all: seq<KeyValue>, x: KeyValue)
    requires Arranged(r, found, all)
    ensures multiset(all)[x] == if Refused(r, x) then 0 else multiset(found)[x]
  {
    FilterCount(kv => Passes(r, kv), found, x);
  }

  /** Of an arrangement cut in two, the rest is what is left out. */
  lemma RestIsLeftOut(r: Request, found: seq<KeyValue>, kvs: seq<KeyValue>, rest: seq<KeyValue>, x: KeyValue)
    requires Arranged(r, found, kvs + rest)
    ensures LeftOut(r, found, kvs, x) <==> x in rest
    ensures x in kvs ==> x in found && !Refused(r, x)
    ensures multiset(kvs)[x] <= multiset(found)[x]
  {
    AllCounts(r, found, kvs + rest, x);
    assert multiset(kvs + rest)[x] == multiset(kvs)[x] + multiset(rest)[x];
    assert x in rest <==> multiset(rest)[x] > 0;
    assert x in kvs <==> multiset(kvs)[x] > 0;
    assert x in found <==> multiset(found)[x] > 0;
  }

  lemma RestMayFollow(r: Request, kvs: seq<KeyValue>, rest: seq<KeyValue>, y: KeyValue, x: KeyValue)
    requires forall i, j :: 0 <= i < j < |kvs + rest| ==> MayFollow(r, (kvs + rest)[i], (kvs + rest)[j])
    requires y in kvs && x in rest
    ensures MayFollow(r, y, x)
  {
    var i :| 0 <= i < |kvs| && kvs[i] == y;
    var j :| 0 <= j < |rest| && rest[j] == x;
    assert (kvs + rest)[i] == y && (kvs + rest)[|kvs| + j] == x;
  }

  /** The pairs owed, in their fields. */
  lemma AnswersMean(r: Request, found: seq<KeyValue>, kvs: seq<KeyValue>, more: bool)
    requires Answers(r, found, kvs, more) && (r.sortTarget != KEY || r.sortOrder != NONE || KeyOrdered(found))
    ensures Owed(r, found, kvs, more)
  {
    var all :| Arranged(r, found, all) && kvs == Take(r.limit, all) && more == (0 < r.limit < |all|);
    AllInOrder(r, found, all);
    var rest := all[|kvs|..];
    assert all == kvs + rest;
    CutIsOwed(r, found, kvs, rest, more);
  }

  lemma CutIsOwed(r: Request, found: seq<KeyValue>, kvs: seq<KeyValue>, rest: seq<KeyValue>, more: bool)
    requires Arranged(r, found, kvs + rest) && (more <==> rest != [])
    requires forall i, j :: 0 <= i < j < |kvs + rest| ==> MayFollow(r, (kvs + rest)[i], (kvs + rest)[j])
    requires (more ==> |kvs| == r.limit) && (r.limit > 0 ==> |kvs| <= r.limit)
    ensures Owed(r, found, kvs, more)
  {
    forall x
      ensures LeftOut(r, found, kvs, x) <==> x in rest
      ensures x in kvs ==> x in found && !Refused(r, x)
      ensures multiset(kvs)[x] <= multiset(found)[x]
    {
      RestIsLeftOut(r, found, kvs, rest, x);
    }
    forall x, y | LeftOut(r, found, kvs, x) && y in kvs ensures MayFollow(r, y, x) {
      RestMayFollow(r, kvs, rest, y, x);
    }
    forall i, j | 0 <= i < j < |kvs| ensures MayFollow(r, kvs[i], kvs[j]) {
      assert (kvs + rest)[i] == kvs[i] && (kvs + rest)[j] == kvs[j];
    }
    if more {
      assert LeftOut(r, found, kvs, rest[0]);
    }
  }

  // ---------- How far the answer is determined ----------

  predicate Ties(target: SortTarget, a: KeyValue, b: KeyValue) {
    !Below(target, a, b) && !Below(target, b, a)
  }

  /** Two arrangements of the same pairs agree place by place up to ties, so the answer
      is determined up to the order among pairs that tie. */
  lemma {:induction false} ArrangementsTie(target: SortTarget, order: SortOrder, a: seq<KeyValue>, b: seq<KeyValue>)
    requires SortedBy(target, order, a) && SortedBy(target, order, b) && multiset(a) == multiset(b)
    ensures |a| == |b| && forall i :: 0 <= i < |a| ==> Ties(target, a[i], b[i])
  {
    assert |multiset(a)| == |a| && |multiset(b)| == |b|;
    forall i | 0 <= i < |a| ensures Ties(target, a[i], b[i]) {
      NotBefore(target, order, a, b, i);
      NotBefore(target, order, b, a, i);
    }
  }

  /** Were b[i] before a[i], the i + 1 first of b would all be among the i first of a. */
  lemma NotBefore(target: SortTarget, order: SortOrder, a: seq<KeyValue>, b: seq<KeyValue>, i: nat)
    requires SortedBy(target, order, a) && SortedBy(target, order, b) && multiset(a) == multiset(b)
    requires i < |a| == |b|
    ensures !Before(target, order, b[i], a[i])
  {
    if Before(target, order, b[i], a[i]) {
      var low := b[..i + 1];
      assert a == a[..i] + a[i..] && b == low + b[i + 1..];
      forall x | x in multiset(low) ensures multiset(low)[x] <= multiset(a[..i])[x] {
        assert x in low;
        var k :| 0 <= k <= i && b[k] == x;
        BeforeIsOrder(target, order, x, b[i], a[i]);
        forall m | i <= m < |a| ensures a[m] != x {
          BeforeIsOrder(target, order, a[i], a[m], b[i]);
          BeforeIsOrder(target, order, x, b[i], a[m]);
          BeforeIsOrder(target, order, b[i], a[i], a[m]);
        }
        assert multiset(a[i..])[x] == 0;
        assert multiset(a)[x] == multiset(a[..i])[x] + multiset(a[i..])[x];
        assert multiset(b)[x] == multiset(low)[x] + multiset(b[i + 1..])[x];
      }
      assert |multiset(low)| == i + 1 && |multiset(a[..i])| == i;
      SubMultisetSize(multiset(low), multiset(a[..i]));
    }
  }

  lemma SubMultisetSize(a: multiset<KeyValue>, b: multiset<KeyValue>)
    requires a <= b
    ensures |a| <= |b|
  {
    assert b == a + (b - a);
  }

  // ---------- Cut before sorted ----------

  predicate Distinct(kvs: seq<KeyValue>) {
    forall i, j :: 0 <= i < j < |kvs| ==> kvs[i] != kvs[j]
  }

  /** No pair left unfetched sorts below two of those fetched. */
  predicate CutIsHarmless(r: Request, found: seq<KeyValue>) {
    forall i, a, b :: r.limit < i < |found| && 0 <= a < b <= r.limit ==>
      !(Below(r.sortTarget, found[i], found[a]) && Below(r.sortTarget, found[i], found[b]))
  }

  lemma {:induction false} DistinctCount(kvs: seq<KeyValue>, x: KeyValue)
    requires Distinct(kvs)
    ensures multiset(kvs)[x] <= 1
  {
    if |kvs| > 0 {
      var n := |kvs| - 1;
      DistinctCount(kvs[..n], x);
      assert kvs == kvs[..n] + [kvs[n]];
      assert kvs[n] !in kvs[..n];
    }
  }

  lemma DistinctRearranged(kvs: seq<KeyValue>, all: seq<KeyValue>)
    requires Distinct(kvs) && multiset(all) == multiset(kvs)
    ensures Distinct(all) && |all| == |kvs| && forall x :: x in all <==> x in kvs
  {
    assert |multiset(all)| == |all| && |multiset(kvs)| == |kvs|;
    forall x ensures x in all <==> x in kvs {
      assert x in all <==> x in multiset(all);
      assert x in kvs <==> x in multiset(kvs);
    }
    forall i, j | 0 <= i < j < |all| ensures all[i] != all[j] {
      assert all == all[..j] + all[j..];
      assert all[i] in all[..j] && all[j] in all[j..];
      DistinctCount(kvs, all[j]);
    }
  }

  /** A sorted arrangement exists. */
  lemma {:induction false} Sorted(target: SortTarget, order: SortOrder, kvs: seq<KeyValue>) returns (sorted: seq<KeyValue>)
    ensures SortedBy(target, order, sorted) && multiset(sorted) == multiset(kvs)
    decreases |kvs|
  {
    if |kvs| == 0 {
      return kvs;
    }
    var m := |kvs| - 1;
    var s := Sorted(target, order, kvs[..m]);
    var n: nat := |s|;
    while n > 0 && Before(target, order, kvs[m], s[n - 1])
      invariant n <= |s| && forall k :: n <= k < |s| ==> Before(target, order, kvs[m], s[k])
    {
      n := n - 1;
    }
    InsertedSorted(target, order, s, kvs[m], n);
    assert s == s[..n] + s[n..] && kvs == kvs[..m] + [kvs[m]];
    sorted := s[..n] + [kvs[m]] + s[n..];
  }

  /** Without filters all pairs are arranged. */
  lemma ArrangedPlain(r: Request, kvs: seq<KeyValue>, all: seq<KeyValue>)
    requires CutBeforeSort(r)
    ensures Arranged(r, kvs, all) <==> SortedBy(r.sortTarget, ASCEND, all) && multiset(all) == multiset(kvs)
  {
    FilterAll(kv => Passes(r, kv), kvs);
  }

  /** Cutting before sorting gives an answer to the whole question if and only if no
      pair left unfetched sorts below two of those fetched. */
  lemma CutAgrees(r: Request, found: seq<KeyValue>, all: seq<KeyValue>)
    requires CutBeforeSort(r) && Distinct(found) && Arranged(r, Take(r.limit + 1, found), all)
    ensures Answers(r, found, Take(r.limit, all), 0 < r.limit < |all|) <==> CutIsHarmless(r, found)
  {
    if |found| > r.limit + 1 {
      var t := found[..r.limit + 1];
      ArrangedPlain(r, t, all);
      DistinctRearranged(t, all);
      if CutIsHarmless(r, found) {
        CutHarmless(r, found, all);
      } else {
        CutHarmful(r, found, all);
      }
    }
  }

  lemma CutHarmless(r: Request, found: seq<KeyValue>, all: seq<KeyValue>)
    requires CutBeforeSort(r) && CutIsHarmless(r, found) && |found| > r.limit + 1 && |all| == r.limit + 1
    requires SortedBy(r.sortTarget, ASCEND, all) && Distinct(all)
    requires multiset(all) == multiset(found[..r.limit + 1]) && forall x :: x in all ==> x in found[..r.limit + 1]
    ensures Answers(r, found, all[..r.limit], true)
  {
    var l, target := r.limit, r.sortTarget;
    var left := [all[l]] + found[l + 1..];
    var rest := Sorted(target, ASCEND, left);
    forall x | x in rest ensures x in left {
      assert x in multiset(rest);
      assert x in multiset(left);
    }
    forall x, p | x in rest && 0 <= p < l ensures !Below(target, x, all[..l][p]) {
      LeftAbove(r, found, all, x, p);
    }
    SortedJoin(target, all[..l], rest);
    WholeAnswers(r, found, all, rest);
  }

  lemma WholeAnswers(r: Request, found: seq<KeyValue>, all: seq<KeyValue>, rest: seq<KeyValue>)
    requires CutBeforeSort(r) && |found| > r.limit + 1 && |all| == r.limit + 1
    requires multiset(all) == multiset(found[..r.limit + 1])
    requires multiset(rest) == multiset([all[r.limit]] + found[r.limit + 1..])
    requires SortedBy(r.sortTarget, ASCEND, all[..r.limit] + rest)
    ensures Answers(r, found, all[..r.limit], true)
  {
    var whole := all[..r.limit] + rest;
    WholeMultiset(found, all, rest, r.limit);
    ArrangedPlain(r, found, whole);
    assert Take(r.limit, whole) == all[..r.limit];
  }

  lemma WholeMultiset(found: seq<KeyValue>, all: seq<KeyValue>, rest: seq<KeyValue>, l: nat)
    requires l + 1 < |found| && |all| == l + 1
    requires multiset(all) == multiset(found[..l + 1])
    requires multiset(rest) == multiset([all[l]] + found[l + 1..])
    ensures multiset(all[..l] + rest) == multiset(found) && |all[..l] + rest| == |found|
  {
    assert all == all[..l] + [all[l]] && found == found[..l + 1] + found[l + 1..];
    assert multiset(all[..l] + rest) == multiset(found);
    assert |multiset(all[..l] + rest)| == |all[..l] + rest| && |multiset(found)| == |found|;
  }

  lemma LeftAbove(r: Request, found: seq<KeyValue>, all: seq<KeyValue>, x: KeyValue, p: nat)
    requires CutBeforeSort(r) && CutIsHarmless(r, found) && |found| > r.limit + 1 && |all| == r.limit + 1
    requires SortedBy(r.sortTarget, ASCEND, all) && Distinct(all) && p < r.limit
    requires forall x :: x in all ==> x in found[..r.limit + 1]
    requires x in [all[r.limit]] + found[r.limit + 1..]
    ensures !Below(r.sortTarget, x, all[p])
  {
    if x != all[r.limit] {
      var i :| r.limit < i < |found| && found[i] == x;
      UnfetchedAbove(r, found, all, i, p);
    }
  }

  lemma SortedJoin(target: SortTarget, a: seq<KeyValue>, b: seq<KeyValue>)
    requires SortedBy(target, ASCEND, a) && SortedBy(target, ASCEND, b)
    requires forall x, p :: x in b && 0 <= p < |a| ==> !Below(target, x, a[p])
    ensures SortedBy(target, ASCEND, a + b)
  {
    forall j | 0 <= j < |b| ensures b[j] in b {
    }
  }

  lemma UnfetchedAbove(r: Request, found: seq<KeyValue>, all: seq<KeyValue>, i: nat, p: nat)
    requires CutBeforeSort(r) && CutIsHarmless(r, found) && r.limit < i < |found| && |all| == r.limit + 1
    requires SortedBy(r.sortTarget, ASCEND, all) && Distinct(all) && p < r.limit
    requires forall x :: x in all ==> x in found[..r.limit + 1]
    ensures !Below(r.sortTarget, found[i], all[p])
  {
    var l, target := r.limit, r.sortTarget;
    assert all[p] in all && all[l] in all;
    var a :| 0 <= a <= l && found[a] == all[p];
    var b :| 0 <= b <= l && found[b] == all[l];
    BeforeIsOrder(target, ASCEND, all[p], all[l], found[i]);
    BeforeIsOrder(target, ASCEND, all[l], found[i], all[p]);
    var lo, hi := if a < b then a else b, if a < b then b else a;
    assert lo < hi;
    assert !(Below(target, found[i], found[lo]) && Below(target, found[i], found[hi]));
  }

  lemma CutHarmful(r: Request, found: seq<KeyValue>, all: seq<KeyValue>)
    requires CutBeforeSort(r) && Distinct(found) && |found| > r.limit + 1 && |all| == r.limit + 1
    requires forall x :: x in all <==> x in found[..r.limit + 1]
    requires !CutIsHarmless(r, found)
    ensures !Answers(r, found, all[..r.limit], true)
  {
    var i, m := FindBelow(r, found, all);
    UnfetchedIsNew(found, all, r.limit, i);
    forall whole | Arranged(r, found, whole) ensures Take(r.limit, whole) != all[..r.limit] {
      WholeDiffers(r, found, all, whole, i, m);
    }
  }

  /** An unfetched pair below one that is returned. */
  lemma FindBelow(r: Request, found: seq<KeyValue>, all: seq<KeyValue>) returns (i: nat, m: nat)
    requires CutBeforeSort(r) && Distinct(found) && |found| > r.limit + 1 && |all| == r.limit + 1
    requires forall x :: x in all <==> x in found[..r.limit + 1]
    requires !CutIsHarmless(r, found)
    ensures r.limit < i < |found| && m < r.limit && Below(r.sortTarget, found[i], all[m])
  {
    var l, target := r.limit, r.sortTarget;
    var i', a, b :| l < i' < |found| && 0 <= a < b <= l && Below(target, found[i'], found[a]) && Below(target, found[i'], found[b]);
    var p := PlaceOf(found[..l + 1], all, a);
    var q := PlaceOf(found[..l + 1], all, b);
    i, m := i', if p < l then p else q;
  }

  lemma PlaceOf(t: seq<KeyValue>, all: seq<KeyValue>, a: nat) returns (p: nat)
    requires a < |t| && forall x :: x in all <==> x in t
    ensures p < |all| && all[p] == t[a]
  {
    assert t[a] in all;
    p :| p < |all| && all[p] == t[a];
  }

  lemma UnfetchedIsNew(found: seq<KeyValue>, all: seq<KeyValue>, l: nat, i: nat)
    requires Distinct(found) && l < i < |found| && |all| == l + 1 && forall x :: x in all <==> x in found[..l + 1]
    ensures forall k :: 0 <= k < l ==> all[k] != found[i]
  {
    forall k | 0 <= k < l ensures all[k] != found[i] {
      assert all[k] in all;
    }
  }

  lemma WholeDiffers(r: Request, found: seq<KeyValue>, all: seq<KeyValue>, whole: seq<KeyValue>, i: nat, m: nat)
    requires CutBeforeSort(r) && Distinct(found) && |found| > r.limit + 1 && |all| == r.limit + 1
    requires Arranged(r, found, whole) && i < |found| && m < r.limit && Below(r.sortTarget, found[i], all[m])
    requires forall k :: 0 <= k < r.limit ==> all[k] != found[i]
    ensures Take(r.limit, whole) != all[..r.limit]
  {
    var l := r.limit;
    ArrangedPlain(r, found, whole);
    DistinctRearranged(found, whole);
    assert found[i] in whole;
    if whole[..l] == all[..l] {
      assert whole[..l][m] == all[m];
      NotAmongFirst(r.sortTarget, found, whole, i, l, m);
    }
  }

  /** A pair that is not among the first `l` of a sorted arrangement sorts below none of
      them. */
  lemma NotAmongFirst(target: SortTarget, found: seq<KeyValue>, whole: seq<KeyValue>, i: nat, l: nat, p: nat)
    requires i < |found| && p < l <= |whole| && SortedBy(target, ASCEND, whole) && found[i] in whole
    requires forall k :: 0 <= k < l ==> whole[..l][k] != found[i]
    ensures !Below(target, found[i], whole[p])
  {
    forall k | 0 <= k < l ensures whole[k] != found[i] {
      assert whole[..l][k] == whole[k];
    }
    var m :| 0 <= m < |whole| && whole[m] == found[i];
  }

  /** Three pairs whose values fall as their keys rise, limit 1: the fetch stops at the
      second pair, and the least value is the third. */
  lemma CutCanDiffer() returns (r: Request, found: seq<KeyValue>, kvs: seq<KeyValue>)
    ensures CutBeforeSort(r) && Distinct(found) && Answers(r, Take(r.limit + 1, found), kvs, true)
    ensures !Answers(r, found, kvs, true)
  {
    var a, b, c := KeyValue([1], [3], 2, 2, 1, 0), KeyValue([2], [2], 3, 3, 1, 0), KeyValue([3], [1], 4, 4, 1, 0);
    r := Request(1, NONE, BY_VALUE, 0, 0, 0, 0, false, false);
    found, kvs := [a, b, c], [b];
    assert Below(BY_VALUE, c, a) && Below(BY_VALUE, c, b) && Below(BY_VALUE, b, a);
    BeforeIsOrder(BY_VALUE, ASCEND, b, a, b);
    var t := Take(2, found);
    assert t == [a, b];
    ArrangedPlain(r, t, [b, a]);
    assert Take(1, [b, a]) == [b];
    CutAgrees(r, found, [b, a]);
    assert found[2] == c && found[0] == a && found[1] == b;
    assert !CutIsHarmless(r, found);
  }
}
