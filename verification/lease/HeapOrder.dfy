/** Binary heap order on a sequence of times, and what one exchange of a sift does
    to it. */
module HeapOrder {

  function Parent(j: nat): nat {
    if j == 0 then 0 else (j - 1) / 2
  }

  function Exchange(ts: seq<int>, i: nat, j: nat): seq<int>
    requires i < |ts| && j < |ts|
  {
    ts[i := ts[j]][j := ts[i]]
  }

  /** Among the first `n` times, every edge below a parent from `lo` on is in order. */
  predicate HeapFrom(ts: seq<int>, lo: nat, n: nat)
    requires n <= |ts|
  {
    forall j: nat {:trigger Parent(j)} :: 0 < j < n && Parent(j) >= lo ==> ts[Parent(j)] <= ts[j]
  }

  predicate Heap(ts: seq<int>) {
    HeapFrom(ts, 0, |ts|)
  }

  /** The children of `k` fit under its parent. */
  predicate Bridged(ts: seq<int>, lo: nat, n: nat, k: nat)
    requires n <= |ts|
  {
    forall j: nat {:trigger Parent(j)} :: 0 < j < n && Parent(j) == k && k > 0 && Parent(k) >= lo ==> ts[Parent(k)] <= ts[j]
  }

  /** As HeapFrom, but item `k` may be out of place towards its parent and children. */
  predicate HeapExcept(ts: seq<int>, lo: nat, n: nat, k: nat)
    requires n <= |ts|
  {
    && (forall j: nat {:trigger Parent(j)} :: 0 < j < n && Parent(j) >= lo && Parent(j) != k && j != k ==> ts[Parent(j)] <= ts[j])
    && Bridged(ts, lo, n, k)
  }

  /** Only the edge above `k` may be out of order. */
  predicate HeapUp(ts: seq<int>, k: nat) {
    && (forall j: nat {:trigger Parent(j)} :: 0 < j < |ts| && j != k ==> ts[Parent(j)] <= ts[j])
    && Bridged(ts, 0, |ts|, k)
  }

  /** Only the edges below `k` may be out of order. */
  predicate HeapDown(ts: seq<int>, lo: nat, n: nat, k: nat)
    requires n <= |ts|
  {
    && (forall j: nat {:trigger Parent(j)} :: 0 < j < n && Parent(j) >= lo && Parent(j) != k ==> ts[Parent(j)] <= ts[j])
    && Bridged(ts, lo, n, k)
  }

  lemma UpStep(ts: seq<int>, j: nat)
    requires 0 < j < |ts| && HeapUp(ts, j) && ts[j] < ts[Parent(j)]
    ensures HeapUp(Exchange(ts, Parent(j), j), Parent(j))
  {
  }

  lemma UpDone(ts: seq<int>, j: nat)
    requires j < |ts| && HeapUp(ts, j) && (j == 0 || ts[Parent(j)] <= ts[j])
    ensures Heap(ts)
  {
  }

  lemma DownStep(ts: seq<int>, lo: nat, n: nat, i: nat, j: nat)
    requires n <= |ts| && lo <= i && i < j < n && Parent(j) == i && ts[j] < ts[i]
    requires forall c: nat {:trigger Parent(c)} :: 0 < c < n && Parent(c) == i ==> ts[j] <= ts[c]
    requires HeapExcept(ts, lo, n, i)
    ensures HeapDown(Exchange(ts, i, j), lo, n, j)
  {
  }

  lemma DownDone(ts: seq<int>, lo: nat, n: nat, i: nat)
    requires n <= |ts| && lo <= i
    requires forall c: nat {:trigger Parent(c)} :: 0 < c < n && Parent(c) == i ==> ts[i] <= ts[c]
    ensures HeapDown(ts, lo, n, i) ==> HeapFrom(ts, lo, n)
    ensures HeapExcept(ts, lo, n, i) && n == |ts| && lo == 0 ==> HeapUp(ts, i)
    ensures HeapExcept(ts, lo, n, i) && (i == 0 || Parent(i) < lo) ==> HeapFrom(ts, lo, n)
  {
  }

  /** With the last time moved to the root, only the root is out of place among the
      others. */
  lemma PopStep(ts: seq<int>)
    requires |ts| > 0 && Heap(ts)
    ensures HeapExcept(Exchange(ts, 0, |ts| - 1), 0, |ts| - 1, 0)
  {
  }
}
