/** The lease queue: a binary heap of shared item objects that know their own
    position, following Go's container/heap, and the notifier that adds a map from
    lease id to item. */
module LeaseQueues {
  import opened HeapOrder

  type LeaseID = int

  class LeaseWithTime {
    const id: LeaseID
    var time: int
    var index: int

    constructor (id: LeaseID, time: int)
      ensures this.id == id && this.time == time
    {
      this.id, this.time, index := id, time, 0;
    }
  }

  class LeaseQueue {
    var items: seq<LeaseWithTime>

    constructor ()
      ensures items == []
    {
      items := [];
    }

    /** Every item's index field is its position, so items are distinct. */
    ghost predicate Indexed()
      reads this, items
    {
      forall i :: 0 <= i < |items| ==> items[i].index == i
    }

    /** The items are indexed and due at the times `ts`. */
    ghost predicate Shows(ts: seq<int>)
      reads this, items
    {
      Indexed() && |ts| == |items| && forall i :: 0 <= i < |items| ==> items[i].time == ts[i]
    }

    /** A min-heap on time. */
    ghost predicate Valid()
      reads this, items
    {
      Indexed() && forall j: nat {:trigger Parent(j)} :: 0 < j < |items| ==> items[Parent(j)].time <= items[j].time
    }

    /** Valid but for the item at `k`, whose time was changed. */
    ghost predicate ValidExcept(k: nat)
      reads this, items
    {
      && Indexed()
      && (forall j: nat {:trigger Parent(j)} :: 0 < j < |items| && Parent(j) != k && j != k ==> items[Parent(j)].time <= items[j].time)
      && (forall j: nat {:trigger Parent(j)} :: 0 < j < |items| && Parent(j) == k && k > 0 ==> items[Parent(k)].time <= items[j].time)
    }

    /** The same items, perhaps in another order. */
    twostate predicate Rearranged()
      reads this
    {
      |items| == |old(items)| && multiset(items) == old(multiset(items))
    }

    twostate lemma SameMembers()
      requires Rearranged()
      ensures forall x :: x in items <==> x in old(items)
    {
      forall x ensures x in items <==> x in old(items) {
        assert x in items <==> x in multiset(items);
        assert x in old(items) <==> x in old(multiset(items));
      }
    }

    ghost method Snapshot() returns (ts: seq<int>)
      requires Indexed()
      ensures Shows(ts)
    {
      ts := [];
      while |ts| < |items|
        invariant |ts| <= |items| && forall i :: 0 <= i < |ts| ==> ts[i] == items[i].time
      {
        ts := ts + [items[|ts|].time];
      }
    }

    method Swap(i: nat, j: nat, ghost ts: seq<int>)
      requires Shows(ts) && i < |items| && j < |items|
      modifies this, (set x | x in items)`index
      ensures Shows(Exchange(ts, i, j)) && Rearranged()
      ensures items == old(items)[i := old(items[j])][j := old(items[i])]
    {
      items := items[i := items[j]][j := items[i]];
      items[i].index := i;
      items[j].index := j;
    }

    /** heap.up: move item `j0` towards the root. */
    method Up(j0: nat, ghost ts0: seq<int>)
      requires Shows(ts0) && j0 < |items| && HeapUp(ts0, j0)
      modifies this, (set x | x in items)`index
      ensures Valid() && Rearranged()
    {
      var j: nat := j0;
      ghost var ts := ts0;
      while true
        invariant j < |items| && Shows(ts) && Rearranged()
        invariant HeapUp(ts, j)
        decreases j
      {
        var i := Parent(j);
        if i == j || !(items[j].time < items[i].time) {
          break;
        }
        SameMembers();
        UpStep(ts, j);
        Swap(i, j, ts);
        ts := Exchange(ts, i, j);
        j := i;
      }
      UpDone(ts, j);
      HeapIsValid(ts);
    }

    lemma HeapIsValid(ts: seq<int>)
      requires Shows(ts)
      ensures Heap(ts) <==> Valid()
      ensures forall k: nat :: ValidExcept(k) <==> HeapExcept(ts, 0, |ts|, k)
    {
    }

    /** The child of `i` that is due first; the left one when they tie. */
    method LeastChild(i: nat, n: nat, ghost ts: seq<int>) returns (j: nat)
      requires Shows(ts) && n <= |items| && 2 * i + 1 < n
      ensures i < j < n && Parent(j) == i
      ensures forall c: nat {:trigger Parent(c)} :: 0 < c < n && Parent(c) == i ==> ts[j] <= ts[c]
    {
      var j1 := 2 * i + 1;
      j := j1;
      var j2 := j1 + 1;
      if j2 < n && items[j2].time < items[j1].time {
        j := j2;
      }
    }

    /** heap.down: move item `i0` towards the leaves among the first `n` items. */
    method Down(i0: nat, n: nat, ghost lo: nat, ghost ts0: seq<int>) returns (moved: bool, ghost ts: seq<int>)
      requires Shows(ts0) && lo <= i0 < |items| && n <= |items|
      requires HeapExcept(ts0, lo, n, i0)
      modifies this, (set x | x in items)`index
      ensures Shows(ts) && Rearranged()
      ensures items[n..] == old(items[n..])
      ensures moved || i0 == 0 || Parent(i0) < lo ==> HeapFrom(ts, lo, n)
      ensures !moved ==> items == old(items) && ts == ts0
      ensures !moved && n == |items| && lo == 0 ==> HeapUp(ts, i0)
    {
      var i := i0;
      ts := ts0;
      while true
        invariant i0 <= i < |items| && Shows(ts) && Rearranged()
        invariant items[n..] == old(items[n..])
        invariant i == i0 ==> items == old(items) && ts == ts0
        invariant i == i0 ==> HeapExcept(ts, lo, n, i)
        invariant i > i0 ==> HeapDown(ts, lo, n, i)
        decreases |items| - i
      {
        if 2 * i + 1 >= n {
          break;
        }
        var j := LeastChild(i, n, ts);
        if !(items[j].time < items[i].time) {
          break;
        }
        SameMembers();
        DownStep(ts, lo, n, i, j);
        Swap(i, j, ts);
        ts := Exchange(ts, i, j);
        i := j;
      }
      moved := i > i0;
      DownDone(ts, lo, n, i);
    }

    method Fix(i: nat)
      requires i < |items| && ValidExcept(i)
      modifies this, (set x | x in items)`index
      ensures Valid() && Rearranged()
    {
      ghost var ts := Snapshot();
      HeapIsValid(ts);
      var moved;
      moved, ts := Down(i, |items|, 0, ts);
      if !moved {
        Up(i, ts);
      } else {
        HeapIsValid(ts);
      }
    }

    method Push(item: LeaseWithTime)
      requires Valid() && item !in items
      modifies this, (set x | x in items)`index, item`index
      ensures Valid() && multiset(items) == old(multiset(items)) + multiset{item}
    {
      item.index := |items|;
      items := items + [item];
      ghost var ts := Snapshot();
      Up(|items| - 1, ts);
    }

    /** The first half of heap.Pop: exchange the first item with the last and sift
        the new first item down among the others. */
    method SinkFirst()
      requires Valid() && |items| > 0
      modifies this, (set x | x in items)`index
      ensures Indexed() && Rearranged() && items[|items| - 1] == old(items[0])
      ensures forall j: nat {:trigger Parent(j)} :: 0 < j < |items| - 1 ==> items[Parent(j)].time <= items[j].time
    {
      ghost var ts := Snapshot();
      HeapIsValid(ts);
      PopStep(ts);
      var n := |items| - 1;
      Swap(0, n, ts);
      SameMembers();
      ghost var last := items[n..];
      assert last[0] == old(items[0]);
      var _, _ := Down(0, n, 0, Exchange(ts, 0, n));
      assert items[n] == items[n..][0];
    }

    /** Remove and return a least item; its index becomes -1. */
    method Pop() returns (item: LeaseWithTime)
      requires Valid() && |items| > 0
      modifies this, (set x | x in items)`index
      ensures Valid() && item == old(items[0]) && item.index == -1
      ensures multiset(items) + multiset{item} == old(multiset(items))
      ensures forall x :: x in old(items) ==> item.time <= x.time
    {
      LeastTime();
      SinkFirst();
      SameMembers();
      var n := |items| - 1;
      item := items[n];
      assert items == items[..n] + [item];
      item.index := -1;
      items := items[..n];
    }

    lemma LeastTime()
      requires Valid()
      ensures forall x :: x in items ==> items[0].time <= x.time
    {
      forall k | 0 <= k < |items| ensures items[0].time <= items[k].time {
        LeastAt(k);
      }
    }

    lemma {:induction false} LeastAt(j: nat)
      requires Valid() && j < |items|
      ensures items[0].time <= items[j].time
      decreases j
    {
      if j > 0 {
        LeastAt(Parent(j));
      }
    }

    method Init()
      requires Indexed()
      modifies this, (set x | x in items)`index
      ensures Valid() && Rearranged()
    {
      var n := |items|;
      var i: nat := n / 2;
      ghost var ts := Snapshot();
      while i > 0
        invariant i <= n == |items|
        invariant Shows(ts) && Rearranged()
        invariant HeapFrom(ts, i, n)
      {
        i := i - 1;
        SameMembers();
        var moved;
        moved, ts := Down(i, n, i, ts);
      }
      HeapIsValid(ts);
    }
  }
}
