/** The expiry notifier of the lessor: the lease heap plus a map from lease id to
    item, with at most one item per lease. */
module LeaseNotifiers {
  import opened HeapOrder
  import opened LeaseQueues

  class LeaseExpiredNotifier {
    var m: map<LeaseID, LeaseWithTime>
    const queue: LeaseQueue

    constructor ()
      ensures fresh(queue) && queue.items == [] && m == map[] && Valid()
    {
      m := map[];
      queue := new LeaseQueue();
    }

    /** The map holds exactly the queued items, one per lease. */
    ghost predicate Consistent()
      reads this, queue
    {
      && (forall id :: id in m ==> m[id].id == id && m[id] in queue.items)
      && (forall x :: x in queue.items ==> x.id in m && m[x.id] == x)
      && |m| == |queue.items|
    }

    ghost predicate Valid()
      reads this, queue, queue.items
    {
      queue.Valid() && Consistent()
    }

    ghost function Items(): set<LeaseWithTime>
      reads queue
    {
      set x | x in queue.items
    }

    /** When each registered lease is due. */
    ghost function Times(): map<LeaseID, int>
      reads this, m.Values
    {
      map id | id in m :: m[id].time
    }

    method Len() returns (n: nat)
      requires Consistent()
      ensures n == |queue.items| == |Times()|
    {
      n := |m|;
      assert Times().Keys == m.Keys;
      assert |m| == |m.Keys| && |Times()| == |Times().Keys|;
    }

    /** Changing the time of one queued item leaves only that item out of place. */
    twostate lemma Bumped(x: LeaseWithTime)
      requires old(queue.Valid()) && queue.items == old(queue.items) && x in queue.items
      requires forall y :: y in queue.items && y != x ==> y.time == old(y.time)
      requires forall y :: y in queue.items ==> y.index == old(y.index)
      ensures queue.ValidExcept(x.index)
    {
      var k := x.index;
      var items := queue.items;
      assert items[k] == x;
      forall j: nat | 0 < j < |items| && Parent(j) == k && k > 0 ensures items[Parent(k)].time <= items[j].time {
        assert old(items[Parent(k)].time) <= old(items[k].time) <= old(items[j].time);
      }
    }

    /** Give a queued item a time and put it in place. */
    method Retime(x: LeaseWithTime, time: int)
      requires Consistent() && x in queue.items
      requires queue.Valid() || (x.index >= 0 && queue.ValidExcept(x.index))
      modifies queue, queue.items
      ensures Valid() && Times() == old(Times())[x.id := time]
      ensures forall y :: y in queue.items <==> y in old(queue.items)
    {
      x.time := time;
      if old(queue.Valid()) {
        Bumped(x);
      }
      assert queue.items[x.index] == x;
      assert forall id :: id in m && id != x.id ==> m[id] != x;
      label bumped:
      queue.Fix(x.index);
      queue.SameMembers@bumped();
      TimesAfter(x);
    }

    twostate lemma TimesAfter(x: LeaseWithTime)
      requires m == old(m) && x.id in m && m[x.id] == x
      requires forall id :: id in m && id != x.id ==> m[id].time == old(m[id].time)
      ensures Times() == old(Times())[x.id := x.time]
    {
      var now, was := Times(), old(Times());
      assert now.Keys == was.Keys == m.Keys;
      forall id | id in m ensures now[id] == was[x.id := x.time][id] {
        if id != x.id {
          assert was[id] == old(m[id].time);
        }
      }
    }

    method Enqueue(item: LeaseWithTime)
      requires Valid() && item.id !in m
      modifies this, queue, queue.items, item`index
      ensures Valid() && Times() == old(Times())[item.id := item.time]
      ensures forall y :: y in queue.items <==> y in old(queue.items) || y == item
    {
      label before:
      queue.Push(item);
      AddedMember@before(item);
      m := m[item.id := item];
    }

    /** Insert the item, or give the item already queued for its lease the new time.
        The time may also have been written into the queued item itself before the
        call. */
    method RegisterOrUpdate(item: LeaseWithTime)
      requires Consistent()
      requires queue.Valid() || (item in queue.items && item.index >= 0 && queue.ValidExcept(item.index))
      modifies this, queue, queue.items, item`index
      ensures Valid() && Times() == old(Times())[item.id := old(item.time)]
      ensures forall x :: x in queue.items ==> x in old(queue.items) || x == item
    {
      if item.id in m {
        Retime(m[item.id], item.time);
      } else {
        Enqueue(item);
      }
    }

    twostate lemma AddedMember(new item: LeaseWithTime)
      requires multiset(queue.items) == old(multiset(queue.items)) + multiset{item}
      ensures |queue.items| == |old(queue.items)| + 1
      ensures forall x :: x in queue.items <==> x in old(queue.items) || x == item
    {
      assert |multiset(queue.items)| == |queue.items|;
      assert |old(multiset(queue.items))| == |old(queue.items)|;
      forall x ensures x in queue.items <==> x in old(queue.items) || x == item {
        assert x in queue.items <==> x in multiset(queue.items);
        assert x in old(queue.items) <==> x in old(multiset(queue.items));
      }
    }

    /** Remove and return an item that is due first. */
    method Unregister() returns (item: LeaseWithTime)
      requires Valid() && |queue.items| > 0
      modifies this, queue, queue.items
      ensures Valid() && item == old(queue.items[0])
      ensures Times() == old(Times()) - {item.id}
      ensures forall id :: id in old(Times()) ==> item.time <= old(Times())[id]
      ensures forall x :: x in queue.items ==> x in old(queue.items)
      ensures |queue.items| == |old(queue.items)| - 1
    {
      label before:
      item := queue.Pop();
      RemovedMember@before(item);
      m := m - {item.id};
    }

    twostate lemma RemovedMember(item: LeaseWithTime)
      requires old(queue.Valid()) && old(Consistent()) && queue.Indexed() && m == old(m)
      requires multiset(queue.items) + multiset{item} == old(multiset(queue.items))
      requires item.index == -1
      ensures |queue.items| == |old(queue.items)| - 1 && item in old(queue.items)
      ensures forall x :: x in queue.items <==> x in old(queue.items) && x != item
    {
      assert |multiset(queue.items)| == |queue.items|;
      assert |old(multiset(queue.items))| == |old(queue.items)|;
      assert item in old(multiset(queue.items));
      forall x ensures x in queue.items <==> x in old(queue.items) && x != item {
        assert x in queue.items <==> x in multiset(queue.items);
        assert x in old(queue.items) <==> x in old(multiset(queue.items));
        if x in queue.items {
          var i :| 0 <= i < |queue.items| && queue.items[i] == x;
          assert x.index == i;
        }
      }
    }

    /** The item due first, or null when nothing is registered. */
    method Poll() returns (item: LeaseWithTime?)
      requires Valid()
      ensures item == null <==> Times() == map[]
      ensures item != null ==> |queue.items| > 0 && item == queue.items[0] && item.id in m && m[item.id] == item
      ensures item != null ==> forall id :: id in Times() ==> item.time <= Times()[id]
    {
      var n := Len();
      if n == 0 {
        return null;
      }
      queue.LeastTime();
      item := queue.items[0];
      assert item.id in Times();
    }

    /** Rebuild heap and map from the queued items. */
    method Init()
      requires queue.Indexed()
      requires forall x, y :: x in queue.items && y in queue.items && x.id == y.id ==> x == y
      modifies this, queue, queue.items
      ensures Valid()
    {
      queue.Init();
      queue.SameMembers();
      FillMap();
    }

    method FillMap()
      requires queue.Valid()
      requires forall i, j :: 0 <= i < j < |queue.items| ==> queue.items[i].id != queue.items[j].id
      modifies this
      ensures Consistent()
    {
      m := map[];
      for i := 0 to |queue.items|
        invariant |m| == i
        invariant forall id :: id in m ==> m[id].id == id && 0 <= m[id].index < i && queue.items[m[id].index] == m[id]
        invariant forall k :: 0 <= k < i ==> queue.items[k].id in m && m[queue.items[k].id] == queue.items[k]
      {
        var item := queue.items[i];
        m := m[item.id := item];
      }
    }
  }
}
