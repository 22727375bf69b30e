/** The lessor: which leases live, when they expire on the primary, and the sweep
    that finds the expired ones. Time is an integer clock given to each call. */
module Lessors {
  import opened HeapOrder
  import opened LeaseQueues
  import opened LeaseNotifiers
  import opened Spread
  import opened Collections

  const NO_LEASE: LeaseID := 0
  const MAX_DURATION: int := 0x7fff_ffff_ffff_ffff
  const MAX_LEASE_TTL: int := 9_000_000_000

  datatype Error = None | ErrLeaseNotFound | ErrLeaseTTLTooLarge | ErrLeaseExists | ErrNotPrimary

  /** A lease expires at `expiry`, never when that is Forever. */
  datatype Expiry = Forever | At(time: int)

  class Lease {
    const id: LeaseID
    const ttl: int
    var remainingTTL: int
    var expiry: Expiry

    constructor (id: LeaseID, ttl: int)
      ensures this.id == id && this.ttl == ttl && remainingTTL == 0 && expiry == Forever
    {
      this.id, this.ttl, remainingTTL, expiry := id, ttl, 0, Forever;
    }

    /** The checkpointed remainder if there is one, else the full time to live. */
    function RemainingTTL(): int
      reads this
    {
      if remainingTTL > 0 then remainingTTL else ttl
    }

    function Remaining(now: int): int
      reads this
    {
      if expiry.At? then expiry.time - now else MAX_DURATION
    }

    predicate Expired(now: int)
      reads this
    {
      expiry.At? && expiry.time <= now
    }

    method Refresh(now: int, extend: int)
      modifies `expiry
      ensures expiry == At(now + extend + RemainingTTL() * SECOND)
    {
      expiry := At(now + extend + RemainingTTL() * SECOND);
    }
  }

  predicate Ordered(leases: seq<Lease>, now: int)
    reads leases
  {
    forall i, j :: 0 <= i < j < |leases| ==> leases[i].Remaining(now) <= leases[j].Remaining(now)
  }

  /** Sort by remaining time. */
  method SortByExpiry(leases: seq<Lease>, now: int) returns (sorted: seq<Lease>)
    requires Distinct(leases)
    ensures Distinct(sorted) && Ordered(sorted, now) && |sorted| == |leases|
    ensures forall l :: l in sorted <==> l in leases
  {
    sorted := [];
    for i := 0 to |leases|
      invariant Distinct(sorted) && Ordered(sorted, now) && |sorted| == i
      invariant forall l :: l in sorted <==> l in leases[..i]
    {
      var l := leases[i];
      var k := 0;
      while k < |sorted| && sorted[k].Remaining(now) <= l.Remaining(now)
        invariant k <= |sorted|
        invariant forall j :: 0 <= j < k ==> sorted[j].Remaining(now) <= l.Remaining(now)
      {
        k := k + 1;
      }
      InsertedAt(sorted, k, l, now);
      sorted := sorted[..k] + [l] + sorted[k..];
    }
  }

  lemma InsertedAt(s: seq<Lease>, k: nat, l: Lease, now: int)
    requires k <= |s| && Distinct(s) && l !in s && Ordered(s, now)
    requires forall j :: 0 <= j < k ==> s[j].Remaining(now) <= l.Remaining(now)
    requires k < |s| ==> l.Remaining(now) <= s[k].Remaining(now)
    ensures Ordered(s[..k] + [l] + s[k..], now)
    ensures var t := s[..k] + [l] + s[k..]; Distinct(t) && forall x :: x in t <==> x in s || x == l
  {
  }

  class Lessor {
    var leaseMap: map<LeaseID, Lease>
    var notifier: LeaseExpiredNotifier
    var primary: bool
    const minLeaseTTL: int
    const retryInterval: int
    const hasCheckpointer: bool

    /** When each registered lease is due, registered leases being live or not. */
    ghost function Times(): map<LeaseID, int>
      reads this, notifier, notifier.m.Values
    {
      notifier.Times()
    }

    /** When each live lease expires. */
    ghost function Expiries(): map<LeaseID, Expiry>
      reads this, leaseMap.Values
    {
      map id | id in leaseMap :: leaseMap[id].expiry
    }

    ghost predicate Keyed()
      reads this
    {
      forall id :: id in leaseMap ==> leaseMap[id].id == id
    }

    ghost predicate Valid()
      reads this, notifier, notifier.queue, notifier.queue.items, notifier.m.Values, leaseMap.Values
    {
      && notifier.Valid()
      && Keyed()
      && Tracked(primary, Expiries(), Times())
    }

    constructor (minLeaseTTL: int, retryInterval: int, hasCheckpointer: bool)
      ensures Valid() && leaseMap == map[] && !primary
      ensures fresh(notifier) && fresh(notifier.queue) && notifier.Items() == {}
      ensures this.retryInterval == retryInterval && this.minLeaseTTL == minLeaseTTL
      ensures this.hasCheckpointer == hasCheckpointer
    {
      leaseMap, primary := map[], false;
      this.minLeaseTTL, this.retryInterval, this.hasCheckpointer := minLeaseTTL, retryInterval, hasCheckpointer;
      notifier := new LeaseExpiredNotifier();
    }

    /** Items the notifier did not hold before are new. */
    twostate predicate OnlyFreshItems()
      reads this, notifier, notifier.queue
    {
      notifier == old(notifier) && notifier.queue == old(notifier.queue) &&
      forall x :: x in notifier.queue.items ==> x in old(notifier.queue.items) || fresh(x)
    }

    /** Register a lease with the notifier at its expiry. */
    method Register(l: Lease)
      requires notifier.Valid() && l.expiry.At?
      modifies notifier, notifier.queue, notifier.Items()
      ensures notifier.Valid() && Times() == old(Times())[l.id := l.expiry.time]
      ensures OnlyFreshItems()
      ensures Expiries() == old(Expiries())
    {
      var item := new LeaseWithTime(l.id, l.expiry.time);
      notifier.RegisterOrUpdate(item);
    }

    /** Only the expiry of the lease `l` differs. */
    twostate lemma OneExpiry(l: Lease)
      requires Keyed() && leaseMap == old(leaseMap) && l.id in leaseMap && leaseMap[l.id] == l
      requires forall k :: k in leaseMap && k != l.id ==> leaseMap[k].expiry == old(leaseMap[k].expiry)
      ensures Expiries() == old(Expiries())[l.id := l.expiry]
    {
    }

    /** Give a lease its expiry `x` and register it there. */
    method RefreshLease(l: Lease, now: int, extend: int, ghost x: int)
      requires notifier.Valid() && Keyed() && l.id in leaseMap && leaseMap[l.id] == l
      requires x == now + extend + l.RemainingTTL() * SECOND
      modifies notifier, notifier.queue, notifier.Items(), l`expiry
      ensures notifier.Valid() && OnlyFreshItems() && l.expiry == At(x)
      ensures Times() == old(Times())[l.id := x]
      ensures Expiries() == old(Expiries())[l.id := At(x)]
    {
      l.Refresh(now, extend);
      assert forall k :: k in leaseMap && k != l.id ==> leaseMap[k] != l;
      OneExpiry(l);
      Register(l);
    }

    method Grant(id: LeaseID, ttl: int, now: int) returns (err: Error)
      requires Valid()
      modifies this, notifier, notifier.queue, notifier.Items()
      ensures Valid() && primary == old(primary) && notifier == old(notifier)
      ensures OnlyFreshItems()
      ensures err == if id == NO_LEASE then ErrLeaseNotFound
                     else if ttl > 9_000_000_000 then ErrLeaseTTLTooLarge
                     else if id in old(leaseMap) then ErrLeaseExists
                     else None
      ensures err != None ==> leaseMap == old(leaseMap) && Times() == old(Times())
      ensures err == None ==>
                && id in leaseMap && leaseMap == old(leaseMap)[id := leaseMap[id]] && fresh(leaseMap[id])
                && leaseMap[id].ttl == (if ttl < minLeaseTTL then minLeaseTTL else ttl)
                && leaseMap[id].expiry == (if primary then At(now + leaseMap[id].ttl * 1_000_000_000) else Forever)
                && Times() == if primary then old(Times())[id := leaseMap[id].expiry.time] else old(Times())
    {
      if id == NO_LEASE {
        return ErrLeaseNotFound;
      }
      if ttl > MAX_LEASE_TTL {
        return ErrLeaseTTLTooLarge;
      }
      if id in leaseMap {
        return ErrLeaseExists;
      }
      var l := new Lease(id, if ttl < minLeaseTTL then minLeaseTTL else ttl);
      if primary {
        l.Refresh(now, 0);
      }
      Insert(l);
      return None;
    }

    /** Enter a new lease, on the primary with its expiry in the notifier. */
    method Insert(l: Lease)
      requires Valid() && l.id !in leaseMap
      requires if primary then l.expiry.At? else l.expiry == Forever
      modifies this, notifier, notifier.queue, notifier.Items()
      ensures Valid() && primary == old(primary) && notifier == old(notifier) && leaseMap == old(leaseMap)[l.id := l]
      ensures Times() == if primary then old(Times())[l.id := l.expiry.time] else old(Times())
      ensures OnlyFreshItems()
    {
      leaseMap := leaseMap[l.id := l];
      assert Expiries() == old(Expiries())[l.id := l.expiry];
      if primary {
        Register(l);
      }
    }

    twostate lemma Forgotten(id: LeaseID)
      requires leaseMap == old(leaseMap) - {id}
      requires forall k :: k in leaseMap ==> leaseMap[k].expiry == old(leaseMap[k].expiry)
      ensures Expiries() == old(Expiries()) - {id}
    {
      var now, was := Expiries(), old(Expiries());
      assert now.Keys == was.Keys - {id};
      forall k | k in now ensures now[k] == was[k] {
      }
    }

    method Revoke(id: LeaseID) returns (err: Error)
      requires Valid()
      modifies this`leaseMap
      ensures Valid()
      ensures err == if id in old(leaseMap) then None else ErrLeaseNotFound
      ensures leaseMap == if err == None then old(leaseMap) - {id} else old(leaseMap)
    {
      if id !in leaseMap {
        return ErrLeaseNotFound;
      }
      leaseMap := leaseMap - {id};
      Forgotten(id);
      err := None;
    }

    /** Only the remainder changes; Promote turns it into an expiry. */
    method Checkpoint(id: LeaseID, remaining: int)
      requires Valid()
      modifies Leases()`remainingTTL
      ensures Valid() && Expiries() == old(Expiries())
      ensures forall k :: k in leaseMap ==> leaseMap[k].remainingTTL == if k == id then remaining else old(leaseMap[k].remainingTTL)
    {
      if id in leaseMap {
        assert leaseMap[id] in Leases();
        leaseMap[id].remainingTTL := remaining;
      }
    }

    /** Renew without interleaving. An expired lease is never renewed: the call
        waits and then fails. `waited` is how that wait ends. */
    method Renew(id: LeaseID, now: int, waited: Error) returns (err: Error)
      requires Valid() && waited in {ErrLeaseNotFound, ErrNotPrimary}
      modifies notifier, notifier.queue, notifier.Items(), leaseMap.Values
      ensures Valid() && OnlyFreshItems()
      ensures err == if !primary then ErrNotPrimary
                     else if id !in leaseMap then ErrLeaseNotFound
                     else if old(leaseMap[id].expiry.At? && leaseMap[id].expiry.time <= now) then waited
                     else None
      ensures err == None ==>
                && leaseMap[id].expiry ==
                     At(now + (if leaseMap[id].remainingTTL > 0 then leaseMap[id].remainingTTL else leaseMap[id].ttl) * 1_000_000_000)
                && Times() == old(Times())[id := leaseMap[id].expiry.time]
                && Expiries() == old(Expiries())[id := leaseMap[id].expiry]
      ensures err == None && hasCheckpointer ==> leaseMap[id].expiry == At(now + leaseMap[id].ttl * 1_000_000_000)
      ensures err != None ==> Times() == old(Times()) && Expiries() == old(Expiries())
    {
      if !primary {
        return ErrNotPrimary;
      }
      if id !in leaseMap {
        return ErrLeaseNotFound;
      }
      var l := leaseMap[id];
      if l.Expired(now) {
        return waited;
      }
      RenewLive(l, now);
      return None;
    }

    /** The locked end of Renew: a checkpointed remainder is cleared first. */
    method RenewLive(l: Lease, now: int)
      requires Valid() && primary && l.id in leaseMap && leaseMap[l.id] == l
      modifies notifier, notifier.queue, notifier.Items(), l
      ensures Valid() && OnlyFreshItems()
      ensures l.expiry == At(now + l.RemainingTTL() * SECOND)
      ensures Times() == old(Times())[l.id := l.expiry.time] && Expiries() == old(Expiries())[l.id := l.expiry]
      ensures hasCheckpointer ==> l.expiry == At(now + l.ttl * SECOND)
    {
      ClearRemaining(l);
      ghost var e, t := Expiries(), Times();
      ghost var x := now + l.RemainingTTL() * SECOND;
      RefreshLease(l, now, 0, x);
      assert Tracked(true, e[l.id := At(x)], t[l.id := x]);
    }

    method ClearRemaining(l: Lease)
      requires Valid()
      modifies l`remainingTTL
      ensures Valid() && Times() == old(Times()) && Expiries() == old(Expiries())
      ensures hasCheckpointer ==> l.RemainingTTL() == l.ttl
    {
      if hasCheckpointer && l.remainingTTL > 0 {
        l.remainingTTL := 0;
      }
    }

    method Demote()
      requires Valid()
      modifies this, Leases()`expiry
      ensures Valid() && fresh(notifier) && fresh(notifier.queue) && !primary && leaseMap == old(leaseMap)
      ensures Times() == map[]
    {
      ForgetExpiries();
      notifier := new LeaseExpiredNotifier();
      primary := false;
    }

    /** No lease expires any more. */
    method ForgetExpiries()
      requires Keyed()
      modifies Leases()`expiry
      ensures forall id :: id in leaseMap ==> leaseMap[id].expiry == Forever
    {
      var ids := leaseMap.Keys;
      while ids != {}
        invariant ids <= leaseMap.Keys && Keyed()
        invariant forall id :: id in leaseMap && id !in ids ==> leaseMap[id].expiry == Forever
      {
        var id := AnyOf(ids);
        assert leaseMap[id] in Leases();
        leaseMap[id].expiry := Forever;
        ids := ids - {id};
      }
    }

    // ---------- Promotion ----------

    ghost function Leases(): set<Lease>
      reads this
    {
      set id | id in leaseMap :: leaseMap[id]
    }

    /** Where every lease is put before spreading: the extension plus its remainder. */
    ghost predicate Aims(target: map<LeaseID, int>, now: int, extend: int)
      reads this, leaseMap.Values
    {
      forall id :: id in leaseMap ==> id in target && target[id] == now + extend + leaseMap[id].RemainingTTL() * SECOND
    }

    ghost method Aim(now: int, extend: int) returns (target: map<LeaseID, int>)
      ensures Aims(target, now, extend)
    {
      target := map id | id in leaseMap :: now + extend + leaseMap[id].RemainingTTL() * SECOND;
    }

    /** Give every lease its new expiry and register it. */
    method RefreshAll(now: int, extend: int, ghost target: map<LeaseID, int>)
      requires notifier.Valid() && Keyed() && Aims(target, now, extend)
      modifies notifier, notifier.queue, notifier.Items(), Leases()`expiry
      ensures notifier.Valid() && OnlyFreshItems()
      ensures Placed({}, target, Expiries(), Times())
    {
      var ids := leaseMap.Keys;
      while ids != {}
        invariant ids <= leaseMap.Keys && notifier.Valid() && OnlyFreshItems()
        invariant Aims(target, now, extend)
        invariant Placed(ids, target, Expiries(), Times())
      {
        var id := AnyOf(ids);
        RefreshNext(leaseMap[id], now, extend, ids, target);
        ids := ids - {id};
      }
    }

    method RefreshNext(l: Lease, now: int, extend: int, ghost ids: set<LeaseID>, ghost target: map<LeaseID, int>)
      requires notifier.Valid() && Keyed() && l.id in leaseMap && leaseMap[l.id] == l
      requires Aims(target, now, extend) && Placed(ids, target, Expiries(), Times())
      modifies notifier, notifier.queue, notifier.Items(), l`expiry
      ensures notifier.Valid() && OnlyFreshItems() && Aims(target, now, extend)
      ensures Placed(ids - {l.id}, target, Expiries(), Times())
    {
      ghost var e, t, x := Expiries(), Times(), target[l.id];
      RefreshLease(l, now, extend, x);
      PlacedNext(ids, l.id, target, e, t);
    }

    /** The leases, in the order a map visit gives. */
    method UnsafeLeases() returns (leases: seq<Lease>)
      requires Keyed()
      ensures Distinct(leases) && |leases| == |leaseMap|
      ensures forall l :: l in leases <==> l in Leases()
    {
      leases := [];
      var ids := leaseMap.Keys;
      while ids != {}
        invariant ids <= leaseMap.Keys && Distinct(leases) && |leases| + |ids| == |leaseMap|
        invariant forall l :: l in leases <==> l in Leases() && l.id !in ids
      {
        var id := AnyOf(ids);
        leases, ids := leases + [leaseMap[id]], ids - {id};
      }
    }

    /** A late lease gets its delay beyond where it was put. */
    method DelayIf(late: bool, l: Lease, now: int, extend: int, delay: int,
                   ghost aim: map<LeaseID, int>, ghost goal: map<LeaseID, int>, ghost next: map<LeaseID, int>)
      requires notifier.Valid() && Keyed() && l.id in leaseMap && leaseMap[l.id] == l
      requires Placed({}, goal, Expiries(), Times()) && Aims(aim, now, extend)
      requires next == goal[l.id := aim[l.id] + delay] && (!late ==> next == goal)
      modifies notifier, notifier.queue, notifier.Items(), l`expiry
      ensures notifier.Valid() && OnlyFreshItems() && Aims(aim, now, extend)
      ensures Placed({}, next, Expiries(), Times())
    {
      if late {
        ghost var e, t, x := Expiries(), Times(), aim[l.id] + delay;
        assert Placed({}, next, e[l.id := At(x)], t[l.id := x]);
        RefreshLease(l, now, delay + extend, x);
      }
    }

    ghost predicate NamedAt(leases: seq<Lease>, ids: seq<LeaseID>, k: nat)
      requires k < |leases| == |ids|
      reads this
    {
      ids[k] in leaseMap && leaseMap[ids[k]] == leases[k] && leases[k].id == ids[k]
    }

    /** `ids` are the ids of these leases, each once. */
    ghost predicate Named(leases: seq<Lease>, ids: seq<LeaseID>)
      reads this
    {
      && Lists(ids, leaseMap.Keys) && |leases| == |ids|
      && forall k: nat {:trigger NamedAt(leases, ids, k)} :: k < |ids| ==> NamedAt(leases, ids, k)
    }

    /** Spread the leases, in the order given, by delaying those that overrun the rate. */
    method SpreadOut(leases: seq<Lease>, extend: int, now: int,
                     ghost ids: seq<LeaseID>, ghost aim: map<LeaseID, int>, ghost turns: seq<Turn>)
      requires notifier.Valid() && Keyed() && |leases| > 0 && Named(leases, ids)
      requires forall l :: l in leases ==> l in Leases()
      requires Aims(aim, now, extend) && Placed({}, aim, Expiries(), Times())
      requires Planned(ids, turns, now, aim) && Turns(turns)
      modifies notifier, notifier.queue, notifier.Items(), Leases()`expiry
      ensures notifier.Valid() && OnlyFreshItems() && Aims(aim, now, extend)
      ensures Placed({}, GoalAt(ids, turns, |ids|, aim), Expiries(), Times())
    {
      var w := FirstOf(leases, now, ids, aim, turns);
      for i := 0 to |leases|
        invariant notifier.Valid() && OnlyFreshItems() && Aims(aim, now, extend)
        invariant Placed({}, GoalAt(ids, turns, i, aim), Expiries(), Times())
        invariant i < |turns| ==> w == turns[i].window
      {
        assert NamedAt(leases, ids, i);
        w := SpreadOne(leases[i], leases, i, w, extend, now, ids, aim, turns);
      }
    }

    /** The window the first lease opens. */
    method FirstOf(leases: seq<Lease>, now: int, ghost ids: seq<LeaseID>, ghost aim: map<LeaseID, int>, ghost turns: seq<Turn>)
      returns (w: Window)
      requires Keyed() && |leases| > 0 && Named(leases, ids) && Placed({}, aim, Expiries(), Times())
      requires Planned(ids, turns, now, aim) && Turns(turns)
      ensures w == turns[0].window
    {
      assert TurnIs(turns, 0) && NamedAt(leases, ids, 0);
      TurnMeets(ids, turns, 0, now, aim, Expiries(), Times());
      var remaining := leases[0].Remaining(now);
      w := Window(remaining, remaining + SECOND, 0);
    }

    /** The loop's turn for the lease in place `i`. */
    method SpreadOne(l: Lease, ghost leases: seq<Lease>, ghost i: nat, w: Window, extend: int, now: int,
                     ghost ids: seq<LeaseID>, ghost aim: map<LeaseID, int>, ghost turns: seq<Turn>)
      returns (w': Window)
      requires notifier.Valid() && Keyed() && Named(leases, ids)
      requires Planned(ids, turns, now, aim) && Turns(turns)
      requires i < |leases| && l == leases[i] && w == turns[i].window
      requires Aims(aim, now, extend) && Placed({}, GoalAt(ids, turns, i, aim), Expiries(), Times())
      modifies notifier, notifier.queue, notifier.Items(), l`expiry
      ensures notifier.Valid() && OnlyFreshItems() && Aims(aim, now, extend)
      ensures Placed({}, GoalAt(ids, turns, i + 1, aim), Expiries(), Times())
      ensures i + 1 < |turns| ==> w' == turns[i + 1].window
    {
      assert NamedAt(leases, ids, i);
      var late, delay;
      w', late, delay := TakeTurn(l, w, now, ids, aim, turns, i);
      DelayIf(late, l, now, extend, delay, aim, GoalAt(ids, turns, i, aim), GoalAt(ids, turns, i + 1, aim));
    }

    method TakeTurn(l: Lease, w: Window, now: int,
                    ghost ids: seq<LeaseID>, ghost aim: map<LeaseID, int>, ghost turns: seq<Turn>, ghost i: nat)
      returns (w': Window, late: bool, delay: int)
      requires Keyed() && Lists(ids, leaseMap.Keys)
      requires Planned(ids, turns, now, aim) && Turns(turns)
      requires i < |ids| && l.id == ids[i] && leaseMap[l.id] == l && w == turns[i].window
      requires Placed({}, GoalAt(ids, turns, i, aim), Expiries(), Times())
      ensures i + 1 < |turns| ==> w' == turns[i + 1].window
      ensures var goal, next := GoalAt(ids, turns, i, aim), GoalAt(ids, turns, i + 1, aim);
              next == goal[l.id := aim[l.id] + delay] && (!late ==> next == goal)
    {
      TurnMeets(ids, turns, i, now, aim, Expiries(), Times());
      var remaining := l.Remaining(now);
      w', late, delay := Advance(w, remaining, turns, i);
    }

    /** The ids of the leases. */
    ghost method NamesOf(leases: seq<Lease>) returns (ids: seq<LeaseID>)
      requires Keyed() && Distinct(leases)
      requires forall l :: l in leases <==> l in Leases()
      ensures Named(leases, ids) && Enumerates(ids, leaseMap.Keys)
    {
      ids := seq(|leases|, k requires 0 <= k < |leases| => leases[k].id);
      forall k | 0 <= k < |leases| ensures leases[k] in Leases() {
        assert leases[k] in leases;
      }
      forall id | id in leaseMap ensures id in ids {
        assert leaseMap[id] in Leases() && leaseMap[id] in leases;
        var k :| 0 <= k < |leases| && leases[k] == leaseMap[id];
        assert ids[k] == id;
      }
    }

    lemma AimsSorted(leases: seq<Lease>, ids: seq<LeaseID>, now: int, aim: map<LeaseID, int>)
      requires Named(leases, ids) && Ordered(leases, now)
      requires forall id :: id in leaseMap ==> id in aim && leaseMap[id].expiry == At(aim[id])
      ensures forall k :: 0 <= k < |ids| ==> ids[k] in aim
      ensures forall j, k :: 0 <= j <= k < |ids| ==> aim[ids[j]] <= aim[ids[k]]
    {
      forall k | 0 <= k < |ids| ensures ids[k] in aim && leases[k].expiry == At(aim[ids[k]]) {
        assert NamedAt(leases, ids, k);
      }
      forall j, k | 0 <= j <= k < |ids| ensures aim[ids[j]] <= aim[ids[k]] {
        assert j < k ==> leases[j].Remaining(now) <= leases[k].Remaining(now);
      }
    }

    /** The leases by remaining time, with their ids and the turns the loop will take. */
    method SortedLeases(now: int, ghost aim: map<LeaseID, int>)
      returns (leases: seq<Lease>, ghost ids: seq<LeaseID>, ghost turns: seq<Turn>)
      requires Keyed() && forall id :: id in leaseMap ==> id in aim && leaseMap[id].expiry == At(aim[id])
      ensures Named(leases, ids) && Planned(ids, turns, now, aim) && Turns(turns)
      ensures |leases| == |leaseMap| && Enumerates(ids, leaseMap.Keys)
      ensures forall l :: l in leases ==> l in Leases()
    {
      leases := UnsafeLeases();
      leases := SortByExpiry(leases, now);
      ids := NamesOf(leases);
      AimsSorted(leases, ids, now, aim);
      turns := Plan(ids, now, aim);
    }

    method SpreadMany(leases: seq<Lease>, extend: int, now: int,
                      ghost ids: seq<LeaseID>, ghost aim: map<LeaseID, int>, ghost turns: seq<Turn>)
      requires notifier.Valid() && Keyed() && |leases| > 0 && Named(leases, ids)
      requires forall l :: l in leases ==> l in Leases()
      requires Aims(aim, now, extend) && Placed({}, aim, Expiries(), Times())
      requires Planned(ids, turns, now, aim) && Turns(turns)
      modifies notifier, notifier.queue, notifier.Items(), Leases()`expiry
      ensures notifier.Valid() && OnlyFreshItems() && Aims(aim, now, extend)
      ensures Landed(ids, turns, true, now, Expiries()) && Synced(Expiries(), Times())
    {
      SpreadOut(leases, extend, now, ids, aim, turns);
      PlacedLands(ids, turns, true, now, aim, Expiries(), Times());
    }

    /** Sort and spread, if there are so many leases that they may pile up. */
    method SpreadIfMany(extend: int, now: int, ghost aim: map<LeaseID, int>)
      returns (ghost ids: seq<LeaseID>, ghost turns: seq<Turn>)
      requires notifier.Valid() && Keyed() && Aims(aim, now, extend) && Placed({}, aim, Expiries(), Times())
      modifies notifier, notifier.queue, notifier.Items(), Leases()`expiry
      ensures notifier.Valid() && OnlyFreshItems() && Aims(aim, now, extend)
      ensures Enumerates(ids, leaseMap.Keys) && Turns(turns) && Planned(ids, turns, now, aim)
      ensures Landed(ids, turns, |leaseMap| >= LEASE_REVOKE_RATE, now, Expiries())
      ensures Synced(Expiries(), Times())
    {
      assert forall id :: id in leaseMap ==> id in Expiries();
      var leases;
      leases, ids, turns := SortedLeases(now, aim);
      if |leaseMap| >= LEASE_REVOKE_RATE {
        SpreadMany(leases, extend, now, ids, aim, turns);
      } else {
        PlacedLands(ids, turns, false, now, aim, Expiries(), Times());
      }
    }

    lemma AimsAtRemainders(ids: seq<LeaseID>, turns: seq<Turn>, now: int, extend: int, aim: map<LeaseID, int>)
      requires Lists(ids, leaseMap.Keys) && Planned(ids, turns, now, aim) && Aims(aim, now, extend)
      ensures forall k :: 0 <= k < |ids| ==> turns[k].remaining == extend + leaseMap[ids[k]].RemainingTTL() * SECOND
    {
      forall k | 0 <= k < |ids| ensures turns[k].remaining == extend + leaseMap[ids[k]].RemainingTTL() * SECOND {
        assert ids[k] in leaseMap.Keys;
        var id := ids[k];
        assert id in leaseMap && aim[id] == now + extend + leaseMap[id].RemainingTTL() * SECOND;
      }
    }

    /** Give all leases their new expiries, spread if they are many. */
    method RefreshAndSpread(extend: int, now: int, ghost aim: map<LeaseID, int>)
      returns (ghost ids: seq<LeaseID>, ghost turns: seq<Turn>)
      requires notifier.Valid() && Keyed() && Aims(aim, now, extend)
      modifies notifier, notifier.queue, notifier.Items(), Leases()`expiry
      ensures notifier.Valid() && OnlyFreshItems() && Synced(Expiries(), Times())
      ensures Enumerates(ids, leaseMap.Keys) && Turns(turns) && |turns| == |ids|
      ensures forall k :: 0 <= k < |ids| ==> turns[k].remaining == extend + Remainder(leaseMap[ids[k]])
      ensures Landed(ids, turns, |leaseMap| >= LEASE_REVOKE_RATE, now, Expiries())
      ensures Promoted(ids, Remainders(turns), now, Expiries())
    {
      RefreshAll(now, extend, aim);
      ids, turns := SpreadIfMany(extend, now, aim);
      AimsAtRemainders(ids, turns, now, extend, aim);
      AllPromoted(ids, leaseMap.Keys, turns, now, Expiries());
    }

    /** What a lease has left, by its checkpoint or in full, in nanoseconds. */
    function Remainder(l: Lease): (left: int)
      reads l
      ensures left == (if l.remainingTTL > 0 then l.remainingTTL else l.ttl) * 1_000_000_000
    {
      l.RemainingTTL() * SECOND
    }

    /** Become the primary: every lease gets its remainder and the extension, and if
        there are many they are spread, in the order of `ids`, over later seconds. */
    method Promote(extend: int, now: int) returns (ghost ids: seq<LeaseID>, ghost turns: seq<Turn>)
      requires Valid()
      modifies this, notifier, notifier.queue, notifier.Items(), Leases()`expiry
      ensures Valid() && primary && leaseMap == old(leaseMap) && notifier == old(notifier) && OnlyFreshItems()
      ensures Enumerates(ids, leaseMap.Keys) && Turns(turns) && |turns| == |ids|
      ensures forall k :: 0 <= k < |ids| ==>
                var l := leaseMap[ids[k]];
                turns[k].remaining == extend + (if l.remainingTTL > 0 then l.remainingTTL else l.ttl) * 1_000_000_000
      ensures Landed(ids, turns, |leaseMap| >= LEASE_REVOKE_RATE, now, Expiries()) && Synced(Expiries(), Times())
      ensures Promoted(ids, Remainders(turns), now, Expiries())
    {
      primary := true;
      ghost var aim := Aim(now, extend);
      ids, turns := RefreshAndSpread(extend, now, aim);
    }

    // ---------- The sweep ----------

    /** The item due first is looked at; a revoked lease's item is dropped, a due
        one is rescheduled to be checked again after the retry interval. */
    method ExpireExists(now: int) returns (l: Lease?, ok: bool, next: bool)
      requires Valid() && primary && retryInterval > 0
      modifies notifier, notifier.queue, notifier.Items()
      ensures Valid() && notifier.Items() <= old(notifier.Items()) && Expiries() == old(Expiries())
      ensures forall id :: id in old(Times()) && id in leaseMap ==> id in Times()
      ensures next ==> !ok && exists id :: id in old(Times()) && id !in leaseMap && Times() == old(Times()) - {id}
      ensures ok ==> l != null && l.id in leaseMap && leaseMap[l.id] == l && l.id in old(Times())
      ensures ok ==> old(Times())[l.id] <= now && ExpiredBy({l.id}, Expiries(), now) && Times() == old(Times())[l.id := now + retryInterval]
      ensures !ok && !next ==> Times() == old(Times()) && forall id :: id in Times() ==> now < Times()[id]
    {
      var item := notifier.Poll();
      if item == null {
        assert Times() == map[];
        return null, false, false;
      }
      assert item.id in Times();
      if item.id !in leaseMap {
        DropFirst();
        return null, false, true;
      }
      l := leaseMap[item.id];
      assert item.id in Expiries();
      if now < item.time {
        return l, false, false;
      }
      notifier.Retime(item, now + retryInterval);
      return l, true, false;
    }

    /** Drop the item due first, of a lease that is gone. */
    method DropFirst()
      requires Valid() && primary && |notifier.queue.items| > 0 && notifier.queue.items[0].id !in leaseMap
      modifies notifier, notifier.queue, notifier.Items()
      ensures Valid() && notifier.Items() <= old(notifier.Items()) && Expiries() == old(Expiries())
      ensures Times() == old(Times()) - {old(notifier.queue.items[0].id)}
    {
      var _ := notifier.Unregister();
    }

    /** Look at leases until none is due or `limit` of them are found; 0 sets no limit. */
    method FindExpiredLeases(limit: nat, now: int) returns (leases: seq<Lease>)
      requires Valid() && primary && retryInterval > 0
      modifies notifier, notifier.queue, notifier.Items()
      ensures Valid() && (limit > 0 ==> |leases| <= limit) && Distinct(leases)
      ensures forall l :: l in leases ==> l.id in leaseMap && leaseMap[l.id] == l && l.Expired(now)
      ensures forall l :: l in leases ==> l.id in old(Times()) && old(Times())[l.id] <= now
      ensures limit == 0 || |leases| < limit ==> forall id :: id in Times() ==> now < Times()[id]
      ensures limit == 0 || |leases| < limit ==>
                forall id :: id in leaseMap && id in old(Times()) && old(Times())[id] <= now ==> leaseMap[id] in leases
    {
      leases := [];
      ghost var times := Times();
      ghost var expiries, found := Expiries(), {};
      while true
        invariant Valid() && (limit > 0 ==> |leases| < limit)
        invariant notifier.Items() <= old(notifier.Items())
        invariant Swept(times, Times(), leaseMap, found, now, retryInterval)
        invariant Listed(leases, leaseMap, found)
        invariant expiries == Expiries() && ExpiredBy(found, expiries, now)
        decreases |Times()|, |DueIds(Times(), now)|
      {
        ghost var t := Times();
        var l, ok, next := ExpireExists(now);
        if !ok && !next {
          SweptAll(times, Times(), leaseMap, found, leases, now, retryInterval);
          break;
        }
        if !ok {
          SweptDrop(times, t, Times(), leaseMap, found, now, retryInterval);
          continue;
        }
        var lease: Lease := l;
        SweptAgain(times, t, Times(), leaseMap, found, leases, lease, now, retryInterval);
        if lease.Expired(now) {
          leases, found := leases + [lease], found + {lease.id};
          if |leases| == limit {
            break;
          }
        }
      }
    }
  }

  /** On the primary every live lease is in the notifier, due at or after its expiry;
      elsewhere no lease expires. */
  ghost predicate Tracked(primary: bool, expiries: map<LeaseID, Expiry>, times: map<LeaseID, int>) {
    forall id :: id in expiries ==>
      if primary then expiries[id].At? && id in times && expiries[id].time <= times[id]
      else expiries[id] == Forever
  }

  /** Every live lease is in the notifier, due exactly at its expiry. */
  ghost predicate Synced(expiries: map<LeaseID, Expiry>, times: map<LeaseID, int>) {
    forall id :: id in expiries ==> expiries[id].At? && id in times && times[id] == expiries[id].time
  }

  /** All leases but those of `ids` expire at their target and are due then. */
  ghost predicate Placed(ids: set<LeaseID>, target: map<LeaseID, int>, expiries: map<LeaseID, Expiry>, times: map<LeaseID, int>) {
    forall id :: id in expiries && id !in ids ==>
      id in target && id in times && expiries[id] == At(target[id]) && times[id] == target[id]
  }

  lemma PlacedNext(ids: set<LeaseID>, id: LeaseID, target: map<LeaseID, int>, expiries: map<LeaseID, Expiry>, times: map<LeaseID, int>)
    requires Placed(ids, target, expiries, times) && id in target
    ensures Placed(ids - {id}, target, expiries[id := At(target[id])], times[id := target[id]])
  {
  }

  ghost function DueIds(times: map<LeaseID, int>, now: int): set<LeaseID> {
    set id | id in times && times[id] <= now
  }

  ghost predicate Differ(ids: seq<LeaseID>, i: nat, j: nat)
    requires i < j < |ids|
  {
    ids[i] != ids[j]
  }

  /** Some of the ids, each at most once. */
  ghost predicate Lists(ids: seq<LeaseID>, keys: set<LeaseID>) {
    && (forall i: nat, j: nat {:trigger Differ(ids, i, j)} :: i < j < |ids| ==> Differ(ids, i, j))
    && (forall k :: 0 <= k < |ids| ==> ids[k] in keys)
  }

  /** The ids, each once. */
  ghost predicate Enumerates(ids: seq<LeaseID>, keys: set<LeaseID>) {
    Lists(ids, keys) && forall id :: id in keys ==> id in ids
  }

  /** Before spreading, lease `ids[k]` expires after the remaining time of turn `k`. */
  ghost predicate Planned(ids: seq<LeaseID>, turns: seq<Turn>, now: int, aim: map<LeaseID, int>) {
    |turns| == |ids| && forall k :: 0 <= k < |ids| ==> ids[k] in aim && aim[ids[k]] == now + turns[k].remaining
  }

  ghost function Plan(ids: seq<LeaseID>, now: int, aim: map<LeaseID, int>): (turns: seq<Turn>)
    requires forall k :: 0 <= k < |ids| ==> ids[k] in aim
    requires forall j, k :: 0 <= j <= k < |ids| ==> aim[ids[j]] <= aim[ids[k]]
    ensures Planned(ids, turns, now, aim) && Turns(turns)
  {
    var ts := seq(|ids|, k requires 0 <= k < |ids| => aim[ids[k]] - now);
    TurnsOf(ts)
  }

  /** Where the leases are put when the first `i` have had their turn. */
  ghost function GoalAt(ids: seq<LeaseID>, turns: seq<Turn>, i: nat, aim: map<LeaseID, int>): map<LeaseID, int>
    requires i <= |ids| == |turns| && forall k :: 0 <= k < |ids| ==> ids[k] in aim
  {
    if i == 0 then aim else GoalAt(ids, turns, i - 1, aim)[ids[i - 1] := aim[ids[i - 1]] + turns[i - 1].delay]
  }

  lemma {:induction false} GoalIs(ids: seq<LeaseID>, turns: seq<Turn>, i: nat, aim: map<LeaseID, int>, k: nat)
    requires i <= |ids| == |turns| && k < |ids| && forall j :: 0 <= j < |ids| ==> ids[j] in aim
    requires forall i: nat, j: nat {:trigger Differ(ids, i, j)} :: i < j < |ids| ==> Differ(ids, i, j)
    ensures var goal := GoalAt(ids, turns, i, aim);
            ids[k] in goal && goal[ids[k]] == aim[ids[k]] + if k < i then turns[k].delay else 0
    decreases i
  {
    if i > 0 {
      GoalIs(ids, turns, i - 1, aim, k);
      assert if k < i - 1 then Differ(ids, k, i - 1) else k > i - 1 ==> Differ(ids, i - 1, k);
    }
  }

  lemma TurnMeets(ids: seq<LeaseID>, turns: seq<Turn>, i: nat, now: int, aim: map<LeaseID, int>,
                  expiries: map<LeaseID, Expiry>, times: map<LeaseID, int>)
    requires Lists(ids, expiries.Keys) && Planned(ids, turns, now, aim) && i < |ids|
    requires Placed({}, GoalAt(ids, turns, i, aim), expiries, times)
    ensures var goal := GoalAt(ids, turns, i, aim);
            ids[i] in goal && goal[ids[i]] == aim[ids[i]]
    ensures ids[i] in expiries && expiries[ids[i]] == At(now + turns[i].remaining)
  {
    var id := ids[i];
    assert id in expiries.Keys;
    GoalIs(ids, turns, i, aim, i);
    assert expiries[id] == At(GoalAt(ids, turns, i, aim)[id]);
  }

  lemma PlacedLands(ids: seq<LeaseID>, turns: seq<Turn>, spread: bool, now: int, aim: map<LeaseID, int>,
                    expiries: map<LeaseID, Expiry>, times: map<LeaseID, int>)
    requires Lists(ids, expiries.Keys) && Planned(ids, turns, now, aim)
    requires Placed({}, GoalAt(ids, turns, if spread then |ids| else 0, aim), expiries, times)
    ensures Landed(ids, turns, spread, now, expiries) && Synced(expiries, times)
  {
    forall k | 0 <= k < |ids|
      ensures ids[k] in expiries && expiries[ids[k]] == At(now + turns[k].remaining + if spread then turns[k].delay else 0)
    {
      var id, i := ids[k], if spread then |ids| else 0;
      assert id in expiries.Keys;
      GoalIs(ids, turns, i, aim, k);
      assert expiries[id] == At(GoalAt(ids, turns, i, aim)[id]);
    }
  }

  /** Lease `ids[k]` expires after its remaining time, plus its delay if the leases
      were spread. */
  ghost predicate Landed(ids: seq<LeaseID>, turns: seq<Turn>, spread: bool, now: int, expiries: map<LeaseID, Expiry>) {
    |turns| == |ids| && forall k :: 0 <= k < |ids| ==>
      ids[k] in expiries && expiries[ids[k]] == At(now + turns[k].remaining + if spread then turns[k].delay else 0)
  }

  /** Promote gives every lease at least its remainder and the extension; spread leases
      land where the rate puts them. */
  lemma NoLeaseIsShortened(ids: seq<LeaseID>, turns: seq<Turn>, spread: bool, now: int, expiries: map<LeaseID, Expiry>, k: nat)
    requires Turns(turns) && Landed(ids, turns, spread, now, expiries) && k < |ids|
    ensures expiries[ids[k]].At? && expiries[ids[k]].time >= now + turns[k].remaining
    ensures spread ==> SortedTimes(Remainders(turns)) && expiries[ids[k]].time == now + Landing(Remainders(turns), k)
  {
    TurnsAreDelays(turns, k);
    DelayIsNotNegative(Remainders(turns), k);
  }

  /** Lease `ids[k]`, with the `k`-th remaining time, keeps it if there are fewer than 1000
      leases or it is among the first 750 of its window; any other expires later, its number
      over 750 seconds after the start of the window. */
  ghost predicate Promoted(ids: seq<LeaseID>, ts: seq<int>, now: int, expiries: map<LeaseID, Expiry>) {
    && |ts| == |ids| && SortedTimes(ts)
    && forall k :: 0 <= k < |ids| ==>
         && ids[k] in expiries && expiries[ids[k]].At?
         && (expiries[ids[k]].time == now + ts[k] <==> |ids| < 1000 || NumberOf(ts, k) <= 750)
         && (expiries[ids[k]].time != now + ts[k] ==>
               expiries[ids[k]].time == now + ts[StartOf(ts, k)] + NumberOf(ts, k) * 1_000_000_000 / 750 > now + ts[k])
  }

  lemma ExpiriesByNumber(ids: seq<LeaseID>, turns: seq<Turn>, now: int, expiries: map<LeaseID, Expiry>)
    requires Turns(turns) && Landed(ids, turns, |ids| >= LEASE_REVOKE_RATE, now, expiries)
    ensures Promoted(ids, Remainders(turns), now, expiries)
  {
    var ts := Remainders(turns);
    TurnsSorted(turns, |turns|);
    forall k | 0 <= k < |ids|
      ensures turns[k].delay == DelayOf(ts, k)
      ensures DelayOf(ts, k) == 0 <==> NumberOf(ts, k) <= 750
      ensures DelayOf(ts, k) >= 0
      ensures NumberOf(ts, k) > 750 ==> ts[k] + DelayOf(ts, k) == ts[StartOf(ts, k)] + NumberOf(ts, k) * 1_000_000_000 / 750
    {
      TurnsAreDelays(turns, k);
      DelayedByNumber(ts, k);
    }
  }

  lemma AllPromoted(ids: seq<LeaseID>, keys: set<LeaseID>, turns: seq<Turn>, now: int, expiries: map<LeaseID, Expiry>)
    requires Enumerates(ids, keys) && Turns(turns) && Landed(ids, turns, |keys| >= LEASE_REVOKE_RATE, now, expiries)
    ensures Promoted(ids, Remainders(turns), now, expiries)
  {
    EnumeratedCount(ids, keys);
    ExpiriesByNumber(ids, turns, now, expiries);
  }

  lemma {:induction false} EnumeratedCount(ids: seq<LeaseID>, keys: set<LeaseID>)
    requires Enumerates(ids, keys)
    ensures |ids| == |keys|
    decreases |ids|
  {
    if |ids| > 0 {
      var n := |ids| - 1;
      assert ids == ids[..n] + [ids[n]];
      assert ids[n] in keys;
      assert Enumerates(ids[..n], keys - {ids[n]}) by {
        forall i: nat, j: nat | i < j < n ensures Differ(ids[..n], i, j) {
          assert Differ(ids, i, j);
        }
        forall i: nat | i < n ensures ids[..n][i] in keys && ids[..n][i] != ids[n] {
          assert Differ(ids, i, n) && ids[i] in keys;
        }
      }
      EnumeratedCount(ids[..n], keys - {ids[n]});
    } else {
      forall id ensures id !in keys {
        assert id in keys ==> id in ids;
      }
      assert keys == {};
    }
  }

  /** One turn of the spreading loop. */
  method Advance(w: Window, remaining: int, ghost turns: seq<Turn>, ghost i: nat) returns (w': Window, late: bool, delay: int)
    requires Turns(turns) && i < |turns| && turns[i].window == w && turns[i].remaining == remaining
    ensures i + 1 < |turns| ==> w' == turns[i + 1].window
    ensures delay == turns[i].delay && (!late ==> delay == 0)
  {
    assert TurnIs(turns, i);
    if i + 1 < |turns| {
      assert TurnIs(turns, i + 1);
    }
    if remaining > w.next {
      return Window(remaining, remaining + SECOND, 1), false, 0;
    }
    var expires := w.expires + 1;
    if expires <= TARGET_PER_SECOND {
      return w.(expires := expires), false, 0;
    }
    delay := RateOffset(expires) - (remaining - w.base);
    return Window(w.base, w.base + delay, expires), true, delay;
  }

  predicate Distinct(leases: seq<Lease>) {
    forall i, j :: 0 <= i < j < |leases| ==> leases[i] != leases[j]
  }

  /** What a sweep that began at `times` has done: it dropped items of dead leases
      only, and rescheduled exactly the due ones it found. */
  ghost predicate Swept(times: map<LeaseID, int>, t: map<LeaseID, int>, live: map<LeaseID, Lease>,
                        found: set<LeaseID>, now: int, retry: int)
  {
    && retry > 0
    && (forall id :: id in t ==> id in times && t[id] == if id in found then now + retry else times[id])
    && (forall id :: id in found ==> id in t && id in live && times[id] <= now)
    && (forall id :: id in times && id in live ==> id in t)
  }

  /** These leases have expired. */
  ghost predicate ExpiredBy(ids: set<LeaseID>, expiries: map<LeaseID, Expiry>, now: int) {
    forall id :: id in ids ==> id in expiries && expiries[id].At? && expiries[id].time <= now
  }

  /** The list holds the leases found, each once. */
  ghost predicate Listed(leases: seq<Lease>, live: map<LeaseID, Lease>, found: set<LeaseID>) {
    && Distinct(leases)
    && (forall l :: l in leases ==> l.id in found && l.id in live && live[l.id] == l)
    && (forall id :: id in found ==> id in live && live[id] in leases)
  }

  lemma SweptDrop(times: map<LeaseID, int>, t: map<LeaseID, int>, t': map<LeaseID, int>, live: map<LeaseID, Lease>,
                  found: set<LeaseID>, now: int, retry: int)
    requires Swept(times, t, live, found, now, retry)
    requires exists id :: id in t && id !in live && t' == t - {id}
    ensures Swept(times, t', live, found, now, retry)
    ensures |t'| < |t|
  {
    var id :| id in t && id !in live && t' == t - {id};
    assert t'.Keys == t.Keys - {id};
    assert |t'| == |t'.Keys| && |t| == |t.Keys|;
  }

  lemma SweptAgain(times: map<LeaseID, int>, t: map<LeaseID, int>, t': map<LeaseID, int>, live: map<LeaseID, Lease>,
                   found: set<LeaseID>, leases: seq<Lease>, l: Lease, now: int, retry: int)
    requires Swept(times, t, live, found, now, retry) && Listed(leases, live, found)
    requires l.id in t && t[l.id] <= now && l.id in live && live[l.id] == l && t' == t[l.id := now + retry]
    ensures Swept(times, t', live, found + {l.id}, now, retry) && Listed(leases + [l], live, found + {l.id})
    ensures |t'| == |t| && |DueIds(t', now)| < |DueIds(t, now)|
  {
    assert t'.Keys == t.Keys;
    assert |t'| == |t'.Keys| && |t| == |t.Keys|;
    assert DueIds(t', now) == DueIds(t, now) - {l.id};
  }

  lemma SweptAll(times: map<LeaseID, int>, t: map<LeaseID, int>, live: map<LeaseID, Lease>,
                 found: set<LeaseID>, leases: seq<Lease>, now: int, retry: int)
    requires Swept(times, t, live, found, now, retry) && Listed(leases, live, found)
    requires forall id :: id in t ==> now < t[id]
    ensures forall id :: id in live && id in times && times[id] <= now ==> live[id] in leases
  {
  }
}
