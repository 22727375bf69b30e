/** How Promote spreads expiries that fall close together. Times are nanoseconds;
    durations that the program computes in floating point are exact here, and
    truncated to whole nanoseconds as the program does. */
module Spread {

  const SECOND: int := 1_000_000_000
  const LEASE_REVOKE_RATE: int := 1000

  /** Three quarters of the revoke rate. */
  const TARGET_PER_SECOND: int := 750

  /** The running variables of the loop. */
  datatype Window = Window(base: int, next: int, expires: nat)

  function FirstWindow(remaining: int): Window {
    Window(remaining, remaining + SECOND, 0)
  }

  /** How far after the start of its window the lease with counter `e` may land. */
  function RateOffset(e: nat): int {
    (e * 1_000_000_000) / 750
  }

  /** The window after a lease with this remaining time, and the lease's delay; a
      lease that is not delayed has delay 0 and is not refreshed. */
  function Next(w: Window, remaining: int): (Window, bool, int) {
    if remaining > w.next then (Window(remaining, remaining + SECOND, 1), false, 0)
    else
      var e := w.expires + 1;
      if e <= TARGET_PER_SECOND then (w.(expires := e), false, 0)
      else
        var delay := RateOffset(e) - (remaining - w.base);
        (Window(w.base, w.base + delay, e), true, delay)
  }

  predicate SortedTimes(ts: seq<int>) {
    forall i, j :: 0 <= i <= j < |ts| ==> ts[i] <= ts[j]
  }

  /** The window after the first `n` leases. */
  function WindowAt(ts: seq<int>, n: nat): Window
    requires 0 < |ts| && n <= |ts|
  {
    if n == 0 then FirstWindow(ts[0]) else Next(WindowAt(ts, n - 1), ts[n - 1]).0
  }

  predicate Delayed(ts: seq<int>, i: nat)
    requires i < |ts|
  {
    Next(WindowAt(ts, i), ts[i]).1
  }

  function DelayOf(ts: seq<int>, i: nat): int
    requires i < |ts|
  {
    Next(WindowAt(ts, i), ts[i]).2
  }

  /** The remaining time of lease `i` after Promote. */
  function Landing(ts: seq<int>, i: nat): int
    requires i < |ts|
  {
    ts[i] + DelayOf(ts, i)
  }

  /** One turn of the loop: the window it finds, the lease's remaining time, the
      window it leaves and the lease's delay. */
  datatype Turn = Turn(window: Window, remaining: int, next: Window, delay: int)

  predicate Taken(turn: Turn) {
    Next(turn.window, turn.remaining).0 == turn.next && Next(turn.window, turn.remaining).2 == turn.delay
  }

  /** Turn `i` is the loop's, over leases by remaining time. */
  predicate TurnIs(turns: seq<Turn>, i: nat)
    requires i < |turns|
  {
    && Taken(turns[i])
    && turns[i].window == (if i == 0 then FirstWindow(turns[0].remaining) else turns[i - 1].next)
    && (i > 0 ==> turns[i - 1].remaining <= turns[i].remaining)
  }

  predicate Turns(turns: seq<Turn>) {
    forall i: nat {:trigger TurnIs(turns, i)} :: i < |turns| ==> TurnIs(turns, i)
  }

  /** The remaining times of the leases. */
  function Remainders(turns: seq<Turn>): (ts: seq<int>)
    ensures |ts| == |turns|
  {
    seq(|turns|, i requires 0 <= i < |turns| => turns[i].remaining)
  }

  /** The turns over leases with these remaining times. */
  function TurnsOf(ts: seq<int>): (turns: seq<Turn>)
    requires SortedTimes(ts)
    ensures |turns| == |ts| && Turns(turns)
    ensures forall i :: 0 <= i < |ts| ==> turns[i].remaining == ts[i]
  {
    seq(|ts|, i requires 0 <= i < |ts| => Turn(WindowAt(ts, i), ts[i], WindowAt(ts, i + 1), DelayOf(ts, i)))
  }

  /** The turns are determined by the remaining times: lease `i` gets its DelayOf. */
  lemma {:induction false} TurnsAreDelays(turns: seq<Turn>, i: nat)
    requires i < |turns| && Turns(turns)
    ensures var ts := Remainders(turns);
            SortedTimes(ts) && turns[i].window == WindowAt(ts, i) && turns[i].delay == DelayOf(ts, i)
  {
    assert TurnIs(turns, i);
    TurnsSorted(turns, |turns|);
    if i > 0 {
      TurnsAreDelays(turns, i - 1);
      assert TurnIs(turns, i - 1);
    }
  }

  lemma {:induction false} TurnsSorted(turns: seq<Turn>, n: nat)
    requires n <= |turns| && Turns(turns)
    ensures forall i, j :: 0 <= i <= j < n ==> turns[i].remaining <= turns[j].remaining
  {
    if n > 1 {
      TurnsSorted(turns, n - 1);
      assert TurnIs(turns, n - 1);
    }
  }

  lemma RateOffsetMonotone(a: nat, b: nat)
    requires a <= b
    ensures RateOffset(a) <= RateOffset(b)
  {
  }

  /** `TARGET_PER_SECOND` leases further on is a whole second later. */
  lemma RateOffsetPeriod(e: nat)
    ensures RateOffset(e + TARGET_PER_SECOND) == RateOffset(e) + SECOND
  {
  }

  /** While the loop runs, a lease that does not open a new window lies at most
      `next - base` after the base, and that is within the rate. */
  lemma {:induction false} WindowInvariant(ts: seq<int>, n: nat)
    requires SortedTimes(ts) && 0 < |ts| && n <= |ts|
    ensures var w := WindowAt(ts, n);
            && w.base <= (if n == 0 then ts[0] else ts[n - 1])
            && w.next <= w.base + (if w.expires <= TARGET_PER_SECOND then SECOND else RateOffset(w.expires))
    decreases n
  {
    if n > 0 {
      WindowInvariant(ts, n - 1);
    }
  }

  /** No delay is negative: Promote never shortens a lease. */
  lemma DelayIsNotNegative(ts: seq<int>, i: nat)
    requires SortedTimes(ts) && i < |ts|
    ensures DelayOf(ts, i) >= 0
    ensures Landing(ts, i) >= ts[i]
  {
    WindowInvariant(ts, i);
    var w := WindowAt(ts, i);
    if Delayed(ts, i) {
      RateOffsetPeriod(0);
      RateOffsetMonotone(TARGET_PER_SECOND, w.expires + 1);
      RateOffsetMonotone(w.expires, w.expires + 1);
    }
  }

  /** A delayed lease lands where its counter says, measured from its window's base. */
  lemma LandsByCounter(ts: seq<int>, i: nat)
    requires i < |ts| && Delayed(ts, i)
    ensures WindowAt(ts, i + 1).base == WindowAt(ts, i).base
    ensures WindowAt(ts, i + 1).expires == WindowAt(ts, i).expires + 1 > TARGET_PER_SECOND
    ensures Landing(ts, i) == WindowAt(ts, i + 1).base + RateOffset(WindowAt(ts, i + 1).expires)
  {
  }

  /** No new window opens between the two leases. */
  predicate SameWindow(ts: seq<int>, i: nat, j: nat)
    requires j < |ts|
  {
    forall k: nat :: i < k <= j ==> ts[k] <= WindowAt(ts, k).next
  }

  lemma {:induction false} CounterAdvances(ts: seq<int>, i: nat, j: nat)
    requires i <= j < |ts| && SameWindow(ts, i, j)
    ensures WindowAt(ts, j + 1).base == WindowAt(ts, i + 1).base
    ensures WindowAt(ts, j + 1).expires == WindowAt(ts, i + 1).expires + (j - i)
    decreases j
  {
    if i < j {
      CounterAdvances(ts, i, j - 1);
      assert ts[j] <= WindowAt(ts, j).next;
    }
  }

  /** Delayed leases of one window land in order, and two of them that are
      `TARGET_PER_SECOND` leases apart land at least a second apart. */
  lemma LandingsApart(ts: seq<int>, i: nat, j: nat)
    requires i < j < |ts| && SameWindow(ts, i, j) && Delayed(ts, i) && Delayed(ts, j)
    ensures Landing(ts, i) <= Landing(ts, j)
    ensures j - i >= TARGET_PER_SECOND ==> Landing(ts, j) >= Landing(ts, i) + SECOND
  {
    CounterAdvances(ts, i, j);
    LandsByCounter(ts, i);
    LandsByCounter(ts, j);
    var e, f := WindowAt(ts, i + 1).expires, WindowAt(ts, j + 1).expires;
    RateOffsetMonotone(e, f);
    if j - i >= TARGET_PER_SECOND {
      RateOffsetPeriod(e);
      RateOffsetMonotone(e + TARGET_PER_SECOND, f);
    }
  }

  /** Of one window, the delayed leases landing in any half-open second
      [from, from + 1s) are at most TARGET_PER_SECOND: any strictly increasing list
      of their positions is that short. */
  lemma AtMostTargetPerSecond(ts: seq<int>, first: nat, last: nat, picks: seq<nat>, from: int)
    requires first <= last < |ts| && SameWindow(ts, first, last)
    requires forall a, b :: 0 <= a < b < |picks| ==> picks[a] < picks[b]
    requires forall a :: 0 <= a < |picks| ==> first <= picks[a] <= last && Delayed(ts, picks[a])
    requires forall a :: 0 <= a < |picks| ==> from <= Landing(ts, picks[a]) < from + SECOND
    ensures |picks| <= TARGET_PER_SECOND
  {
    if |picks| > TARGET_PER_SECOND {
      var i, j := picks[0], picks[TARGET_PER_SECOND];
      PicksSpread(picks, TARGET_PER_SECOND);
      assert SameWindow(ts, i, j);
      LandingsApart(ts, i, j);
    }
  }

  lemma {:induction false} PicksSpread(picks: seq<nat>, n: nat)
    requires n < |picks| && forall a, b :: 0 <= a < b < |picks| ==> picks[a] < picks[b]
    ensures picks[n] >= picks[0] + n
    decreases n
  {
    if n > 0 {
      PicksSpread(picks, n - 1);
      assert picks[n - 1] < picks[n];
    }
  }

  // ---------- Which leases are delayed ----------

  /** The latest remaining time that still falls into the window of lease `f`, when the
      leases before `i` have fallen into it. While they are not more than three quarters of
      1000 it is a second; then it is the delay the last one was given. */
  function WindowEnd(ts: seq<int>, f: nat, i: nat): int
    requires f < i <= |ts|
  {
    ts[f] + if i - f <= 750 then 1_000_000_000 else (i - f) * 1_000_000_000 / 750 - (ts[i - 1] - ts[f])
  }

  /** The first lease of the window of lease `i`. */
  function StartOf(ts: seq<int>, i: nat): (f: nat)
    requires i < |ts|
    ensures f <= i
  {
    if i == 0 then 0
    else
      var f := StartOf(ts, i - 1);
      if ts[i] > WindowEnd(ts, f, i) then i else f
  }

  /** The number of the lease in its window, from 1. */
  function NumberOf(ts: seq<int>, i: nat): nat
    requires i < |ts|
  {
    i - StartOf(ts, i) + 1
  }

  lemma {:induction false} WindowIs(ts: seq<int>, i: nat)
    requires 0 < i <= |ts|
    ensures var f := StartOf(ts, i - 1); WindowAt(ts, i) == Window(ts[f], WindowEnd(ts, f, i), i - f)
  {
    if i > 1 {
      WindowIs(ts, i - 1);
    }
  }

  /** Of every window the first 750 leases, and no others, keep their time; each of the
      others gets a positive delay and lands at the start of the window plus its number over
      750 seconds. */
  lemma DelayedByNumber(ts: seq<int>, i: nat)
    requires SortedTimes(ts) && i < |ts|
    ensures DelayOf(ts, i) > 0 <==> NumberOf(ts, i) > 750
    ensures DelayOf(ts, i) == 0 <==> NumberOf(ts, i) <= 750
    ensures Landing(ts, i) == if NumberOf(ts, i) <= 750 then ts[i] else ts[StartOf(ts, i)] + NumberOf(ts, i) * 1_000_000_000 / 750
  {
    if i > 0 {
      WindowIs(ts, i);
      WindowInvariant(ts, i);
    }
    DelayIsNotNegative(ts, i);
  }

  /** So at most 750 leases of a window expire at their own time, whichever they are. */
  lemma AtMostTargetKept(ts: seq<int>, f: nat, picks: seq<nat>)
    requires SortedTimes(ts) && forall a, b :: 0 <= a < b < |picks| ==> picks[a] < picks[b]
    requires forall a :: 0 <= a < |picks| ==> picks[a] < |ts| && StartOf(ts, picks[a]) == f && Landing(ts, picks[a]) == ts[picks[a]]
    ensures |picks| <= 750
  {
    if |picks| > 750 {
      PicksSpread(picks, 750);
      DelayedByNumber(ts, picks[750]);
    }
  }
}
