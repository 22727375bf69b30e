/** Key intervals as the permission trees hold them: half open, with an empty byte
    string standing for a bound above every key. A tree is the sequence of its
    intervals in visiting order. */
module Intervals {
  import opened Bytes

  datatype Interval = Interval(begin: Key, end: Key)

  /** The affine order: the empty string is above all others. */
  predicate Before(a: Key, b: Key) {
    |a| > 0 && (|b| == 0 || Less(a, b))
  }

  lemma BeforeTransitive(a: Key, b: Key, c: Key)
    ensures Before(a, b) && !Before(c, b) ==> Before(a, c)
    ensures !Before(b, a) && Before(b, c) ==> Before(a, c)
    ensures !Before(b, a) && !Before(c, b) ==> !Before(c, a)
  {
    CompareAntisymmetric(a, b);
    CompareAntisymmetric(b, c);
    CompareAntisymmetric(a, c);
    if |a| > 0 && |b| > 0 && |c| > 0 {
      if AtMost(a, b) && AtMost(b, c) {
        CompareTransitive(a, b, c);
      }
      if AtMost(b, c) && AtMost(c, a) {
        CompareTransitive(b, c, a);
      }
      if AtMost(c, a) && AtMost(a, b) {
        CompareTransitive(c, a, b);
      }
    }
  }

  lemma BeforeAsymmetric()
    ensures forall a, b :: Before(a, b) ==> !Before(b, a)
  {
    forall a: Key, b: Key | Before(a, b) ensures !Before(b, a) {
      CompareAntisymmetric(a, b);
    }
  }

  predicate Covers(ivl: Interval, k: Key) {
    !Before(k, ivl.begin) && Before(k, ivl.end)
  }

  predicate Overlaps(iv: Interval, x: Interval) {
    !(Before(iv.begin, x.begin) && !Before(x.begin, iv.end)) && Before(iv.begin, x.end)
  }

  /** The interval holding a single key. */
  function Point(k: Key): Interval {
    Interval(k, k + [0])
  }

  /** Nothing lies between a key and the key with a zero byte appended. */
  lemma {:induction false} Successor(a: Key, k: Key)
    ensures Less(a, k + [0]) <==> AtMost(a, k)
  {
    if |k| == 0 {
      assert k + [0] == [0] && [0][1..] == [];
      assert |a| > 0 ==> Compare(a[1..], []) >= 0;
    } else if |a| > 0 && a[0] == k[0] {
      assert (k + [0])[1..] == k[1..] + [0];
      Successor(a[1..], k[1..]);
    }
  }

  lemma PointCovers(k: Key, x: Key)
    ensures Covers(Point(k), x) <==> |k| > 0 && x == k
  {
    Successor(x, k);
    CompareEqual(x, k);
    CompareAntisymmetric(x, k);
    if |k| == 0 && |x| > 0 {
      assert Less(x, k + [0]) <==> AtMost(x, k);
    }
  }

  /** A point meets exactly the intervals that cover it. */
  lemma PointOverlaps(k: Key, x: Interval)
    ensures Overlaps(Point(k), x) <==> Covers(x, k)
  {
    Successor(x.begin, k);
    CompareAntisymmetric(x.begin, k);
  }

  predicate InOrder(t: seq<Interval>) {
    forall i, j :: 0 <= i < j < |t| ==> !Before(t[j].begin, t[i].begin)
  }

  /** A new interval comes after those that begin no later. */
  function Insert(t: seq<Interval>, ivl: Interval): (r: seq<Interval>)
    ensures |r| == |t| + 1
    ensures forall x :: x in r <==> x in t || x == ivl
  {
    if |t| == 0 || !Before(ivl.begin, t[|t| - 1].begin) then t + [ivl]
    else
      var n := |t| - 1;
      assert t == t[..n] + [t[n]];
      Insert(t[..n], ivl) + [t[n]]
  }

  lemma {:induction false} InsertKeepsOrder(t: seq<Interval>, ivl: Interval)
    requires InOrder(t)
    ensures InOrder(Insert(t, ivl))
  {
    if |t| > 0 {
      var n := |t| - 1;
      if Before(ivl.begin, t[n].begin) {
        InsertKeepsOrder(t[..n], ivl);
        var r := Insert(t[..n], ivl);
        forall i | 0 <= i < |r| ensures !Before(t[n].begin, r[i].begin) {
          BeforeAsymmetric();
          assert r[i] in r;
          if r[i] != ivl {
            var j :| 0 <= j < n && t[j] == r[i];
          }
        }
      } else {
        forall i | 0 <= i < n ensures !Before(ivl.begin, t[i].begin) {
          BeforeTransitive(t[i].begin, t[n].begin, ivl.begin);
        }
      }
    }
  }

  /** The keys a check of `iv` is about: those inside, and in any case its first. */
  predicate Asked(iv: Interval, k: Key) {
    k == iv.begin || Covers(iv, k)
  }

  ghost predicate Covered(t: seq<Interval>, k: Key) {
    exists x :: x in t && Covers(x, k)
  }

  /** Some interval of the tree meets `iv`. */
  predicate Intersects(t: seq<Interval>, iv: Interval) {
    exists i :: 0 <= i < |t| && Overlaps(iv, t[i])
  }

  lemma IntersectsPoint(t: seq<Interval>, k: Key)
    ensures Intersects(t, Point(k)) <==> Covered(t, k)
  {
    forall i | 0 <= i < |t| ensures Overlaps(Point(k), t[i]) <==> Covers(t[i], k) {
      PointOverlaps(k, t[i]);
    }
  }

  lemma AskedOverlaps(iv: Interval, x: Interval, k: Key)
    requires Asked(iv, k) && Covers(x, k)
    ensures Overlaps(iv, x)
  {
    BeforeTransitive(iv.begin, k, x.end);
    if Before(iv.begin, x.begin) && !Before(x.begin, iv.end) {
      BeforeTransitive(k, x.begin, iv.end);
      BeforeTransitive(x.begin, k, iv.end);
    }
    BeforeTransitive(iv.begin, k, iv.begin);
  }

  /** The intervals visited so far reach from `lo` up to `hi` without a gap, and none
      of the first `n` covers an asked key outside. */
  ghost predicate Reached(t: seq<Interval>, n: nat, iv: Interval, lo: Key, hi: Key)
    requires n <= |t|
  {
    && Before(iv.begin, hi)
    && (forall k :: !Before(k, lo) && Before(k, hi) ==> Covered(t[..n], k))
    && (forall k :: Asked(iv, k) && Covered(t[..n], k) ==> !Before(k, lo) && Before(k, hi))
  }

  /** Walk the intervals meeting `iv` in order and watch for a gap. The answer is
      whether every asked key is covered. */
  method Contains(t: seq<Interval>, iv: Interval) returns (all: bool)
    requires InOrder(t)
    ensures all <==> forall k :: Asked(iv, k) ==> Covered(t, k)
  {
    var visited := false;
    var minBegin: Key, maxEnd: Key := [], [];
    var i := 0;
    while i < |t|
      invariant i <= |t|
      invariant !visited ==> forall j :: 0 <= j < i ==> !Overlaps(iv, t[j])
      invariant visited ==> Reached(t, i, iv, minBegin, maxEnd)
      invariant visited ==> forall j :: i <= j < |t| ==> !Before(t[j].begin, minBegin)
    {
      var x := t[i];
      if Overlaps(iv, x) {
        if !visited {
          visited, minBegin, maxEnd := true, x.begin, x.end;
          ReachedFirst(t, i, iv);
        } else if Before(maxEnd, x.begin) {
          GapIsUncovered(t, i, iv, minBegin, maxEnd);
          return false;
        } else {
          ReachedNext(t, i, iv, minBegin, maxEnd);
          if Before(maxEnd, x.end) {
            maxEnd := x.end;
          }
        }
      } else if visited {
        ReachedSkip(t, i, iv, minBegin, maxEnd);
      }
      i := i + 1;
    }
    all := visited && !Before(maxEnd, iv.end) && !Before(iv.begin, minBegin);
    assert t[..i] == t;
    if visited {
      WalkAnswers(t, iv, minBegin, maxEnd);
    } else {
      forall x | x in t && Covers(x, iv.begin) ensures false {
        AskedOverlaps(iv, x, iv.begin);
      }
      assert Asked(iv, iv.begin) && !Covered(t, iv.begin);
    }
  }

  lemma ReachedFirst(t: seq<Interval>, i: nat, iv: Interval)
    requires i < |t| && Overlaps(iv, t[i]) && forall j :: 0 <= j < i ==> !Overlaps(iv, t[j])
    ensures Reached(t, i + 1, iv, t[i].begin, t[i].end)
  {
    assert t[i] in t[..i + 1];
    forall k | Asked(iv, k) && Covered(t[..i + 1], k) ensures Covers(t[i], k) {
      var x :| x in t[..i + 1] && Covers(x, k);
      AskedOverlaps(iv, x, k);
    }
  }

  lemma ReachedSkip(t: seq<Interval>, i: nat, iv: Interval, lo: Key, hi: Key)
    requires i < |t| && Reached(t, i, iv, lo, hi) && !Overlaps(iv, t[i])
    ensures Reached(t, i + 1, iv, lo, hi)
  {
    CoveredNext(t, i);
    forall k | Asked(iv, k) && Covered(t[..i + 1], k) ensures Covered(t[..i], k) {
      if Covers(t[i], k) {
        AskedOverlaps(iv, t[i], k);
      }
    }
  }

  lemma CoveredNext(t: seq<Interval>, i: nat)
    requires i < |t|
    ensures forall k :: Covered(t[..i + 1], k) <==> Covered(t[..i], k) || Covers(t[i], k)
  {
    assert t[..i + 1] == t[..i] + [t[i]];
    assert forall x :: x in t[..i + 1] <==> x in t[..i] || x == t[i];
  }

  lemma ReachedNext(t: seq<Interval>, i: nat, iv: Interval, lo: Key, hi: Key)
    requires i < |t| && Reached(t, i, iv, lo, hi) && !Before(t[i].begin, lo) && !Before(hi, t[i].begin)
    ensures Reached(t, i + 1, iv, lo, if Before(hi, t[i].end) then t[i].end else hi)
  {
    CoveredNext(t, i);
    BeforeAsymmetric();
    var x := t[i];
    BeforeTransitive(iv.begin, hi, x.end);
    var hi' := if Before(hi, x.end) then x.end else hi;
    forall k | !Before(k, lo) && Before(k, hi') ensures Covered(t[..i + 1], k) {
      if !Before(k, hi) {
        BeforeTransitive(x.begin, hi, k);
        BeforeTransitive(k, x.begin, hi);
        assert Covers(x, k);
      } else {
        assert Covered(t[..i], k);
      }
    }
    forall k | Asked(iv, k) && Covered(t[..i + 1], k) ensures !Before(k, lo) && Before(k, hi') {
      BeforeTransitive(lo, x.begin, k);
      BeforeTransitive(k, hi, x.end);
      BeforeTransitive(k, x.end, hi);
    }
  }

  lemma GapIsUncovered(t: seq<Interval>, i: nat, iv: Interval, lo: Key, hi: Key)
    requires InOrder(t) && i < |t| && Reached(t, i, iv, lo, hi) && Overlaps(iv, t[i]) && Before(hi, t[i].begin)
    ensures Asked(iv, hi) && !Covered(t, hi)
  {
    BeforeAsymmetric();
    BeforeTransitive(iv.begin, hi, t[i].begin);
    BeforeTransitive(hi, t[i].begin, iv.end);
    assert Asked(iv, hi) && !Before(hi, hi) && !Covered(t[..i], hi);
    assert forall y :: y in t[..i] ==> !Covers(y, hi);
    forall j | 0 <= j < |t| ensures !Covers(t[j], hi) {
      if j < i {
        assert t[..i][j] == t[j];
      } else {
        BeforeTransitive(hi, t[i].begin, t[j].begin);
      }
    }
  }

  lemma WalkAnswers(t: seq<Interval>, iv: Interval, lo: Key, hi: Key)
    requires Reached(t, |t|, iv, lo, hi)
    ensures !Before(hi, iv.end) && !Before(iv.begin, lo) <==> forall k :: Asked(iv, k) ==> Covered(t, k)
  {
    assert t[..|t|] == t;
    BeforeAsymmetric();
    if !Before(hi, iv.end) && !Before(iv.begin, lo) {
      forall k | Asked(iv, k) ensures Covered(t, k) {
        BeforeTransitive(lo, iv.begin, k);
        if Before(k, iv.end) {
          BeforeTransitive(k, iv.end, hi);
        }
      }
    }
    if Before(hi, iv.end) {
      assert Covers(iv, hi) && Asked(iv, hi);
      assert !Before(hi, hi);
    }
    if Before(iv.begin, lo) {
      assert Asked(iv, iv.begin);
    }
  }
}
