/** Revisions, the events they name, and the plain event history that the
    revision index must agree with. */
module Revisions {

  /** A revision orders every change: `main` numbers the transaction, `sub` the
      change inside it. */
  datatype Revision = Revision(main: int, sub: int) {
    predicate GreaterThan(b: Revision) {
      main > b.main || (main == b.main && sub > b.sub)
    }
  }

  const ZERO := Revision(0, 0)

  predicate Increasing(revs: seq<Revision>) {
    forall i, j :: 0 <= i < j < |revs| ==> revs[j].GreaterThan(revs[i])
  }

  /** True when `rev` is above every revision of `revs`. */
  predicate AboveAll(rev: Revision, revs: seq<Revision>) {
    forall r :: r in revs ==> rev.GreaterThan(r)
  }

  datatype Event = Put(rev: Revision) | Tombstone(rev: Revision)

  /** The events of one key, oldest first. */
  type History = seq<Event>

  function RevsOf(h: History): (revs: seq<Revision>)
    ensures |revs| == |h|
    ensures forall i :: 0 <= i < |h| ==> revs[i] == h[i].rev
  {
    seq(|h|, i requires 0 <= i < |h| => h[i].rev)
  }

  /** The key exists after `h`. */
  predicate Live(h: History) {
    |h| > 0 && h[|h| - 1].Put?
  }

  /** Main revisions start above 0, revisions increase, and only a live key is
      deleted (a delete of a dead key is refused and leaves no event). */
  ghost predicate ValidHistory(h: History) {
    && Increasing(RevsOf(h))
    && (forall i :: 0 <= i < |h| ==> h[i].rev.main > 0)
    && (forall i {:trigger DeletesLive(h, i)} :: 0 <= i < |h| ==> DeletesLive(h, i))
  }

  /** Event `i`, if it is a tombstone, follows a put. */
  predicate DeletesLive(h: History, i: nat)
    requires i < |h|
  {
    h[i].Tombstone? ==> Live(h[..i])
  }

  datatype GetResult =
    | Found(modified: Revision, created: Revision, version: int)
    | RevisionNotFound

  /** The revision of the put that began the current life of the key. */
  function CreatedBy(h: History): Revision
    requires Live(h)
  {
    if Live(h[..|h| - 1]) then CreatedBy(h[..|h| - 1]) else h[|h| - 1].rev
  }

  /** The number of puts since the key was last created. */
  function VersionOf(h: History): int {
    if Live(h) then 1 + VersionOf(h[..|h| - 1]) else 0
  }

  /** What was visible at main revision `atRev`: the latest event at or below it
      decides. */
  function Lookup(h: History, atRev: int): GetResult {
    if |h| == 0 then RevisionNotFound
    else if h[|h| - 1].rev.main > atRev then Lookup(h[..|h| - 1], atRev)
    else if Live(h) then Found(h[|h| - 1].rev, CreatedBy(h), VersionOf(h))
    else RevisionNotFound
  }

  lemma ValidPrefix(h: History)
    requires ValidHistory(h) && |h| > 0
    ensures ValidHistory(h[..|h| - 1])
  {
    var p := h[..|h| - 1];
    assert forall i :: 0 <= i < |p| ==> RevsOf(p)[i] == RevsOf(h)[i];
    forall i | 0 <= i < |p| ensures DeletesLive(p, i) {
      assert p[..i] == h[..i] && DeletesLive(h, i);
    }
  }

  lemma LastIsGreatest(h: History)
    requires ValidHistory(h) && |h| > 0
    ensures AboveAll(h[|h| - 1].rev, RevsOf(h[..|h| - 1]))
    ensures h[|h| - 1].rev.main > 0 && (h[|h| - 1].Tombstone? ==> Live(h[..|h| - 1]))
    ensures RevsOf(h) == RevsOf(h[..|h| - 1]) + [h[|h| - 1].rev]
  {
    assert DeletesLive(h, |h| - 1);
    var p := RevsOf(h[..|h| - 1]);
    forall r | r in p ensures h[|h| - 1].rev.GreaterThan(r) {
      var i :| 0 <= i < |p| && p[i] == r;
      assert RevsOf(h)[i] == r && RevsOf(h)[|h| - 1] == h[|h| - 1].rev;
    }
  }
}
