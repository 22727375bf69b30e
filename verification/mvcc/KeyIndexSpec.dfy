/** The per-key index as a value: what each operation of a key index does to its
    list of generations, and the laws that tie it to the event history. */
module KeyIndexSpec {
  import opened Revisions

  /** One life of a key, from its creation to its tombstone. */
  datatype Generation = Generation(ver: int, created: Revision, revs: seq<Revision>) {
    predicate IsEmpty() { |revs| == 0 }
  }

  const NO_GENERATION := Generation(0, ZERO, [])

  /** Every revision the index still holds, oldest first. */
  function AllRevs(gens: seq<Generation>): seq<Revision> {
    if |gens| == 0 then [] else gens[0].revs + AllRevs(gens[1..])
  }

  /** True when generation `g` ended with a tombstone at or below `atRev`. */
  predicate EndedBy(g: Generation, atRev: int) {
    |g.revs| > 0 && g.revs[|g.revs| - 1].main <= atRev
  }

  ghost predicate ValidGeneration(g: Generation, lo: Revision) {
    && Increasing(g.revs)
    && (!g.IsEmpty() ==> g.created.main > 0 && g.created.GreaterThan(lo) && !g.created.GreaterThan(g.revs[0]))
  }

  /** The shape every reachable index has. `lo` is below every revision. Every
      generation but the last is closed by a tombstone and holds at least two
      revisions; only the last may be empty. */
  ghost predicate Valid(gens: seq<Generation>, lo: Revision)
    decreases |gens|
  {
    && |gens| > 0
    && ValidGeneration(gens[0], lo)
    && if |gens| == 1
       then gens[0].IsEmpty() ==> gens[0] == NO_GENERATION
       else |gens[0].revs| >= 2 && Valid(gens[1..], gens[0].revs[|gens[0].revs| - 1])
  }

  /** No revision is left: the key must not stay in the tree. */
  predicate IsEmpty(gens: seq<Generation>) {
    |gens| == 1 && gens[0].IsEmpty()
  }

  predicate LastIsEmpty(gens: seq<Generation>)
    requires |gens| > 0
  {
    gens[|gens| - 1].IsEmpty()
  }

  // ---------- The operations ----------

  function Extend(g: Generation, rev: Revision): Generation {
    Generation(g.ver + 1, if g.IsEmpty() then rev else g.created, g.revs + [rev])
  }

  function PutGens(gens: seq<Generation>, rev: Revision): seq<Generation> {
    if |gens| == 0 then [Extend(NO_GENERATION, rev)]
    else gens[..|gens| - 1] + [Extend(gens[|gens| - 1], rev)]
  }

  function TombstoneGens(gens: seq<Generation>, rev: Revision): seq<Generation> {
    PutGens(gens, rev) + [NO_GENERATION]
  }

  /** The largest position whose revision is at or below `atRev`, or -1. */
  function Walk(revs: seq<Revision>, atRev: int): (n: int)
    ensures -1 <= n < |revs|
    ensures n >= 0 ==> revs[n].main <= atRev
    ensures forall i :: n < i < |revs| ==> revs[i].main > atRev
  {
    if |revs| == 0 then -1
    else if revs[|revs| - 1].main <= atRev then |revs| - 1
    else Walk(revs[..|revs| - 1], atRev)
  }

  lemma WalkIsUnique(revs: seq<Revision>, atRev: int, n: int)
    requires -1 <= n < |revs|
    requires n >= 0 ==> revs[n].main <= atRev
    requires forall i :: n < i < |revs| ==> revs[i].main > atRev
    ensures n == Walk(revs, atRev)
  {
  }

  /** The first generation that was not yet closed at `atRev`. */
  function GenerationAt(gens: seq<Generation>, atRev: int): (i: nat)
    requires |gens| > 0
    ensures i < |gens|
    ensures forall j :: 0 <= j < i ==> EndedBy(gens[j], atRev)
    ensures i < |gens| - 1 ==> !EndedBy(gens[i], atRev)
    decreases |gens|
  {
    if |gens| > 1 && EndedBy(gens[0], atRev) then 1 + GenerationAt(gens[1..], atRev) else 0
  }

  function GetIn(g: Generation, atRev: int): GetResult {
    var n := Walk(g.revs, atRev);
    if n == -1 then RevisionNotFound
    else Found(g.revs[n], g.created, g.ver - (|g.revs| - n - 1))
  }

  function GetGens(gens: seq<Generation>, atRev: int): GetResult
    requires |gens| > 0
  {
    GetIn(gens[GenerationAt(gens, atRev)], atRev)
  }

  /** Drop what is shadowed at `atRev`: keep the newest revision at or below it
      and everything above it. */
  function Trim(g: Generation, atRev: int): Generation {
    var n := Walk(g.revs, atRev);
    if n == -1 then g else g.(revs := g.revs[n..])
  }

  function CompactGens(gens: seq<Generation>, atRev: int): (gens': seq<Generation>)
    requires |gens| > 0
    ensures |gens'| > 0
  {
    var i := GenerationAt(gens, atRev);
    [Trim(gens[i], atRev)] + gens[i + 1..]
  }

  /** The revision, if any, at or below `atRev` that a compaction retains. */
  function KeptRev(gens: seq<Generation>, atRev: int): set<Revision>
    requires |gens| > 0
  {
    var g := gens[GenerationAt(gens, atRev)];
    var n := Walk(g.revs, atRev);
    if n == -1 then {} else {g.revs[n]}
  }

  /** Append `rev`, or let it replace its predecessor from the same transaction. */
  function CollapseStep(acc: seq<Revision>, rev: Revision): seq<Revision> {
    if |acc| > 0 && acc[|acc| - 1].main == rev.main then acc[..|acc| - 1] + [rev] else acc + [rev]
  }

  /** The revisions at or after (rev, 0), only the newest of each transaction. */
  function CollapsedSince(revs: seq<Revision>, rev: int): seq<Revision> {
    if |revs| == 0 then []
    else
      var acc := CollapsedSince(revs[..|revs| - 1], rev);
      if Revision(rev, 0).GreaterThan(revs[|revs| - 1]) then acc else CollapseStep(acc, revs[|revs| - 1])
  }

  /** The index that a history builds when nothing is ever compacted. */
  function Build(h: History): (gens: seq<Generation>)
    ensures |gens| > 0
  {
    if |h| == 0 then [NO_GENERATION]
    else
      var gens := Build(h[..|h| - 1]);
      match h[|h| - 1]
      case Put(rev) => PutGens(gens, rev)
      case Tombstone(rev) => TombstoneGens(gens, rev)
  }

  // ---------- Shape lemmas ----------

  lemma {:induction false} AllRevsConcat(a: seq<Generation>, b: seq<Generation>)
    ensures AllRevs(a + b) == AllRevs(a) + AllRevs(b)
  {
    if |a| == 0 {
      assert a + b == b;
    } else {
      AllRevsConcat(a[1..], b);
      assert (a + b)[0] == a[0] && (a + b)[1..] == a[1..] + b;
    }
  }

  lemma {:induction false} AllRevsAbove(gens: seq<Generation>, lo: Revision)
    requires Valid(gens, lo)
    ensures forall r :: r in AllRevs(gens) ==> r.GreaterThan(lo) && r.main > 0
    ensures Increasing(AllRevs(gens))
    decreases |gens|
  {
    var g := gens[0];
    assert forall i :: 0 <= i < |g.revs| ==> i == 0 || g.revs[i].GreaterThan(g.revs[0]);
    if |gens| == 1 {
      assert AllRevs(gens[1..]) == [];
    } else {
      AllRevsAbove(gens[1..], g.revs[|g.revs| - 1]);
      var rest := AllRevs(gens[1..]);
      assert forall i :: 0 <= i < |rest| ==> rest[i] in rest;
    }
  }

  lemma {:induction false} PutKeepsRevs(gens: seq<Generation>, rev: Revision)
    requires |gens| > 0
    ensures AllRevs(PutGens(gens, rev)) == AllRevs(gens) + [rev]
  {
    var n := |gens| - 1;
    AllRevsConcat(gens[..n], [Extend(gens[n], rev)]);
    AllRevsConcat(gens[..n], [gens[n]]);
    assert gens == gens[..n] + [gens[n]];
    assert AllRevs([gens[n]]) == gens[n].revs;
    assert AllRevs([Extend(gens[n], rev)]) == gens[n].revs + [rev];
  }

  lemma TombstoneKeepsRevs(gens: seq<Generation>, rev: Revision)
    requires |gens| > 0
    ensures AllRevs(TombstoneGens(gens, rev)) == AllRevs(gens) + [rev]
  {
    PutKeepsRevs(gens, rev);
    AllRevsConcat(PutGens(gens, rev), [NO_GENERATION]);
    assert AllRevs([NO_GENERATION]) == [];
  }

  /** A put changes the last generation only. */
  lemma PutTail(gens: seq<Generation>, rev: Revision)
    requires |gens| > 1
    ensures PutGens(gens, rev)[0] == gens[0] && PutGens(gens, rev)[1..] == PutGens(gens[1..], rev)
    ensures TombstoneGens(gens, rev)[0] == gens[0] && TombstoneGens(gens, rev)[1..] == TombstoneGens(gens[1..], rev)
  {
    var n := |gens| - 1;
    assert gens[1..][..n - 1] == gens[..n][1..];
    assert PutGens(gens, rev)[1..] == gens[..n][1..] + [Extend(gens[n], rev)];
    assert TombstoneGens(gens, rev)[1..] == PutGens(gens, rev)[1..] + [NO_GENERATION];
  }

  lemma {:induction false} PutIsValid(gens: seq<Generation>, lo: Revision, rev: Revision)
    requires Valid(gens, lo)
    requires rev.main > 0 && rev.GreaterThan(lo) && AboveAll(rev, AllRevs(gens))
    ensures Valid(PutGens(gens, rev), lo)
    decreases |gens|
  {
    if |gens| > 1 {
      var last := gens[0].revs[|gens[0].revs| - 1];
      assert last in AllRevs(gens);
      assert forall r :: r in AllRevs(gens[1..]) ==> r in AllRevs(gens);
      PutIsValid(gens[1..], last, rev);
      PutTail(gens, rev);
    } else {
      assert forall i :: 0 <= i < |gens[0].revs| ==> gens[0].revs[i] in AllRevs(gens);
    }
  }

  lemma {:induction false} TombstoneIsValid(gens: seq<Generation>, lo: Revision, rev: Revision)
    requires Valid(gens, lo) && !LastIsEmpty(gens)
    requires rev.main > 0 && rev.GreaterThan(lo) && AboveAll(rev, AllRevs(gens))
    ensures Valid(TombstoneGens(gens, rev), lo)
    decreases |gens|
  {
    if |gens| > 1 {
      var last := gens[0].revs[|gens[0].revs| - 1];
      assert last in AllRevs(gens);
      assert forall r :: r in AllRevs(gens[1..]) ==> r in AllRevs(gens);
      TombstoneIsValid(gens[1..], last, rev);
      PutTail(gens, rev);
    } else {
      PutIsValid(gens, lo, rev);
      assert TombstoneGens(gens, rev)[1..] == [NO_GENERATION];
    }
  }

  /** A generation ended by then is dropped whole. */
  lemma CompactTail(gens: seq<Generation>, c: int)
    requires |gens| > 1 && EndedBy(gens[0], c)
    ensures CompactGens(gens, c) == CompactGens(gens[1..], c) && KeptRev(gens, c) == KeptRev(gens[1..], c)
    ensures GenerationAt(gens, c) == 1 + GenerationAt(gens[1..], c)
  {
    var i := GenerationAt(gens[1..], c);
    assert GenerationAt(gens, c) == i + 1;
    assert gens[1..][i] == gens[i + 1];
    assert gens[1..][i + 1..] == gens[i + 2..];
  }

  /** The first generation not ended by then is trimmed. */
  lemma CompactHead(gens: seq<Generation>, c: int)
    requires |gens| == 1 || (|gens| > 1 && !EndedBy(gens[0], c))
    ensures CompactGens(gens, c) == [Trim(gens[0], c)] + gens[1..]
    ensures GenerationAt(gens, c) == 0
    ensures KeptRev(gens, c) == if Walk(gens[0].revs, c) == -1 then {} else {gens[0].revs[Walk(gens[0].revs, c)]}
  {
  }

  lemma {:induction false} CompactIsValid(gens: seq<Generation>, lo: Revision, atRev: int)
    requires Valid(gens, lo)
    ensures Valid(CompactGens(gens, atRev), lo)
    ensures LastIsEmpty(CompactGens(gens, atRev)) <==> LastIsEmpty(gens)
    decreases |gens|
  {
    if |gens| > 1 && EndedBy(gens[0], atRev) {
      var last := gens[0].revs[|gens[0].revs| - 1];
      CompactIsValid(gens[1..], last, atRev);
      assert last == gens[0].revs[0] || last.GreaterThan(gens[0].revs[0]);
      CompactTail(gens, atRev);
      ValidBelow(CompactGens(gens[1..], atRev), last, lo);
    } else {
      CompactHead(gens, atRev);
      TrimIsValid(gens[0], lo, atRev);
      assert CompactGens(gens, atRev)[1..] == gens[1..];
    }
  }

  lemma TrimIsValid(g: Generation, lo: Revision, atRev: int)
    requires ValidGeneration(g, lo)
    ensures ValidGeneration(Trim(g, atRev), lo) && (Trim(g, atRev).IsEmpty() <==> g.IsEmpty())
    ensures !g.IsEmpty() ==> Trim(g, atRev).revs[|Trim(g, atRev).revs| - 1] == g.revs[|g.revs| - 1]
    ensures |g.revs| >= 2 && !EndedBy(g, atRev) ==> |Trim(g, atRev).revs| >= 2
  {
    var n := Walk(g.revs, atRev);
    if n > 0 {
      assert g.revs[n].GreaterThan(g.revs[0]);
    }
  }

  lemma ValidBelow(gens: seq<Generation>, hi: Revision, lo: Revision)
    requires Valid(gens, hi) && hi.GreaterThan(lo)
    ensures Valid(gens, lo)
  {
  }
}
