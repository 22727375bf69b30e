/** The key index as the program keeps it: an object whose list of generations is
    edited in place. Each method is proved against the operation of KeyIndexSpec. */
module KeyIndexes {
  import opened Bytes
  import opened Revisions
  import opened KeyIndexSpec
  import Laws = KeyIndexLaws

  lemma {:induction false} ClosedGeneration(gens: seq<Generation>, lo: Revision, i: nat)
    requires Valid(gens, lo) && i < |gens| - 1
    ensures |gens[i].revs| >= 2
    decreases |gens|
  {
    if i > 0 {
      ClosedGeneration(gens[1..], gens[0].revs[|gens[0].revs| - 1], i - 1);
    }
  }

  /** Generations do not overlap: everything before generation `i` is below the
      revision that created it. */
  lemma {:induction false} EarlierIsBelow(gens: seq<Generation>, lo: Revision, i: nat)
    requires Valid(gens, lo) && i < |gens| && !gens[i].IsEmpty()
    ensures gens[i].created.GreaterThan(lo) && !gens[i].created.GreaterThan(gens[i].revs[0])
    ensures AboveAll(gens[i].created, AllRevs(gens[..i]))
    decreases |gens|
  {
    if i > 0 {
      var g := gens[0];
      EarlierIsBelow(gens[1..], g.revs[|g.revs| - 1], i - 1);
      assert gens[..i][1..] == gens[1..][..i - 1];
      forall r | r in AllRevs(gens[..i]) ensures gens[i].created.GreaterThan(r) {
        if r in g.revs {
          var j :| 0 <= j < |g.revs| && g.revs[j] == r;
          assert j == |g.revs| - 1 || g.revs[|g.revs| - 1].GreaterThan(r);
        }
      }
      assert !g.revs[0].GreaterThan(g.revs[|g.revs| - 1]);
    }
  }

  lemma RevAt(gens: seq<Generation>, i: nat, j: nat)
    requires i < |gens| && j < |gens[i].revs|
    ensures gens[i].revs[j] in AllRevs(gens)
    decreases i
  {
    if i > 0 { RevAt(gens[1..], i - 1, j); }
  }

  lemma AllRevsNext(gens: seq<Generation>, start: nat, i: nat)
    requires start <= i < |gens|
    ensures AllRevs(gens[start..i + 1]) == AllRevs(gens[start..i]) + gens[i].revs
  {
    AllRevsConcat(gens[start..i], [gens[i]]);
    assert gens[start..i + 1] == gens[start..i] + [gens[i]];
    assert AllRevs([gens[i]]) == gens[i].revs;
  }

  lemma SkippedIsBelow(gens: seq<Generation>, start: nat, rev: int)
    requires start <= |gens|
    requires AboveAll(Revision(rev, 0), AllRevs(gens[..start]))
    ensures CollapsedSince(AllRevs(gens[start..]), rev) == CollapsedSince(AllRevs(gens), rev)
  {
    AllRevsConcat(gens[..start], gens[start..]);
    assert gens == gens[..start] + gens[start..];
    Laws.CollapsedSinceConcat(AllRevs(gens[..start]), AllRevs(gens[start..]), rev);
  }

  lemma CompactedIsBelow(gens: seq<Generation>, atRev: int, modified: Revision)
    requires Valid(gens, ZERO) && forall r :: r in AllRevs(gens) ==> !r.GreaterThan(modified)
    ensures Valid(CompactGens(gens, atRev), ZERO)
    ensures forall r :: r in AllRevs(CompactGens(gens, atRev)) ==> !r.GreaterThan(modified)
  {
    CompactIsValid(gens, ZERO, atRev);
    Laws.CompactedRevs(gens, ZERO, atRev);
  }

  lemma CollapsedNext(seen: seq<Revision>, revs: seq<Revision>, j: nat, rev: int)
    requires j < |revs|
    ensures var acc := CollapsedSince(seen + revs[..j], rev);
            CollapsedSince(seen + revs[..j + 1], rev) ==
            if Revision(rev, 0).GreaterThan(revs[j]) then acc else CollapseStep(acc, revs[j])
  {
    assert (seen + revs[..j + 1])[..|seen| + j] == seen + revs[..j];
  }

  class KeyIndex {
    const key: Key
    var modified: Revision
    var generations: seq<Generation>

    ghost predicate Valid()
      reads this
    {
      && (|generations| == 0 || KeyIndexSpec.Valid(generations, ZERO))
      && forall r :: r in AllRevs(generations) ==> !r.GreaterThan(modified)
    }

    constructor (key: Key)
      ensures Valid() && this.key == key && generations == [] && modified == ZERO
    {
      this.key := key;
      modified, generations := ZERO, [];
    }

    predicate IsEmpty()
      reads this
    {
      |generations| == 1 && generations[0].IsEmpty()
    }

    method Put(main: int, sub: int)
      requires Valid() && main > 0
      requires Revision(main, sub).GreaterThan(modified)
      modifies this
      ensures Valid() && modified == Revision(main, sub)
      ensures generations == PutGens(old(generations), modified)
    {
      var rev := Revision(main, sub);
      ghost var before := generations;
      if |generations| == 0 {
        generations := generations + [NO_GENERATION];
      }
      PutIsValid(generations, ZERO, rev);
      PutKeepsRevs(generations, rev);
      var last := |generations| - 1;
      var g := generations[last];
      if |g.revs| == 0 {
        g := g.(created := rev);
      }
      g := g.(revs := g.revs + [rev]);
      g := g.(ver := g.ver + 1);
      generations := generations[last := g];
      modified := rev;
      assert generations == PutGens(before, rev);
      assert |before| == 0 ==> PutGens([NO_GENERATION], rev) == PutGens(before, rev);
    }

    /** Begin again from a record: its revision, with the creation and version stored in
        it. A key index that already has generations is a panic in the program. */
    method Restore(created: Revision, rev: Revision, ver: int)
      requires Valid() && |generations| == 0
      requires created.main > 0 && created.GreaterThan(ZERO) && !created.GreaterThan(rev)
      modifies this
      ensures Valid() && modified == rev && generations == [Generation(ver, created, [rev])]
    {
      modified := rev;
      generations := generations + [Generation(ver, created, [rev])];
      assert AllRevs(generations[1..]) == [];
    }

    /** False stands for the "revision not found" error: the key is dead. */
    method Tombstone(main: int, sub: int) returns (ok: bool)
      requires Valid() && main > 0 && |generations| > 0 && !IsEmpty()
      requires !LastIsEmpty(generations) ==> Revision(main, sub).GreaterThan(modified)
      modifies this
      ensures Valid() && ok == !LastIsEmpty(old(generations))
      ensures ok ==> generations == TombstoneGens(old(generations), Revision(main, sub)) && modified == Revision(main, sub)
      ensures !ok ==> generations == old(generations) && modified == old(modified)
    {
      if generations[|generations| - 1].IsEmpty() {
        return false;
      }
      TombstoneIsValid(generations, ZERO, Revision(main, sub));
      TombstoneKeepsRevs(generations, Revision(main, sub));
      Put(main, sub);
      generations := generations + [NO_GENERATION];
      return true;
    }

    static method WalkBack(revs: seq<Revision>, atRev: int) returns (n: int)
      ensures n == Walk(revs, atRev)
    {
      var l := |revs|;
      for i := 0 to l
        invariant forall j :: l - i <= j < l ==> revs[j].main > atRev
      {
        if !(revs[l - i - 1].main > atRev) {
          WalkIsUnique(revs, atRev, l - i - 1);
          return l - i - 1;
        }
      }
      WalkIsUnique(revs, atRev, -1);
      return -1;
    }

    /** The generation alive at `rev`, or -1 when the key did not exist then. */
    method FindGeneration(rev: int) returns (cg: int)
      requires Valid()
      ensures -1 <= cg < |generations|
      ensures cg >= 0 ==> cg == GenerationAt(generations, rev) && !generations[cg].IsEmpty()
      ensures cg == -1 && |generations| > 0 ==> GetGens(generations, rev) == RevisionNotFound
    {
      var lastg := |generations| - 1;
      cg := lastg;
      while cg >= 0
        invariant -1 <= cg <= lastg
        invariant forall j :: cg < j <= lastg ==> generations[j].IsEmpty() || generations[j].revs[0].main > rev
      {
        var g := generations[cg];
        if |g.revs| == 0 {
          cg := cg - 1;
          continue;
        }
        if cg != lastg && g.revs[|g.revs| - 1].main <= rev {
          AliveAfter(rev, cg);
          return -1;
        }
        if g.revs[0].main <= rev {
          AliveAt(rev, cg);
          return;
        }
        cg := cg - 1;
      }
      if |generations| > 0 {
        var i := GenerationAt(generations, rev);
        if !generations[i].IsEmpty() {
          FirstIsLeast(i);
        }
      }
    }

    lemma FirstIsLeast(i: nat)
      requires Valid() && i < |generations| && !generations[i].IsEmpty()
      ensures forall j :: 0 <= j < |generations[i].revs| ==> generations[i].revs[j].main >= generations[i].revs[0].main
    {
      IncreasingAt(generations, ZERO, i);
    }

    /** A generation closed at or below `rev` is before the one alive at `rev`. */
    lemma AliveAfter(rev: int, cg: nat)
      requires Valid() && cg < |generations| - 1 && EndedBy(generations[cg], rev)
      requires forall j :: cg < j < |generations| ==> generations[j].IsEmpty() || generations[j].revs[0].main > rev
      ensures GetGens(generations, rev) == RevisionNotFound
    {
      var i := GenerationAt(generations, rev);
      if i <= cg {
        AllEnded(rev, cg);
        assert false;
      }
      if !generations[i].IsEmpty() {
        FirstIsLeast(i);
      }
    }

    lemma AllEnded(rev: int, cg: nat)
      requires Valid() && cg < |generations| && !generations[cg].IsEmpty()
      requires generations[cg].revs[0].main <= rev || EndedBy(generations[cg], rev)
      ensures forall j :: 0 <= j < cg ==> EndedBy(generations[j], rev)
    {
      EarlierIsBelow(generations, ZERO, cg);
      IncreasingAt(generations, ZERO, cg);
      forall j | 0 <= j < cg ensures EndedBy(generations[j], rev) {
        ClosedGeneration(generations, ZERO, j);
        var n := |generations[j].revs| - 1;
        RevAt(generations[..cg], j, n);
      }
    }

    lemma AliveAt(rev: int, cg: nat)
      requires Valid() && cg < |generations| && !generations[cg].IsEmpty() && generations[cg].revs[0].main <= rev
      requires cg == |generations| - 1 || !EndedBy(generations[cg], rev)
      ensures cg == GenerationAt(generations, rev)
    {
      AllEnded(rev, cg);
      var i := GenerationAt(generations, rev);
    }

    method Get(atRev: int) returns (r: GetResult)
      requires Valid() && !IsEmpty()
      ensures r == if |generations| == 0 then RevisionNotFound else GetGens(generations, atRev)
    {
      var cg := FindGeneration(atRev);
      if cg == -1 {
        return RevisionNotFound;
      }
      var g := generations[cg];
      var n := WalkBack(g.revs, atRev);
      if n != -1 {
        return Found(g.revs[n], g.created, g.ver - (|g.revs| - n - 1));
      }
      return RevisionNotFound;
    }

    /** One generation's share of Since: append what is not older than `since`,
        a later change of a transaction replacing an earlier one. */
    static method SinceIn(g: Generation, since: Revision, acc: seq<Revision>, lastMain: int, ghost seen: seq<Revision>)
      returns (revs: seq<Revision>, last: int)
      requires since.sub == 0 && acc == CollapsedSince(seen, since.main)
      requires lastMain == if |acc| == 0 then 0 else acc[|acc| - 1].main
      requires forall r :: r in g.revs ==> r.main > 0
      ensures revs == CollapsedSince(seen + g.revs, since.main)
      ensures last == if |revs| == 0 then 0 else revs[|revs| - 1].main
    {
      revs, last := acc, lastMain;
      assert seen + g.revs[..0] == seen;
      for j := 0 to |g.revs|
        invariant revs == CollapsedSince(seen + g.revs[..j], since.main)
        invariant last == if |revs| == 0 then 0 else revs[|revs| - 1].main
      {
        var r := g.revs[j];
        CollapsedNext(seen, g.revs, j, since.main);
        if since.GreaterThan(r) {
          continue;
        }
        if r.main == last {
          revs := revs[|revs| - 1 := r];
          continue;
        }
        revs := revs + [r];
        last := r.main;
      }
      assert g.revs[..|g.revs|] == g.revs;
    }

    /** Where Since starts: every earlier generation is below `since`. */
    method SinceStart(since: Revision) returns (gi: nat)
      requires Valid() && |generations| > 0
      ensures gi < |generations|
      ensures AboveAll(since, AllRevs(generations[..gi]))
    {
      gi := |generations| - 1;
      while gi > 0
        invariant 0 <= gi < |generations|
      {
        var g := generations[gi];
        if !g.IsEmpty() && since.GreaterThan(g.created) {
          EarlierIsBelow(generations, ZERO, gi);
          break;
        }
        gi := gi - 1;
      }
    }

    method Since(rev: int) returns (revs: seq<Revision>)
      requires Valid() && |generations| > 0 && !IsEmpty()
      ensures revs == CollapsedSince(AllRevs(generations), rev)
    {
      var since := Revision(rev, 0);
      var gi := SinceStart(since);
      ghost var start := gi;
      revs := [];
      var last := 0;
      assert generations[start..start] == [];
      ghost var seen := [];
      while gi < |generations|
        invariant start <= gi <= |generations|
        invariant seen == AllRevs(generations[start..gi])
        invariant revs == CollapsedSince(seen, rev)
        invariant last == if |revs| == 0 then 0 else revs[|revs| - 1].main
      {
        PositiveAt(gi);
        revs, last := SinceIn(generations[gi], since, revs, last, seen);
        AllRevsNext(generations, start, gi);
        seen := seen + generations[gi].revs;
        gi := gi + 1;
      }
      SkippedIsBelow(generations, start, rev);
      assert generations[start..gi] == generations[start..];
    }

    lemma PositiveAt(i: nat)
      requires Valid() && i < |generations|
      ensures forall r :: r in generations[i].revs ==> r.main > 0
    {
      AllRevsAbove(generations, ZERO);
      forall r | r in generations[i].revs ensures r.main > 0 {
        var j :| 0 <= j < |generations[i].revs| && generations[i].revs[j] == r;
        RevAt(generations, i, j);
      }
    }

    method DoCompact(atRev: int, available: set<Revision>)
      returns (genIdx: nat, revIndex: int, available': set<Revision>)
      requires Valid() && |generations| > 0
      ensures genIdx == GenerationAt(generations, atRev)
      ensures revIndex == Walk(generations[genIdx].revs, atRev)
      ensures available' == available + KeptRev(generations, atRev)
    {
      genIdx := 0;
      while genIdx < |generations| - 1
        invariant 0 <= genIdx < |generations|
        invariant forall j :: 0 <= j < genIdx ==> EndedBy(generations[j], atRev)
      {
        ClosedGeneration(generations, ZERO, genIdx);
        var g := generations[genIdx];
        var tomb := g.revs[|g.revs| - 1].main;
        if tomb > atRev {
          break;
        }
        genIdx := genIdx + 1;
      }
      assert genIdx == GenerationAt(generations, atRev);
      revIndex := WalkBack(generations[genIdx].revs, atRev);
      available' := available;
      if revIndex != -1 {
        available' := available' + {generations[genIdx].revs[revIndex]};
      }
    }

    method Compact(atRev: int, available: set<Revision>) returns (available': set<Revision>)
      requires Valid() && |generations| > 0 && !IsEmpty()
      modifies this
      ensures Valid() && modified == old(modified)
      ensures generations == CompactGens(old(generations), atRev)
      ensures available' == available + KeptRev(old(generations), atRev)
    {
      ghost var before := generations;
      var genIdx, revIndex;
      genIdx, revIndex, available' := DoCompact(atRev, available);
      if !generations[genIdx].IsEmpty() {
        if revIndex != -1 {
          var g := generations[genIdx];
          generations := generations[genIdx := g.(revs := g.revs[revIndex..])];
        }
        if |generations[genIdx].revs| == 1 && genIdx != |generations| - 1 {
          available' := available' - {generations[genIdx].revs[0]};
          genIdx := genIdx + 1;
        }
      }
      generations := generations[genIdx..];
      Laws.NoLoneTombstone(before, ZERO, atRev);
      assert generations == CompactGens(before, atRev);
      CompactedIsBelow(before, atRev, modified);
    }

    method Keep(atRev: int, available: set<Revision>) returns (available': set<Revision>)
      requires Valid() && |generations| > 0
      ensures available' == available + KeptRev(generations, atRev)
    {
      if IsEmpty() {
        return available;
      }
      var genIdx, revIndex;
      genIdx, revIndex, available' := DoCompact(atRev, available);
      var g := generations[genIdx];
      if !g.IsEmpty() {
        if revIndex == |g.revs| - 1 && genIdx != |generations| - 1 {
          available' := available' - {g.revs[revIndex]};
        }
      }
      Laws.NoLoneTombstone(generations, ZERO, atRev);
    }
  }

  lemma {:induction false} IncreasingAt(gens: seq<Generation>, lo: Revision, i: nat)
    requires KeyIndexSpec.Valid(gens, lo) && i < |gens|
    ensures Increasing(gens[i].revs)
    decreases |gens|
  {
    if i > 0 {
      IncreasingAt(gens[1..], gens[0].revs[|gens[0].revs| - 1], i - 1);
    }
  }
}
