/** Laws of the per-key index: it answers like the plain history, compaction is
    invisible to reads at or above it, compactions compose, and compaction
    commutes with later writes. */
module KeyIndexLaws {
  import opened Revisions
  import opened KeyIndexSpec

  // ---------- Reads against the history ----------

  lemma WalkExtend(revs: seq<Revision>, rev: Revision, atRev: int)
    ensures Walk(revs + [rev], atRev) == if rev.main <= atRev then |revs| else Walk(revs, atRev)
  {
    assert (revs + [rev])[..|revs|] == revs;
  }

  /** A read passes the generations that ended by then. */
  lemma GetTail(gens: seq<Generation>, atRev: int)
    requires |gens| > 1
    ensures GetGens(gens, atRev) == if EndedBy(gens[0], atRev) then GetGens(gens[1..], atRev) else GetIn(gens[0], atRev)
  {
  }

  /** A write above a valid index is above its later generations, and above the end of
      the first. */
  lemma AboveTail(gens: seq<Generation>, lo: Revision, rev: Revision)
    requires Valid(gens, lo) && |gens| > 1 && AboveAll(rev, AllRevs(gens))
    ensures AboveAll(rev, AllRevs(gens[1..])) && rev.GreaterThan(gens[0].revs[|gens[0].revs| - 1])
  {
    assert gens[0].revs[|gens[0].revs| - 1] in AllRevs(gens);
    assert forall r :: r in AllRevs(gens[1..]) ==> r in AllRevs(gens);
  }

  /** What a read finds after a put. */
  function AfterPut(gens: seq<Generation>, rev: Revision, atRev: int): GetResult
    requires |gens| > 0
  {
    if rev.main > atRev then GetGens(gens, atRev)
    else
      var g := Extend(gens[|gens| - 1], rev);
      Found(rev, g.created, g.ver)
  }

  /** A read at `atRev` sees a write exactly when the write is at or below it. */
  lemma {:induction false} GetAfterPut(gens: seq<Generation>, lo: Revision, rev: Revision, atRev: int)
    requires Valid(gens, lo) && AboveAll(rev, AllRevs(gens))
    ensures GetGens(PutGens(gens, rev), atRev) == AfterPut(gens, rev, atRev)
    decreases |gens|
  {
    if |gens| == 1 {
      WalkExtend(gens[0].revs, rev, atRev);
    } else {
      AboveTail(gens, lo, rev);
      GetAfterPut(gens[1..], gens[0].revs[|gens[0].revs| - 1], rev, atRev);
      PutPasses(gens, rev, atRev);
    }
  }

  lemma PutPasses(gens: seq<Generation>, rev: Revision, atRev: int)
    requires |gens| > 1 && |gens[0].revs| > 0 && rev.GreaterThan(gens[0].revs[|gens[0].revs| - 1])
    requires GetGens(PutGens(gens[1..], rev), atRev) == AfterPut(gens[1..], rev, atRev)
    ensures GetGens(PutGens(gens, rev), atRev) == AfterPut(gens, rev, atRev)
  {
    PutTail(gens, rev);
    GetTail(gens, atRev);
    GetTail(PutGens(gens, rev), atRev);
  }

  lemma {:induction false} GetAfterTombstone(gens: seq<Generation>, lo: Revision, rev: Revision, atRev: int)
    requires Valid(gens, lo) && !LastIsEmpty(gens) && AboveAll(rev, AllRevs(gens))
    ensures GetGens(TombstoneGens(gens, rev), atRev) ==
            if rev.main > atRev then GetGens(gens, atRev) else RevisionNotFound
    decreases |gens|
  {
    if |gens| == 1 {
      WalkExtend(gens[0].revs, rev, atRev);
      GetTail(TombstoneGens(gens, rev), atRev);
      assert TombstoneGens(gens, rev)[1..] == [NO_GENERATION];
    } else {
      AboveTail(gens, lo, rev);
      PutTail(gens, rev);
      GetTail(gens, atRev);
      GetTail(TombstoneGens(gens, rev), atRev);
      if EndedBy(gens[0], atRev) {
        GetAfterTombstone(gens[1..], gens[0].revs[|gens[0].revs| - 1], rev, atRev);
      }
    }
  }

  /** The last generation of what a history builds is the key's current life. */
  lemma {:induction false} BuildLastGeneration(h: History)
    ensures LastIsEmpty(Build(h)) <==> !Live(h)
    ensures !Live(h) ==> Build(h)[|Build(h)| - 1] == NO_GENERATION
    ensures Live(h) ==> Build(h)[|Build(h)| - 1].created == CreatedBy(h)
    ensures Live(h) ==> Build(h)[|Build(h)| - 1].ver == VersionOf(h)
  {
    if |h| > 0 {
      BuildLastGeneration(h[..|h| - 1]);
    }
  }

  /** Everything a history builds is valid and holds exactly its revisions. */
  lemma {:induction false} BuildIsValid(h: History)
    requires ValidHistory(h)
    ensures Valid(Build(h), ZERO)
    ensures AllRevs(Build(h)) == RevsOf(h)
  {
    if |h| > 0 {
      ValidPrefix(h);
      BuildIsValid(h[..|h| - 1]);
      LastIsGreatest(h);
      BuildNext(h[..|h| - 1], h[|h| - 1], h);
    }
  }

  lemma BuildNext(p: History, e: Event, h: History)
    requires Valid(Build(p), ZERO) && AllRevs(Build(p)) == RevsOf(p)
    requires e.rev.main > 0 && AboveAll(e.rev, RevsOf(p)) && (e.Tombstone? ==> Live(p))
    requires |h| > 0 && h[..|h| - 1] == p && h[|h| - 1] == e
    ensures Valid(Build(h), ZERO) && AllRevs(Build(h)) == RevsOf(p) + [e.rev]
  {
    BuildLastGeneration(p);
    WriteIsValid(Build(p), e);
  }

  lemma WriteIsValid(gens: seq<Generation>, e: Event)
    requires Valid(gens, ZERO) && e.rev.main > 0 && e.rev.GreaterThan(ZERO) && AboveAll(e.rev, AllRevs(gens))
    requires e.Tombstone? ==> !LastIsEmpty(gens)
    ensures var gens' := match e case Put(rev) => PutGens(gens, rev) case Tombstone(rev) => TombstoneGens(gens, rev);
            Valid(gens', ZERO) && AllRevs(gens') == AllRevs(gens) + [e.rev]
  {
    if e.Put? {
      PutKeepsRevs(gens, e.rev);
      PutIsValid(gens, ZERO, e.rev);
    } else {
      TombstoneKeepsRevs(gens, e.rev);
      TombstoneIsValid(gens, ZERO, e.rev);
    }
  }

  /** The uncompacted index agrees with the history at every revision. */
  lemma {:induction false} GetIsLookup(h: History, atRev: int)
    requires ValidHistory(h)
    ensures GetGens(Build(h), atRev) == Lookup(h, atRev)
  {
    if |h| > 0 {
      var p := h[..|h| - 1];
      ValidPrefix(h);
      LastIsGreatest(h);
      BuildIsValid(p);
      BuildLastGeneration(p);
      BuildLastGeneration(h);
      GetIsLookup(p, atRev);
      if h[|h| - 1].Put? {
        GetAfterPut(Build(p), ZERO, h[|h| - 1].rev, atRev);
      } else {
        GetAfterTombstone(Build(p), ZERO, h[|h| - 1].rev, atRev);
      }
    }
  }

  // ---------- Compaction is invisible at and above its revision ----------

  lemma TrimWalk(g: Generation, c: int, r: int)
    requires c <= r
    ensures GetIn(Trim(g, c), r) == GetIn(g, r)
    ensures Trim(Trim(g, c), r) == Trim(g, r)
    ensures Walk(g.revs, c) <= Walk(g.revs, r)
  {
    var n, m := Walk(g.revs, c), Walk(g.revs, r);
    if n > m { assert false; }
    if n != -1 {
      WalkIsUnique(g.revs[n..], r, m - n);
    }
  }

  lemma TrimKeepsEnd(g: Generation, c: int, r: int)
    ensures EndedBy(Trim(g, c), r) <==> EndedBy(g, r)
    ensures Trim(g, c).IsEmpty() <==> g.IsEmpty()
  {
  }

  lemma {:induction false} GetAfterCompact(gens: seq<Generation>, c: int, r: int)
    requires |gens| > 0 && c <= r
    ensures GetGens(CompactGens(gens, c), r) == GetGens(gens, r)
    decreases |gens|
  {
    if |gens| > 1 && EndedBy(gens[0], c) {
      GetAfterCompact(gens[1..], c, r);
      assert CompactGens(gens, c) == CompactGens(gens[1..], c);
    } else {
      TrimWalk(gens[0], c, r);
      TrimKeepsEnd(gens[0], c, r);
      assert CompactGens(gens, c)[1..] == gens[1..];
    }
  }

  /** Compacting at `a` and then at `b` is compacting at `b`. */
  lemma {:induction false} CompactTwice(gens: seq<Generation>, a: int, b: int)
    requires |gens| > 0 && a <= b
    ensures CompactGens(CompactGens(gens, a), b) == CompactGens(gens, b)
    ensures KeptRev(CompactGens(gens, a), b) == KeptRev(gens, b)
    decreases |gens|
  {
    if |gens| > 1 && EndedBy(gens[0], a) {
      CompactTail(gens, a);
      CompactTail(gens, b);
      CompactTwice(gens[1..], a, b);
    } else {
      CompactHead(gens, a);
      TrimKeepsEnd(gens[0], a, b);
      var once := CompactGens(gens, a);
      assert once[0] == Trim(gens[0], a) && once[1..] == gens[1..];
      if |gens| > 1 && EndedBy(gens[0], b) {
        CompactTail(gens, b);
        CompactTail(once, b);
      } else {
        CompactHead(gens, b);
        CompactHead(once, b);
        TrimWalk(gens[0], a, b);
        TrimKept(gens[0], a, b);
      }
    }
  }

  lemma TrimKept(g: Generation, a: int, b: int)
    requires a <= b
    ensures GetIn(g, b).Found? ==> Walk(g.revs, b) >= 0 && GetIn(g, b).modified == g.revs[Walk(g.revs, b)]
    ensures (Walk(g.revs, b) == -1) <==> (Walk(Trim(g, a).revs, b) == -1)
    ensures Walk(g.revs, b) >= 0 ==> Trim(g, a).revs[Walk(Trim(g, a).revs, b)] == g.revs[Walk(g.revs, b)]
  {
    TrimWalk(g, a, b);
    var n := Walk(g.revs, a);
    if n != -1 {
      WalkIsUnique(g.revs[n..], b, Walk(g.revs, b) - n);
    }
  }

  // ---------- Compaction commutes with later writes ----------

  lemma ExtendTrim(g: Generation, rev: Revision, c: int)
    requires rev.main > c
    ensures Trim(Extend(g, rev), c) == Extend(Trim(g, c), rev)
    ensures Walk(Extend(g, rev).revs, c) == Walk(g.revs, c)
  {
    WalkExtend(g.revs, rev, c);
    var n := Walk(g.revs, c);
    if n != -1 {
      assert (g.revs + [rev])[n..] == g.revs[n..] + [rev];
    }
  }

  lemma {:induction false} CompactAfterPut(gens: seq<Generation>, rev: Revision, c: int)
    requires |gens| > 0 && rev.main > c
    ensures CompactGens(PutGens(gens, rev), c) == PutGens(CompactGens(gens, c), rev)
    ensures KeptRev(PutGens(gens, rev), c) == KeptRev(gens, c)
    decreases |gens|
  {
    var gens' := PutGens(gens, rev);
    if |gens| == 1 {
      ExtendTrim(gens[0], rev, c);
    } else {
      PutTail(gens, rev);
      if EndedBy(gens[0], c) {
        CompactAfterPut(gens[1..], rev, c);
        CompactTail(gens, c);
        CompactTail(gens', c);
      } else {
        CompactHead(gens, c);
        CompactHead(gens', c);
        PutTail([Trim(gens[0], c)] + gens[1..], rev);
      }
    }
  }

  lemma {:induction false} CompactOpensGeneration(gens: seq<Generation>, c: int)
    requires |gens| > 0 && !EndedBy(gens[|gens| - 1], c)
    ensures CompactGens(gens + [NO_GENERATION], c) == CompactGens(gens, c) + [NO_GENERATION]
    ensures KeptRev(gens + [NO_GENERATION], c) == KeptRev(gens, c)
    decreases |gens|
  {
    var gens' := gens + [NO_GENERATION];
    if |gens| > 1 && EndedBy(gens[0], c) {
      assert gens'[1..] == gens[1..] + [NO_GENERATION];
      CompactOpensGeneration(gens[1..], c);
      assert CompactGens(gens', c) == CompactGens(gens'[1..], c);
      assert CompactGens(gens, c) == CompactGens(gens[1..], c);
    } else {
      assert gens'[1..] == gens[1..] + [NO_GENERATION];
    }
  }

  lemma CompactAfterTombstone(gens: seq<Generation>, rev: Revision, c: int)
    requires |gens| > 0 && rev.main > c
    ensures CompactGens(TombstoneGens(gens, rev), c) == TombstoneGens(CompactGens(gens, c), rev)
    ensures KeptRev(TombstoneGens(gens, rev), c) == KeptRev(gens, c)
  {
    CompactAfterPut(gens, rev, c);
    CompactOpensGeneration(PutGens(gens, rev), c);
  }

  // ---------- What compaction removes ----------

  lemma TrimmedRevs(g: Generation, c: int)
    requires Increasing(g.revs)
    ensures forall r :: r in Trim(g, c).revs <==>
              r in g.revs && (r.main > c || (Walk(g.revs, c) != -1 && r == g.revs[Walk(g.revs, c)]))
  {
    var n := Walk(g.revs, c);
    if n != -1 {
      assert g.revs == g.revs[..n] + g.revs[n..];
      forall i | 0 <= i < n ensures g.revs[i].main <= c && g.revs[i] != g.revs[n] {
        assert g.revs[n].GreaterThan(g.revs[i]);
      }
    }
  }

  /** Compaction keeps exactly the revisions above `c` and the kept one. */
  lemma CompactedRevs(gens: seq<Generation>, lo: Revision, c: int)
    requires Valid(gens, lo)
    ensures forall r :: r in AllRevs(CompactGens(gens, c)) <==> r in AllRevs(gens) && (r.main > c || r in KeptRev(gens, c))
    ensures forall r :: r in KeptRev(gens, c) ==> r in AllRevs(gens) && r.main <= c
  {
    forall r
      ensures r in AllRevs(CompactGens(gens, c)) <==> r in AllRevs(gens) && (r.main > c || r in KeptRev(gens, c))
      ensures r in KeptRev(gens, c) ==> r in AllRevs(gens) && r.main <= c
    {
      CompactedRev(gens, lo, c, r);
    }
  }

  lemma {:induction false} CompactedRev(gens: seq<Generation>, lo: Revision, c: int, r: Revision)
    requires Valid(gens, lo)
    ensures r in AllRevs(CompactGens(gens, c)) <==> r in AllRevs(gens) && (r.main > c || r in KeptRev(gens, c))
    ensures r in KeptRev(gens, c) ==> r in AllRevs(gens) && r.main <= c
    decreases |gens|
  {
    var g := gens[0];
    if |gens| > 1 && EndedBy(g, c) {
      CompactedRev(gens[1..], g.revs[|g.revs| - 1], c, r);
      CompactTail(gens, c);
      if r in g.revs {
        EndedRevs(gens, lo, c, r);
      }
    } else {
      CompactHead(gens, c);
      assert CompactGens(gens, c)[1..] == gens[1..];
      TrimmedRevs(g, c);
      if r in AllRevs(gens[1..]) {
        OpenRevs(gens, lo, c, r);
      }
    }
  }

  /** A revision of an ended generation is at or below `c` and in no later one. */
  lemma EndedRevs(gens: seq<Generation>, lo: Revision, c: int, r: Revision)
    requires Valid(gens, lo) && |gens| > 1 && EndedBy(gens[0], c) && r in gens[0].revs
    ensures r.main <= c && r !in AllRevs(gens[1..])
  {
    var g := gens[0];
    var last := g.revs[|g.revs| - 1];
    AllRevsAbove(gens[1..], last);
    var i :| 0 <= i < |g.revs| && g.revs[i] == r;
    assert i == |g.revs| - 1 || last.GreaterThan(g.revs[i]);
  }

  /** After a generation that has not ended all revisions are above `c`. */
  lemma OpenRevs(gens: seq<Generation>, lo: Revision, c: int, r: Revision)
    requires Valid(gens, lo) && (|gens| > 1 ==> !EndedBy(gens[0], c)) && r in AllRevs(gens[1..])
    ensures r.main > c
  {
    AllRevsAbove(gens[1..], gens[0].revs[|gens[0].revs| - 1]);
  }

  /** What remains is a suffix of what was there; everything dropped is at or
      below `c`. */
  lemma {:induction false} CompactedSuffix(gens: seq<Generation>, lo: Revision, c: int) returns (dropped: seq<Revision>)
    requires Valid(gens, lo)
    ensures AllRevs(gens) == dropped + AllRevs(CompactGens(gens, c))
    ensures forall r :: r in dropped ==> r.main <= c
    decreases |gens|
  {
    if |gens| > 1 && EndedBy(gens[0], c) {
      var rest := CompactedSuffix(gens[1..], gens[0].revs[|gens[0].revs| - 1], c);
      dropped := SuffixTail(gens, c, rest);
    } else {
      dropped := SuffixHead(gens, c);
    }
  }

  lemma SuffixTail(gens: seq<Generation>, c: int, rest: seq<Revision>) returns (dropped: seq<Revision>)
    requires |gens| > 1 && EndedBy(gens[0], c) && Increasing(gens[0].revs)
    requires AllRevs(gens[1..]) == rest + AllRevs(CompactGens(gens[1..], c)) && forall r :: r in rest ==> r.main <= c
    ensures AllRevs(gens) == dropped + AllRevs(CompactGens(gens, c)) && forall r :: r in dropped ==> r.main <= c
  {
    CompactTail(gens, c);
    EndedIsLow(gens[0], c);
    dropped := gens[0].revs + rest;
  }

  lemma SuffixHead(gens: seq<Generation>, c: int) returns (dropped: seq<Revision>)
    requires |gens| == 1 || (|gens| > 1 && !EndedBy(gens[0], c))
    requires Increasing(gens[0].revs)
    ensures AllRevs(gens) == dropped + AllRevs(CompactGens(gens, c)) && forall r :: r in dropped ==> r.main <= c
  {
    CompactHead(gens, c);
    dropped := TrimmedSuffix(gens[0], c);
    ReplaceHead(gens, [Trim(gens[0], c)] + gens[1..], dropped);
  }

  lemma ReplaceHead(a: seq<Generation>, b: seq<Generation>, dropped: seq<Revision>)
    requires |a| > 0 && |b| > 0 && b[1..] == a[1..] && a[0].revs == dropped + b[0].revs
    ensures AllRevs(a) == dropped + AllRevs(b)
  {
  }

  lemma EndedIsLow(g: Generation, c: int)
    requires Increasing(g.revs) && EndedBy(g, c)
    ensures forall r :: r in g.revs ==> r.main <= c
  {
    forall i | 0 <= i < |g.revs| ensures g.revs[i].main <= c {
      assert i == |g.revs| - 1 || g.revs[|g.revs| - 1].GreaterThan(g.revs[i]);
    }
  }

  lemma TrimmedSuffix(g: Generation, c: int) returns (dropped: seq<Revision>)
    requires Increasing(g.revs)
    ensures g.revs == dropped + Trim(g, c).revs && forall r :: r in dropped ==> r.main <= c
  {
    var n := Walk(g.revs, c);
    dropped := if n == -1 then [] else g.revs[..n];
    if n != -1 {
      forall i | 0 <= i < n ensures g.revs[i].main <= c {
        assert g.revs[n].GreaterThan(g.revs[i]);
      }
    }
  }

  /** The clause that would drop a lone tombstone never applies: the generation
      that compaction trims is the last one or keeps at least two revisions. */
  lemma {:induction false} NoLoneTombstone(gens: seq<Generation>, lo: Revision, c: int)
    requires Valid(gens, lo)
    ensures var i := GenerationAt(gens, c);
            i == |gens| - 1 || (|Trim(gens[i], c).revs| >= 2 && Walk(gens[i].revs, c) != |gens[i].revs| - 1)
    decreases |gens|
  {
    if |gens| > 1 && EndedBy(gens[0], c) {
      NoLoneTombstone(gens[1..], gens[0].revs[|gens[0].revs| - 1], c);
    }
  }

  // ---------- since ----------

  lemma {:induction false} CollapsedSinceConcat(low: seq<Revision>, high: seq<Revision>, rev: int)
    requires forall r :: r in low ==> Revision(rev, 0).GreaterThan(r)
    ensures CollapsedSince(low + high, rev) == CollapsedSince(high, rev)
    decreases |low| + |high|
  {
    if |high| > 0 {
      assert (low + high)[..|low + high| - 1] == low + high[..|high| - 1];
      CollapsedSinceConcat(low, high[..|high| - 1], rev);
    } else if |low| > 0 {
      assert low + high == low;
      assert low == low[..|low| - 1] + [low[|low| - 1]];
      CollapsedSinceConcat(low[..|low| - 1], [], rev);
      assert low[..|low| - 1] + [] == low[..|low| - 1];
    }
  }

  /** A compaction strictly below `rev` does not change what a watcher sees. */
  lemma SinceAfterCompact(gens: seq<Generation>, lo: Revision, c: int, rev: int)
    requires Valid(gens, lo) && c < rev
    ensures CollapsedSince(AllRevs(CompactGens(gens, c)), rev) == CollapsedSince(AllRevs(gens), rev)
  {
    var dropped := CompactedSuffix(gens, lo, c);
    CollapsedSinceConcat(dropped, AllRevs(CompactGens(gens, c)), rev);
  }

  /** `r` is the newest change of its transaction, and not older than `rev`. */
  ghost predicate NewestOfTxn(revs: seq<Revision>, rev: int, r: Revision) {
    r in revs && !Revision(rev, 0).GreaterThan(r) && forall q :: q in revs && q.main == r.main ==> !q.GreaterThan(r)
  }

  /** What since returns, without reference to how it is computed. */
  lemma {:induction false} CollapsedSinceMeans(revs: seq<Revision>, rev: int)
    requires Increasing(revs)
    ensures forall r :: r in CollapsedSince(revs, rev) <==> NewestOfTxn(revs, rev, r)
    ensures forall i, j :: 0 <= i < j < |CollapsedSince(revs, rev)| ==>
              CollapsedSince(revs, rev)[i].main < CollapsedSince(revs, rev)[j].main
  {
    if |revs| > 0 {
      var n := |revs| - 1;
      var p, last := revs[..n], revs[n];
      CollapsedSinceMeans(p, rev);
      var acc := CollapsedSince(p, rev);
      var out := CollapsedSince(revs, rev);
      assert forall r :: r in revs <==> r in p || r == last;
      assert forall q :: q in p ==> last.GreaterThan(q);
      forall i | 0 <= i < |acc| ensures acc[i].main <= last.main {
        assert acc[i] in acc;
      }
      if Revision(rev, 0).GreaterThan(last) {
        forall r ensures r in out <==> NewestOfTxn(revs, rev, r) {
          assert NewestOfTxn(p, rev, r) ==> r in p && last.GreaterThan(r);
        }
      } else {
        var m := |acc| - 1;
        if |acc| > 0 && acc[m].main == last.main {
          assert out == acc[..m] + [last];
        }
        forall r ensures r in out <==> NewestOfTxn(revs, rev, r) {
          CollapseMember(acc, last, r);
        }
      }
    }
  }

  lemma CollapseMember(acc: seq<Revision>, last: Revision, r: Revision)
    requires forall i, j :: 0 <= i < j < |acc| ==> acc[i].main < acc[j].main
    requires forall i :: 0 <= i < |acc| ==> acc[i].main <= last.main
    ensures r in CollapseStep(acc, last) <==> r == last || (r in acc && r.main != last.main)
  {
    var out := CollapseStep(acc, last);
    if r in acc && r.main != last.main {
      var i :| 0 <= i < |acc| && acc[i] == r;
      assert out[i] == r;
    }
    if r in out && r != last {
      var i :| 0 <= i < |out| && out[i] == r;
      assert i < |acc| && acc[i] == r;
    }
  }
}
