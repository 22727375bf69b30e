/** Two pieces of the raft node: restarting as the only member of the cluster, and the
    pass over outgoing messages. */
module RaftNodes {
  import opened Collections

  type NodeID = nat

  // ---------- Forcing a single-member configuration ----------

  datatype Entry =
    | Normal(term: nat, index: nat)
    | AddNode(term: nat, index: nat, id: NodeID)
    | RemoveNode(term: nat, index: nat, id: NodeID)
    | UpdateNode(term: nat, index: nat, id: NodeID)

  /** The members once the entries are applied on top of the voters of the snapshot. */
  function Members(voters: set<NodeID>, ents: seq<Entry>): set<NodeID> {
    if |ents| == 0 then voters else Changed(Members(voters, ents[..|ents| - 1]), ents[|ents| - 1])
  }

  function Changed(members: set<NodeID>, e: Entry): set<NodeID> {
    if e.AddNode? then members + {e.id} else if e.RemoveNode? then members - {e.id} else members
  }

  /** Entry follows entry without a gap, the first at `next`. */
  predicate Follow(ents: seq<Entry>, next: nat) {
    forall i :: 0 <= i < |ents| ==> ents[i].index == next + i
  }

  predicate AscendingIDs(ids: seq<NodeID>) {
    forall i, j :: 0 <= i < j < |ids| ==> ids[i] < ids[j]
  }

  /** The members, sorted. */
  method GetIDs(voters: set<NodeID>, ents: seq<Entry>) returns (sids: seq<NodeID>)
    ensures AscendingIDs(sids) && forall id :: id in sids <==> id in Members(voters, ents)
  {
    var ids := voters;
    for i := 0 to |ents|
      invariant ids == Members(voters, ents[..i])
    {
      assert ents[..i + 1][..i] == ents[..i];
      match ents[i] {
        case AddNode(_, _, id) => ids := ids + {id};
        case RemoveNode(_, _, id) => ids := ids - {id};
        case _ =>
      }
    }
    assert ents[..|ents|] == ents;
    sids := SortIDs(ids);
  }

  method SortIDs(ids: set<NodeID>) returns (sorted: seq<NodeID>)
    ensures AscendingIDs(sorted) && forall id :: id in sorted <==> id in ids
  {
    sorted := [];
    var rest := ids;
    while rest != {}
      invariant rest <= ids && AscendingIDs(sorted)
      invariant forall id :: id in sorted <==> id in ids - rest
    {
      var id := AnyOf(rest);
      var n: nat := |sorted|;
      while n > 0 && id < sorted[n - 1]
        invariant n <= |sorted| && forall k :: n <= k < |sorted| ==> id < sorted[k]
      {
        n := n - 1;
      }
      InsertedID(sorted, id, n);
      InsertedMembers(sorted, id, n);
      sorted, rest := sorted[..n] + [id] + sorted[n..], rest - {id};
    }
  }

  lemma InsertedID(sorted: seq<NodeID>, id: NodeID, n: nat)
    requires AscendingIDs(sorted) && n <= |sorted| && id !in sorted
    requires n > 0 ==> sorted[n - 1] <= id
    requires forall k :: n <= k < |sorted| ==> id < sorted[k]
    ensures AscendingIDs(sorted[..n] + [id] + sorted[n..])
  {
    assert n > 0 ==> sorted[n - 1] in sorted;
    assert forall k :: 0 <= k < n ==> sorted[k] <= sorted[n - 1];
  }

  lemma InsertedMembers(sorted: seq<NodeID>, id: NodeID, n: nat)
    requires n <= |sorted|
    ensures forall x :: x in sorted[..n] + [id] + sorted[n..] <==> x in sorted || x == id
  {
    assert sorted == sorted[..n] + sorted[n..];
  }

  /** From the entry after `from` on, the members always include `self`. */
  ghost predicate KeepsSelf(voters: set<NodeID>, ents: seq<Entry>, from: nat, self: NodeID) {
    forall n: nat {:trigger SelfAfter(voters, ents, n, self)} :: from < n <= |ents| ==> SelfAfter(voters, ents, n, self)
  }

  ghost predicate SelfAfter(voters: set<NodeID>, ents: seq<Entry>, n: nat, self: NodeID)
    requires n <= |ents|
  {
    self in Members(voters, ents[..n])
  }

  /** Entries that add `self` when it is missing and then remove everyone else. */
  method CreateConfigChangeEnts(ids: seq<NodeID>, self: NodeID, term: nat, index: nat,
                                ghost voters: set<NodeID>, ghost before: seq<Entry>) returns (ents: seq<Entry>)
    requires forall id :: id in ids <==> id in Members(voters, before)
    ensures Members(voters, before + ents) == {self}
    ensures KeepsSelf(voters, before + ents, |before|, self)
    ensures Changes(ents, index + 1, term)
    ensures Members(voters, before) == {self} ==> ents == []
  {
    ents := [];
    var found := self in ids;
    var next := index + 1;
    assert before + [] == before;
    if !found {
      EntryNext(voters, before, ents, AddNode(term, next, self), self);
      ChangesNext(ents, index + 1, term, AddNode(term, next, self));
      ents := ents + [AddNode(term, next, self)];
      next := next + 1;
    }
    ghost var all := Members(voters, before + ents);
    for i := 0 to |ids|
      invariant next == index + 1 + |ents| && Changes(ents, index + 1, term)
      invariant Members(voters, before + ents) == all - (Among(ids[..i]) - {self})
      invariant KeepsSelf(voters, before + ents, |before|, self)
      invariant Members(voters, before) == {self} ==> ents == []
    {
      AmongNext(ids, i);
      assert ids[i] in ids;
      if ids[i] == self {
        continue;
      }
      EntryNext(voters, before, ents, RemoveNode(term, next, ids[i]), self);
      ChangesNext(ents, index + 1, term, RemoveNode(term, next, ids[i]));
      ents := ents + [RemoveNode(term, next, ids[i])];
      next := next + 1;
    }
    assert ids[..|ids|] == ids;
  }

  /** Membership changes of one term with indexes from `first` on. */
  predicate Changes(ents: seq<Entry>, first: nat, term: nat) {
    Follow(ents, first) && forall e :: e in ents ==> !e.Normal? && e.term == term
  }

  lemma ChangesNext(ents: seq<Entry>, first: nat, term: nat, e: Entry)
    requires Changes(ents, first, term) && !e.Normal? && e.term == term && e.index == first + |ents|
    ensures Changes(ents + [e], first, term)
  {
  }

  lemma AmongNext(ids: seq<NodeID>, i: nat)
    requires i < |ids|
    ensures Among(ids[..i + 1]) == Among(ids[..i]) + {ids[i]}
  {
    assert ids[..i + 1] == ids[..i] + [ids[i]];
  }

  lemma EntryNext(voters: set<NodeID>, before: seq<Entry>, ents: seq<Entry>, e: Entry, self: NodeID)
    requires KeepsSelf(voters, before + ents, |before|, self) && self in Changed(Members(voters, before + ents), e)
    ensures Members(voters, before + (ents + [e])) == Changed(Members(voters, before + ents), e)
    ensures KeepsSelf(voters, before + (ents + [e]), |before|, self)
  {
    MembersNext(voters, before, ents, e);
    var more := before + (ents + [e]);
    forall n: nat | |before| < n <= |more| ensures SelfAfter(voters, more, n, self) {
      if n == |more| {
        assert more[..n] == more;
      } else {
        assert more[..n] == (before + ents)[..n] && SelfAfter(voters, before + ents, n, self);
      }
    }
  }

  function Among(ids: seq<NodeID>): set<NodeID> {
    set id | id in ids
  }

  lemma MembersNext(voters: set<NodeID>, before: seq<Entry>, ents: seq<Entry>, e: Entry)
    ensures (before + (ents + [e]))[..|before + ents|] == before + ents
    ensures Members(voters, before + (ents + [e])) == Changed(Members(voters, before + ents), e)
    ensures forall n :: 0 <= n <= |before + ents| ==> (before + (ents + [e]))[..n] == (before + ents)[..n]
    ensures (before + (ents + [e]))[..|before + ents| + 1] == before + (ents + [e])
  {
    assert before + (ents + [e]) == (before + ents) + [e];
  }

  /** Restart as the only member: what was not committed is discarded, and the change of
      membership is appended and committed. The entries of the log follow the
      snapshot. */
  method RestartAsStandalone(voters: set<NodeID>, ents: seq<Entry>, snapIndex: nat, commit: nat, term: nat, self: NodeID)
    returns (ents': seq<Entry>, commit': nat)
    requires Follow(ents, snapIndex + 1) && snapIndex <= commit <= snapIndex + |ents|
    ensures Members(voters, ents') == {self} && Follow(ents', snapIndex + 1)
    ensures commit - snapIndex <= |ents'| && ents'[..commit - snapIndex] == ents[..commit - snapIndex]
    ensures KeepsSelf(voters, ents', commit - snapIndex, self)
    ensures commit' == snapIndex + |ents'| || (ents' == [] && commit' == commit)
  {
    var kept := ents;
    for i := 0 to |ents|
      invariant kept == ents && forall j :: 0 <= j < i ==> ents[j].index <= commit
    {
      assert i > 0 ==> ents[i - 1].index <= commit;
      if ents[i].index > commit {
        kept := ents[..i];
        break;
      }
    }
    assert |ents| > 0 && kept == ents ==> ents[|ents| - 1].index <= commit;
    assert kept == ents[..commit - snapIndex];
    var ids := GetIDs(voters, kept);
    var toApp := CreateConfigChangeEnts(ids, self, term, commit, voters, kept);
    ents' := kept + toApp;
    commit' := commit;
    if |ents'| != 0 {
      commit' := ents'[|ents'| - 1].index;
    }
  }

  // ---------- Outgoing messages ----------

  datatype MsgType = MsgAppResp | MsgSnap | MsgOther

  datatype Message = Message(kind: MsgType, to: NodeID)

  /** Whether the message is left for the transport: its receiver is still a member,
      no later append response makes it obsolete, and it is not a snapshot. */
  predicate Sendable(ms: seq<Message>, i: nat, removed: set<NodeID>)
    requires i < |ms|
  {
    && ms[i].to !in removed
    && ms[i].kind != MsgSnap
    && (ms[i].kind == MsgAppResp ==> forall j :: i < j < |ms| ==> ms[j].kind != MsgAppResp)
  }

  /** The snapshot messages from position `i` on, the last one first; one to a removed
      member has lost its receiver. */
  function SnapsFrom(ms: seq<Message>, removed: set<NodeID>, i: nat): seq<Message>
    decreases |ms| - i
  {
    if i >= |ms| then []
    else SnapsFrom(ms, removed, i + 1) +
         if ms[i].kind != MsgSnap then [] else if ms[i].to in removed then [ms[i].(to := 0)] else [ms[i]]
  }

  function FirstOf(ms: seq<Message>, room: nat): seq<Message> {
    if |ms| <= room then ms else ms[..room]
  }

  /** The receiver of a message that must not be sent becomes 0; snapshot messages go to
      the server loop instead: the last ones of the batch, as far as there is room. */
  method ProcessMessages(ms: array<Message>, removed: set<NodeID>, room: nat) returns (snaps: seq<Message>)
    modifies ms
    ensures forall i :: 0 <= i < ms.Length ==>
              ms[i] == if Sendable(old(ms[..]), i, removed) then old(ms[i]) else old(ms[i]).(to := 0)
    ensures snaps == FirstOf(SnapsFrom(old(ms[..]), removed, 0), room)
  {
    var sentAppResp := false;
    snaps := [];
    ghost var s := ms[..];
    var i := ms.Length;
    while i > 0
      invariant 0 <= i <= ms.Length
      invariant forall k :: 0 <= k < i ==> ms[k] == s[k]
      invariant forall k :: i <= k < ms.Length ==> ms[k] == if Sendable(s, k, removed) then s[k] else s[k].(to := 0)
      invariant sentAppResp <==> exists k :: i <= k < ms.Length && s[k].kind == MsgAppResp
      invariant snaps == FirstOf(SnapsFrom(s, removed, i), room)
    {
      i := i - 1;
      if ms[i].to in removed {
        ms[i] := ms[i].(to := 0);
      }
      if ms[i].kind == MsgAppResp {
        if sentAppResp {
          ms[i] := ms[i].(to := 0);
        } else {
          sentAppResp := true;
        }
      }
      if ms[i].kind == MsgSnap {
        if |snaps| < room {
          snaps := snaps + [ms[i]];
        }
        ms[i] := ms[i].(to := 0);
      }
    }
  }
}
