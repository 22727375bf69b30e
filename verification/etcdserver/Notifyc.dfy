/** The handshake between the raft routine and the apply routine. Each Ready has
    its own channel of capacity one. Both routines are sequential programs over the
    same list of Readys; a run is any interleaving of their steps. */
module Notifyc {

  /** What the handshake depends on in a Ready, and the role the member has while
      the raft routine handles it. */
  datatype Ready = Ready(hasSnapshot: bool, hasConfChange: bool, islead: bool)

  datatype RaftPc =
    | HandOver | LeaderSend | SaveSnap | Save | NotifySnap | ApplySnapToStorage
    | Append | Notify | WaitApply | FollowerSend | Advance

  datatype ApplyPc = WaitSnap | LoadSnap | ApplyEntries | WaitRaft | TriggerSnapshot

  datatype Event =
    | SnapSaved(i: nat) | Saved(i: nat) | Appended(i: nat) | Sent(i: nat)
    | SnapLoaded(i: nat) | EntriesApplied(i: nat) | SnapshotTriggered(i: nat)

  datatype State = State(
    readys: seq<Ready>,
    r: nat, rpc: RaftPc,    // the raft routine: Ready number and place
    a: nat, apc: ApplyPc,   // the apply routine
    chan: seq<nat>,         // tokens waiting in the channel of each Ready
    trace: seq<Event>)

  function Start(readys: seq<Ready>): State {
    State(readys, 0, HandOver, 0, FirstApply(readys, 0), seq(|readys|, _ => 0), [])
  }

  /** The apply routine waits for the snapshot only when there is one. */
  function FirstApply(readys: seq<Ready>, i: nat): ApplyPc {
    if i < |readys| && !readys[i].hasSnapshot then ApplyEntries else WaitSnap
  }

  /** Readys given to the apply routine so far; it takes them in order. */
  function HandedOver(s: State): nat {
    if s.rpc == HandOver then s.r else s.r + 1
  }

  datatype Routine = Raft | Apply

  predicate WellFormed(s: State) {
    |s.chan| == |s.readys| && s.r <= |s.readys| && s.a <= |s.readys|
  }

  /** A routine can move unless it has nothing to do, would send on a full channel,
      or would receive from an empty one. */
  predicate Enabled(s: State, who: Routine)
    requires WellFormed(s)
  {
    match who
    case Raft =>
      s.r < |s.readys| &&
      (s.rpc in {NotifySnap, Notify, WaitApply} && TokenSent(s.readys[s.r], s.rpc) ==> s.chan[s.r] < 1)
    case Apply =>
      s.a < HandedOver(s) && s.a < |s.readys| && (s.apc in {WaitSnap, WaitRaft} ==> s.chan[s.a] > 0)
  }

  /** Whether the raft routine really sends at this place of its program. */
  predicate TokenSent(rd: Ready, pc: RaftPc) {
    match pc
    case NotifySnap => rd.hasSnapshot
    case Notify => true
    case WaitApply => !rd.islead && rd.hasConfChange
    case _ => false
  }

  function RaftEvent(rd: Ready, i: nat, pc: RaftPc): seq<Event> {
    match pc
    case LeaderSend => if rd.islead then [Sent(i)] else []
    case SaveSnap => if rd.hasSnapshot then [SnapSaved(i)] else []
    case Save => [Saved(i)]
    case Append => [Appended(i)]
    case FollowerSend => if rd.islead then [] else [Sent(i)]
    case _ => []
  }

  function NextRaftPc(pc: RaftPc): RaftPc {
    match pc
    case HandOver => LeaderSend
    case LeaderSend => SaveSnap
    case SaveSnap => Save
    case Save => NotifySnap
    case NotifySnap => ApplySnapToStorage
    case ApplySnapToStorage => Append
    case Append => Notify
    case Notify => WaitApply
    case WaitApply => FollowerSend
    case FollowerSend => Advance
    case Advance => HandOver
  }

  function ApplyEvent(i: nat, pc: ApplyPc): seq<Event> {
    match pc
    case LoadSnap => [SnapLoaded(i)]
    case ApplyEntries => [EntriesApplied(i)]
    case TriggerSnapshot => [SnapshotTriggered(i)]
    case _ => []
  }

  function Step(s: State, who: Routine): State
    requires WellFormed(s) && Enabled(s, who)
  {
    match who
    case Raft =>
      var rd := s.readys[s.r];
      s.(r := if s.rpc == Advance then s.r + 1 else s.r,
         rpc := NextRaftPc(s.rpc),
         chan := if TokenSent(rd, s.rpc) then s.chan[s.r := s.chan[s.r] + 1] else s.chan,
         trace := s.trace + RaftEvent(rd, s.r, s.rpc))
    case Apply =>
      var chan' := if s.apc in {WaitSnap, WaitRaft} then s.chan[s.a := s.chan[s.a] - 1] else s.chan;
      var trace' := s.trace + ApplyEvent(s.a, s.apc);
      match s.apc
      case WaitSnap => s.(apc := LoadSnap, chan := chan')
      case LoadSnap => s.(apc := ApplyEntries, trace := trace')
      case ApplyEntries => s.(apc := WaitRaft, trace := trace')
      case WaitRaft => s.(apc := TriggerSnapshot, chan := chan')
      case TriggerSnapshot => s.(a := s.a + 1, apc := FirstApply(s.readys, s.a + 1), trace := trace')
  }

  // ---------- Counting tokens by program place ----------

  function Rank(pc: RaftPc): nat {
    match pc
    case HandOver => 0 case LeaderSend => 1 case SaveSnap => 2 case Save => 3 case NotifySnap => 4
    case ApplySnapToStorage => 5 case Append => 6 case Notify => 7 case WaitApply => 8
    case FollowerSend => 9 case Advance => 10
  }

  /** The raft routine has executed place `pc` of Ready `i`. */
  predicate RaftPast(s: State, i: nat, pc: RaftPc) {
    i < s.r || (i == s.r && Rank(s.rpc) > Rank(pc))
  }

  function ApplyRank(pc: ApplyPc): nat {
    match pc case WaitSnap => 0 case LoadSnap => 1 case ApplyEntries => 2 case WaitRaft => 3 case TriggerSnapshot => 4
  }

  predicate ApplyPast(s: State, i: nat, pc: ApplyPc) {
    i < s.a || (i == s.a && ApplyRank(s.apc) > ApplyRank(pc))
  }

  function One(b: bool): nat { if b then 1 else 0 }

  function TokensSent(s: State, i: nat): nat
    requires i < |s.readys|
  {
    One(s.readys[i].hasSnapshot && RaftPast(s, i, NotifySnap)) + One(RaftPast(s, i, Notify))
    + One(!s.readys[i].islead && s.readys[i].hasConfChange && RaftPast(s, i, WaitApply))
  }

  function TokensTaken(s: State, i: nat): nat
    requires i < |s.readys|
  {
    One(s.readys[i].hasSnapshot && ApplyPast(s, i, WaitSnap)) + One(ApplyPast(s, i, WaitRaft))
  }

  /** The two routines are where their programs can be. */
  predicate Places(s: State) {
    && WellFormed(s)
    && (s.r == |s.readys| ==> s.rpc == HandOver)
    && s.a <= HandedOver(s)
    && (s.a == HandedOver(s) ==> s.apc == FirstApply(s.readys, s.a))
    && (s.a < |s.readys| && !s.readys[s.a].hasSnapshot ==> ApplyRank(s.apc) >= 2)
  }

  /** The channel of Ready `i` holds what was sent and not yet taken. */
  predicate Tokens(s: State, i: nat)
    requires WellFormed(s) && i < |s.readys|
  {
    s.chan[i] <= 1 && s.chan[i] + TokensTaken(s, i) == TokensSent(s, i)
  }

  /** The trace has exactly the events of the places passed. */
  predicate Recorded(s: State, i: nat)
    requires i < |s.readys|
  {
    RaftRecorded(s, i) && ApplyRecorded(s, i)
  }

  predicate RaftRecorded(s: State, i: nat)
    requires i < |s.readys|
  {
    && (Saved(i) in s.trace <==> RaftPast(s, i, Save))
    && (Appended(i) in s.trace <==> RaftPast(s, i, Append))
    && (SnapSaved(i) in s.trace <==> s.readys[i].hasSnapshot && RaftPast(s, i, SaveSnap))
    && (Sent(i) in s.trace <==> RaftPast(s, i, if s.readys[i].islead then LeaderSend else FollowerSend))
  }

  predicate ApplyRecorded(s: State, i: nat)
    requires i < |s.readys|
  {
    && (EntriesApplied(i) in s.trace <==> ApplyPast(s, i, ApplyEntries))
    && (SnapLoaded(i) in s.trace <==> s.readys[i].hasSnapshot && ApplyPast(s, i, LoadSnap))
    && (SnapshotTriggered(i) in s.trace <==> ApplyPast(s, i, TriggerSnapshot))
  }

  /** The protocol invariant. */
  ghost predicate Inv(s: State) {
    Places(s) && forall i :: 0 <= i < |s.readys| ==> Tokens(s, i) && Recorded(s, i)
  }

  lemma StartInv(readys: seq<Ready>)
    ensures Inv(Start(readys))
  {
  }

  /** A step of the raft routine moves only its own place. */
  lemma RaftMoves(s: State, i: nat, pc: RaftPc)
    requires Places(s) && Enabled(s, Raft) && i < |s.readys|
    ensures RaftPast(Step(s, Raft), i, pc) <==> (RaftPast(s, i, pc) || (i == s.r && (pc == s.rpc || s.rpc == Advance)))
  {
  }

  lemma RaftStepTokens(s: State, i: nat)
    requires Places(s) && Enabled(s, Raft) && i < |s.readys| && Tokens(s, i)
    ensures Tokens(Step(s, Raft), i)
  {
    RaftMoves(s, i, NotifySnap);
    RaftMoves(s, i, Notify);
    RaftMoves(s, i, WaitApply);
  }

  lemma RaftStepRecorded(s: State, i: nat)
    requires Places(s) && Enabled(s, Raft) && i < |s.readys| && Recorded(s, i)
    ensures Recorded(Step(s, Raft), i)
  {
    RaftStepOwn(s, i);
    RaftTraces(s, EntriesApplied(i));
    RaftTraces(s, SnapLoaded(i));
    RaftTraces(s, SnapshotTriggered(i));
  }

  lemma RaftStepOwn(s: State, i: nat)
    requires Places(s) && Enabled(s, Raft) && i < |s.readys| && RaftRecorded(s, i)
    ensures RaftRecorded(Step(s, Raft), i)
  {
    RaftMoves(s, i, Save);
    RaftMoves(s, i, Append);
    RaftMoves(s, i, SaveSnap);
    RaftMoves(s, i, if s.readys[i].islead then LeaderSend else FollowerSend);
    RaftTraces(s, Saved(i));
    RaftTraces(s, Appended(i));
    RaftTraces(s, SnapSaved(i));
    RaftTraces(s, Sent(i));
  }

  lemma RaftTraces(s: State, e: Event)
    requires Places(s) && Enabled(s, Raft)
    ensures e in Step(s, Raft).trace <==> e in s.trace || e in RaftEvent(s.readys[s.r], s.r, s.rpc)
    ensures Step(s, Raft).a == s.a && Step(s, Raft).apc == s.apc && Step(s, Raft).readys == s.readys
  {
  }

  lemma ApplyStepTokens(s: State, i: nat)
    requires Places(s) && Enabled(s, Apply) && i < |s.readys| && Tokens(s, i)
    ensures Tokens(Step(s, Apply), i)
  {
  }

  lemma ApplyStepRecorded(s: State, i: nat)
    requires Places(s) && Enabled(s, Apply) && i < |s.readys| && Recorded(s, i)
    ensures Recorded(Step(s, Apply), i)
  {
    if s.readys[i].hasSnapshot {
      ApplyMoves(s, i, LoadSnap);
    }
    ApplyMoves(s, i, ApplyEntries);
    ApplyMoves(s, i, TriggerSnapshot);
    var ev := ApplyEvent(s.a, s.apc);
    assert Step(s, Apply).trace == s.trace + ev && Step(s, Apply).r == s.r && Step(s, Apply).rpc == s.rpc;
    assert forall e :: e in s.trace + ev <==> e in s.trace || e in ev;
  }

  /** A step of the apply routine moves only its own place. */
  lemma ApplyMoves(s: State, i: nat, pc: ApplyPc)
    requires Places(s) && Enabled(s, Apply) && i < |s.readys| && (ApplyRank(pc) < 2 ==> s.readys[i].hasSnapshot)
    ensures ApplyPast(Step(s, Apply), i, pc) <==> (ApplyPast(s, i, pc) || (i == s.a && pc == s.apc))
  {
  }

  lemma StepPlaces(s: State, who: Routine)
    requires Places(s) && Enabled(s, who)
    ensures Places(Step(s, who)) && Step(s, who).readys == s.readys
  {
  }

  lemma StepInv(s: State, who: Routine)
    requires Inv(s) && Enabled(s, who)
    ensures Inv(Step(s, who)) && Step(s, who).readys == s.readys
  {
    StepPlaces(s, who);
    forall i | 0 <= i < |s.readys| ensures Tokens(Step(s, who), i) && Recorded(Step(s, who), i) {
      match who
      case Raft => RaftStepTokens(s, i); RaftStepRecorded(s, i);
      case Apply => ApplyStepTokens(s, i); ApplyStepRecorded(s, i);
    }
  }

  // ---------- What the handshake guarantees ----------

  /** The orderings, read off a state: who waits for whom. */
  lemma Guarantees(s: State, i: nat)
    requires Inv(s) && i < |s.readys|
    ensures ApplyPast(s, i, WaitRaft) ==> RaftPast(s, i, Save) && RaftPast(s, i, Append)
    ensures s.readys[i].hasSnapshot && ApplyPast(s, i, WaitSnap) ==> RaftPast(s, i, SaveSnap) && RaftPast(s, i, Save)
    ensures !s.readys[i].islead && s.readys[i].hasConfChange && RaftPast(s, i, WaitApply) ==> ApplyPast(s, i, ApplyEntries)
  {
    assert Tokens(s, i);
  }

  /** Every step of the trace was preceded by what it has to wait for. */
  ghost predicate Ordered(readys: seq<Ready>, trace: seq<Event>) {
    forall p :: 0 <= p < |trace| ==> Preceded(readys, trace[..p], trace[p])
  }

  predicate Preceded(readys: seq<Ready>, before: seq<Event>, e: Event) {
    match e
    case SnapshotTriggered(i) => Saved(i) in before && Appended(i) in before && EntriesApplied(i) in before
    case SnapLoaded(i) => SnapSaved(i) in before && Saved(i) in before
    case Sent(i) =>
      i < |readys| && !readys[i].islead ==>
        Saved(i) in before && Appended(i) in before &&
        (readys[i].hasConfChange ==> EntriesApplied(i) in before && (readys[i].hasSnapshot ==> SnapLoaded(i) in before))
    case _ => true
  }

  lemma RaftEventPreceded(s: State)
    requires Inv(s) && Enabled(s, Raft) && |RaftEvent(s.readys[s.r], s.r, s.rpc)| > 0
    ensures Preceded(s.readys, s.trace, RaftEvent(s.readys[s.r], s.r, s.rpc)[0])
  {
    assert Recorded(s, s.r);
    Guarantees(s, s.r);
  }

  lemma ApplyEventPreceded(s: State)
    requires Inv(s) && Enabled(s, Apply) && |ApplyEvent(s.a, s.apc)| > 0
    ensures Preceded(s.readys, s.trace, ApplyEvent(s.a, s.apc)[0])
  {
    assert Recorded(s, s.a);
    Guarantees(s, s.a);
  }

  lemma OrderedAppend(readys: seq<Ready>, t: seq<Event>, ev: seq<Event>)
    requires Ordered(readys, t) && |ev| <= 1 && (|ev| == 1 ==> Preceded(readys, t, ev[0]))
    ensures Ordered(readys, t + ev)
  {
    forall p | 0 <= p < |t + ev| ensures Preceded(readys, (t + ev)[..p], (t + ev)[p]) {
      assert (t + ev)[..p] == if p == |t| then t else t[..p];
    }
  }

  lemma OrderedStep(s: State, who: Routine)
    requires Inv(s) && Enabled(s, who) && Ordered(s.readys, s.trace)
    ensures Ordered(s.readys, Step(s, who).trace)
  {
    match who
    case Raft =>
      if |RaftEvent(s.readys[s.r], s.r, s.rpc)| > 0 { RaftEventPreceded(s); }
      OrderedAppend(s.readys, s.trace, RaftEvent(s.readys[s.r], s.r, s.rpc));
    case Apply =>
      if |ApplyEvent(s.a, s.apc)| > 0 { ApplyEventPreceded(s); }
      OrderedAppend(s.readys, s.trace, ApplyEvent(s.a, s.apc));
  }

  ghost predicate CanRun(s: State, schedule: seq<Routine>)
    decreases |schedule|
  {
    |schedule| > 0 ==> WellFormed(s) && Enabled(s, schedule[0]) && CanRun(Step(s, schedule[0]), schedule[1..])
  }

  ghost function RunAll(s: State, schedule: seq<Routine>): State
    requires CanRun(s, schedule)
    decreases |schedule|
  {
    if |schedule| == 0 then s else RunAll(Step(s, schedule[0]), schedule[1..])
  }

  lemma {:induction false} RunOrdered(s: State, schedule: seq<Routine>)
    requires Inv(s) && Ordered(s.readys, s.trace) && CanRun(s, schedule)
    ensures Inv(RunAll(s, schedule)) && Ordered(s.readys, RunAll(s, schedule).trace)
    ensures RunAll(s, schedule).readys == s.readys
    decreases |schedule|
  {
    if |schedule| > 0 {
      OrderedStep(s, schedule[0]);
      StepInv(s, schedule[0]);
      RunOrdered(Step(s, schedule[0]), schedule[1..]);
    }
  }

  /** For every list of Readys and every interleaving: a snapshot is triggered only
      after that Ready's entries are saved and appended; a received snapshot is
      loaded only after it is saved; a non-leader sends only after saving, and
      after applyEntries when the Ready commits a configuration change, with or
      without a snapshot in the Ready. */
  lemma HandshakeIsSafe(readys: seq<Ready>, schedule: seq<Routine>)
    requires CanRun(Start(readys), schedule)
    ensures Ordered(readys, RunAll(Start(readys), schedule).trace)
  {
    StartInv(readys);
    RunOrdered(Start(readys), schedule);
  }

  /** Nothing is left out: when both routines are through with all Readys, each was saved,
      appended, sent and applied and had its chance of a snapshot, and exactly the received
      snapshots were saved and loaded. */
  lemma NothingIsLeftOut(readys: seq<Ready>, schedule: seq<Routine>, i: nat)
    requires CanRun(Start(readys), schedule) && i < |readys|
    requires var s := RunAll(Start(readys), schedule); s.r == |readys| && s.a == |readys|
    ensures var trace := RunAll(Start(readys), schedule).trace;
            && Saved(i) in trace && Appended(i) in trace && Sent(i) in trace
            && EntriesApplied(i) in trace && SnapshotTriggered(i) in trace
            && (SnapSaved(i) in trace <==> readys[i].hasSnapshot) && (SnapLoaded(i) in trace <==> readys[i].hasSnapshot)
  {
    StartInv(readys);
    RunOrdered(Start(readys), schedule);
    assert Recorded(RunAll(Start(readys), schedule), i);
  }

  /** The two routines never wait for each other: until every Ready is handled by
      both, one of them can move. */
  lemma NoDeadlock(s: State)
    requires Inv(s) && !(s.r == |s.readys| && s.a == |s.readys|)
    ensures Enabled(s, Raft) || Enabled(s, Apply)
  {
    if s.r < |s.readys| {
      assert Tokens(s, s.r);
    }
    if s.a < |s.readys| {
      assert Tokens(s, s.a);
    }
  }
}
