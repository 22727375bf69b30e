/** Linearizable reads: readers share a notifier, one loop serves them in rounds.
    Raft enters by its ReadIndex contract alone (section 6.4 of Ongaro's Raft
    dissertation): the index answered to a request is at least the commit index at
    the time the request was made. */
module ReadIndex {

  datatype Outcome = Ok | Failed

  datatype Option<T> = None | Some(value: T)

  /** A reader: called, holding a notifier it has not signalled yet, waiting on it,
      or returned. `commit` is the commit index when the read was called. */
  datatype Reader =
    | Called(commit: nat)
    | Holding(commit: nat, notifier: nat)
    | Waiting(commit: nat, notifier: nat)
    | Returned(commit: nat, outcome: Outcome)

  datatype ReadState = ReadState(ctx: nat, index: nat)

  /** Where the loop is. `nr` is the notifier of the round, `id` its request. */
  datatype LoopPc =
    | Idle(id: nat)
    | Signalled(id: nat)
    | Taken(id: nat, nr: nat)
    | Asked(id: nat, nr: nat)
    | Answered(nr: nat, index: nat)
    | Reached(nr: nat, index: nat)

  datatype State = State(
    commit: nat,                    // commit index of the cluster
    applied: nat,                   // entries this member has applied
    published: nat,                 // its applied index, as other routines read it
    triggered: nat,                 // last index announced to waiters
    token: bool,                    // the wake-up channel of capacity one
    notifiers: seq<Option<Outcome>>,  // None while open
    current: nat,                   // the notifier new readers pick up
    asked: map<nat, nat>,           // requests to raft and the commit index then
    pending: Option<ReadState>,     // the read state channel of capacity one
    nextId: nat,
    loop: LoopPc,
    readers: seq<Reader>)

  const START := State(0, 0, 0, 0, false, [None], 0, map[], None, 1, Idle(0), [])

  datatype Action =
    // the cluster and the apply routine
    | CommitTo(n: nat) | ApplyTo(n: nat) | PublishTo(n: nat) | TriggerAt(n: nat)
    // raft answers some request, and the channel may lose an answer
    | Answer(rs: ReadState) | LoseAnswer
    // readers
    | Call | Fetch(i: nat) | Signal(i: nat) | Wake(i: nat) | GiveUp(i: nat)
    // the loop
    | LeaderChanged | TakeToken | SwapNotifier | AskRaft | AskFails | Receive | RoundFails | CaughtUp | NotifyAll

  predicate Enabled(s: State, a: Action) {
    match a
    case CommitTo(n) => n >= s.commit
    case ApplyTo(n) => s.applied <= n <= s.commit
    case PublishTo(n) => s.published <= n <= s.applied
    case TriggerAt(n) => s.triggered <= n <= s.applied
    case Answer(rs) => s.pending.None? && rs.ctx in s.asked && s.asked[rs.ctx] <= rs.index
    case LoseAnswer => s.pending.Some?
    case Call => true
    case Fetch(i) => i < |s.readers| && s.readers[i].Called?
    case Signal(i) => i < |s.readers| && s.readers[i].Holding?
    case Wake(i) =>
      i < |s.readers| && s.readers[i].Waiting? &&
      s.readers[i].notifier < |s.notifiers| && s.notifiers[s.readers[i].notifier].Some?
    case GiveUp(i) => i < |s.readers| && s.readers[i].Waiting?
    case LeaderChanged => s.loop.Idle?
    case TakeToken => s.loop.Idle? && s.token
    case SwapNotifier => s.loop.Signalled?
    case AskRaft => s.loop.Taken?
    case AskFails => s.loop.Taken?
    case Receive => s.loop.Asked? && s.pending.Some?
    case RoundFails => s.loop.Asked?
    case CaughtUp => s.loop.Answered? && (s.published >= s.loop.index || s.triggered >= s.loop.index)
    case NotifyAll => s.loop.Reached?
  }

  /** Closing a notifier. */
  function Close(s: State, nr: nat, outcome: Outcome): State {
    var s' := s.(loop := Idle(s.nextId), nextId := s.nextId + 1);
    if nr < |s.notifiers| then s'.(notifiers := s.notifiers[nr := Some(outcome)]) else s'
  }

  function Next(s: State, a: Action): State
    requires Enabled(s, a)
  {
    match a
    case CommitTo(n) => s.(commit := n)
    case ApplyTo(n) => s.(applied := n)
    case PublishTo(n) => s.(published := n)
    case TriggerAt(n) => s.(triggered := n)
    case Answer(rs) => s.(pending := Some(rs))
    case LoseAnswer => s.(pending := None)
    case Call => s.(readers := s.readers + [Called(s.commit)])
    case Fetch(i) => s.(readers := s.readers[i := Holding(s.readers[i].commit, s.current)])
    case Signal(i) => s.(token := true, readers := s.readers[i := Waiting(s.readers[i].commit, s.readers[i].notifier)])
    case Wake(i) => s.(readers := s.readers[i := Returned(s.readers[i].commit, s.notifiers[s.readers[i].notifier].value)])
    case GiveUp(i) => s.(readers := s.readers[i := Returned(s.readers[i].commit, Failed)])
    case LeaderChanged => s.(loop := Idle(s.nextId), nextId := s.nextId + 1)
    case TakeToken => s.(token := false, loop := Signalled(s.loop.id))
    case SwapNotifier =>
      s.(notifiers := s.notifiers + [None], current := |s.notifiers|, loop := Taken(s.loop.id, s.current))
    case AskRaft => s.(asked := s.asked[s.loop.id := s.commit], loop := Asked(s.loop.id, s.loop.nr))
    case AskFails => Close(s, s.loop.nr, Failed)
    case Receive =>
      if s.pending.value.ctx == s.loop.id
      then s.(pending := None, loop := Answered(s.loop.nr, s.pending.value.index))
      else s.(pending := None)
    case RoundFails => Close(s, s.loop.nr, Failed)
    case CaughtUp => s.(loop := Reached(s.loop.nr, s.loop.index))
    case NotifyAll => Close(s, s.loop.nr, Ok)
  }

  // ---------- Invariant ----------

  predicate InRound(s: State, n: nat) {
    match s.loop
    case Idle(_) => false
    case Signalled(_) => false
    case _ => s.loop.nr == n
  }

  predicate LoopOk(s: State) {
    && s.current < |s.notifiers| && s.notifiers[s.current].None?
    && s.published <= s.applied && s.triggered <= s.applied
    && (s.pending.Some? ==> s.pending.value.ctx in s.asked && s.asked[s.pending.value.ctx] <= s.pending.value.index)
    && (forall id :: id in s.asked ==> id < s.nextId)
    && match s.loop
       case Idle(id) => id < s.nextId && id !in s.asked
       case Signalled(id) => id < s.nextId && id !in s.asked
       case Taken(id, nr) => id < s.nextId && id !in s.asked && nr != s.current && nr < |s.notifiers| && s.notifiers[nr].None?
       case Asked(id, nr) => id in s.asked && nr != s.current && nr < |s.notifiers| && s.notifiers[nr].None?
       case Answered(nr, _) => nr != s.current && nr < |s.notifiers| && s.notifiers[nr].None?
       case Reached(nr, index) => nr != s.current && nr < |s.notifiers| && s.notifiers[nr].None? && index <= s.applied
  }

  /** What the round of notifier `nr` already guarantees to its readers. */
  predicate RoundCovers(s: State, commit: nat)
    requires LoopOk(s)
  {
    match s.loop
    case Asked(id, _) => commit <= s.asked[id]
    case Answered(_, index) => commit <= index
    case Reached(_, index) => commit <= index
    case _ => true
  }

  /** A reader called at `commit` holds notifier `n`: it is open only while current
      or in the running round, that round covers the reader, and once closed
      without error everything the reader asked for is applied. */
  predicate NotifierOk(s: State, commit: nat, n: nat)
    requires LoopOk(s)
  {
    && n < |s.notifiers|
    && (s.notifiers[n].None? ==> n == s.current || InRound(s, n))
    && (InRound(s, n) ==> RoundCovers(s, commit))
    && (s.notifiers[n] == Some(Ok) ==> commit <= s.applied)
  }

  /** A reader that signalled on the current notifier left a token, or the loop has
      just consumed one and is about to swap. */
  predicate ReaderOk(s: State, rd: Reader)
    requires LoopOk(s)
  {
    && rd.commit <= s.commit
    && match rd
       case Called(_) => true
       case Holding(c, n) => NotifierOk(s, c, n)
       case Waiting(c, n) => NotifierOk(s, c, n) && (n == s.current ==> s.token || s.loop.Signalled?)
       case Returned(c, outcome) => outcome.Ok? ==> c <= s.applied
  }

  ghost predicate Inv(s: State) {
    LoopOk(s) && forall i :: 0 <= i < |s.readers| ==> ReaderOk(s, s.readers[i])
  }

  /** Steps of the round loop; all others leave it where it is. */
  predicate OfLoop(a: Action) {
    || a.LeaderChanged? || a.TakeToken? || a.SwapNotifier? || a.AskRaft? || a.AskFails?
    || a.Receive? || a.RoundFails? || a.CaughtUp? || a.NotifyAll?
  }

  lemma LoopMoves(s: State, a: Action)
    requires LoopOk(s) && Enabled(s, a) && OfLoop(a)
    ensures LoopOk(Next(s, a))
  {
  }

  lemma LoopStays(s: State, a: Action)
    requires LoopOk(s) && Enabled(s, a) && !OfLoop(a)
    ensures LoopOk(Next(s, a))
    ensures var s' := Next(s, a);
            && s'.loop == s.loop && s'.notifiers == s.notifiers && s'.current == s.current && s'.asked == s.asked
            && s'.applied >= s.applied && s'.commit >= s.commit && (s.token ==> s'.token)
  {
  }

  lemma LoopStep(s: State, a: Action)
    requires LoopOk(s) && Enabled(s, a)
    ensures LoopOk(Next(s, a))
  {
    if OfLoop(a) { LoopMoves(s, a); } else { LoopStays(s, a); }
  }

  /** What a notifier guarantees holds on through every step. */
  lemma NotifierStep(s: State, a: Action, commit: nat, n: nat)
    requires LoopOk(s) && Enabled(s, a) && LoopOk(Next(s, a)) && commit <= s.commit && NotifierOk(s, commit, n)
    ensures NotifierOk(Next(s, a), commit, n)
    ensures n == Next(s, a).current && (s.token || s.loop.Signalled?) ==> Next(s, a).token || Next(s, a).loop.Signalled?
    ensures n == Next(s, a).current ==> n == s.current
  {
    if OfLoop(a) { NotifierMoves(s, a, commit, n); } else { LoopStays(s, a); }
  }

  lemma NotifierMoves(s: State, a: Action, commit: nat, n: nat)
    requires LoopOk(s) && Enabled(s, a) && LoopOk(Next(s, a)) && OfLoop(a) && commit <= s.commit && NotifierOk(s, commit, n)
    ensures NotifierOk(Next(s, a), commit, n)
    ensures n == Next(s, a).current && (s.token || s.loop.Signalled?) ==> Next(s, a).token || Next(s, a).loop.Signalled?
    ensures n == Next(s, a).current ==> n == s.current
  {
  }

  lemma IndexesGrow(s: State, a: Action)
    requires Enabled(s, a)
    ensures Next(s, a).commit >= s.commit && Next(s, a).applied >= s.applied
  {
  }

  /** A step keeps what holds of a reader it does not move itself. */
  lemma ReaderStep(s: State, a: Action, rd: Reader)
    requires LoopOk(s) && Enabled(s, a) && LoopOk(Next(s, a)) && ReaderOk(s, rd)
    ensures ReaderOk(Next(s, a), rd)
  {
    IndexesGrow(s, a);
    if rd.Holding? || rd.Waiting? {
      NotifierStep(s, a, rd.commit, rd.notifier);
    }
  }

  lemma MovedReader(s: State, a: Action)
    requires Inv(s) && Enabled(s, a) && LoopOk(Next(s, a))
    requires a.Fetch? || a.Signal? || a.Wake? || a.GiveUp?
    ensures ReaderOk(Next(s, a), Next(s, a).readers[a.i])
  {
    assert ReaderOk(s, s.readers[a.i]);
  }

  lemma StepInv(s: State, a: Action)
    requires Inv(s) && Enabled(s, a)
    ensures Inv(Next(s, a))
  {
    LoopStep(s, a);
    var s' := Next(s, a);
    forall i | 0 <= i < |s'.readers| ensures ReaderOk(s', s'.readers[i]) {
      if i < |s.readers| && s'.readers[i] == s.readers[i] {
        ReaderStep(s, a, s.readers[i]);
      } else if !a.Call? {
        MovedReader(s, a);
      }
    }
  }

  ghost predicate CanRun(s: State, actions: seq<Action>)
    decreases |actions|
  {
    |actions| > 0 ==> Enabled(s, actions[0]) && CanRun(Next(s, actions[0]), actions[1..])
  }

  ghost function Run(s: State, actions: seq<Action>): State
    requires CanRun(s, actions)
    decreases |actions|
  {
    if |actions| == 0 then s else Run(Next(s, actions[0]), actions[1..])
  }

  lemma {:induction false} RunInv(s: State, actions: seq<Action>)
    requires Inv(s) && CanRun(s, actions)
    ensures Inv(Run(s, actions))
    decreases |actions|
  {
    if |actions| > 0 {
      StepInv(s, actions[0]);
      RunInv(Next(s, actions[0]), actions[1..]);
    }
  }

  // ---------- What readers rely on ----------

  /** In every interleaving, a read that returned without error did so only once
      this member had applied everything committed when the read was called. */
  lemma ReadsAreLinearizable(actions: seq<Action>, i: nat)
    requires CanRun(START, actions) && i < |Run(START, actions).readers|
    requires Run(START, actions).readers[i].Returned? && Run(START, actions).readers[i].outcome.Ok?
    ensures Run(START, actions).readers[i].commit <= Run(START, actions).applied
  {
    RunInv(START, actions);
    assert ReaderOk(Run(START, actions), Run(START, actions).readers[i]);
  }

  /** The commit index a reader carries is the one at its call, and it never
      changes. */
  lemma {:induction false} CallIsRecorded(s: State, actions: seq<Action>, i: nat)
    requires CanRun(s, actions) && i < |s.readers|
    ensures i < |Run(s, actions).readers| && Run(s, actions).readers[i].commit == s.readers[i].commit
    decreases |actions|
  {
    if |actions| > 0 {
      CallIsRecorded(Next(s, actions[0]), actions[1..], i);
    }
  }

  /** No wake-up is lost: the notifier of a waiting reader is current with a token
      pending or just taken by the loop, or it is being served by the running
      round, or it is closed and the reader can return. */
  lemma NoLostWakeup(actions: seq<Action>, i: nat)
    requires CanRun(START, actions) && i < |Run(START, actions).readers|
    requires Run(START, actions).readers[i].Waiting?
    ensures var s := Run(START, actions); var n := s.readers[i].notifier;
            || (n == s.current && (s.token || s.loop.Signalled?))
            || InRound(s, n)
            || (n < |s.notifiers| && s.notifiers[n].Some? && Enabled(s, Wake(i)))
  {
    RunInv(START, actions);
    assert ReaderOk(Run(START, actions), Run(START, actions).readers[i]);
  }

  /** A notifier is never closed twice. */
  lemma ClosedOnce(actions: seq<Action>, a: Action)
    requires CanRun(START, actions) && Enabled(Run(START, actions), a)
    requires a.AskFails? || a.RoundFails? || a.NotifyAll?
    ensures var s := Run(START, actions); s.loop.nr < |s.notifiers| && s.notifiers[s.loop.nr].None?
  {
    RunInv(START, actions);
  }

  /** An answer to an earlier, abandoned request never ends a round: only the
      request of this round does. */
  lemma StaleAnswersIgnored(actions: seq<Action>)
    requires CanRun(START, actions) && Enabled(Run(START, actions), Receive)
    ensures var s := Run(START, actions);
            Next(s, Receive).loop.Answered? <==> s.pending.value.ctx == s.loop.id
    ensures var s := Run(START, actions);
            Next(s, Receive).loop.Answered? ==> s.loop.id in s.asked && s.asked[s.loop.id] <= Next(s, Receive).loop.index
  {
    RunInv(START, actions);
  }

  // ---------- What becomes of a read ----------

  lemma {:induction false} PrefixRuns(s: State, actions: seq<Action>, j: nat)
    requires CanRun(s, actions) && j <= |actions|
    ensures CanRun(s, actions[..j])
    ensures j < |actions| ==> Enabled(Run(s, actions[..j]), actions[j])
    ensures j < |actions| ==> CanRun(s, actions[..j + 1]) && Run(s, actions[..j + 1]) == Next(Run(s, actions[..j]), actions[j])
    decreases |actions|
  {
    if |actions| > 0 && j > 0 {
      PrefixRuns(Next(s, actions[0]), actions[1..], j - 1);
      assert actions[..j][1..] == actions[1..][..j - 1];
      assert j < |actions| ==> actions[..j + 1][1..] == actions[1..][..j];
    } else if |actions| > 0 {
      assert actions[..1][1..] == [];
    }
  }

  /** The state before action `j`. */
  ghost function At(actions: seq<Action>, j: nat): State
    requires CanRun(START, actions) && j <= |actions|
  {
    PrefixRuns(START, actions, j);
    Run(START, actions[..j])
  }

  /** Reader `i` has picked up the notifier of the round that is running. */
  predicate Served(s: State, i: nat) {
    i < |s.readers| && (s.readers[i].Holding? || s.readers[i].Waiting?) && InRound(s, s.readers[i].notifier)
  }

  /** The reader gives up, or its round fails. */
  predicate FailsRead(s: State, a: Action, i: nat) {
    a == GiveUp(i) || ((a.AskFails? || a.RoundFails?) && Served(s, i))
  }

  /** The round of the reader reaches its end. */
  predicate EndsRead(s: State, a: Action, i: nat) {
    a.NotifyAll? && Served(s, i)
  }

  /** What reader `i` has been told, if `failed` says that it gave up or its round failed
      and `ended` that its round reached its end. */
  predicate Told(s: State, i: nat, failed: bool, ended: bool) {
    if i >= |s.readers| then !failed && !ended
    else match s.readers[i]
      case Called(_) => !failed && !ended
      case Holding(_, n) => n < |s.notifiers| && ToldBy(s.notifiers[n], failed, ended)
      case Waiting(_, n) => n < |s.notifiers| && ToldBy(s.notifiers[n], failed, ended)
      case Returned(_, outcome) => (outcome == Failed <==> failed) && (outcome == Ok ==> ended)
  }

  predicate ToldBy(notifier: Option<Outcome>, failed: bool, ended: bool) {
    (notifier == Some(Failed) <==> failed) && (notifier == Some(Ok) <==> ended)
  }

  /** A step of the loop tells the readers of its round, and nobody else. */
  lemma LoopTells(s: State, a: Action, i: nat, failed: bool, ended: bool)
    requires LoopOk(s) && Enabled(s, a) && OfLoop(a) && Told(s, i, failed, ended)
    ensures Told(Next(s, a), i, failed || FailsRead(s, a, i), ended || EndsRead(s, a, i))
  {
  }

  lemma ReaderTold(s: State, a: Action, i: nat, failed: bool, ended: bool)
    requires LoopOk(s) && Enabled(s, a) && !OfLoop(a) && Told(s, i, failed, ended)
    ensures Told(Next(s, a), i, failed || FailsRead(s, a, i), ended || EndsRead(s, a, i))
  {
  }

  /** One of the first `n` actions failed the read of reader `i`, or ended its round. */
  ghost predicate EverFailed(actions: seq<Action>, i: nat, n: nat)
    requires CanRun(START, actions) && n <= |actions|
  {
    exists j: nat {:trigger FailsAt(actions, i, j)} :: j < n && FailsAt(actions, i, j)
  }

  ghost predicate FailsAt(actions: seq<Action>, i: nat, j: nat)
    requires CanRun(START, actions) && j < |actions|
  {
    FailsRead(At(actions, j), actions[j], i)
  }

  ghost predicate EndsAt(actions: seq<Action>, i: nat, j: nat)
    requires CanRun(START, actions) && j < |actions|
  {
    EndsRead(At(actions, j), actions[j], i)
  }

  ghost predicate EverEnded(actions: seq<Action>, i: nat, n: nat)
    requires CanRun(START, actions) && n <= |actions|
  {
    exists j: nat {:trigger EndsAt(actions, i, j)} :: j < n && EndsAt(actions, i, j)
  }

  lemma OneMore(actions: seq<Action>, i: nat, n: nat)
    requires CanRun(START, actions) && n < |actions|
    ensures EverFailed(actions, i, n + 1) <==> EverFailed(actions, i, n) || FailsAt(actions, i, n)
    ensures EverEnded(actions, i, n + 1) <==> EverEnded(actions, i, n) || EndsAt(actions, i, n)
  {
  }

  lemma {:induction false} RunTells(actions: seq<Action>, i: nat, n: nat)
    requires CanRun(START, actions) && n <= |actions|
    ensures Told(At(actions, n), i, EverFailed(actions, i, n), EverEnded(actions, i, n))
  {
    if n > 0 {
      RunTells(actions, i, n - 1);
      OneMore(actions, i, n - 1);
      PrefixRuns(START, actions, n - 1);
      RunInv(START, actions[..n - 1]);
      TellNext(At(actions, n - 1), actions[n - 1], i, EverFailed(actions, i, n - 1), EverEnded(actions, i, n - 1));
    }
  }

  lemma TellNext(s: State, a: Action, i: nat, failed: bool, ended: bool)
    requires LoopOk(s) && Enabled(s, a) && Told(s, i, failed, ended)
    ensures Told(Next(s, a), i, failed || FailsRead(s, a, i), ended || EndsRead(s, a, i))
  {
    if OfLoop(a) { LoopTells(s, a, i, failed, ended); } else { ReaderTold(s, a, i, failed, ended); }
  }

  /** In every interleaving, a read that returned failed if and only if its reader gave up,
      or the request of its round to raft failed, or that round was given up. A read that
      did not fail was told so by the end of its round. */
  lemma ReadFailsOnlyIf(actions: seq<Action>, i: nat)
    requires CanRun(START, actions) && i < |Run(START, actions).readers| && Run(START, actions).readers[i].Returned?
    ensures Run(START, actions).readers[i].outcome == Failed <==>
              exists j :: 0 <= j < |actions| &&
                (actions[j] == GiveUp(i) || ((actions[j].AskFails? || actions[j].RoundFails?) && Served(At(actions, j), i)))
    ensures Run(START, actions).readers[i].outcome == Ok ==>
              exists j :: 0 <= j < |actions| && actions[j].NotifyAll? && Served(At(actions, j), i)
  {
    RunTells(actions, i, |actions|);
    assert actions[..|actions|] == actions;
    if EverFailed(actions, i, |actions|) {
      var j: nat :| j < |actions| && FailsAt(actions, i, j);
    }
    if EverEnded(actions, i, |actions|) {
      var j: nat :| j < |actions| && EndsAt(actions, i, j);
    }
    forall j: nat | j < |actions| && !FailsAt(actions, i, j)
      ensures !(actions[j] == GiveUp(i) || ((actions[j].AskFails? || actions[j].RoundFails?) && Served(At(actions, j), i)))
    {
    }
  }

  lemma {:induction false} StaysReturned(actions: seq<Action>, i: nat, j: nat, n: nat)
    requires CanRun(START, actions) && j <= n <= |actions|
    requires i < |At(actions, j).readers| && At(actions, j).readers[i].Returned?
    ensures i < |At(actions, n).readers| && At(actions, n).readers[i] == At(actions, j).readers[i]
    decreases n
  {
    if j < n {
      StaysReturned(actions, i, j, n - 1);
      PrefixRuns(START, actions, n - 1);
    }
  }

  /** A reader that wakes after its round reached its end returns without error. */
  lemma ServedReadSucceeds(actions: seq<Action>, i: nat, j: nat, w: nat)
    requires CanRun(START, actions) && j < w < |actions|
    requires actions[j].NotifyAll? && Served(At(actions, j), i) && actions[w] == Wake(i)
    ensures i < |Run(START, actions).readers|
    ensures Run(START, actions).readers[i].Returned? && Run(START, actions).readers[i].outcome == Ok
  {
    RunTells(actions, i, w);
    PrefixRuns(START, actions, w);
    assert EndsAt(actions, i, j);
    StaysReturned(actions, i, w + 1, |actions|);
    assert actions[..|actions|] == actions;
  }

  lemma {:induction false} KeepsCommit(actions: seq<Action>, i: nat, j: nat, n: nat)
    requires CanRun(START, actions) && j <= n <= |actions| && i < |At(actions, j).readers|
    ensures i < |At(actions, n).readers| && At(actions, n).readers[i].commit == At(actions, j).readers[i].commit
    decreases n
  {
    if j < n {
      KeepsCommit(actions, i, j, n - 1);
      PrefixRuns(START, actions, n - 1);
    }
  }

  /** A read that was called by action `j` and is answered without error by action `w` is
      answered when this member has applied everything that was committed at the call. */
  lemma ReadSeesCommitted(actions: seq<Action>, j: nat, w: nat)
    requires CanRun(START, actions) && j < w < |actions|
    requires actions[j] == Call && actions[w] == Wake(|At(actions, j).readers|)
    ensures var i := |At(actions, j).readers|; var s := At(actions, w + 1);
            && i < |s.readers| && s.readers[i].Returned?
            && (s.readers[i].outcome == Ok ==> At(actions, j).commit <= At(actions, w).applied)
  {
    var i := |At(actions, j).readers|;
    PrefixRuns(START, actions, j);
    PrefixRuns(START, actions, w);
    KeepsCommit(actions, i, j + 1, w);
    RunInv(START, actions[..w]);
    assert ReaderOk(At(actions, w), At(actions, w).readers[i]);
  }
}
