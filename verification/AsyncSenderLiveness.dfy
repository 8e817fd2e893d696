/** What ASYNC_SOCKET_HOLDER eventually does, over infinite runs under weak fairness: a thread that
    can go on, and stays able to, takes a step in the end. Any number of threads send. */
module AsyncSenderLiveness {
  import opened AsyncSender

  type Trace = nat -> State
  type Schedule = nat -> Action

  ghost predicate IsRun(run: Trace, acts: Schedule) {
    && Init(run(0))
    && forall k: nat {:trigger acts(k)} :: Enabled(run(k), acts(k)) && run(k + 1) == Next(run(k), acts(k))
  }

  datatype Thread = TheWorker | TheDestructor | TheSender(i: nat)

  /** Nobody has to call Send or the destructor; a call once made has to go on. */
  predicate CanGo(s: State, th: Thread) {
    match th
    case TheWorker => Enabled(s, WorkerStep)
    case TheDestructor => s.destructor != NotCalled && Enabled(s, DestructorStep)
    case TheSender(i) => Enabled(s, SenderStep(i))
  }

  predicate Moves(a: Action, th: Thread) {
    match th
    case TheWorker => a == WorkerStep
    case TheDestructor => a == DestructorStep
    case TheSender(i) => a == SenderStep(i)
  }

  ghost predicate Fair(run: Trace, acts: Schedule) {
    forall th: Thread, k: nat :: ServedFrom(run, acts, th, k)
  }

  ghost predicate ServedFrom(run: Trace, acts: Schedule, th: Thread, k: nat) {
    exists j: nat :: k <= j && Served(run(j), acts(j), th)
  }

  predicate Served(s: State, a: Action, th: Thread) {
    !CanGo(s, th) || Moves(a, th)
  }

  lemma RunStep(run: Trace, acts: Schedule, k: nat)
    requires IsRun(run, acts)
    ensures Enabled(run(k), acts(k)) && run(k + 1) == Next(run(k), acts(k))
  {}

  lemma {:induction false} RunInvariant(run: Trace, acts: Schedule, k: nat)
    requires IsRun(run, acts)
    ensures Invariant(run(k)) && |run(k).senders| == |run(0).senders|
  {
    hide Enabled, Next, Invariant, Init;
    if k == 0 {
      InitInvariant(run(0));
    } else {
      RunInvariant(run, acts, k - 1);
      RunStep(run, acts, k - 1);
      StepKeepsInvariant(run(k - 1), acts(k - 1));
    }
  }

  lemma MoveChangesState(s: State, a: Action, th: Thread)
    requires Enabled(s, a) && CanGo(s, th) && Moves(a, th)
    ensures Next(s, a) != s
  {
    if th.TheSender? { assert Next(s, a).senders[th.i] != s.senders[th.i]; }
  }

  /** A thread that can go waits only while nothing changes, so the state changes at last. */
  lemma {:induction false} FirstChange(run: Trace, acts: Schedule, th: Thread, k: nat, served: nat) returns (i: nat)
    requires IsRun(run, acts) && k <= served && CanGo(run(k), th)
    requires Served(run(served), acts(served), th)
    ensures k <= i && run(i) == run(k) && run(i + 1) != run(k)
    decreases served - k
  {
    hide Enabled, Next, IsRun, CanGo;
    RunStep(run, acts, k);
    if run(k + 1) != run(k) {
      i := k;
    } else {
      if k == served { MoveChangesState(run(k), acts(k), th); }
      i := FirstChange(run, acts, th, k + 1, served);
    }
  }

  lemma SomeChange(run: Trace, acts: Schedule, th: Thread, k: nat) returns (i: nat)
    requires IsRun(run, acts) && Fair(run, acts) && CanGo(run(k), th)
    ensures k <= i && run(i) == run(k) && run(i + 1) != run(k)
  {
    hide IsRun, Served, CanGo;
    assert ServedFrom(run, acts, th, k);
    var served: nat :| k <= served && Served(run(served), acts(served), th);
    i := FirstChange(run, acts, th, k, served);
  }

  // ----- shutdown completes -----

  /** The steps the worker is away from the end of its thread once m_shutdown is set. */
  function WorkerRank(w: WorkerPc): nat {
    match w
    case Exited => 0
    case Breaking => 1
    case AtWhile => 2
    case AfterWait => 2
    case AtWait => 3
    case Starting => 3
    case Lowered => 3
    case Waking => 4
    case Sending(_) => 4
    case Sleeping => 5
    case Took(_) => 5
    case Taking => 6
  }

  /** The steps a thread can still take in Send: while the flag is down, one more call can pass the
      test, even of a thread that has raised it already; and the worker lowers it at most once more. */
  function SenderRank(p: SenderPc, ready: bool, lowers: bool): nat {
    (match p
     case Idle => 0
     case Tested(_) => 5
     case Locked(_) => 4
     case Stored(_) => 3
     case Raised(_) => 2
     case Notified(_) => 1)
    + (if !ready && (p.Idle? || p.Raised? || p.Notified?) then 6 else 0)
    + (if lowers then 6 else 0)
  }

  /** The worker has still to lower the flag before it tests m_shutdown again. */
  predicate Lowers(w: WorkerPc) {
    w.Taking? || w.Took? || w.Sending?
  }

  function SendersRank(senders: seq<SenderPc>, ready: bool, lowers: bool): nat {
    if senders == [] then 0
    else SenderRank(senders[0], ready, lowers) + SendersRank(senders[1..], ready, lowers)
  }

  lemma {:induction false} SendersRankSet(senders: seq<SenderPc>, i: nat, p: SenderPc, ready: bool, lowers: bool)
    requires i < |senders|
    ensures SendersRank(senders[i := p], ready, lowers) ==
            SendersRank(senders, ready, lowers) - SenderRank(senders[i], ready, lowers) + SenderRank(p, ready, lowers)
  {
    hide SenderRank;
    if i == 0 {
      assert senders[0 := p][1..] == senders[1..];
    } else {
      assert senders[i := p][1..] == senders[1..][i - 1 := p];
      SendersRankSet(senders[1..], i - 1, p, ready, lowers);
    }
  }

  /** Raising the flag, and lowering it for good, only takes steps away. */
  lemma {:induction false} SendersRankFalls(senders: seq<SenderPc>, ready: bool, lowers: bool,
                                            ready': bool, lowers': bool)
    requires lowers' ==> lowers
    requires ready && !ready' ==> lowers && !lowers'
    ensures SendersRank(senders, ready', lowers') <= SendersRank(senders, ready, lowers)
  {
    if senders != [] { SendersRankFalls(senders[1..], ready, lowers, ready', lowers'); }
  }

  function DestructorRank(d: DestructorPc): nat {
    match d
    case NotCalled => 5
    case DLocked => 4
    case DSet => 3
    case DOwes => 2
    case Joining => 1
    case Done => 0
  }

  function ShutdownRank(s: State): nat {
    WorkerRank(s.worker) + DestructorRank(s.destructor) + SendersRank(s.senders, s.ready, Lowers(s.worker))
  }

  /** What a step of a sender does to the terms of the ranks. */
  lemma SenderStepFalls(s: State, i: nat)
    requires Enabled(s, SenderStep(i))
    ensures var t := SenderNext(s, i);
            && t.senders == s.senders[i := t.senders[i]] && (s.ready ==> t.ready)
            && (forall l :: SenderRank(t.senders[i], t.ready, l) < SenderRank(s.senders[i], t.ready, l))
            && t.destructor == s.destructor
            && WorkerRank(t.worker) <= WorkerRank(s.worker) && Lowers(t.worker) == Lowers(s.worker)
  {}

  lemma ShutdownSenderStep(s: State, i: nat)
    requires Enabled(s, SenderStep(i))
    ensures ShutdownRank(SenderNext(s, i)) < ShutdownRank(s)
  {
    SenderStepFalls(s, i);
    hide SenderNext, SenderRank, SendersRank, WorkerRank, DestructorRank, Lowers;
    var t, lowers := SenderNext(s, i), Lowers(s.worker);
    SendersRankFalls(s.senders, s.ready, lowers, t.ready, lowers);
    SendersRankSet(s.senders, i, t.senders[i], t.ready, lowers);
  }

  lemma ShutdownCall(s: State, i: nat, m: Message)
    requires Enabled(s, Call(i, m))
    ensures Next(s, Call(i, m)) == s || ShutdownRank(Next(s, Call(i, m))) < ShutdownRank(s)
  {
    SendersRankSet(s.senders, i, Tested(m), s.ready, Lowers(s.worker));
  }

  lemma ShutdownWorkerStep(s: State)
    requires Invariant(s) && s.shutdown && Enabled(s, WorkerStep)
    ensures ShutdownRank(WorkerNext(s)) < ShutdownRank(s)
  {
    hide NotifyOwed, MutexConsistent, SendersRank;
    var t := WorkerNext(s);
    SendersRankFalls(s.senders, s.ready, Lowers(s.worker), t.ready, Lowers(t.worker));
  }

  /** After the shutdown every step that changes anything brings the end nearer; what changes nothing
      is a refused Send. */
  lemma ShutdownStep(s: State, a: Action)
    requires Invariant(s) && s.shutdown && Enabled(s, a)
    ensures Next(s, a).shutdown
    ensures Next(s, a) == s || ShutdownRank(Next(s, a)) < ShutdownRank(s)
  {
    hide NotifyOwed, MutexConsistent;
    match a
    case Call(i, m) => ShutdownCall(s, i, m);
    case SenderStep(i) => ShutdownSenderStep(s, i);
    case WorkerStep => ShutdownWorkerStep(s);
    case _ =>
  }

  /** Until worker and destructor are through, some thread can go on. */
  lemma ShutdownHelper(s: State) returns (th: Thread)
    requires Invariant(s) && s.shutdown && !(s.worker.Exited? && s.destructor == Done)
    ensures CanGo(s, th)
  {
    if s.owner.Sender? {
      th := TheSender(s.owner.i);
      assert SenderHolds(s.senders[s.owner.i]);
    } else if CanGo(s, TheDestructor) {
      th := TheDestructor;
    } else {
      th := TheWorker;
      assert forall i :: 0 <= i < |s.senders| && s.senders[i].Raised? ==> SenderHolds(s.senders[i]);
    }
  }

  /** Once m_shutdown is set the worker exits and the destructor's join returns, however many
      threads send. */
  lemma {:induction false} ShutdownCompletes(run: Trace, acts: Schedule, k: nat)
    requires IsRun(run, acts) && Fair(run, acts) && run(k).shutdown
    ensures exists j: nat :: k <= j && run(j).worker.Exited? && run(j).destructor == Done
    decreases ShutdownRank(run(k))
  {
    hide Enabled, Next, Invariant, IsRun, CanGo, ShutdownRank, Fair;
    RunInvariant(run, acts, k);
    if !(run(k).worker.Exited? && run(k).destructor == Done) {
      var th := ShutdownHelper(run(k));
      var i := SomeChange(run, acts, th, k);
      RunStep(run, acts, i);
      ShutdownStep(run(i), acts(i));
      ShutdownCompletes(run, acts, i + 1);
    }
  }

  // ----- a raised flag is served -----

  /** The flag is up, and not for the message the worker is sending. */
  ghost predicate Waiting(s: State) {
    Invariant(s) && !s.shutdown && s.ready && !s.worker.Took? && !s.worker.Sending?
  }

  /** The steps the worker is away from copying a message that is in the slot. */
  function TakeRank(w: WorkerPc): nat {
    match w
    case Taking => 1
    case AfterWait => 2
    case AtWait => 3
    case AtWhile => 4
    case Waking => 4
    case Starting => 5
    case Lowered => 5
    case _ => 6
  }

  function WaitingRank(s: State): nat {
    TakeRank(s.worker) + (if s.destructor == NotCalled then 1 else 0) + SendersRank(s.senders, true, false)
  }

  lemma WaitingSenderStep(s: State, i: nat)
    requires Waiting(s) && Enabled(s, SenderStep(i))
    ensures SenderNext(s, i).taken == s.taken
    ensures Waiting(SenderNext(s, i)) && WaitingRank(SenderNext(s, i)) < WaitingRank(s)
  {
    SenderKeepsInvariant(s, i);
    hide Invariant;
    SendersRankSet(s.senders, i, SenderNext(s, i).senders[i], true, false);
  }

  lemma WaitingStep(s: State, a: Action)
    requires Waiting(s) && Enabled(s, a)
    ensures var t := Next(s, a);
            || t == s || t.shutdown || |t.taken| == |s.taken| + 1
            || (Waiting(t) && t.taken == s.taken && WaitingRank(t) < WaitingRank(s))
  {
    StepKeepsInvariant(s, a);
    hide NotifyOwed, MutexConsistent;
    if a.SenderStep? { WaitingSenderStep(s, a.i); }
  }

  /** The worker is not asleep while the flag waits for it: some thread can go on. */
  lemma WaitingHelper(s: State) returns (th: Thread)
    requires Waiting(s)
    ensures CanGo(s, th)
  {
    match s.owner
    case Sender(i) =>
      th := TheSender(i);
      assert SenderHolds(s.senders[i]);
    case Destructor => th := TheDestructor;
    case _ =>
      th := TheWorker;
      assert forall i :: 0 <= i < |s.senders| && s.senders[i].Raised? ==> SenderHolds(s.senders[i]);
  }

  /** However many threads send, a raised flag makes the worker take a message, unless there is a
      shutdown. */
  lemma {:induction false} FlagIsServed(run: Trace, acts: Schedule, k: nat) returns (j: nat)
    requires IsRun(run, acts) && Fair(run, acts)
    requires Waiting(run(k))
    ensures k <= j && (run(j).shutdown || |run(j).taken| == |run(k).taken| + 1)
    decreases WaitingRank(run(k))
  {
    hide Enabled, Next, Waiting, IsRun, CanGo, WaitingRank, Fair;
    var th := WaitingHelper(run(k));
    j := SomeChange(run, acts, th, k);
    RunStep(run, acts, j);
    WaitingStep(run(j), acts(j));
    j := j + 1;
    if !(run(j).shutdown || |run(j).taken| == |run(k).taken| + 1) {
      j := FlagIsServed(run, acts, j);
    }
  }

  // ----- one sender: every accepted message is taken -----

  lemma {:induction false} RunSingle(run: Trace, acts: Schedule, k: nat)
    requires IsRun(run, acts) && |run(0).senders| == 1
    ensures SingleInvariant(run(k))
  {
    hide Enabled, Next, SingleInvariant, IsRun;
    if k == 0 {
      SingleInit(run, acts);
    } else {
      RunSingle(run, acts, k - 1);
      RunStep(run, acts, k - 1);
      StepKeepsSingle(run(k - 1), acts(k - 1));
    }
  }

  lemma SingleInit(run: Trace, acts: Schedule)
    requires IsRun(run, acts) && |run(0).senders| == 1
    ensures SingleInvariant(run(0))
  {}

  lemma {:induction false} AcceptedGrows(run: Trace, acts: Schedule, k: nat, j: nat)
    requires IsRun(run, acts) && k <= j
    ensures run(k).accepted <= run(j).accepted
    decreases j
  {
    hide IsRun;
    if k < j {
      AcceptedGrows(run, acts, k, j - 1);
      RunStep(run, acts, j - 1);
    }
  }

  lemma SinglePrefix(s: State)
    requires SingleInvariant(s)
    ensures s.taken <= s.accepted <= s.taken + [s.message]
    ensures s.taken != s.accepted && !s.shutdown ==> Waiting(s)
  {}

  /** With one sender every accepted message is taken; only a shutdown can leave one behind. */
  lemma AcceptedIsTaken(run: Trace, acts: Schedule, k: nat)
    requires IsRun(run, acts) && Fair(run, acts) && |run(0).senders| == 1
    ensures exists j: nat :: k <= j && (run(j).shutdown || run(j).taken == run(k).accepted)
  {
    hide IsRun, Fair, SingleInvariant, Waiting;
    RunSingle(run, acts, k);
    SinglePrefix(run(k));
    if !run(k).shutdown && run(k).taken != run(k).accepted {
      var j := FlagIsServed(run, acts, k);
      RunSingle(run, acts, j);
      SinglePrefix(run(j));
      AcceptedGrows(run, acts, k, j);
    }
  }
}
