/** common/eda_dde.cpp: class ASYNC_SOCKET_HOLDER as a system of interleaved steps.

    Any number of threads call Send, one thread runs the destructor, one runs worker(). A step is
    one access to the shared fields, the mutex or the condition variable. */
module AsyncSender {

  type Message = (int, string)

  /** A thread inside Send, by the statement it is about to execute. */
  datatype SenderPc =
    | Idle                           // not in Send
    | Tested(msg: Message)           // saw the flag down, about to lock
    | Locked(msg: Message)           // about to store the message
    | Stored(msg: Message)           // about to raise the flag
    | Raised(msg: Message)           // about to notify
    | Notified(msg: Message)         // about to unlock and return true

  /** The thread in worker(). */
  datatype WorkerPc =
    | Starting                       // about to lock for the first time
    | AtWhile                        // testing the loop condition
    | AtWait                         // testing the wait predicate
    | Sleeping                       // asleep in wait, mutex released
    | Waking                         // woken, about to lock again
    | AfterWait                      // testing m_shutdown after wait
    | Taking                         // about to copy the message
    | Took(msg: Message)             // about to unlock
    | Sending(msg: Message)          // at the socket, then about to lower the flag
    | Lowered                        // about to lock again
    | Breaking                       // out of the loop, about to release the mutex
    | Exited

  datatype DestructorPc = NotCalled | DLocked | DSet | DOwes | Joining | Done

  datatype Owner = Nobody | Worker | Sender(i: nat) | Destructor

  datatype State = State(
    message: Message, ready: bool, shutdown: bool, owner: Owner,
    senders: seq<SenderPc>, worker: WorkerPc, destructor: DestructorPc,
    accepted: seq<Message>,  // messages for which Send returned true, in order
    taken: seq<Message>      // messages the worker copied out, in order
  )

  ghost predicate Init(s: State) {
    && !s.ready && !s.shutdown && s.owner == Nobody
    && (forall i :: 0 <= i < |s.senders| ==> s.senders[i] == Idle)
    && s.worker == Starting && s.destructor == NotCalled
    && s.accepted == [] && s.taken == []
  }

  datatype Action =
    | Call(i: nat, msg: Message)     // a thread calls Send and tests the flag
    | SenderStep(i: nat)             // a thread goes on inside Send
    | WorkerStep
    | SpuriousWake
    | DestructorStep
    | Stutter

  predicate Enabled(s: State, a: Action) {
    match a
    case Call(i, _) => i < |s.senders| && s.senders[i] == Idle
    case SenderStep(i) => i < |s.senders| && s.senders[i] != Idle && (s.senders[i].Tested? ==> s.owner == Nobody)
    case WorkerStep =>
      && !s.worker.Exited? && !s.worker.Sleeping?
      && (s.worker.Starting? || s.worker.Waking? || s.worker.Lowered? ==> s.owner == Nobody)
    case SpuriousWake => s.worker.Sleeping?
    case DestructorStep =>
      && s.destructor != Done
      && (s.destructor == NotCalled ==> s.owner == Nobody)
      && (s.destructor == Joining ==> s.worker.Exited?)
    case Stutter => true
  }

  /** notify_one: the only thread that ever waits is the worker. */
  function Notify(w: WorkerPc): WorkerPc {
    if w.Sleeping? then Waking else w
  }

  function SenderNext(s: State, i: nat): State
    requires Enabled(s, SenderStep(i))
  {
    match s.senders[i]
    case Tested(m) => s.(owner := Sender(i), senders := s.senders[i := Locked(m)])
    case Locked(m) => s.(message := m, senders := s.senders[i := Stored(m)])
    case Stored(m) => s.(ready := true, senders := s.senders[i := Raised(m)])
    case Raised(m) => s.(worker := Notify(s.worker), senders := s.senders[i := Notified(m)])
    case Notified(m) => s.(owner := Nobody, senders := s.senders[i := Idle], accepted := s.accepted + [m])
    case Idle => s
  }

  function WorkerNext(s: State): State {
    match s.worker
    case Starting => s.(owner := Worker, worker := AtWhile)
    case AtWhile => s.(worker := if s.shutdown then Breaking else AtWait)
    case AtWait => if s.ready || s.shutdown then s.(worker := AfterWait) else s.(owner := Nobody, worker := Sleeping)
    case Waking => s.(owner := Worker, worker := AtWait)
    case AfterWait => s.(worker := if s.shutdown then Breaking else Taking)
    case Taking => s.(worker := Took(s.message), taken := s.taken + [s.message])
    case Took(m) => s.(owner := Nobody, worker := Sending(m))
    case Sending(_) => s.(ready := false, worker := Lowered)
    case Lowered => s.(owner := Worker, worker := AtWhile)
    case Breaking => s.(owner := Nobody, worker := Exited)
    case _ => s
  }

  function DestructorNext(s: State): State {
    match s.destructor
    case NotCalled => s.(owner := Destructor, destructor := DLocked)
    case DLocked => s.(shutdown := true, destructor := DSet)
    case DSet => s.(owner := Nobody, destructor := DOwes)
    case DOwes => s.(worker := Notify(s.worker), destructor := Joining)
    case Joining => s.(destructor := Done)
    case Done => s
  }

  function Next(s: State, a: Action): State
    requires Enabled(s, a)
  {
    match a
    case Call(i, m) => if s.ready then s else s.(senders := s.senders[i := Tested(m)])
    case SenderStep(i) => SenderNext(s, i)
    case WorkerStep => WorkerNext(s)
    case SpuriousWake => s.(worker := Waking)
    case DestructorStep => DestructorNext(s)
    case Stutter => s
  }

  /** The states a finite list of actions leads to. */
  ghost predicate Reaches(s: State, acts: seq<Action>, t: State)
    decreases |acts|
  {
    if acts == [] then s == t
    else Enabled(s, acts[0]) && Reaches(Next(s, acts[0]), acts[1..], t)
  }

  // ----- for any number of senders: the mutex, the wake-up, the shutdown -----

  predicate SenderHolds(p: SenderPc) {
    p.Locked? || p.Stored? || p.Raised? || p.Notified?
  }

  predicate WorkerHolds(w: WorkerPc) {
    w.AtWhile? || w.AtWait? || w.AfterWait? || w.Taking? || w.Took? || w.Breaking?
  }

  predicate DestructorHolds(d: DestructorPc) {
    d.DLocked? || d.DSet?
  }

  ghost predicate MutexConsistent(s: State) {
    && (forall i :: 0 <= i < |s.senders| ==> (SenderHolds(s.senders[i]) <==> s.owner == Sender(i)))
    && (WorkerHolds(s.worker) <==> s.owner == Worker)
    && (DestructorHolds(s.destructor) <==> s.owner == Destructor)
    && (s.owner.Sender? ==> s.owner.i < |s.senders|)
  }

  /** Someone is still going to call notify_one. */
  ghost predicate NotifyOwed(s: State) {
    || (exists i :: 0 <= i < |s.senders| && s.senders[i].Raised?)
    || s.destructor == DSet || s.destructor == DOwes
  }

  ghost predicate Invariant(s: State) {
    && MutexConsistent(s)
    && (s.shutdown <==> s.destructor != NotCalled && s.destructor != DLocked)
    && (s.worker.Sleeping? && (s.ready || s.shutdown) ==> NotifyOwed(s))
    && (s.worker.Taking? ==> !s.shutdown)
    && (s.worker.Breaking? || s.worker.Exited? ==> s.shutdown)
    && (s.destructor == Done ==> s.worker.Exited?)
  }

  lemma SenderKeepsInvariant(s: State, i: nat)
    requires Invariant(s) && Enabled(s, SenderStep(i))
    ensures Invariant(SenderNext(s, i)) && |SenderNext(s, i).senders| == |s.senders|
  {}

  lemma CallKeepsInvariant(s: State, i: nat, m: Message)
    requires Invariant(s) && Enabled(s, Call(i, m))
    ensures Invariant(Next(s, Call(i, m))) && |Next(s, Call(i, m)).senders| == |s.senders|
  {}

  lemma WorkerKeepsInvariant(s: State)
    requires Invariant(s) && Enabled(s, WorkerStep)
    ensures Invariant(WorkerNext(s)) && |WorkerNext(s).senders| == |s.senders|
  {}

  lemma DestructorKeepsInvariant(s: State)
    requires Invariant(s) && Enabled(s, DestructorStep)
    ensures Invariant(DestructorNext(s)) && |DestructorNext(s).senders| == |s.senders|
  {}

  lemma StepKeepsInvariant(s: State, a: Action)
    requires Invariant(s) && Enabled(s, a)
    ensures Invariant(Next(s, a)) && |Next(s, a).senders| == |s.senders|
  {
    match a
    case Call(i, m) => CallKeepsInvariant(s, i, m);
    case SenderStep(i) => SenderKeepsInvariant(s, i);
    case WorkerStep => WorkerKeepsInvariant(s);
    case SpuriousWake =>
    case DestructorStep => DestructorKeepsInvariant(s);
    case Stutter =>
  }

  lemma InitInvariant(s: State)
    requires Init(s)
    ensures Invariant(s)
  {}

  lemma {:induction false} RunKeepsInvariant(s: State, acts: seq<Action>, t: State)
    requires Invariant(s) && Reaches(s, acts, t)
    ensures Invariant(t) && |t.senders| == |s.senders|
    decreases |acts|
  {
    if acts != [] {
      StepKeepsInvariant(s, acts[0]);
      RunKeepsInvariant(Next(s, acts[0]), acts[1..], t);
    }
  }

  /** No lost wake-up and no double lock, in every reachable state, with any number of senders. */
  lemma ReachableInvariant(s: State, acts: seq<Action>, t: State)
    requires Init(s) && Reaches(s, acts, t)
    ensures Invariant(t) && |t.senders| == |s.senders|
  {
    InitInvariant(s);
    RunKeepsInvariant(s, acts, t);
  }

  lemma {:induction false} ShutdownFreezesTaken(s: State, acts: seq<Action>, t: State)
    requires Invariant(s) && s.shutdown && Reaches(s, acts, t)
    ensures t.taken == s.taken && t.shutdown
    decreases |acts|
  {
    if acts != [] {
      StepKeepsInvariant(s, acts[0]);
      ShutdownFreezesTaken(Next(s, acts[0]), acts[1..], t);
    }
  }

  /** Once m_shutdown is set the worker copies no further message, whatever the other threads do. */
  lemma NothingTakenAfterShutdown(s: State, before: seq<Action>, mid: State, after: seq<Action>, t: State)
    requires Init(s) && Reaches(s, before, mid) && mid.shutdown && Reaches(mid, after, t)
    ensures t.taken == mid.taken && t.shutdown
  {
    ReachableInvariant(s, before, mid);
    ShutdownFreezesTaken(mid, after, t);
  }

  // ----- for any number of senders: nothing invented, reordered or taken twice -----

  /** `a` is `b` with some messages left out. */
  predicate Subsequence(a: seq<Message>, b: seq<Message>) {
    if a == [] then true
    else if b == [] then false
    else
      var n, k := |a| - 1, |b| - 1;
      (a[n] == b[k] && Subsequence(a[..n], b[..k])) || Subsequence(a, b[..k])
  }

  lemma SubsequenceGrows(a: seq<Message>, b: seq<Message>, m: Message)
    requires Subsequence(a, b)
    ensures Subsequence(a, b + [m]) && Subsequence(a + [m], b + [m])
  {
    assert (a + [m])[..|a|] == a && (b + [m])[..|b|] == b;
  }

  /** The message in the slot is the last one accepted, and has not been taken. */
  predicate SlotUntaken(slot: Message, accepted: seq<Message>, taken: seq<Message>) {
    var n := |accepted| - 1;
    n >= 0 && slot == accepted[n] && Subsequence(taken, accepted[..n])
  }

  predicate LogInvariant(s: State) {
    && Subsequence(s.taken, s.accepted)
    && (s.owner.Sender? && s.owner.i < |s.senders| && !s.senders[s.owner.i].Idle? && !s.senders[s.owner.i].Locked? ==>
          s.message == s.senders[s.owner.i].msg)
    && ((s.worker.AfterWait? && !s.shutdown) || s.worker.Taking? ==> s.ready)
    && (s.ready && !s.owner.Sender? && !s.worker.Took? && !s.worker.Sending? ==>
          SlotUntaken(s.message, s.accepted, s.taken))
  }

  lemma AcceptedIsUntaken(m: Message, accepted: seq<Message>, taken: seq<Message>)
    requires Subsequence(taken, accepted)
    ensures Subsequence(taken, accepted + [m]) && SlotUntaken(m, accepted + [m], taken)
  {
    SubsequenceGrows(taken, accepted, m);
    assert (accepted + [m])[..|accepted|] == accepted;
  }

  lemma HoldsMutex(s: State, i: nat)
    requires Invariant(s) && Enabled(s, SenderStep(i))
    ensures s.senders[i].Tested? || s.owner == Sender(i)
  {}

  lemma SenderKeepsLog(s: State, i: nat)
    requires Invariant(s) && LogInvariant(s) && Enabled(s, SenderStep(i))
    ensures LogInvariant(SenderNext(s, i))
  {
    HoldsMutex(s, i);
    hide Invariant, Subsequence, SlotUntaken;
    if s.senders[i].Notified? { AcceptedIsUntaken(s.message, s.accepted, s.taken); }
  }

  /** Taking the message in the slot. */
  lemma TakeUntaken(slot: Message, accepted: seq<Message>, taken: seq<Message>)
    requires SlotUntaken(slot, accepted, taken)
    ensures Subsequence(taken + [slot], accepted)
  {
    var n := |accepted| - 1;
    SubsequenceGrows(taken, accepted[..n], slot);
    assert accepted == accepted[..n] + [slot];
  }

  lemma WorkerKeepsLog(s: State)
    requires Invariant(s) && LogInvariant(s) && Enabled(s, WorkerStep)
    ensures LogInvariant(WorkerNext(s))
  {
    assert s.worker.Taking? ==> s.owner == Worker;
    hide Invariant, Subsequence, SlotUntaken;
    if s.worker.Taking? { TakeUntaken(s.message, s.accepted, s.taken); }
  }

  lemma StepKeepsLog(s: State, a: Action)
    requires Invariant(s) && LogInvariant(s) && Enabled(s, a)
    ensures LogInvariant(Next(s, a))
  {
    match a
    case SenderStep(i) => SenderKeepsLog(s, i);
    case WorkerStep => WorkerKeepsLog(s);
    case _ => hide NotifyOwed, Subsequence, SlotUntaken;
  }

  lemma {:induction false} RunKeepsLog(s: State, acts: seq<Action>, t: State)
    requires Invariant(s) && LogInvariant(s) && Reaches(s, acts, t)
    ensures LogInvariant(t)
    decreases |acts|
  {
    if acts != [] {
      StepKeepsInvariant(s, acts[0]);
      StepKeepsLog(s, acts[0]);
      RunKeepsLog(Next(s, acts[0]), acts[1..], t);
    }
  }

  /** However many threads send: each message taken was accepted, none is taken more often than it
      was accepted, and they are taken in the order of acceptance. Messages can only be missing. */
  lemma TakenIsSubsequence(s: State, acts: seq<Action>, t: State)
    requires Init(s) && Reaches(s, acts, t)
    ensures Subsequence(t.taken, t.accepted)
  {
    InitInvariant(s);
    RunKeepsLog(s, acts, t);
  }

  // ----- a single sender: nothing lost, nothing twice, in order -----

  /** How the two logs differ, by where the two threads are. */
  ghost predicate Logs(s: State)
    requires |s.senders| == 1
  {
    match s.worker
    case Took(m) => s.taken == s.accepted && s.accepted != [] && s.accepted[|s.accepted| - 1] == m
    case Sending(m) => s.taken == s.accepted && s.accepted != [] && s.accepted[|s.accepted| - 1] == m
    case _ =>
      if s.ready && s.senders[0].Idle? then s.accepted == s.taken + [s.message]
      else s.taken == s.accepted
  }

  ghost predicate SingleInvariant(s: State) {
    && Invariant(s) && |s.senders| == 1
    && (s.senders[0].Tested? || s.senders[0].Locked? || s.senders[0].Stored? ==> !s.ready)
    && (s.senders[0].Stored? ==> s.message == s.senders[0].msg)
    && (s.senders[0].Raised? || s.senders[0].Notified? ==> s.ready && s.message == s.senders[0].msg)
    && (s.worker.AfterWait? ==> s.ready || s.shutdown)
    && (s.worker.Taking? || s.worker.Took? || s.worker.Sending? ==> s.ready && s.senders[0].Idle?)
    && Logs(s)
  }

  lemma SenderKeepsSingle(s: State)
    requires SingleInvariant(s) && Enabled(s, SenderStep(0))
    ensures SingleInvariant(SenderNext(s, 0))
  {}

  lemma WorkerKeepsSingle(s: State)
    requires SingleInvariant(s) && Enabled(s, WorkerStep)
    ensures SingleInvariant(WorkerNext(s))
  {
    WorkerKeepsInvariant(s);
    hide NotifyOwed;
  }

  lemma StepKeepsSingle(s: State, a: Action)
    requires SingleInvariant(s) && Enabled(s, a)
    ensures SingleInvariant(Next(s, a))
  {
    match a
    case SenderStep(_) => SenderKeepsSingle(s);
    case WorkerStep => WorkerKeepsSingle(s);
    case _ =>
      StepKeepsInvariant(s, a);
      hide NotifyOwed, MutexConsistent;
  }

  lemma {:induction false} ReachableSingle(s: State, acts: seq<Action>, t: State)
    requires SingleInvariant(s) && Reaches(s, acts, t)
    ensures SingleInvariant(t)
    decreases |acts|
  {
    if acts != [] {
      StepKeepsSingle(s, acts[0]);
      ReachableSingle(Next(s, acts[0]), acts[1..], t);
    }
  }

  /** The main safety result: with one sending thread, in every interleaving, the messages taken are
      the messages accepted, in order and each once, but for at most the last, which is then the one
      in the slot with the flag up. */
  lemma TakenIsPrefix(s: State, acts: seq<Action>, t: State)
    requires Init(s) && |s.senders| == 1 && Reaches(s, acts, t)
    ensures t.taken == t.accepted || t.accepted == t.taken + [t.message]
    ensures t.taken != t.accepted ==> t.ready
    ensures t.worker.Exited? ==> t.shutdown
  {
    ReachableSingle(s, acts, t);
  }

  /** Without a sender nothing is ever in the slot. */
  ghost predicate Unused(s: State) {
    && s.senders == [] && !s.ready && s.taken == []
    && (s.worker.AfterWait? ==> s.shutdown) && !s.worker.Taking?
  }

  lemma {:induction false} NoSenderTakesNothing(s: State, acts: seq<Action>, t: State)
    requires Unused(s) && Reaches(s, acts, t)
    ensures Unused(t)
    decreases |acts|
  {
    if acts != [] { NoSenderTakesNothing(Next(s, acts[0]), acts[1..], t); }
  }

  /** More senders lose a message: the flag is tested before the mutex is locked, so two of them can
      both find it down, and the second overwrites an accepted message for good. */
  lemma TwoSendersLoseAMessage(s: State, a: Message, b: Message) returns (acts: seq<Action>, t: State)
    requires Init(s) && |s.senders| >= 2
    ensures Reaches(s, acts, t)
    ensures t.accepted == [a, b] && t.taken == [b]
  {
    var first, s2 := BothTest(s, a, b);
    var s7 := SendCompletes(s2, 0);
    var s12 := SendCompletes(s7, 1);
    var work := [WorkerStep, WorkerStep, WorkerStep, WorkerStep, WorkerStep];
    t := s12.(owner := Worker, worker := Took(b), taken := [b]);
    WorkerTakes(s12, t);
    hide Reaches;
    var mid := FiveSteps(0) + FiveSteps(1);
    ReachesAppend(s2, FiveSteps(0), s7, FiveSteps(1), s12);
    ReachesAppend(s, first, s2, mid, s12);
    ReachesAppend(s, first + mid, s12, work, t);
    acts := first + mid + work;
  }

  lemma BothTest(s: State, a: Message, b: Message) returns (acts: seq<Action>, t: State)
    requires Init(s) && |s.senders| >= 2
    ensures t == s.(senders := s.senders[0 := Tested(a)][1 := Tested(b)]) && Reaches(s, acts, t)
  {
    var s1 := s.(senders := s.senders[0 := Tested(a)]);
    t := s1.(senders := s1.senders[1 := Tested(b)]);
    assert Reaches(s1, [Call(1, b)], t) by { assert [Call(1, b)][1..] == []; }
    acts := [Call(0, a), Call(1, b)];
    assert acts[1..] == [Call(1, b)];
  }

  /** Only accepted messages are taken, in order and each once, in every interleaving: exactly when
      no more than one thread sends. */
  lemma InOrderIffOneSender(s: State)
    requires Init(s)
    ensures (forall acts, t :: Reaches(s, acts, t) ==> t.taken <= t.accepted) <==> |s.senders| <= 1
  {
    if |s.senders| >= 2 {
      var acts, t := TwoSendersLoseAMessage(s, (0, ""), (1, ""));
      assert t.taken[0] != t.accepted[0];
    }
    forall acts, t | |s.senders| <= 1 && Reaches(s, acts, t)
      ensures t.taken <= t.accepted
    {
      if |s.senders| == 1 {
        TakenIsPrefix(s, acts, t);
      } else {
        NoSenderTakesNothing(s, acts, t);
      }
    }
  }

  function FiveSteps(i: nat): seq<Action> {
    [SenderStep(i), SenderStep(i), SenderStep(i), SenderStep(i), SenderStep(i)]
  }

  /** A sender that passed the test goes through undisturbed. */
  lemma SendCompletes(s: State, i: nat) returns (t: State)
    requires i < |s.senders| && s.senders[i].Tested? && s.owner == Nobody && !s.worker.Sleeping?
    ensures var m := s.senders[i].msg;
            t == s.(message := m, ready := true, senders := s.senders[i := Idle], accepted := s.accepted + [m])
    ensures Reaches(s, FiveSteps(i), t)
  {
    var m := s.senders[i].msg;
    var s1 := Next(s, SenderStep(i));
    var s2 := Next(s1, SenderStep(i));
    var s3 := Next(s2, SenderStep(i));
    var s4 := Next(s3, SenderStep(i));
    t := Next(s4, SenderStep(i));
    assert t.senders == s.senders[i := Idle];
    var one := SenderStep(i);
    assert Reaches(t, [], t);
    assert Reaches(s4, [one], t) by { assert [one][1..] == []; }
    assert Reaches(s3, [one, one], t) by { assert [one, one][1..] == [one]; }
    assert Reaches(s2, [one, one, one], t) by { assert [one, one, one][1..] == [one, one]; }
    assert Reaches(s1, [one, one, one, one], t) by { assert [one, one, one, one][1..] == [one, one, one]; }
    assert FiveSteps(i)[1..] == [one, one, one, one];
  }

  lemma WorkerTakes(s: State, t: State)
    requires s.worker.Starting? && s.owner == Nobody && s.ready && !s.shutdown
    requires t == s.(owner := Worker, worker := Took(s.message), taken := s.taken + [s.message])
    ensures Reaches(s, [WorkerStep, WorkerStep, WorkerStep, WorkerStep, WorkerStep], t)
  {}

  lemma {:induction false} ReachesAppend(s: State, a: seq<Action>, t: State, b: seq<Action>, u: State)
    requires Reaches(s, a, t) && Reaches(t, b, u)
    ensures Reaches(s, a + b, u)
    decreases |a|
  {
    if a == [] {
      assert a + b == b;
    } else {
      ReachesAppend(Next(s, a[0]), a[1..], t, b, u);
      assert (a + b)[1..] == a[1..] + b;
    }
  }
}
