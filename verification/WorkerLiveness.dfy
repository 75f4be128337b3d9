/**
 Where the worker gets to: after stop() it makes at most one more call and finishes; before, it always comes back to do
 what is waiting, and it never blocks on the mutex that guards a ticket it has not taken yet.
 */
module WorkerLiveness {

  import opened TicketProtocol

  // ----- after stop() -----

  /** Whether the iteration the worker is in can still call callExtension. */
  function CallsLeft(w: WorkerPc): (n: nat)
    ensures n <= 1
  {
    match w
    case PeekCommands => 1
    case TakeCommand => 1
    case RunCommand(_) => 1
    case CompareIds => 1
    case TryLock => 1
    case FetchTicket => 1
    case UnlockFetched(_) => 1
    case RunTicket(_) => 1
    case RecheckCommands => 1
    case RecheckIds => 1
    case PeekLow => 1
    case TakeLow => 1
    case RunLow(_) => 1
    case _ => 0
  }

  lemma {:induction false} StoppedStepCalls(f: Extension, s: State)
    requires !s.running && !s.worker.NotStarted?
    ensures var t := WorkerNext(f, s);
      && |t.calls| + CallsLeft(t.worker) <= |s.calls| + CallsLeft(s.worker)
      && |s.calls| <= |t.calls| && t.calls[..|s.calls|] == s.calls
  {
  }

  lemma {:induction false} StoppedNextCalls(f: Extension, s: State, a: Action)
    requires !s.running && !s.worker.NotStarted?
    ensures var t := Next(f, s, a);
      && |t.calls| + CallsLeft(t.worker) <= |s.calls| + CallsLeft(s.worker)
      && |s.calls| <= |t.calls| && t.calls[..|s.calls|] == s.calls
  {
    hide WorkerNext, ClientNext;
    if a.WorkerStep? {
      StoppedStepCalls(f, s);
    }
  }

  lemma {:induction false} StoppedRunCalls(f: Extension, s: State, trace: seq<Action>)
    requires !s.running && !s.worker.NotStarted?
    ensures var t := Run(f, s, trace);
      && |t.calls| + CallsLeft(t.worker) <= |s.calls| + CallsLeft(s.worker)
      && |s.calls| <= |t.calls| && t.calls[..|s.calls|] == s.calls
  {
    hide Next;
    if trace != [] {
      var k := |trace| - 1;
      var t := Run(f, s, trace[..k]);
      StoppedRunCalls(f, s, trace[..k]);
      StoppedStays(f, s, trace[..k]);
      StoppedNextCalls(f, t, trace[k]);
      var u := Next(f, t, trace[k]);
      assert u.calls[..|s.calls|] == u.calls[..|t.calls|][..|s.calls|];
    }
  }

  /** Whatever both threads do after stop(), once run() has passed its first assignment: the flag stays down, no call
      already made is lost, and at most one more is made; none at all when the worker is between two iterations. */
  lemma {:induction false} StopEndsCalls(f: Extension, s: State, trace: seq<Action>)
    requires !s.worker.NotStarted?
    ensures var t := Run(f, Next(f, s, Stop), trace);
      && !t.running
      && |s.calls| <= |t.calls| <= |s.calls| + 1 && t.calls[..|s.calls|] == s.calls
      && (s.worker.Head? || s.worker.Sleep? || s.worker.Finished? ==> t.calls == s.calls)
  {
    hide Run;
    StoppedStays(f, Next(f, s, Stop), trace);
    StoppedRunCalls(f, Next(f, s, Stop), trace);
  }

  /** How many steps of its own the worker is away from having left the loop, once the flag is down. */
  function StepsLeft(w: WorkerPc): (n: nat)
    requires !w.NotStarted?
    ensures n <= 11 && (n == 0 <==> w.Finished?)
  {
    match w
    case Head => 1
    case PeekCommands => 11
    case TakeCommand => 3
    case RunCommand(_) => 2
    case CompareIds => 10
    case TryLock => 9
    case FetchTicket => 8
    case UnlockFetched(_) => 7
    case RunTicket(_) => 6
    case LockToSave(_) => 5
    case SaveReady(_) => 4
    case SaveData(_) => 3
    case UnlockSaved => 2
    case RecheckCommands => 6
    case RecheckIds => 5
    case PeekLow => 4
    case TakeLow => 3
    case RunLow(_) => 2
    case Sleep => 2
    case Finished => 0
  }

  /** Each step of the worker brings it closer to the head of the loop, unless it waits for the client's mutex. */
  lemma {:induction false} StepApproaches(f: Extension, s: State)
    requires !s.worker.NotStarted? && !s.worker.Head? && !s.worker.Finished?
    requires s.worker.LockToSave? ==> s.tix.owner.Free?
    ensures var t := WorkerNext(f, s);
      && !t.worker.NotStarted? && !t.worker.Finished? && t.running == s.running
      && StepsLeft(t.worker) < StepsLeft(s.worker)
  {
  }

  lemma {:induction false} HeadLeaves(f: Extension, s: State)
    requires s.worker.Head? && !s.running
    ensures WorkerNext(f, s) == s.(worker := Finished)
  {
  }

  lemma {:induction false} FinishedStep(f: Extension, s: State, a: Action)
    requires s.worker.Finished?
    ensures Next(f, s, a).worker.Finished? && Next(f, s, a).calls == s.calls
  {
  }

  /** A finished worker never does anything again. */
  lemma {:induction false} FinishedStays(f: Extension, s: State, trace: seq<Action>)
    requires s.worker.Finished?
    ensures Run(f, s, trace).worker.Finished? && Run(f, s, trace).calls == s.calls
  {
    hide Next;
    if trace != [] {
      var k := |trace| - 1;
      FinishedStays(f, s, trace[..k]);
      FinishedStep(f, Run(f, s, trace[..k]), trace[k]);
    }
  }

  lemma {:induction false} FinishedSteps(f: Extension, s: State, n: nat)
    requires s.worker.Finished?
    ensures Steps(f, s, n).worker.Finished?
    decreases n
  {
    hide WorkerNext;
    if n > 0 {
      FinishedStep(f, s, WorkerStep);
      FinishedSteps(f, WorkerNext(f, s), n - 1);
    }
  }

  lemma {:induction false} IdleMeansFree(w: WorkerPc, x: TicketState)
    requires MutexInv(w, x) && x.client.Idle? && w.LockToSave?
    ensures x.owner.Free?
  {
  }

  lemma {:induction false} WorkerKeepsIdle(f: Extension, s: State)
    ensures WorkerNext(f, s).tix.client == s.tix.client
  {
  }

  /** With the flag down and the client between two calls, the worker has left the loop after at most eleven steps of
      its own, wherever it was. */
  lemma {:induction false} StopFinishes(f: Extension, s: State, n: nat)
    requires !s.running && !s.worker.NotStarted? && s.tix.client.Idle? && TicketInv(f, s.worker, s.tix)
    requires n >= StepsLeft(s.worker)
    ensures Steps(f, s, n).worker.Finished?
    decreases n
  {
    hide WorkerNext, EntryInv, LocalInv, ClientInv, DeliveryInv;
    if s.worker.Finished? {
      FinishedSteps(f, s, n);
    } else {
      StepKeepsTickets(f, s, WorkerStep);
      WorkerKeepsIdle(f, s);
      if s.worker.Head? {
        HeadLeaves(f, s);
      } else {
        if s.worker.LockToSave? {
          IdleMeansFree(s.worker, s.tix);
        }
        StepApproaches(f, s);
      }
      StopFinishes(f, WorkerNext(f, s), n - 1);
    }
  }

  /** So stop() between two client calls ends the thread within eleven steps, for good. */
  lemma {:induction false} StopThenFinished(f: Extension, s: State, n: nat, trace: seq<Action>)
    requires !s.worker.NotStarted? && s.tix.client.Idle? && TicketInv(f, s.worker, s.tix) && n >= 11
    ensures Steps(f, Next(f, s, Stop), n).worker.Finished?
    ensures Run(f, Steps(f, Next(f, s, Stop), n), trace).worker.Finished?
  {
    hide Steps, Run, TicketInv;
    var t := Next(f, s, Stop);
    StopFinishes(f, t, n);
    FinishedStays(f, Steps(f, t, n), trace);
  }

  // ----- while the flag is up -----

  /** Nothing the worker does alone adds to what is waiting. */
  lemma {:induction false} StepAddsNoWork(f: Extension, s: State)
    ensures var t := WorkerNext(f, s);
      && |t.queues.commands| <= |s.queues.commands| && |t.queues.low| <= |s.queues.low|
      && t.tix.id == s.tix.id && t.tix.curId >= s.tix.curId
  {
  }

  /** From any place of the loop the worker comes back to its head, with no more to do than before. */
  lemma {:induction false} ComesBack(f: Extension, s: State) returns (k: nat)
    requires s.running && !s.worker.NotStarted? && !s.worker.Finished? && s.tix.client.Idle?
    requires TicketInv(f, s.worker, s.tix)
    ensures k < StepsLeft(s.worker)
    ensures var t := Steps(f, s, k);
      Quiet(f, t) && StepsToSleep(t) <= StepsToSleep(s) && t.tix.id == s.tix.id
    decreases StepsLeft(s.worker)
  {
    hide WorkerNext, EntryInv, LocalInv, ClientInv, DeliveryInv;
    if s.worker.Head? {
      return 0;
    }
    if s.worker.LockToSave? {
      IdleMeansFree(s.worker, s.tix);
    }
    StepApproaches(f, s);
    StepKeepsTickets(f, s, WorkerStep);
    WorkerKeepsIdle(f, s);
    StepAddsNoWork(f, s);
    k := ComesBack(f, WorkerNext(f, s));
    k := k + 1;
  }

  /** From any place of the loop, asleep too, the worker does all that is waiting and then sleeps: it cannot get stuck,
      and new work wakes it. */
  lemma {:induction false} AlwaysDrains(f: Extension, s: State) returns (n: nat)
    requires s.running && !s.worker.NotStarted? && !s.worker.Finished? && s.tix.client.Idle?
    requires TicketInv(f, s.worker, s.tix)
    ensures 0 < n <= 10 + StepsToSleep(s)
    ensures var t := Steps(f, s, n);
      && t.worker.Sleep? && t.queues.commands == [] && t.queues.low == [] && t.tix.curId == t.tix.id == s.tix.id
  {
    hide Steps, WorkerNext, TicketInv;
    var k := ComesBack(f, s);
    var m := Drain(f, Steps(f, s, k));
    QuietMeans(f, Steps(f, s, k));
    StepsAdd(f, s, k, m);
    n := k + m;
  }

  /** While the client holds the mutex the worker does not wait for it: the iteration goes round without a call. */
  lemma {:induction false} ContendedIteration(f: Extension, s: State)
    requires s.running && s.worker.Head? && s.queues.commands == []
    requires s.tix.curId < s.tix.id && s.tix.owner.HeldByClient?
    ensures Steps(f, s, 6) == s.(events := s.events + [LoopHead] + [SawNoCommands])
  {
    var looking := s.(events := s.events + [LoopHead]);
    assert Steps(f, s, 3) == looking.(worker := TryLock) by {
      LooksForTickets(f, s);
    }
    GivesUp(f, looking);
    hide WorkerNext, Steps;
    StepsAdd(f, s, 3, 3);
  }

  lemma {:induction false} ThreeSteps(f: Extension, s: State)
    ensures Steps(f, s, 3) == WorkerNext(f, WorkerNext(f, WorkerNext(f, s)))
  {
    hide WorkerNext;
    var t := WorkerNext(f, s);
    assert Steps(f, t, 2) == Steps(f, WorkerNext(f, t), 1) == WorkerNext(f, WorkerNext(f, t));
  }

  lemma {:induction false} LooksForTickets(f: Extension, s: State)
    requires s.running && s.worker.Head? && s.queues.commands == [] && s.tix.curId < s.tix.id
    ensures Steps(f, s, 3) == s.(worker := TryLock, events := s.events + [LoopHead])
  {
    ThreeSteps(f, s);
    hide Steps;
  }

  lemma {:induction false} GivesUp(f: Extension, s: State)
    requires s.queues.commands == [] && s.tix.curId < s.tix.id && s.tix.owner.HeldByClient?
    ensures Steps(f, s.(worker := TryLock), 3) == s.(worker := Head, events := s.events + [SawNoCommands])
  {
    ThreeSteps(f, s.(worker := TryLock));
    hide Steps;
  }

  // ----- what the records stand for -----

  /** An event is recorded only in a step that really finds what it says. */
  lemma {:induction false} EventsAreTrue(f: Extension, s: State, a: Action)
    ensures var t := Next(f, s, a);
      && (t.events != s.events ==> a.WorkerStep? && |t.events| == |s.events| + 1 && t.events[..|s.events|] == s.events)
      && (t.events == s.events + [LoopHead] ==> s.running)
      && (t.events == s.events + [SawNoCommands] ==> s.queues.commands == [])
      && (t.events == s.events + [SawNoTickets] ==> s.tix.id <= s.tix.curId)
      && (t.queues.low != s.queues.low && a.WorkerStep? ==>
            s.queues.low != [] && t.worker == RunLow(s.queues.low[0]) && t.queues.low == s.queues.low[1..]
            && t.events == s.events + [TookLow])
      && (t.queues.low == s.queues.low ==> t.events != s.events + [TookLow])
  {
    hide ClientNext;
    var t := Next(f, s, a);
    if t.events != s.events {
      assert t.events[|s.events|] == if s.worker.Head? then LoopHead
                                     else if s.worker.RecheckCommands? then SawNoCommands
                                     else if s.worker.RecheckIds? then SawNoTickets else TookLow;
    }
  }
}
