/**
 The worker object itself, with its fields updated in place. A client call runs while the worker stands still, except
 that it waits for the mutex: then the worker moves until it lets go. Each method is proved to do what the transition
 system does along that schedule.
 */
module AsyncWorker {

  import opened TicketProtocol

  /** What the game gets back when it asks for ticket k. */
  datatype Reply = Text(text: string) | Wait | Empty

  // ----- schedules -----

  /** A client call, `before` steps of the client, `waits` of the worker, and `after` of the client again. */
  function Schedule(call: Action, before: nat, waits: nat, after: nat): seq<Action> {
    [call] + seq(before, _ => ClientStep) + seq(waits, _ => WorkerStep) + seq(after, _ => ClientStep)
  }

  function ClientSteps(x: TicketState, n: nat): TicketState {
    if n == 0 then x else ClientNext(ClientSteps(x, n - 1))
  }

  lemma {:induction false} RunConcat(f: Extension, s: State, a: seq<Action>, b: seq<Action>)
    ensures Run(f, s, a + b) == Run(f, Run(f, s, a), b)
  {
    hide Next;
    if b == [] {
      assert a + b == a;
    } else {
      var k := |b| - 1;
      assert (a + b)[..|a + b| - 1] == a + b[..k];
      RunConcat(f, s, a, b[..k]);
    }
  }

  lemma {:induction false} RunClient(f: Extension, s: State, n: nat)
    ensures Run(f, s, seq(n, _ => ClientStep)) == s.(tix := ClientSteps(s.tix, n))
  {
    hide ClientNext, WorkerNext;
    if n > 0 {
      assert seq(n, _ => ClientStep)[..n - 1] == seq(n - 1, _ => ClientStep);
      RunClient(f, s, n - 1);
    }
  }

  lemma {:induction false} RunWorker(f: Extension, s: State, n: nat)
    ensures Run(f, s, seq(n, _ => WorkerStep)) == Steps(f, s, n)
  {
    hide WorkerNext;
    if n > 0 {
      assert seq(n, _ => WorkerStep)[..n - 1] == seq(n - 1, _ => WorkerStep);
      RunWorker(f, s, n - 1);
      StepsAdd(f, s, n - 1, 1);
      assert Steps(f, Steps(f, s, n - 1), 1) == WorkerNext(f, Steps(f, s, n - 1));
    }
  }

  lemma {:induction false} RunSchedule(f: Extension, s: State, call: Action, before: nat, waits: nat, after: nat)
    ensures var t := Next(f, s, call);
      var u := Steps(f, t.(tix := ClientSteps(t.tix, before)), waits);
      Run(f, s, Schedule(call, before, waits, after)) == u.(tix := ClientSteps(u.tix, after))
  {
    hide Run, Next, Steps, ClientSteps;
    var first, second, third := seq(before, _ => ClientStep), seq(waits, _ => WorkerStep), seq(after, _ => ClientStep);
    var t := Next(f, s, call);
    RunOne(f, s, call);
    RunConcat(f, s, [call], first);
    RunClient(f, t, before);
    RunConcat(f, s, [call] + first, second);
    RunWorker(f, t.(tix := ClientSteps(t.tix, before)), waits);
    RunConcat(f, s, [call] + first + second, third);
    RunClient(f, Steps(f, t.(tix := ClientSteps(t.tix, before)), waits), after);
  }

  lemma {:induction false} RunOne(f: Extension, s: State, a: Action)
    ensures Run(f, s, [a]) == Next(f, s, a)
  {
    assert [a][..0] == [];
  }

  // ----- waiting for the mutex -----

  /** How many steps the worker still takes before it has unlocked. */
  function CriticalLeft(w: WorkerPc): nat {
    match w
    case FetchTicket => 2
    case UnlockFetched(_) => 1
    case SaveReady(_) => 3
    case SaveData(_) => 2
    case UnlockSaved => 1
    case _ => 0
  }

  /** s once the worker, undisturbed, has let go of the mutex. */
  function Released(f: Extension, s: State): State {
    Steps(f, s, CriticalLeft(s.worker))
  }

  lemma {:induction false} CriticalStep(f: Extension, s: State)
    requires WorkerHolds(s.worker)
    ensures var t := WorkerNext(f, s);
      && CriticalLeft(s.worker) == CriticalLeft(t.worker) + 1
      && t == s.(worker := t.worker, tix := t.tix)
      && t.tix == s.tix.(owner := t.tix.owner, curId := t.tix.curId, tickets := t.tix.tickets)
  {
  }

  /** What waiting changes: the worker's place, the mutex, its ticket. */
  lemma {:induction false} ReleasedKeeps(f: Extension, s: State)
    requires Inv(f, s) && !s.tix.owner.HeldByClient?
    ensures var t := Released(f, s);
      && Inv(f, t) && t.tix.owner.Free?
      && t == s.(worker := t.worker, tix := t.tix)
      && t.tix == s.tix.(owner := Free, curId := t.tix.curId, tickets := t.tix.tickets)
    decreases CriticalLeft(s.worker)
  {
    hide WorkerNext, QueueInv, ExecutionInv, PriorityInv, DeliveryInv, EntryInv;
    StepsKeep(f, s, CriticalLeft(s.worker));
    if WorkerHolds(s.worker) {
      CriticalStep(f, s);
      NextKeeps(f, s, WorkerStep);
      ReleasedKeeps(f, WorkerNext(f, s));
    }
  }

  /** The worker never holds the mutex while it runs a command, and left alone it lets go after at most three steps,
      none of which is a call. So the game never waits for callExtension to create or collect a ticket. */
  lemma {:induction false} NoCallUnderLock(f: Extension, trace: seq<Action>) returns (k: nat)
    ensures var s := Run(f, Init(), trace);
      && (s.worker.RunCommand? || s.worker.RunLow? || s.worker.RunTicket? ==> !s.tix.owner.HeldByWorker?)
      && k <= 3 && !Steps(f, s, k).tix.owner.HeldByWorker?
      && Steps(f, s, k).calls == s.calls && Steps(f, s, k).tix.client == s.tix.client
  {
    hide Run, WorkerNext, QueueInv, ExecutionInv, PriorityInv, DeliveryInv, EntryInv;
    Reachable(f, trace);
    var s := Run(f, Init(), trace);
    if s.tix.owner.HeldByClient? {
      k := 0;
    } else {
      k := CriticalLeft(s.worker);
      ReleasedKeeps(f, s);
    }
  }

  /** The worker does not look at where the client is. */
  lemma {:induction false} WorkerIgnoresClient(f: Extension, s: State, c: ClientPc)
    ensures var t, u := WorkerNext(f, s), WorkerNext(f, s.(tix := s.tix.(client := c)));
      u == t.(tix := t.tix.(client := c))
  {
    hide QueueStep, TicketStep;
    if OnTickets(s.worker) {
      TicketStepIgnoresClient(f, s.worker, s.tix, c);
    } else {
      QueueStepIgnoresClient(s, c);
    }
  }

  lemma {:induction false} TicketStepIgnoresClient(f: Extension, w: WorkerPc, x: TicketState, c: ClientPc)
    ensures var (v, y) := TicketStep(f, w, x);
      TicketStep(f, w, x.(client := c)) == (v, y.(client := c))
  {
  }

  lemma {:induction false} QueueStepIgnoresClient(s: State, c: ClientPc)
    ensures var t := QueueStep(s);
      t.tix == s.tix && QueueStep(s.(tix := s.tix.(client := c))) == t.(tix := t.tix.(client := c))
  {
  }

  lemma {:induction false} StepsIgnoreClient(f: Extension, s: State, c: ClientPc, n: nat)
    ensures var t, u := Steps(f, s, n), Steps(f, s.(tix := s.tix.(client := c)), n);
      u == t.(tix := t.tix.(client := c))
    decreases n
  {
    hide WorkerNext;
    if n > 0 {
      WorkerIgnoresClient(f, s, c);
      StepsIgnoreClient(f, WorkerNext(f, s), c, n - 1);
    }
  }

  // ----- the client's calls -----

  /** s with one more ticket. */
  function Created(s: State, cmd: string): State {
    var k := s.tix.id + 1;
    s.(tix := s.tix.(id := k, tickets := s.tix.tickets[k := Ticket(false, cmd)], submitted := s.tix.submitted + [cmd]))
  }

  /** s with ticket k collected. */
  function Collected(s: State, k: int): State
    requires k in s.tix.tickets
  {
    s.(tix := s.tix.(tickets := s.tix.tickets - {k},
                     delivered := s.tix.delivered + [Delivery(k, s.tix.tickets[k].data)]))
  }

  lemma {:induction false} FourSteps(x: TicketState)
    ensures ClientSteps(x, 4) == ClientNext(ClientNext(ClientNext(ClientNext(x))))
    ensures ClientSteps(x, 1) == ClientNext(x) && ClientSteps(x, 2) == ClientNext(ClientNext(x))
    ensures ClientSteps(x, 0) == x
  {
    hide ClientNext;
    assert ClientSteps(x, 1) == ClientNext(x);
    assert ClientSteps(x, 3) == ClientNext(ClientSteps(x, 2));
    assert ClientSteps(x, 4) == ClientNext(ClientSteps(x, 3));
  }

  lemma {:induction false} CreateSteps(x: TicketState, cmd: string)
    requires x.client == LockToCreate(cmd) && x.owner.Free? && x.id + 1 !in x.tickets
    ensures ClientSteps(x, 4)
         == x.(client := Idle, id := x.id + 1, tickets := x.tickets[x.id + 1 := Ticket(false, cmd)],
               submitted := x.submitted + [cmd])
  {
    FourSteps(x);
    var x2 := ClientNext(ClientNext(x));
    assert x2 == x.(client := Insert(cmd), owner := HeldByClient, id := x.id + 1, submitted := x.submitted + [cmd]);
  }

  lemma {:induction false} CollectSteps(x: TicketState, k: int)
    requires x.client == LockToCollect(k) && x.owner.Free? && k in x.tickets
    ensures ClientSteps(x, 4)
         == x.(client := Idle, tickets := x.tickets - {k}, delivered := x.delivered + [Delivery(k, x.tickets[k].data)])
  {
    FourSteps(x);
    var x2 := ClientNext(ClientNext(x));
    assert x2 == x.(client := Erase(k, x.tickets[k].data), owner := HeldByClient);
  }

  /** A whole createTicket, waiting included. */
  lemma {:induction false} CreateRuns(f: Extension, s: State, cmd: string)
    requires Inv(f, s) && s.tix.client.Idle? && !s.tix.owner.HeldByClient?
    ensures s.tix.id + 1 !in Released(f, s).tix.tickets
    ensures Run(f, s, Schedule(Submit(cmd), 0, CriticalLeft(s.worker), 4)) == Created(Released(f, s), cmd)
  {
    hide Inv, Run, Steps, ClientSteps, WorkerNext;
    var w := CriticalLeft(s.worker);
    RunSchedule(f, s, Submit(cmd), 0, w, 4);
    FourSteps(Next(f, s, Submit(cmd)).tix);
    StepsIgnoreClient(f, s, LockToCreate(cmd), w);
    ReleasedKeeps(f, s);
    NextKeyIsNew(f, Released(f, s));
    CreateSteps(Released(f, s).tix.(client := LockToCreate(cmd)), cmd);
  }

  /** The client's two unlocked looks. */
  lemma {:induction false} LookRuns(f: Extension, s: State, k: int)
    requires s.tix.client.Idle?
    ensures k !in s.tix.tickets ==> Run(f, s, Schedule(Poll(k), 1, 0, 0)) == s
    ensures k in s.tix.tickets && !s.tix.tickets[k].ready ==> Run(f, s, Schedule(Poll(k), 2, 0, 0)) == s
    ensures k in s.tix.tickets && s.tix.tickets[k].ready ==>
              Run(f, s, Schedule(Poll(k), 2, 0, 0)) == s.(tix := s.tix.(client := LockToCollect(k)))
  {
    hide Run, ClientSteps;
    var x := Next(f, s, Poll(k)).tix;
    FourSteps(x);
    FourSteps(ClientSteps(x, 1));
    FourSteps(ClientSteps(x, 2));
    RunSchedule(f, s, Poll(k), 1, 0, 0);
    RunSchedule(f, s, Poll(k), 2, 0, 0);
  }

  /** A whole collection of a ticket that was seen ready, waiting included. What was seen was perhaps only the flag:
      the text is there once the mutex is free. */
  lemma {:induction false} CollectRuns(f: Extension, s: State, k: int)
    requires Inv(f, s) && s.tix.client.Idle? && k in s.tix.tickets && s.tix.tickets[k].ready
    ensures var t := Released(f, s);
      && k in t.tix.tickets && 1 <= k <= |s.tix.submitted|
      && t.tix.tickets[k].data == f(Submitted(s.tix, k))
      && Run(f, s, Schedule(Poll(k), 2, CriticalLeft(s.worker), 4)) == Collected(t, k)
  {
    hide Inv, Run, Steps, ClientSteps, WorkerNext;
    var w := CriticalLeft(s.worker);
    var looked := s.(tix := s.tix.(client := LockToCollect(k)));
    NotHeldByClient(f, s);
    LookRuns(f, s, k);
    RunSchedule(f, s, Poll(k), 2, 0, 0);
    RunSchedule(f, s, Poll(k), 2, w, 4);
    var x := Next(f, s, Poll(k)).tix;
    FourSteps(ClientSteps(x, 2));
    NoSteps(f, Next(f, s, Poll(k)).(tix := ClientSteps(x, 2)));
    RunKeeps(f, s, Schedule(Poll(k), 2, 0, 0));
    StepsIgnoreClient(f, s, LockToCollect(k), w);
    ReleasedKeeps(f, s);
    ReleasedKeeps(f, looked);
    CollectableIsAnswered(f, Released(f, looked), k);
    CollectSteps(Released(f, looked).tix, k);
  }

  lemma {:induction false} NotHeldByClient(f: Extension, s: State)
    requires Inv(f, s) && s.tix.client.Idle?
    ensures !s.tix.owner.HeldByClient?
  {
  }

  lemma {:induction false} CollectableIsAnswered(f: Extension, s: State, k: int)
    requires Inv(f, s) && s.tix.client == LockToCollect(k) && s.tix.owner.Free?
    ensures k in s.tix.tickets && 1 <= k <= |s.tix.submitted|
    ensures s.tix.tickets[k].data == f(Submitted(s.tix, k))
  {
    assert EntryInv(f, s.worker, s.tix, k);
  }

  /** What the invariant says of a key the client asks about. */
  lemma {:induction false} WhatPollSees(f: Extension, w: WorkerPc, x: TicketState, k: int)
    requires TicketInv(f, w, x) && x.client.Idle?
    ensures k !in x.tickets <==> k < 1 || k > x.id || IsDelivered(x.delivered, k)
    ensures k in x.tickets && !x.tickets[k].ready <==>
              x.curId < k <= x.id || (k == x.curId && Processing(w) && !w.SaveData?)
  {
    assert EntryInv(f, w, x, k);
    assert forall i :: 0 <= i < |x.delivered| ==> 1 <= x.delivered[i].k <= x.curId;
  }

  lemma {:induction false} NextKeyIsNew(f: Extension, s: State)
    requires Inv(f, s) && s.tix.client.Idle?
    ensures s.tix.id + 1 !in s.tix.tickets
  {
    assert EntryInv(f, s.worker, s.tix, s.tix.id + 1);
  }

  lemma {:induction false} StartsQuiet(f: Extension, s: State)
    requires Inv(f, s) && s.worker.NotStarted? && s.tix.client.Idle?
    ensures Quiet(f, WorkerNext(f, s)) && Steps(f, s, 1) == WorkerNext(f, s)
    ensures WorkerNext(f, s) == s.(running := true, worker := Head)
  {
    hide TicketInv;
    StepKeepsTickets(f, s, WorkerStep);
  }

  /** With no ticket outstanding, the answer to every command not collected yet is there. */
  ghost predicate AllAnswered(f: Extension, x: TicketState) {
    forall k :: 1 <= k <= |x.submitted| && !IsDelivered(x.delivered, k) ==>
      k in x.tickets && x.tickets[k] == Ticket(true, f(Submitted(x, k)))
  }

  lemma {:induction false} SleepingMeansAnswered(f: Extension, s: State)
    requires Inv(f, s) && s.worker.Sleep? && s.tix.client.Idle? && s.tix.curId == s.tix.id
    ensures AllAnswered(f, s.tix)
  {
    var x := s.tix;
    forall k | 1 <= k <= |x.submitted| && !IsDelivered(x.delivered, k)
      ensures k in x.tickets && x.tickets[k] == Ticket(true, f(Submitted(x, k)))
    {
      assert EntryInv(f, s.worker, x, k);
    }
  }

  lemma {:induction false} NoSteps(f: Extension, s: State)
    ensures Steps(f, s, 0) == s
  {
  }

  lemma {:induction false} CriticalIsTicketStep(f: Extension, s: State)
    requires WorkerHolds(s.worker)
    ensures var (w, x) := TicketStep(f, s.worker, s.tix);
      WorkerNext(f, s) == s.(worker := w, tix := x)
  {
  }

  lemma {:induction false} OneStep(f: Extension, s: State)
    ensures Steps(f, s, 1) == WorkerNext(f, s)
  {
    hide WorkerNext;
  }

  lemma {:induction false} HeldMeansCritical(f: Extension, s: State)
    requires Inv(f, s)
    ensures s.tix.owner.HeldByWorker? <==> CriticalLeft(s.worker) > 0
    ensures CriticalLeft(s.worker) > 0 <==> WorkerHolds(s.worker)
  {
  }

  lemma {:induction false} FreeIsReleased(f: Extension, s: State)
    requires Inv(f, s) && s.tix.owner.Free?
    ensures Released(f, s) == s
  {
  }

  class AsyncWorker {
    const callExtension: Extension
    var running: bool
    var commands: seq<string>
    var lowCommands: seq<string>
    var mutex: Owner
    var tickets: map<int, Ticket>
    var id: int
    var curId: int

    var worker: WorkerPc              // where the worker thread is
    ghost var submitted: seq<string>
    ghost var delivered: seq<Delivery>
    ghost var enqueued: seq<string>
    ghost var enqueuedLow: seq<string>
    ghost var calls: seq<Call>
    ghost var events: seq<Event>

    /** The state of the transition system, the client being between two calls. */
    ghost function Abs(): State
      reads this
    {
      State(running, worker, TicketState(mutex, tickets, id, curId, Idle, submitted, delivered),
            QueueState(commands, lowCommands, enqueued, enqueuedLow), calls, events)
    }

    ghost predicate Valid()
      reads this
    {
      Inv(callExtension, Abs())
    }

    constructor (callExtension: Extension)
      ensures Valid() && Abs() == Init()
    {
      this.callExtension := callExtension;
      running, commands, lowCommands, mutex, tickets, id, curId := false, [], [], Free, map[], 0, 0;
      worker, submitted, delivered, enqueued, enqueuedLow, calls, events := NotStarted, [], [], [], [], [], [];
      new;
      InitInv(callExtension);
    }

    /** One step of the worker inside its critical section. */
    method WorkerMoves()
      requires WorkerHolds(worker)
      modifies `worker, `mutex, `curId, `tickets
      ensures Abs() == WorkerNext(callExtension, old(Abs()))
    {
      hide WorkerNext;
      CriticalIsTicketStep(callExtension, Abs());
      match worker
      case FetchTicket =>
        curId := curId + 1;
        tickets := Touch(tickets, curId);
        worker := UnlockFetched(tickets[curId].data);
      case UnlockFetched(ticket) =>
        mutex, worker := Free, RunTicket(ticket);
      case SaveReady(result) =>
        tickets := Touch(tickets, curId);
        tickets := tickets[curId := tickets[curId].(ready := true)];
        worker := SaveData(result);
      case SaveData(result) =>
        tickets := Touch(tickets, curId);
        tickets := tickets[curId := tickets[curId].(data := result)];
        worker := UnlockSaved;
      case UnlockSaved =>
        mutex, worker := Free, Head;
    }

    /** The client waiting for the mutex: the worker moves until it has let go. */
    method AwaitMutex()
      requires Valid()
      modifies `worker, `mutex, `curId, `tickets
      ensures Valid() && mutex.Free? && Abs() == Released(callExtension, old(Abs()))
    {
      hide Inv, WorkerNext, Steps;
      ghost var s, n := Abs(), 0;
      NotHeldByClient(callExtension, s);
      ReleasedKeeps(callExtension, s);
      NoSteps(callExtension, s);
      HeldMeansCritical(callExtension, s);
      while mutex.HeldByWorker?
        invariant Valid() && Abs() == Steps(callExtension, s, n) && n + CriticalLeft(worker) == CriticalLeft(s.worker)
        invariant mutex.HeldByWorker? <==> CriticalLeft(worker) > 0
        invariant !mutex.HeldByClient?
        decreases CriticalLeft(worker)
      {
        ghost var t := Abs();
        CriticalStep(callExtension, t);
        NextKeeps(callExtension, t, WorkerStep);
        StepsAdd(callExtension, s, n, 1);
        OneStep(callExtension, t);
        WorkerMoves();
        n := n + 1;
        NotHeldByClient(callExtension, Abs());
        HeldMeansCritical(callExtension, Abs());
      }
    }

    method CreateTicket(cmd: string) returns (ticket: int)
      requires Valid()
      modifies this
      ensures Valid()
      ensures Abs() == Run(callExtension, old(Abs()), Schedule(Submit(cmd), 0, CriticalLeft(old(worker)), 4))
      ensures Abs() == Created(Released(callExtension, old(Abs())), cmd)
      ensures ticket == id == old(id) + 1 && ticket !in old(tickets)
      ensures ticket in tickets && tickets[ticket] == Ticket(false, cmd) && submitted == old(submitted) + [cmd]
      ensures old(mutex).Free? ==> tickets == old(tickets)[ticket := Ticket(false, cmd)]
    {
      hide Inv, Run, Steps;
      ghost var s := Abs();
      NotHeldByClient(callExtension, s);
      NextKeyIsNew(callExtension, s);
      ReleasedKeeps(callExtension, s);
      CreateRuns(callExtension, s, cmd);
      RunKeeps(callExtension, s, Schedule(Submit(cmd), 0, CriticalLeft(s.worker), 4));
      if s.tix.owner.Free? {
        FreeIsReleased(callExtension, s);
      }
      AwaitMutex();
      mutex := HeldByClient;
      id := id + 1;
      submitted := submitted + [cmd];
      if id !in tickets {
        tickets := tickets[id := Ticket(false, cmd)];
      }
      mutex := Free;
      return id;
    }

    method TicketExists(k: int) returns (found: bool)
      ensures found <==> k in tickets
    {
      found := k in tickets;
    }

    /** Asking about a key that is not there leaves a default ticket behind. */
    method TicketReady(k: int) returns (ready: bool)
      modifies `tickets
      ensures tickets == if k in old(tickets) then old(tickets) else old(tickets)[k := Ticket(false, "")]
      ensures ready <==> k in old(tickets) && old(tickets)[k].ready
    {
      tickets := Touch(tickets, k);
      ready := tickets[k].ready;
    }

    method TicketResult(k: int) returns (result: string)
      requires Valid()
      modifies `worker, `curId, `mutex, `tickets, `delivered
      ensures var s := Released(callExtension, old(Abs()));
        && result == (if k in s.tix.tickets then s.tix.tickets[k].data else "")
        && Abs() == s.(tix := s.tix.(tickets := s.tix.tickets - {k},
                                     delivered := old(delivered) + [Delivery(k, result)]))
    {
      hide Inv, Steps;
      NotHeldByClient(callExtension, Abs());
      ReleasedKeeps(callExtension, Abs());
      AwaitMutex();
      mutex := HeldByClient;
      tickets := Touch(tickets, k);
      result := tickets[k].data;
      tickets := tickets - {k};
      delivered := delivered + [Delivery(k, result)];
      mutex := Free;
    }

    /** The game asking for ticket k: it gets callExtension's answer to the command handed in as k exactly when
        that has been stored and not been collected yet, is told to wait exactly when the answer is still
        outstanding, and otherwise there is no such ticket. */
    method PollTicket(k: int) returns (reply: Reply)
      requires Valid()
      modifies this
      ensures Valid()
      ensures Abs() == Run(callExtension, old(Abs()),
                           if reply.Text? then Schedule(Poll(k), 2, CriticalLeft(old(worker)), 4)
                           else Schedule(Poll(k), if reply.Wait? then 2 else 1, 0, 0))
      ensures reply.Empty? <==> k < 1 || k > id || IsDelivered(old(delivered), k)
      ensures reply.Wait? <==>
                old(curId) < k <= id || (k == old(curId) && Processing(old(worker)) && !old(worker).SaveData?)
      ensures reply.Text? ==> reply.text == callExtension(Submitted(Abs().tix, k)) && k !in tickets
      ensures !reply.Text? ==> Abs() == old(Abs())
      ensures delivered == if reply.Text? then old(delivered) + [Delivery(k, reply.text)] else old(delivered)
    {
      hide Run, Steps, TicketInv, QueueInv, ExecutionInv, PriorityInv, Schedule;
      ghost var s := Abs();
      WhatPollSees(callExtension, worker, s.tix, k);
      LookRuns(callExtension, s, k);
      reply := Empty;
      var found := TicketExists(k);
      if found {
        reply := Wait;
        var ready := TicketReady(k);
        if ready {
          NotHeldByClient(callExtension, s);
          ReleasedKeeps(callExtension, s);
          CollectRuns(callExtension, s, k);
          RunKeeps(callExtension, s, Schedule(Poll(k), 2, CriticalLeft(s.worker), 4));
          var text := TicketResult(k);
          reply := Text(text);
        }
      }
    }

    method Execute(cmd: string, important: bool)
      requires Valid()
      modifies `commands, `enqueued, `lowCommands, `enqueuedLow
      ensures Valid() && Abs() == Next(callExtension, old(Abs()), TicketProtocol.Execute(cmd, important))
      ensures commands == old(commands) + (if important then [cmd] else [])
      ensures lowCommands == old(lowCommands) + (if important then [] else [cmd])
    {
      hide Inv;
      NextKeeps(callExtension, Abs(), TicketProtocol.Execute(cmd, important));
      if important {
        commands, enqueued := commands + [cmd], enqueued + [cmd];
      } else {
        lowCommands, enqueuedLow := lowCommands + [cmd], enqueuedLow + [cmd];
      }
    }

    method Stop()
      requires Valid()
      modifies `running
      ensures Valid() && Abs() == Next(callExtension, old(Abs()), TicketProtocol.Stop) && !running
    {
      hide Inv;
      NextKeeps(callExtension, Abs(), TicketProtocol.Stop);
      running := false;
    }

    method ProcessTicket()
      requires mutex.Free?
      modifies `mutex, `curId, `tickets, `calls
      ensures mutex.Free? && curId == old(curId) + 1
      ensures var command := Touch(old(tickets), curId)[curId].data;
        && tickets == old(tickets)[curId := Ticket(true, callExtension(command))]
        && calls == old(calls) + [TicketCall(curId, command)]
    {
      mutex := HeldByWorker;
      curId := curId + 1;
      tickets := Touch(tickets, curId);
      var ticket := tickets[curId];
      mutex := Free;
      calls := calls + [TicketCall(curId, ticket.data)];
      ticket := Ticket(true, callExtension(ticket.data));
      mutex := HeldByWorker;
      tickets := tickets[curId := ticket];
      mutex := Free;
    }

    /** The body of run()'s loop, nobody else moving. */
    method Iterate() returns (slept: bool)
      requires Quiet(callExtension, Abs())
      modifies this
      ensures slept <==> Outstanding(old(Abs())) == 0
      ensures Abs() == if slept then old(Abs()).(worker := Sleep, events := LookedEverywhere(old(events)))
                       else Iterated(callExtension, old(Abs()))
    {
      hide TicketInv;
      QuietMeans(callExtension, Abs());
      slept := false;
      events := events + [LoopHead];
      if commands != [] {
        var command := commands[0];
        commands := commands[1..];
        calls := calls + [Command(command)];
      } else if id > curId && mutex.Free? {
        ProcessTicket();
      } else if commands == [] && id <= curId {
        events := events + [SawNoCommands] + [SawNoTickets];
        if lowCommands != [] {
          var command := lowCommands[0];
          lowCommands, events := lowCommands[1..], events + [TookLow];
          calls := calls + [LowCommand(command)];
        } else {
          worker := Sleep;
          slept := true;
        }
      }
    }

    /** run() from its first statement up to its first sleep, nobody else moving: everything waiting is done, the
        important commands first, then the tickets, then the unimportant commands. */
    method RunUntilSleep()
      requires Valid() && worker.NotStarted?
      modifies this
      ensures Valid()
      ensures Abs() == Steps(callExtension, old(Abs()), 1 + StepsToSleep(old(Abs())))
      ensures worker.Sleep? && commands == [] && lowCommands == [] && curId == id == old(id)
      ensures AllAnswered(callExtension, Abs().tix)
      ensures calls == old(calls) + CommandCalls(old(commands)) + TicketCalls(submitted, old(curId), id)
                                  + LowCalls(old(lowCommands))
    {
      hide Inv, TicketInv, Steps, Iterated, CommandCalls, TicketCalls, LowCalls, AllAnswered;
      ghost var s := Abs();
      StartsQuiet(callExtension, s);
      running, worker := true, Head;
      ghost var start, n := Abs(), 0;
      ghost var total := Drain(callExtension, start);
      NoSteps(callExtension, start);
      StepsAdd(callExtension, s, 1, total);
      StepsKeep(callExtension, s, 1 + total);
      var asleep := false;
      while running && !asleep
        invariant 0 <= n <= total
        invariant Abs() == Steps(callExtension, start, n)
        invariant if asleep then n == total else Quiet(callExtension, Abs()) && n + StepsToSleep(Abs()) == total
        decreases !asleep, Outstanding(Abs())
      {
        ghost var before := Abs();
        QuietMeans(callExtension, before);
        ghost var k := if Outstanding(before) == 0 then 6 else IterationLength(before);
        if Outstanding(before) != 0 {
          Iteration(callExtension, before);
        } else {
          NothingToDo(callExtension, before);
        }
        StepsAdd(callExtension, start, n, k);
        asleep := Iterate();
        n := n + k;
      }
      SleepingMeansAnswered(callExtension, Abs());
    }
  }
}
