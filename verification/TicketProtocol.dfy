/**
 The ticket worker as a transition system: a worker thread running AsyncWorker::run and one client thread
 calling the public methods, one shared-memory access per step. `f` is callExtension.
 */
module TicketProtocol {

  type Extension = string -> string

  datatype Ticket = Ticket(ready: bool, data: string)

  datatype Owner = Free | HeldByWorker | HeldByClient

  /** Where the worker is; the parameters are its local variables. */
  datatype WorkerPc =
    | NotStarted
    | Head                            // thread_run_flag
    | PeekCommands                    // commands->peek()
    | TakeCommand                     // commands->try_dequeue(command)
    | RunCommand(command: string)
    | CompareIds                      // id > curId
    | TryLock                         // mutex.tryLock()
    | FetchTicket                     // ticket = tickets[++curId]
    | UnlockFetched(ticket: string)
    | RunTicket(ticket: string)
    | LockToSave(result: string)
    | SaveReady(result: string)       // tickets[curId] = ticket, first member
    | SaveData(result: string)        // ... second member
    | UnlockSaved
    | RecheckCommands                 // commands->peek() == nullptr
    | RecheckIds                      // id <= curId
    | PeekLow                         // low_commands->peek()
    | TakeLow                         // low_commands->try_dequeue(command)
    | RunLow(command: string)
    | Sleep
    | Finished

  /** Where the client is. */
  datatype ClientPc =
    | Idle
    | LockToCreate(cmd: string)
    | BumpId(cmd: string)             // ++id
    | Insert(cmd: string)             // tickets.insert
    | UnlockCreated
    | CheckExists(k: int)             // ticketExists
    | CheckReady(k: int)              // ticketReady
    | LockToCollect(k: int)           // ticketResult
    | ReadResult(k: int)
    | Erase(k: int, text: string)
    | UnlockCollected

  datatype Call = Command(cmd: string) | TicketCall(k: int, cmd: string) | LowCommand(cmd: string)

  datatype Event = LoopHead | SawNoCommands | SawNoTickets | TookLow

  datatype Delivery = Delivery(k: int, text: string)

  /** Everything the mutex protects, the client's position, and the tickets' history. */
  datatype TicketState = TicketState(
    owner: Owner,
    tickets: map<int, Ticket>,
    id: int,
    curId: int,
    client: ClientPc,
    submitted: seq<string>,
    delivered: seq<Delivery>)

  /** The two lock-free queues, with everything ever put into them. */
  datatype QueueState = QueueState(
    commands: seq<string>,
    low: seq<string>,
    enqueued: seq<string>,
    enqueuedLow: seq<string>)

  datatype State = State(
    running: bool,
    worker: WorkerPc,
    tix: TicketState,
    queues: QueueState,
    calls: seq<Call>,
    events: seq<Event>)

  datatype Action =
    | WorkerStep
    | ClientStep
    | Submit(cmd: string)             // createTicket
    | Poll(k: int)                    // ticketExists, ticketReady, ticketResult as RVExtension chains them
    | Execute(cmd: string, important: bool)
    | Stop

  function Init(): State {
    State(false, NotStarted, TicketState(Free, map[], 0, 0, Idle, [], []), QueueState([], [], [], []), [], [])
  }

  /** unordered_map's operator[], which inserts a default ticket for a missing key. */
  function Touch(tickets: map<int, Ticket>, k: int): map<int, Ticket> {
    if k in tickets then tickets else tickets[k := Ticket(false, "")]
  }

  /** The worker's steps on the tickets, from comparing the ids to storing the result. */
  function TicketStep(f: Extension, w: WorkerPc, x: TicketState): (r: (WorkerPc, TicketState))
  {
    match w
    case CompareIds => (if x.id > x.curId then TryLock else RecheckCommands, x)
    case TryLock => if x.owner == Free then (FetchTicket, x.(owner := HeldByWorker)) else (RecheckCommands, x)
    case FetchTicket =>
      var k := x.curId + 1;
      var tickets := Touch(x.tickets, k);
      (UnlockFetched(tickets[k].data), x.(curId := k, tickets := tickets))
    case UnlockFetched(ticket) => (RunTicket(ticket), x.(owner := Free))
    case RunTicket(ticket) => (LockToSave(f(ticket)), x)
    case LockToSave(result) => if x.owner == Free then (SaveReady(result), x.(owner := HeldByWorker)) else (w, x)
    case SaveReady(result) =>
      var tickets := Touch(x.tickets, x.curId);
      (SaveData(result), x.(tickets := tickets[x.curId := tickets[x.curId].(ready := true)]))
    case SaveData(result) =>
      var tickets := Touch(x.tickets, x.curId);
      (UnlockSaved, x.(tickets := tickets[x.curId := tickets[x.curId].(data := result)]))
    case UnlockSaved => (Head, x.(owner := Free))
    case RecheckIds => (if x.id <= x.curId then PeekLow else Head, x)
    case _ => (w, x)
  }

  /** The worker's steps on the queues and its loop. */
  function QueueStep(s: State): State {
    var q := s.queues;
    match s.worker
    case NotStarted => s.(running := true, worker := Head)
    case Head =>
      if s.running then s.(worker := PeekCommands, events := s.events + [LoopHead]) else s.(worker := Finished)
    case PeekCommands => s.(worker := if q.commands != [] then TakeCommand else CompareIds)
    case TakeCommand =>
      if q.commands == [] then s.(worker := Head)
      else s.(worker := RunCommand(q.commands[0]), queues := q.(commands := q.commands[1..]))
    case RunCommand(command) => s.(worker := Head, calls := s.calls + [Command(command)])
    case RecheckCommands =>
      if q.commands == [] then s.(worker := RecheckIds, events := s.events + [SawNoCommands]) else s.(worker := Head)
    case PeekLow => s.(worker := if q.low != [] then TakeLow else Sleep)
    case TakeLow =>
      if q.low == [] then s.(worker := Head)
      else s.(worker := RunLow(q.low[0]), queues := q.(low := q.low[1..]), events := s.events + [TookLow])
    case RunLow(command) => s.(worker := Head, calls := s.calls + [LowCommand(command)])
    case Sleep => s.(worker := Head)
    case _ => s
  }

  predicate OnTickets(w: WorkerPc) {
    w.CompareIds? || w.TryLock? || w.RecheckIds? || w.FetchTicket? || w.UnlockFetched? || w.RunTicket?
    || w.LockToSave? || w.SaveReady? || w.SaveData? || w.UnlockSaved?
  }

  function WorkerNext(f: Extension, s: State): State {
    if OnTickets(s.worker) then
      var (w, x) := TicketStep(f, s.worker, s.tix);
      s.(worker := w, tix := x,
         calls := if s.worker.RunTicket? then s.calls + [TicketCall(x.curId, s.worker.ticket)] else s.calls,
         events := if s.worker.RecheckIds? && w.PeekLow? then s.events + [SawNoTickets] else s.events)
    else QueueStep(s)
  }

  function ClientNext(x: TicketState): TicketState {
    match x.client
    case Idle => x
    case LockToCreate(cmd) => if x.owner == Free then x.(client := BumpId(cmd), owner := HeldByClient) else x
    case BumpId(cmd) => x.(id := x.id + 1, client := Insert(cmd), submitted := x.submitted + [cmd])
    case Insert(cmd) =>
      // map::insert leaves an existing key alone
      x.(tickets := if x.id in x.tickets then x.tickets else x.tickets[x.id := Ticket(false, cmd)],
         client := UnlockCreated)
    case UnlockCreated => x.(owner := Free, client := Idle)
    case CheckExists(k) => x.(client := if k in x.tickets then CheckReady(k) else Idle)
    case CheckReady(k) =>
      var tickets := Touch(x.tickets, k);
      x.(tickets := tickets, client := if tickets[k].ready then LockToCollect(k) else Idle)
    case LockToCollect(k) => if x.owner == Free then x.(client := ReadResult(k), owner := HeldByClient) else x
    case ReadResult(k) =>
      var tickets := Touch(x.tickets, k);
      x.(tickets := tickets, client := Erase(k, tickets[k].data))
    case Erase(k, text) =>
      x.(tickets := x.tickets - {k}, delivered := x.delivered + [Delivery(k, text)], client := UnlockCollected)
    case UnlockCollected => x.(owner := Free, client := Idle)
  }

  /** One step of either thread. A step that cannot be taken, such as locking a held mutex, leaves the state. */
  function Next(f: Extension, s: State, a: Action): State {
    match a
    case WorkerStep => WorkerNext(f, s)
    case ClientStep => s.(tix := ClientNext(s.tix))
    case Submit(cmd) => if s.tix.client.Idle? then s.(tix := s.tix.(client := LockToCreate(cmd))) else s
    case Poll(k) => if s.tix.client.Idle? then s.(tix := s.tix.(client := CheckExists(k))) else s
    case Execute(cmd, important) =>
      var q := s.queues;
      if !s.tix.client.Idle? then s
      else if important then s.(queues := q.(commands := q.commands + [cmd], enqueued := q.enqueued + [cmd]))
      else s.(queues := q.(low := q.low + [cmd], enqueuedLow := q.enqueuedLow + [cmd]))
    case Stop => s.(running := false)
  }

  /** Any interleaving of the two threads, as the sequence of steps taken. */
  function Run(f: Extension, s: State, trace: seq<Action>): State {
    if trace == [] then s
    else Next(f, Run(f, s, trace[..|trace| - 1]), trace[|trace| - 1])
  }

  // ----- the invariant -----

  predicate WorkerHolds(w: WorkerPc) {
    w.FetchTicket? || w.UnlockFetched? || w.SaveReady? || w.SaveData? || w.UnlockSaved?
  }

  predicate ClientHolds(c: ClientPc) {
    c.BumpId? || c.Insert? || c.UnlockCreated? || c.ReadResult? || c.Erase? || c.UnlockCollected?
  }

  /** The mutex is held by whoever is between a lock and its unlock, hence never by both. */
  predicate MutexInv(w: WorkerPc, x: TicketState) {
    && (x.owner == HeldByWorker <==> WorkerHolds(w))
    && (x.owner == HeldByClient <==> ClientHolds(x.client))
  }

  /** The worker has fetched ticket curId and not yet saved its result. */
  predicate Processing(w: WorkerPc) {
    w.UnlockFetched? || w.RunTicket? || w.LockToSave? || w.SaveReady? || w.SaveData?
  }

  predicate IdInv(w: WorkerPc, x: TicketState) {
    && 0 <= x.curId <= x.id == |x.submitted|
    && (w.TryLock? || w.FetchTicket? || x.client.Insert? ==> x.curId < x.id)
    && (Processing(w) ==> 0 < x.curId)
  }

  /** The command handed in as ticket k. */
  function Submitted(x: TicketState, k: int): string
    requires 1 <= k <= |x.submitted|
  {
    x.submitted[k - 1]
  }

  /** What the map must hold for key k, if anything. */
  ghost predicate EntryInv(f: Extension, w: WorkerPc, x: TicketState, k: int)
    requires IdInv(w, x)
  {
    if k < 1 || k > x.id || (x.client.Insert? && k == x.id) then k !in x.tickets
    else if k > x.curId then k in x.tickets && x.tickets[k] == Ticket(false, Submitted(x, k))
    else if k == x.curId && Processing(w) then k in x.tickets && x.tickets[k] == Ticket(w.SaveData?, Submitted(x, k))
    else k in x.tickets ==> x.tickets[k] == Ticket(true, f(Submitted(x, k)))
  }

  /** The worker's local copy of the ticket. */
  ghost predicate LocalInv(f: Extension, w: WorkerPc, x: TicketState)
    requires IdInv(w, x)
  {
    && (w.UnlockFetched? || w.RunTicket? ==> w.ticket == Submitted(x, x.curId))
    && (w.LockToSave? || w.SaveReady? || w.SaveData? ==> w.result == f(Submitted(x, x.curId)))
  }

  ghost predicate ClientInv(x: TicketState)
  {
    var c := x.client;
    && (c.Insert? ==> 0 < x.id == |x.submitted| && c.cmd == Submitted(x, x.id))
    && (c.CheckReady? || c.LockToCollect? || c.ReadResult? || c.Erase? ==> c.k in x.tickets)
    && (c.LockToCollect? || c.ReadResult? || c.Erase? ==> x.tickets[c.k].ready)
    && (c.Erase? ==> c.text == x.tickets[c.k].data)
  }

  ghost predicate IsDelivered(ds: seq<Delivery>, k: int) {
    exists i :: 0 <= i < |ds| && ds[i].k == k
  }

  /** Collected tickets are exactly the ones that have left the map, each collected once and with its result. */
  ghost predicate DeliveryInv(f: Extension, x: TicketState)
    requires x.curId <= |x.submitted|
  {
    var ds := x.delivered;
    && (forall i :: 0 <= i < |ds| ==> 1 <= ds[i].k <= x.curId && ds[i].text == f(Submitted(x, ds[i].k)))
    && (forall i, j :: 0 <= i < j < |ds| ==> ds[i].k != ds[j].k)
    && (forall k :: 1 <= k <= x.curId ==> (k in x.tickets <==> !IsDelivered(ds, k)))
  }

  ghost predicate TicketInv(f: Extension, w: WorkerPc, x: TicketState) {
    && MutexInv(w, x) && IdInv(w, x)
    && (forall k :: EntryInv(f, w, x, k))
    && LocalInv(f, w, x) && ClientInv(x) && DeliveryInv(f, x)
  }

  // ----- what has been executed -----

  function CommandsRun(calls: seq<Call>): seq<string> {
    if calls == [] then []
    else
      var last, before := calls[|calls| - 1], CommandsRun(calls[..|calls| - 1]);
      if last.Command? then before + [last.cmd] else before
  }

  function LowRun(calls: seq<Call>): seq<string> {
    if calls == [] then []
    else
      var last, before := calls[|calls| - 1], LowRun(calls[..|calls| - 1]);
      if last.LowCommand? then before + [last.cmd] else before
  }

  function TicketsRun(calls: seq<Call>): seq<Call> {
    if calls == [] then []
    else
      var last, before := calls[|calls| - 1], TicketsRun(calls[..|calls| - 1]);
      if last.TicketCall? then before + [last] else before
  }

  /** The calls of tickets `from` up to `upto`, in creation order. */
  function TicketCalls(submitted: seq<string>, from: int, upto: int): (calls: seq<Call>)
    requires 0 <= from <= upto <= |submitted|
    ensures |calls| == upto - from
  {
    seq(upto - from, i requires 0 <= i < upto - from => TicketCall(from + i + 1, submitted[from + i]))
  }

  /** How many tickets have been passed to callExtension. */
  function Executed(w: WorkerPc, x: TicketState): int {
    if w.UnlockFetched? || w.RunTicket? then x.curId - 1 else x.curId
  }

  function InFlight(w: WorkerPc, low: bool): seq<string> {
    if w.RunCommand? && !low then [w.command]
    else if w.RunLow? && low then [w.command]
    else []
  }

  /** Executed, then in flight, then pending is what was handed in, in order. */
  predicate Conserved(all: seq<string>, run: seq<string>, inFlight: seq<string>, pending: seq<string>) {
    all == run + inFlight + pending
  }

  ghost predicate QueueInv(w: WorkerPc, q: QueueState, calls: seq<Call>)
  {
    && Conserved(q.enqueued, CommandsRun(calls), InFlight(w, false), q.commands)
    && Conserved(q.enqueuedLow, LowRun(calls), InFlight(w, true), q.low)
  }

  /** The tickets executed are the first ones created, in creation order, each once. */
  ghost predicate ExecutionInv(s: State)
    requires IdInv(s.worker, s.tix)
  {
    TicketsRun(s.calls) == TicketCalls(s.tix.submitted, 0, Executed(s.worker, s.tix))
  }

  // ----- priority -----

  predicate EndsWith(events: seq<Event>, tail: seq<Event>) {
    |tail| <= |events| && events[|events| - |tail|..] == tail
  }

  /** Every unimportant command was taken right after a look, in the same iteration, at an empty important
      queue and then at no outstanding ticket. */
  ghost predicate LooksFirst(events: seq<Event>) {
    forall i :: 0 <= i < |events| && events[i] == TookLow ==>
      EndsWith(events[..i], [LoopHead, SawNoCommands, SawNoTickets])
  }

  /** ... and the looks made so far in the current iteration are the last events. */
  ghost predicate PriorityInv(w: WorkerPc, events: seq<Event>) {
    && LooksFirst(events)
    && (w.PeekCommands? || w.CompareIds? || w.TryLock? || w.RecheckCommands? ==> EndsWith(events, [LoopHead]))
    && (w.RecheckIds? ==> EndsWith(events, [LoopHead, SawNoCommands]))
    && (w.PeekLow? || w.TakeLow? ==> EndsWith(events, [LoopHead, SawNoCommands, SawNoTickets]))
  }

  ghost predicate Inv(f: Extension, s: State) {
    && TicketInv(f, s.worker, s.tix) && QueueInv(s.worker, s.queues, s.calls)
    && ExecutionInv(s) && PriorityInv(s.worker, s.events)
  }

  // ----- every step keeps it -----

  lemma {:induction false} FetchKeeps(f: Extension, x: TicketState)
    requires TicketInv(f, FetchTicket, x)
    ensures var (w', x') := TicketStep(f, FetchTicket, x);
      TicketInv(f, w', x')
  {
    var k := x.curId + 1;
    var (w', x') := TicketStep(f, FetchTicket, x);
    assert EntryInv(f, FetchTicket, x, k);
    assert x'.tickets == x.tickets;
    forall j ensures EntryInv(f, w', x', j) {
      assert EntryInv(f, FetchTicket, x, j);
    }
    assert !IsDelivered(x.delivered, k);
  }

  lemma {:induction false} SaveKeeps(f: Extension, w: WorkerPc, x: TicketState)
    requires w.SaveReady? || w.SaveData?
    requires TicketInv(f, w, x)
    ensures var (w', x') := TicketStep(f, w, x);
      TicketInv(f, w', x')
  {
    var (w', x') := TicketStep(f, w, x);
    assert EntryInv(f, w, x, x.curId);
    forall j ensures EntryInv(f, w', x', j) {
      assert EntryInv(f, w, x, j);
    }
  }

  /** The steps that leave the map and the counters. */
  lemma {:induction false} LockStepsKeep(f: Extension, w: WorkerPc, x: TicketState)
    requires !w.FetchTicket? && !w.SaveReady? && !w.SaveData?
    requires TicketInv(f, w, x)
    ensures var (w', x') := TicketStep(f, w, x);
      TicketInv(f, w', x')
  {
    var (w', x') := TicketStep(f, w, x);
    forall j ensures EntryInv(f, w', x', j) {
      assert EntryInv(f, w, x, j);
    }
  }

  lemma {:induction false} TicketStepKeeps(f: Extension, w: WorkerPc, x: TicketState)
    requires TicketInv(f, w, x)
    ensures var (w', x') := TicketStep(f, w, x);
      TicketInv(f, w', x')
  {
    if w.FetchTicket? {
      FetchKeeps(f, x);
    } else if w.SaveReady? || w.SaveData? {
      SaveKeeps(f, w, x);
    } else {
      LockStepsKeep(f, w, x);
    }
  }

  /** Positions of the worker at which it has no business with tickets are interchangeable. */
  lemma {:induction false} AwayFromTickets(f: Extension, w: WorkerPc, w': WorkerPc, x: TicketState)
    requires TicketInv(f, w, x)
    requires !WorkerHolds(w) && !Processing(w) && !WorkerHolds(w') && !Processing(w') && !w'.TryLock?
    ensures TicketInv(f, w', x)
  {
    forall j ensures EntryInv(f, w', x, j) {
      assert EntryInv(f, w, x, j);
    }
  }

  lemma {:induction false} CreateKeeps(f: Extension, w: WorkerPc, x: TicketState)
    requires x.client.BumpId? || x.client.Insert?
    requires TicketInv(f, w, x)
    ensures TicketInv(f, w, ClientNext(x))
  {
    var x' := ClientNext(x);
    assert EntryInv(f, w, x, x.id) && EntryInv(f, w, x, x'.id);
    assert forall k :: 1 <= k <= x.id ==> Submitted(x', k) == Submitted(x, k);
    forall j ensures EntryInv(f, w, x', j) {
      assert EntryInv(f, w, x, j);
    }
  }

  lemma {:induction false} EraseKeepsEntries(f: Extension, w: WorkerPc, x: TicketState)
    requires x.client.Erase?
    requires TicketInv(f, w, x)
    ensures var x' := ClientNext(x);
      IdInv(w, x') && (forall j :: EntryInv(f, w, x', j)) && LocalInv(f, w, x')
  {
    var x' := ClientNext(x);
    assert EntryInv(f, w, x, x.client.k);
    forall j ensures EntryInv(f, w, x', j) {
      assert EntryInv(f, w, x, j);
    }
  }

  lemma {:induction false} EraseDelivers(f: Extension, w: WorkerPc, x: TicketState)
    requires x.client.Erase?
    requires TicketInv(f, w, x)
    ensures DeliveryInv(f, ClientNext(x))
  {
    var x' := ClientNext(x);
    var ds, k := x.delivered, x.client.k;
    assert EntryInv(f, w, x, k);
    assert !IsDelivered(ds, k);
    forall j ensures IsDelivered(x'.delivered, j) <==> IsDelivered(ds, j) || j == k {
      DeliveredAppend(ds, x'.delivered[|ds|], j);
    }
  }

  lemma {:induction false} DeliveredAppend(ds: seq<Delivery>, d: Delivery, k: int)
    ensures IsDelivered(ds + [d], k) <==> IsDelivered(ds, k) || k == d.k
  {
    if IsDelivered(ds, k) {
      var i :| 0 <= i < |ds| && ds[i].k == k;
      assert (ds + [d])[i].k == k;
    }
    assert (ds + [d])[|ds|].k == d.k;
  }

  lemma {:induction false} EraseKeeps(f: Extension, w: WorkerPc, x: TicketState)
    requires x.client.Erase?
    requires TicketInv(f, w, x)
    ensures TicketInv(f, w, ClientNext(x))
  {
    hide EntryInv, DeliveryInv;
    EraseKeepsEntries(f, w, x);
    EraseDelivers(f, w, x);
  }

  lemma {:induction false} PollKeeps(f: Extension, w: WorkerPc, x: TicketState)
    requires x.client.CheckExists? || x.client.CheckReady?
    requires TicketInv(f, w, x)
    ensures TicketInv(f, w, ClientNext(x))
  {
    var x' := ClientNext(x);
    assert x' == x.(client := x'.client);
    forall j ensures EntryInv(f, w, x', j) {
      assert EntryInv(f, w, x, j);
    }
  }

  lemma {:induction false} ReadKeeps(f: Extension, w: WorkerPc, x: TicketState)
    requires x.client.ReadResult?
    requires TicketInv(f, w, x)
    ensures TicketInv(f, w, ClientNext(x))
  {
    var x' := ClientNext(x);
    assert x'.tickets == x.tickets;
    forall j ensures EntryInv(f, w, x', j) {
      assert EntryInv(f, w, x, j);
    }
  }

  lemma {:induction false} ClientLocksKeep(f: Extension, w: WorkerPc, x: TicketState)
    requires var c := x.client;
      c.Idle? || c.LockToCreate? || c.UnlockCreated? || c.LockToCollect? || c.UnlockCollected?
    requires TicketInv(f, w, x)
    ensures TicketInv(f, w, ClientNext(x))
  {
    var x' := ClientNext(x);
    assert x'.tickets == x.tickets;
    forall j ensures EntryInv(f, w, x', j) {
      assert EntryInv(f, w, x, j);
    }
  }

  lemma {:induction false} BeginKeeps(f: Extension, w: WorkerPc, x: TicketState, c: ClientPc)
    requires x.client.Idle? && (c.LockToCreate? || c.CheckExists?)
    requires TicketInv(f, w, x)
    ensures TicketInv(f, w, x.(client := c))
  {
    forall j ensures EntryInv(f, w, x.(client := c), j) {
      assert EntryInv(f, w, x, j);
    }
  }

  lemma {:induction false} StepKeepsTickets(f: Extension, s: State, a: Action)
    requires TicketInv(f, s.worker, s.tix)
    ensures var t := Next(f, s, a);
      TicketInv(f, t.worker, t.tix)
  {
    match a
    case WorkerStep =>
      if OnTickets(s.worker) {
        TicketStepKeeps(f, s.worker, s.tix);
      } else {
        AwayFromTickets(f, s.worker, QueueStep(s).worker, s.tix);
      }
    case ClientStep =>
      if s.tix.client.BumpId? || s.tix.client.Insert? {
        CreateKeeps(f, s.worker, s.tix);
      } else if s.tix.client.Erase? {
        EraseKeeps(f, s.worker, s.tix);
      } else if s.tix.client.CheckExists? || s.tix.client.CheckReady? {
        PollKeeps(f, s.worker, s.tix);
      } else if s.tix.client.ReadResult? {
        ReadKeeps(f, s.worker, s.tix);
      } else {
        ClientLocksKeep(f, s.worker, s.tix);
      }
    case Submit(cmd) =>
      if s.tix.client.Idle? {
        BeginKeeps(f, s.worker, s.tix, LockToCreate(cmd));
      }
    case Poll(k) =>
      if s.tix.client.Idle? {
        BeginKeeps(f, s.worker, s.tix, CheckExists(k));
      }
    case _ =>
  }

  lemma {:induction false} RunAppend(calls: seq<Call>, c: Call)
    ensures CommandsRun(calls + [c]) == if c.Command? then CommandsRun(calls) + [c.cmd] else CommandsRun(calls)
    ensures LowRun(calls + [c]) == if c.LowCommand? then LowRun(calls) + [c.cmd] else LowRun(calls)
    ensures TicketsRun(calls + [c]) == if c.TicketCall? then TicketsRun(calls) + [c] else TicketsRun(calls)
  {
    assert (calls + [c])[..|calls|] == calls;
  }

  lemma {:induction false} Dequeue(all: seq<string>, run: seq<string>, pending: seq<string>)
    requires pending != [] && Conserved(all, run, [], pending)
    ensures Conserved(all, run, [pending[0]], pending[1..])
  {
    assert pending == [pending[0]] + pending[1..];
  }

  lemma {:induction false} Finish(all: seq<string>, run: seq<string>, c: string, pending: seq<string>)
    requires Conserved(all, run, [c], pending)
    ensures Conserved(all, run + [c], [], pending)
  {
  }

  lemma {:induction false} Enqueue(all: seq<string>, run: seq<string>, inFlight: seq<string>,
                                   pending: seq<string>, c: string)
    requires Conserved(all, run, inFlight, pending)
    ensures Conserved(all + [c], run, inFlight, pending + [c])
  {
  }

  /** The steps that call nothing leave what the tickets' history says. */
  lemma {:induction false} QuietStep(f: Extension, s: State)
    requires !Calling(s.worker)
    ensures var t := WorkerNext(f, s);
      && t.calls == s.calls && t.tix.submitted == s.tix.submitted
      && Executed(t.worker, t.tix) == Executed(s.worker, s.tix)
  {
  }

  lemma {:induction false} NoDequeue(f: Extension, s: State)
    requires !Calling(s.worker) && !s.worker.TakeCommand? && !s.worker.TakeLow?
    ensures var t := WorkerNext(f, s);
      && t.queues == s.queues
      && InFlight(t.worker, false) == InFlight(s.worker, false) == []
      && InFlight(t.worker, true) == InFlight(s.worker, true) == []
  {
  }

  lemma {:induction false} TakeKeepsQueues(f: Extension, s: State)
    requires s.worker.TakeCommand? || s.worker.TakeLow?
    requires QueueInv(s.worker, s.queues, s.calls)
    ensures var t := WorkerNext(f, s);
      QueueInv(t.worker, t.queues, t.calls)
  {
    hide CommandsRun, LowRun;
    var q := s.queues;
    if s.worker.TakeCommand? && q.commands != [] {
      Dequeue(q.enqueued, CommandsRun(s.calls), q.commands);
    }
    if s.worker.TakeLow? && q.low != [] {
      Dequeue(q.enqueuedLow, LowRun(s.calls), q.low);
    }
  }

  predicate Calling(w: WorkerPc) {
    w.RunCommand? || w.RunLow? || w.RunTicket?
  }

  function CallMade(w: WorkerPc, x: TicketState): Call
    requires Calling(w)
  {
    if w.RunCommand? then Command(w.command)
    else if w.RunLow? then LowCommand(w.command)
    else TicketCall(x.curId, w.ticket)
  }

  lemma {:induction false} CallStep(f: Extension, s: State)
    requires Calling(s.worker)
    ensures var t := WorkerNext(f, s);
      && t.queues == s.queues && t.calls == s.calls + [CallMade(s.worker, s.tix)] && t.tix == s.tix
      && InFlight(t.worker, false) == [] == InFlight(t.worker, true)
      && Executed(t.worker, t.tix) == s.tix.curId
  {
  }

  lemma {:induction false} CallKeepsQueues(f: Extension, s: State)
    requires Calling(s.worker)
    requires QueueInv(s.worker, s.queues, s.calls)
    ensures var t := WorkerNext(f, s);
      QueueInv(t.worker, t.queues, t.calls)
  {
    hide WorkerNext;
    var q := s.queues;
    CallStep(f, s);
    RunAppend(s.calls, CallMade(s.worker, s.tix));
    if s.worker.RunCommand? {
      Finish(q.enqueued, CommandsRun(s.calls), s.worker.command, q.commands);
    } else if s.worker.RunLow? {
      Finish(q.enqueuedLow, LowRun(s.calls), s.worker.command, q.low);
    }
  }

  lemma {:induction false} WorkerKeepsQueues(f: Extension, s: State)
    requires QueueInv(s.worker, s.queues, s.calls)
    ensures var t := WorkerNext(f, s);
      QueueInv(t.worker, t.queues, t.calls)
  {
    hide WorkerNext;
    if Calling(s.worker) {
      CallKeepsQueues(f, s);
    } else if s.worker.TakeCommand? || s.worker.TakeLow? {
      TakeKeepsQueues(f, s);
    } else {
      QuietStep(f, s);
      NoDequeue(f, s);
    }
  }

  lemma {:induction false} StepKeepsQueues(f: Extension, s: State, a: Action)
    requires QueueInv(s.worker, s.queues, s.calls)
    ensures var t := Next(f, s, a);
      QueueInv(t.worker, t.queues, t.calls)
  {
    var q := s.queues;
    match a
    case WorkerStep => WorkerKeepsQueues(f, s);
    case Execute(cmd, important) =>
      Enqueue(q.enqueued, CommandsRun(s.calls), InFlight(s.worker, false), q.commands, cmd);
      Enqueue(q.enqueuedLow, LowRun(s.calls), InFlight(s.worker, true), q.low, cmd);
    case _ =>
  }

  lemma {:induction false} CallKeepsExecution(f: Extension, s: State)
    requires Calling(s.worker)
    requires TicketInv(f, s.worker, s.tix) && ExecutionInv(s)
    ensures TicketsRun(WorkerNext(f, s).calls) == TicketCalls(s.tix.submitted, 0, s.tix.curId)
  {
    hide WorkerNext;
    CallStep(f, s);
    RunAppend(s.calls, CallMade(s.worker, s.tix));
    if s.worker.RunTicket? {
      OneMoreTicket(s.tix);
    }
  }

  lemma {:induction false} WorkerKeepsExecution(f: Extension, s: State)
    requires TicketInv(f, s.worker, s.tix) && ExecutionInv(s)
    ensures var t := WorkerNext(f, s);
      IdInv(t.worker, t.tix) && ExecutionInv(t)
  {
    hide WorkerNext;
    StepKeepsTickets(f, s, WorkerStep);
    if Calling(s.worker) {
      CallStep(f, s);
      CallKeepsExecution(f, s);
    } else {
      QuietStep(f, s);
    }
  }

  lemma {:induction false} ClientKeepsExecution(f: Extension, s: State)
    requires TicketInv(f, s.worker, s.tix) && ExecutionInv(s)
    ensures var x := ClientNext(s.tix);
      IdInv(s.worker, x) && ExecutionInv(s.(tix := x))
  {
    if s.tix.client.BumpId? {
      MoreSubmitted(s.tix.submitted, s.tix.client.cmd, Executed(s.worker, s.tix));
    }
  }

  lemma {:induction false} StepKeepsExecution(f: Extension, s: State, a: Action)
    requires TicketInv(f, s.worker, s.tix) && ExecutionInv(s)
    ensures var t := Next(f, s, a);
      IdInv(t.worker, t.tix) && ExecutionInv(t)
  {
    match a
    case WorkerStep => WorkerKeepsExecution(f, s);
    case ClientStep => ClientKeepsExecution(f, s);
    case _ =>
  }

  lemma {:induction false} OneMoreTicket(x: TicketState)
    requires 0 < x.curId <= |x.submitted|
    ensures TicketCalls(x.submitted, 0, x.curId)
         == TicketCalls(x.submitted, 0, x.curId - 1) + [TicketCall(x.curId, Submitted(x, x.curId))]
  {
  }

  lemma {:induction false} MoreSubmitted(submitted: seq<string>, cmd: string, upto: int)
    requires 0 <= upto <= |submitted|
    ensures TicketCalls(submitted + [cmd], 0, upto) == TicketCalls(submitted, 0, upto)
  {
  }

  lemma {:induction false} EndsAppend(events: seq<Event>, tail: seq<Event>, e: Event)
    requires EndsWith(events, tail)
    ensures EndsWith(events + [e], tail + [e])
    ensures EndsWith(events + [e], [e])
  {
  }

  lemma {:induction false} LooksFirstAppend(events: seq<Event>, e: Event)
    requires LooksFirst(events)
    requires e == TookLow ==> EndsWith(events, [LoopHead, SawNoCommands, SawNoTickets])
    ensures LooksFirst(events + [e])
  {
    hide EndsWith;
    var more := events + [e];
    forall i | 0 <= i < |more| && more[i] == TookLow
      ensures EndsWith(more[..i], [LoopHead, SawNoCommands, SawNoTickets])
    {
      assert more[..i] == events[..i];
      assert events[..|events|] == events;
    }
  }

  /** What one worker step does to the event history. */
  lemma {:induction false} EventStep(f: Extension, s: State)
    ensures var t := WorkerNext(f, s);
      && (t.events == s.events
          || t.events == s.events + [if s.worker.Head? then LoopHead
                                     else if s.worker.RecheckCommands? then SawNoCommands
                                     else if s.worker.RecheckIds? then SawNoTickets else TookLow])
      && (t.events != s.events ==>
            s.worker.Head? || s.worker.RecheckCommands? || s.worker.RecheckIds? || s.worker.TakeLow?)
      && (t.worker.PeekCommands? ==> s.worker.PeekCommands? || (s.worker.Head? && t.events != s.events))
      && (t.worker.CompareIds? ==> s.worker.PeekCommands? && t.events == s.events)
      && (t.worker.TryLock? ==> s.worker.CompareIds? && t.events == s.events)
      && (t.worker.RecheckCommands? ==> (s.worker.CompareIds? || s.worker.TryLock?) && t.events == s.events)
      && (t.worker.RecheckIds? ==> s.worker.RecheckCommands? && t.events != s.events)
      && (t.events != s.events && s.worker.RecheckCommands? ==> s.queues.commands == [])
      && (t.events != s.events && s.worker.RecheckIds? ==> s.tix.id <= s.tix.curId)
      && (t.worker.PeekLow? ==> s.worker.RecheckIds? && t.events != s.events)
      && (t.worker.TakeLow? ==> s.worker.PeekLow? && t.events == s.events)
  {
  }

  /** What the record looks like behind each kind of event. */
  lemma {:induction false} EventKeepsPriority(w: WorkerPc, events: seq<Event>, e: Event)
    requires PriorityInv(w, events)
    requires w.Head? || w.RecheckCommands? || w.RecheckIds? || w.TakeLow?
    requires e == if w.Head? then LoopHead else if w.RecheckCommands? then SawNoCommands
                  else if w.RecheckIds? then SawNoTickets else TookLow
    ensures LooksFirst(events + [e])
    ensures w.Head? ==> EndsWith(events + [e], [LoopHead])
    ensures w.RecheckCommands? ==> EndsWith(events + [e], [LoopHead, SawNoCommands])
    ensures w.RecheckIds? ==> EndsWith(events + [e], [LoopHead, SawNoCommands, SawNoTickets])
  {
    hide LooksFirst, EndsWith;
    LooksFirstAppend(events, e);
    match w
    case Head =>
      AnythingEndsEmpty(events);
      EndsAppend(events, [], e);
    case RecheckCommands =>
      EndsAppend(events, [LoopHead], e);
      assert [LoopHead] + [e] == [LoopHead, SawNoCommands];
    case RecheckIds =>
      EndsAppend(events, [LoopHead, SawNoCommands], e);
      assert [LoopHead, SawNoCommands] + [e] == [LoopHead, SawNoCommands, SawNoTickets];
    case _ =>
  }

  lemma {:induction false} StepKeepsPriority(f: Extension, s: State, a: Action)
    requires PriorityInv(s.worker, s.events)
    ensures var t := Next(f, s, a);
      PriorityInv(t.worker, t.events)
  {
    hide WorkerNext, LooksFirst, EndsWith;
    if a.WorkerStep? {
      EventStep(f, s);
      var t := WorkerNext(f, s);
      if t.events != s.events {
        EventKeepsPriority(s.worker, s.events, t.events[|s.events|]);
      }
    }
  }

  lemma {:induction false} AnythingEndsEmpty(events: seq<Event>)
    ensures EndsWith(events, [])
  {
  }

  lemma {:induction false} InitInv(f: Extension)
    ensures Inv(f, Init())
  {
  }

  lemma {:induction false} NextKeeps(f: Extension, s: State, a: Action)
    requires Inv(f, s)
    ensures Inv(f, Next(f, s, a))
  {
    hide Next, TicketInv, QueueInv, ExecutionInv, PriorityInv;
    StepKeepsTickets(f, s, a);
    StepKeepsQueues(f, s, a);
    StepKeepsExecution(f, s, a);
    StepKeepsPriority(f, s, a);
  }

  lemma {:induction false} RunKeeps(f: Extension, s: State, trace: seq<Action>)
    requires Inv(f, s)
    ensures Inv(f, Run(f, s, trace))
  {
    hide Inv, Next;
    if trace != [] {
      RunKeeps(f, s, trace[..|trace| - 1]);
      NextKeeps(f, Run(f, s, trace[..|trace| - 1]), trace[|trace| - 1]);
    }
  }

  /** Safety over every interleaving. */
  lemma {:induction false} Reachable(f: Extension, trace: seq<Action>)
    ensures Inv(f, Run(f, Init(), trace))
  {
    InitInv(f);
    RunKeeps(f, Init(), trace);
  }

  // ----- what the invariant says about every run -----

  /** Mutual exclusion, and exactly what the ticket map holds, at every point of every interleaving. */
  lemma {:induction false} TicketMap(f: Extension, trace: seq<Action>, k: int)
    ensures var s := Run(f, Init(), trace);
      var x := s.tix;
      && !(WorkerHolds(s.worker) && ClientHolds(x.client))
      && 0 <= x.curId <= x.id == |x.submitted|
      && (k in x.tickets ==> 1 <= k <= x.id)
      && (x.curId < k <= x.id ==>
            || (k == x.id && x.client == Insert(Submitted(x, k)) && k !in x.tickets)
            || (k in x.tickets && x.tickets[k] == Ticket(false, Submitted(x, k))))
      && (1 <= k <= x.curId ==>
            || (k == x.curId && Processing(s.worker) && k in x.tickets)
            || (k in x.tickets && x.tickets[k] == Ticket(true, f(Submitted(x, k))))
            || (k !in x.tickets && Delivery(k, f(Submitted(x, k))) in x.delivered))
  {
    Reachable(f, trace);
    var s := Run(f, Init(), trace);
    assert EntryInv(f, s.worker, s.tix, k);
    if 1 <= k <= s.tix.curId && IsDelivered(s.tix.delivered, k) {
      var i :| 0 <= i < |s.tix.delivered| && s.tix.delivered[i].k == k;
      assert s.tix.delivered[i] == Delivery(k, f(Submitted(s.tix, k)));
    }
  }

  /** Tickets are executed once each, in creation order; a collected text is callExtension of the command
      submitted under that number, collected at most once and only after it was executed. */
  lemma {:induction false} ExactlyOnce(f: Extension, trace: seq<Action>)
    ensures var s := Run(f, Init(), trace);
      var done, x := TicketsRun(s.calls), s.tix;
      && |done| <= |x.submitted|
      && (forall i :: 0 <= i < |done| ==> done[i] == TicketCall(i + 1, x.submitted[i]))
      && (forall i :: 0 <= i < |x.delivered| ==>
            1 <= x.delivered[i].k <= |done| && x.delivered[i].text == f(done[x.delivered[i].k - 1].cmd))
      && (forall i, j :: 0 <= i < j < |x.delivered| ==> x.delivered[i].k != x.delivered[j].k)
  {
    hide Run, PriorityInv, QueueInv, EntryInv, LocalInv, ClientInv, MutexInv;
    Reachable(f, trace);
    var s := Run(f, Init(), trace);
    DeliveredWereExecuted(f, s.worker, s.tix);
  }

  lemma {:induction false} DeliveredWereExecuted(f: Extension, w: WorkerPc, x: TicketState)
    requires TicketInv(f, w, x)
    ensures forall i :: 0 <= i < |x.delivered| ==> 1 <= x.delivered[i].k <= Executed(w, x)
  {
    if w.UnlockFetched? || w.RunTicket? {
      assert EntryInv(f, w, x, x.curId);
      forall i | 0 <= i < |x.delivered| ensures x.delivered[i].k < x.curId {
        assert IsDelivered(x.delivered, x.delivered[i].k);
      }
    }
  }

  /** Both queues lose and duplicate nothing, and unimportant work waits for the important kind. */
  lemma {:induction false} QueuesAndPriority(f: Extension, trace: seq<Action>)
    ensures var s := Run(f, Init(), trace);
      && s.queues.enqueued == CommandsRun(s.calls) + InFlight(s.worker, false) + s.queues.commands
      && s.queues.enqueuedLow == LowRun(s.calls) + InFlight(s.worker, true) + s.queues.low
      && forall i :: 0 <= i < |s.events| && s.events[i] == TookLow ==>
           i >= 3 && s.events[i - 3..i] == [LoopHead, SawNoCommands, SawNoTickets]
  {
    Reachable(f, trace);
    var s := Run(f, Init(), trace);
    forall i | 0 <= i < |s.events| && s.events[i] == TookLow
      ensures i >= 3 && s.events[i - 3..i] == [LoopHead, SawNoCommands, SawNoTickets]
    {
      assert EndsWith(s.events[..i], [LoopHead, SawNoCommands, SawNoTickets]);
      assert s.events[..i][i - 3..] == s.events[i - 3..i];
    }
  }

  /** stop() sticks, whatever both threads do next, exactly when the worker thread has already passed the
      assignment with which run() begins; before that its effect is overwritten. */
  lemma {:induction false} StopSticks(f: Extension, s: State)
    ensures (forall trace :: !Run(f, Next(f, s, Stop), trace).running) <==> !s.worker.NotStarted?
  {
    var t := Next(f, s, Stop);
    if s.worker.NotStarted? {
      RestartedByRun(f, t);
    } else {
      forall trace: seq<Action> ensures !Run(f, t, trace).running {
        StoppedStays(f, t, trace);
      }
    }
  }

  lemma {:induction false} RestartedByRun(f: Extension, t: State)
    requires t.worker.NotStarted?
    ensures exists trace :: Run(f, t, trace).running
  {
    var trace := [WorkerStep];
    assert trace[..0] == [];
    assert Run(f, t, trace) == Next(f, t, WorkerStep);
  }

  lemma {:induction false} StoppedStays(f: Extension, s: State, trace: seq<Action>)
    requires !s.running && !s.worker.NotStarted?
    ensures !Run(f, s, trace).running && !Run(f, s, trace).worker.NotStarted?
  {
    if trace != [] {
      StoppedStays(f, s, trace[..|trace| - 1]);
      StaysStopped(f, Run(f, s, trace[..|trace| - 1]), trace[|trace| - 1]);
    }
  }

  lemma {:induction false} StaysStopped(f: Extension, s: State, a: Action)
    requires !s.running && !s.worker.NotStarted?
    ensures !Next(f, s, a).running && !Next(f, s, a).worker.NotStarted?
  {
  }

  // ----- draining -----

  /** n steps of the worker alone. */
  function Steps(f: Extension, s: State, n: nat): State
    decreases n
  {
    if n == 0 then s else Steps(f, WorkerNext(f, s), n - 1)
  }

  lemma {:induction false} StepsAdd(f: Extension, s: State, m: nat, n: nat)
    ensures Steps(f, s, m + n) == Steps(f, Steps(f, s, m), n)
    decreases m
  {
    hide WorkerNext;
    if m > 0 {
      StepsAdd(f, WorkerNext(f, s), m - 1, n);
    }
  }

  lemma {:induction false} StepsKeepTickets(f: Extension, s: State, n: nat)
    requires TicketInv(f, s.worker, s.tix)
    ensures TicketInv(f, Steps(f, s, n).worker, Steps(f, s, n).tix)
    decreases n
  {
    if n > 0 {
      StepKeepsTickets(f, s, WorkerStep);
      StepsKeepTickets(f, WorkerNext(f, s), n - 1);
    }
  }

  lemma {:induction false} StepsKeep(f: Extension, s: State, n: nat)
    requires Inv(f, s)
    ensures Inv(f, Steps(f, s, n))
    decreases n
  {
    hide Inv, WorkerNext;
    if n > 0 {
      NextKeeps(f, s, WorkerStep);
      StepsKeep(f, WorkerNext(f, s), n - 1);
    }
  }

  /** The worker is about to start an iteration and the client is doing nothing. */
  ghost predicate Quiet(f: Extension, s: State) {
    s.running && s.worker.Head? && s.tix.client.Idle? && TicketInv(f, s.worker, s.tix)
  }

  lemma {:induction false} QuietMeans(f: Extension, s: State)
    requires Quiet(f, s)
    ensures s.tix.owner.Free? && s.tix.curId <= s.tix.id && Outstanding(s) >= 0
    ensures s.tix.curId < s.tix.id ==> s.tix.curId + 1 in s.tix.tickets
  {
    assert EntryInv(f, s.worker, s.tix, s.tix.curId + 1);
  }

  function Outstanding(s: State): int {
    |s.queues.commands| + (s.tix.id - s.tix.curId) + |s.queues.low|
  }

  /** What an iteration does not touch. */
  predicate SameTickets(x: TicketState, x': TicketState) {
    x' == x.(curId := x'.curId, tickets := x'.tickets)
  }

  function LookedEverywhere(events: seq<Event>): seq<Event> {
    events + [LoopHead] + [SawNoCommands] + [SawNoTickets]
  }

  /** One whole iteration in a single step: what it leaves when nobody interferes. */
  function Iterated(f: Extension, s: State): State
    requires Outstanding(s) != 0 && s.tix.curId <= s.tix.id
  {
    var q, x := s.queues, s.tix;
    if q.commands != [] then
      s.(queues := q.(commands := q.commands[1..]), calls := s.calls + [Command(q.commands[0])],
         events := s.events + [LoopHead])
    else if x.curId < x.id then
      var k := x.curId + 1;
      var command := Touch(x.tickets, k)[k].data;
      s.(tix := x.(curId := k, tickets := x.tickets[k := Ticket(true, f(command))]),
         calls := s.calls + [TicketCall(k, command)], events := s.events + [LoopHead])
    else
      s.(queues := q.(low := q.low[1..]), calls := s.calls + [LowCommand(q.low[0])],
         events := LookedEverywhere(s.events) + [TookLow])
  }

  lemma {:induction false} CommandIteration(f: Extension, s: State)
    requires s.running && s.worker.Head? && s.queues.commands != [] && s.tix.curId <= s.tix.id
    ensures Steps(f, s, 4) == Iterated(f, s)
  {
    var s1 := WorkerNext(f, s);
    var s2 := WorkerNext(f, s1);
    var s3 := WorkerNext(f, s2);
    assert Steps(f, s, 4) == Steps(f, s3, 1) == WorkerNext(f, s3);
  }

  lemma {:induction false} TicketIteration(f: Extension, s: State)
    requires Quiet(f, s) && s.queues.commands == [] && s.tix.curId < s.tix.id
    ensures Steps(f, s, 11) == Iterated(f, s)
  {
    hide WorkerNext, Steps, LocalInv, ClientInv, DeliveryInv;
    assert EntryInv(f, s.worker, s.tix, s.tix.curId + 1);
    TicketFetched(f, s);
    TicketSaved(f, Steps(f, s, 5));
    StepsAdd(f, s, 5, 6);
  }

  lemma {:induction false} TicketFetched(f: Extension, s: State)
    requires s.running && s.worker.Head? && s.queues.commands == [] && s.tix.curId < s.tix.id && s.tix.owner.Free?
    requires s.tix.curId + 1 in s.tix.tickets
    ensures Steps(f, s, 5)
         == s.(worker := UnlockFetched(s.tix.tickets[s.tix.curId + 1].data),
               tix := s.tix.(owner := HeldByWorker, curId := s.tix.curId + 1), events := s.events + [LoopHead])
  {
    var s1 := WorkerNext(f, s);
    var s2 := WorkerNext(f, s1);
    var s3 := WorkerNext(f, s2);
    var s4 := WorkerNext(f, s3);
    assert Steps(f, s, 5) == Steps(f, s2, 3) == Steps(f, s4, 1) == WorkerNext(f, s4);
  }

  lemma {:induction false} TicketRun(f: Extension, s: State)
    requires s.worker.UnlockFetched?
    ensures Steps(f, s, 2)
         == s.(worker := LockToSave(f(s.worker.ticket)), tix := s.tix.(owner := Free),
               calls := s.calls + [TicketCall(s.tix.curId, s.worker.ticket)])
  {
    var s1 := WorkerNext(f, s);
    assert Steps(f, s, 2) == Steps(f, s1, 1) == WorkerNext(f, s1);
  }

  lemma {:induction false} TicketStored(f: Extension, s: State)
    requires s.worker.LockToSave? && s.tix.owner.Free? && s.tix.curId in s.tix.tickets
    ensures Steps(f, s, 4)
         == s.(worker := Head, tix := s.tix.(tickets := s.tix.tickets[s.tix.curId := Ticket(true, s.worker.result)]))
  {
    var s1 := WorkerNext(f, s);
    var s2 := WorkerNext(f, s1);
    var s3 := WorkerNext(f, s2);
    assert Steps(f, s, 4) == Steps(f, s2, 2) == Steps(f, s3, 1) == WorkerNext(f, s3);
  }

  lemma {:induction false} TicketSaved(f: Extension, s: State)
    requires s.worker.UnlockFetched? && s.tix.curId in s.tix.tickets
    ensures Steps(f, s, 6)
         == s.(worker := Head, calls := s.calls + [TicketCall(s.tix.curId, s.worker.ticket)],
               tix := s.tix.(owner := Free, tickets := s.tix.tickets[s.tix.curId := Ticket(true, f(s.worker.ticket))]))
  {
    hide WorkerNext, Steps;
    TicketRun(f, s);
    TicketStored(f, Steps(f, s, 2));
    StepsAdd(f, s, 2, 4);
  }

  /** With nothing important and no ticket, the worker reaches its look at the unimportant queue. */
  lemma {:induction false} NothingUrgent(f: Extension, s: State)
    requires Quiet(f, s) && s.queues.commands == [] && s.tix.curId == s.tix.id
    ensures var t := Steps(f, s, 5);
      t == s.(worker := PeekLow, events := LookedEverywhere(s.events))
  {
    var s1 := WorkerNext(f, s);
    var s2 := WorkerNext(f, s1);
    var s3 := WorkerNext(f, s2);
    var s4 := WorkerNext(f, s3);
    assert Steps(f, s, 5) == Steps(f, s2, 3) == Steps(f, s4, 1) == WorkerNext(f, s4);
  }

  lemma {:induction false} LowIteration(f: Extension, s: State)
    requires Quiet(f, s) && s.queues.commands == [] && s.tix.curId == s.tix.id && s.queues.low != []
    ensures Steps(f, s, 8) == Iterated(f, s)
  {
    hide WorkerNext, Steps, EntryInv, LocalInv, ClientInv, DeliveryInv;
    NothingUrgent(f, s);
    StepsAdd(f, s, 5, 3);
    LowTaken(f, Steps(f, s, 5));
  }

  lemma {:induction false} LowTaken(f: Extension, s: State)
    requires s.worker.PeekLow? && s.queues.low != []
    ensures Steps(f, s, 3)
         == s.(worker := Head, queues := s.queues.(low := s.queues.low[1..]),
               calls := s.calls + [LowCommand(s.queues.low[0])], events := s.events + [TookLow])
  {
    var s1 := WorkerNext(f, s);
    var s2 := WorkerNext(f, s1);
    assert Steps(f, s, 3) == Steps(f, s2, 1) == WorkerNext(f, s2);
  }

  function CommandCalls(cmds: seq<string>): (calls: seq<Call>) {
    seq(|cmds|, i requires 0 <= i < |cmds| => Command(cmds[i]))
  }

  function LowCalls(cmds: seq<string>): (calls: seq<Call>) {
    seq(|cmds|, i requires 0 <= i < |cmds| => LowCommand(cmds[i]))
  }

  function StepsToSleep(s: State): int {
    4 * |s.queues.commands| + 11 * (s.tix.id - s.tix.curId) + 8 * |s.queues.low| + 6
  }

  /** Left alone, the worker runs all important commands, then all tickets, then all unimportant commands,
      each iteration removing one, and then sleeps. */
  lemma {:induction false} Drain(f: Extension, s: State) returns (n: nat)
    requires Quiet(f, s)
    ensures n == StepsToSleep(s)
    ensures var t := Steps(f, s, n);
      && t.worker == Sleep && t.queues.commands == [] && t.queues.low == [] && t.tix.curId == t.tix.id
      && SameTickets(s.tix, t.tix)
      && t.calls == s.calls + CommandCalls(s.queues.commands)
                            + TicketCalls(s.tix.submitted, s.tix.curId, s.tix.id) + LowCalls(s.queues.low)
    decreases Outstanding(s)
  {
    hide WorkerNext, Steps, EntryInv, LocalInv, ClientInv, DeliveryInv, CommandCalls, TicketCalls, LowCalls;
    if Outstanding(s) == 0 {
      NothingToDo(f, s);
      return 6;
    }
    Iteration(f, s);
    var k, t := IterationLength(s), Iterated(f, s);
    var m := Drain(f, t);
    n := k + m;
    StepsAdd(f, s, k, m);
    CallsInOrder(s, t);
  }

  function IterationLength(s: State): nat {
    if s.queues.commands != [] then 4 else if s.tix.curId < s.tix.id then 11 else 8
  }

  /** An iteration with something to do takes these steps and removes one thing. */
  lemma {:induction false} Iteration(f: Extension, s: State)
    requires Quiet(f, s) && Outstanding(s) != 0
    ensures Steps(f, s, IterationLength(s)) == Iterated(f, s)
    ensures var t := Iterated(f, s);
      Quiet(f, t) && SameTickets(s.tix, t.tix) && OneRemoved(s, t)
  {
    hide WorkerNext, Steps, LocalInv, ClientInv, DeliveryInv;
    assert EntryInv(f, s.worker, s.tix, s.tix.curId + 1);
    if s.queues.commands != [] {
      CommandIteration(f, s);
    } else if s.tix.curId < s.tix.id {
      TicketIteration(f, s);
    } else {
      LowIteration(f, s);
    }
    StepsKeepTickets(f, s, IterationLength(s));
  }

  lemma {:induction false} NothingToDo(f: Extension, s: State)
    requires Quiet(f, s) && Outstanding(s) == 0
    ensures var t := Steps(f, s, 6);
      && t == s.(worker := Sleep, events := LookedEverywhere(s.events))
      && s.calls == s.calls + CommandCalls(s.queues.commands)
                            + TicketCalls(s.tix.submitted, s.tix.curId, s.tix.id) + LowCalls(s.queues.low)
  {
    hide EntryInv, LocalInv, ClientInv, DeliveryInv;
    NothingUrgent(f, s);
    StepsAdd(f, s, 5, 1);
  }

  /** The important queue first, then the tickets, then the unimportant queue. */
  predicate OneRemoved(s: State, t: State)
    requires 0 <= s.tix.curId <= s.tix.id == |s.tix.submitted|
  {
    if s.queues.commands != [] then
      && t.queues == s.queues.(commands := s.queues.commands[1..]) && t.tix.curId == s.tix.curId
      && t.calls == s.calls + [Command(s.queues.commands[0])]
    else if s.tix.curId < s.tix.id then
      && t.queues == s.queues && t.tix.curId == s.tix.curId + 1
      && t.calls == s.calls + [TicketCall(s.tix.curId + 1, Submitted(s.tix, s.tix.curId + 1))]
    else
      && s.queues.low != [] && t.queues == s.queues.(low := s.queues.low[1..]) && t.tix.curId == s.tix.curId
      && t.calls == s.calls + [LowCommand(s.queues.low[0])]
  }

  lemma {:induction false} CallsInOrder(s: State, t: State)
    requires 0 <= s.tix.curId <= s.tix.id == |s.tix.submitted|
    requires t.tix.id == s.tix.id && t.tix.submitted == s.tix.submitted
    requires OneRemoved(s, t)
    ensures s.calls + CommandCalls(s.queues.commands) + TicketCalls(s.tix.submitted, s.tix.curId, s.tix.id)
                    + LowCalls(s.queues.low)
         == t.calls + CommandCalls(t.queues.commands) + TicketCalls(t.tix.submitted, t.tix.curId, t.tix.id)
                    + LowCalls(t.queues.low)
  {
    var c, l := CommandCalls(s.queues.commands), LowCalls(s.queues.low);
    var x := TicketCalls(s.tix.submitted, s.tix.curId, s.tix.id);
    if s.queues.commands != [] {
      assert c == [Command(s.queues.commands[0])] + CommandCalls(t.queues.commands);
    } else if s.tix.curId < s.tix.id {
      assert x == [TicketCall(s.tix.curId + 1, s.tix.submitted[s.tix.curId])]
                + TicketCalls(s.tix.submitted, t.tix.curId, s.tix.id);
    } else {
      assert l == [LowCommand(s.queues.low[0])] + LowCalls(t.queues.low);
    }
  }
}
