/**
 The guest kernel's dispatcher objects: auto-reset and manual-reset events with a queue of
 tickets, semaphores, and threads that start suspended. Each service call holds the state
 mutex, so a step of the machine is one call, or one recheck by a thread that sleeps on a
 condition variable: woken by a notification, spuriously, or by its timeout.
 */
module Dispatcher {
  import opened Words

  type Handle = int
  type Thread = int

  /** A thread inside a single-object wait; it is asleep until something makes it `awake`. */
  datatype Wait = Wait(target: Handle, ticket: Option<int>, timed: bool, awake: bool)

  /** A new thread that waits to be resumed. */
  datatype Start = Start(handle: Handle, awake: bool)

  /** How often an event went from unsignalled to signalled, and what ended each of those times. */
  datatype Ledger = Ledger(rises: int, taken: int, cleared: int)

  datatype State = State(
    events: map<Handle, bool>,
    manual: map<Handle, bool>,
    semaphores: map<Handle, int>,
    limits: map<Handle, int>,
    queues: map<Handle, seq<int>>,
    tickets: int,
    waits: map<Thread, Wait>,
    suspended: map<Handle, nat>,
    starts: map<Thread, Start>,
    // The rest only records what happened.
    semaphoreHandles: set<Handle>,
    owner: map<int, Thread>,
    served: map<Handle, seq<int>>,
    ledger: map<Handle, Ledger>)

  datatype Call =
    | BeginWait(thread: Thread, handle: Handle, timed: bool, header: int)
    | Recheck(thread: Thread)
    | Expire(thread: Thread)
    | SetEvent(handle: Handle, header: int)
    | ResetEvent(handle: Handle, header: int)
    | ClearEvent(handle: Handle)
    | CompleteRequest(handle: Handle)
    | WithdrawCompletion(handle: Handle)
    | CreateEvent(handle: Handle, manualReset: bool, initial: bool)
    | CloseHandle(handle: Handle)
    | AdoptHeader(handle: Handle, header: int)
    | WaitMultiple(handles: seq<Handle>, all: bool)
    | CreateSemaphore(handle: Handle, count: int, limit: int)
    | ReleaseSemaphore(handle: Handle, adjustment: int)
    | CreateThread(thread: Thread, handle: Handle, createSuspended: bool)
    | RecheckStart(thread: Thread)
    | SuspendThread(handle: Handle)
    | ResumeThread(handle: Handle)
    | ResumeAll
    | ExitThread(handle: Handle)

  function Initial(semaphoreHandles: set<Handle>): State {
    State(map[], map[], map[], map[], map[], 0, map[], map[], map[], semaphoreHandles, map[], map[], map[])
  }

  function Queue(s: State, h: Handle): seq<int> {
    if h in s.queues then s.queues[h] else []
  }

  function Served(s: State, h: Handle): seq<int> {
    if h in s.served then s.served[h] else []
  }

  function Entry(s: State, h: Handle): Ledger {
    if h in s.ledger then s.ledger[h] else Ledger(0, 0, 0)
  }

  predicate Signalled(s: State, h: Handle) {
    h in s.events && s.events[h]
  }

  predicate IsManual(s: State, h: Handle) {
    h in s.manual && s.manual[h]
  }

  // ---- The parts of a call ----

  /** The header byte of an event that the guest initialised itself names its kind, once. */
  function Adopt(s: State, h: Handle, header: int): State {
    var known := h < 0x1000_0000 || h >= 0x9000_0000 || h in s.manual;
    s.(manual := if !known && 0 <= header <= 1 then s.manual[h := header == 0] else s.manual)
  }

  function SetFlag(s: State, h: Handle, flag: bool): State {
    var e := Entry(s, h);
    var e' := if flag == Signalled(s, h) then e
              else if flag then e.(rises := e.rises + 1) else e.(cleared := e.cleared + 1);
    s.(events := s.events[h := flag], ledger := s.ledger[h := e'])
  }

  function NotifyWaits(s: State): State {
    s.(waits := map t | t in s.waits :: s.waits[t].(awake := true))
  }

  function NotifyStarts(s: State): State {
    s.(starts := map t | t in s.starts :: s.starts[t].(awake := true))
  }

  function Signal(s: State, h: Handle): State {
    NotifyWaits(SetFlag(s, h, true))
  }

  predicate Ready(s: State, w: Wait) {
    || (Signalled(s, w.target) &&
          (w.ticket.None? || (Queue(s, w.target) != [] && Queue(s, w.target)[0] == w.ticket.value)))
    || (w.target in s.semaphores && s.semaphores[w.target] > 0)
  }

  /** Erasing the first occurrence, if there is one. */
  function Without(q: seq<int>, k: int): seq<int> {
    if q == [] then [] else if q[0] == k then q[1..] else [q[0]] + Without(q[1..], k)
  }

  /** The wait is over: its ticket leaves the queue with it. */
  function Leave(s: State, t: Thread): State
    requires t in s.waits
  {
    var w := s.waits[t];
    var queues := if w.ticket.None? then s.queues
                  else s.queues[w.target := Without(Queue(s, w.target), w.ticket.value)];
    s.(waits := s.waits - {t}, queues := queues)
  }

  /** A satisfied wait takes the signal of an auto-reset event, or one count of a semaphore. */
  function Consume(s: State, h: Handle): State {
    var e := Entry(s, h);
    var auto := h in s.events && !IsManual(s, h);
    s.(events := if auto then s.events[h := false] else s.events,
       ledger := if auto && Signalled(s, h) then s.ledger[h := e.(taken := e.taken + 1)] else s.ledger,
       semaphores := if h in s.semaphores then s.semaphores[h := s.semaphores[h] - 1] else s.semaphores)
  }

  /** Records a ticket as served. */
  function Serve(s: State, w: Wait): State {
    if w.ticket.None? then s
    else s.(served := s.served[w.target := Served(s, w.target) + [w.ticket.value]])
  }

  function Satisfy(s: State, t: Thread): State
    requires t in s.waits
  {
    Serve(Leave(Consume(s, s.waits[t].target), t), s.waits[t])
  }

  predicate TakesTicket(s: State, h: Handle) {
    h in s.events && !IsManual(s, h)
  }

  /** Queues up at the back, when the object is known to be an auto-reset event. */
  function Enter(s: State, t: Thread, h: Handle, timed: bool): State {
    var ticketed := TakesTicket(s, h);
    var k := s.tickets + 1;
    s.(tickets := if ticketed then k else s.tickets,
       queues := if ticketed then s.queues[h := Queue(s, h) + [k]] else s.queues,
       owner := if ticketed then s.owner[k := t] else s.owner,
       waits := s.waits[t := Wait(h, if ticketed then Some(k) else None, timed, true)])
  }

  function Sleep(s: State, t: Thread): State
    requires t in s.waits
  {
    s.(waits := s.waits[t := s.waits[t].(awake := false)])
  }

  function FirstSignalled(s: State, handles: seq<Handle>): Option<Handle> {
    if handles == [] then None
    else if Signalled(s, handles[0]) then Some(handles[0])
    else FirstSignalled(s, handles[1..])
  }

  /** Even a wait for all its events takes only the first one's signal, and no ticket. */
  function TakeFirst(s: State, handles: seq<Handle>, all: bool): State {
    if all && (exists h | h in handles :: !Signalled(s, h)) then s
    else
      match FirstSignalled(s, handles)
      case None => s
      case Some(h) => if IsManual(s, h) then s else SetFlag(s, h, false)
  }

  const INT_MAX := 0x7FFF_FFFF

  function Gate(s: State, h: Handle): nat {
    if h in s.suspended then s.suspended[h] else 0
  }

  // ---- Calls ----

  /** Takes the signal if it can, and sleeps if it cannot. */
  function Check(s: State, t: Thread): State
    requires t in s.waits
  {
    if Ready(s, s.waits[t]) then Satisfy(s, t) else Sleep(s, t)
  }

  function Create(s: State, h: Handle, manualReset: bool, initial: bool): State {
    SetFlag(s, h, initial).(manual := s.manual[h := manualReset])
  }

  function Close(s: State, h: Handle): State {
    var e := Entry(s, h);
    s.(events := s.events - {h}, manual := s.manual - {h},
       semaphores := s.semaphores - {h}, limits := s.limits - {h},
       ledger := if Signalled(s, h) then s.ledger[h := e.(cleared := e.cleared + 1)] else s.ledger)
  }

  function NewSemaphore(s: State, h: Handle, count: int, limit: int): State {
    s.(semaphores := s.semaphores[h := count], limits := s.limits[h := Max(limit, 1)])
  }

  /** At least one count, and no more than the limit. */
  function AddCount(s: State, h: Handle, adjustment: int): State {
    var previous := if h in s.semaphores then s.semaphores[h] else 0;
    var limit := if h in s.limits then s.limits[h] else INT_MAX;
    s.(semaphores := s.semaphores[h := Min(limit, previous + Max(adjustment, 1))])
  }

  function NewThread(s: State, t: Thread, h: Handle, createSuspended: bool): State {
    s.(suspended := s.suspended[h := if createSuspended then 1 else 0], starts := s.starts[t := Start(h, true)])
  }

  function CheckStart(s: State, t: Thread): State
    requires t in s.starts
  {
    var runs := Gate(s, s.starts[t].handle) == 0;
    s.(starts := if runs then s.starts - {t} else s.starts[t := s.starts[t].(awake := false)],
       suspended := if runs then s.suspended - {s.starts[t].handle} else s.suspended)
  }

  function Resume(s: State, h: Handle): State {
    s.(suspended := if Gate(s, h) != 0 then s.suspended[h := s.suspended[h] - 1] else s.suspended)
  }

  function Exit(s: State, h: Handle): State {
    NotifyStarts(Signal(s, h).(manual := s.manual[h := true]))
  }

  function Fire(s: State, call: Call): State {
    match call
    case BeginWait(t, h, timed, header) => if t in s.waits then s else Check(Enter(Adopt(s, h, header), t, h, timed), t)
    case Recheck(t) => if t in s.waits then Check(s, t) else s
    case Expire(t) =>
      if t !in s.waits || !s.waits[t].timed then s
      else if Ready(s, s.waits[t]) then Satisfy(s, t)
      else Leave(s, t)
    case SetEvent(h, header) => Signal(Adopt(s, h, header), h)
    case ResetEvent(h, header) => SetFlag(Adopt(s, h, header), h, false)
    case ClearEvent(h) => SetFlag(s, h, false)
    case CompleteRequest(h) => Signal(s, h)
    case WithdrawCompletion(h) => NotifyWaits(SetFlag(s, h, false))
    case CreateEvent(h, manualReset, initial) => Create(s, h, manualReset, initial)
    case CloseHandle(h) => Close(s, h)
    case AdoptHeader(h, header) => Adopt(s, h, header)
    case WaitMultiple(handles, all) => TakeFirst(s, handles, all)
    case CreateSemaphore(h, count, limit) => NewSemaphore(s, h, count, limit)
    case ReleaseSemaphore(h, adjustment) => NotifyWaits(AddCount(s, h, adjustment))
    case CreateThread(t, h, createSuspended) => if t in s.starts then s else NewThread(s, t, h, createSuspended)
    case RecheckStart(t) => if t in s.starts then CheckStart(s, t) else s
    case SuspendThread(h) => s.(suspended := s.suspended[h := Gate(s, h) + 1])
    case ResumeThread(h) => NotifyStarts(Resume(s, h))
    case ResumeAll => NotifyStarts(s.(suspended := map h | h in s.suspended :: 0))
    case ExitThread(h) => Exit(s, h)
  }

  // ---- Invariant ----

  ghost predicate Increasing(q: seq<int>) {
    forall i, j | 0 <= i < j < |q| :: q[i] < q[j]
  }

  /** All tickets of an event so far in the order they were or will be served. */
  ghost function Line(s: State, h: Handle): seq<int> {
    Served(s, h) + Queue(s, h)
  }

  ghost predicate OrderedUpTo(q: seq<int>, bound: int) {
    Increasing(q) && forall k | k in q :: k <= bound
  }

  ghost predicate LineValid(s: State, h: Handle) {
    OrderedUpTo(Line(s, h), s.tickets)
  }

  /** A queued ticket belongs to a thread that waits with it. */
  ghost predicate Held(s: State, h: Handle, k: int) {
    && k in s.owner && s.owner[k] in s.waits
    && s.waits[s.owner[k]].target == h && s.waits[s.owner[k]].ticket == Some(k)
  }

  /** A waiting ticket is queued, on an event. */
  ghost predicate Queued(s: State, t: Thread)
    requires t in s.waits
  {
    var w := s.waits[t];
    w.ticket.Some? ==>
      && w.ticket.value in Queue(s, w.target)
      && w.ticket.value in s.owner && s.owner[w.ticket.value] == t
      && w.target !in s.semaphoreHandles
  }

  ghost predicate Balanced(s: State, h: Handle) {
    var e := Entry(s, h);
    e.rises == e.taken + e.cleared + (if Signalled(s, h) then 1 else 0)
  }

  ghost predicate Lined(s: State) {
    && (forall h: Handle :: LineValid(s, h))
    && (forall h: Handle, k | k in Queue(s, h) :: Held(s, h, k))
    && (forall t | t in s.waits :: Queued(s, t))
  }

  ghost predicate Accounted(s: State) {
    forall h: Handle :: Balanced(s, h)
  }

  ghost predicate Sorted(s: State) {
    && (forall h | h in s.events :: h !in s.semaphoreHandles)
    && (forall h | h in s.semaphores :: h in s.semaphoreHandles)
  }

  ghost predicate Sound(s: State) {
    Lined(s) && Accounted(s) && Sorted(s)
  }

  /** No thread sleeps although its wait is satisfied - unless its event turned manual-reset under its ticket. */
  ghost predicate Rested(s: State, t: Thread)
    requires t in s.waits
  {
    var w := s.waits[t];
    !w.awake && Ready(s, w) ==> w.ticket.Some? && IsManual(s, w.target)
  }

  ghost predicate StartRested(s: State, t: Thread)
    requires t in s.starts
  {
    !s.starts[t].awake ==> Gate(s, s.starts[t].handle) > 0
  }

  ghost predicate Alert(s: State) {
    && (forall t | t in s.waits :: Rested(s, t))
    && (forall t | t in s.starts :: StartRested(s, t))
  }

  ghost predicate Inv(s: State) {
    Sound(s) && Alert(s)
  }

  /** Handles are either events or semaphores; a new object is not yet waited on. */
  ghost predicate Proper(s: State, call: Call) {
    match call
    case SetEvent(h, _) => h !in s.semaphoreHandles
    case ResetEvent(h, _) => h !in s.semaphoreHandles
    case ClearEvent(h) => h !in s.semaphoreHandles
    case CompleteRequest(h) => h !in s.semaphoreHandles
    case WithdrawCompletion(h) => h !in s.semaphoreHandles
    case CreateEvent(h, _, _) => h !in s.semaphoreHandles && forall t | t in s.waits :: s.waits[t].target != h
    case CreateSemaphore(h, _, _) => h in s.semaphoreHandles && forall t | t in s.waits :: s.waits[t].target != h
    case ReleaseSemaphore(h, _) => h in s.semaphoreHandles
    case CreateThread(_, h, _) => forall t | t in s.starts :: s.starts[t].handle != h
    case ExitThread(h) => h !in s.semaphoreHandles
    case _ => true
  }

  // ---- Tickets ----

  lemma DropOne(a: seq<int>, x: int, q: seq<int>)
    requires Increasing(a + [x] + q)
    ensures Increasing(a + q) && x !in q
  {
    var whole := a + [x] + q;
    forall i, j | 0 <= i < j < |a + q| ensures (a + q)[i] < (a + q)[j] {
      assert whole[if i < |a| then i else i + 1] < whole[if j < |a| then j else j + 1];
    }
    forall j | 0 <= j < |q| ensures q[j] != x {
      assert whole[|a|] < whole[|a| + 1 + j];
    }
  }

  lemma {:induction false} WithoutOne(a: seq<int>, q: seq<int>, k: int)
    requires Increasing(a + q)
    ensures Increasing(a + Without(q, k))
    ensures forall x :: x in Without(q, k) <==> x in q && x != k
    decreases |q|
  {
    if q != [] {
      var (x, rest) := (q[0], q[1..]);
      assert q == [x] + rest;
      assert a + q == a + [x] + rest;
      DropOne(a, x, rest);
      if x != k {
        WithoutOne(a + [x], rest, k);
        assert a + Without(q, k) == a + [x] + Without(rest, k);
      }
    }
  }

  // ---- The parts of a call keep the queues and the ledger sound ----

  ghost predicate SameLines(s: State, t: State) {
    && t.queues == s.queues && t.served == s.served && t.tickets == s.tickets
    && t.owner == s.owner && t.semaphoreHandles == s.semaphoreHandles
  }

  lemma LinedSame(s: State, t: State)
    requires Lined(s) && SameLines(s, t) && t.waits == s.waits
    ensures Lined(t)
  {
    forall h: Handle ensures LineValid(t, h) { assert LineValid(s, h); }
    forall h: Handle, k | k in Queue(t, h) ensures Held(t, h, k) { assert Held(s, h, k); }
    forall u | u in t.waits ensures Queued(t, u) { assert Queued(s, u); }
  }

  lemma LinedNotified(s: State)
    requires Lined(s)
    ensures Lined(NotifyWaits(s))
  {
    var t := NotifyWaits(s);
    forall h: Handle ensures LineValid(t, h) { assert LineValid(s, h); }
    forall h: Handle, k | k in Queue(t, h) ensures Held(t, h, k) { assert Held(s, h, k); }
    forall u | u in t.waits ensures Queued(t, u) { assert Queued(s, u); }
  }

  lemma AccountedSame(s: State, t: State)
    requires Accounted(s) && t.events == s.events && t.ledger == s.ledger
    ensures Accounted(t)
  {
    forall h: Handle ensures Balanced(t, h) { assert Balanced(s, h); }
  }

  lemma BalancedFlag(s: State, h: Handle, flag: bool, g: Handle)
    requires Balanced(s, g)
    ensures Balanced(SetFlag(s, h, flag), g)
  {
    var t := SetFlag(s, h, flag);
    if g != h {
      assert Entry(t, g) == Entry(s, g) && Signalled(t, g) == Signalled(s, g);
    } else {
      assert Signalled(t, h) == flag;
    }
  }

  lemma AccountedFlag(s: State, h: Handle, flag: bool)
    requires Accounted(s)
    ensures Accounted(SetFlag(s, h, flag))
  {
    hide Balanced, SetFlag;
    forall g: Handle ensures Balanced(SetFlag(s, h, flag), g) { BalancedFlag(s, h, flag, g); }
  }

  lemma SetFlagSound(s: State, h: Handle, flag: bool)
    requires Sound(s) && h !in s.semaphoreHandles
    ensures Sound(SetFlag(s, h, flag))
  {
    hide Lined, Accounted;
    LinedSame(s, SetFlag(s, h, flag));
    AccountedFlag(s, h, flag);
  }

  lemma NotifySound(s: State)
    requires Sound(s)
    ensures Sound(NotifyWaits(s))
  {
    hide Lined, Accounted;
    LinedNotified(s);
    AccountedSame(s, NotifyWaits(s));
  }

  /** Reset modes, semaphore counts and suspended threads play no part in soundness. */
  lemma RestSound(s: State, t: State)
    requires Sound(s) && SameLines(s, t) && t.waits == s.waits && t.events == s.events && t.ledger == s.ledger
    requires forall h | h in t.semaphores :: h in t.semaphoreHandles
    ensures Sound(t)
  {
    hide Lined, Accounted;
    LinedSame(s, t);
    AccountedSame(s, t);
  }

  lemma WithoutOrdered(a: seq<int>, q: seq<int>, k: int, bound: int)
    requires OrderedUpTo(a + q, bound)
    ensures OrderedUpTo(a + Without(q, k), bound)
  {
    WithoutOne(a, q, k);
    forall x | x in a + Without(q, k) ensures x in a + q {
      assert x in a || x in q;
    }
  }

  lemma LeaveParts(s: State, u: Thread, g: Handle)
    requires u in s.waits
    ensures var t := Leave(s, u);
      var w := s.waits[u];
      && t.tickets == s.tickets && t.owner == s.owner && Served(t, g) == Served(s, g)
      && t.waits == s.waits - {u} && t.semaphoreHandles == s.semaphoreHandles
      && Queue(t, g) == if w.ticket.Some? && g == w.target then Without(Queue(s, g), w.ticket.value) else Queue(s, g)
  {
  }

  lemma LeaveLine(s: State, u: Thread, h: Handle)
    requires LineValid(s, h) && u in s.waits
    ensures LineValid(Leave(s, u), h)
  {
    var w := s.waits[u];
    if w.ticket.Some? { WithoutOrdered(Served(s, h), Queue(s, h), w.ticket.value, s.tickets); }
    LeaveParts(s, u, h);
    hide OrderedUpTo, Without, Leave, Queue, Served;
  }

  lemma LineOf(s: State, h: Handle)
    requires Lined(s)
    ensures LineValid(s, h)
  {
  }

  lemma LeaveLined(s: State, u: Thread)
    requires Lined(s) && u in s.waits
    ensures Lined(Leave(s, u))
  {
    var t := Leave(s, u);
    hide LineValid, Held, Queued;
    forall h: Handle ensures LineValid(t, h) { LineOf(s, h); LeaveLine(s, u, h); }
    forall h: Handle, k | k in Queue(t, h) ensures Held(t, h, k) { LeaveHeld(s, u, h, k); }
    forall v | v in t.waits ensures Queued(t, v) { LeaveQueued(s, u, v); }
  }

  lemma LeaveHeld(s: State, u: Thread, h: Handle, k: int)
    requires Lined(s) && u in s.waits && k in Queue(Leave(s, u), h)
    ensures Held(Leave(s, u), h, k)
  {
    var w := s.waits[u];
    assert Queued(s, u);
    if w.ticket.Some? && h == w.target {
      assert LineValid(s, h);
      WithoutOne(Served(s, h), Queue(s, h), w.ticket.value);
    }
    assert Held(s, h, k);
  }

  lemma LeaveQueued(s: State, u: Thread, v: Thread)
    requires Lined(s) && u in s.waits && v in s.waits && v != u
    ensures Queued(Leave(s, u), v)
  {
    var (w, x) := (s.waits[u], s.waits[v]);
    QueuedOf(s, u);
    QueuedOf(s, v);
    LeaveParts(s, u, x.target);
    if w.ticket.Some? && x.ticket.Some? && x.target == w.target {
      LineOf(s, w.target);
      WithoutOne(Served(s, w.target), Queue(s, w.target), w.ticket.value);
    }
    hide Lined, Without, Leave, Queue, Served;
    var t := Leave(s, u);
    assert t.waits[v] == x;
    if x.ticket.Some? && w.ticket.Some? && x.target == w.target {
      assert x.ticket.value != w.ticket.value;
      assert x.ticket.value in Without(Queue(s, w.target), w.ticket.value);
    }
  }

  lemma QueuedOf(s: State, t: Thread)
    requires Lined(s) && t in s.waits
    ensures Queued(s, t)
  {
  }

  lemma LeaveSound(s: State, u: Thread)
    requires Sound(s) && u in s.waits
    ensures Sound(Leave(s, u))
  {
    hide Lined, Accounted;
    LeaveLined(s, u);
    AccountedSame(s, Leave(s, u));
  }

  /** The front ticket moves from the queue to the record of those served: the line is the same. */
  lemma ServeFrontLined(s: State, u: Thread)
    requires Lined(s) && u in s.waits && s.waits[u].ticket.Some?
    requires var w := s.waits[u]; Queue(s, w.target) != [] && Queue(s, w.target)[0] == w.ticket.value
    ensures Lined(Serve(Leave(s, u), s.waits[u]))
  {
    var w := s.waits[u];
    var left := Leave(s, u);
    var t := Serve(left, w);
    LeaveLined(s, u);
    hide Lined, Leave, LineValid, Held, Queued;
    forall h: Handle ensures LineValid(t, h) {
      LineOf(s, h);
      LineOf(left, h);
      ServeLine(s, u, h);
    }
    ServedRest(left, w);
  }

  lemma ServeLine(s: State, u: Thread, h: Handle)
    requires u in s.waits && s.waits[u].ticket.Some? && LineValid(s, h) && LineValid(Leave(s, u), h)
    requires var w := s.waits[u]; Queue(s, w.target) != [] && Queue(s, w.target)[0] == w.ticket.value
    ensures LineValid(Serve(Leave(s, u), s.waits[u]), h)
  {
    var w := s.waits[u];
    var t := Serve(Leave(s, u), w);
    LeaveParts(s, u, h);
    hide OrderedUpTo, Leave, Queue;
    if h == w.target {
      assert Queue(s, h) == [w.ticket.value] + Queue(t, h);
      assert Line(t, h) == Line(s, h);
    }
  }

  lemma ServedRest(s: State, w: Wait)
    requires Lined(s) && w.ticket.Some? && forall h: Handle :: LineValid(Serve(s, w), h)
    ensures Lined(Serve(s, w))
  {
    hide LineValid;
    var t := Serve(s, w);
    forall h: Handle, k | k in Queue(t, h) ensures Held(t, h, k) { assert Held(s, h, k); }
    forall v | v in t.waits ensures Queued(t, v) { assert Queued(s, v); }
  }

  lemma ConsumeSound(s: State, h: Handle)
    requires Sound(s)
    ensures Sound(Consume(s, h))
  {
    hide Lined, Accounted;
    var t := Consume(s, h);
    LinedSame(s, t);
    AccountedConsume(s, h);
  }

  lemma BalancedConsume(s: State, h: Handle, g: Handle)
    requires Balanced(s, g)
    ensures Balanced(Consume(s, h), g)
  {
  }

  lemma AccountedConsume(s: State, h: Handle)
    requires Accounted(s)
    ensures Accounted(Consume(s, h))
  {
    hide Balanced, Consume;
    forall g: Handle ensures Balanced(Consume(s, h), g) { BalancedConsume(s, h, g); }
  }

  lemma SatisfySound(s: State, u: Thread)
    requires Sound(s) && u in s.waits && Ready(s, s.waits[u])
    ensures Sound(Satisfy(s, u))
  {
    var w := s.waits[u];
    assert Queued(s, u);
    var s1 := Consume(s, w.target);
    ConsumeSound(s, w.target);
    LeaveSound(s1, u);
    if w.ticket.Some? {
      ServeFrontLined(s1, u);
      hide Lined, Accounted;
      AccountedSame(Leave(s1, u), Satisfy(s, u));
    }
  }

  lemma NewTicket(q: seq<int>, bound: int)
    requires OrderedUpTo(q, bound)
    ensures OrderedUpTo(q + [bound + 1], bound + 1) && OrderedUpTo(q, bound + 1)
  {
    assert forall i | 0 <= i < |q| :: q[i] in q;
  }

  lemma EnterParts(s: State, u: Thread, h: Handle, timed: bool, g: Handle)
    ensures var t := Enter(s, u, h, timed);
      var k := s.tickets + 1;
      && t.tickets == (if TakesTicket(s, h) then k else s.tickets)
      && Queue(t, g) == (if TakesTicket(s, h) && g == h then Queue(s, h) + [k] else Queue(s, g))
      && Served(t, g) == Served(s, g)
  {
  }

  lemma EnterLine(s: State, u: Thread, h: Handle, timed: bool, g: Handle)
    requires LineValid(s, g)
    ensures LineValid(Enter(s, u, h, timed), g)
  {
    EnterParts(s, u, h, timed, g);
    NewTicket(Line(s, g), s.tickets);
    hide OrderedUpTo, Enter, Queue, Served;
    var t := Enter(s, u, h, timed);
    if TakesTicket(s, h) && g == h {
      assert Line(t, h) == Line(s, h) + [s.tickets + 1];
    } else {
      assert Line(t, g) == Line(s, g);
    }
  }

  lemma QueuedTicket(s: State, h: Handle, k: int)
    requires Lined(s) && k in Queue(s, h)
    ensures Held(s, h, k) && k <= s.tickets
  {
    assert LineValid(s, h);
    assert k in Line(s, h);
  }

  lemma EnterHeld(s: State, u: Thread, h: Handle, timed: bool, g: Handle, k: int)
    requires Lined(s) && u !in s.waits && k in Queue(Enter(s, u, h, timed), g)
    ensures Held(Enter(s, u, h, timed), g, k)
  {
    if k in Queue(s, g) { QueuedTicket(s, g, k); }
    hide Lined;
  }

  lemma EnterQueued(s: State, u: Thread, h: Handle, timed: bool, v: Thread)
    requires Lined(s) && Sorted(s) && u !in s.waits && v in Enter(s, u, h, timed).waits
    ensures Queued(Enter(s, u, h, timed), v)
  {
    if v != u {
      assert Queued(s, v);
      var w := s.waits[v];
      if w.ticket.Some? { QueuedTicket(s, w.target, w.ticket.value); }
    }
    hide Lined;
  }

  lemma EnterSound(s: State, u: Thread, h: Handle, timed: bool)
    requires Sound(s) && u !in s.waits
    ensures Sound(Enter(s, u, h, timed))
  {
    var t := Enter(s, u, h, timed);
    AccountedSame(s, t);
    hide LineValid, Held, Queued, Accounted;
    forall g: Handle ensures LineValid(t, g) { EnterLine(s, u, h, timed, g); }
    forall g: Handle, k | k in Queue(t, g) ensures Held(t, g, k) { EnterHeld(s, u, h, timed, g, k); }
    forall v | v in t.waits ensures Queued(t, v) { EnterQueued(s, u, h, timed, v); }
  }

  // ---- The parts of a call leave no one asleep who should be up ----

  ghost predicate SameStarts(s: State, t: State) {
    t.starts == s.starts && t.suspended == s.suspended
  }

  lemma StartsSame(s: State, t: State)
    requires Alert(s) && SameStarts(s, t)
    ensures forall u | u in t.starts :: StartRested(t, u)
  {
    forall u | u in t.starts ensures StartRested(t, u) { assert StartRested(s, u); }
  }

  /** Nothing that a sleeping thread waits for came true. */
  lemma StillRested(s: State, t: State)
    requires Alert(s) && SameStarts(s, t)
    requires forall u | u in t.waits && !t.waits[u].awake && Ready(t, t.waits[u]) ::
      && u in s.waits && s.waits[u] == t.waits[u] && Ready(s, s.waits[u])
      && (IsManual(s, s.waits[u].target) ==> IsManual(t, s.waits[u].target))
    ensures Alert(t)
  {
    StartsSame(s, t);
    forall u | u in t.waits ensures Rested(t, u) {
      if !t.waits[u].awake && Ready(t, t.waits[u]) { assert Rested(s, u); }
    }
  }

  lemma NotifyAlert(s: State)
    requires forall u | u in s.starts :: StartRested(s, u)
    ensures Alert(NotifyWaits(s))
  {
    var t := NotifyWaits(s);
    forall u | u in t.starts ensures StartRested(t, u) { assert StartRested(s, u); }
  }

  lemma ClearAlert(s: State, h: Handle)
    requires Alert(s)
    ensures Alert(SetFlag(s, h, false))
  {
    StillRested(s, SetFlag(s, h, false));
  }

  lemma AdoptAlert(s: State, h: Handle, header: int)
    requires Alert(s)
    ensures Alert(Adopt(s, h, header))
  {
    StillRested(s, Adopt(s, h, header));
  }

  lemma ConsumeAlert(s: State, h: Handle)
    requires Alert(s)
    ensures Alert(Consume(s, h))
  {
    StillRested(s, Consume(s, h));
  }

  /** Taking a ticket that may have been first in line. */
  lemma LeaveAlert(s: State, u: Thread)
    requires Lined(s) && Alert(s) && u in s.waits
    requires var w := s.waits[u]; !Ready(s, w) || !Signalled(s, w.target) || IsManual(s, w.target)
    ensures Alert(Leave(s, u))
  {
    var t := Leave(s, u);
    StartsSame(s, t);
    hide Lined, Without, StartRested;
    forall v | v in t.waits ensures Rested(t, v) { LeaveRested(s, t, u, v); }
  }

  lemma WithoutFront(q: seq<int>, k: int)
    requires q != [] && q[0] != k
    ensures Without(q, k) != [] && Without(q, k)[0] == q[0]
  {
  }

  lemma LeaveRested(s: State, t: State, u: Thread, v: Thread)
    requires Lined(s) && Alert(s) && u in s.waits && t == Leave(s, u) && v in s.waits && v in t.waits
    requires var w := s.waits[u]; !Ready(s, w) || !Signalled(s, w.target) || IsManual(s, w.target)
    ensures Rested(t, v)
  {
    var (w, x) := (s.waits[u], s.waits[v]);
    assert Rested(s, v);
    QueuedOf(s, u);
    LeaveParts(s, u, x.target);
    if w.ticket.Some? && w.target == x.target && Queue(s, w.target)[0] != w.ticket.value {
      WithoutFront(Queue(s, w.target), w.ticket.value);
    }
    hide Lined, Without, Queue;
  }

  lemma ServeAlert(s: State, w: Wait)
    requires Alert(s)
    ensures Alert(Serve(s, w))
  {
    var t := Serve(s, w);
    forall u | u in t.waits ensures Rested(t, u) { assert Rested(s, u); }
    forall u | u in t.starts ensures StartRested(t, u) { assert StartRested(s, u); }
  }

  lemma SatisfyKeepsInv(s: State, u: Thread)
    requires Inv(s) && u in s.waits && Ready(s, s.waits[u])
    ensures Inv(Satisfy(s, u))
  {
    var w := s.waits[u];
    SatisfySound(s, u);
    ConsumeSound(s, w.target);
    ConsumeAlert(s, w.target);
    var s1 := Consume(s, w.target);
    LeaveAlert(s1, u);
    ServeAlert(Leave(s1, u), w);
  }

  lemma EnterAlert(s: State, u: Thread, h: Handle, timed: bool)
    requires Lined(s) && Alert(s) && u !in s.waits
    ensures Alert(Enter(s, u, h, timed))
  {
    var t := Enter(s, u, h, timed);
    StartsSame(s, t);
    forall v | v in t.waits ensures Rested(t, v) {
      if v != u {
        assert Rested(s, v);
        QueuedOf(s, v);
        EnterParts(s, u, h, timed, s.waits[v].target);
        hide Lined, Queue, StartRested;
      }
    }
  }

  lemma SleepSound(s: State, u: Thread)
    requires Sound(s) && u in s.waits
    ensures Sound(Sleep(s, u))
  {
    var t := Sleep(s, u);
    AccountedSame(s, t);
    hide Accounted;
    forall h: Handle ensures LineValid(t, h) { assert LineValid(s, h); }
    forall h: Handle, k | k in Queue(t, h) ensures Held(t, h, k) { assert Held(s, h, k); }
    forall v | v in t.waits ensures Queued(t, v) { assert Queued(s, v); }
  }

  lemma SleepAlert(s: State, u: Thread)
    requires Alert(s) && u in s.waits && !Ready(s, s.waits[u])
    ensures Alert(Sleep(s, u))
  {
    StillRested(s, Sleep(s, u));
  }

  // ---- Every call keeps the invariant ----

  lemma AdoptKeepsInv(s: State, h: Handle, header: int)
    requires Inv(s)
    ensures Inv(Adopt(s, h, header)) && Adopt(s, h, header).semaphoreHandles == s.semaphoreHandles
    ensures Adopt(s, h, header).waits == s.waits
  {
    AdoptAlert(s, h, header);
    RestSound(s, Adopt(s, h, header));
  }

  lemma FlagKeepsInv(s: State, h: Handle, flag: bool)
    requires Inv(s) && h !in s.semaphoreHandles
    ensures Inv(if flag then Signal(s, h) else SetFlag(s, h, false))
  {
    SetFlagSound(s, h, flag);
    if flag {
      StartsSame(s, SetFlag(s, h, true));
      NotifySound(SetFlag(s, h, true));
      NotifyAlert(SetFlag(s, h, true));
    } else {
      ClearAlert(s, h);
    }
  }

  lemma SleepKeepsInv(s: State, u: Thread)
    requires Inv(s) && u in s.waits && !Ready(s, s.waits[u])
    ensures Inv(Sleep(s, u))
  {
    SleepSound(s, u);
    SleepAlert(s, u);
  }

  lemma CheckKeepsInv(s: State, t: Thread)
    requires Inv(s) && t in s.waits
    ensures Inv(Check(s, t))
  {
    if Ready(s, s.waits[t]) { SatisfyKeepsInv(s, t); } else { SleepKeepsInv(s, t); }
  }

  lemma BeginKeepsInv(s: State, t: Thread, h: Handle, timed: bool, header: int)
    requires Inv(s) && t !in s.waits
    ensures t in Enter(Adopt(s, h, header), t, h, timed).waits
    ensures Inv(Check(Enter(Adopt(s, h, header), t, h, timed), t))
  {
    var s1 := Adopt(s, h, header);
    AdoptKeepsInv(s, h, header);
    EnterSound(s1, t, h, timed);
    EnterAlert(s1, t, h, timed);
    CheckKeepsInv(Enter(s1, t, h, timed), t);
  }

  lemma GiveUpKeepsInv(s: State, t: Thread)
    requires Inv(s) && t in s.waits && !Ready(s, s.waits[t])
    ensures Inv(Leave(s, t))
  {
    LeaveSound(s, t);
    LeaveAlert(s, t);
  }

  lemma NotifyKeepsInv(s: State)
    requires Sound(s) && forall u | u in s.starts :: StartRested(s, u)
    ensures Inv(NotifyWaits(s))
  {
    NotifySound(s);
    NotifyAlert(s);
  }

  lemma WithdrawKeepsInv(s: State, h: Handle)
    requires Inv(s) && h !in s.semaphoreHandles
    ensures Inv(NotifyWaits(SetFlag(s, h, false)))
  {
    FlagKeepsInv(s, h, false);
    NotifyKeepsInv(SetFlag(s, h, false));
  }

  lemma CreateKeepsInv(s: State, h: Handle, manualReset: bool, initial: bool)
    requires Inv(s) && Proper(s, CreateEvent(h, manualReset, initial))
    ensures Inv(Create(s, h, manualReset, initial))
  {
    var s1 := SetFlag(s, h, initial);
    SetFlagSound(s, h, initial);
    var t := Create(s, h, manualReset, initial);
    hide Sound;
    RestSound(s1, t);
    StillRested(s, t);
  }

  lemma CloseBalanced(s: State, h: Handle, g: Handle)
    requires Balanced(s, g)
    ensures Balanced(Close(s, h), g)
  {
  }

  lemma CloseAccounted(s: State, h: Handle)
    requires Accounted(s)
    ensures Accounted(Close(s, h))
  {
    hide Balanced, Close;
    forall g: Handle ensures Balanced(Close(s, h), g) { CloseBalanced(s, h, g); }
  }

  lemma CloseKeepsInv(s: State, h: Handle)
    requires Inv(s)
    ensures Inv(Close(s, h))
  {
    var t := Close(s, h);
    CloseAccounted(s, h);
    LinedSame(s, t);
    hide Lined, Accounted;
    StillRested(s, t);
  }

  lemma FirstIsSignalled(s: State, handles: seq<Handle>)
    ensures var first := FirstSignalled(s, handles); first.Some? ==> Signalled(s, first.value)
  {
  }

  lemma TakeFirstKeepsInv(s: State, handles: seq<Handle>, all: bool)
    requires Inv(s)
    ensures Inv(TakeFirst(s, handles, all))
  {
    FirstIsSignalled(s, handles);
    var first := FirstSignalled(s, handles);
    if first.Some? { FlagKeepsInv(s, first.value, false); }
  }

  lemma NewSemaphoreKeepsInv(s: State, h: Handle, count: int, limit: int)
    requires Inv(s) && Proper(s, CreateSemaphore(h, count, limit))
    ensures Inv(NewSemaphore(s, h, count, limit))
  {
    RestSound(s, NewSemaphore(s, h, count, limit));
    hide Sound;
    StillRested(s, NewSemaphore(s, h, count, limit));
  }

  lemma AddCountKeepsInv(s: State, h: Handle, adjustment: int)
    requires Inv(s) && h in s.semaphoreHandles
    ensures Inv(NotifyWaits(AddCount(s, h, adjustment)))
  {
    var t := AddCount(s, h, adjustment);
    RestSound(s, t);
    StartsSame(s, t);
    hide Sound, AddCount;
    NotifyKeepsInv(t);
  }

  /** A change that only suspended and starting threads see. */
  lemma StartsKeepInv(s: State, t: State)
    requires Inv(s) && t == s.(suspended := t.suspended, starts := t.starts)
    requires forall u | u in t.starts :: StartRested(t, u)
    ensures Inv(t)
  {
    RestSound(s, t);
    hide Sound, StartRested;
    forall u | u in t.waits ensures Rested(t, u) { assert Rested(s, u); }
  }

  lemma NewThreadKeepsInv(s: State, t: Thread, h: Handle, createSuspended: bool)
    requires Inv(s) && Proper(s, CreateThread(t, h, createSuspended)) && t !in s.starts
    ensures Inv(NewThread(s, t, h, createSuspended))
  {
    var s1 := NewThread(s, t, h, createSuspended);
    forall u | u in s1.starts ensures StartRested(s1, u) {
      if u != t { assert StartRested(s, u); }
    }
    StartsKeepInv(s, s1);
  }

  lemma CheckStartKeepsInv(s: State, t: Thread)
    requires Inv(s) && t in s.starts
    ensures Inv(CheckStart(s, t))
  {
    var s1 := CheckStart(s, t);
    forall u | u in s1.starts ensures StartRested(s1, u) {
      assert StartRested(s, u);
    }
    StartsKeepInv(s, s1);
  }

  lemma SuspendKeepsInv(s: State, h: Handle)
    requires Inv(s)
    ensures Inv(s.(suspended := s.suspended[h := Gate(s, h) + 1]))
  {
    var s1 := s.(suspended := s.suspended[h := Gate(s, h) + 1]);
    forall u | u in s1.starts ensures StartRested(s1, u) {
      assert StartRested(s, u);
    }
    StartsKeepInv(s, s1);
  }

  lemma ResumeKeepsInv(s: State, suspended: map<Handle, nat>)
    requires Inv(s)
    ensures Inv(NotifyStarts(s.(suspended := suspended)))
  {
    StartsKeepInv(s, NotifyStarts(s.(suspended := suspended)));
  }

  lemma ExitKeepsInv(s: State, h: Handle)
    requires Inv(s) && h !in s.semaphoreHandles
    ensures Inv(Exit(s, h))
  {
    var s1 := Signal(s, h);
    FlagKeepsInv(s, h, true);
    var s2 := s1.(manual := s.manual[h := true]);
    RestSound(s1, s2);
    hide Sound;
    StillRested(s1, s2);
    StartsKeepInv(s2, NotifyStarts(s2));
  }

  lemma WaitKeepsInv(s: State, call: Call)
    requires Inv(s) && (call.BeginWait? || call.Recheck? || call.Expire?)
    ensures Inv(Fire(s, call))
  {
    hide Inv, Check, Enter, Adopt, Satisfy, Leave, Ready;
    match call
    case BeginWait(t, h, timed, header) =>
      if t !in s.waits { BeginKeepsInv(s, t, h, timed, header); }
    case Recheck(t) =>
      if t in s.waits { CheckKeepsInv(s, t); }
    case Expire(t) =>
      if t in s.waits { if Ready(s, s.waits[t]) { SatisfyKeepsInv(s, t); } else { GiveUpKeepsInv(s, t); } }
  }

  lemma SetOrResetKeepsInv(s: State, call: Call)
    requires Inv(s) && Proper(s, call) && (call.SetEvent? || call.ResetEvent?)
    ensures Inv(Fire(s, call))
  {
    var h := call.handle;
    hide Inv, Adopt, Signal, SetFlag;
    AdoptKeepsInv(s, h, call.header);
    FlagKeepsInv(Adopt(s, h, call.header), h, call.SetEvent?);
  }

  predicate IsThreadCall(call: Call) {
    || call.CreateThread? || call.RecheckStart? || call.SuspendThread?
    || call.ResumeThread? || call.ResumeAll? || call.ExitThread?
  }

  lemma ThreadCallKeepsInv(s: State, call: Call)
    requires Inv(s) && Proper(s, call) && IsThreadCall(call)
    ensures Inv(Fire(s, call))
  {
    hide Inv, NewThread, CheckStart, NotifyStarts, Exit;
    match call
    case CreateThread(t, h, createSuspended) =>
      if t !in s.starts { NewThreadKeepsInv(s, t, h, createSuspended); }
    case RecheckStart(t) =>
      if t in s.starts { CheckStartKeepsInv(s, t); }
    case SuspendThread(h) => SuspendKeepsInv(s, h);
    case ResumeThread(h) => ResumeKeepsInv(s, Resume(s, h).suspended);
    case ResumeAll => ResumeKeepsInv(s, map h | h in s.suspended :: 0);
    case ExitThread(h) => ExitKeepsInv(s, h);
  }

  lemma OtherKeepsInv(s: State, call: Call)
    requires Inv(s) && Proper(s, call) && !IsThreadCall(call)
    requires !call.BeginWait? && !call.Recheck? && !call.Expire? && !call.SetEvent? && !call.ResetEvent?
    ensures Inv(Fire(s, call))
  {
    hide Inv, Adopt, Signal, SetFlag, NotifyWaits, Create, Close, TakeFirst, NewSemaphore, AddCount;
    match call
    case ClearEvent(h) => FlagKeepsInv(s, h, false);
    case CompleteRequest(h) => FlagKeepsInv(s, h, true);
    case WithdrawCompletion(h) => WithdrawKeepsInv(s, h);
    case CreateEvent(h, manualReset, initial) => CreateKeepsInv(s, h, manualReset, initial);
    case CloseHandle(h) => CloseKeepsInv(s, h);
    case AdoptHeader(h, header) => AdoptKeepsInv(s, h, header);
    case WaitMultiple(handles, all) => TakeFirstKeepsInv(s, handles, all);
    case CreateSemaphore(h, count, limit) => NewSemaphoreKeepsInv(s, h, count, limit);
    case ReleaseSemaphore(h, adjustment) => AddCountKeepsInv(s, h, adjustment);
  }

  lemma FireKeepsInv(s: State, call: Call)
    requires Inv(s) && Proper(s, call)
    ensures Inv(Fire(s, call))
  {
    if call.BeginWait? || call.Recheck? || call.Expire? {
      WaitKeepsInv(s, call);
    } else if call.SetEvent? || call.ResetEvent? {
      SetOrResetKeepsInv(s, call);
    } else if IsThreadCall(call) {
      ThreadCallKeepsInv(s, call);
    } else {
      OtherKeepsInv(s, call);
    }
  }

  // ---- Whole runs ----

  ghost predicate ProperRun(s: State, calls: seq<Call>)
    decreases |calls|
  {
    calls == [] || (Proper(s, calls[0]) && ProperRun(Fire(s, calls[0]), calls[1..]))
  }

  function Run(s: State, calls: seq<Call>): State
    decreases |calls|
  {
    if calls == [] then s else Run(Fire(s, calls[0]), calls[1..])
  }

  lemma {:induction false} RunKeepsInv(s: State, calls: seq<Call>)
    requires Inv(s) && ProperRun(s, calls)
    ensures Inv(Run(s, calls))
    decreases |calls|
  {
    hide Inv, Fire, Proper;
    if calls != [] {
      FireKeepsInv(s, calls[0]);
      RunKeepsInv(Fire(s, calls[0]), calls[1..]);
    }
  }

  lemma InitialInv(semaphoreHandles: set<Handle>)
    ensures Inv(Initial(semaphoreHandles))
  {
  }

  // ---- What the invariant says ----

  /** The thread that waits with the front ticket of an event. */
  ghost function Front(s: State, h: Handle): (t: Thread)
    requires Sound(s) && Queue(s, h) != []
    ensures t in s.waits && s.waits[t].target == h && s.waits[t].ticket == Some(Queue(s, h)[0])
  {
    assert Held(s, h, Queue(s, h)[0]);
    s.owner[Queue(s, h)[0]]
  }

  /** No signal of an auto-reset event is lost on the thread that is first in line. */
  lemma NoLostWakeup(s: State, h: Handle)
    requires Inv(s) && Signalled(s, h) && !IsManual(s, h) && Queue(s, h) != []
    ensures s.waits[Front(s, h)].awake
  {
    assert Rested(s, Front(s, h));
  }

  /** Nor does anyone sleep on a semaphore with a count, or on a signalled event without a ticket. */
  lemma NoLostCount(s: State, t: Thread)
    requires Inv(s) && t in s.waits && Ready(s, s.waits[t])
    requires s.waits[t].target in s.semaphoreHandles || s.waits[t].ticket.None?
    ensures s.waits[t].awake
  {
    assert Rested(s, t) && Queued(s, t);
  }

  /** Once it looks, the first in line takes the signal, leaves, and is recorded as served. */
  lemma FrontTakesSignal(s: State, h: Handle)
    requires Inv(s) && Signalled(s, h) && !IsManual(s, h) && Queue(s, h) != []
    ensures var t := Front(s, h);
      var after := Fire(s, Recheck(t));
      && t !in after.waits && !Signalled(after, h)
      && Served(after, h) == Served(s, h) + [Queue(s, h)[0]] && Queue(after, h) == Queue(s, h)[1..]
  {
    assert Ready(s, s.waits[Front(s, h)]);
    assert h !in s.semaphores;
  }

  /** Anyone else in line goes back to sleep, and the signal stays for the first. */
  lemma OthersStandBack(s: State, t: Thread)
    requires Inv(s) && t in s.waits && s.waits[t].ticket.Some? && t != Front(s, s.waits[t].target)
    ensures Fire(s, Recheck(t)) == Sleep(s, t)
  {
    var w := s.waits[t];
    assert Queued(s, t);
    assert w.target !in s.semaphores;
    assert s.owner[w.ticket.value] == t;
  }

  /** The tickets served on one event are in the order they were drawn, and before all that still wait. */
  lemma ServedInOrder(s: State, h: Handle)
    requires Inv(s)
    ensures Increasing(Served(s, h)) && Increasing(Queue(s, h))
    ensures forall a, b | a in Served(s, h) && b in Queue(s, h) :: a < b
  {
    LineOf(s, h);
    var (served, queue) := (Served(s, h), Queue(s, h));
    var line := served + queue;
    forall i, j | 0 <= i < j < |served| ensures served[i] < served[j] { assert line[i] < line[j]; }
    forall i, j | 0 <= i < j < |queue| ensures queue[i] < queue[j] { assert line[|served| + i] < line[|served| + j]; }
    forall a, b | a in served && b in queue ensures a < b {
      var i :| 0 <= i < |served| && served[i] == a;
      var j :| 0 <= j < |queue| && queue[j] == b;
      assert line[i] < line[|served| + j];
    }
  }

  /** Each time an auto-reset event becomes signalled it releases at most one single-object wait. */
  lemma OneReleasePerSignal(s: State, h: Handle)
    requires Inv(s)
    ensures var e := Entry(s, h);
      e.taken + e.cleared <= e.rises && (e.rises - e.taken - e.cleared == 1 <==> Signalled(s, h))
  {
    assert Balanced(s, h);
  }

  lemma EveryRun(semaphoreHandles: set<Handle>, calls: seq<Call>)
    requires ProperRun(Initial(semaphoreHandles), calls)
    ensures Inv(Run(Initial(semaphoreHandles), calls))
  {
    InitialInv(semaphoreHandles);
    RunKeepsInv(Initial(semaphoreHandles), calls);
  }

  // ---- Where a wakeup is lost ----

  /** The state of one event in a machine without semaphores. */
  ghost predicate Scene(s: State, h: Handle, flag: bool, manual: map<Handle, bool>, queue: seq<int>,
                        waits: map<Thread, Wait>, last: int) {
    && s.events == map[h := flag] && s.manual == manual && s.semaphores == map[] && s.semaphoreHandles == {}
    && Queue(s, h) == queue && s.waits == waits && s.tickets == last
  }

  lemma QueueUp(s: State, h: Handle, queue: seq<int>, waits: map<Thread, Wait>, last: int, t: Thread)
    requires Scene(s, h, false, map[], queue, waits, last) && t !in waits
    ensures Scene(Fire(s, BeginWait(t, h, false, 5)), h, false, map[], queue + [last + 1],
      waits[t := Wait(h, Some(last + 1), false, false)], last + 1)
  {
    var s1 := Adopt(s, h, 5);
    assert Scene(s1, h, false, map[], queue, waits, last);
    var s2 := Enter(s1, t, h, false);
    assert Scene(s2, h, false, map[], queue + [last + 1], waits[t := Wait(h, Some(last + 1), false, true)], last + 1);
    hide Enter, Adopt;
    assert !Ready(s2, s2.waits[t]);
  }

  lemma SetAsManual(s: State, h: Handle, queue: seq<int>, waits: map<Thread, Wait>, last: int)
    requires Scene(s, h, false, map[], queue, waits, last) && 0x1000_0000 <= h < 0x9000_0000
    ensures Scene(Fire(s, SetEvent(h, 0)), h, true, map[h := true], queue,
      map t | t in waits :: waits[t].(awake := true), last)
  {
  }

  lemma SecondLooks(s: State, h: Handle, waits: map<Thread, Wait>, last: int, t: Thread)
    requires Scene(s, h, true, map[h := true], [1, 2], waits, last)
    requires t in waits && waits[t].target == h && waits[t].ticket == Some(2)
    ensures Scene(Fire(s, Recheck(t)), h, true, map[h := true], [1, 2], waits[t := waits[t].(awake := false)], last)
  {
    assert !Ready(s, s.waits[t]);
  }

  lemma FirstLeaves(s: State, h: Handle, waits: map<Thread, Wait>, last: int, t: Thread)
    requires Scene(s, h, true, map[h := true], [1, 2], waits, last)
    requires t in waits && waits[t].target == h && waits[t].ticket == Some(1)
    ensures Scene(Fire(s, Recheck(t)), h, true, map[h := true], [2], waits - {t}, last)
  {
    assert Ready(s, s.waits[t]);
    assert Without([1, 2], 1) == [2];
  }

  lemma RunFirst(s: State, call: Call, rest: seq<Call>)
    ensures Run(s, [call] + rest) == Run(Fire(s, call), rest)
    ensures ProperRun(s, [call] + rest) <==> Proper(s, call) && ProperRun(Fire(s, call), rest)
  {
    assert ([call] + rest)[1..] == rest;
  }

  lemma RunThree(s: State, c1: Call, c2: Call, c3: Call, rest: seq<Call>)
    requires c1.ClearEvent? || c1.SetEvent?
    requires Proper(s, c1) && (c2.BeginWait? || c2.Recheck?) && (c3.BeginWait? || c3.Recheck?)
    ensures var t := Fire(Fire(Fire(s, c1), c2), c3);
      var calls := [c1] + ([c2] + ([c3] + rest));
      Run(s, calls) == Run(t, rest) && (ProperRun(s, calls) <==> ProperRun(t, rest))
  {
    hide Fire;
    var s1 := Fire(s, c1);
    var s2 := Fire(s1, c2);
    RunFirst(s, c1, [c2] + ([c3] + rest));
    RunFirst(s1, c2, [c3] + rest);
    RunFirst(s2, c3, rest);
  }

  lemma TwoQueueUp(s: State, h: Handle)
    requires s == Initial({})
    ensures var t := Fire(Fire(Fire(s, ClearEvent(h)), BeginWait(1, h, false, 5)), BeginWait(2, h, false, 5));
      Scene(t, h, false, map[], [1, 2],
        map[1 := Wait(h, Some(1), false, false), 2 := Wait(h, Some(2), false, false)], 2)
  {
    var s1 := Fire(s, ClearEvent(h));
    assert Scene(s1, h, false, map[], [], map[], 0);
    hide Fire;
    QueueUp(s1, h, [], map[], 0, 1);
    assert [] + [1] == [1];
    var w := map[1 := Wait(h, Some(1), false, false)];
    assert map[][1 := Wait(h, Some(1), false, false)] == w;
    QueueUp(Fire(s1, BeginWait(1, h, false, 5)), h, [1], w, 1, 2);
    assert [1] + [2] == [1, 2];
    assert w[2 := Wait(h, Some(2), false, false)] == map[1 := Wait(h, Some(1), false, false),
                                                         2 := Wait(h, Some(2), false, false)];
  }

  lemma SecondIsLost(s: State, h: Handle)
    requires 0x1000_0000 <= h < 0x9000_0000
    requires Scene(s, h, false, map[], [1, 2],
      map[1 := Wait(h, Some(1), false, false), 2 := Wait(h, Some(2), false, false)], 2)
    ensures var t := Fire(Fire(Fire(s, SetEvent(h, 0)), Recheck(2)), Recheck(1));
      Scene(t, h, true, map[h := true], [2], map[2 := Wait(h, Some(2), false, false)], 2)
  {
    hide Fire;
    SetAsManual(s, h, [1, 2], s.waits, 2);
    var woken := map t | t in s.waits :: s.waits[t].(awake := true);
    var s1 := Fire(s, SetEvent(h, 0));
    SecondLooks(s1, h, woken, 2, 2);
    var looked := woken[2 := woken[2].(awake := false)];
    FirstLeaves(Fire(s1, Recheck(2)), h, looked, 2, 1);
    assert looked - {1} == map[2 := Wait(h, Some(2), false, false)];
  }

  /**
   An event whose header names it manual-reset only after two threads drew tickets for it: the
   second looks before the first has left, and then sleeps on a signal that stays.
   */
  lemma TurnedManualLosesWakeup(h: Handle) returns (calls: seq<Call>)
    requires 0x1000_0000 <= h < 0x9000_0000
    ensures ProperRun(Initial({}), calls)
    ensures var s := Run(Initial({}), calls);
      Signalled(s, h) && 2 in s.waits && Ready(s, s.waits[2]) && !s.waits[2].awake
  {
    var s := Initial({});
    TwoQueueUp(s, h);
    var middle := Fire(Fire(Fire(s, ClearEvent(h)), BeginWait(1, h, false, 5)), BeginWait(2, h, false, 5));
    SecondIsLost(middle, h);
    hide Fire;
    var rest := [SetEvent(h, 0)] + ([Recheck(2)] + ([Recheck(1)] + []));
    calls := [ClearEvent(h)] + ([BeginWait(1, h, false, 5)] + ([BeginWait(2, h, false, 5)] + rest));
    RunThree(s, ClearEvent(h), BeginWait(1, h, false, 5), BeginWait(2, h, false, 5), rest);
    RunThree(middle, SetEvent(h, 0), Recheck(2), Recheck(1), []);
  }
}
