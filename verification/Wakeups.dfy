/**
 Which runs of the dispatcher wake every thread that could go on, and how many waits a signal
 can end. A queue that forms behind an event while it is auto-reset is served ticket by ticket,
 whatever the event is later: if the event turns manual-reset above two tickets or more, the
 signal that was meant for all of them can leave the second one asleep.
 */
module Wakeups {
  import opened Words
  import opened Dispatcher

  /** Every thread whose wait is satisfied is up, in any reset mode and with any ticket. */
  ghost predicate AllRested(s: State) {
    forall t | t in s.waits && Ready(s, s.waits[t]) :: s.waits[t].awake
  }

  /** No manual-reset event has two tickets in its queue. */
  ghost predicate SingleQueues(s: State) {
    forall h: Handle | IsManual(s, h) :: |Queue(s, h)| <= 1
  }

  /** The header byte would name the event's kind now. */
  predicate HeaderTurns(s: State, h: Handle, header: int) {
    header == 0 && 0x1000_0000 <= h < 0x9000_0000 && h !in s.manual
  }

  /** The call makes a manual-reset event of one that was not. */
  predicate Turns(s: State, call: Call, h: Handle) {
    match call
    case BeginWait(t, g, _, header) => g == h && t !in s.waits && HeaderTurns(s, h, header)
    case SetEvent(g, header) => g == h && HeaderTurns(s, h, header)
    case ResetEvent(g, header) => g == h && HeaderTurns(s, h, header)
    case AdoptHeader(g, header) => g == h && HeaderTurns(s, h, header)
    case CreateEvent(g, manualReset, _) => g == h && manualReset && !IsManual(s, h)
    case ExitThread(g) => g == h && !IsManual(s, h)
    case _ => false
  }

  /** No event turns manual-reset above two tickets or more. */
  ghost predicate Calm(s: State, call: Call) {
    forall h: Handle | Turns(s, call, h) :: |Queue(s, h)| <= 1
  }

  ghost predicate CalmRun(s: State, calls: seq<Call>)
    decreases |calls|
  {
    calls == [] || (Proper(s, calls[0]) && Calm(s, calls[0]) && CalmRun(Fire(s, calls[0]), calls[1..]))
  }

  ghost predicate Settled(s: State) {
    Inv(s) && AllRested(s) && SingleQueues(s)
  }

  // ---- The modes and the queues after a call ----

  lemma AdoptMode(s: State, h: Handle, header: int, g: Handle)
    ensures IsManual(Adopt(s, h, header), g) <==> IsManual(s, g) || (g == h && HeaderTurns(s, h, header))
  {
  }

  lemma SatisfyMode(s: State, t: Thread)
    requires t in s.waits
    ensures Satisfy(s, t).manual == s.manual
  {
    var s1 := Consume(s, s.waits[t].target);
    assert s1.manual == s.manual && s1.waits == s.waits;
    hide Consume;
    assert Leave(s1, t).manual == s1.manual;
    hide Leave;
  }

  lemma CheckMode(s: State, t: Thread)
    requires t in s.waits
    ensures Check(s, t).manual == s.manual
  {
    SatisfyMode(s, t);
    hide Satisfy, Ready;
  }

  lemma TakeFirstMode(s: State, handles: seq<Handle>, all: bool, h: Handle)
    ensures IsManual(TakeFirst(s, handles, all), h) <==> IsManual(s, h)
    ensures Queue(TakeFirst(s, handles, all), h) == Queue(s, h)
  {
    hide FirstSignalled;
  }

  lemma ExpireMode(s: State, t: Thread)
    ensures Fire(s, Expire(t)).manual == s.manual
  {
    if t in s.waits { SatisfyMode(s, t); }
    hide Ready, Without, Satisfy;
  }

  lemma WaitTurnsExact(s: State, call: Call, h: Handle)
    requires call.BeginWait? || call.Recheck? || call.Expire?
    ensures Turns(s, call, h) <==> IsManual(Fire(s, call), h) && !IsManual(s, h)
  {
    hide Check, Ready, Leave, Satisfy, Adopt;
    match call
    case BeginWait(t, g, timed, header) =>
      if t !in s.waits {
        var s1 := Adopt(s, g, header);
        AdoptMode(s, g, header, h);
        CheckMode(Enter(s1, t, g, timed), t);
      }
    case Recheck(t) => if t in s.waits { CheckMode(s, t); }
    case Expire(t) => ExpireMode(s, t);
  }

  predicate IsObjectCall(call: Call) {
    call.CreateEvent? || call.CloseHandle? || call.CreateSemaphore? || call.ReleaseSemaphore?
  }

  lemma ObjectTurnsExact(s: State, call: Call, h: Handle)
    requires IsObjectCall(call) || IsThreadCall(call)
    ensures Turns(s, call, h) <==> IsManual(Fire(s, call), h) && !IsManual(s, h)
  {
  }

  lemma FlagMode(s: State, h: Handle, flag: bool)
    ensures SetFlag(s, h, flag).manual == s.manual
  {
  }

  lemma EventTurnsExact(s: State, call: Call, h: Handle)
    requires call.SetEvent? || call.ResetEvent? || call.ClearEvent? || call.CompleteRequest? || call.WithdrawCompletion?
      || call.AdoptHeader?
    ensures Turns(s, call, h) <==> IsManual(Fire(s, call), h) && !IsManual(s, h)
  {
    var adopts := call.SetEvent? || call.ResetEvent? || call.AdoptHeader?;
    if adopts { AdoptMode(s, call.handle, call.header, h); }
    var s1 := if adopts then Adopt(s, call.handle, call.header) else s;
    FlagMode(s1, call.handle, true);
    FlagMode(s1, call.handle, false);
    hide SetFlag, Adopt;
  }

  lemma MultipleTurnsNone(s: State, handles: seq<Handle>, all: bool, h: Handle)
    ensures IsManual(Fire(s, WaitMultiple(handles, all)), h) <==> IsManual(s, h)
    ensures !Turns(s, WaitMultiple(handles, all), h)
  {
    TakeFirstMode(s, handles, all, h);
    hide TakeFirst;
  }

  lemma OtherTurnsExact(s: State, call: Call, h: Handle)
    requires !call.BeginWait? && !call.Recheck? && !call.Expire?
    ensures Turns(s, call, h) <==> IsManual(Fire(s, call), h) && !IsManual(s, h)
  {
    hide TakeFirst, Fire, Turns;
    if call.WaitMultiple? {
      MultipleTurnsNone(s, call.handles, call.all, h);
    } else if IsObjectCall(call) || IsThreadCall(call) {
      ObjectTurnsExact(s, call, h);
    } else {
      EventTurnsExact(s, call, h);
    }
  }

  /** A call turns an event exactly when the event is manual-reset after it and was not before. */
  lemma TurnsExact(s: State, call: Call, h: Handle)
    ensures Turns(s, call, h) <==> IsManual(Fire(s, call), h) && !IsManual(s, h)
  {
    hide Fire, Turns;
    if call.BeginWait? || call.Recheck? || call.Expire? {
      WaitTurnsExact(s, call, h);
    } else {
      OtherTurnsExact(s, call, h);
    }
  }

  lemma WithoutShorter(q: seq<int>, k: int)
    ensures |Without(q, k)| <= |q|
  {
  }

  lemma LeaveShorter(s: State, t: Thread, h: Handle)
    requires t in s.waits
    ensures |Queue(Leave(s, t), h)| <= |Queue(s, h)|
  {
    var w := s.waits[t];
    LeaveParts(s, t, h);
    if w.ticket.Some? { WithoutShorter(Queue(s, h), w.ticket.value); }
  }

  lemma SatisfyQueue(s: State, t: Thread, h: Handle)
    requires t in s.waits
    ensures Queue(Satisfy(s, t), h) == Queue(Leave(Consume(s, s.waits[t].target), t), h)
    ensures Queue(Consume(s, s.waits[t].target), h) == Queue(s, h)
    ensures |Queue(Satisfy(s, t), h)| <= |Queue(s, h)|
  {
    LeaveShorter(Consume(s, s.waits[t].target), t, h);
    hide Leave, Without;
  }

  lemma CheckShorter(s: State, t: Thread, h: Handle)
    requires t in s.waits
    ensures |Queue(Check(s, t), h)| <= |Queue(s, h)|
  {
    SatisfyQueue(s, t, h);
    hide Satisfy, Ready;
  }

  lemma BeginShorter(s: State, t: Thread, g: Handle, timed: bool, header: int, h: Handle)
    requires t !in s.waits && IsManual(Adopt(s, g, header), h)
    ensures |Queue(Fire(s, BeginWait(t, g, timed, header)), h)| <= |Queue(s, h)|
  {
    var s1 := Adopt(s, g, header);
    EnterParts(s1, t, g, timed, h);
    CheckShorter(Enter(s1, t, g, timed), t, h);
    hide Check, Enter;
  }

  /** Only an auto-reset event gets another ticket. */
  lemma QueueShorter(s: State, call: Call, h: Handle)
    requires IsManual(Fire(s, call), h)
    ensures |Queue(Fire(s, call), h)| <= |Queue(s, h)|
  {
    if call.BeginWait? || call.Recheck? || call.Expire? {
      WaitShorter(s, call, h);
    } else {
      hide TakeFirst, IsManual;
      if call.WaitMultiple? { TakeFirstMode(s, call.handles, call.all, h); }
    }
  }

  lemma WaitShorter(s: State, call: Call, h: Handle)
    requires call.BeginWait? || call.Recheck? || call.Expire?
    requires IsManual(Fire(s, call), h)
    ensures |Queue(Fire(s, call), h)| <= |Queue(s, h)|
  {
    hide Check, Leave, Satisfy, Ready, Adopt, Queue;
    match call
    case BeginWait(t, g, timed, header) =>
      if t !in s.waits {
        CheckMode(Enter(Adopt(s, g, header), t, g, timed), t);
        BeginShorter(s, t, g, timed, header, h);
      }
    case Recheck(t) => if t in s.waits { CheckShorter(s, t, h); }
    case Expire(t) => if t in s.waits { SatisfyQueue(s, t, h); LeaveShorter(s, t, h); }
  }

  lemma QueuesStaySingle(s: State, call: Call)
    requires SingleQueues(s) && Calm(s, call)
    ensures SingleQueues(Fire(s, call))
  {
    hide Fire, IsManual, Queue, Turns;
    forall h: Handle | IsManual(Fire(s, call), h) ensures |Queue(Fire(s, call), h)| <= 1 {
      TurnsExact(s, call, h);
      QueueShorter(s, call, h);
    }
  }

  // ---- No one oversleeps while the queues of manual-reset events are single ----

  lemma StillAllRested(s: State, t: State)
    requires AllRested(s)
    requires forall u | u in t.waits && !t.waits[u].awake && Ready(t, t.waits[u]) ::
      u in s.waits && s.waits[u] == t.waits[u] && Ready(s, s.waits[u])
    ensures AllRested(t)
  {
  }

  lemma NotifyAllRested(s: State)
    ensures AllRested(NotifyWaits(s))
  {
  }

  lemma TwoTickets(q: seq<int>, j: int, k: int)
    requires j in q && k in q && j != k
    ensures |q| >= 2
  {
  }

  /** Two waits with tickets for one event are two places in its queue. */
  lemma TwoWaiters(s: State, u: Thread, v: Thread)
    requires Inv(s) && u in s.waits && v in s.waits && u != v
    requires s.waits[u].ticket.Some? && s.waits[v].ticket.Some? && s.waits[u].target == s.waits[v].target
    ensures |Queue(s, s.waits[u].target)| >= 2
  {
    QueuedOf(s, u);
    QueuedOf(s, v);
    TwoTickets(Queue(s, s.waits[u].target), s.waits[u].ticket.value, s.waits[v].ticket.value);
  }

  lemma LeaveStaysReady(s: State, u: Thread, v: Thread)
    requires Inv(s) && SingleQueues(s) && u in s.waits && v in s.waits && u != v
    requires var w := s.waits[u]; !Ready(s, w) || !Signalled(s, w.target) || IsManual(s, w.target)
    requires Ready(Leave(s, u), s.waits[v])
    ensures Ready(s, s.waits[v])
  {
    var (w, x) := (s.waits[u], s.waits[v]);
    LeaveParts(s, u, x.target);
    if w.ticket.Some? && x.ticket.Some? && w.target == x.target {
      TwoWaiters(s, u, v);
      QueuedOf(s, u);
      assert !IsManual(s, w.target);
      if Queue(s, w.target)[0] != w.ticket.value { WithoutFront(Queue(s, w.target), w.ticket.value); }
    }
    hide Inv, Without, Queue;
  }

  /** Whoever leaves, no one who stays becomes ready behind a signal that stays. */
  lemma LeaveAllRested(s: State, u: Thread)
    requires Inv(s) && AllRested(s) && SingleQueues(s) && u in s.waits
    requires var w := s.waits[u]; !Ready(s, w) || !Signalled(s, w.target) || IsManual(s, w.target)
    ensures AllRested(Leave(s, u))
  {
    forall v | v in Leave(s, u).waits && Ready(Leave(s, u), Leave(s, u).waits[v]) ensures Leave(s, u).waits[v].awake {
      LeaveStaysReady(s, u, v);
    }
  }

  lemma ConsumeFrame(s: State, h: Handle)
    requires Inv(s)
    ensures var t := Consume(s, h);
      && t.waits == s.waits && t.manual == s.manual && t.queues == s.queues
      && (!Signalled(t, h) || IsManual(t, h))
    ensures forall w :: Ready(Consume(s, h), w) ==> Ready(s, w)
  {
  }

  lemma ServeAllRested(s: State, w: Wait)
    requires AllRested(s)
    ensures AllRested(Serve(s, w))
  {
    StillAllRested(s, Serve(s, w));
  }

  lemma SatisfyAllRested(s: State, u: Thread)
    requires Inv(s) && AllRested(s) && SingleQueues(s) && u in s.waits && Ready(s, s.waits[u])
    ensures AllRested(Satisfy(s, u))
  {
    var w := s.waits[u];
    var s1 := Consume(s, w.target);
    ConsumeSound(s, w.target);
    ConsumeAlert(s, w.target);
    ConsumeFrame(s, w.target);
    hide Consume, Sound, Alert;
    StillAllRested(s, s1);
    forall h: Handle | IsManual(s1, h) ensures |Queue(s1, h)| <= 1 { assert Queue(s1, h) == Queue(s, h); }
    LeaveAllRested(s1, u);
    ServeAllRested(Leave(s1, u), w);
  }

  lemma CheckAllRested(s: State, u: Thread)
    requires Inv(s) && AllRested(s) && SingleQueues(s) && u in s.waits
    ensures AllRested(Check(s, u))
  {
    if Ready(s, s.waits[u]) {
      SatisfyAllRested(s, u);
    } else {
      StillAllRested(s, Sleep(s, u));
    }
    hide Satisfy, Inv;
  }

  /** A ticket at the back changes nothing for those in front of it. */
  lemma EnterAllRested(s: State, u: Thread, h: Handle, timed: bool)
    requires Inv(s) && AllRested(s) && u !in s.waits
    ensures AllRested(Enter(s, u, h, timed))
  {
    var t := Enter(s, u, h, timed);
    forall v | v in t.waits && Ready(t, t.waits[v]) ensures t.waits[v].awake {
      if v != u {
        QueuedOf(s, v);
        EnterParts(s, u, h, timed, s.waits[v].target);
        hide Inv, Queue;
      }
    }
  }

  lemma EnterSingle(s: State, u: Thread, h: Handle, timed: bool)
    requires SingleQueues(s)
    ensures SingleQueues(Enter(s, u, h, timed))
  {
    forall g: Handle | IsManual(Enter(s, u, h, timed), g) ensures |Queue(Enter(s, u, h, timed), g)| <= 1 {
      EnterParts(s, u, h, timed, g);
    }
  }

  lemma EnterKeepsInv(s: State, u: Thread, h: Handle, timed: bool)
    requires Inv(s) && u !in s.waits
    ensures Inv(Enter(s, u, h, timed))
  {
    EnterSound(s, u, h, timed);
    EnterAlert(s, u, h, timed);
  }

  lemma AdoptSettled(s: State, h: Handle, header: int)
    requires Settled(s) && (HeaderTurns(s, h, header) ==> |Queue(s, h)| <= 1)
    ensures Settled(Adopt(s, h, header)) && Adopt(s, h, header).waits == s.waits
  {
    var t := Adopt(s, h, header);
    AdoptKeepsInv(s, h, header);
    StillAllRested(s, t);
    hide Inv;
    forall g: Handle | IsManual(t, g) ensures |Queue(t, g)| <= 1 {
      AdoptMode(s, h, header, g);
      assert Queue(t, g) == Queue(s, g);
    }
  }

  lemma BeginAllRested(s: State, u: Thread, h: Handle, timed: bool, header: int)
    requires Settled(s) && u !in s.waits && Calm(s, BeginWait(u, h, timed, header))
    ensures AllRested(Check(Enter(Adopt(s, h, header), u, h, timed), u))
  {
    assert Turns(s, BeginWait(u, h, timed, header), h) <==> HeaderTurns(s, h, header);
    AdoptSettled(s, h, header);
    var s1 := Adopt(s, h, header);
    EnterKeepsInv(s1, u, h, timed);
    EnterAllRested(s1, u, h, timed);
    EnterSingle(s1, u, h, timed);
    hide Inv, Adopt, SingleQueues, AllRested, Check;
    CheckAllRested(Enter(s1, u, h, timed), u);
  }

  lemma WaitAllRested(s: State, call: Call)
    requires Settled(s) && Calm(s, call) && (call.BeginWait? || call.Recheck? || call.Expire?)
    ensures AllRested(Fire(s, call))
  {
    hide Inv, SingleQueues, AllRested, Check, Satisfy, Leave, Enter, Adopt, Ready;
    match call
    case BeginWait(t, h, timed, header) =>
      if t !in s.waits { BeginAllRested(s, t, h, timed, header); }
    case Recheck(t) =>
      if t in s.waits { CheckAllRested(s, t); }
    case Expire(t) =>
      if t in s.waits { if Ready(s, s.waits[t]) { SatisfyAllRested(s, t); } else { LeaveAllRested(s, t); } }
  }

  lemma ClearAllRested(s: State, h: Handle)
    requires AllRested(s)
    ensures AllRested(SetFlag(s, h, false))
  {
    StillAllRested(s, SetFlag(s, h, false));
  }

  lemma EventAllRested(s: State, call: Call)
    requires AllRested(s)
    requires call.SetEvent? || call.ResetEvent? || call.ClearEvent? || call.CompleteRequest? || call.WithdrawCompletion?
      || call.AdoptHeader?
    ensures AllRested(Fire(s, call))
  {
    if call.ResetEvent? || call.AdoptHeader? { StillAllRested(s, Adopt(s, call.handle, call.header)); }
    hide SetFlag, Adopt, AllRested;
    match call
    case SetEvent(h, header) => NotifyAllRested(SetFlag(Adopt(s, h, header), h, true));
    case ResetEvent(h, header) => ClearAllRested(Adopt(s, h, header), h);
    case ClearEvent(h) => ClearAllRested(s, h);
    case CompleteRequest(h) => NotifyAllRested(SetFlag(s, h, true));
    case WithdrawCompletion(h) => NotifyAllRested(SetFlag(s, h, false));
    case AdoptHeader(h, header) =>
  }

  lemma TakeFirstAllRested(s: State, handles: seq<Handle>, all: bool)
    requires AllRested(s)
    ensures AllRested(Fire(s, WaitMultiple(handles, all)))
  {
    var first := FirstSignalled(s, handles);
    if first.Some? { ClearAllRested(s, first.value); }
    hide SetFlag, AllRested, FirstSignalled;
  }

  /** A handle that no one waits on can become a new object in any state. */
  lemma ObjectAllRested(s: State, call: Call)
    requires AllRested(s) && Proper(s, call)
    requires IsObjectCall(call)
    ensures AllRested(Fire(s, call))
  {
    if call.ReleaseSemaphore? {
      NotifyAllRested(AddCount(s, call.handle, call.adjustment));
      hide AddCount;
    } else {
      StillAllRested(s, Fire(s, call));
    }
  }

  lemma ExitAllRested(s: State, h: Handle)
    ensures AllRested(Exit(s, h))
  {
    NotifyAllRested(SetFlag(s, h, true));
    StillAllRested(Signal(s, h), Exit(s, h));
  }

  lemma ThreadAllRested(s: State, call: Call)
    requires AllRested(s) && IsThreadCall(call)
    ensures AllRested(Fire(s, call))
  {
    if call.ExitThread? {
      ExitAllRested(s, call.handle);
      hide AllRested;
    } else {
      hide Exit;
      StillAllRested(s, Fire(s, call));
    }
  }

  lemma FireSettled(s: State, call: Call)
    requires Settled(s) && Proper(s, call) && Calm(s, call)
    ensures Settled(Fire(s, call))
  {
    hide Inv, AllRested, SingleQueues, Calm, Fire, Proper;
    FireKeepsInv(s, call);
    QueuesStaySingle(s, call);
    if call.BeginWait? || call.Recheck? || call.Expire? {
      WaitAllRested(s, call);
    } else if call.WaitMultiple? {
      TakeFirstAllRested(s, call.handles, call.all);
    } else if IsThreadCall(call) {
      ThreadAllRested(s, call);
    } else if IsObjectCall(call) {
      ObjectAllRested(s, call);
    } else {
      EventAllRested(s, call);
    }
  }

  /** While no event turns manual-reset above two tickets, no thread oversleeps, whatever the modes. */
  lemma {:induction false} CalmRunSettled(s: State, calls: seq<Call>)
    requires Settled(s) && CalmRun(s, calls)
    ensures Settled(Run(s, calls))
    decreases |calls|
  {
    hide Settled, Fire, Proper, Calm;
    if calls != [] {
      FireSettled(s, calls[0]);
      CalmRunSettled(Fire(s, calls[0]), calls[1..]);
    }
  }

  lemma EveryCalmRun(semaphoreHandles: set<Handle>, calls: seq<Call>)
    requires CalmRun(Initial(semaphoreHandles), calls)
    ensures Settled(Run(Initial(semaphoreHandles), calls))
  {
    InitialInv(semaphoreHandles);
    CalmRunSettled(Initial(semaphoreHandles), calls);
  }

  // ---- Exactly when a wakeup can be lost ----

  /** The thread that waits with the second ticket of an event. */
  ghost function Second(s: State, h: Handle): (t: Thread)
    requires Inv(s) && |Queue(s, h)| >= 2
    ensures t in s.waits && s.waits[t].target == h && s.waits[t].ticket == Some(Queue(s, h)[1]) && t != Front(s, h)
  {
    assert Held(s, h, Queue(s, h)[1]);
    ServedInOrder(s, h);
    s.owner[Queue(s, h)[1]]
  }

  /** The second looks before the first has left, and then sleeps on a signal that stays. */
  ghost function Overtaken(s: State, h: Handle): seq<Call>
    requires Inv(s) && |Queue(s, h)| >= 2
  {
    [SetEvent(h, 5), Recheck(Second(s, h)), Recheck(Front(s, h))]
  }

  lemma AfterSet(s: State, h: Handle)
    requires Inv(s) && IsManual(s, h) && |Queue(s, h)| >= 2
    ensures var t := Fire(s, SetEvent(h, 5));
      && Inv(t) && Proper(s, SetEvent(h, 5)) && Calm(s, SetEvent(h, 5))
      && Signalled(t, h) && IsManual(t, h) && Queue(t, h) == Queue(s, h)
      && Front(t, h) == Front(s, h) && Second(t, h) == Second(s, h)
  {
    QueuedOf(s, Front(s, h));
    FireKeepsInv(s, SetEvent(h, 5));
  }

  lemma SecondSleeps(s: State, h: Handle)
    requires Inv(s) && Signalled(s, h) && IsManual(s, h) && |Queue(s, h)| >= 2
    ensures Fire(s, Recheck(Second(s, h))) == Sleep(s, Second(s, h))
    ensures var t := Sleep(s, Second(s, h));
      Inv(t) && Front(t, h) == Front(s, h)
  {
    OthersStandBack(s, Second(s, h));
    FireKeepsInv(s, Recheck(Second(s, h)));
  }

  lemma FirstLeavesSecond(s: State, h: Handle)
    requires Inv(s) && Signalled(s, h) && IsManual(s, h) && |Queue(s, h)| >= 2
    ensures var t := Fire(s, Recheck(Front(s, h)));
      && Second(s, h) in t.waits && t.waits[Second(s, h)] == s.waits[Second(s, h)]
      && Ready(t, t.waits[Second(s, h)])
  {
    var u := Front(s, h);
    assert Ready(s, s.waits[u]);
    assert Queue(Satisfy(s, u), h) == Queue(s, h)[1..];
  }

  lemma LosesFrom(s: State, h: Handle)
    requires Inv(s) && IsManual(s, h) && |Queue(s, h)| >= 2
    ensures CalmRun(s, Overtaken(s, h)) && !AllRested(Run(s, Overtaken(s, h)))
  {
    var (u, v) := (Front(s, h), Second(s, h));
    AfterSet(s, h);
    var s1 := Fire(s, SetEvent(h, 5));
    SecondSleeps(s1, h);
    var s2 := Fire(s1, Recheck(v));
    FirstLeavesSecond(s2, h);
    var s3 := Fire(s2, Recheck(u));
    assert !AllRested(s3);
    RunOfThree(s, SetEvent(h, 5), Recheck(v), Recheck(u));
  }

  lemma RunOfThree(s: State, c1: Call, c2: Call, c3: Call)
    requires Proper(s, c1) && Calm(s, c1) && c2.Recheck? && c3.Recheck?
    ensures CalmRun(s, [c1, c2, c3])
    ensures Run(s, [c1, c2, c3]) == Fire(Fire(Fire(s, c1), c2), c3)
  {
    hide Fire;
    var s1 := Fire(s, c1);
    var s2 := Fire(s1, c2);
    assert [c1, c2, c3][1..] == [c2, c3] && [c2, c3][1..] == [c3] && [c3][1..] == [];
    assert Calm(s1, c2) && Calm(s2, c3);
    assert CalmRun(s2, [c3]) && Run(s2, [c3]) == Fire(s2, c3);
    assert CalmRun(s1, [c2, c3]) && Run(s1, [c2, c3]) == Run(s2, [c3]);
  }

  /** From a state without oversleepers one is reachable exactly when two tickets stand behind a manual-reset event. */
  lemma LosesIff(s: State)
    requires Inv(s) && AllRested(s)
    ensures (exists calls :: CalmRun(s, calls) && !AllRested(Run(s, calls))) <==> !SingleQueues(s)
  {
    hide Inv, AllRested, CalmRun, Run;
    if SingleQueues(s) {
      forall calls | CalmRun(s, calls) ensures AllRested(Run(s, calls)) { CalmRunSettled(s, calls); }
    } else {
      var h: Handle :| IsManual(s, h) && |Queue(s, h)| > 1;
      LosesFrom(s, h);
    }
  }

  lemma OnlyTurn(s: State, call: Call, g: Handle, h: Handle)
    requires Turns(s, call, g) && Turns(s, call, h)
    ensures g == h
  {
  }

  lemma TicketlessKeepsQueue(s: State, t: Thread, h: Handle)
    requires t in s.waits && s.waits[t].ticket.None?
    ensures Queue(Check(s, t), h) == Queue(s, h)
  {
    SatisfyQueue(s, t, h);
    LeaveParts(Consume(s, s.waits[t].target), t, h);
    hide Satisfy, Leave, Consume, Ready;
  }

  lemma BeginTurnKeepsQueue(s: State, t: Thread, h: Handle, timed: bool, header: int)
    requires t !in s.waits && HeaderTurns(s, h, header)
    ensures Queue(Check(Enter(Adopt(s, h, header), t, h, timed), t), h) == Queue(s, h)
  {
    var s1 := Adopt(s, h, header);
    AdoptMode(s, h, header, h);
    TicketlessKeepsQueue(Enter(s1, t, h, timed), t, h);
    EnterParts(s1, t, h, timed, h);
    hide Check;
  }

  lemma TurnKeepsQueue(s: State, call: Call, h: Handle)
    requires Turns(s, call, h)
    ensures Queue(Fire(s, call), h) == Queue(s, h)
  {
    hide Check, Enter;
    if call.BeginWait? { BeginTurnKeepsQueue(s, call.thread, h, call.timed, call.header); }
  }

  /**
   A call that makes a manual-reset event of one that was not can leave a ready thread asleep
   exactly when at least two tickets are queued for the event at that moment.
   */
  lemma TurnLosesIff(s: State, call: Call, h: Handle)
    requires Settled(s) && Proper(s, call) && Turns(s, call, h)
    ensures (exists calls :: CalmRun(Fire(s, call), calls) && !AllRested(Run(Fire(s, call), calls)))
       <==> |Queue(s, h)| >= 2
  {
    var t := Fire(s, call);
    FireKeepsInv(s, call);
    TurnsExact(s, call, h);
    hide Fire, Inv, AllRested, CalmRun, Run, Turns, Queue, Proper;
    if |Queue(s, h)| >= 2 {
      TurnKeepsQueue(s, call, h);
      LosesFrom(t, h);
    } else {
      forall g: Handle | Turns(s, call, g) ensures |Queue(s, g)| <= 1 { OnlyTurn(s, call, g, h); }
      FireSettled(s, call);
      forall calls | CalmRun(t, calls) ensures AllRested(Run(t, calls)) { CalmRunSettled(t, calls); }
    }
  }

  // ---- How many waits a signal ends ----

  /** The wait is satisfied by the signal of an auto-reset event. */
  predicate TakesSignal(s: State, t: Thread, h: Handle)
    requires t in s.waits
  {
    s.waits[t].target == h && Ready(s, s.waits[t]) && TakesTicket(s, h)
  }

  /** The call ends a single-object wait for an auto-reset event by giving it the signal. */
  predicate Releases(s: State, call: Call, h: Handle) {
    match call
    case BeginWait(t, g, timed, header) => t !in s.waits && TakesSignal(Enter(Adopt(s, g, header), t, g, timed), t, h)
    case Recheck(t) => t in s.waits && TakesSignal(s, t, h)
    case Expire(t) => t in s.waits && s.waits[t].timed && TakesSignal(s, t, h)
    case _ => false
  }

  /** The event becomes signalled with the call. */
  predicate Rises(s: State, call: Call, h: Handle) {
    !Signalled(s, h) && Signalled(Fire(s, call), h)
  }

  function Released(s: State, calls: seq<Call>, h: Handle): nat
    decreases |calls|
  {
    if calls == [] then 0
    else (if Releases(s, calls[0], h) then 1 else 0) + Released(Fire(s, calls[0]), calls[1..], h)
  }

  function Risen(s: State, calls: seq<Call>, h: Handle): nat
    decreases |calls|
  {
    if calls == [] then 0
    else (if Rises(s, calls[0], h) then 1 else 0) + Risen(Fire(s, calls[0]), calls[1..], h)
  }

  function Standing(s: State, h: Handle): nat {
    if Signalled(s, h) then 1 else 0
  }

  lemma SatisfyParts(s: State, t: Thread)
    requires t in s.waits
    ensures var after := Satisfy(s, t);
      var c := Consume(s, s.waits[t].target);
      && after.events == c.events && after.ledger == c.ledger && after.semaphoreHandles == s.semaphoreHandles
      && after.waits == s.waits - {t}
  {
    var c := Consume(s, s.waits[t].target);
    assert c.waits == s.waits && c.semaphoreHandles == s.semaphoreHandles;
    hide Consume;
    LeaveParts(c, t, s.waits[t].target);
    assert Leave(c, t).events == c.events && Leave(c, t).ledger == c.ledger;
    hide Leave;
  }

  /** A wait that takes the signal ends with it, and leaves nothing for another. */
  lemma SatisfyReleases(s: State, t: Thread, h: Handle)
    requires Inv(s) && t in s.waits && h !in s.semaphoreHandles && Ready(s, s.waits[t])
    ensures TakesSignal(s, t, h) ==> Signalled(s, h) && !Signalled(Satisfy(s, t), h) && t !in Satisfy(s, t).waits
    ensures Entry(Satisfy(s, t), h).taken == Entry(s, h).taken + (if TakesSignal(s, t, h) then 1 else 0)
    ensures Entry(Satisfy(s, t), h).rises == Entry(s, h).rises && (Signalled(Satisfy(s, t), h) ==> Signalled(s, h))
  {
    SatisfyParts(s, t);
    hide Satisfy, Lined, Accounted, Alert;
  }

  /** What a call does to the signal and the record of one event. */
  ghost predicate Told(s: State, t: State, h: Handle, taken: bool) {
    && Entry(t, h).taken == Entry(s, h).taken + (if taken then 1 else 0)
    && Entry(t, h).rises == Entry(s, h).rises + (if !Signalled(s, h) && Signalled(t, h) then 1 else 0)
    && (taken ==> Signalled(s, h) && !Signalled(t, h))
    && t.semaphoreHandles == s.semaphoreHandles
  }

  /** Told depends on nothing but the signals, the record and the kinds of the handles. */
  ghost predicate SameRecord(s: State, t: State) {
    t.events == s.events && t.ledger == s.ledger && t.semaphoreHandles == s.semaphoreHandles
  }

  lemma ToldFrom(s: State, s1: State, t: State, h: Handle, taken: bool)
    requires SameRecord(s, s1) && Told(s1, t, h, taken)
    ensures Told(s, t, h, taken)
  {
  }

  lemma SilentTold(s: State, t: State, h: Handle)
    requires SameRecord(s, t)
    ensures Told(s, t, h, false)
  {
  }

  lemma SatisfyTold(s: State, t: Thread, h: Handle)
    requires Inv(s) && t in s.waits && h !in s.semaphoreHandles && Ready(s, s.waits[t])
    ensures Told(s, Satisfy(s, t), h, TakesSignal(s, t, h))
  {
    SatisfyReleases(s, t, h);
    SatisfyParts(s, t);
    hide Inv, Satisfy, Ready, Consume, TakesSignal;
  }

  lemma CheckTold(s: State, t: Thread, h: Handle)
    requires Inv(s) && t in s.waits && h !in s.semaphoreHandles
    ensures Told(s, Check(s, t), h, TakesSignal(s, t, h))
  {
    if Ready(s, s.waits[t]) {
      SatisfyTold(s, t, h);
    } else {
      SilentTold(s, Sleep(s, t), h);
    }
    hide Inv, Satisfy, Ready, Told;
  }

  lemma GiveUpTold(s: State, t: Thread, h: Handle)
    requires t in s.waits
    ensures Told(s, Leave(s, t), h, false)
  {
    assert SameRecord(s, Leave(s, t));
    hide Leave;
  }

  lemma ExpireTold(s: State, t: Thread, h: Handle)
    requires Inv(s) && t in s.waits && s.waits[t].timed && h !in s.semaphoreHandles
    ensures Told(s, Fire(s, Expire(t)), h, TakesSignal(s, t, h))
  {
    CheckTold(s, t, h);
    GiveUpTold(s, t, h);
    hide Inv, Satisfy, Ready, Leave, Told;
  }

  lemma EnterRecord(s: State, t: Thread, g: Handle, timed: bool, header: int)
    ensures SameRecord(s, Enter(Adopt(s, g, header), t, g, timed))
  {
  }

  lemma BeginTold(s: State, t: Thread, g: Handle, timed: bool, header: int, h: Handle)
    requires Inv(s) && t !in s.waits && h !in s.semaphoreHandles
    ensures var s1 := Enter(Adopt(s, g, header), t, g, timed);
      Told(s, Check(s1, t), h, TakesSignal(s1, t, h))
  {
    AdoptKeepsInv(s, g, header);
    EnterKeepsInv(Adopt(s, g, header), t, g, timed);
    EnterRecord(s, t, g, timed, header);
    var s1 := Enter(Adopt(s, g, header), t, g, timed);
    assert t in s1.waits;
    hide Adopt, Enter, Inv, TakesSignal, Check, Told;
    CheckTold(s1, t, h);
    ToldFrom(s, s1, Check(s1, t), h, TakesSignal(s1, t, h));
  }

  lemma WaitTold(s: State, call: Call, h: Handle)
    requires Inv(s) && h !in s.semaphoreHandles && (call.BeginWait? || call.Recheck? || call.Expire?)
    ensures Told(s, Fire(s, call), h, Releases(s, call, h))
  {
    hide Check, TakesSignal, Enter, Adopt, Satisfy, Leave, Ready, Inv;
    match call
    case BeginWait(t, g, timed, header) => if t !in s.waits { BeginTold(s, t, g, timed, header, h); }
    case Recheck(t) => if t in s.waits { CheckTold(s, t, h); }
    case Expire(t) => if t in s.waits && s.waits[t].timed { ExpireTold(s, t, h); }
  }

  lemma FlagTold(s: State, g: Handle, flag: bool, h: Handle)
    ensures Told(s, SetFlag(s, g, flag), h, false)
  {
  }

  lemma TakeFirstTold(s: State, handles: seq<Handle>, all: bool, h: Handle)
    ensures Told(s, TakeFirst(s, handles, all), h, false)
  {
    var first := FirstSignalled(s, handles);
    if first.Some? { FlagTold(s, first.value, false, h); }
    hide SetFlag, FirstSignalled;
  }

  lemma ToldAs(s: State, t: State, t': State, h: Handle)
    requires SameRecord(t, t') && Told(s, t, h, false)
    ensures Told(s, t', h, false)
  {
  }

  predicate SetsFlag(call: Call) {
    call.SetEvent? || call.ResetEvent? || call.ClearEvent? || call.CompleteRequest? || call.WithdrawCompletion?
    || call.CreateEvent? || call.ExitThread?
  }

  function FlagSet(call: Call): bool
    requires SetsFlag(call)
  {
    call.SetEvent? || call.CompleteRequest? || call.ExitThread? || (call.CreateEvent? && call.initial)
  }

  lemma FlagAs(s: State, t: State, h: Handle, flag: bool)
    requires SameRecord(s, t)
    ensures SameRecord(SetFlag(s, h, flag), SetFlag(t, h, flag))
  {
  }

  lemma FlagOfHeader(s: State, call: Call)
    requires call.SetEvent? || call.ResetEvent?
    ensures SameRecord(SetFlag(s, call.handle, FlagSet(call)), Fire(s, call))
  {
    var s1 := Adopt(s, call.handle, call.header);
    FlagAs(s, s1, call.handle, FlagSet(call));
    hide Adopt, SetFlag;
  }

  lemma FlagOfObject(s: State, call: Call)
    requires call.CreateEvent? || call.ExitThread?
    ensures SameRecord(SetFlag(s, call.handle, FlagSet(call)), Fire(s, call))
  {
    hide SetFlag;
  }

  /** The calls that write an event's flag, without what else they do. */
  lemma FlagOf(s: State, call: Call)
    requires SetsFlag(call)
    ensures SameRecord(SetFlag(s, call.handle, FlagSet(call)), Fire(s, call))
  {
    hide SetFlag, SameRecord;
    if call.SetEvent? || call.ResetEvent? {
      FlagOfHeader(s, call);
    } else if call.CreateEvent? || call.ExitThread? {
      FlagOfObject(s, call);
    } else {
      FlagOfRequest(s, call);
    }
  }

  lemma FlagOfRequest(s: State, call: Call)
    requires call.ClearEvent? || call.CompleteRequest? || call.WithdrawCompletion?
    ensures SameRecord(SetFlag(s, call.handle, FlagSet(call)), Fire(s, call))
  {
    hide SetFlag;
  }

  lemma EventTold(s: State, call: Call, h: Handle)
    requires SetsFlag(call)
    ensures Told(s, Fire(s, call), h, false)
  {
    hide Told, Fire, SetFlag;
    FlagOf(s, call);
    FlagTold(s, call.handle, FlagSet(call), h);
    ToldAs(s, SetFlag(s, call.handle, FlagSet(call)), Fire(s, call), h);
  }

  lemma CloseTold(s: State, g: Handle, h: Handle)
    ensures Told(s, Close(s, g), h, false)
  {
  }

  lemma SilentCall(s: State, call: Call)
    requires !call.BeginWait? && !call.Recheck? && !call.Expire? && !SetsFlag(call) && !call.CloseHandle?
      && !call.WaitMultiple?
    ensures SameRecord(s, Fire(s, call))
  {
  }

  lemma FireTold(s: State, call: Call, h: Handle)
    requires Inv(s) && h !in s.semaphoreHandles
    ensures Told(s, Fire(s, call), h, Releases(s, call, h))
  {
    hide Told, Inv, SetsFlag, SameRecord, Close, TakeFirst;
    if call.BeginWait? || call.Recheck? || call.Expire? {
      WaitTold(s, call, h);
    } else if SetsFlag(call) {
      EventTold(s, call, h);
    } else if call.CloseHandle? {
      CloseTold(s, call.handle, h);
    } else if call.WaitMultiple? {
      TakeFirstTold(s, call.handles, call.all, h);
    } else {
      SilentCall(s, call);
      SilentTold(s, Fire(s, call), h);
    }
  }

  /** Over a run, the record of an event counts the waits that its signal ended and the times it became signalled. */
  lemma {:induction false} RunTold(s: State, calls: seq<Call>, h: Handle)
    requires Inv(s) && h !in s.semaphoreHandles && ProperRun(s, calls)
    ensures var t := Run(s, calls);
      && Entry(t, h).taken == Entry(s, h).taken + Released(s, calls, h)
      && Entry(t, h).rises == Entry(s, h).rises + Risen(s, calls, h)
      && Released(s, calls, h) + Standing(t, h) <= Risen(s, calls, h) + Standing(s, h)
    decreases |calls|
  {
    if calls != [] {
      FireKeepsInv(s, calls[0]);
      FireTold(s, calls[0], h);
      hide Fire, Inv, Proper, Releases;
      RunTold(Fire(s, calls[0]), calls[1..], h);
    }
  }

  /** No auto-reset event ends more single-object waits in a run than it became signalled times. */
  lemma ReleasesWithinRises(semaphoreHandles: set<Handle>, calls: seq<Call>, h: Handle)
    requires ProperRun(Initial(semaphoreHandles), calls) && h !in semaphoreHandles
    ensures var s := Initial(semaphoreHandles);
      var e := Entry(Run(s, calls), h);
      && Released(s, calls, h) + Standing(Run(s, calls), h) <= Risen(s, calls, h)
      && Released(s, calls, h) + e.cleared + Standing(Run(s, calls), h) == Risen(s, calls, h)
  {
    var s := Initial(semaphoreHandles);
    InitialInv(semaphoreHandles);
    RunTold(s, calls, h);
    RunKeepsInv(s, calls);
    hide Run, Released, Risen, Lined, Alert;
    assert Balanced(Run(s, calls), h);
  }
}
