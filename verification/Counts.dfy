/**
 What semaphores and suspended threads count. A count only moves by releases and by the waits that
 end on it, so that a semaphore lets through exactly as many waits as it was given counts; a thread
 that was suspended several times starts only after as many resumes.
 */
module Counts {
  import opened Words
  import opened Dispatcher

  /** The count of a semaphore; none for a handle that is not one now. */
  function Count(s: State, h: Handle): int {
    if h in s.semaphores then s.semaphores[h] else 0
  }

  /** What a call gives to a semaphore: a release at least one count, but no more than its limit leaves room for. */
  function Given(s: State, call: Call, h: Handle): int {
    match call
    case CreateSemaphore(g, count, _) => if g == h then count - Count(s, h) else 0
    case CloseHandle(g) => if g == h then -Count(s, h) else 0
    case ReleaseSemaphore(g, adjustment) =>
      if g != h then 0
      else
        var more := if adjustment < 1 then 1 else adjustment;
        var room := (if h in s.limits then s.limits[h] else 0x7FFF_FFFF) - Count(s, h);
        if more <= room then more else room
    case _ => 0
  }

  /** The call ends a wait on the semaphore: it has a count at the thread's look. */
  predicate Acquires(s: State, call: Call, h: Handle) {
    Count(s, h) > 0 &&
    match call
    case BeginWait(t, g, _, _) => g == h && t !in s.waits
    case Recheck(t) => t in s.waits && s.waits[t].target == h
    case Expire(t) => t in s.waits && s.waits[t].timed && s.waits[t].target == h
    case _ => false
  }

  function Acquired(s: State, calls: seq<Call>, h: Handle): nat
    decreases |calls|
  {
    if calls == [] then 0
    else (if Acquires(s, calls[0], h) then 1 else 0) + Acquired(Fire(s, calls[0]), calls[1..], h)
  }

  function AllGiven(s: State, calls: seq<Call>, h: Handle): int
    decreases |calls|
  {
    if calls == [] then 0 else Given(s, calls[0], h) + AllGiven(Fire(s, calls[0]), calls[1..], h)
  }

  // ---- One call ----

  ghost predicate Moved(s: State, t: State, h: Handle, given: int, acquired: bool) {
    && Count(t, h) == Count(s, h) + given - (if acquired then 1 else 0)
    && t.semaphoreHandles == s.semaphoreHandles
  }

  lemma SatisfyParts(s: State, t: Thread)
    requires t in s.waits
    ensures var after := Satisfy(s, t);
      after.semaphores == Consume(s, s.waits[t].target).semaphores && after.semaphoreHandles == s.semaphoreHandles
      && after.waits == s.waits - {t}
  {
    var c := Consume(s, s.waits[t].target);
    assert c.waits == s.waits && c.semaphoreHandles == s.semaphoreHandles;
    hide Consume;
    LeaveParts(c, t, s.waits[t].target);
    assert Leave(c, t).semaphores == c.semaphores;
    hide Leave;
  }

  /** On a semaphore a wait is ready exactly when there is a count. */
  lemma ReadyByCount(s: State, w: Wait)
    requires Inv(s) && w.target in s.semaphoreHandles
    ensures Ready(s, w) <==> Count(s, w.target) > 0
  {
    hide Lined, Accounted, Alert;
  }

  lemma ReadyElsewhere(s: State, w: Wait, h: Handle)
    requires Inv(s) && h in s.semaphoreHandles && w.target != h
    ensures Count(Consume(s, w.target), h) == Count(s, h)
  {
    hide Lined, Accounted, Alert;
  }

  lemma SatisfyMoves(s: State, t: Thread, h: Handle)
    requires Inv(s) && t in s.waits && h in s.semaphoreHandles && Ready(s, s.waits[t])
    ensures Moved(s, Satisfy(s, t), h, 0, s.waits[t].target == h && Count(s, h) > 0)
    ensures t !in Satisfy(s, t).waits && (s.waits[t].target == h ==> Count(s, h) > 0)
  {
    SatisfyParts(s, t);
    var w := s.waits[t];
    if w.target == h { ReadyByCount(s, w); } else { ReadyElsewhere(s, w, h); }
    hide Satisfy, Ready, Inv;
  }

  /** A call that leaves all counts alone. */
  lemma Unmoved(s: State, t: State, h: Handle)
    requires t.semaphores == s.semaphores && t.semaphoreHandles == s.semaphoreHandles
    ensures Moved(s, t, h, 0, false)
  {
  }

  lemma StaysWaiting(s: State, t: Thread, h: Handle)
    requires Inv(s) && t in s.waits && h in s.semaphoreHandles && !Ready(s, s.waits[t])
    ensures s.waits[t].target == h ==> Count(s, h) <= 0
    ensures t in Sleep(s, t).waits && Moved(s, Sleep(s, t), h, 0, false)
  {
    if s.waits[t].target == h { ReadyByCount(s, s.waits[t]); }
    SleepUnmoved(s, t, h);
    hide Inv, Ready, Sleep, Moved;
  }

  lemma SleepUnmoved(s: State, t: Thread, h: Handle)
    requires t in s.waits
    ensures t in Sleep(s, t).waits && Moved(s, Sleep(s, t), h, 0, false)
  {
    Unmoved(s, Sleep(s, t), h);
    hide Moved;
  }

  lemma CheckMoves(s: State, t: Thread, h: Handle)
    requires Inv(s) && t in s.waits && h in s.semaphoreHandles
    ensures Moved(s, Check(s, t), h, 0, s.waits[t].target == h && Count(s, h) > 0)
    ensures s.waits[t].target == h ==> (Count(s, h) > 0 <==> t !in Check(s, t).waits)
  {
    hide Satisfy, Sleep, Ready, Inv, Moved, Count;
    if Ready(s, s.waits[t]) { SatisfyMoves(s, t, h); } else { StaysWaiting(s, t, h); }
  }

  lemma ExpireMoves(s: State, t: Thread, h: Handle)
    requires Inv(s) && t in s.waits && s.waits[t].timed && h in s.semaphoreHandles
    ensures Moved(s, Fire(s, Expire(t)), h, 0, s.waits[t].target == h && Count(s, h) > 0)
  {
    hide Satisfy, Leave, Sleep, Ready, Inv, Moved, Count;
    if Ready(s, s.waits[t]) {
      SatisfyMoves(s, t, h);
    } else {
      StaysWaiting(s, t, h);
      LeaveUnmoved(s, t, h);
    }
  }

  lemma LeaveUnmoved(s: State, t: Thread, h: Handle)
    requires t in s.waits
    ensures Moved(s, Leave(s, t), h, 0, false)
  {
    Unmoved(s, Leave(s, t), h);
    hide Without;
  }

  lemma EntersAlike(s: State, t: Thread, g: Handle, timed: bool, header: int)
    requires Inv(s) && t !in s.waits
    ensures var s1 := Enter(Adopt(s, g, header), t, g, timed);
      && Inv(s1) && t in s1.waits && s1.waits[t].target == g
      && s1.semaphores == s.semaphores && s1.semaphoreHandles == s.semaphoreHandles
  {
    AdoptKeepsInv(s, g, header);
    EnterSound(Adopt(s, g, header), t, g, timed);
    EnterAlert(Adopt(s, g, header), t, g, timed);
    hide Lined, Accounted, Alert;
  }

  lemma BeginMoves(s: State, t: Thread, g: Handle, timed: bool, header: int, h: Handle)
    requires Inv(s) && t !in s.waits && h in s.semaphoreHandles
    ensures var after := Fire(s, BeginWait(t, g, timed, header));
      Moved(s, after, h, 0, g == h && Count(s, h) > 0) && (g == h ==> (Count(s, h) > 0 <==> t !in after.waits))
  {
    EntersAlike(s, t, g, timed, header);
    hide Enter, Adopt, Check, Inv;
    CheckMoves(Enter(Adopt(s, g, header), t, g, timed), t, h);
  }

  lemma WaitMoves(s: State, call: Call, h: Handle)
    requires Inv(s) && h in s.semaphoreHandles && (call.BeginWait? || call.Recheck? || call.Expire?)
    ensures Moved(s, Fire(s, call), h, 0, Acquires(s, call, h))
  {
    hide Check, Enter, Adopt, Satisfy, Leave, Ready, Inv, Moved, Count;
    SelfUnmoved(s, h);
    match call
    case BeginWait(t, g, timed, header) => if t !in s.waits { BeginMoves(s, t, g, timed, header, h); }
    case Recheck(t) => if t in s.waits { CheckMoves(s, t, h); }
    case Expire(t) => if t in s.waits && s.waits[t].timed { ExpireMoves(s, t, h); }
  }

  lemma SelfUnmoved(s: State, h: Handle)
    ensures Moved(s, s, h, 0, false)
  {
  }

  lemma GivenMoves(s: State, call: Call, h: Handle)
    requires call.CreateSemaphore? || call.ReleaseSemaphore? || call.CloseHandle?
    ensures Moved(s, Fire(s, call), h, Given(s, call, h), false)
  {
  }

  lemma OtherMoves(s: State, call: Call, h: Handle)
    requires !call.BeginWait? && !call.Recheck? && !call.Expire?
    requires !call.CreateSemaphore? && !call.ReleaseSemaphore? && !call.CloseHandle?
    ensures Moved(s, Fire(s, call), h, 0, false)
  {
    TakeFirstAlike(s, if call.WaitMultiple? then call.handles else [], call.WaitMultiple? && call.all);
    hide TakeFirst, Entry;
    Unmoved(s, Fire(s, call), h);
  }

  lemma TakeFirstAlike(s: State, handles: seq<Handle>, all: bool)
    ensures var t := TakeFirst(s, handles, all);
      t.semaphores == s.semaphores && t.semaphoreHandles == s.semaphoreHandles
  {
    hide FirstSignalled, Entry;
  }

  lemma FireMoves(s: State, call: Call, h: Handle)
    requires Inv(s) && h in s.semaphoreHandles
    ensures Moved(s, Fire(s, call), h, Given(s, call, h), Acquires(s, call, h))
  {
    hide Fire, Moved, Inv, Count;
    if call.BeginWait? || call.Recheck? || call.Expire? {
      WaitMoves(s, call, h);
    } else if call.CreateSemaphore? || call.ReleaseSemaphore? || call.CloseHandle? {
      GivenMoves(s, call, h);
    } else {
      OtherMoves(s, call, h);
    }
  }

  /** The thread whose wait a semaphore ends is gone; one that looks at no count stays. */
  lemma AcquiresEnds(s: State, call: Call, h: Handle)
    requires Inv(s) && h in s.semaphoreHandles && (call.BeginWait? || call.Recheck?)
    requires if call.BeginWait? then call.handle == h && call.thread !in s.waits
             else call.thread in s.waits && s.waits[call.thread].target == h
    ensures Acquires(s, call, h) <==> call.thread !in Fire(s, call).waits
  {
    hide Check, Enter, Adopt, Inv, Count;
    if call.BeginWait? {
      BeginMoves(s, call.thread, h, call.timed, call.header, h);
    } else {
      CheckMoves(s, call.thread, h);
    }
  }

  function LimitOf(s: State, h: Handle): Option<int> {
    if h in s.limits then Some(s.limits[h]) else None
  }

  function LimitAfter(s: State, call: Call, h: Handle): Option<int> {
    match call
    case CreateSemaphore(g, _, limit) => if g != h then LimitOf(s, h) else Some(if limit < 1 then 1 else limit)
    case CloseHandle(g) => if g == h then None else LimitOf(s, h)
    case _ => LimitOf(s, h)
  }

  /** A limit is at least 1, and stays from the semaphore's creation until its handle is closed. */
  lemma LimitFollows(s: State, call: Call, h: Handle)
    ensures LimitOf(Fire(s, call), h) == LimitAfter(s, call, h)
  {
    hide Fire;
    if call.BeginWait? || call.Recheck? || call.Expire? {
      WaitKeepsObjects(s, call);
    } else if Flags(call) {
      FlagsKeep(s, call);
    } else if call.CreateSemaphore? || call.CloseHandle? {
      ObjectLimits(s, call, h);
    } else {
      RestKeeps(s, call);
    }
  }

  lemma ObjectLimits(s: State, call: Call, h: Handle)
    requires call.CreateSemaphore? || call.CloseHandle?
    ensures LimitOf(Fire(s, call), h) == LimitAfter(s, call, h)
  {
    hide Entry;
  }

  lemma RestKeeps(s: State, call: Call)
    requires !call.BeginWait? && !call.Recheck? && !call.Expire? && !Flags(call)
    requires !call.CreateSemaphore? && !call.CloseHandle?
    ensures Fire(s, call).limits == s.limits
  {
    hide TakeFirst, Entry;
    TakeFirstLimits(s, if call.WaitMultiple? then call.handles else [], call.WaitMultiple? && call.all);
  }

  /** The calls that set or reset a flag. */
  predicate Flags(call: Call) {
    || call.SetEvent? || call.ResetEvent? || call.ClearEvent? || call.CompleteRequest? || call.WithdrawCompletion?
    || call.CreateEvent? || call.ExitThread?
  }

  lemma FlagsKeep(s: State, call: Call)
    requires Flags(call)
    ensures Fire(s, call).limits == s.limits && Fire(s, call).suspended == s.suspended
  {
    hide Entry;
  }

  lemma TakeFirstLimits(s: State, handles: seq<Handle>, all: bool)
    ensures TakeFirst(s, handles, all).limits == s.limits
  {
    hide FirstSignalled, Entry;
  }

  // ---- Whole runs ----

  /** The waits that a semaphore ended and the count that it has are what it was given. */
  lemma {:induction false} CountsBalance(s: State, calls: seq<Call>, h: Handle)
    requires Inv(s) && h in s.semaphoreHandles && ProperRun(s, calls)
    ensures Acquired(s, calls, h) + Count(Run(s, calls), h) == Count(s, h) + AllGiven(s, calls, h)
    decreases |calls|
  {
    if calls != [] {
      FireKeepsInv(s, calls[0]);
      FireMoves(s, calls[0], h);
      hide Fire, Inv, Proper, Acquires, Given, Count;
      CountsBalance(Fire(s, calls[0]), calls[1..], h);
    }
  }

  /** Counts are natural and limits positive. */
  ghost predicate Natural(s: State) {
    (forall h | h in s.semaphores :: s.semaphores[h] >= 0) && (forall h | h in s.limits :: s.limits[h] >= 1)
  }

  predicate GoodCreate(call: Call) {
    call.CreateSemaphore? ==> call.count >= 0
  }

  lemma WaitStaysNatural(s: State, call: Call)
    requires Inv(s) && Natural(s) && (call.BeginWait? || call.Recheck? || call.Expire?)
    ensures Natural(Fire(s, call))
  {
    WaitKeepsObjects(s, call);
    forall h | h in Fire(s, call).semaphores ensures Fire(s, call).semaphores[h] >= 0 {
      assert h in s.semaphoreHandles by { hide Lined, Accounted, Alert; }
      WaitMoves(s, call, h);
    }
    hide Fire, Inv, Acquires;
  }

  /** The same semaphores and limits, whatever the counts. */
  ghost predicate SameObjects(s: State, t: State) {
    t.limits == s.limits && t.semaphores.Keys == s.semaphores.Keys
  }

  lemma SatisfyKeepsObjects(s: State, t: Thread)
    requires t in s.waits
    ensures SameObjects(s, Satisfy(s, t))
  {
    var c := Consume(s, s.waits[t].target);
    assert SameObjects(s, c) && c.waits == s.waits;
    hide Consume;
    assert SameObjects(c, Leave(c, t));
    hide Leave;
  }

  lemma CheckKeepsObjects(s: State, t: Thread)
    requires t in s.waits
    ensures SameObjects(s, Check(s, t))
  {
    SatisfyKeepsObjects(s, t);
    hide Satisfy, Ready;
  }

  lemma WaitKeepsObjects(s: State, call: Call)
    requires call.BeginWait? || call.Recheck? || call.Expire?
    ensures SameObjects(s, Fire(s, call))
  {
    hide Check, Satisfy, Ready, Without;
    match call
    case BeginWait(t, g, timed, header) =>
      if t !in s.waits { CheckKeepsObjects(Enter(Adopt(s, g, header), t, g, timed), t); }
    case Recheck(t) => if t in s.waits { CheckKeepsObjects(s, t); }
    case Expire(t) => if t in s.waits { SatisfyKeepsObjects(s, t); }
  }

  lemma OtherStaysNatural(s: State, call: Call)
    requires Natural(s) && GoodCreate(call) && !call.BeginWait? && !call.Recheck? && !call.Expire?
    ensures Natural(Fire(s, call))
  {
  }

  lemma RunOneNatural(s: State, call: Call)
    requires Inv(s) && Natural(s) && GoodCreate(call)
    ensures Natural(Fire(s, call))
  {
    if call.BeginWait? || call.Recheck? || call.Expire? {
      WaitStaysNatural(s, call);
    } else {
      OtherStaysNatural(s, call);
    }
    hide Inv, Natural, Fire;
  }

  /** No count falls below 0, if every semaphore was created with a natural one. */
  lemma {:induction false} RunStaysNatural(s: State, calls: seq<Call>)
    requires Inv(s) && Natural(s) && ProperRun(s, calls) && forall call | call in calls :: GoodCreate(call)
    ensures Natural(Run(s, calls))
    decreases |calls|
  {
    hide Inv, Natural, Fire, Proper;
    if calls != [] {
      assert calls[0] in calls;
      FireKeepsInv(s, calls[0]);
      RunOneNatural(s, calls[0]);
      RunStaysNatural(Fire(s, calls[0]), calls[1..]);
    }
  }

  /** In every run: what a semaphore was given at its creation and by releases, it has or has let waits through with. */
  lemma EveryCount(semaphoreHandles: set<Handle>, calls: seq<Call>, h: Handle)
    requires ProperRun(Initial(semaphoreHandles), calls) && h in semaphoreHandles
    requires forall call | call in calls :: GoodCreate(call)
    ensures var s := Initial(semaphoreHandles);
      var left := Count(Run(s, calls), h);
      left >= 0 && Acquired(s, calls, h) + left == AllGiven(s, calls, h)
  {
    var s := Initial(semaphoreHandles);
    InitialInv(semaphoreHandles);
    CountsBalance(s, calls, h);
    RunStaysNatural(s, calls);
    hide Run, Acquired, AllGiven, ProperRun;
  }

  predicate Gives(call: Call, h: Handle) {
    (call.ReleaseSemaphore? || call.CreateSemaphore?) && call.handle == h
  }

  lemma {:induction false} NothingGiven(s: State, calls: seq<Call>, h: Handle)
    requires Inv(s) && Natural(s) && ProperRun(s, calls)
    requires forall call | call in calls :: GoodCreate(call) && !Gives(call, h)
    ensures AllGiven(s, calls, h) <= 0
    decreases |calls|
  {
    if calls != [] {
      assert calls[0] in calls;
      assert Given(s, calls[0], h) <= 0;
      FireKeepsInv(s, calls[0]);
      RunOneNatural(s, calls[0]);
      hide Inv, Natural, Fire, Proper, Given, Gives;
      NothingGiven(Fire(s, calls[0]), calls[1..], h);
    }
  }

  /** Until the next release a semaphore lets through at most as many waits as its count. */
  lemma AtMostCount(s: State, calls: seq<Call>, h: Handle)
    requires Inv(s) && Natural(s) && h in s.semaphoreHandles && ProperRun(s, calls)
    requires forall call | call in calls :: GoodCreate(call) && !Gives(call, h)
    ensures Acquired(s, calls, h) <= Count(s, h)
  {
    CountsBalance(s, calls, h);
    NothingGiven(s, calls, h);
    RunStaysNatural(s, calls);
    hide Run, Acquired, AllGiven, ProperRun, Inv, Gives;
  }

  // ---- Suspended threads ----

  function Times(calls: seq<Call>, call: Call): nat {
    if calls == [] then 0 else (if calls[0] == call then 1 else 0) + Times(calls[1..], call)
  }

  /** The calls that a count of suspensions outlives; a new thread and a resume of all start it afresh. */
  predicate Leaves(call: Call, h: Handle) {
    !call.ResumeAll? && !(call.CreateThread? && call.handle == h)
  }

  function GateAfter(s: State, call: Call, h: Handle): int {
    if call == SuspendThread(h) then Gate(s, h) + 1
    else if call == ResumeThread(h) then if Gate(s, h) == 0 then 0 else Gate(s, h) - 1
    else Gate(s, h)
  }

  lemma GateMoves(s: State, call: Call, h: Handle)
    requires Leaves(call, h)
    ensures Gate(Fire(s, call), h) == GateAfter(s, call, h)
  {
    hide Fire;
    if call.BeginWait? || call.Recheck? || call.Expire? {
      WaitKeepsGates(s, call);
    } else if Flags(call) {
      FlagsKeep(s, call);
    } else if call.SuspendThread? || call.ResumeThread? || call.RecheckStart? || call.CreateThread? || call.ResumeAll? {
      ThreadGates(s, call, h);
    } else {
      RestKeepsGates(s, call);
    }
  }

  lemma ThreadGates(s: State, call: Call, h: Handle)
    requires Leaves(call, h)
    requires call.SuspendThread? || call.ResumeThread? || call.RecheckStart? || call.CreateThread? || call.ResumeAll?
    ensures Gate(Fire(s, call), h) == GateAfter(s, call, h)
  {
  }

  lemma RestKeepsGates(s: State, call: Call)
    requires !call.BeginWait? && !call.Recheck? && !call.Expire? && !Flags(call)
    requires !call.SuspendThread? && !call.ResumeThread? && !call.RecheckStart? && !call.CreateThread?
      && !call.ResumeAll?
    ensures Fire(s, call).suspended == s.suspended
  {
    TakeFirstGates(s, if call.WaitMultiple? then call.handles else [], call.WaitMultiple? && call.all);
    hide TakeFirst, Entry;
  }

  /** A new thread's gate is closed once if it is created suspended; a resume of all opens every gate. */
  lemma GateStarts(s: State, call: Call, h: Handle)
    requires !Leaves(call, h)
    ensures Gate(Fire(s, call), h)
         == if call.ResumeAll? then 0
            else if call.thread in s.starts then Gate(s, h)
            else if call.createSuspended then 1 else 0
  {
  }

  lemma TakeFirstGates(s: State, handles: seq<Handle>, all: bool)
    ensures TakeFirst(s, handles, all).suspended == s.suspended
  {
    hide FirstSignalled, Entry;
  }

  lemma WaitKeepsGates(s: State, call: Call)
    requires call.BeginWait? || call.Recheck? || call.Expire?
    ensures Fire(s, call).suspended == s.suspended
  {
    hide Check, Satisfy, Ready, Without;
    match call
    case BeginWait(t, g, timed, header) =>
      if t !in s.waits { CheckKeepsGates(Enter(Adopt(s, g, header), t, g, timed), t); }
    case Recheck(t) => if t in s.waits { CheckKeepsGates(s, t); }
    case Expire(t) => if t in s.waits { SatisfyKeepsGates(s, t); }
  }

  lemma SatisfyKeepsGates(s: State, t: Thread)
    requires t in s.waits
    ensures Satisfy(s, t).suspended == s.suspended
  {
    var c := Consume(s, s.waits[t].target);
    assert c.suspended == s.suspended && c.waits == s.waits;
    hide Consume;
    assert Leave(c, t).suspended == c.suspended;
    hide Leave;
  }

  lemma CheckKeepsGates(s: State, t: Thread)
    requires t in s.waits
    ensures Check(s, t).suspended == s.suspended
  {
    SatisfyKeepsGates(s, t);
    hide Satisfy, Ready;
  }

  /** Every suspension holds until a resume undoes it: a run with fewer resumes leaves the gate closed. */
  lemma {:induction false} SuspensionsHold(s: State, calls: seq<Call>, h: Handle)
    requires forall call | call in calls :: Leaves(call, h)
    ensures var (up, down) := (Times(calls, SuspendThread(h)), Times(calls, ResumeThread(h)));
      Gate(s, h) + up - down <= Gate(Run(s, calls), h) <= Gate(s, h) + up
    decreases |calls|
  {
    hide Fire, Gate, Leaves;
    if calls != [] {
      assert calls[0] in calls;
      GateMoves(s, calls[0], h);
      SuspensionsHold(Fire(s, calls[0]), calls[1..], h);
    }
  }

  /** A thread that waits to start goes on, once it looks, exactly when its gate is open; its gate goes with it. */
  lemma StartsWhenOpen(s: State, t: Thread)
    requires t in s.starts
    ensures t !in Fire(s, RecheckStart(t)).starts <==> Gate(s, s.starts[t].handle) == 0
  {
  }
}
