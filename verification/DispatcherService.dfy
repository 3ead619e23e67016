/** The dispatcher as the service layer runs it, under its mutex, on maps it updates in place. */
module DispatcherService {
  import opened Words
  import opened Dispatcher

  lemma Kept(before: State, call: Call)
    ensures Inv(before) && Proper(before, call) ==> Inv(Fire(before, call))
  {
    hide Inv, Proper, Fire;
    if Inv(before) && Proper(before, call) {
      FireKeepsInv(before, call);
    }
  }

  class KernelDispatcher {
    var events: map<Handle, bool>
    var manual: map<Handle, bool>
    var semaphores: map<Handle, int>
    var limits: map<Handle, int>
    var queues: map<Handle, seq<int>>
    var tickets: int
    var waits: map<Thread, Wait>
    var suspended: map<Handle, nat>
    var starts: map<Thread, Start>
    ghost var semaphoreHandles: set<Handle>
    ghost var owner: map<int, Thread>
    ghost var served: map<Handle, seq<int>>
    ghost var ledger: map<Handle, Ledger>

    ghost function State(): Dispatcher.State
      reads this
    {
      Dispatcher.State(events, manual, semaphores, limits, queues, tickets, waits, suspended, starts,
                       semaphoreHandles, owner, served, ledger)
    }

    ghost predicate Valid()
      reads this
    {
      Inv(State())
    }

    constructor (ghost handles: set<Handle>)
      ensures Valid() && State() == Initial(handles)
    {
      events, manual, semaphores, limits, queues, tickets := map[], map[], map[], map[], map[], 0;
      waits, suspended, starts := map[], map[], map[];
      semaphoreHandles, owner, served, ledger := handles, map[], map[], map[];
      new;
      InitialInv(handles);
    }

    // ---- Parts of a call ----

    method AdoptInlineEventResetMode(h: Handle, header: int)
      modifies this
      ensures State() == Adopt(old(State()), h, header)
    {
      if h < 0x1000_0000 || h >= 0x9000_0000 {
        return;
      }
      if h in manual {
        return;
      }
      if header == 0 {
        manual := manual[h := true];
      } else if header == 1 {
        manual := manual[h := false];
      }
    }

    /** Assigns the flag, and records whether it rose or was cleared. */
    method Assign(h: Handle, flag: bool)
      modifies this
      ensures State() == SetFlag(old(State()), h, flag)
    {
      ghost var before := State();
      events := events[h := flag];
      ledger := SetFlag(before, h, flag).ledger;
    }

    /** What a notification of all does to the threads that sleep on events. */
    method WakeWaits()
      modifies this
      ensures State() == NotifyWaits(old(State()))
    {
      waits := map t | t in waits :: waits[t].(awake := true);
    }

    method WakeStarts()
      modifies this
      ensures State() == NotifyStarts(old(State()))
    {
      starts := map t | t in starts :: starts[t].(awake := true);
    }

    method IsReady(t: Thread) returns (ready: bool)
      requires t in waits
      ensures ready == Ready(State(), waits[t])
    {
      var w := waits[t];
      if w.target in events && events[w.target] {
        if w.ticket.None? {
          return true;
        }
        var queue := if w.target in queues then queues[w.target] else [];
        if queue != [] && queue[0] == w.ticket.value {
          return true;
        }
      }
      return w.target in semaphores && semaphores[w.target] > 0;
    }

    /** The queue without the first occurrence of a ticket. */
    static method EraseTicket(queue: seq<int>, ticket: int) returns (r: seq<int>)
      ensures r == Without(queue, ticket)
    {
      var at := 0;
      while at < |queue| && queue[at] != ticket
        invariant 0 <= at <= |queue|
        invariant Without(queue, ticket) == queue[..at] + Without(queue[at..], ticket)
      {
        WithoutStep(queue, at, ticket);
        at := at + 1;
      }
      if at == |queue| {
        assert queue[at..] == [] && queue[..at] + [] == queue;
        return queue;
      }
      assert queue[at..][1..] == queue[at + 1..];
      return queue[..at] + queue[at + 1..];
    }

    /** The end of a wait: its ticket leaves the queue. */
    method EndWait(t: Thread)
      requires t in waits
      modifies this
      ensures State() == Leave(old(State()), t)
    {
      hide Without;
      var w := waits[t];
      waits := waits - {t};
      if w.ticket.Some? {
        var queue := EraseTicket(if w.target in queues then queues[w.target] else [], w.ticket.value);
        queues := queues[w.target := queue];
      }
    }

    method ConsumeSignal(h: Handle)
      modifies this
      ensures State() == Consume(old(State()), h)
    {
      ledger := Consume(State(), h).ledger;
      if h in events && !(h in manual && manual[h]) {
        events := events[h := false];
      }
      if h in semaphores {
        semaphores := semaphores[h := semaphores[h] - 1];
      }
    }

    /** A satisfied wait consumes what it waited for and ends. */
    method Finish(t: Thread)
      requires t in waits
      modifies this
      ensures State() == Satisfy(old(State()), t)
    {
      hide Leave, Consume;
      ghost var w := waits[t];
      ConsumeKeepsWaits(State(), w.target);
      ConsumeSignal(waits[t].target);
      EndWait(t);
      served := Serve(State(), w).served;
    }

    /** The head of a wait's loop: done, or asleep until woken. */
    method CheckOnce(t: Thread)
      requires t in waits
      modifies this
      ensures State() == Check(old(State()), t)
    {
      hide Satisfy, Ready;
      var ready := IsReady(t);
      if ready {
        Finish(t);
      } else {
        waits := waits[t := waits[t].(awake := false)];
      }
    }

    // ---- Service calls ----

    /** A known auto-reset event hands out a ticket; the wait then begins. */
    method QueueUp(t: Thread, h: Handle, timed: bool)
      modifies this
      ensures State() == Enter(old(State()), t, h, timed)
    {
      var ticket: Option<int> := None;
      if h in events && !(h in manual && manual[h]) {
        tickets := tickets + 1;
        ticket := Some(tickets);
        owner := owner[tickets := t];
        queues := queues[h := (if h in queues then queues[h] else []) + [tickets]];
      }
      waits := waits[t := Wait(h, ticket, timed, true)];
    }

    method BeginWait(t: Thread, h: Handle, timed: bool, header: int)
      requires t !in waits
      modifies this
      ensures State() == Fire(old(State()), Call.BeginWait(t, h, timed, header))
      ensures old(Valid()) ==> Valid()
    {
      hide Check, Inv, Adopt;
      Kept(State(), Call.BeginWait(t, h, timed, header));
      AdoptInlineEventResetMode(h, header);
      QueueUp(t, h, timed);
      hide Enter;
      CheckOnce(t);
    }

    /** A thread that sleeps in a wait looks again. */
    method Recheck(t: Thread)
      requires t in waits
      modifies this
      ensures State() == Fire(old(State()), Call.Recheck(t))
      ensures old(Valid()) ==> Valid()
    {
      hide Check, Inv;
      Kept(State(), Call.Recheck(t));
      CheckOnce(t);
    }

    /** The time of a wait is over: it looks once more and then gives up. */
    method Expire(t: Thread) returns (timedOut: bool)
      requires t in waits && waits[t].timed
      modifies this
      ensures State() == Fire(old(State()), Call.Expire(t))
      ensures timedOut <==> !Ready(old(State()), old(waits[t]))
      ensures old(Valid()) ==> Valid()
    {
      hide Satisfy, Leave, Ready, Inv;
      Kept(State(), Call.Expire(t));
      var ready := IsReady(t);
      if ready {
        Finish(t);
      } else {
        EndWait(t);
      }
      timedOut := !ready;
    }

    /** KeSetEvent, NtSetEvent and KeResetEvent. */
    method SetOrReset(h: Handle, header: int, signal: bool) returns (previous: bool)
      modifies this
      ensures State() == Fire(old(State()), if signal then Call.SetEvent(h, header) else Call.ResetEvent(h, header))
      ensures previous == Signalled(old(State()), h)
      ensures old(Valid()) && h !in old(semaphoreHandles) ==> Valid()
    {
      hide Inv, Adopt;
      Kept(State(), if signal then Call.SetEvent(h, header) else Call.ResetEvent(h, header));
      AdoptInlineEventResetMode(h, header);
      AdoptKeepsFlags(old(State()), h, header);
      previous := h in events && events[h];
      Assign(h, signal);
      if signal {
        WakeWaits();
      }
    }

    method ClearEvent(h: Handle)
      modifies this
      ensures State() == Fire(old(State()), Call.ClearEvent(h))
      ensures old(Valid()) && h !in old(semaphoreHandles) ==> Valid()
    {
      hide Inv;
      Kept(State(), Call.ClearEvent(h));
      Assign(h, false);
    }

    method CreateEvent(h: Handle, manualReset: bool, initial: bool)
      modifies this
      ensures State() == Fire(old(State()), Call.CreateEvent(h, manualReset, initial))
      ensures old(Valid()) && Proper(old(State()), Call.CreateEvent(h, manualReset, initial)) ==> Valid()
    {
      hide Inv, Proper;
      Kept(State(), Call.CreateEvent(h, manualReset, initial));
      Assign(h, initial);
      manual := manual[h := manualReset];
    }

    method CreateSemaphore(h: Handle, count: int, limit: int)
      modifies this
      ensures State() == Fire(old(State()), Call.CreateSemaphore(h, count, limit))
      ensures old(Valid()) && Proper(old(State()), Call.CreateSemaphore(h, count, limit)) ==> Valid()
    {
      hide Inv, Proper;
      Kept(State(), Call.CreateSemaphore(h, count, limit));
      semaphores := semaphores[h := count];
      limits := limits[h := Max(limit, 1)];
    }

    method Count(h: Handle, adjustment: int) returns (previous: int)
      modifies this
      ensures State() == AddCount(old(State()), h, adjustment)
      ensures previous == if h in old(semaphores) then old(semaphores)[h] else 0
    {
      previous := if h in semaphores then semaphores[h] else 0;
      var limit := if h in limits then limits[h] else INT_MAX;
      semaphores := semaphores[h := Min(limit, previous + Max(adjustment, 1))];
    }

    method ReleaseSemaphore(h: Handle, adjustment: int) returns (previous: int)
      modifies this
      ensures State() == Fire(old(State()), Call.ReleaseSemaphore(h, adjustment))
      ensures previous == if h in old(semaphores) then old(semaphores)[h] else 0
      ensures old(Valid()) && h in old(semaphoreHandles) ==> Valid()
    {
      hide Inv, AddCount, NotifyWaits;
      Kept(State(), Call.ReleaseSemaphore(h, adjustment));
      previous := Count(h, adjustment);
      WakeWaits();
    }

    method FindSignal(handles: seq<Handle>) returns (first: Option<Handle>, place: nat, all: bool)
      ensures first == FirstSignalled(State(), handles)
      ensures first.Some? ==> place < |handles| && handles[place] == first.value && Signalled(State(), first.value)
      ensures forall j | 0 <= j < if first.Some? then place else |handles| :: !Signalled(State(), handles[j])
      ensures all <==> forall h | h in handles :: Signalled(State(), h)
    {
      first, place, all := None, 0, true;
      ghost var s := State();
      for i := 0 to |handles|
        invariant FirstSignalled(s, handles) == if first.Some? then first else FirstSignalled(s, handles[i..])
        invariant all <==> forall h | h in handles[..i] :: Signalled(s, h)
        invariant first.Some? ==> place < i && handles[place] == first.value && Signalled(s, first.value)
        invariant forall j | 0 <= j < if first.Some? then place else i :: !Signalled(s, handles[j])
      {
        assert handles[i..][1..] == handles[i + 1..];
        assert handles[..i + 1] == handles[..i] + [handles[i]];
        assert forall h :: h in handles[..i + 1] <==> h in handles[..i] || h == handles[i];
        var signalled := handles[i] in events && events[handles[i]];
        assert signalled == Signalled(s, handles[i]);
        if signalled && first.None? {
          first, place := Some(handles[i]), i;
        }
        all := all && signalled;
      }
      assert handles[..|handles|] == handles && handles[|handles|..] == [];
    }

    /** A wait for several events takes the first signal it finds, past any queue, and says whose it was. */
    method WaitMultiple(handles: seq<Handle>, waitAll: bool) returns (index: Option<nat>)
      modifies this
      ensures State() == Fire(old(State()), Call.WaitMultiple(handles, waitAll))
      ensures index.Some? <==>
        && (exists h | h in handles :: Signalled(old(State()), h))
        && (waitAll ==> forall h | h in handles :: Signalled(old(State()), h))
      ensures index.Some? ==>
        && index.value < |handles| && Signalled(old(State()), handles[index.value])
        && forall j | 0 <= j < index.value :: !Signalled(old(State()), handles[j])
      ensures old(Valid()) ==> Valid()
    {
      hide Inv, FirstSignalled, SetFlag;
      Kept(State(), Call.WaitMultiple(handles, waitAll));
      var first, place, all := FindSignal(handles);
      if first.None? || (waitAll && !all) {
        return None;
      }
      index := Some(place);
      if !(first.value in manual && manual[first.value]) {
        Assign(first.value, false);
      }
    }

    method Forget(h: Handle)
      modifies this
      ensures State() == Close(old(State()), h)
    {
      ledger := Close(State(), h).ledger;
      events, manual := events - {h}, manual - {h};
      semaphores, limits := semaphores - {h}, limits - {h};
    }

    method CloseHandle(h: Handle)
      modifies this
      ensures State() == Fire(old(State()), Call.CloseHandle(h))
      ensures old(Valid()) ==> Valid()
    {
      hide Inv, Close;
      Kept(State(), Call.CloseHandle(h));
      Forget(h);
    }

    method SuspendThread(h: Handle) returns (previous: nat)
      modifies this
      ensures State() == Fire(old(State()), Call.SuspendThread(h))
      ensures previous == Gate(old(State()), h)
      ensures old(Valid()) ==> Valid()
    {
      hide Inv;
      Kept(State(), Call.SuspendThread(h));
      previous := if h in suspended then suspended[h] else 0;
      suspended := suspended[h := previous + 1];
    }

    method ResumeThread(h: Handle) returns (previous: nat)
      modifies this
      ensures State() == Fire(old(State()), Call.ResumeThread(h))
      ensures previous == Gate(old(State()), h)
      ensures old(Valid()) ==> Valid()
    {
      hide Inv;
      Kept(State(), Call.ResumeThread(h));
      previous := 0;
      if h in suspended {
        previous := suspended[h];
        if suspended[h] != 0 {
          suspended := suspended[h := suspended[h] - 1];
        }
      }
      WakeStarts();
    }

    method CheckStartOnce(t: Thread) returns (runs: bool)
      requires t in starts
      modifies this
      ensures State() == CheckStart(old(State()), t)
      ensures runs <==> Gate(old(State()), old(starts[t]).handle) == 0
    {
      var h := starts[t].handle;
      runs := h !in suspended || suspended[h] == 0;
      if runs {
        starts := starts - {t};
        suspended := suspended - {h};
      } else {
        starts := starts[t := starts[t].(awake := false)];
      }
    }

    /** A new thread that waits to be resumed looks again; it starts when nothing holds it back. */
    method RecheckStart(t: Thread) returns (runs: bool)
      requires t in starts
      modifies this
      ensures State() == Fire(old(State()), Call.RecheckStart(t))
      ensures runs <==> Gate(old(State()), old(starts[t]).handle) == 0
      ensures old(Valid()) ==> Valid()
    {
      hide Inv, CheckStart, Gate;
      Kept(State(), Call.RecheckStart(t));
      runs := CheckStartOnce(t);
    }

    /** A finished thread is signalled for good. */
    method ExitThread(h: Handle)
      modifies this
      ensures State() == Fire(old(State()), Call.ExitThread(h))
      ensures old(Valid()) && h !in old(semaphoreHandles) ==> Valid()
    {
      hide Inv, NotifyStarts;
      Kept(State(), Call.ExitThread(h));
      Assign(h, true);
      manual := manual[h := true];
      WakeWaits();
      WakeStarts();
    }
  }

  lemma WithoutStep(queue: seq<int>, at: nat, k: int)
    requires at < |queue| && queue[at] != k
    ensures queue[..at] + Without(queue[at..], k) == queue[..at + 1] + Without(queue[at + 1..], k)
  {
    assert queue[at..][1..] == queue[at + 1..];
    assert queue[..at] + [queue[at]] == queue[..at + 1];
    assert queue[..at] + ([queue[at]] + Without(queue[at + 1..], k))
      == queue[..at] + [queue[at]] + Without(queue[at + 1..], k);
  }

  lemma AdoptKeepsFlags(s: Dispatcher.State, h: Handle, header: int)
    ensures Adopt(s, h, header).events == s.events
  {
  }

  lemma ConsumeKeepsWaits(s: Dispatcher.State, h: Handle)
    ensures Consume(s, h).waits == s.waits
  {
  }
}
