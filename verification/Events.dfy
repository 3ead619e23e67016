/**
 What every call does to an event, to the waits and to the new threads, said without the parts that
 calls are made of; and that a whole run of calls does to an event what a plain event would do.
 */
module Events {
  import opened Words
  import opened Dispatcher
  import opened Counts

  /** An event as the guest sees it: whether it is there, its flag, and its kind once that is known. */
  datatype Event = Event(there: bool, flag: bool, manual: Option<bool>)

  function EventOf(s: State, h: Handle): Event {
    Event(h in s.events, h in s.events && s.events[h], if h in s.manual then Some(s.manual[h]) else None)
  }

  /** An event of the guest's own shows its kind by its header: 0 is manual-reset, 1 is auto-reset. */
  function Shown(e: Event, h: Handle, header: int): Event {
    if e.manual.None? && 0x1000_0000 <= h < 0x9000_0000 && 0 <= header <= 1 then e.(manual := Some(header == 0)) else e
  }

  /** An auto-reset event loses its signal to the wait that it ends. */
  function Taken(e: Event): Event {
    if e.there && e.manual != Some(true) then e.(flag := false) else e
  }

  /** A wait on `e`: one that queues up must be first in line. */
  predicate LetsThrough(e: Event, queue: seq<int>, ticket: Option<int>) {
    e.flag && (ticket.Some? ==> queue != [] && queue[0] == ticket.value)
  }

  /** A signal that no one waits for in line. */
  predicate Free(e: Event, queue: seq<int>) {
    e.flag && (e.manual == Some(true) || queue == [])
  }

  /** A wait for several events takes the first that is signalled; one for all of them waits until all are. */
  predicate Takes(s: State, handles: seq<Handle>, all: bool, h: Handle) {
    && (all ==> forall g | g in handles :: EventOf(s, g).flag)
    && exists i :: 0 <= i < |handles| && handles[i] == h && EventOf(s, h).flag && NoneBefore(s, handles, i)
  }

  predicate NoneBefore(s: State, handles: seq<Handle>, i: int)
    requires i <= |handles|
  {
    forall j | 0 <= j < i :: !EventOf(s, handles[j]).flag
  }

  /** The event after a call. */
  ghost function Next(s: State, call: Call, h: Handle): Event {
    var e := EventOf(s, h);
    match call
    case SetEvent(g, header) => if g == h then Shown(e, h, header).(there := true, flag := true) else e
    case ResetEvent(g, header) => if g == h then Shown(e, h, header).(there := true, flag := false) else e
    case ClearEvent(g) => if g == h then e.(there := true, flag := false) else e
    case CompleteRequest(g) => if g == h then e.(there := true, flag := true) else e
    case WithdrawCompletion(g) => if g == h then e.(there := true, flag := false) else e
    case CreateEvent(g, manualReset, initial) => if g == h then Event(true, initial, Some(manualReset)) else e
    case CloseHandle(g) => if g == h then Event(false, false, None) else e
    case AdoptHeader(g, header) => if g == h then Shown(e, h, header) else e
    case ExitThread(g) => if g == h then Event(true, true, Some(true)) else e
    case WaitMultiple(handles, all) => if Takes(s, handles, all, h) then Taken(e) else e
    case BeginWait(t, g, _, header) =>
      if t in s.waits || g != h then e
      else
        var shown := Shown(e, h, header);
        if Free(shown, Queue(s, h)) then Taken(shown) else shown
    case Recheck(t) =>
      if t in s.waits && s.waits[t].target == h && LetsThrough(e, Queue(s, h), s.waits[t].ticket) then Taken(e) else e
    case Expire(t) =>
      if t in s.waits && s.waits[t].timed && s.waits[t].target == h && LetsThrough(e, Queue(s, h), s.waits[t].ticket)
      then Taken(e) else e
    case _ => e
  }

  // ---- One call ----

  lemma AdoptShows(s: State, g: Handle, header: int, h: Handle)
    ensures EventOf(Adopt(s, g, header), h) == if g == h then Shown(EventOf(s, h), h, header) else EventOf(s, h)
    ensures Adopt(s, g, header).queues == s.queues && Adopt(s, g, header).waits == s.waits
  {
  }

  lemma {:induction false} FirstMeans(s: State, handles: seq<Handle>, h: Handle)
    ensures FirstSignalled(s, handles) == Some(h) <==>
      exists i :: 0 <= i < |handles| && handles[i] == h && EventOf(s, h).flag && NoneBefore(s, handles, i)
    decreases |handles|
  {
    if handles != [] {
      var rest := handles[1..];
      FirstMeans(s, rest, h);
      if EventOf(s, handles[0]).flag {
        assert NoneBefore(s, handles, 0);
      } else {
        forall i | 0 <= i < |rest| ensures NoneBefore(s, rest, i) <==> NoneBefore(s, handles, i + 1) {
          if NoneBefore(s, rest, i) {
            forall j | 0 <= j < i + 1 ensures !EventOf(s, handles[j]).flag {
              assert j > 0 ==> handles[j] == rest[j - 1];
            }
          } else {
            assert forall j | 0 <= j < i :: rest[j] == handles[j + 1];
          }
        }
        if i :| 0 <= i < |rest| && rest[i] == h && EventOf(s, h).flag && NoneBefore(s, rest, i) {
          assert handles[i + 1] == h && NoneBefore(s, handles, i + 1);
        }
        if i :| 0 <= i < |handles| && handles[i] == h && EventOf(s, h).flag && NoneBefore(s, handles, i) {
          assert i > 0 && rest[i - 1] == h && NoneBefore(s, rest, i - 1);
        }
      }
    }
  }

  lemma TakesFollows(s: State, handles: seq<Handle>, all: bool, h: Handle)
    ensures EventOf(TakeFirst(s, handles, all), h)
         == if Takes(s, handles, all, h) then Taken(EventOf(s, h)) else EventOf(s, h)
  {
    FirstMeans(s, handles, h);
    hide FirstSignalled, NoneBefore, Entry;
  }

  lemma ConsumeTakes(s: State, t: Thread, h: Handle)
    requires t in s.waits
    ensures EventOf(Satisfy(s, t), h) == if s.waits[t].target == h then Taken(EventOf(s, h)) else EventOf(s, h)
  {
    var c := Consume(s, s.waits[t].target);
    ConsumeEvents(s, s.waits[t].target, h);
    LeaveKeeps(c, t, h);
    hide Consume, Leave, EventOf, Taken, Serve;
    ServeKeeps(Leave(c, t), s.waits[t], h);
  }

  lemma ConsumeEvents(s: State, g: Handle, h: Handle)
    ensures EventOf(Consume(s, g), h) == if g == h then Taken(EventOf(s, h)) else EventOf(s, h)
    ensures Consume(s, g).waits == s.waits
  {
    hide Entry;
  }

  lemma LeaveKeeps(s: State, t: Thread, h: Handle)
    requires t in s.waits
    ensures EventOf(Leave(s, t), h) == EventOf(s, h)
  {
    hide Without;
  }

  lemma ServeKeeps(s: State, w: Wait, h: Handle)
    ensures EventOf(Serve(s, w), h) == EventOf(s, h)
  {
  }

  lemma SleepKeeps(s: State, t: Thread, h: Handle)
    requires t in s.waits
    ensures EventOf(Sleep(s, t), h) == EventOf(s, h)
  {
  }

  lemma ReadyMeans(s: State, w: Wait)
    requires Inv(s) && w.target !in s.semaphoreHandles
    ensures Ready(s, w) <==> LetsThrough(EventOf(s, w.target), Queue(s, w.target), w.ticket)
  {
    hide Lined, Accounted, Alert;
  }

  lemma CheckFollows(s: State, t: Thread, h: Handle)
    requires Inv(s) && t in s.waits && h !in s.semaphoreHandles
    ensures EventOf(Check(s, t), h)
         == if s.waits[t].target == h && LetsThrough(EventOf(s, h), Queue(s, h), s.waits[t].ticket)
            then Taken(EventOf(s, h)) else EventOf(s, h)
  {
    if s.waits[t].target == h { ReadyMeans(s, s.waits[t]); }
    ConsumeTakes(s, t, h);
    SleepKeeps(s, t, h);
    hide Satisfy, Sleep, Ready, Inv, LetsThrough, Taken, EventOf;
  }

  /** A queue never holds a ticket that is yet to be drawn. */
  lemma NewTicketLast(s: State, h: Handle)
    requires Inv(s) && Queue(s, h) != []
    ensures Queue(s, h)[0] <= s.tickets
  {
    assert LineValid(s, h);
    assert Queue(s, h)[0] in Line(s, h);
  }

  lemma EnterShape(s: State, t: Thread, g: Handle, timed: bool, h: Handle)
    ensures var v := Enter(s, t, g, timed);
      var ticketed := g in s.events && EventOf(s, g).manual != Some(true);
      && EventOf(v, h) == EventOf(s, h) && t in v.waits && v.waits[t].target == g
      && Queue(v, g) == (if ticketed then Queue(s, g) + [s.tickets + 1] else Queue(s, g))
      && v.waits[t].ticket == (if ticketed then Some(s.tickets + 1) else None)
  {
  }

  /** A thread that has just queued up is let through by a flag that no one waits for before it. */
  lemma FirstInLine(e: Event, queue: seq<int>, k: int)
    requires (queue != [] ==> queue[0] != k) && (e.flag ==> e.there)
    ensures var ticketed := e.there && e.manual != Some(true);
      LetsThrough(e, if ticketed then queue + [k] else queue, if ticketed then Some(k) else None) <==> Free(e, queue)
  {
  }

  lemma FlagThere(s: State, h: Handle)
    ensures EventOf(s, h).flag ==> EventOf(s, h).there
    ensures h in s.events <==> EventOf(s, h).there
  {
  }

  lemma BeginFollows(s: State, t: Thread, g: Handle, timed: bool, header: int, h: Handle)
    requires Inv(s) && t !in s.waits && h !in s.semaphoreHandles
    ensures var shown := Shown(EventOf(s, g), g, header);
      EventOf(Check(Enter(Adopt(s, g, header), t, g, timed), t), h)
        == if g != h then EventOf(s, h) else if Free(shown, Queue(s, h)) then Taken(shown) else shown
  {
    var u := Adopt(s, g, header);
    var v := Enter(u, t, g, timed);
    AdoptShows(s, g, header, h);
    AdoptKeepsInv(s, g, header);
    EnterSound(u, t, g, timed);
    EnterAlert(u, t, g, timed);
    EnterShape(u, t, g, timed, h);
    assert v.semaphoreHandles == s.semaphoreHandles && Queue(u, g) == Queue(s, g);
    assert Inv(v);
    hide Check, Inv, Adopt, Enter, EventOf, Shown, Queue, Sound, Alert, LetsThrough, Taken, Free;
    CheckFollows(v, t, h);
    if Queue(s, g) != [] { NewTicketLast(u, g); }
    FlagThere(u, g);
    FirstInLine(EventOf(u, g), Queue(s, g), u.tickets + 1);
  }

  /** Each call does to each event what it says. */
  lemma FireFollows(s: State, call: Call, h: Handle)
    requires Inv(s) && h !in s.semaphoreHandles
    ensures EventOf(Fire(s, call), h) == Next(s, call, h)
  {
    match call
    case BeginWait(t, g, timed, header) => if t !in s.waits { BeginFollows(s, t, g, timed, header, h); }
    case Recheck(t) => if t in s.waits { CheckFollows(s, t, h); hide Check; }
    case Expire(t) => ExpireFollows(s, t, h);
    case WaitMultiple(handles, all) => TakesFollows(s, handles, all, h);
    case _ => OtherFollows(s, call, h);
  }

  lemma ExpireFollows(s: State, t: Thread, h: Handle)
    requires Inv(s) && h !in s.semaphoreHandles
    ensures EventOf(Fire(s, Expire(t)), h) == Next(s, Expire(t), h)
  {
    if t in s.waits {
      if s.waits[t].target == h { ReadyMeans(s, s.waits[t]); }
      ConsumeTakes(s, t, h);
      LeaveKeeps(s, t, h);
    }
    hide Satisfy, Leave, Ready, Inv, LetsThrough, Taken, EventOf;
  }

  lemma OtherFollows(s: State, call: Call, h: Handle)
    requires !call.BeginWait? && !call.Recheck? && !call.Expire? && !call.WaitMultiple?
    ensures EventOf(Fire(s, call), h) == Next(s, call, h)
  {
    if Flags(call) {
      FlagsFollow(s, call, h);
    } else {
      if call.AdoptHeader? { AdoptShows(s, call.handle, call.header, h); }
      hide Entry, Adopt, Shown;
    }
  }

  lemma FlagsFollow(s: State, call: Call, h: Handle)
    requires Flags(call)
    ensures EventOf(Fire(s, call), h) == Next(s, call, h)
  {
    match call
    case SetEvent(g, header) => AdoptShows(s, g, header, h); FlagSets(Adopt(s, g, header), g, true, h);
    case ResetEvent(g, header) => AdoptShows(s, g, header, h); FlagSets(Adopt(s, g, header), g, false, h);
    case CreateEvent(g, _, initial) => FlagSets(s, g, initial, h);
    case CompleteRequest(g) => FlagSets(s, g, true, h);
    case ExitThread(g) => FlagSets(s, g, true, h);
    case ClearEvent(g) => FlagSets(s, g, false, h);
    case WithdrawCompletion(g) => FlagSets(s, g, false, h);
    hide SetFlag, Adopt, Shown;
  }

  lemma FlagSets(s: State, g: Handle, flag: bool, h: Handle)
    ensures EventOf(SetFlag(s, g, flag), h)
         == if g == h then EventOf(s, h).(there := true, flag := flag) else EventOf(s, h)
  {
    hide Entry;
  }

  // ---- Who waits ----

  /** Whether a thread waits, and if so whether it is awake. */
  function WaitingOf(s: State, t: Thread): Option<bool> {
    if t in s.waits then Some(s.waits[t].awake) else None
  }

  /** A wait that looks now is over. */
  predicate Over(s: State, w: Wait) {
    LetsThrough(EventOf(s, w.target), Queue(s, w.target), w.ticket) || Count(s, w.target) > 0
  }

  /** A thread's wait after a call: a look ends it or puts it to sleep, and what may have set a signal wakes all. */
  function WaitingAfter(s: State, call: Call, t: Thread): Option<bool> {
    var waiting := WaitingOf(s, t);
    match call
    case BeginWait(u, g, _, header) =>
      if u != t || t in s.waits then waiting
      else
        var shown := Shown(EventOf(s, g), g, header);
        if Free(shown, Queue(s, g)) || Count(s, g) > 0 then None else Some(false)
    case Recheck(u) => if u != t || t !in s.waits then waiting else if Over(s, s.waits[t]) then None else Some(false)
    case Expire(u) => if u == t && t in s.waits && s.waits[t].timed then None else waiting
    case SetEvent(_, _) => if waiting.Some? then Some(true) else None
    case CompleteRequest(_) => if waiting.Some? then Some(true) else None
    case WithdrawCompletion(_) => if waiting.Some? then Some(true) else None
    case ReleaseSemaphore(_, _) => if waiting.Some? then Some(true) else None
    case ExitThread(_) => if waiting.Some? then Some(true) else None
    case _ => waiting
  }

  lemma OverMeans(s: State, w: Wait)
    ensures Ready(s, w) <==> Over(s, w)
  {
  }

  lemma SatisfyWaits(s: State, t: Thread)
    requires t in s.waits
    ensures Satisfy(s, t).waits == s.waits - {t}
  {
    var c := Consume(s, s.waits[t].target);
    assert c.waits == s.waits;
    hide Consume;
    assert Leave(c, t).waits == s.waits - {t};
    hide Leave;
  }

  lemma CheckWaits(s: State, u: Thread, t: Thread)
    requires u in s.waits
    ensures WaitingOf(Check(s, u), t)
         == if u != t then WaitingOf(s, t) else if Over(s, s.waits[u]) then None else Some(false)
  {
    OverMeans(s, s.waits[u]);
    SatisfyWaits(s, u);
    hide Satisfy, Over, Ready;
  }

  lemma BeginWaits(s: State, u: Thread, g: Handle, timed: bool, header: int, t: Thread)
    requires Inv(s) && u !in s.waits
    ensures WaitingOf(Check(Enter(Adopt(s, g, header), u, g, timed), u), t)
         == if u != t then WaitingOf(s, t)
            else if Free(Shown(EventOf(s, g), g, header), Queue(s, g)) || Count(s, g) > 0 then None else Some(false)
  {
    var a := Adopt(s, g, header);
    var v := Enter(a, u, g, timed);
    AdoptShows(s, g, header, g);
    AdoptKeepsInv(s, g, header);
    EnterShape(a, u, g, timed, g);
    assert Count(v, g) == Count(s, g) && a.tickets == s.tickets && Queue(a, g) == Queue(s, g);
    assert WaitingOf(v, t) == if u == t then Some(true) else WaitingOf(s, t);
    hide Check, Inv, Adopt, Enter, EventOf, Shown, Queue, Sound, Alert, Count, WaitingOf, LetsThrough, Free;
    CheckWaits(v, u, t);
    if Queue(s, g) != [] { NewTicketLast(a, g); }
    FlagThere(a, g);
    FirstInLine(EventOf(a, g), Queue(s, g), a.tickets + 1);
  }

  /** Each call leaves each thread waiting, asleep or not as it says. */
  lemma WaitsFollow(s: State, call: Call, t: Thread)
    requires Inv(s)
    ensures WaitingOf(Fire(s, call), t) == WaitingAfter(s, call, t)
  {
    match call
    case BeginWait(u, g, timed, header) => if u !in s.waits { BeginWaits(s, u, g, timed, header, t); }
    case Recheck(u) => if u in s.waits { CheckWaits(s, u, t); hide Check; }
    case Expire(u) => ExpireWaits(s, u, t);
    case WaitMultiple(handles, all) => hide FirstSignalled, Entry;
    case _ => OtherWaits(s, call, t);
  }

  lemma ExpireWaits(s: State, u: Thread, t: Thread)
    ensures WaitingOf(Fire(s, Expire(u)), t) == WaitingAfter(s, Expire(u), t)
  {
    if u in s.waits {
      SatisfyWaits(s, u);
      assert Leave(s, u).waits == s.waits - {u};
    }
    hide Satisfy, Leave, Ready, Over;
  }

  lemma OtherWaits(s: State, call: Call, t: Thread)
    requires !call.BeginWait? && !call.Recheck? && !call.Expire? && !call.WaitMultiple?
    ensures WaitingOf(Fire(s, call), t) == WaitingAfter(s, call, t)
  {
    if Flags(call) {
      FlagsWake(s, call, t);
    } else {
      if call.AdoptHeader? { AdoptShows(s, call.handle, call.header, call.handle); }
      hide Entry, Adopt;
    }
  }

  lemma FlagsWake(s: State, call: Call, t: Thread)
    requires Flags(call)
    ensures WaitingOf(Fire(s, call), t) == WaitingAfter(s, call, t)
  {
    if call.SetEvent? || call.ResetEvent? { AdoptShows(s, call.handle, call.header, call.handle); }
    hide Entry, Adopt;
  }
}
