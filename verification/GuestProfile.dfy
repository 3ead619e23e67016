/**
 The profile of guest functions: a lock-free table with open addressing that any number of
 threads count into. One step of a thread is one access to an atomic, so a run is any
 interleaving of loads, compare-exchanges and fetch-adds. Exchanges and additions meet the latest
 value, but a relaxed load may also see an earlier one: 0 for an address, as a slot is taken once,
 and any smaller number for a count.
 */
module GuestProfile {
  import opened Words

  const SLOTS := 65536
  const PROBE_LIMIT := 8

  datatype Slot = Slot(address: Word, count: nat)

  /** Where a thread is inside `record` or `total`; `index` is its own copy of the probed slot. */
  datatype Place =
    | Idle
    | LoadOwner(address: Word, index: nat, probe: nat)
    | Exchange(address: Word, index: nat, probe: nat)
    | Reload(address: Word, index: nat, probe: nat)
    | AddOne(address: Word, index: nat, probe: nat)
    | ReadOwner(address: Word, index: nat, probe: nat)
    | ReadCount(address: Word, index: nat, probe: nat)

  /** What a finished `total` returned, beside the true number of counted calls at that moment. */
  datatype Observation = Observation(address: Word, value: nat, truth: nat)

  datatype State = State(
    slots: seq<Slot>,
    threads: map<int, Place>,
    started: map<Word, nat>,
    counted: map<Word, nat>,
    dropped: map<Word, nat>,
    seen: seq<Observation>)

  datatype Event =
    | StartRecord(thread: int, address: Word)
    | StartTotal(thread: int, address: Word)
    | Continue(thread: int)
    // A load that sees a value the slot had earlier.
    | Lag(thread: int, earlier: nat)

  const INITIAL := State(seq(SLOTS, _ => Slot(0, 0)), map[], map[], map[], map[], [])

  function Index(address: Word, probe: nat): (i: nat)
    ensures i < SLOTS
  {
    (address / 4 + probe) % SLOTS
  }

  function Tally(m: map<Word, nat>, address: Word): nat {
    if address in m then m[address] else 0
  }

  function Bump(m: map<Word, nat>, address: Word): map<Word, nat> {
    m[address := Tally(m, address) + 1]
  }

  function At(s: State, thread: int): Place {
    if thread in s.threads then s.threads[thread] else Idle
  }

  function Go(s: State, thread: int, place: Place): State {
    s.(threads := s.threads[thread := place])
  }

  /** The end of a turn of the loop whose slot belongs to another address. */
  function NextProbe(s: State, thread: int, address: Word, index: nat, probe: nat): State {
    if probe + 1 < PROBE_LIMIT then Go(s, thread, LoadOwner(address, (index + 1) % SLOTS, probe + 1))
    else Go(s, thread, Idle).(dropped := Bump(s.dropped, address))
  }

  function Observe(s: State, thread: int, address: Word, value: nat): State {
    Go(s, thread, Idle).(seen := s.seen + [Observation(address, value, Tally(s.counted, address))])
  }

  function Advance(s: State, thread: int): State {
    var place := At(s, thread);
    if place.Idle? || place.index >= |s.slots| then s else
    var (a, i, p) := (place.address, place.index, place.probe);
    var slot := s.slots[i];
    match place
    case LoadOwner(_, _, _) =>
      if slot.address == 0 then Go(s, thread, Exchange(a, i, p))
      else if slot.address == a then Go(s, thread, AddOne(a, i, p))
      else NextProbe(s, thread, a, i, p)
    case Exchange(_, _, _) =>
      var won := if slot.address == 0 then s.(slots := s.slots[i := slot.(address := a)]) else s;
      Go(won, thread, Reload(a, i, p))
    case Reload(_, _, _) =>
      if slot.address == a then Go(s, thread, AddOne(a, i, p)) else NextProbe(s, thread, a, i, p)
    case AddOne(_, _, _) =>
      Go(s, thread, Idle).(slots := s.slots[i := slot.(count := slot.count + 1)], counted := Bump(s.counted, a))
    case ReadOwner(_, _, _) =>
      if slot.address == a then Go(s, thread, ReadCount(a, i, p))
      else if slot.address == 0 then Observe(s, thread, a, 0)
      else if p + 1 < PROBE_LIMIT then Go(s, thread, ReadOwner(a, (i + 1) % SLOTS, p + 1))
      else Observe(s, thread, a, 0)
    case ReadCount(_, _, _) => Observe(s, thread, a, slot.count)
  }

  /** The load at hand sees an earlier value; other steps wait for the latest one. */
  function AdvanceLate(s: State, thread: int, earlier: nat): State {
    var place := At(s, thread);
    if place.Idle? || place.index >= |s.slots| then s else
    match place
    case LoadOwner(a, i, p) => Go(s, thread, Exchange(a, i, p))
    case ReadOwner(a, _, _) => Observe(s, thread, a, 0)
    case ReadCount(a, i, _) => if earlier <= s.slots[i].count then Observe(s, thread, a, earlier) else s
    case _ => s
  }

  function Fire(s: State, event: Event): State {
    match event
    case StartRecord(thread, address) =>
      if At(s, thread).Idle? then
        Go(s, thread, LoadOwner(address, Index(address, 0), 0)).(started := Bump(s.started, address))
      else s
    case StartTotal(thread, address) =>
      if At(s, thread).Idle? then Go(s, thread, ReadOwner(address, Index(address, 0), 0)) else s
    case Continue(thread) => Advance(s, thread)
    case Lag(thread, earlier) => AdvanceLate(s, thread, earlier)
  }

  // ---- Invariant ----

  /** The first `probe` slots of the run of `address` are taken, by other addresses. */
  ghost predicate Passed(slots: seq<Slot>, address: Word, probe: nat)
    requires |slots| == SLOTS
  {
    forall q {:trigger Index(address, q)} | 0 <= q < probe ::
      slots[Index(address, q)].address != 0 && slots[Index(address, q)].address != address
  }

  ghost predicate Owns(slots: seq<Slot>, address: Word, probe: nat)
    requires |slots| == SLOTS
  {
    probe < PROBE_LIMIT && slots[Index(address, probe)].address == address && Passed(slots, address, probe)
  }

  ghost predicate Owned(slots: seq<Slot>, address: Word)
    requires |slots| == SLOTS
  {
    exists probe: nat :: Owns(slots, address, probe)
  }

  ghost predicate PlaceValid(slots: seq<Slot>, place: Place)
    requires |slots| == SLOTS
  {
    place.Idle? ||
    (&& place.address != 0 && place.probe < PROBE_LIMIT && place.index == Index(place.address, place.probe)
     && Passed(slots, place.address, place.probe)
     && (place.Reload? ==> slots[place.index].address != 0)
     && (place.AddOne? || place.ReadCount? ==> Owns(slots, place.address, place.probe)))
  }

  ghost predicate SlotValid(s: State, i: nat)
    requires |s.slots| == SLOTS && i < SLOTS
  {
    var slot := s.slots[i];
    && (slot.address == 0 ==> slot.count == 0)
    && (slot.address != 0 ==>
          slot.count == Tally(s.counted, slot.address) &&
          exists probe: nat :: i == Index(slot.address, probe) && Owns(s.slots, slot.address, probe))
  }

  ghost predicate Inv(s: State) {
    && |s.slots| == SLOTS
    && (forall i | 0 <= i < SLOTS :: SlotValid(s, i))
    && (forall thread | thread in s.threads :: PlaceValid(s.slots, s.threads[thread]))
    && (forall a: Word | Tally(s.counted, a) > 0 :: a != 0 && Owned(s.slots, a))
    && (forall a: Word | Tally(s.dropped, a) > 0 :: Passed(s.slots, a, PROBE_LIMIT))
    && (forall o | o in s.seen :: o.value <= o.truth)
  }

  /** Every `total` so far returned the number of calls counted when it looked. */
  predicate Exact(s: State) {
    forall o | o in s.seen :: o.value == o.truth
  }

  lemma NextIndex(address: Word, probe: nat)
    ensures (Index(address, probe) + 1) % SLOTS == Index(address, probe + 1)
  {
  }

  /** The bytes of one instruction share a first slot, the next instruction has the next one, and there are 65536. */
  lemma SlotsOfInstructions(address: Word, byte: nat)
    requires address % 4 == 0 && byte < 4
    ensures Index(0, 0) == 0 && Index(address + byte, 0) == Index(address, 0)
    ensures address + 4 < 0x1_0000_0000 ==>
      Index(address + 4, 0) == if Index(address, 0) == 0xFFFF then 0 else Index(address, 0) + 1
  {
  }

  /** An address owns at most one slot. */
  lemma OneSlot(s: State, i: nat, j: nat)
    requires Inv(s) && i < SLOTS && j < SLOTS && s.slots[i].address == s.slots[j].address != 0
    ensures i == j
  {
    hide Index;
    assert SlotValid(s, i) && SlotValid(s, j);
    var a := s.slots[i].address;
    var p: nat :| i == Index(a, p) && Owns(s.slots, a, p);
    var q: nat :| j == Index(a, q) && Owns(s.slots, a, q);
  }

  lemma OwnedNotPassed(slots: seq<Slot>, address: Word)
    requires |slots| == SLOTS && Owned(slots, address)
    ensures !Passed(slots, address, PROBE_LIMIT)
  {
    hide Index;
    var probe: nat :| Owns(slots, address, probe);
    assert slots[Index(address, probe)].address == address;
  }

  /** For each address either every completed call was counted or none was. */
  lemma AllOrNone(s: State, address: Word)
    requires Inv(s)
    ensures Tally(s.counted, address) == 0 || Tally(s.dropped, address) == 0
  {
    if Tally(s.counted, address) > 0 { OwnedNotPassed(s.slots, address); }
  }

  /** Taking an empty slot keeps every claim about the slots that were taken already. */
  ghost predicate Grown(slots: seq<Slot>, after: seq<Slot>) {
    && |slots| == |after| == SLOTS
    && forall i | 0 <= i < SLOTS :: slots[i].address != 0 ==> after[i].address == slots[i].address
  }

  lemma PassedGrown(slots: seq<Slot>, after: seq<Slot>, address: Word, probe: nat)
    requires Grown(slots, after) && Passed(slots, address, probe)
    ensures Passed(after, address, probe)
  {
    hide Index;
  }

  lemma OwnsGrown(slots: seq<Slot>, after: seq<Slot>, address: Word, probe: nat)
    requires Grown(slots, after) && address != 0 && Owns(slots, address, probe)
    ensures Owns(after, address, probe)
  {
    hide Index;
    PassedGrown(slots, after, address, probe);
  }

  lemma PlaceGrown(slots: seq<Slot>, after: seq<Slot>, place: Place)
    requires Grown(slots, after) && PlaceValid(slots, place)
    ensures PlaceValid(after, place)
  {
    hide Index;
    if !place.Idle? {
      PassedGrown(slots, after, place.address, place.probe);
      if Owns(slots, place.address, place.probe) { OwnsGrown(slots, after, place.address, place.probe); }
    }
  }

  lemma SlotGrown(s: State, t: State, i: nat)
    requires |s.slots| == SLOTS && i < SLOTS && SlotValid(s, i) && Grown(s.slots, t.slots)
    requires t.slots[i] == s.slots[i] && (t.slots[i].address != 0 ==>
      Tally(t.counted, s.slots[i].address) == Tally(s.counted, s.slots[i].address))
    ensures SlotValid(t, i)
  {
    hide Index;
    var a := s.slots[i].address;
    if a != 0 {
      var p: nat :| i == Index(a, p) && Owns(s.slots, a, p);
      OwnsGrown(s.slots, t.slots, a, p);
    }
  }

  /** An empty slot in its run says that the address has none yet. */
  lemma EmptyMeansUnowned(slots: seq<Slot>, address: Word, probe: nat)
    requires |slots| == SLOTS && address != 0 && Passed(slots, address, probe)
      && slots[Index(address, probe)].address == 0
    ensures !Owned(slots, address)
  {
    hide Index;
  }

  /** Everything but the slots: the threads that did not move keep their claims. */
  lemma OthersGrown(s: State, t: State, thread: int)
    requires Inv(s) && Grown(s.slots, t.slots)
    requires t.threads.Keys == s.threads.Keys + {thread} && PlaceValid(t.slots, t.threads[thread])
    requires forall k | k in s.threads && k != thread :: t.threads[k] == s.threads[k]
    ensures forall k | k in t.threads :: PlaceValid(t.slots, t.threads[k])
  {
    hide PlaceValid;
    forall k | k in t.threads ensures PlaceValid(t.slots, t.threads[k]) {
      if k != thread { PlaceGrown(s.slots, t.slots, s.threads[k]); }
    }
  }

  /** A step that only moves a thread. */
  lemma MoveKeepsInv(s: State, thread: int, place: Place)
    requires Inv(s) && PlaceValid(s.slots, place)
    ensures Inv(Go(s, thread, place))
  {
    var t := Go(s, thread, place);
    OthersGrown(s, t, thread);
    hide SlotValid, PlaceValid, Passed, Owned;
    forall i | 0 <= i < SLOTS ensures SlotValid(t, i) { SlotGrown(s, t, i); }
  }

  lemma NextProbeKeepsInv(s: State, thread: int, address: Word, index: nat, probe: nat)
    requires Inv(s) && address != 0 && probe < PROBE_LIMIT && index == Index(address, probe)
    requires Passed(s.slots, address, probe)
    requires s.slots[index].address != 0 && s.slots[index].address != address
    ensures Inv(NextProbe(s, thread, address, index, probe))
  {
    NextIndex(address, probe);
    hide Index;
    assert Passed(s.slots, address, probe + 1);
    if probe + 1 < PROBE_LIMIT {
      MoveKeepsInv(s, thread, LoadOwner(address, (index + 1) % SLOTS, probe + 1));
    } else {
      MoveKeepsInv(s, thread, Idle);
      var t := Go(s, thread, Idle);
      var u := NextProbe(s, thread, address, index, probe);
      hide SlotValid, PlaceValid, Passed, Owned;
      assert u == t.(dropped := u.dropped);
      forall i | 0 <= i < SLOTS ensures SlotValid(u, i) { SlotGrown(t, u, i); }
    }
  }

  lemma ClaimKeepsInv(s: State, thread: int, address: Word, index: nat, probe: nat)
    requires Inv(s) && address != 0 && probe < PROBE_LIMIT && index == Index(address, probe)
    requires Passed(s.slots, address, probe) && s.slots[index].address == 0
    ensures Inv(Go(s.(slots := s.slots[index := s.slots[index].(address := address)]), thread,
                   Reload(address, index, probe)))
  {
    hide Index;
    var t := Go(s.(slots := s.slots[index := s.slots[index].(address := address)]), thread,
                Reload(address, index, probe));
    EmptyMeansUnowned(s.slots, address, probe);
    PassedGrown(s.slots, t.slots, address, probe);
    assert SlotValid(s, index);
    assert Owns(t.slots, address, probe) && SlotValid(t, index);
    OthersGrown(s, t, thread);
    forall a: Word | Tally(t.counted, a) > 0 ensures a != 0 && Owned(t.slots, a) {
      var p: nat :| Owns(s.slots, a, p);
      OwnsGrown(s.slots, t.slots, a, p);
    }
    forall a: Word | Tally(t.dropped, a) > 0 ensures Passed(t.slots, a, PROBE_LIMIT) {
      PassedGrown(s.slots, t.slots, a, PROBE_LIMIT);
    }
    hide PlaceValid, Passed, Owned;
    forall i | 0 <= i < SLOTS ensures SlotValid(t, i) {
      if i != index { SlotGrown(s, t, i); }
    }
  }

  lemma AddKeepsInv(s: State, thread: int, address: Word, index: nat, probe: nat)
    requires Inv(s) && address != 0 && index == Index(address, probe) && Owns(s.slots, address, probe)
    ensures Inv(Go(s, thread, Idle).(slots := s.slots[index := s.slots[index].(count := s.slots[index].count + 1)],
                                     counted := Bump(s.counted, address)))
  {
    hide Index;
    var t := Go(s, thread, Idle).(slots := s.slots[index := s.slots[index].(count := s.slots[index].count + 1)],
                                  counted := Bump(s.counted, address));
    OthersGrown(s, t, thread);
    OwnsGrown(s.slots, t.slots, address, probe);
    assert SlotValid(s, index) && SlotValid(t, index);
    forall a: Word | Tally(t.counted, a) > 0 ensures a != 0 && Owned(t.slots, a) {
      if a != address {
        assert Tally(s.counted, a) > 0;
        var p: nat :| Owns(s.slots, a, p);
        OwnsGrown(s.slots, t.slots, a, p);
      }
    }
    forall a: Word | Tally(t.dropped, a) > 0 ensures Passed(t.slots, a, PROBE_LIMIT) {
      PassedGrown(s.slots, t.slots, a, PROBE_LIMIT);
    }
    forall i | 0 <= i < SLOTS && i != index ensures SlotValid(t, i) {
      if s.slots[i].address == address { OneSlot(s, i, index); }
      SlotGrown(s, t, i);
    }
  }

  lemma ObserveKeepsInv(s: State, thread: int, address: Word, value: nat)
    requires Inv(s) && value <= Tally(s.counted, address)
    ensures Inv(Observe(s, thread, address, value))
    ensures Exact(s) && value == Tally(s.counted, address) ==> Exact(Observe(s, thread, address, value))
  {
    MoveKeepsInv(s, thread, Idle);
    var t := Go(s, thread, Idle);
    var u := Observe(s, thread, address, value);
    hide SlotValid, PlaceValid, Passed, Owned;
    forall i | 0 <= i < SLOTS ensures SlotValid(u, i) { SlotGrown(t, u, i); }
  }

  lemma ReadKeepsInv(s: State, thread: int, place: Place)
    requires Inv(s) && At(s, thread) == place && PlaceValid(s.slots, place) && (place.ReadOwner? || place.ReadCount?)
    ensures Inv(Advance(s, thread)) && (Exact(s) ==> Exact(Advance(s, thread)))
  {
    var (a, i, p) := (place.address, place.index, place.probe);
    assert SlotValid(s, i);
    NextIndex(a, p);
    hide Index, SlotValid;
    if place.ReadCount? {
      SlotCounts(s, i);
      ObserveKeepsInv(s, thread, a, s.slots[i].count);
    } else if s.slots[i].address == a {
      MoveKeepsInv(s, thread, ReadCount(a, i, p));
    } else if s.slots[i].address == 0 {
      EmptyMeansUnowned(s.slots, a, p);
      ObserveKeepsInv(s, thread, a, 0);
    } else if p + 1 < PROBE_LIMIT {
      MoveKeepsInv(s, thread, ReadOwner(a, (i + 1) % SLOTS, p + 1));
    } else {
      assert Passed(s.slots, a, PROBE_LIMIT);
      if Owned(s.slots, a) { OwnedNotPassed(s.slots, a); }
      ObserveKeepsInv(s, thread, a, 0);
    }
  }

  /** Whoever saw an empty slot goes on to an exchange, which meets the latest value; a late `total` is too low. */
  lemma LateKeepsInv(s: State, thread: int, earlier: nat)
    requires Inv(s) && PlaceValid(s.slots, At(s, thread))
    ensures Inv(AdvanceLate(s, thread, earlier))
  {
    var place := At(s, thread);
    if place.LoadOwner? {
      MoveKeepsInv(s, thread, Exchange(place.address, place.index, place.probe));
    } else if place.ReadOwner? {
      ObserveKeepsInv(s, thread, place.address, 0);
    } else if place.ReadCount? {
      assert SlotValid(s, place.index);
      if earlier <= s.slots[place.index].count {
        SlotCounts(s, place.index);
        ObserveKeepsInv(s, thread, place.address, earlier);
      }
    }
    hide Inv, Observe, Exact, PlaceValid;
  }

  lemma SlotCounts(s: State, i: nat)
    requires |s.slots| == SLOTS && i < SLOTS && SlotValid(s, i) && s.slots[i].address != 0
    ensures s.slots[i].count == Tally(s.counted, s.slots[i].address)
  {
  }

  lemma RecordKeepsInv(s: State, thread: int, place: Place)
    requires Inv(s) && At(s, thread) == place && PlaceValid(s.slots, place)
    requires place.LoadOwner? || place.Exchange? || place.Reload? || place.AddOne?
    ensures Inv(Advance(s, thread))
  {
    var (a, i, p) := (place.address, place.index, place.probe);
    hide Index, SlotValid;
    match place {
      case LoadOwner(_, _, _) =>
        if s.slots[i].address == 0 { MoveKeepsInv(s, thread, Exchange(a, i, p)); }
        else if s.slots[i].address == a { MoveKeepsInv(s, thread, AddOne(a, i, p)); }
        else { NextProbeKeepsInv(s, thread, a, i, p); }
      case Exchange(_, _, _) =>
        if s.slots[i].address == 0 { ClaimKeepsInv(s, thread, a, i, p); }
        else { MoveKeepsInv(s, thread, Reload(a, i, p)); }
      case Reload(_, _, _) =>
        if s.slots[i].address == a { MoveKeepsInv(s, thread, AddOne(a, i, p)); }
        else { NextProbeKeepsInv(s, thread, a, i, p); }
      case AddOne(_, _, _) =>
        AddKeepsInv(s, thread, a, i, p);
    }
  }

  lemma StartKeepsInv(s: State, thread: int, address: Word)
    requires Inv(s) && address != 0
    ensures Inv(Go(s, thread, LoadOwner(address, Index(address, 0), 0)).(started := Bump(s.started, address)))
  {
    var place := LoadOwner(address, Index(address, 0), 0);
    MoveKeepsInv(s, thread, place);
    var t := Go(s, thread, place);
    var u := t.(started := Bump(s.started, address));
    hide SlotValid, PlaceValid, Passed, Owned;
    forall i | 0 <= i < SLOTS ensures SlotValid(u, i) { SlotGrown(t, u, i); }
  }

  predicate Proper(event: Event) {
    event.Continue? || event.Lag? || event.address != 0
  }

  lemma FireKeepsInv(s: State, event: Event)
    requires Inv(s) && Proper(event)
    ensures Inv(Fire(s, event))
  {
    match event
    case StartRecord(thread, address) =>
      if At(s, thread).Idle? { StartKeepsInv(s, thread, address); }
    case StartTotal(thread, address) =>
      if At(s, thread).Idle? { MoveKeepsInv(s, thread, ReadOwner(address, Index(address, 0), 0)); }
    case Continue(thread) =>
      var place := At(s, thread);
      assert PlaceValid(s.slots, place);
      if place.ReadOwner? || place.ReadCount? { ReadKeepsInv(s, thread, place); }
      else if !place.Idle? { RecordKeepsInv(s, thread, place); }
    case Lag(thread, earlier) =>
      assert PlaceValid(s.slots, At(s, thread));
      LateKeepsInv(s, thread, earlier);
  }

  /** Where loads see the latest value, `total` is exact. */
  lemma FireKeepsExact(s: State, event: Event)
    requires Inv(s) && Exact(s) && !event.Lag?
    ensures Exact(Fire(s, event))
  {
    if event.Continue? {
      var place := At(s, event.thread);
      assert PlaceValid(s.slots, place);
      if place.ReadOwner? || place.ReadCount? { ReadKeepsInv(s, event.thread, place); }
    }
    hide Inv, Index, Bump, PlaceValid;
  }

  // ---- Conservation ----

  /** Inside `record`. */
  predicate Busy(place: Place) {
    !place.Idle? && !place.ReadOwner? && !place.ReadCount?
  }

  predicate Recording(place: Place, address: Word) {
    Busy(place) && place.address == address
  }

  function Active(s: State, address: Word): set<int> {
    set thread | thread in s.threads && Recording(s.threads[thread], address)
  }

  /** Every call that was started is counted, dropped or still under way. */
  ghost predicate Conserved(s: State, address: Word) {
    Tally(s.started, address) == Tally(s.counted, address) + Tally(s.dropped, address) + |Active(s, address)|
  }

  lemma OneElement(a: set<int>, b: set<int>, x: int)
    requires a - {x} == b - {x}
    ensures |b| == |a| - (if x in a then 1 else 0) + (if x in b then 1 else 0)
  {
    assert a == if x in a then (a - {x}) + {x} else a - {x};
    assert b == if x in b then (b - {x}) + {x} else b - {x};
  }

  lemma ActiveAfter(s: State, t: State, thread: int, address: Word)
    requires t.threads.Keys == s.threads.Keys + {thread}
    requires forall k | k in s.threads && k != thread :: t.threads[k] == s.threads[k]
    ensures |Active(t, address)| == |Active(s, address)|
      - (if Recording(At(s, thread), address) then 1 else 0) + (if Recording(At(t, thread), address) then 1 else 0)
  {
    hide Recording;
    var a, b := Active(s, address), Active(t, address);
    forall k | k != thread ensures k in a <==> k in b {
      assert k in s.threads <==> k in t.threads;
    }
    assert a - {thread} == b - {thread};
    assert !Recording(Idle, address) by { ReadersNotRecording(address); }
    OneElement(a, b, thread);
  }

  lemma ReadersNotRecording(address: Word)
    ensures !Recording(Idle, address)
  {
  }

  /** What a step does to the tallies of one address and to the place of its own thread. */
  ghost predicate Delta(s: State, t: State, thread: int, address: Word) {
    && t.threads.Keys == s.threads.Keys + {thread}
    && (forall k | k in s.threads && k != thread :: t.threads[k] == s.threads[k])
    && Tally(t.started, address) - Tally(t.counted, address) - Tally(t.dropped, address) ==
         Tally(s.started, address) - Tally(s.counted, address) - Tally(s.dropped, address)
           - (if Recording(At(s, thread), address) then 1 else 0)
           + (if Recording(At(t, thread), address) then 1 else 0)
  }

  lemma MoveDelta(s: State, t: State, thread: int, place: Place, address: Word)
    requires Recording(place, address) == Recording(At(s, thread), address)
    requires t.threads == s.threads[thread := place]
    requires t.started == s.started && t.counted == s.counted && t.dropped == s.dropped
    ensures Delta(s, t, thread, address)
  {
  }

  lemma FinishDelta(s: State, t: State, thread: int, finished: Word, address: Word)
    requires Recording(At(s, thread), address) == (finished == address)
    requires t.threads == s.threads[thread := Idle] && t.started == s.started
    requires || (t.counted == Bump(s.counted, finished) && t.dropped == s.dropped)
             || (t.counted == s.counted && t.dropped == Bump(s.dropped, finished))
    ensures Delta(s, t, thread, address)
  {
  }

  lemma NextProbeDelta(s: State, thread: int, a: Word, i: nat, p: nat, address: Word)
    requires Recording(At(s, thread), address) == (a == address)
    ensures Delta(s, NextProbe(s, thread, a, i, p), thread, address)
  {
    var t := NextProbe(s, thread, a, i, p);
    if p + 1 < PROBE_LIMIT {
      MoveDelta(s, t, thread, LoadOwner(a, (i + 1) % SLOTS, p + 1), address);
    } else {
      FinishDelta(s, t, thread, a, address);
    }
  }

  lemma AdvanceDelta(s: State, thread: int, address: Word)
    ensures Advance(s, thread) == s || Delta(s, Advance(s, thread), thread, address)
  {
    var place := At(s, thread);
    if !place.Idle? && place.index < |s.slots| {
      if place.ReadOwner? || place.ReadCount? {
        ReadDelta(s, thread, address);
      } else {
        RecordDelta(s, thread, address);
      }
    }
  }

  lemma ReadDelta(s: State, thread: int, address: Word)
    requires var place := At(s, thread); (place.ReadOwner? || place.ReadCount?) && place.index < |s.slots|
    ensures Delta(s, Advance(s, thread), thread, address)
  {
    hide Delta;
    var t := Advance(s, thread);
    MoveDelta(s, t, thread, t.threads[thread], address);
  }

  lemma RecordDelta(s: State, thread: int, address: Word)
    requires var place := At(s, thread);
      !place.Idle? && !place.ReadOwner? && !place.ReadCount? && place.index < |s.slots|
    ensures Delta(s, Advance(s, thread), thread, address)
  {
    hide Delta, NextProbe;
    var t := Advance(s, thread);
    match At(s, thread)
    case AddOne(a, i, p) => FinishDelta(s, t, thread, a, address);
    case Exchange(a, i, p) => MoveDelta(s, t, thread, Reload(a, i, p), address);
    case LoadOwner(a, i, p) =>
      if s.slots[i].address == 0 { MoveDelta(s, t, thread, Exchange(a, i, p), address); }
      else if s.slots[i].address == a { MoveDelta(s, t, thread, AddOne(a, i, p), address); }
      else { NextProbeDelta(s, thread, a, i, p, address); }
    case Reload(a, i, p) =>
      if s.slots[i].address == a { MoveDelta(s, t, thread, AddOne(a, i, p), address); }
      else { NextProbeDelta(s, thread, a, i, p, address); }
  }

  lemma FireDelta(s: State, event: Event, address: Word)
    ensures Fire(s, event) == s || Delta(s, Fire(s, event), event.thread, address)
  {
    if event.Continue? {
      AdvanceDelta(s, event.thread, address);
    } else if event.Lag? {
      var t := Fire(s, event);
      if t != s { MoveDelta(s, t, event.thread, t.threads[event.thread], address); }
    } else if event.StartTotal? && At(s, event.thread).Idle? {
      MoveDelta(s, Fire(s, event), event.thread, Fire(s, event).threads[event.thread], address);
    }
  }

  lemma FireConserves(s: State, event: Event, address: Word)
    requires Conserved(s, address)
    ensures Conserved(Fire(s, event), address)
  {
    FireDelta(s, event, address);
    hide Fire, Active, Recording;
    var t := Fire(s, event);
    if t != s { ActiveAfter(s, t, event.thread, address); }
  }

  // ---- Runs ----

  function Run(s: State, events: seq<Event>): State
    decreases |events|
  {
    if events == [] then s else Run(Fire(s, events[0]), events[1..])
  }

  lemma InitialInv()
    ensures Inv(INITIAL)
  {
  }

  lemma {:induction false} RunKeepsInv(s: State, events: seq<Event>)
    requires Inv(s) && forall event | event in events :: Proper(event)
    ensures Inv(Run(s, events))
    decreases |events|
  {
    if events != [] {
      FireKeepsInv(s, events[0]);
      RunKeepsInv(Fire(s, events[0]), events[1..]);
    }
  }

  /** One slot keeps its owner, once it has one, and its count never falls. */
  ghost predicate Kept(slot: Slot, after: Slot) {
    (slot.address != 0 ==> after.address == slot.address) && slot.count <= after.count
  }

  /** Only an exchange and an addition change a slot, and only the one at hand. */
  lemma AdvanceSlots(s: State, thread: int)
    ensures var place := At(s, thread);
      var after := Advance(s, thread).slots;
      if place.Idle? || place.index >= |s.slots| then after == s.slots
      else if place.Exchange? && s.slots[place.index].address == 0 then
        after == s.slots[place.index := s.slots[place.index].(address := place.address)]
      else if place.AddOne? then
        after == s.slots[place.index := s.slots[place.index].(count := s.slots[place.index].count + 1)]
      else after == s.slots
  {
    hide Index, Bump, Tally, At;
  }

  lemma FireKept(s: State, event: Event, i: nat)
    requires i < |s.slots|
    ensures |Fire(s, event).slots| == |s.slots| && Kept(s.slots[i], Fire(s, event).slots[i])
  {
    if event.Continue? { AdvanceSlots(s, event.thread); }
    hide Index, Bump, Tally, Advance, At;
  }

  lemma {:induction false} RunKept(s: State, events: seq<Event>, i: nat)
    requires i < |s.slots|
    ensures |Run(s, events).slots| == |s.slots| && Kept(s.slots[i], Run(s, events).slots[i])
    decreases |events|
  {
    hide Fire;
    if events != [] {
      FireKept(s, events[0], i);
      RunKept(Fire(s, events[0]), events[1..], i);
    }
  }

  /** Over a whole run a taken slot stays with its address, and with it the address's only place in the table. */
  lemma OwnedForever(s: State, events: seq<Event>, address: Word, probe: nat)
    requires Inv(s) && address != 0 && Owns(s.slots, address, probe)
    ensures |Run(s, events).slots| == SLOTS && Owns(Run(s, events).slots, address, probe)
    ensures s.slots[Index(address, probe)].count <= Run(s, events).slots[Index(address, probe)].count
  {
    var t := Run(s, events);
    hide Run, Index;
    forall i | 0 <= i < |s.slots| ensures |t.slots| == |s.slots| && Kept(s.slots[i], t.slots[i]) {
      RunKept(s, events, i);
    }
    OwnsGrown(s.slots, t.slots, address, probe);
  }

  lemma {:induction false} RunKeepsExact(s: State, events: seq<Event>)
    requires Inv(s) && Exact(s) && forall event | event in events :: Proper(event) && !event.Lag?
    ensures Exact(Run(s, events))
    decreases |events|
  {
    hide Inv, Exact, Fire;
    if events != [] {
      assert events[0] in events;
      FireKeepsInv(s, events[0]);
      FireKeepsExact(s, events[0]);
      RunKeepsExact(Fire(s, events[0]), events[1..]);
    }
  }

  lemma {:induction false} RunConserves(s: State, events: seq<Event>, address: Word)
    requires Inv(s) && Conserved(s, address) && forall event | event in events :: Proper(event)
    ensures Conserved(Run(s, events), address)
    decreases |events|
  {
    if events != [] {
      FireKeepsInv(s, events[0]);
      FireConserves(s, events[0], address);
      RunConserves(Fire(s, events[0]), events[1..], address);
    }
  }

  /**
   After any interleaving, also with loads that see earlier values: the finished calls for an address
   were all counted or all dropped, and no `total` returned more than the number of calls counted when
   it looked. Where loads see the latest values, each returned just that number.
   */
  lemma AnyInterleaving(events: seq<Event>, address: Word)
    requires forall event | event in events :: Proper(event)
    ensures var s := Run(INITIAL, events);
      var finished := Tally(s.started, address) - |Active(s, address)|;
      && finished == Tally(s.counted, address) + Tally(s.dropped, address)
      && (Tally(s.counted, address) == 0 || Tally(s.dropped, address) == 0)
      && forall o | o in s.seen :: o.value <= o.truth
    ensures (forall event | event in events :: !event.Lag?) ==>
      forall o | o in Run(INITIAL, events).seen :: o.value == o.truth
  {
    InitialInv();
    assert Active(INITIAL, address) == {};
    RunKeepsInv(INITIAL, events);
    RunConserves(INITIAL, events, address);
    AllOrNone(Run(INITIAL, events), address);
    if forall event | event in events :: !event.Lag? { RunKeepsExact(INITIAL, events); }
  }

  // ---- Progress ----

  /** How many steps of its own a thread has left at most, wherever the others are. */
  function Left(place: Place): nat {
    match place
    case Idle => 0
    case LoadOwner(_, _, p) => if p < 8 then 3 * (8 - p) + 1 else 1
    case Exchange(_, _, p) => if p < 8 then 3 * (8 - p) else 3
    case Reload(_, _, p) => if p < 8 then 3 * (8 - p) - 1 else 2
    case AddOne(_, _, _) => 1
    case ReadOwner(_, _, p) => if p < 8 then 9 - p else 2
    case ReadCount(_, _, _) => 1
  }

  /** The thread's own step brings it closer to its end. */
  lemma AdvanceCloser(s: State, thread: int)
    requires Inv(s) && !At(s, thread).Idle?
    ensures Left(At(Advance(s, thread), thread)) < Left(At(s, thread))
  {
    var place := At(s, thread);
    assert PlaceValid(s.slots, place);
    hide Inv, PlaceValid, Bump, Tally;
    PlaceInside(s, thread);
  }

  lemma PlaceInside(s: State, thread: int)
    requires Inv(s)
    ensures var place := At(s, thread);
      !place.Idle? ==> place.index < |s.slots| && place.probe < 8 && place.index == Index(place.address, place.probe)
  {
    assert At(s, thread) == Idle || PlaceValid(s.slots, At(s, thread));
  }

  /** Steps that a thread takes itself; those of others, and what it cannot do while it is busy, are not among them. */
  function Own(events: seq<Event>, thread: int): nat {
    if events == [] then 0
    else (if events[0] == Continue(thread) then 1 else 0) + Own(events[1..], thread)
  }

  predicate Starts(event: Event, thread: int) {
    (event.StartRecord? || event.StartTotal?) && event.thread == thread
  }

  lemma OtherAdvanceStays(s: State, other: int, thread: int)
    requires other != thread
    ensures At(Advance(s, other), thread) == At(s, thread)
  {
    AdvanceDelta(s, other, 0);
    hide Advance, Recording, Tally;
  }

  lemma OtherStays(s: State, event: Event, thread: int)
    requires event.thread != thread
    ensures At(Fire(s, event), thread) == At(s, thread)
  {
    OtherAdvanceStays(s, event.thread, thread);
    hide Index, Bump, Tally, Advance;
  }

  /** A late load brings the thread closer as well, or leaves it where it is. */
  lemma LateNoFarther(s: State, thread: int, earlier: nat)
    requires Inv(s)
    ensures Left(At(AdvanceLate(s, thread, earlier), thread)) <= Left(At(s, thread))
  {
    PlaceInside(s, thread);
    hide Inv, Index, Bump, Tally;
  }

  lemma FireNoFarther(s: State, event: Event, thread: int)
    requires Inv(s) && !Starts(event, thread)
    ensures Left(At(Fire(s, event), thread)) <= Left(At(s, thread))
    ensures event == Continue(thread) && !At(s, thread).Idle? ==> Left(At(Fire(s, event), thread)) < Left(At(s, thread))
  {
    if event.thread != thread {
      OtherStays(s, event, thread);
    } else if event.Continue? {
      if !At(s, thread).Idle? { AdvanceCloser(s, thread); }
    } else {
      LateNoFarther(s, thread, event.earlier);
    }
    hide Inv, Advance, AdvanceLate, Left;
  }

  /**
   No call waits for another thread: whatever the others do, a thread that has taken as many steps
   of its own as it had left is done. That is at most 25 for a call of `record` and 9 for `total`.
   */
  lemma {:induction false} WaitFree(s: State, events: seq<Event>, thread: int)
    requires Inv(s) && forall event | event in events :: Proper(event) && !Starts(event, thread)
    requires Own(events, thread) >= Left(At(s, thread))
    ensures At(Run(s, events), thread) == Idle
    decreases |events|
  {
    hide Inv, Fire, Starts, Proper;
    LeftNone(At(s, thread));
    if events != [] {
      var (first, rest) := (events[0], events[1..]);
      assert first in events;
      FireKeepsInv(s, first);
      FireNoFarther(s, first, thread);
      WaitFree(Fire(s, first), rest, thread);
    }
  }

  lemma LeftNone(place: Place)
    ensures Left(place) == 0 <==> place == Idle
    ensures Left(place) <= 25 && (place.ReadOwner? || place.ReadCount? ==> Left(place) <= 9)
  {
  }

  // ---- What a call that runs alone comes to ----

  function Alone(s: State, thread: int, steps: nat): State
    decreases steps
  {
    if steps == 0 then s else Alone(Fire(s, Continue(thread)), thread, steps - 1)
  }

  /** One of the slots from `probe` on is free or the address's own. */
  ghost predicate HasRoom(slots: seq<Slot>, address: Word, probe: nat)
    requires |slots| == SLOTS
  {
    exists q {:trigger Index(address, q)} | probe <= q < 8 ::
      slots[Index(address, q)].address == 0 || slots[Index(address, q)].address == address
  }

  /** One more call was counted for the address, or dropped, and nothing else was. */
  ghost predicate Ended(s: State, t: State, address: Word, counted: bool) {
    && t.counted == (if counted then s.counted[address := Tally(s.counted, address) + 1] else s.counted)
    && t.dropped == (if counted then s.dropped else s.dropped[address := Tally(s.dropped, address) + 1])
    && t.started == s.started && t.seen == s.seen
  }

  ghost predicate SameTallies(s: State, t: State) {
    t.counted == s.counted && t.dropped == s.dropped && t.started == s.started
  }

  lemma RoomHere(slots: seq<Slot>, address: Word, probe: nat)
    requires |slots| == SLOTS && probe < 8
    ensures var owner := slots[Index(address, probe)].address;
      HasRoom(slots, address, probe) <==> owner == 0 || owner == address || HasRoom(slots, address, probe + 1)
  {
    hide Index;
    assert probe <= probe < 8;
  }

  lemma NoRoom(slots: seq<Slot>, address: Word)
    requires |slots| == SLOTS
    ensures !HasRoom(slots, address, 8)
  {
  }

  /** Where one step of a recording thread leads, and whether there still is room for its call. */
  ghost predicate Recorded(s: State, t: State, thread: int)
    requires |s.slots| == |t.slots| == SLOTS
  {
    var (place, next) := (At(s, thread), At(t, thread));
    !place.Idle? &&
    if next.Idle? then Ended(s, t, place.address, HasRoom(s.slots, place.address, place.probe))
    else
      && Recording(next, place.address) && SameTallies(s, t) && t.seen == s.seen
      && (HasRoom(t.slots, place.address, next.probe) <==> HasRoom(s.slots, place.address, place.probe))
  }

  lemma NextProbeRecorded(s: State, thread: int)
    requires Inv(s) && Busy(At(s, thread))
    requires var place := At(s, thread);
      place.index < SLOTS && place.probe < 8 && place.index == Index(place.address, place.probe)
      && s.slots[place.index].address != 0 && s.slots[place.index].address != place.address
    ensures var place := At(s, thread);
      var t := NextProbe(s, thread, place.address, place.index, place.probe);
      |t.slots| == SLOTS && Recorded(s, t, thread)
  {
    var place := At(s, thread);
    RoomHere(s.slots, place.address, place.probe);
    NoRoom(s.slots, place.address);
    hide Inv, Index, HasRoom;
  }

  lemma ExchangeRecorded(s: State, thread: int)
    requires Inv(s) && At(s, thread).Exchange?
    ensures var t := Advance(s, thread);
      |t.slots| == SLOTS && Recorded(s, t, thread)
  {
    PlaceInside(s, thread);
    var place := At(s, thread);
    var t := Advance(s, thread);
    hide Inv, Index;
    if s.slots[place.index].address == 0 {
      assert t.slots[Index(place.address, place.probe)].address == place.address;
      RoomHere(s.slots, place.address, place.probe);
      RoomHere(t.slots, place.address, place.probe);
    }
    hide HasRoom;
  }

  lemma RecordStep(s: State, thread: int)
    requires Inv(s) && Busy(At(s, thread))
    ensures var t := Advance(s, thread);
      |t.slots| == SLOTS && Recorded(s, t, thread)
  {
    var place := At(s, thread);
    PlaceInside(s, thread);
    assert PlaceValid(s.slots, place);
    RoomHere(s.slots, place.address, place.probe);
    hide Inv, Index, HasRoom, Passed;
    if place.Exchange? {
      ExchangeRecorded(s, thread);
    } else if place.AddOne? {
    } else {
      var owner := s.slots[place.index].address;
      if owner != 0 && owner != place.address { NextProbeRecorded(s, thread); }
    }
  }

  /**
   A thread inside `record` that alone takes steps ends within 25 of them. Its call is counted if one
   of the slots it has not passed is free or its own, and dropped exactly when all belong to others.
   */
  lemma {:induction false} RecordAlone(s: State, thread: int, steps: nat)
    requires Inv(s) && Busy(At(s, thread)) && steps >= Left(At(s, thread))
    ensures var (t, place) := (Alone(s, thread, steps), At(s, thread));
      At(t, thread) == Idle && Ended(s, t, place.address, HasRoom(s.slots, place.address, place.probe))
    decreases steps
  {
    hide Inv, Left, Advance, HasRoom, Busy, Recording;
    LeftNone(At(s, thread));
    BusyNotIdle(At(s, thread));
    RecordStep(s, thread);
    FireKeepsInv(s, Continue(thread));
    AdvanceCloser(s, thread);
    var t := Advance(s, thread);
    if At(t, thread).Idle? {
      AloneIdle(t, thread, steps - 1);
    } else {
      RecordingBusy(At(t, thread), At(s, thread).address);
      RecordAlone(t, thread, steps - 1);
    }
  }

  lemma BusyNotIdle(place: Place)
    ensures Busy(place) ==> !place.Idle?
  {
  }

  lemma RecordingBusy(place: Place, address: Word)
    requires !place.Idle? && Recording(place, address)
    ensures Busy(place) && place.address == address
  {
  }

  lemma {:induction false} AloneIdle(s: State, thread: int, steps: nat)
    requires At(s, thread).Idle?
    ensures Alone(s, thread, steps) == s
    decreases steps
  {
    if steps > 0 { AloneIdle(s, thread, steps - 1); }
  }

  /** From its start: the eight slots of the address decide. */
  lemma RecordRuns(s: State, thread: int, address: Word)
    requires Inv(s) && address != 0 && At(s, thread).Idle?
    ensures var begun := Fire(s, StartRecord(thread, address));
      var t := Alone(begun, thread, 25);
      && At(t, thread) == Idle && Tally(t.started, address) == Tally(s.started, address) + 1
      && Ended(begun, t, address, HasRoom(s.slots, address, 0))
  {
    var begun := Fire(s, StartRecord(thread, address));
    FireKeepsInv(s, StartRecord(thread, address));
    hide Inv, HasRoom, Index;
    LeftNone(At(begun, thread));
    RecordAlone(begun, thread, 25);
    hide Left, Alone;
  }

  /** A thread inside `total` that alone takes steps ends within 9 of them, with the number of counted calls. */
  lemma {:induction false} TotalAlone(s: State, thread: int, steps: nat)
    requires Inv(s) && (At(s, thread).ReadOwner? || At(s, thread).ReadCount?) && steps >= Left(At(s, thread))
    ensures var (t, a) := (Alone(s, thread, steps), At(s, thread).address);
      && At(t, thread) == Idle && SameTallies(s, t) && t.slots == s.slots
      && t.seen == s.seen + [Observation(a, Tally(s.counted, a), Tally(s.counted, a))]
    decreases steps
  {
    hide Inv, Left, Advance, Tally;
    LeftNone(At(s, thread));
    TotalStep(s, thread);
    FireKeepsInv(s, Continue(thread));
    AdvanceCloser(s, thread);
    var t := Advance(s, thread);
    if At(t, thread).Idle? {
      AloneIdle(t, thread, steps - 1);
    } else {
      TotalAlone(t, thread, steps - 1);
    }
  }

  lemma TotalStep(s: State, thread: int)
    requires Inv(s) && (At(s, thread).ReadOwner? || At(s, thread).ReadCount?)
    ensures var (t, place) := (Advance(s, thread), At(s, thread));
      && SameTallies(s, t) && t.slots == s.slots
      && if At(t, thread).Idle?
           then
             var count := Tally(s.counted, place.address);
             t.seen == s.seen + [Observation(place.address, count, count)]
         else
           && t.seen == s.seen && (At(t, thread).ReadOwner? || At(t, thread).ReadCount?)
           && At(t, thread).address == place.address
  {
    var place := At(s, thread);
    var (a, i, p) := (place.address, place.index, place.probe);
    PlaceInside(s, thread);
    assert PlaceValid(s.slots, place) && SlotValid(s, i);
    hide Inv, Index, Tally;
    if place.ReadCount? {
      SlotCounts(s, i);
    } else if s.slots[i].address == 0 {
      EmptyMeansUnowned(s.slots, a, p);
      UnownedNone(s, a);
    } else if s.slots[i].address != a && p + 1 == PROBE_LIMIT {
      assert Passed(s.slots, a, PROBE_LIMIT);
      if Owned(s.slots, a) { OwnedNotPassed(s.slots, a); }
      UnownedNone(s, a);
    }
    hide SlotValid, PlaceValid, Passed, Owned;
  }

  lemma UnownedNone(s: State, address: Word)
    requires Inv(s) && !Owned(s.slots, address)
    ensures Tally(s.counted, address) == 0
  {
  }

  /** The scan of `total` over one snapshot of the table. */
  method Total(s: State, address: Word) returns (count: nat)
    requires Inv(s) && address != 0
    ensures count == Tally(s.counted, address)
  {
    var index := Index(address, 0);
    var probe := 0;
    while probe < PROBE_LIMIT
      invariant probe <= PROBE_LIMIT && index == Index(address, probe) && Passed(s.slots, address, probe)
    {
      var owner := s.slots[index].address;
      if owner == address {
        assert SlotValid(s, index);
        return s.slots[index].count;
      }
      if owner == 0 {
        EmptyMeansUnowned(s.slots, address, probe);
        return 0;
      }
      NextIndex(address, probe);
      index := (index + 1) % SLOTS;
      probe := probe + 1;
    }
    if Owned(s.slots, address) { OwnedNotPassed(s.slots, address); }
    return 0;
  }
}
