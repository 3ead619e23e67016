/**
 Streams of any length. Between doorbells the guest fills the ring again, lap after lap; what the
 rounds do together is what one buffer with all their packets does.
 */
module Laps {
  import opened Words
  import opened GuestMemory
  import opened FetchBanks
  import opened Pm4
  import opened RingStream
  import opened Unseen
  import opened CommandMemory
  import opened Doorbells

  /** The guest leaves this memory and then rings the doorbell. */
  datatype Round = Round(memory: Memory, pointer: Word)

  function Refilled(s: State, memory: Memory): (r: State)
    requires s.Valid()
    ensures r.Valid()
  {
    s.(gpu := s.gpu.(memory := memory))
  }

  function RunRound(host: Host, s: State, round: Round): (r: State)
    requires s.Valid()
    ensures r.Valid()
  {
    Doorbell(host, Refilled(s, round.memory), round.pointer)
  }

  function RunRounds(host: Host, s: State, rounds: seq<Round>): (r: State)
    requires s.Valid()
    ensures r.Valid()
    decreases |rounds|
  {
    if rounds == [] then s else RunRounds(host, RunRound(host, s, rounds[0]), rounds[1..])
  }

  /**
   The guest writes inside `unread` only. What the buffer still holds does not read there, and its next
   packets are those up to the pointer, as memory has them when the doorbell rings.
   */
  ghost predicate RoundFits(host: Host, s: State, round: Round, address: int, offset: int, count: int, kept: Region,
                            unread: Region)
    requires s.Valid()
  {
    var t := Refilled(s, round.memory);
    && Alike(s.gpu.memory, round.memory, unread)
    && BufferUnseen(host, s.gpu, address, offset, count, 0, unread)
    && StreamAt(host, t, round.pointer, address, offset, kept)
    && offset + Distance(round.pointer % s.size, s.at, s.size) <= count
  }

  /** Round after round up to the end of the buffer. */
  ghost predicate RoundsFit(host: Host, s: State, rounds: seq<Round>, address: int, offset: int, count: int,
                            kept: Region,
                            unread: Region)
    requires s.Valid()
    decreases |rounds|
  {
    if rounds == [] then offset == count
    else
      && s.size != 0 && RoundFits(host, s, rounds[0], address, offset, count, kept, unread)
      && RoundsFit(host, RunRound(host, s, rounds[0]), rounds[1..], address,
                   offset + Distance(rounds[0].pointer % s.size, s.at, s.size), count, kept, unread)
  }

  lemma WriteBackInside(g: Gpu, writeback: int, at: int, unread: Region)
    requires g.Valid() && (writeback == 0 || WordIn(writeback, unread))
    ensures Related(g, WriteBack(g, writeback, at), unread)
  {
    if writeback != 0 { StoreInside(g.memory, unread, writeback, at); }
    hide StoreBE, WordIn;
  }

  lemma RefilledRelated(s: State, memory: Memory, unread: Region)
    requires s.Valid() && Alike(s.gpu.memory, memory, unread)
    ensures Related(s.gpu, Refilled(s, memory).gpu, unread)
  {
    hide Alike;
  }

  /** One doorbell takes the next packets of the buffer, and leaves the rest of it. */
  lemma DoorbellAdvances(host: Host, s: State, pointer: Word, address: int, offset: int, count: int, kept: Region)
    requires s.Valid() && StreamAt(host, s, pointer, address, offset, kept)
    requires offset + Distance(pointer % s.size, s.at, s.size) <= count
    ensures var n := Distance(pointer % s.size, s.at, s.size);
      var run := RingRun(host, s.gpu, s.base, s.size, s.at, pointer % s.size, n);
      var r := Doorbell(host, s, pointer);
      && r.gpu == WriteBack(run.gpu, s.writeback, run.at) && r.writeback == s.writeback && r.size == s.size
      && BufferRun(host, s.gpu, address, offset, count, 0) == BufferRun(host, run.gpu, address, offset + n, count, 0)
  {
    hide Distance, Doorbell, WriteBack, BufferRun, RingRun, Complete, Twins, RingSize, RingKeeps, PlainStream, DwordsIn;
    hide Agree;
    var n := Distance(pointer % s.size, s.at, s.size);
    StreamTwins(host, s, pointer, address, offset, kept);
    DoorbellRuns(host, s, pointer);
    RingIsBuffer(host, s.gpu, s.base, s.size, s.at, pointer % s.size, address, offset, offset + n);
    BufferSplits(host, s.gpu, s.base, s.size, s.at, n, address, offset, count);
  }

  lemma RoundAdvances(host: Host, s: State, round: Round, address: int, offset: int, count: int, kept: Region,
                      unread: Region)
    requires s.Valid() && (s.writeback == 0 || WordIn(s.writeback, unread))
    requires s.size != 0 && RoundFits(host, s, round, address, offset, count, kept, unread)
    ensures var n := Distance(round.pointer % s.size, s.at, s.size);
      var t := Refilled(s, round.memory);
      var run := RingRun(host, t.gpu, t.base, t.size, t.at, round.pointer % t.size, n);
      var r := RunRound(host, s, round);
      && r.writeback == s.writeback && Related(run.gpu, r.gpu, unread)
      && Related(BufferRun(host, s.gpu, address, offset, count, 0),
                 BufferRun(host, run.gpu, address, offset + n, count, 0), unread)
  {
    hide Distance, Doorbell, WriteBack, BufferRun, RingRun, BufferUnseen, StreamAt, Alike, Related, WordIn;
    var t := Refilled(s, round.memory);
    var n := Distance(round.pointer % s.size, s.at, s.size);
    RefilledRelated(s, round.memory, unread);
    DoorbellAdvances(host, t, round.pointer, address, offset, count, kept);
    BufferRunRelated(host, s.gpu, t.gpu, unread, address, offset, count, 0);
    var run := RingRun(host, t.gpu, t.base, t.size, t.at, round.pointer % t.size, n);
    WriteBackInside(run.gpu, t.writeback, run.at, unread);
  }

  /**
   However many laps the rounds take, and whatever the guest writes into the ring in between: all
   state but the region in which the guest writes ends as one buffer with all the packets would leave it.
   */
  lemma {:induction false} LapsAreBuffer(host: Host, s: State, rounds: seq<Round>, address: int, offset: int,
                                         count: int,
                                         kept: Region, unread: Region)
    requires s.Valid() && (s.writeback == 0 || WordIn(s.writeback, unread))
    requires RoundsFit(host, s, rounds, address, offset, count, kept, unread)
    ensures Related(BufferRun(host, s.gpu, address, offset, count, 0), RunRounds(host, s, rounds).gpu, unread)
    decreases |rounds|
  {
    hide Distance, BufferRun, RingRun, BufferUnseen, RunRound, RoundFits, Related, WordIn;
    if rounds == [] {
      BufferRunDone(host, s.gpu, address, offset, count, 0);
      SelfRelated(s.gpu, unread);
    } else {
      var n := Distance(rounds[0].pointer % s.size, s.at, s.size);
      var t := Refilled(s, rounds[0].memory);
      var run := RingRun(host, t.gpu, t.base, t.size, t.at, rounds[0].pointer % t.size, n);
      var r := RunRound(host, s, rounds[0]);
      RoundAdvances(host, s, rounds[0], address, offset, count, kept, unread);
      LapsAreBuffer(host, r, rounds[1..], address, offset + n, count, kept, unread);
      RelatedBack(run.gpu, r.gpu, unread);
      RestUnseen(host, r, rounds[1..], address, offset + n, count, kept, unread);
      BufferRunRelated(host, r.gpu, run.gpu, unread, address, offset + n, count, 0);
      RelatedBack(BufferRun(host, r.gpu, address, offset + n, count, 0),
                  BufferRun(host, run.gpu, address, offset + n, count, 0), unread);
      RelatedOn(BufferRun(host, s.gpu, address, offset, count, 0),
                BufferRun(host, run.gpu, address, offset + n, count, 0),
                BufferRun(host, r.gpu, address, offset + n, count, 0), unread);
      RelatedOn(BufferRun(host, s.gpu, address, offset, count, 0),
                BufferRun(host, r.gpu, address, offset + n, count, 0),
                RunRounds(host, s, rounds).gpu, unread);
    }
  }

  lemma SelfRelated(g: Gpu, unread: Region)
    requires g.Valid()
    ensures Related(g, g, unread)
  {
  }

  lemma RestUnseen(host: Host, s: State, rounds: seq<Round>, address: int, offset: int, count: int, kept: Region,
                   unread: Region)
    requires s.Valid() && RoundsFit(host, s, rounds, address, offset, count, kept, unread)
    ensures BufferUnseen(host, s.gpu, address, offset, count, 0, unread)
  {
    hide StreamAt, Alike, Distance;
  }

  /** The whole buffer, from its start. */
  lemma LapsAreProcessBuffer(host: Host, s: State, rounds: seq<Round>, address: int, count: int, kept: Region,
                             unread: Region)
    requires s.Valid() && (s.writeback == 0 || WordIn(s.writeback, unread)) && count <= MAX_DWORDS
    requires RoundsFit(host, s, rounds, address, 0, count, kept, unread)
    ensures Related(ProcessBuffer(host, s.gpu, address, count, 0), RunRounds(host, s, rounds).gpu, unread)
  {
    hide BufferRun, RunRounds, RoundsFit, Related, WordIn;
    LapsAreBuffer(host, s, rounds, address, 0, count, kept, unread);
  }
}
