/** The ring as the title drives it: setup, doorbells and the read pointer it polls. */
module Doorbells {
  import opened Words
  import opened Arithmetic
  import opened Bits
  import opened GuestMemory
  import opened FetchBanks
  import opened Pm4
  import opened RingStream
  import opened Unseen
  import opened CommandMemory

  const MMIO_BASE := 0x7FC8_0000
  const MMIO_SIZE := 0x1_0000
  const MMIO_REGISTERS := 0x2000
  const CP_RB_BASE := 0x1C0
  const CP_RB_CNTL := 0x1C1
  const CP_RB_RPTR_ADDR := 0x1C3
  const CP_RB_WPTR := 0x1C5

  datatype State = State(
    gpu: Gpu,
    mmio: seq<int>,
    mmioWrites: int,
    base: int,
    size: int,
    at: int,
    writePointer: int,
    writeback: int)
  {
    ghost predicate Valid() {
      && gpu.Valid()
      && |mmio| == MMIO_REGISTERS
      && 0 <= base < 0x1_0000_0000
      && (size == 0 || RingSize(size))
      && 0 <= at < 0x4000_0000
      && 0 <= writePointer < 0x1_0000_0000
    }
  }

  const CLEAR_GPU := Gpu(
    CLEAR, Fetches(seq(96, _ => 0), 0), Shader(0, 0), Shader(0, 0), map[], 0, 0, 0, false, 0, 0, 0, 0, 0, 0,
    seq(0x100, _ => 0))

  /** A power of two that divides the range of a word. */
  ghost predicate RingSize(size: int) {
    exists log2: nat :: log2 <= 30 && size == Pow2(log2)
  }

  lemma {:induction false} Pow2Splits(n: nat, k: nat)
    requires k <= n
    ensures Pow2(k) * Pow2(n - k) == Pow2(n)
    decreases k
  {
    if k > 0 {
      Pow2Splits(n - 1, k - 1);
      assert Pow2(n) == 2 * Pow2(n - 1) && Pow2(k) == 2 * Pow2(k - 1);
      Twice(Pow2(k - 1), Pow2(n - k));
    }
  }

  lemma Twice(a: int, b: int)
    ensures (2 * a) * b == 2 * (a * b)
  {
  }

  lemma Pow2Of32()
    ensures Pow2(30) == 0x4000_0000 && Pow2(32) == 0x1_0000_0000
  {
    assert Pow2(8) == 0x100;
    Pow2Splits(16, 8);
    Pow2Splits(32, 16);
    Pow2Splits(30, 14);
    assert Pow2(14) == 0x4000;
  }

  /** A ring size divides the range of a word and is at most 2^30. */
  lemma RingSizeDivides(size: int) returns (factor: int)
    requires RingSize(size)
    ensures 1 <= size <= 0x4000_0000 && size * factor == 0x1_0000_0000
  {
    var log2: nat :| log2 <= 30 && size == Pow2(log2);
    Pow2Of32();
    Pow2Splits(32, log2);
    Pow2Splits(30, log2);
    factor := Pow2(32 - log2);
    assert Pow2(30 - log2) >= 1;
    AtMostProduct(size, Pow2(30 - log2));
  }

  lemma RingSizeBounded(size: int)
    requires RingSize(size)
    ensures 1 <= size <= 0x4000_0000
  {
    var factor := RingSizeDivides(size);
  }

  lemma AtMostProduct(a: int, b: int)
    requires a >= 1 && b >= 1
    ensures a <= a * b
  {
  }

  /** How many dwords a doorbell makes available, in 32-bit arithmetic. */
  function Available(target: int, size: int, at: int): int
    requires size > 0
  {
    Wrap(target + size - at) % size
  }

  /** The 32-bit computation is exact, also when the ring was shrunk under the read pointer. */
  lemma AvailableExact(target: int, size: int, at: int)
    requires RingSize(size)
    ensures Available(target, size, at) == Distance(target, at, size)
  {
    var factor := RingSizeDivides(size);
    var x := target + size - at;
    var k := x / 0x1_0000_0000;
    Reassociate(size, factor, k);
    assert Wrap(x) == (target - at) + size * (1 - factor * k);
    ModShift(target - at, 1 - factor * k, size);
  }

  lemma Reassociate(a: int, b: int, c: int)
    ensures a * b * c == a * (b * c)
    ensures a - a * (b * c) == a * (1 - b * c)
  {
  }

  // ---- What the title can do ----

  function SizeFor(sizeLog2: int): (r: int)
    requires 0 <= sizeLog2
    ensures r == 0 || RingSize(r)
  {
    if sizeLog2 < 30 then Pow2(sizeLog2 + 1) else 0
  }

  function InitializeRingBuffer(s: State, address: Word, sizeLog2: Word): (r: State)
    requires s.Valid()
    ensures r.Valid()
  {
    s.(base := address, size := SizeFor(sizeLog2), at := 0, writePointer := 0)
  }

  function ProcessRing(host: Host, s: State): (r: State)
    requires s.Valid()
    ensures r.Valid()
  {
    if s.base == 0 || s.size == 0 then s
    else
      RingSizeBounded(s.size);
      var target := s.writePointer % s.size;
      var run := RingRun(host, s.gpu, s.base, s.size, s.at, target, Available(target, s.size, s.at));
      RunKeepsPointer(host, s.gpu, s.base, s.size, s.at, target, Available(target, s.size, s.at));
      s.(gpu := WriteBack(run.gpu, s.writeback, run.at), at := run.at)
  }

  function WriteBack(g: Gpu, writeback: int, at: int): (r: Gpu)
    requires g.Valid()
    ensures r.Valid()
  {
    if writeback == 0 then g else g.(memory := StoreBE(g.memory, writeback, at))
  }

  lemma {:induction false} RunKeepsPointer(host: Host, g: Gpu, base: int, size: int, at: int, target: int,
                                           available: int)
    requires g.Valid() && 0 < size <= 0x4000_0000 && 0 <= at < 0x4000_0000
    ensures 0 <= RingRun(host, g, base, size, at, target, available).at < 0x4000_0000
    decreases available
  {
    hide RingPacket, RingLoad, LengthOf;
    if at != target && available > 0 {
      var length := NextLength(g, base, size, at);
      if length <= available {
        RunKeepsPointer(host, Step(host, g, base, size, at, available), base, size, Turn(at, length, size), target,
                        available - length);
      }
    }
  }

  function Write(host: Host, s: State, address: Word, value: int, width: int): (r: State)
    requires s.Valid()
    ensures r.Valid()
  {
    var t := s.(mmioWrites := s.mmioWrites + 1);
    var index := (address - MMIO_BASE) / 4;
    var word := Wrap(value);
    if address < MMIO_BASE || address >= MMIO_BASE + MMIO_SIZE || width != 4 || index >= MMIO_REGISTERS then t
    else
      var u := t.(mmio := t.mmio[index := word]);
      if index == CP_RB_BASE then u.(base := word)
      else if index == CP_RB_CNTL then u.(size := SizeFor(word % 0x40))
      else if index == CP_RB_RPTR_ADDR then u.(writeback := PhysicalToGuest(WordAligned(word % 0x4000_0000)))
      else if index == CP_RB_WPTR then ProcessRing(host, u.(writePointer := word))
      else u
  }

  function Doorbell(host: Host, s: State, pointer: Word): (r: State)
    requires s.Valid()
    ensures r.Valid()
  {
    Write(host, s, MMIO_BASE + 4 * CP_RB_WPTR, pointer, 4)
  }

  lemma DoorbellRuns(host: Host, s: State, pointer: Word)
    requires s.Valid() && s.base != 0 && s.size != 0
    ensures var target := pointer % s.size;
      var run := RingRun(host, s.gpu, s.base, s.size, s.at, target, Distance(target, s.at, s.size));
      Doorbell(host, s, pointer) == s.(
        gpu := WriteBack(run.gpu, s.writeback, run.at), at := run.at, writePointer := pointer,
        mmio := s.mmio[CP_RB_WPTR := pointer], mmioWrites := s.mmioWrites + 1)
  {
    hide RingRun, WriteBack, RingSize, Available, Distance;
    AvailableExact(pointer % s.size, s.size, s.at);
  }

  // ---- What setting up a ring and writing its registers mean ----

  /** A ring of 8 * 2^k bytes, for k below 30, and none otherwise. */
  ghost predicate RingOf(size: int, k: int) {
    if 0 <= k < 30 then 4 * size == 8 * Pow2(k) else size == 0
  }

  lemma SizeForBlocks(sizeLog2: int)
    requires 0 <= sizeLog2
    ensures RingOf(SizeFor(sizeLog2), sizeLog2)
  {
  }

  /** Setup fixes the ring's place and size and empties it, and changes nothing else. */
  lemma SetupOutcome(s: State, address: Word, sizeLog2: Word)
    requires s.Valid()
    ensures var r := InitializeRingBuffer(s, address, sizeLog2);
      && RingOf(r.size, sizeLog2) && r.base == address
      && r == s.(base := address, size := r.size, at := 0, writePointer := 0)
  {
    SizeForBlocks(sizeLog2);
    hide SizeFor, RingSize;
  }

  /** The word range of the registers. */
  predicate IsRegister(address: int, width: int) {
    0x7FC8_0000 <= address < 0x7FC8_8000 && width == 4
  }

  function Noted(s: State, address: Word, word: int): State
    requires s.Valid() && IsRegister(address, 4)
  {
    s.(mmioWrites := s.mmioWrites + 1, mmio := s.mmio[(address - 0x7FC8_0000) / 4 := word])
  }

  /** Other writes are counted and have no effect. */
  lemma WriteElsewhere(host: Host, s: State, address: Word, value: int, width: int)
    requires s.Valid() && !IsRegister(address, width)
    ensures Write(host, s, address, value, width) == s.(mmioWrites := s.mmioWrites + 1)
  {
    hide ProcessRing, SizeFor, RingSize, Wrap, PhysicalToGuest, WordAligned;
  }

  lemma RegisterIndex(address: int)
    requires IsRegister(address, 4)
    ensures 0 <= (address - MMIO_BASE) / 4 < MMIO_REGISTERS
    ensures (address - MMIO_BASE) / 4 == address / 4 - 0x1FF2_0000
  {
  }

  lemma PointerWord(word: Word)
    ensures PhysicalToGuest(WordAligned(word % 0x4000_0000))
      == 0x6000_0000 + (word % 0x4000_0000 - word % 4) % 0x2000_0000
  {
    assert word % 0x4000_0000 % 4 == word % 4;
  }

  /** The four registers of the ring at their addresses; every other register only keeps its word. */
  lemma WriteOutcome(host: Host, s: State, address: Word, value: int)
    requires s.Valid() && IsRegister(address, 4)
    ensures var word := value % 0x1_0000_0000;
      var r := Write(host, s, address, value, 4);
      var u := Noted(s, address, word);
      match address - address % 4
      case 0x7FC8_0700 => r == u.(base := word)
      case 0x7FC8_0704 => r == u.(size := r.size) && RingOf(r.size, word % 64)
      case 0x7FC8_070C => r == u.(writeback := 0x6000_0000 + (word % 0x4000_0000 - word % 4) % 0x2000_0000)
      case 0x7FC8_0714 => r == ProcessRing(host, u.(writePointer := word))
      case _ => r == u
  {
    RegisterIndex(address);
    PointerWord(Wrap(value));
    SizeForBlocks(Wrap(value) % 0x40);
    assert address - address % 4 == 4 * (address / 4);
    hide SizeFor, ProcessRing, RingSize, RingOf, PhysicalToGuest, WordAligned;
  }

  /** On a ring of 2^k blocks, any number of dwords below 2^(k + 1) can be waiting, and no more. */
  lemma AvailableInRing(s: State, address: Word, sizeLog2: Word, at: int, pointer: Word, n: nat)
    requires s.Valid() && sizeLog2 < 30 && 0 <= at
    ensures var size := InitializeRingBuffer(s, address, sizeLog2).size;
      && size > 0 && 0 <= Available(pointer % size, size, at) < 2 * Pow2(sizeLog2)
      && (n < 2 * Pow2(sizeLog2) ==> Available((at + n) % size, size, at) == n)
  {
    var size := InitializeRingBuffer(s, address, sizeLog2).size;
    SizeForBlocks(sizeLog2);
    RingSizeBounded(size);
    AvailableExact(pointer % size, size, at);
    if n < size {
      AvailableExact((at + n) % size, size, at);
      DistanceOf(at, n, size);
    }
    hide Available, RingSize, Pow2;
  }

  // ---- One doorbell is one buffer ----

  /**
   Ringing the doorbell over complete packets does to the GPU what decoding a buffer with the same
   packets does, but for the read pointer that is written back, and leaves nothing unread.
   */
  lemma DoorbellIsBuffer(host: Host, s: State, pointer: Word, address: int)
    requires s.Valid() && s.base != 0 && s.size != 0
    requires var n := Distance(pointer % s.size, s.at, s.size);
      && n <= MAX_DWORDS
      && Complete(host, s.gpu, s.base, s.size, s.at, n)
      && Twins(host, s.gpu, s.base, s.size, s.at, n, address, 0)
    ensures var n := Distance(pointer % s.size, s.at, s.size);
      var r := Doorbell(host, s, pointer);
      && r.gpu == WriteBack(ProcessBuffer(host, s.gpu, address, n, 0), s.writeback, r.at)
      && Distance(pointer % s.size, r.at, s.size) == 0
  {
    hide RingRun, BufferRun, Complete, Twins, Doorbell, WriteBack;
    var target := pointer % s.size;
    var n := Distance(target, s.at, s.size);
    DoorbellRuns(host, s, pointer);
    RingIsBuffer(host, s.gpu, s.base, s.size, s.at, target, address, 0, n);
    Folded(0, s.size);
  }

  // ---- How the stream is cut into doorbells does not matter ----

  /** Nothing up to the target reads the word that the read pointer is written back to. */
  ghost predicate Unobserved(host: Host, g: Gpu, base: int, size: int, at: int, target: int, available: int,
                             writeback: int)
    requires g.Valid() && size > 0
  {
    writeback == 0 ||
    (RingApart(base, size, WordOf(writeback)) && RingUnseen(host, g, base, size, at, target, available,
                                                            WordOf(writeback)))
  }

  lemma WriteBackRelated(g: Gpu, writeback: int, at: int)
    requires g.Valid() && writeback != 0
    ensures Related(g, WriteBack(g, writeback, at), WordOf(writeback))
  {
    hide StoreBE;
    StoreWord(g.memory, g.memory, writeback, at);
  }

  lemma WriteBackSame(g: Gpu, g': Gpu, writeback: int, at: int)
    requires Related(g, g', WordOf(writeback)) && writeback != 0
    ensures WriteBack(g, writeback, at) == WriteBack(g', writeback, at)
  {
    hide StoreBE, Alike;
    StoreWord(g.memory, g'.memory, writeback, at);
  }

  /** A run that does not read the written-back word ends the same, once its own pointer is written back. */
  lemma RunIgnoresWriteBack(host: Host, g: Gpu, base: int, size: int, at: int, target: int, available: int,
                            writeback: int)
    requires g.Valid() && size > 0 && Unobserved(host, g, base, size, at, target, available, writeback)
    ensures var run := RingRun(host, g, base, size, at, target, available);
      var run' := RingRun(host, WriteBack(g, writeback, at), base, size, at, target, available);
      run'.at == run.at && WriteBack(run'.gpu, writeback, run.at) == WriteBack(run.gpu, writeback, run.at)
  {
    hide RingRun, RingApart, RingUnseen, Related;
    if writeback != 0 {
      WriteBackRelated(g, writeback, at);
      hide WriteBack;
      RingRunRelated(host, g, WriteBack(g, writeback, at), WordOf(writeback), base, size, at, target, available);
      var run := RingRun(host, g, base, size, at, target, available);
      var run' := RingRun(host, WriteBack(g, writeback, at), base, size, at, target, available);
      WriteBackSame(run.gpu, run'.gpu, writeback, run.at);
    }
  }

  /** `first` is a packet boundary on the way to `second`, and the title does not look in between. */
  ghost predicate Boundary(host: Host, s: State, first: Word, second: Word)
    requires s.Valid() && s.base != 0 && s.size != 0
  {
    var n := Distance(first % s.size, s.at, s.size);
    var m := Distance(second % s.size, s.at, s.size);
    var half := RingRun(host, s.gpu, s.base, s.size, s.at, first % s.size, n);
    && n <= m
    && Complete(host, s.gpu, s.base, s.size, s.at, n)
    && Unobserved(host, half.gpu, s.base, s.size, half.at, second % s.size, m - n, s.writeback)
  }

  lemma Landing(target: int, at: int, size: int)
    requires 0 <= target < size && 0 <= at
    ensures 0 <= Distance(target, at, size) < size
    ensures Turn(at, Distance(target, at, size), size) == target
  {
    Arrived(target, at, size, Distance(target, at, size));
  }

  /** Two doorbells that end as the second alone, but for the count of register writes. */
  ghost predicate EndAsOne(host: Host, s: State, first: Word, second: Word)
    requires s.Valid()
  {
    Doorbell(host, Doorbell(host, s, first), second) == Doorbell(host, s, second).(mmioWrites := s.mmioWrites + 2)
  }

  /** The rest of the stream, from where the first run stopped and from what it wrote back there. */
  ghost predicate SameRest(host: Host, g: Gpu, base: int, size: int, at: int, target: int, available: int,
                           writeback: int)
    requires g.Valid() && size > 0
  {
    var run := RingRun(host, g, base, size, at, target, available);
    var run' := RingRun(host, WriteBack(g, writeback, at), base, size, at, target, available);
    run'.at == run.at && WriteBack(run'.gpu, writeback, run'.at) == WriteBack(run.gpu, writeback, run.at)
  }

  /** Cut at a packet boundary, two doorbells end as one exactly when the rest does not show the cut. */
  lemma EndAsOneIff(host: Host, s: State, first: Word, second: Word)
    requires s.Valid() && s.base != 0 && s.size != 0
    requires var n := Distance(first % s.size, s.at, s.size);
      n <= Distance(second % s.size, s.at, s.size) && Complete(host, s.gpu, s.base, s.size, s.at, n)
    ensures var n := Distance(first % s.size, s.at, s.size);
      var half := RingRun(host, s.gpu, s.base, s.size, s.at, first % s.size, n);
      EndAsOne(host, s, first, second) <==>
        SameRest(host, half.gpu, s.base, s.size, half.at, second % s.size, Distance(second % s.size, s.at, s.size) - n,
                 s.writeback)
  {
    hide RingRun, Doorbell, WriteBack, Distance, Complete, RingSize;
    RingSizeBounded(s.size);
    var t := Doorbell(host, s, first);
    DoorbellRuns(host, s, first);
    DoorbellRuns(host, s, second);
    DoorbellRuns(host, t, second);
    RunsMeet(host, s.gpu, s.base, s.size, s.at, first % s.size, second % s.size);
    assert s.mmio[CP_RB_WPTR := first][CP_RB_WPTR := second] == s.mmio[CP_RB_WPTR := second];
  }

  /** The long run goes on where the first one stopped. */
  lemma RunsMeet(host: Host, g: Gpu, base: int, size: int, at: int, middle: int, target: int)
    requires g.Valid() && 0 <= at && 0 <= middle < size && 0 <= target < size
    requires Distance(middle, at, size) <= Distance(target, at, size)
      && Complete(host, g, base, size, at, Distance(middle, at, size))
    ensures var (n, m) := (Distance(middle, at, size), Distance(target, at, size));
      var half := RingRun(host, g, base, size, at, middle, n);
      && Distance(target, half.at, size) == m - n
      && RingRun(host, g, base, size, at, target, m) == RingRun(host, half.gpu, base, size, half.at, target, m - n)
  {
    hide RingRun, Distance, Complete, Turn;
    var n := Distance(middle, at, size);
    var m := Distance(target, at, size);
    Landing(middle, at, size);
    Landing(target, at, size);
    StreamSplits(host, g, base, size, at, n, m - n);
    DistanceAfter(target, at, size, n);
  }

  lemma TwoDoorbells(host: Host, s: State, first: Word, second: Word)
    requires s.Valid() && s.base != 0 && s.size != 0 && Boundary(host, s, first, second)
    ensures EndAsOne(host, s, first, second)
  {
    hide RingRun, Doorbell, WriteBack, Distance, Complete, Unobserved, EndAsOne, RingSize;
    RingSizeBounded(s.size);
    var n := Distance(first % s.size, s.at, s.size);
    var half := RingRun(host, s.gpu, s.base, s.size, s.at, first % s.size, n);
    EndAsOneIff(host, s, first, second);
    RunIgnoresWriteBack(host, half.gpu, s.base, s.size, half.at, second % s.size,
                        Distance(second % s.size, s.at, s.size) - n, s.writeback);
  }

  // ---- A packet that does read the word ----

  /** One packet that loads the word at `w` into register `index`, outside the fetch window. */
  ghost predicate LoadsWord(m: Memory, base: int, size: int, at: int, index: int, w: int)
    requires size > 0
  {
    var header := RingLoad(m, base, size, at, 0);
    && TypeOf(header) == 3 && OpcodeOf(header) == 0x2F && LengthOf(header) == 4
    && Wrap(PhysicalToGuest(RingLoad(m, base, size, at, 1) % 0x4000_0000)) == w
    && TypedIndex(RingLoad(m, base, size, at, 2)) == Some(index) && !(WINDOW <= index < WINDOW + WINDOW_SIZE)
    && RingLoad(m, base, size, at, 3) % 0x1000 == 1
  }

  lemma LoadsOne(g: Gpu, address: int, offsetType: int, count: int, index: int, w: int)
    requires g.Valid() && TypedIndex(offsetType) == Some(index) && count % 0x1000 == 1
    requires Wrap(PhysicalToGuest(address % 0x4000_0000)) == w
    ensures LoadConstants(g, address, offsetType, count) == SetRegister(g, index, LoadBE(g.memory, w))
  {
    hide SetRegister, LoadBE, PhysicalToGuest;
    var source := PhysicalToGuest(address % 0x4000_0000);
    var t := SetRegister(g, index, LoadBE(g.memory, w));
    assert CopyConstants(t, index + 1, source + 4, 0) == t;
  }

  lemma LoadRuns(host: Host, g: Gpu, base: int, size: int, at: int, target: int, index: int, w: int)
    requires g.Valid() && size > 0 && at != target && LoadsWord(g.memory, base, size, at, index, w)
    ensures 0 <= index
    ensures var t := Tally(g, RingLoad(g.memory, base, size, at, 0));
      RingRun(host, g, base, size, at, target, 4) == Consumed(Counted(SetRegister(t, index, LoadBE(g.memory, w))),
                                                              Turn(at, 4, size))
  {
    var m := g.memory;
    var header := RingLoad(m, base, size, at, 0);
    var t := Tally(g, header);
    LoadsOne(t, RingLoad(m, base, size, at, 1), RingLoad(m, base, size, at, 2), RingLoad(m, base, size, at, 3), index,
             w);
    RingRunFirst(host, g, base, size, at, target, 4);
    RingRunDone(host, Step(host, g, base, size, at, 4), base, size, Turn(at, 4, size), target, 0);
    hide RingRun, RingLoad, LoadConstants, SetRegister, LoadBE, TypedIndex, PhysicalToGuest, Turn, Tally, TypeOf;
    hide OpcodeOf, LengthOf;
  }

  lemma LoadedBanks(g: Gpu, g': Gpu, w: int, index: int, value: int, value': int)
    requires Related(g, g', WordOf(w)) && 0 <= index < REGISTERS && !(WINDOW <= index < WINDOW + WINDOW_SIZE)
    ensures var (t, t') := (Counted(SetRegister(g, index, value)), Counted(SetRegister(g', index, value')));
      && t.Valid() && t'.Valid() && (value == value' ==> Related(t, t', WordOf(w)))
      && (value != value' ==> t.banks.registers != t'.banks.registers)
  {
    hide Alike;
    var (t, t') := (SetRegister(g, index, value), SetRegister(g', index, value'));
    assert t.banks.registers[index] == value && t'.banks.registers[index] == value';
  }

  lemma LoadsWordRelated(m: Memory, m': Memory, base: int, size: int, at: int, index: int, w: int)
    requires size > 0 && Alike(m, m', WordOf(w)) && RingApart(base, size, WordOf(w))
      && LoadsWord(m, base, size, at, index, w)
    ensures LoadsWord(m', base, size, at, index, w) && RingLoad(m', base, size, at, 0) == RingLoad(m, base, size, at, 0)
  {
    RingAlike(m, m', WordOf(w), base, size, at);
    hide RingLoad, Alike, RingApart, TypeOf, OpcodeOf, LengthOf, TypedIndex, PhysicalToGuest;
  }

  lemma LoadShowsRest(host: Host, g: Gpu, base: int, size: int, at: int, target: int, index: int, writeback: int)
    requires g.Valid() && size > 0 && at != target && 0 <= at < 0x1_0000_0000 && writeback != 0
      && RingApart(base, size, WordOf(writeback))
    requires LoadsWord(g.memory, base, size, at, index, writeback)
    ensures SameRest(host, g, base, size, at, target, 4, writeback) <==> LoadBE(g.memory, writeback) == at
  {
    hide RingRun, RingLoad, RingApart, LoadsWord, Alike, Tally, SetRegister, LoadBE, StoreBE, Turn;
    var g' := WriteBack(g, writeback, at);
    var header := RingLoad(g.memory, base, size, at, 0);
    WriteBackRelated(g, writeback, at);
    LoadsWordRelated(g.memory, g'.memory, base, size, at, index, writeback);
    LoadAfterStore(g.memory, writeback, at);
    LoadRuns(host, g, base, size, at, target, index, writeback);
    LoadRuns(host, g', base, size, at, target, index, writeback);
    TallyRelated(g, g', WordOf(writeback), header);
    var (value, value') := (LoadBE(g.memory, writeback), LoadBE(g'.memory, writeback));
    LoadedIndex(g.memory, base, size, at, index, writeback);
    LoadedBanks(Tally(g, header), Tally(g', header), writeback, index, value, value');
    var (t, t') := (Counted(SetRegister(Tally(g, header), index, value)),
                    Counted(SetRegister(Tally(g', header), index, value')));
    if value == value' { WriteBackSame(t, t', writeback, Turn(at, 4, size)); }
  }

  lemma LoadedIndex(m: Memory, base: int, size: int, at: int, index: int, w: int)
    requires size > 0 && LoadsWord(m, base, size, at, index, w)
    ensures 0 <= index < REGISTERS && !(WINDOW <= index < WINDOW + WINDOW_SIZE)
  {
    hide RingLoad, TypeOf, OpcodeOf, LengthOf, PhysicalToGuest;
  }

  /**
   Why Boundary asks that nothing reads the word: behind the cut, a packet that loads it into a
   register shows the cut, unless the word held the pointer of the cut already.
   */
  lemma LoadShowsCut(host: Host, s: State, first: Word, second: Word, index: int)
    requires s.Valid() && s.base != 0 && s.size != 0 && s.writeback != 0
      && RingApart(s.base, s.size, WordOf(s.writeback))
    requires var n := Distance(first % s.size, s.at, s.size);
      var half := RingRun(host, s.gpu, s.base, s.size, s.at, first % s.size, n);
      && n + 4 == Distance(second % s.size, s.at, s.size) && Complete(host, s.gpu, s.base, s.size, s.at, n)
      && LoadsWord(half.gpu.memory, s.base, s.size, half.at, index, s.writeback)
    ensures var n := Distance(first % s.size, s.at, s.size);
      var half := RingRun(host, s.gpu, s.base, s.size, s.at, first % s.size, n);
      EndAsOne(host, s, first, second) <==> LoadBE(half.gpu.memory, s.writeback) == half.at
  {
    hide RingRun, Distance, Complete, RingApart, LoadsWord, EndAsOne, SameRest, LoadBE, RingSize;
    RingSizeBounded(s.size);
    var n := Distance(first % s.size, s.at, s.size);
    var half := RingRun(host, s.gpu, s.base, s.size, s.at, first % s.size, n);
    EndAsOneIff(host, s, first, second);
    RunsMeet(host, s.gpu, s.base, s.size, s.at, first % s.size, second % s.size);
    RunKeepsPointer(host, s.gpu, s.base, s.size, s.at, first % s.size, n);
    DistanceNone(second % s.size, s.size);
    LoadShowsRest(host, half.gpu, s.base, s.size, half.at, second % s.size, index, s.writeback);
  }

  lemma DistanceNone(target: int, size: int)
    requires size > 0
    ensures Distance(target, target, size) == 0
  {
    Folded(0, size);
  }

  function RingAll(host: Host, s: State, pointers: seq<Word>): (r: State)
    requires s.Valid()
    ensures r.Valid()
    decreases |pointers|
  {
    if pointers == [] then s else RingAll(host, Doorbell(host, s, pointers[0]), pointers[1..])
  }

  /** Every doorbell but the last stops at a packet boundary on the way to the last. */
  ghost predicate Boundaries(host: Host, s: State, pointers: seq<Word>)
    requires s.Valid() && s.base != 0 && s.size != 0 && pointers != []
    decreases |pointers|
  {
    |pointers| == 1 ||
    (&& Boundary(host, s, pointers[0], pointers[|pointers| - 1])
     && var t := Doorbell(host, s, pointers[0]);
        t.base == s.base && t.size == s.size && Boundaries(host, t, pointers[1..]))
  }

  lemma DoorbellKeepsRing(host: Host, s: State, pointer: Word)
    requires s.Valid() && s.base != 0 && s.size != 0
    ensures var t := Doorbell(host, s, pointer);
      t.base == s.base && t.size == s.size && t.mmioWrites == s.mmioWrites + 1
  {
    hide RingRun, WriteBack, Doorbell;
    DoorbellRuns(host, s, pointer);
  }

  /** Any number of doorbells at packet boundaries end as the last one alone would have. */
  lemma {:induction false} BatchingIsInvisible(host: Host, s: State, pointers: seq<Word>)
    requires s.Valid() && s.base != 0 && s.size != 0 && pointers != [] && Boundaries(host, s, pointers)
    ensures RingAll(host, s, pointers)
         == Doorbell(host, s, pointers[|pointers| - 1]).(mmioWrites := s.mmioWrites + |pointers|)
    decreases |pointers|
  {
    hide Doorbell, Boundary;
    var last := pointers[|pointers| - 1];
    DoorbellKeepsRing(host, s, pointers[0]);
    if |pointers| == 1 {
      assert RingAll(host, s, pointers) == RingAll(host, Doorbell(host, s, last), []);
    } else {
      BatchingIsInvisible(host, Doorbell(host, s, pointers[0]), pointers[1..]);
      TwoDoorbells(host, s, pointers[0], last);
    }
  }

  // ---- From what memory holds before the first doorbell ----

  /**
   The next `available` dwords of the ring, as memory has them: complete packets in the region that
   write outside it, and none that reads the word written back. The host draws outside the region,
   without looking at the word.
   */
  ghost predicate Undisturbed(host: Host, m: Memory, base: int, size: int, at: int, available: int, writeback: int,
                              kept: Region)
    requires size > 0
  {
    && RingKeeps(host, m, base, size, at, available, kept)
    && (writeback == 0 ||
        (&& WordOut(writeback, kept) && RingApart(base, size, WordOf(writeback))
         && RingBlind(host, m, base, size, at, available, WordOf(writeback))))
  }

  /** Every doorbell but the last stops at the end of a packet, as memory has them, on the way to the last. */
  ghost predicate Cuts(m: Memory, base: int, size: int, at: int, pointers: seq<Word>)
    requires size > 0 && pointers != []
    decreases |pointers|
  {
    |pointers| == 1 ||
    (var n := Distance(pointers[0] % size, at, size);
     && n <= Distance(pointers[|pointers| - 1] % size, at, size)
     && PacketEnd(m, base, size, at, n)
     && Cuts(m, base, size, Onward(at, n, size), pointers[1..]))
  }

  lemma UndisturbedSplits(host: Host, m: Memory, base: int, size: int, at: int, n: int, more: int, writeback: int,
                          kept: Region)
    requires size > 0 && 0 <= n <= more && PacketEnd(m, base, size, at, n)
    requires Undisturbed(host, m, base, size, at, more, writeback, kept)
    ensures RingKeeps(host, m, base, size, at, n, kept)
    ensures Undisturbed(host, m, base, size, Onward(at, n, size), more - n, writeback, kept)
  {
    KeepsSplits(host, m, kept, base, size, at, n, more);
    if writeback != 0 { BlindSplits(host, m, WordOf(writeback), base, size, at, n, more); }
    hide RingKeeps, RingBlind, PacketEnd, RingApart, Onward;
  }

  lemma WriteBackKept(m: Memory, g: Gpu, writeback: int, at: int, kept: Region)
    requires g.Valid() && Kept(m, g.memory, kept) && (writeback == 0 || WordOut(writeback, kept))
    ensures Kept(m, WriteBack(g, writeback, at).memory, kept)
  {
    if writeback != 0 { StoreKept(m, g.memory, kept, writeback, at); }
    hide StoreBE, Kept;
  }

  lemma DistanceOnward(target: int, at: int, middle: int, size: int)
    requires 0 <= at && 0 <= middle < size && 0 <= target < size
      && Distance(middle, at, size) <= Distance(target, at, size)
    ensures var n := Distance(middle, at, size);
      && 0 <= n < size && Turn(at, n, size) == middle && 0 <= Distance(target, at, size) < size
      && Distance(target, Onward(at, n, size), size) == Distance(target, at, size) - n
  {
    Landing(middle, at, size);
    Landing(target, at, size);
    DistanceAfter(target, at, size, Distance(middle, at, size));
    hide Distance;
  }

  lemma HalfStops(host: Host, g: Gpu, base: int, size: int, at: int, middle: int, n: int)
    requires g.Valid() && 0 <= at && 0 <= n < size && middle == Turn(at, n, size)
      && Complete(host, g, base, size, at, n)
    ensures RingRun(host, g, base, size, at, middle, n).at == Onward(at, n, size)
  {
    hide Complete, RingRun;
    StreamSplits(host, g, base, size, at, n, 0);
  }

  /** The first part of such a stream stops where it should; the rest does not read the word. */
  lemma FirstPart(host: Host, m: Memory, g: Gpu, base: int, size: int, at: int, middle: int, target: int,
                  writeback: int, kept: Region)
    requires g.Valid() && 0 <= at && 0 <= middle < size && 0 <= target < size && Kept(m, g.memory, kept)
    requires var n := Distance(middle, at, size);
      n <= Distance(target, at, size) && PacketEnd(m, base, size, at, n)
    requires Undisturbed(host, m, base, size, at, Distance(target, at, size), writeback, kept)
    ensures var n := Distance(middle, at, size);
      var half := RingRun(host, g, base, size, at, middle, n);
      && Complete(host, g, base, size, at, n)
      && half.at == Onward(at, n, size) && Kept(m, half.gpu.memory, kept)
      && Unobserved(host, half.gpu, base, size, half.at, target, Distance(target, at, size) - n, writeback)
  {
    hide *;
    var n := Distance(middle, at, size);
    var rest := Distance(target, at, size) - n;
    DistanceOnward(target, at, middle, size);
    UndisturbedSplits(host, m, base, size, at, n, n + rest, writeback, kept);
    UndisturbedWord(host, m, base, size, at, n + rest, writeback, kept);
    RingRunKept(host, m, g, kept, base, size, at, middle, n);
    HalfStops(host, g, base, size, at, middle, n);
    RestUnobserved(host, m, RingRun(host, g, base, size, at, middle, n).gpu, base, size, Onward(at, n, size), target,
                   rest, writeback, kept);
  }

  lemma UndisturbedWord(host: Host, m: Memory, base: int, size: int, at: int, available: int, writeback: int,
                        kept: Region)
    requires size > 0 && Undisturbed(host, m, base, size, at, available, writeback, kept)
    ensures writeback == 0 || WordOut(writeback, kept)
  {
  }

  lemma RestUnobserved(host: Host, m: Memory, g: Gpu, base: int, size: int, at: int, target: int, available: int,
                       writeback: int, kept: Region)
    requires g.Valid() && size > 0 && 0 <= available && Kept(m, g.memory, kept)
    requires Undisturbed(host, m, base, size, at, available, writeback, kept)
    ensures Unobserved(host, g, base, size, at, target, available, writeback)
  {
    hide Kept, RingKeeps, RingBlind, RingApart, RingUnseen;
    if writeback != 0 { RingIsUnseen(host, m, g, kept, WordOf(writeback), base, size, at, target, available); }
  }

  lemma FirstDoorbell(host: Host, s: State, m: Memory, first: Word, last: Word, kept: Region)
    requires s.Valid() && s.base != 0 && s.size != 0 && Kept(m, s.gpu.memory, kept)
    requires var n := Distance(first % s.size, s.at, s.size);
      n <= Distance(last % s.size, s.at, s.size) && PacketEnd(m, s.base, s.size, s.at, n)
    requires Undisturbed(host, m, s.base, s.size, s.at, Distance(last % s.size, s.at, s.size), s.writeback, kept)
    ensures Boundary(host, s, first, last)
    ensures var t := Doorbell(host, s, first);
      && t.base == s.base && t.size == s.size && t.writeback == s.writeback
      && t.at == Onward(s.at, Distance(first % s.size, s.at, s.size), s.size) && Kept(m, t.gpu.memory, kept)
      && Undisturbed(host, m, t.base, t.size, t.at, Distance(last % s.size, t.at, s.size), t.writeback, kept)
  {
    hide RingRun, WriteBack, Distance, PacketEnd, Complete, Kept, Undisturbed, Unobserved, Doorbell, Onward, RingKeeps;
    hide WordOut, RingSize;
    RingSizeBounded(s.size);
    var n := Distance(first % s.size, s.at, s.size);
    DistanceOnward(last % s.size, s.at, first % s.size, s.size);
    UndisturbedWord(host, m, s.base, s.size, s.at, Distance(last % s.size, s.at, s.size), s.writeback, kept);
    FirstPart(host, m, s.gpu, s.base, s.size, s.at, first % s.size, last % s.size, s.writeback, kept);
    UndisturbedSplits(host, m, s.base, s.size, s.at, n, Distance(last % s.size, s.at, s.size), s.writeback, kept);
    DoorbellRuns(host, s, first);
    var half := RingRun(host, s.gpu, s.base, s.size, s.at, first % s.size, n);
    WriteBackKept(m, half.gpu, s.writeback, half.at, kept);
  }

  /** What memory holds before the first doorbell decides that no cut shows. */
  lemma {:induction false} CutsAreBoundaries(host: Host, s: State, m: Memory, pointers: seq<Word>, kept: Region)
    requires s.Valid() && s.base != 0 && s.size != 0 && pointers != [] && Kept(m, s.gpu.memory, kept)
    requires Cuts(m, s.base, s.size, s.at, pointers)
    requires Undisturbed(host, m, s.base, s.size, s.at, Distance(pointers[|pointers| - 1] % s.size, s.at, s.size),
                         s.writeback, kept)
    ensures Boundaries(host, s, pointers)
    decreases |pointers|
  {
    hide Distance, PacketEnd, Kept, Undisturbed, Boundary, Doorbell, Onward;
    if |pointers| > 1 {
      FirstDoorbell(host, s, m, pointers[0], pointers[|pointers| - 1], kept);
      CutsAreBoundaries(host, Doorbell(host, s, pointers[0]), m, pointers[1..], kept);
    }
  }

  /**
   However a stream that leaves its own commands and the written-back word alone is cut into
   doorbells, at packet ends, the last one leaves everything as a single doorbell would have.
   */
  lemma BatchingOfStream(host: Host, s: State, m: Memory, pointers: seq<Word>, kept: Region)
    requires s.Valid() && s.base != 0 && s.size != 0 && pointers != [] && Kept(m, s.gpu.memory, kept)
    requires Cuts(m, s.base, s.size, s.at, pointers)
    requires Undisturbed(host, m, s.base, s.size, s.at, Distance(pointers[|pointers| - 1] % s.size, s.at, s.size),
                         s.writeback, kept)
    ensures RingAll(host, s, pointers)
         == Doorbell(host, s, pointers[|pointers| - 1]).(mmioWrites := s.mmioWrites + |pointers|)
  {
    hide Distance, Undisturbed, Cuts, Doorbell, RingAll, Boundaries, Kept;
    CutsAreBoundaries(host, s, m, pointers, kept);
    BatchingIsInvisible(host, s, pointers);
  }

  /**
   The packets up to the pointer, as memory has them, are complete and write outside the region, and
   a buffer in the region holds the same ones from `offset` on, with no zero header and no shader of its own.
   */
  ghost predicate StreamAt(host: Host, s: State, pointer: Word, address: int, offset: int, kept: Region)
    requires s.Valid()
  {
    && s.base != 0 && s.size != 0 && s.at < s.size
    && var n := Distance(pointer % s.size, s.at, s.size);
       && RingKeeps(host, s.gpu.memory, s.base, s.size, s.at, n, kept)
       && PlainStream(s.gpu.memory, s.base, s.size, s.at, n)
       && DwordsIn(address, offset, offset + n, kept)
       && Agree(s.gpu.memory, s.base, s.size, s.at, address, offset, n)
  }

  ghost predicate BufferOfStream(host: Host, s: State, pointer: Word, address: int, kept: Region)
    requires s.Valid()
  {
    StreamAt(host, s, pointer, address, 0, kept) && Distance(pointer % s.size, s.at, s.size) <= MAX_DWORDS
  }

  lemma StreamTwins(host: Host, s: State, pointer: Word, address: int, offset: int, kept: Region)
    requires s.Valid() && StreamAt(host, s, pointer, address, offset, kept)
    ensures var n := Distance(pointer % s.size, s.at, s.size);
      && 0 <= n < s.size && Complete(host, s.gpu, s.base, s.size, s.at, n)
      && Twins(host, s.gpu, s.base, s.size, s.at, n, address, offset)
  {
    var n := Distance(pointer % s.size, s.at, s.size);
    Landing(pointer % s.size, s.at, s.size);
    RingSizeBounded(s.size);
    assert Kept(s.gpu.memory, s.gpu.memory, kept);
    hide Distance, Complete, Twins, RingKeeps, PlainStream, DwordsIn, Agree, Kept, RingSize;
    KeptTwins(host, s.gpu.memory, s.gpu, kept, s.base, s.size, s.at, n, address, offset);
  }

  /** Over packets that leave commands alone a doorbell does what decoding a buffer with the same packets does. */
  lemma DoorbellOfStream(host: Host, s: State, pointer: Word, address: int, kept: Region)
    requires s.Valid() && BufferOfStream(host, s, pointer, address, kept)
    ensures var n := Distance(pointer % s.size, s.at, s.size);
      var r := Doorbell(host, s, pointer);
      && r.gpu == WriteBack(ProcessBuffer(host, s.gpu, address, n, 0), s.writeback, r.at)
      && Distance(pointer % s.size, r.at, s.size) == 0
  {
    hide Distance, Doorbell, WriteBack, ProcessBuffer, Complete, Twins, RingKeeps, PlainStream, DwordsIn, Agree;
    StreamTwins(host, s, pointer, address, 0, kept);
    DoorbellIsBuffer(host, s, pointer, address);
  }

  lemma DoorbellByWrite(host: Host, s: State, value: int)
    requires s.Valid()
    ensures Write(host, s, MMIO_BASE + 4 * CP_RB_WPTR, value, 4) == Doorbell(host, s, Wrap(value))
  {
    hide ProcessRing;
  }
}
