/**
 The PM4 decoders of the command processor. Packets are read either from a ring that wraps or
 from a linear buffer that may call further buffers; the two decoders are written out apart.
 */
module Pm4 {
  import opened Words
  import opened Bits
  import opened FetchBanks
  import opened GuestMemory

  const MAX_DEPTH := 8
  const MAX_DWORDS := 0x40_0000
  const DRAW_INITIATOR := 0x21FC
  const DMA_BASE := 0x21FD
  const DMA_SIZE := 0x21FE

  datatype Shader = Shader(hash: int, dwords: int)

  /** Vertex strides by fetch constant, and the constant last named by a full fetch. */
  datatype Fetches = Fetches(strides: seq<int>, active: int)

  datatype Gpu = Gpu(
    banks: Banks,
    fetches: Fetches,
    vertexShader: Shader,
    pixelShader: Shader,
    memory: Memory,
    done4000: int,
    done4004: int,
    screen: int,
    interrupt: bool,
    packets: int,
    type0: int,
    type3: int,
    draws: int,
    swaps: int,
    frames: int,
    opcodes: seq<int>)
  {
    ghost predicate Valid() {
      Sized(banks) && PendingValid(banks) && FetchesValid(fetches) && |opcodes| == 0x100
    }
  }

  datatype Drawn = Drawn(memory: Memory, screen: int)

  /** The rasteriser, which may look at anything, and the hash of microcode bytes; nothing is assumed about either. */
  datatype Host = Host(draw: Gpu -> Drawn, hash: seq<int> -> int)

  predicate FetchesValid(f: Fetches) {
    |f.strides| == 96 && 0 <= f.active && 2 * f.active + 1 < WINDOW_SIZE
  }

  // ---- Packet headers ----

  function TypeOf(header: int): int {
    header / 0x4000_0000
  }

  function LengthOf(header: int): (r: int)
    ensures r >= 1
  {
    if TypeOf(header) == 0 || TypeOf(header) == 3 then header / 0x1_0000 % 0x4000 + 2 else 1
  }

  function OpcodeOf(header: int): (r: int)
    ensures 0 <= r < 0x100
  {
    header / 0x100 % 0x100
  }

  // ---- What packets do once their operands are read ----

  function SetRegister(g: Gpu, index: int, value: int): (r: Gpu)
    requires g.Valid() && 0 <= index
    ensures r.Valid() && r.memory == g.memory
  {
    g.(banks := Write(g.banks, index, value))
  }

  /** A store that bypasses the fetch constant classifier. */
  function Poke(g: Gpu, index: int, value: int): (r: Gpu)
    requires g.Valid() && 0 <= index < REGISTERS
    ensures r.Valid() && r.memory == g.memory
  {
    g.(banks := g.banks.(registers := g.banks.registers[index := value]))
  }

  function TypedIndex(offsetType: int): (r: Option<int>)
    ensures r.Some? ==> 0 <= r.value < 0x5108
  {
    var low := offsetType % 0x800;
    match offsetType / 0x1_0000 % 0x100
    case 0 => Some(low + 0x4000)
    case 1 => Some(low + 0x4800)
    case 2 => Some(low + 0x4900)
    case 3 => Some(low + 0x4908)
    case 4 => Some(low + 0x2000)
    case _ => None
  }

  function ConstantIndex(opcode: int, offsetType: int): (r: Option<int>)
    ensures r.Some? ==> 0 <= r.value < 0x1_0000
  {
    if opcode == 0x2D then TypedIndex(offsetType) else Some(offsetType % 0x1_0000)
  }

  /** Copies `n` words of guest memory into consecutive registers. */
  function CopyConstants(g: Gpu, index: int, source: int, n: int): (r: Gpu)
    requires g.Valid() && 0 <= index
    ensures r.Valid() && r.memory == g.memory
    decreases n
  {
    if n <= 0 then g
    else CopyConstants(SetRegister(g, index, LoadBE(g.memory, Wrap(source))), index + 1, source + 4, n - 1)
  }

  function LoadConstants(g: Gpu, address: int, offsetType: int, size: int): (r: Gpu)
    requires g.Valid()
    ensures r.Valid() && r.memory == g.memory
  {
    var n := size % 0x1000;
    var index := TypedIndex(offsetType);
    if index.Some? && n <= 0x8000 - index.value then
      CopyConstants(g, index.value, PhysicalToGuest(address % 0x4000_0000), n)
    else g
  }

  function Modified(registers: seq<int>, info: int, andOperand: int, orOperand: int): int
    requires |registers| == REGISTERS
  {
    var mask := if info / 0x8000_0000 % 2 == 1 then registers[andOperand % 0x2000] else andOperand;
    var bits := if info / 0x4000_0000 % 2 == 1 then registers[orOperand % 0x2000] else orOperand;
    Or(And(registers[info % 0x2000], mask), bits)
  }

  function ModifyRegister(g: Gpu, info: int, andOperand: int, orOperand: int): (r: Gpu)
    requires g.Valid()
    ensures r.Valid() && r.memory == g.memory
  {
    SetRegister(g, info % 0x2000, Modified(g.banks.registers, info, andOperand, orOperand))
  }

  /** Scans shader microcode for vertex fetches, three words at a time. */
  function RememberStrides(f: Fetches, m: Memory, code: int, offset: int, count: int): (r: Fetches)
    requires FetchesValid(f)
    ensures FetchesValid(r)
    decreases count - offset
  {
    if offset + 2 < count then
      var word0 := LoadBE(m, Wrap(code + 4 * offset));
      var word1 := LoadBE(m, Wrap(code + 4 * offset + 4));
      var word2 := LoadBE(m, Wrap(code + 4 * offset + 8));
      RememberStrides(RememberFetch(f, word0, word1, word2), m, code, offset + 3, count)
    else f
  }

  function RememberFetch(f: Fetches, word0: int, word1: int, word2: int): (r: Fetches)
    requires FetchesValid(f)
    ensures FetchesValid(r)
  {
    var constant := word0 / 0x10_0000 % 0x20 * 3 + word0 / 0x200_0000 % 4;
    var stride := word2 % 0x100;
    if word0 % 0x20 != 0 || constant >= 96 || stride == 0 then f
    else Fetches(f.strides[constant := stride], if word1 / 0x4000_0000 % 2 == 0 then constant else f.active)
  }

  function UseShader(host: Host, g: Gpu, kind: int, code: int, dwords: int): (r: Gpu)
    requires g.Valid()
    ensures r.Valid() && r.memory == g.memory
  {
    var shader := Shader(host.hash(BytesOf(g.memory, code, code + 4 * dwords)), dwords);
    if kind == 0 then
      g.(vertexShader := shader, fetches := RememberStrides(g.fetches, g.memory, code, 0, Min(dwords, 1024)))
    else if kind == 1 then g.(pixelShader := shader)
    else g
  }

  function LoadPointerShader(host: Host, g: Gpu, address: int, startSize: int): (r: Gpu)
    requires g.Valid()
    ensures r.Valid() && r.memory == g.memory
  {
    var dwords := startSize % 0x1_0000;
    if startSize / 0x1_0000 != 0 || dwords == 0 || dwords > 0x4000 then g
    else UseShader(host, g, address % 4, PhysicalToGuest(WordAligned(address % 0x4000_0000)), dwords)
  }

  /** An event writes a word, and mirrors words of one page into the next and into host cells. */
  function WriteEvent(g: Gpu, initiator: int, encoded: int, requested: int): (r: Gpu)
    requires g.Valid()
    ensures r.Valid()
  {
    var physical := WordAligned(encoded);
    var destination := PhysicalToGuest(physical);
    var stored := Swap32(if initiator / 0x8000_0000 % 2 == 1 then Wrap(g.frames) else requested, encoded);
    if destination >= 0x8000_0000 then g
    else if physical / 0x1000 != 0x189F4 then g.(memory := StoreBE(g.memory, destination, stored))
    else g.(memory := StoreBE(StoreBE(g.memory, destination, stored), destination + 0x1000, stored),
            done4000 := if physical % 0x1000 == 0 then stored else g.done4000,
            done4004 := if physical % 0x1000 == 4 then stored else g.done4004)
  }

  /** What a wait on a memory word reads. */
  function LoadEventCompletion(g: Gpu, physical: int): int {
    var aligned := WordAligned(physical);
    if aligned == 0x189F_5000 then Swap32(g.done4000, physical)
    else if aligned == 0x189F_5004 then Swap32(g.done4004, physical)
    else Swap32(LoadBE(g.memory, PhysicalToGuest(aligned)), physical)
  }

  /**
   A wait sees what an event wrote: at the event's own address always, unless that is one of the
   two words whose waits read a host cell instead; and in the mirror page for every event of the
   mirrored page.
   */
  lemma EventSeen(g: Gpu, initiator: int, encoded: int, requested: Word)
    requires g.Valid() && 0 <= encoded < 0x1_0000_0000
    ensures var t := WriteEvent(g, initiator, encoded, requested);
      var value := if initiator / 0x8000_0000 % 2 == 1 then Wrap(g.frames) else requested;
      && (WordAligned(encoded) != 0x189F_5000 && WordAligned(encoded) != 0x189F_5004 ==>
            LoadEventCompletion(t, encoded) == value)
      && (encoded / 0x1000 == 0x189F4 ==> LoadEventCompletion(t, encoded + 0x1000) == value)
  {
    hide StoreBE, LoadBE, Swap32;
    var value := if initiator / 0x8000_0000 % 2 == 1 then Wrap(g.frames) else requested;
    var stored := Swap32(value, encoded);
    var destination := PhysicalToGuest(WordAligned(encoded));
    SwapTwice(value, encoded);
    LoadAfterStore(g.memory, destination, stored);
    if encoded / 0x1000 == 0x189F4 {
      AddressOfCopy(encoded);
      var m := StoreBE(g.memory, destination, stored);
      LoadAfterStore(m, destination + 0x1000, stored);
      LoadApartFromStore(m, destination + 0x1000, stored, destination);
    }
  }

  lemma AddressOfCopy(encoded: int)
    requires encoded / 0x1000 == 0x189F4
    ensures WordAligned(encoded + 0x1000) == WordAligned(encoded) + 0x1000
    ensures WordAligned(encoded) / 0x1000 == 0x189F4
    ensures PhysicalToGuest(WordAligned(encoded) + 0x1000) == PhysicalToGuest(WordAligned(encoded)) + 0x1000
    ensures forall v :: Swap32(v, encoded + 0x1000) == Swap32(v, encoded)
  {
    assert (encoded + 0x1000) % 4 == encoded % 4;
  }

  function Draw(host: Host, g: Gpu): (r: Gpu)
    requires g.Valid()
    ensures r.Valid()
  {
    var drawn := host.draw(g);
    g.(memory := drawn.memory, screen := drawn.screen)
  }

  // ---- The decoder of linear buffers ----

  function BufferLoad(m: Memory, address: int, offset: int, k: int): (r: int)
    ensures 0 <= r < 0x1_0000_0000
  {
    LoadBE(m, Wrap(address + (offset + k) * 4))
  }

  /** Writes operands k, k + 1, .. to registers that are `step` apart. */
  function BufferWrites(g: Gpu, index: int, step: int, address: int, offset: int, k: int, n: int): (r: Gpu)
    requires g.Valid() && 0 <= index && 0 <= step
    ensures r.Valid() && r.memory == g.memory
    decreases n
  {
    if n <= 0 then g
    else
      BufferWrites(SetRegister(g, index, BufferLoad(g.memory, address, offset, k)),
                   index + step, step, address, offset, k + 1, n - 1)
  }

  /** Stores operands k, k + 1, .. to consecutive words of guest memory. */
  function BufferStores(g: Gpu, destination: int, address: int, offset: int, k: int, n: int): (r: Gpu)
    requires g.Valid()
    ensures r.Valid()
    decreases n
  {
    if n <= 0 then g
    else
      var m := WriteGpuMemory(g.memory, destination, BufferLoad(g.memory, address, offset, k));
      BufferStores(g.(memory := m), Wrap(destination + 4), address, offset, k + 1, n - 1)
  }

  function BufferSetConstant(g: Gpu, opcode: int, length: int, address: int, offset: int, count: int): (r: Gpu)
    requires g.Valid()
    ensures r.Valid() && r.memory == g.memory
  {
    var payload := length - 1;
    if payload != 0 && offset + payload < count then
      var index := ConstantIndex(opcode, BufferLoad(g.memory, address, offset, 1));
      if index.Some? then BufferWrites(g, index.value, 1, address, offset, 2, payload - 1) else g
    else g
  }

  function BufferLoadConstants(g: Gpu, length: int, address: int, offset: int, count: int): (r: Gpu)
    requires g.Valid()
    ensures r.Valid() && r.memory == g.memory
  {
    if length >= 4 && offset + 3 < count then
      LoadConstants(g, BufferLoad(g.memory, address, offset, 1), BufferLoad(g.memory, address, offset, 2),
                    BufferLoad(g.memory, address, offset, 3))
    else g
  }

  function BufferModify(g: Gpu, length: int, address: int, offset: int, count: int): (r: Gpu)
    requires g.Valid()
    ensures r.Valid() && r.memory == g.memory
  {
    if length >= 4 && offset + 3 < count then
      ModifyRegister(g, BufferLoad(g.memory, address, offset, 1), BufferLoad(g.memory, address, offset, 2),
                     BufferLoad(g.memory, address, offset, 3))
    else g
  }

  function BufferMemoryWrite(g: Gpu, length: int, address: int, offset: int, count: int): (r: Gpu)
    requires g.Valid()
    ensures r.Valid()
  {
    if length >= 3 && offset + 2 < count then
      BufferStores(g, BufferLoad(g.memory, address, offset, 1), address, offset, 2, length - 2)
    else g
  }

  /** Only the buffer decoder knows shaders that are part of the packet. */
  function BufferImmediateShader(host: Host, g: Gpu, length: int, address: int, offset: int, count: int): (r: Gpu)
    requires g.Valid()
    ensures r.Valid() && r.memory == g.memory
  {
    if length >= 3 && offset + 2 < count then
      var dwords := BufferLoad(g.memory, address, offset, 2) % 0x1_0000;
      if dwords != 0 && dwords <= length - 3 then
        UseShader(host, g, BufferLoad(g.memory, address, offset, 1), address + (offset + 3) * 4, dwords)
      else g
    else g
  }

  function BufferPointerShader(host: Host, g: Gpu, length: int, address: int, offset: int, count: int): (r: Gpu)
    requires g.Valid()
    ensures r.Valid() && r.memory == g.memory
  {
    if length >= 3 && offset + 2 < count then
      LoadPointerShader(host, g, BufferLoad(g.memory, address, offset, 1), BufferLoad(g.memory, address, offset, 2))
    else g
  }

  function BufferInterrupt(g: Gpu, length: int, offset: int, count: int): (r: Gpu)
    requires g.Valid()
    ensures r.Valid() && r.memory == g.memory
  {
    if length >= 2 && offset + 1 < count then g.(interrupt := true) else g
  }

  function BufferEvent(g: Gpu, length: int, address: int, offset: int, count: int): (r: Gpu)
    requires g.Valid()
    ensures r.Valid()
  {
    if length >= 4 && offset + 3 < count then
      WriteEvent(g, BufferLoad(g.memory, address, offset, 1), BufferLoad(g.memory, address, offset, 2),
                 BufferLoad(g.memory, address, offset, 3)).(interrupt := true)
    else g
  }

  function BufferDrawAuto(host: Host, g: Gpu, length: int, address: int, offset: int, count: int): (r: Gpu)
    requires g.Valid()
    ensures r.Valid()
  {
    var t :=
      if length >= 2 && offset + 1 < count then
        Draw(host, Poke(g, DRAW_INITIATOR, BufferLoad(g.memory, address, offset, 1)))
      else g;
    t.(draws := t.draws + 1)
  }

  function BufferDrawIndexed(host: Host, g: Gpu, length: int, address: int, offset: int, count: int): (r: Gpu)
    requires g.Valid()
    ensures r.Valid()
  {
    var t :=
      if length >= 3 && offset + 2 < count then
        var initiator := BufferLoad(g.memory, address, offset, 2);
        var u := Poke(g, DRAW_INITIATOR, initiator);
        if length >= 5 && offset + 4 < count && initiator / 0x40 % 4 == 0 then
          Draw(host, Poke(Poke(u, DMA_BASE, BufferLoad(g.memory, address, offset, 3)), DMA_SIZE,
                          BufferLoad(g.memory, address, offset, 4)))
        else Draw(host, u)
      else g;
    t.(draws := t.draws + 1)
  }

  function BufferSwap(g: Gpu, length: int, offset: int, count: int): (r: Gpu)
    requires g.Valid()
    ensures r.Valid() && r.memory == g.memory
  {
    g.(swaps := g.swaps + 1, frames := if length >= 5 && offset + 4 < count then g.frames + 1 else g.frames)
  }

  function BufferIndirect(host: Host, g: Gpu, length: int, address: int, offset: int, count: int, depth: int): (r: Gpu)
    requires g.Valid() && 0 <= depth <= MAX_DEPTH
    ensures r.Valid()
    decreases MAX_DEPTH + 1 - depth, 0, 0
  {
    if length >= 3 && offset + 2 < count then
      ProcessBuffer(host, g, PhysicalToGuest(BufferLoad(g.memory, address, offset, 1)),
                    BufferLoad(g.memory, address, offset, 2) % 0x10_0000, depth + 1)
    else g
  }

  /** The packets that neither draw nor call. */
  function BufferState(host: Host, g: Gpu, opcode: int, length: int, address: int, offset: int, count: int): (r: Gpu)
    requires g.Valid()
    ensures r.Valid()
  {
    match opcode
    case 0x2D | 0x55 | 0x56 => BufferSetConstant(g, opcode, length, address, offset, count)
    case 0x2F => BufferLoadConstants(g, length, address, offset, count)
    case 0x21 => BufferModify(g, length, address, offset, count)
    case 0x3D => BufferMemoryWrite(g, length, address, offset, count)
    case 0x2B => BufferImmediateShader(host, g, length, address, offset, count)
    case 0x27 => BufferPointerShader(host, g, length, address, offset, count)
    case 0x46 => BufferInterrupt(g, length, offset, count)
    case 0x58 | 0x59 => BufferEvent(g, length, address, offset, count)
    case 0x64 => BufferSwap(g, length, offset, count)
    case _ => g
  }

  function BufferType3(host: Host, g: Gpu, header: int, address: int, offset: int, count: int, depth: int): (r: Gpu)
    requires g.Valid() && 0 <= depth <= MAX_DEPTH
    ensures r.Valid()
    decreases MAX_DEPTH + 1 - depth, 0, 1
  {
    var opcode := OpcodeOf(header);
    var length := LengthOf(header);
    match opcode
    case 0x3F => BufferIndirect(host, g, length, address, offset, count, depth)
    case 0x36 => BufferDrawAuto(host, g, length, address, offset, count)
    case 0x22 => BufferDrawIndexed(host, g, length, address, offset, count)
    case _ => BufferState(host, g, opcode, length, address, offset, count)
  }

  /** Counts a packet by its kind. */
  function Tally(g: Gpu, header: int): (r: Gpu)
    requires g.Valid()
    ensures r.Valid() && r.memory == g.memory
  {
    var opcode := OpcodeOf(header);
    if TypeOf(header) == 0 then g.(type0 := g.type0 + 1)
    else if TypeOf(header) == 3 then g.(type3 := g.type3 + 1, opcodes := g.opcodes[opcode := g.opcodes[opcode] + 1])
    else g
  }

  function BufferPacket(host: Host, g: Gpu, header: int, address: int, offset: int, count: int, depth: int): (r: Gpu)
    requires g.Valid() && 0 <= depth <= MAX_DEPTH
    ensures r.Valid()
    decreases MAX_DEPTH + 1 - depth, 0, 2
  {
    if TypeOf(header) == 0 then
      BufferWrites(Tally(g, header), header % 0x8000, if header / 0x8000 % 2 == 1 then 0 else 1,
                   address, offset, 1, LengthOf(header) - 1)
    else if TypeOf(header) == 3 then BufferType3(host, Tally(g, header), header, address, offset, count, depth)
    else g
  }

  function BufferRun(host: Host, g: Gpu, address: int, offset: int, count: int, depth: int): (r: Gpu)
    requires g.Valid() && 0 <= depth <= MAX_DEPTH
    ensures r.Valid()
    decreases MAX_DEPTH + 1 - depth, 1, count - offset
  {
    if offset >= count then g
    else
      var header := BufferLoad(g.memory, address, offset, 0);
      var length := LengthOf(header);
      if header == 0 then BufferRun(host, g, address, offset + 1, count, depth)
      else
        var t := BufferPacket(host, g, header, address, offset, count, depth);
        if length > count - offset then t
        else BufferRun(host, t.(packets := t.packets + 1), address, offset + length, count, depth)
  }

  /** Decoding ends on every guest memory, also when buffers call themselves, and keeps all ranges. */
  function ProcessBuffer(host: Host, g: Gpu, address: int, count: int, depth: int): (r: Gpu)
    requires g.Valid() && 0 <= depth <= MAX_DEPTH + 1
    ensures r.Valid()
    ensures depth > MAX_DEPTH || count > MAX_DWORDS ==> r == g
    decreases MAX_DEPTH + 1 - depth, 2, 0
  {
    if depth > MAX_DEPTH || count > MAX_DWORDS then g else BufferRun(host, g, address, 0, count, depth)
  }

  // ---- The decoder of the ring ----

  function RingLoad(m: Memory, base: int, size: int, at: int, k: int): (r: int)
    requires size > 0
    ensures 0 <= r < 0x1_0000_0000
  {
    LoadBE(m, Wrap(base + Wrap(at + k) % size * 4))
  }

  function RingWrites(g: Gpu, index: int, step: int, base: int, size: int, at: int, k: int, n: int): (r: Gpu)
    requires g.Valid() && 0 <= index && 0 <= step && size > 0
    ensures r.Valid() && r.memory == g.memory
    decreases n
  {
    if n <= 0 then g
    else
      RingWrites(SetRegister(g, index, RingLoad(g.memory, base, size, at, k)),
                 index + step, step, base, size, at, k + 1, n - 1)
  }

  function RingStores(g: Gpu, destination: int, base: int, size: int, at: int, k: int, n: int): (r: Gpu)
    requires g.Valid() && size > 0
    ensures r.Valid()
    decreases n
  {
    if n <= 0 then g
    else
      var m := WriteGpuMemory(g.memory, destination, RingLoad(g.memory, base, size, at, k));
      RingStores(g.(memory := m), Wrap(destination + 4), base, size, at, k + 1, n - 1)
  }

  function RingSetConstant(g: Gpu, opcode: int, length: int, base: int, size: int, at: int, available: int): (r: Gpu)
    requires g.Valid() && size > 0
    ensures r.Valid() && r.memory == g.memory
  {
    var payload := length - 1;
    if payload != 0 && payload < available then
      var index := ConstantIndex(opcode, RingLoad(g.memory, base, size, at, 1));
      if index.Some? then RingWrites(g, index.value, 1, base, size, at, 2, payload - 1) else g
    else g
  }

  function RingLoadConstants(g: Gpu, length: int, base: int, size: int, at: int, available: int): (r: Gpu)
    requires g.Valid() && size > 0
    ensures r.Valid() && r.memory == g.memory
  {
    if length >= 4 && 3 < available then
      LoadConstants(g, RingLoad(g.memory, base, size, at, 1), RingLoad(g.memory, base, size, at, 2),
                    RingLoad(g.memory, base, size, at, 3))
    else g
  }

  function RingModify(g: Gpu, length: int, base: int, size: int, at: int, available: int): (r: Gpu)
    requires g.Valid() && size > 0
    ensures r.Valid() && r.memory == g.memory
  {
    if length >= 4 && 3 < available then
      ModifyRegister(g, RingLoad(g.memory, base, size, at, 1), RingLoad(g.memory, base, size, at, 2),
                     RingLoad(g.memory, base, size, at, 3))
    else g
  }

  function RingMemoryWrite(g: Gpu, length: int, base: int, size: int, at: int, available: int): (r: Gpu)
    requires g.Valid() && size > 0
    ensures r.Valid()
  {
    if length >= 3 && 2 < available then
      RingStores(g, RingLoad(g.memory, base, size, at, 1), base, size, at, 2, length - 2)
    else g
  }

  function RingPointerShader(host: Host, g: Gpu, length: int, base: int, size: int, at: int, available: int): (r: Gpu)
    requires g.Valid() && size > 0
    ensures r.Valid() && r.memory == g.memory
  {
    if length >= 3 && 2 < available then
      LoadPointerShader(host, g, RingLoad(g.memory, base, size, at, 1), RingLoad(g.memory, base, size, at, 2))
    else g
  }

  function RingInterrupt(g: Gpu, length: int, available: int): (r: Gpu)
    requires g.Valid()
    ensures r.Valid() && r.memory == g.memory
  {
    if length >= 2 && 1 < available then g.(interrupt := true) else g
  }

  function RingEvent(g: Gpu, length: int, base: int, size: int, at: int, available: int): (r: Gpu)
    requires g.Valid() && size > 0
    ensures r.Valid()
  {
    if length >= 4 && 3 < available then
      WriteEvent(g, RingLoad(g.memory, base, size, at, 1), RingLoad(g.memory, base, size, at, 2),
                 RingLoad(g.memory, base, size, at, 3)).(interrupt := true)
    else g
  }

  function RingDrawAuto(host: Host, g: Gpu, length: int, base: int, size: int, at: int, available: int): (r: Gpu)
    requires g.Valid() && size > 0
    ensures r.Valid()
  {
    var t :=
      if length >= 2 && 1 < available then
        Draw(host, Poke(g, DRAW_INITIATOR, RingLoad(g.memory, base, size, at, 1)))
      else g;
    t.(draws := t.draws + 1)
  }

  function RingDrawIndexed(host: Host, g: Gpu, length: int, base: int, size: int, at: int, available: int): (r: Gpu)
    requires g.Valid() && size > 0
    ensures r.Valid()
  {
    var t :=
      if length >= 3 && 2 < available then
        var initiator := RingLoad(g.memory, base, size, at, 2);
        var u := Poke(g, DRAW_INITIATOR, initiator);
        if length >= 5 && 4 < available && initiator / 0x40 % 4 == 0 then
          Draw(host, Poke(Poke(u, DMA_BASE, RingLoad(g.memory, base, size, at, 3)), DMA_SIZE,
                          RingLoad(g.memory, base, size, at, 4)))
        else Draw(host, u)
      else g;
    t.(draws := t.draws + 1)
  }

  function RingSwap(g: Gpu, length: int, available: int): (r: Gpu)
    requires g.Valid()
    ensures r.Valid() && r.memory == g.memory
  {
    g.(swaps := g.swaps + 1, frames := if length >= 5 && 4 < available then g.frames + 1 else g.frames)
  }

  function RingIndirect(host: Host, g: Gpu, length: int, base: int, size: int, at: int, available: int): (r: Gpu)
    requires g.Valid() && size > 0
    ensures r.Valid()
  {
    if length >= 3 && 2 < available then
      ProcessBuffer(host, g, PhysicalToGuest(RingLoad(g.memory, base, size, at, 1)),
                    RingLoad(g.memory, base, size, at, 2) % 0x10_0000, 1)
    else g
  }

  function RingState(host: Host, g: Gpu, opcode: int, length: int, base: int, size: int, at: int,
                     available: int): (r: Gpu)
    requires g.Valid() && size > 0
    ensures r.Valid()
  {
    match opcode
    case 0x2D | 0x55 | 0x56 => RingSetConstant(g, opcode, length, base, size, at, available)
    case 0x2F => RingLoadConstants(g, length, base, size, at, available)
    case 0x21 => RingModify(g, length, base, size, at, available)
    case 0x3D => RingMemoryWrite(g, length, base, size, at, available)
    case 0x27 => RingPointerShader(host, g, length, base, size, at, available)
    case 0x46 => RingInterrupt(g, length, available)
    case 0x58 | 0x59 => RingEvent(g, length, base, size, at, available)
    case 0x64 => RingSwap(g, length, available)
    case _ => g
  }

  function RingType3(host: Host, g: Gpu, header: int, base: int, size: int, at: int, available: int): (r: Gpu)
    requires g.Valid() && size > 0
    ensures r.Valid()
  {
    var opcode := OpcodeOf(header);
    var length := LengthOf(header);
    match opcode
    case 0x3F => RingIndirect(host, g, length, base, size, at, available)
    case 0x36 => RingDrawAuto(host, g, length, base, size, at, available)
    case 0x22 => RingDrawIndexed(host, g, length, base, size, at, available)
    case _ => RingState(host, g, opcode, length, base, size, at, available)
  }

  function RingPacket(host: Host, g: Gpu, header: int, base: int, size: int, at: int, available: int): (r: Gpu)
    requires g.Valid() && size > 0
    ensures r.Valid()
  {
    if TypeOf(header) == 0 then
      RingWrites(Tally(g, header), header % 0x8000, if header / 0x8000 % 2 == 1 then 0 else 1,
                 base, size, at, 1, LengthOf(header) - 1)
    else if TypeOf(header) == 3 then RingType3(host, Tally(g, header), header, base, size, at, available)
    else g
  }

  /** The slot `n` dwords on. */
  function Turn(at: int, n: int, size: int): int
    requires size > 0
  {
    (at + n) % size
  }

  datatype Consumed = Consumed(gpu: Gpu, at: int)

  function RingRun(host: Host, g: Gpu, base: int, size: int, at: int, target: int, available: int): (r: Consumed)
    requires g.Valid() && size > 0
    ensures r.gpu.Valid()
    decreases available
  {
    if at == target || available <= 0 then Consumed(g, at)
    else
      var header := RingLoad(g.memory, base, size, at, 0);
      var length := LengthOf(header);
      var t := RingPacket(host, g, header, base, size, at, available);
      if length > available then Consumed(t, at)
      else RingRun(host, t.(packets := t.packets + 1), base, size, Turn(at, length, size), target, available - length)
  }
}
