/**
 What a packet means, from its header and its operands: numbers in, effects out, the same for both
 decoders wherever both know the packet. A packet is here the list of its dwords, header first.
 */
module PacketMeaning {
  import opened Words
  import opened GuestMemory
  import opened FetchBanks
  import opened Pm4
  import opened RingStream
  import opened Packets
  import Arithmetic

  /** Where a decoder reads a packet, and how many dwords from there on it may read. */
  datatype Source =
    | InBuffer(address: int, offset: int, count: int, depth: int)
    | InRing(base: int, size: int, at: int, available: int)
  {
    predicate Valid() {
      match this
      case InBuffer(_, _, _, depth) => 0 <= depth <= 8
      case InRing(_, size, at, _) => 0 < size <= 0x4000_0000 && 0 <= at < 0x4000_0000
    }

    /** The guest address of a dword of the packet. */
    function Place(k: int): int
      requires Valid()
    {
      match this
      case InBuffer(address, offset, _, _) => (address + 4 * (offset + k)) % 0x1_0000_0000
      case InRing(base, size, at, _) => (base + 4 * ((at + k) % size)) % 0x1_0000_0000
    }

    /** How many dwords are left. */
    function Left(): int {
      match this
      case InBuffer(_, offset, count, _) => count - offset
      case InRing(_, _, _, available) => available
    }

    /** Memory holds these dwords where the decoder reads. */
    ghost predicate Holds(m: Memory, dwords: seq<int>)
      requires Valid()
    {
      forall k | 0 <= k < |dwords| :: dwords[k] == LoadBE(m, Place(k))
    }

    function After(n: int): Source
      requires Valid()
    {
      match this
      case InBuffer(address, offset, count, depth) => InBuffer(address, offset + n, count, depth)
      case InRing(base, size, at, available) => InRing(base, size, (at + n) % size, available - n)
    }

    function Depth(): int {
      match this
      case InBuffer(_, _, _, depth) => depth
      case InRing(_, _, _, _) => 0
    }
  }

  function Decode(host: Host, g: Gpu, source: Source, header: int): (r: Gpu)
    requires g.Valid() && source.Valid()
    ensures r.Valid()
  {
    match source
    case InBuffer(address, offset, count, depth) => BufferPacket(host, g, header, address, offset, count, depth)
    case InRing(base, size, at, available) => RingPacket(host, g, header, base, size, at, available)
  }

  // ---- Headers ----

  /** `n + 2` dwords with this opcode; the low byte plays no part. */
  predicate IsType3(header: int, opcode: int, n: int) {
    && 0 <= opcode < 0x100 && 0 <= n < 0x4000
    && 0xC000_0000 + 0x1_0000 * n + 0x100 * opcode <= header < 0xC000_0000 + 0x1_0000 * n + 0x100 * opcode + 0x100
  }

  /** `n + 2` dwords for registers from `register` on, or all for the one. */
  predicate IsType0(header: int, register: int, one: bool, n: int) {
    0 <= register < 0x8000 && 0 <= n < 0x4000 && header == 0x1_0000 * n + (if one then 0x8000 else 0) + register
  }

  lemma FieldsOfType3(header: int, opcode: int, n: int)
    requires IsType3(header, opcode, n)
    ensures TypeOf(header) == 3 && LengthOf(header) == n + 2 && OpcodeOf(header) == opcode
  {
    var rest := header - 0xC000_0000;
    assert header / 0x1_0000 == 0xC000 + n;
    assert header / 0x100 == 0xC0_0000 + 0x100 * n + opcode;
  }

  lemma FieldsOfType0(header: int, register: int, one: bool, n: int)
    requires IsType0(header, register, one, n)
    ensures TypeOf(header) == 0 && LengthOf(header) == n + 2
    ensures header % 0x8000 == register && (header / 0x8000 % 2 == 1 <==> one)
  {
    var bit := if one then 1 else 0;
    Arithmetic.DivModUnique(header, n, 0x8000 * bit + register, 0x1_0000);
    Arithmetic.DivModUnique(header, 2 * n + bit, register, 0x8000);
    Arithmetic.DivModUnique(2 * n + bit, n, bit, 2);
    Arithmetic.SmallMod(n, 0x4000);
  }

  // ---- Effects ----

  /** A type 3 packet is counted by its opcode. */
  function Counted3(g: Gpu, opcode: int): (r: Gpu)
    requires g.Valid() && 0 <= opcode < 0x100
    ensures r.Valid() && r.memory == g.memory
  {
    g.(type3 := g.type3 + 1, opcodes := g.opcodes[opcode := g.opcodes[opcode] + 1])
  }

  /** Register writes one after the other, to registers that are `step` apart. */
  function WriteFrom(g: Gpu, index: int, step: int, words: seq<int>): (r: Gpu)
    requires g.Valid() && 0 <= index && 0 <= step
    ensures r.Valid() && r.memory == g.memory
    decreases |words|
  {
    if words == [] then g else WriteFrom(SetRegister(g, index, words[0]), index + step, step, words[1..])
  }

  /** The first register of the bank that a typed constant names. */
  function BankOf(kind: int): Option<int> {
    match kind
    case 0 => Some(0x4000)
    case 1 => Some(0x4800)
    case 2 => Some(0x4900)
    case 3 => Some(0x4908)
    case 4 => Some(0x2000)
    case _ => None
  }

  function TypedRegister(word: int): (r: Option<int>)
    ensures r.Some? ==> 0 <= r.value
  {
    match BankOf(word / 0x1_0000 % 0x100)
    case Some(bank) => Some(bank + word % 0x800)
    case None => None
  }

  /** Constants are named by their bank or by their register. */
  function Named(opcode: int, word: int): (r: Option<int>)
    ensures r.Some? ==> 0 <= r.value
  {
    if opcode == 0x2D then TypedRegister(word) else Some(word % 0x1_0000)
  }

  function WriteNamed(g: Gpu, index: Option<int>, words: seq<int>): (r: Gpu)
    requires g.Valid() && (index.Some? ==> 0 <= index.value)
    ensures r.Valid()
  {
    if index.Some? then WriteFrom(g, index.value, 1, words) else g
  }

  /** What a complete type 3 packet does once it is counted; stores and shaders of its own have lemmas of their own. */
  function Effect(host: Host, g: Gpu, opcode: int, length: int, d: seq<int>, depth: int): (r: Gpu)
    requires g.Valid() && 1 <= |d| <= length && length >= 2 && 0 <= depth <= 8
    ensures r.Valid()
  {
    match opcode
    case 0x2D | 0x55 | 0x56 => if |d| < length then g else WriteNamed(g, Named(opcode, d[1]), d[2..])
    case 0x2F => if |d| < 4 then g else Loaded(g, d[1] % 0x2000_0000, d[2], d[3] % 0x1000)
    case 0x21 => if |d| < 4 then g else SetRegister(g, d[1] % 0x2000, Modified(g.banks.registers, d[1], d[2], d[3]))
    case 0x27 => if |d| < 3 then g else Pointed(host, g, d[1], d[2])
    case 0x46 => if |d| < 2 then g else g.(interrupt := true)
    case 0x58 | 0x59 => if |d| < 4 then g else WriteEvent(g, d[1], d[2], d[3]).(interrupt := true)
    case 0x64 => g.(swaps := g.swaps + 1, frames := if |d| < 5 then g.frames else g.frames + 1)
    case 0x36 =>
      if |d| < 2 then g.(draws := g.draws + 1) else Drawn3(host, g, g.banks.registers[0x21FC := d[1]])
    case 0x22 =>
      if |d| < 3 then g.(draws := g.draws + 1)
      else
        var filled := g.banks.registers[0x21FC := d[2]];
        Drawn3(host, g, if |d| >= 5 && d[2] / 64 % 4 == 0 then filled[0x21FD := d[3]][0x21FE := d[4]] else filled)
    case 0x3F =>
      if |d| < 3 then g else ProcessBuffer(host, g, 0x6000_0000 + d[1] % 0x2000_0000, d[2] % 0x10_0000, depth + 1)
    case _ => g
  }

  /** Constants from guest memory, if they fit behind their first register. */
  function Loaded(g: Gpu, physical: int, kind: int, n: int): (r: Gpu)
    requires g.Valid() && 0 <= n
    ensures r.Valid()
  {
    match TypedRegister(kind)
    case Some(index) =>
      if index + n <= 0x8000 then WriteFrom(g, index, 1, WordsAt(g.memory, 0x6000_0000 + physical, n)) else g
    case None => g
  }

  /** A shader in memory: the low bits of its address say which, and only small ones from the start are used. */
  function Pointed(host: Host, g: Gpu, address: int, startSize: int): (r: Gpu)
    requires g.Valid()
    ensures r.Valid()
  {
    if 0 < startSize <= 0x4000 then
      UseShader(host, g, address % 4, 0x6000_0000 + (address - address % 4) % 0x2000_0000, startSize)
    else g
  }

  function Drawn3(host: Host, g: Gpu, registers: seq<int>): (r: Gpu)
    requires g.Valid() && |registers| == REGISTERS
    ensures r.Valid()
  {
    var u := g.(banks := g.banks.(registers := registers));
    var drawn := host.draw(u);
    u.(memory := drawn.memory, screen := drawn.screen, draws := g.draws + 1)
  }

  // ---- Operands ----

  ghost predicate BufferDwords(m: Memory, address: int, offset: int, d: seq<int>) {
    forall k | 0 <= k < |d| :: BufferLoad(m, address, offset, k) == d[k]
  }

  ghost predicate RingDwords(m: Memory, base: int, size: int, at: int, d: seq<int>)
    requires size > 0
  {
    forall k | 0 <= k < |d| :: RingLoad(m, base, size, at, k) == d[k]
  }

  /** The dwords of a packet that the decoder may read: all of them, or those before the end. */
  ghost predicate BufferPart(m: Memory, address: int, offset: int, count: int, length: int, d: seq<int>) {
    2 <= length && 1 <= |d| == Min(length, count - offset) && BufferDwords(m, address, offset, d)
  }

  ghost predicate RingPart(m: Memory, base: int, size: int, at: int, available: int, length: int, d: seq<int>)
    requires size > 0
  {
    2 <= length && 1 <= |d| == Min(length, available) && RingDwords(m, base, size, at, d)
  }

  lemma BufferHolds(m: Memory, source: Source, d: seq<int>)
    requires source.Valid() && source.InBuffer? && source.Holds(m, d)
    ensures BufferDwords(m, source.address, source.offset, d)
  {
    hide LoadBE;
    forall k | 0 <= k < |d| ensures BufferLoad(m, source.address, source.offset, k) == d[k] {
      assert source.Place(k) == Wrap(source.address + (source.offset + k) * 4);
    }
  }

  lemma RingPlace(base: int, size: int, at: int, k: int)
    requires 0 < size && 0 <= at < 0x4000_0000 && 0 <= k < 0x1_0000
    ensures (base + 4 * ((at + k) % size)) % 0x1_0000_0000 == Wrap(base + Wrap(at + k) % size * 4)
  {
    assert Wrap(at + k) == at + k;
  }

  lemma PlaceInRing(source: Source, k: int)
    requires source.Valid() && source.InRing?
    ensures source.Place(k) == (source.base + 4 * ((source.at + k) % source.size)) % 0x1_0000_0000
  {
  }

  lemma RingHolds(m: Memory, source: Source, d: seq<int>)
    requires source.Valid() && source.InRing? && source.Holds(m, d) && |d| <= 0x1_0000
    ensures RingDwords(m, source.base, source.size, source.at, d)
  {
    hide LoadBE, Wrap, Source.Place;
    forall k | 0 <= k < |d| ensures RingLoad(m, source.base, source.size, source.at, k) == d[k] {
      RingPlace(source.base, source.size, source.at, k);
      PlaceInRing(source, k);
      assert d[k] == LoadBE(m, source.Place(k));
    }
  }

  lemma {:induction false} BufferWritesFrom(g: Gpu, index: int, step: int, address: int, offset: int, k: nat, n: nat,
                                            d: seq<int>)
    requires g.Valid() && 0 <= index && 0 <= step && k + n <= |d| && BufferDwords(g.memory, address, offset, d)
    ensures BufferWrites(g, index, step, address, offset, k, n) == WriteFrom(g, index, step, d[k..k + n])
    decreases n
  {
    hide SetRegister, BufferLoad;
    if n > 0 {
      BufferWritesFrom(SetRegister(g, index, d[k]), index + step, step, address, offset, k + 1, n - 1, d);
      assert d[k..k + n][1..] == d[k + 1..k + n];
    }
  }

  lemma {:induction false} RingWritesFrom(g: Gpu, index: int, step: int, base: int, size: int, at: int, k: nat, n: nat,
                                          d: seq<int>)
    requires g.Valid() && 0 <= index && 0 <= step && size > 0 && k + n <= |d| && RingDwords(g.memory, base, size, at, d)
    ensures RingWrites(g, index, step, base, size, at, k, n) == WriteFrom(g, index, step, d[k..k + n])
    decreases n
  {
    hide SetRegister, RingLoad;
    if n > 0 {
      RingWritesFrom(SetRegister(g, index, d[k]), index + step, step, base, size, at, k + 1, n - 1, d);
      assert d[k..k + n][1..] == d[k + 1..k + n];
    }
  }

  lemma {:induction false} CopiesFrom(g: Gpu, index: int, source: int, n: nat)
    requires g.Valid() && 0 <= index
    ensures CopyConstants(g, index, source, n) == WriteFrom(g, index, 1, WordsAt(g.memory, source, n))
    decreases n
  {
    hide SetRegister, LoadBE, Wrap;
    if n > 0 {
      var word := LoadBE(g.memory, Wrap(source));
      CopiesFrom(SetRegister(g, index, word), index + 1, source + 4, n - 1);
      assert WordsAt(g.memory, source, n)[1..] == WordsAt(g.memory, source + 4, n - 1);
    }
  }

  lemma TypedIndexMeans(word: int)
    ensures TypedIndex(word) == TypedRegister(word)
  {
  }

  lemma NamedMeans(opcode: int, word: int)
    ensures ConstantIndex(opcode, word) == Named(opcode, word)
  {
    TypedIndexMeans(word);
    hide TypedIndex, TypedRegister;
  }

  lemma LoadedMeans(g: Gpu, address: int, kind: int, size: int)
    requires g.Valid()
    ensures LoadConstants(g, address, kind, size) == Loaded(g, address % 0x2000_0000, kind, size % 0x1000)
  {
    TypedIndexMeans(kind);
    PhysicalPlace(address);
    var index := TypedRegister(kind);
    hide TypedIndex, TypedRegister, PhysicalToGuest, CopyConstants, WriteFrom, WordsAt;
    if index.Some? { CopiesFrom(g, index.value, 0x6000_0000 + address % 0x2000_0000, size % 0x1000); }
  }

  lemma PhysicalPlace(address: int)
    ensures PhysicalToGuest(address % 0x4000_0000) == 0x6000_0000 + address % 0x2000_0000
  {
    Arithmetic.ModOfMod(address, 0x2000_0000, 2, 0x4000_0000);
  }

  lemma PointedMeans(host: Host, g: Gpu, address: int, startSize: int)
    requires g.Valid() && 0 <= startSize
    ensures LoadPointerShader(host, g, address, startSize) == Pointed(host, g, address, startSize)
  {
    PointerPlace(address);
    hide UseShader, PhysicalToGuest, WordAligned;
  }

  lemma PointerPlace(address: int)
    ensures PhysicalToGuest(WordAligned(address % 0x4000_0000)) == 0x6000_0000 + (address - address % 4) % 0x2000_0000
  {
    var (q, b) := (address / 0x4000_0000, address % 0x4000_0000);
    Arithmetic.ModOfMod(address, 4, 0x1000_0000, 0x4000_0000);
    assert address - address % 4 == (b - b % 4) + 0x2000_0000 * (2 * q);
    Arithmetic.ModShift(b - b % 4, 2 * q, 0x2000_0000);
  }

  lemma DrawMeans(host: Host, g: Gpu, registers: seq<int>)
    requires g.Valid() && |registers| == REGISTERS
    ensures var u := g.(banks := g.banks.(registers := registers));
      u.Valid() && Draw(host, u).draws == g.draws && Draw(host, u).(draws := g.draws + 1) == Drawn3(host, g, registers)
  {
  }

  lemma IndexedMeans(g: Gpu, initiator: int, base: int, size: int)
    requires g.Valid()
    ensures var set1 := g.banks.registers[0x21FC := initiator];
      var u := Poke(g, DRAW_INITIATOR, initiator);
      && u == g.(banks := g.banks.(registers := set1))
      && Poke(Poke(u, DMA_BASE, base), DMA_SIZE, size)
           == g.(banks := g.banks.(registers := set1[0x21FD := base][0x21FE := size]))
  {
  }

  // ---- Buffers ----

  lemma BufferConstantsMean(g: Gpu, opcode: int, address: int, offset: int, count: int, length: int, d: seq<int>)
    requires g.Valid() && BufferPart(g.memory, address, offset, count, length, d)
    ensures BufferSetConstant(g, opcode, length, address, offset, count)
         == if |d| < length then g else WriteNamed(g, Named(opcode, d[1]), d[2..])
  {
    if |d| >= 2 { NamedMeans(opcode, d[1]); }
    BufferIs(g.memory, address, offset, d);
    hide BufferLoad, BufferWrites, BufferDwords, ConstantIndex, Named, WriteFrom;
    if |d| == length {
      var index := Named(opcode, d[1]);
      assert d[2..2 + (|d| - 2)] == d[2..];
      if index.Some? { BufferWritesFrom(g, index.value, 1, address, offset, 2, |d| - 2, d); }
    }
  }

  lemma BufferLoadsMean(host: Host, g: Gpu, address: int, offset: int, count: int, length: int, d: seq<int>)
    requires g.Valid() && BufferPart(g.memory, address, offset, count, length, d)
    ensures BufferLoadConstants(g, length, address, offset, count)
         == if |d| < 4 then g else Loaded(g, d[1] % 0x2000_0000, d[2], d[3] % 0x1000)
    ensures BufferPointerShader(host, g, length, address, offset, count)
      == if |d| < 3 then g else Pointed(host, g, d[1], d[2])
  {
    BufferWords(g.memory, address, offset, d);
    hide LoadConstants, Loaded, LoadPointerShader, Pointed, BufferLoad;
    if |d| >= 4 { LoadedMeans(g, d[1], d[2], d[3]); }
    if |d| >= 3 { PointedMeans(host, g, d[1], d[2]); }
  }

  lemma BufferRestMeans(g: Gpu, address: int, offset: int, count: int, length: int, d: seq<int>)
    requires g.Valid() && BufferPart(g.memory, address, offset, count, length, d)
    ensures BufferModify(g, length, address, offset, count)
         == if |d| < 4 then g else SetRegister(g, d[1] % 0x2000, Modified(g.banks.registers, d[1], d[2], d[3]))
    ensures BufferInterrupt(g, length, offset, count) == if |d| < 2 then g else g.(interrupt := true)
    ensures BufferEvent(g, length, address, offset, count)
         == if |d| < 4 then g else WriteEvent(g, d[1], d[2], d[3]).(interrupt := true)
    ensures BufferSwap(g, length, offset, count)
         == g.(swaps := g.swaps + 1, frames := if |d| < 5 then g.frames else g.frames + 1)
  {
    hide BufferLoad, Modified, SetRegister, WriteEvent;
  }

  lemma BufferStateMeans(host: Host, g: Gpu, opcode: int, address: int, offset: int, count: int, length: int,
                         depth: int, d: seq<int>)
    requires g.Valid() && BufferPart(g.memory, address, offset, count, length, d) && 0 <= depth <= 8
    requires opcode !in {0x3D, 0x2B, 0x36, 0x22, 0x3F}
    ensures BufferState(host, g, opcode, length, address, offset, count) == Effect(host, g, opcode, length, d, depth)
  {
    hide BufferSetConstant, BufferLoadConstants, BufferPointerShader, BufferModify, BufferInterrupt, BufferEvent;
    hide BufferSwap;
    hide Loaded, Pointed, BufferLoad, BufferDwords, Named, WriteFrom, Modified, SetRegister, WriteEvent;
    hide ProcessBuffer, Drawn3;
    BufferConstantsMean(g, opcode, address, offset, count, length, d);
    BufferLoadsMean(host, g, address, offset, count, length, d);
    BufferRestMeans(g, address, offset, count, length, d);
  }

  lemma BufferDrawsMean(host: Host, g: Gpu, address: int, offset: int, count: int, length: int, depth: int, d: seq<int>)
    requires g.Valid() && BufferPart(g.memory, address, offset, count, length, d) && 0 <= depth <= 8
    ensures BufferDrawAuto(host, g, length, address, offset, count) == Effect(host, g, 0x36, length, d, depth)
    ensures BufferDrawIndexed(host, g, length, address, offset, count) == Effect(host, g, 0x22, length, d, depth)
  {
    hide BufferLoad, Poke, Draw, Drawn3, ProcessBuffer, BufferDwords;
    BufferIs(g.memory, address, offset, d);
    var registers := g.banks.registers;
    if |d| >= 2 {
      IndexedMeans(g, d[1], 0, 0);
      DrawMeans(host, g, registers[0x21FC := d[1]]);
    }
    if |d| >= 3 {
      IndexedMeans(g, d[2], if |d| >= 5 then d[3] else 0, if |d| >= 5 then d[4] else 0);
      DrawMeans(host, g, registers[0x21FC := d[2]]);
      if |d| >= 5 { DrawMeans(host, g, registers[0x21FC := d[2]][0x21FD := d[3]][0x21FE := d[4]]); }
    }
  }

  lemma BufferIs(m: Memory, address: int, offset: int, d: seq<int>)
    requires BufferDwords(m, address, offset, d)
    ensures forall k | 0 <= k < |d| :: BufferLoad(m, address, offset, k) == d[k]
  {
  }

  lemma BufferCallMeans(host: Host, g: Gpu, address: int, offset: int, count: int, length: int, depth: int, d: seq<int>)
    requires g.Valid() && BufferPart(g.memory, address, offset, count, length, d) && 0 <= depth <= 8
    ensures BufferIndirect(host, g, length, address, offset, count, depth) == Effect(host, g, 0x3F, length, d, depth)
  {
    hide BufferLoad, ProcessBuffer;
  }

  lemma BufferType3Means(host: Host, g: Gpu, header: int, address: int, offset: int, count: int, depth: int,
                         d: seq<int>)
    requires g.Valid() && BufferPart(g.memory, address, offset, count, LengthOf(header), d) && 0 <= depth <= 8
    requires OpcodeOf(header) !in {0x3D, 0x2B}
    ensures BufferType3(host, g, header, address, offset, count, depth)
      == Effect(host, g, OpcodeOf(header), LengthOf(header), d, depth)
  {
    hide BufferDwords, Effect, BufferIndirect, BufferDrawAuto, BufferDrawIndexed, BufferState, OpcodeOf, LengthOf;
    var (opcode, length) := (OpcodeOf(header), LengthOf(header));
    if opcode == 0x3F {
      BufferCallMeans(host, g, address, offset, count, length, depth, d);
    } else if opcode == 0x36 || opcode == 0x22 {
      BufferDrawsMean(host, g, address, offset, count, length, depth, d);
    } else {
      BufferStateMeans(host, g, opcode, address, offset, count, length, depth, d);
    }
  }

  lemma BufferWords(m: Memory, address: int, offset: int, d: seq<int>)
    requires BufferDwords(m, address, offset, d)
    ensures forall k | 0 <= k < |d| :: 0 <= d[k] < 0x1_0000_0000
  {
    hide LoadBE;
    forall k | 0 <= k < |d| ensures 0 <= d[k] < 0x1_0000_0000 { assert BufferLoad(m, address, offset, k) == d[k]; }
  }

  // ---- The ring ----

  lemma RingConstantsMean(g: Gpu, opcode: int, base: int, size: int, at: int, available: int, length: int, d: seq<int>)
    requires g.Valid() && size > 0 && RingPart(g.memory, base, size, at, available, length, d)
    ensures RingSetConstant(g, opcode, length, base, size, at, available)
         == if |d| < length then g else WriteNamed(g, Named(opcode, d[1]), d[2..])
  {
    if |d| >= 2 { NamedMeans(opcode, d[1]); }
    RingIs(g.memory, base, size, at, d);
    hide RingLoad, RingWrites, RingDwords, ConstantIndex, Named, WriteFrom;
    if |d| == length {
      var index := Named(opcode, d[1]);
      assert d[2..2 + (|d| - 2)] == d[2..];
      if index.Some? { RingWritesFrom(g, index.value, 1, base, size, at, 2, |d| - 2, d); }
    }
  }

  lemma RingLoadsMean(host: Host, g: Gpu, base: int, size: int, at: int, available: int, length: int, d: seq<int>)
    requires g.Valid() && size > 0 && RingPart(g.memory, base, size, at, available, length, d)
    ensures RingLoadConstants(g, length, base, size, at, available)
         == if |d| < 4 then g else Loaded(g, d[1] % 0x2000_0000, d[2], d[3] % 0x1000)
    ensures RingPointerShader(host, g, length, base, size, at, available)
      == if |d| < 3 then g else Pointed(host, g, d[1], d[2])
  {
    RingWords(g.memory, base, size, at, d);
    hide LoadConstants, Loaded, LoadPointerShader, Pointed, RingLoad;
    if |d| >= 4 { LoadedMeans(g, d[1], d[2], d[3]); }
    if |d| >= 3 { PointedMeans(host, g, d[1], d[2]); }
  }

  lemma RingRestMeans(g: Gpu, base: int, size: int, at: int, available: int, length: int, d: seq<int>)
    requires g.Valid() && size > 0 && RingPart(g.memory, base, size, at, available, length, d)
    ensures RingModify(g, length, base, size, at, available)
         == if |d| < 4 then g else SetRegister(g, d[1] % 0x2000, Modified(g.banks.registers, d[1], d[2], d[3]))
    ensures RingInterrupt(g, length, available) == if |d| < 2 then g else g.(interrupt := true)
    ensures RingEvent(g, length, base, size, at, available)
         == if |d| < 4 then g else WriteEvent(g, d[1], d[2], d[3]).(interrupt := true)
    ensures RingSwap(g, length, available)
         == g.(swaps := g.swaps + 1, frames := if |d| < 5 then g.frames else g.frames + 1)
  {
    hide RingLoad, Modified, SetRegister, WriteEvent;
  }

  lemma RingStateMeans(host: Host, g: Gpu, opcode: int, base: int, size: int, at: int, available: int, length: int,
                       d: seq<int>)
    requires g.Valid() && size > 0 && RingPart(g.memory, base, size, at, available, length, d)
    requires opcode !in {0x3D, 0x36, 0x22, 0x3F}
    ensures RingState(host, g, opcode, length, base, size, at, available) == Effect(host, g, opcode, length, d, 0)
  {
    hide RingSetConstant, RingLoadConstants, RingPointerShader, RingModify, RingInterrupt, RingEvent, RingSwap;
    hide Loaded, Pointed, RingLoad, RingDwords, Named, WriteFrom, Modified, SetRegister, WriteEvent;
    hide ProcessBuffer, Drawn3;
    RingConstantsMean(g, opcode, base, size, at, available, length, d);
    RingLoadsMean(host, g, base, size, at, available, length, d);
    RingRestMeans(g, base, size, at, available, length, d);
  }

  lemma RingDrawsMean(host: Host, g: Gpu, base: int, size: int, at: int, available: int, length: int, d: seq<int>)
    requires g.Valid() && size > 0 && RingPart(g.memory, base, size, at, available, length, d)
    ensures RingDrawAuto(host, g, length, base, size, at, available) == Effect(host, g, 0x36, length, d, 0)
    ensures RingDrawIndexed(host, g, length, base, size, at, available) == Effect(host, g, 0x22, length, d, 0)
  {
    hide RingLoad, Poke, Draw, Drawn3, ProcessBuffer, RingDwords;
    RingIs(g.memory, base, size, at, d);
    var registers := g.banks.registers;
    if |d| >= 2 {
      IndexedMeans(g, d[1], 0, 0);
      DrawMeans(host, g, registers[0x21FC := d[1]]);
    }
    if |d| >= 3 {
      IndexedMeans(g, d[2], if |d| >= 5 then d[3] else 0, if |d| >= 5 then d[4] else 0);
      DrawMeans(host, g, registers[0x21FC := d[2]]);
      if |d| >= 5 { DrawMeans(host, g, registers[0x21FC := d[2]][0x21FD := d[3]][0x21FE := d[4]]); }
    }
  }

  lemma RingIs(m: Memory, base: int, size: int, at: int, d: seq<int>)
    requires size > 0 && RingDwords(m, base, size, at, d)
    ensures forall k | 0 <= k < |d| :: RingLoad(m, base, size, at, k) == d[k]
  {
  }

  lemma RingCallMeans(host: Host, g: Gpu, base: int, size: int, at: int, available: int, length: int, d: seq<int>)
    requires g.Valid() && size > 0 && RingPart(g.memory, base, size, at, available, length, d)
    ensures RingIndirect(host, g, length, base, size, at, available) == Effect(host, g, 0x3F, length, d, 0)
  {
    hide RingLoad, ProcessBuffer;
  }

  lemma RingType3Means(host: Host, g: Gpu, header: int, base: int, size: int, at: int, available: int, d: seq<int>)
    requires g.Valid() && size > 0 && RingPart(g.memory, base, size, at, available, LengthOf(header), d)
    requires OpcodeOf(header) != 0x3D
    ensures RingType3(host, g, header, base, size, at, available)
      == Effect(host, g, OpcodeOf(header), LengthOf(header), d, 0)
  {
    hide RingDwords, Effect, RingIndirect, RingDrawAuto, RingDrawIndexed, RingState, OpcodeOf, LengthOf;
    var (opcode, length) := (OpcodeOf(header), LengthOf(header));
    if opcode == 0x3F {
      RingCallMeans(host, g, base, size, at, available, length, d);
    } else if opcode == 0x36 || opcode == 0x22 {
      RingDrawsMean(host, g, base, size, at, available, length, d);
    } else {
      RingStateMeans(host, g, opcode, base, size, at, available, length, d);
    }
  }

  lemma RingWords(m: Memory, base: int, size: int, at: int, d: seq<int>)
    requires size > 0 && RingDwords(m, base, size, at, d)
    ensures forall k | 0 <= k < |d| :: 0 <= d[k] < 0x1_0000_0000
  {
    hide LoadBE;
    forall k | 0 <= k < |d| ensures 0 <= d[k] < 0x1_0000_0000 { assert RingLoad(m, base, size, at, k) == d[k]; }
  }

  // ---- Stores and shaders of their own ----

  /** A word that a packet sends to memory. */
  function Stored(m: Memory, target: int, word: int): Memory {
    StoreBE(m, 0x6000_0000 + (target - target % 4) % 0x2000_0000, Swap32(word, target))
  }

  function StoreFrom(m: Memory, target: int, words: seq<int>): Memory
    decreases |words|
  {
    if words == [] then m else StoreFrom(Stored(m, target, words[0]), (target + 4) % 0x1_0000_0000, words[1..])
  }

  /** Memory holds the packet as long as its words from `k` on are stored. */
  ghost predicate Spared(m: Memory, source: Source, d: seq<int>, target: int, k: nat)
    requires source.Valid()
    decreases |d| - k
  {
    k < |d| ==> source.Holds(m, d) && Spared(Stored(m, target, d[k]), source, d, (target + 4) % 0x1_0000_0000, k + 1)
  }

  lemma StoredMeans(m: Memory, target: int, word: int)
    ensures WriteGpuMemory(m, target, word) == Stored(m, target, word)
  {
  }

  lemma {:induction false} BufferStoresFrom(g: Gpu, source: Source, target: int, k: nat, d: seq<int>)
    requires g.Valid() && source.Valid() && source.InBuffer? && k <= |d| && Spared(g.memory, source, d, target, k)
    ensures BufferStores(g, target, source.address, source.offset, k, |d| - k)
         == g.(memory := StoreFrom(g.memory, target, d[k..]))
    decreases |d| - k
  {
    hide BufferLoad, Stored, WriteGpuMemory, Source.Holds;
    if k < |d| {
      BufferHolds(g.memory, source, d);
      BufferIs(g.memory, source.address, source.offset, d);
      StoredMeans(g.memory, target, d[k]);
      BufferStoresFrom(g.(memory := Stored(g.memory, target, d[k])), source, (target + 4) % 0x1_0000_0000, k + 1, d);
      assert d[k..][1..] == d[k + 1..];
    }
  }

  lemma {:induction false} RingStoresFrom(g: Gpu, source: Source, target: int, k: nat, d: seq<int>)
    requires g.Valid() && source.Valid() && source.InRing? && k <= |d| <= 0x1_0000
    requires Spared(g.memory, source, d, target, k)
    ensures RingStores(g, target, source.base, source.size, source.at, k, |d| - k)
         == g.(memory := StoreFrom(g.memory, target, d[k..]))
    decreases |d| - k
  {
    hide RingLoad, Stored, WriteGpuMemory, Source.Holds;
    if k < |d| {
      RingHolds(g.memory, source, d);
      RingIs(g.memory, source.base, source.size, source.at, d);
      StoredMeans(g.memory, target, d[k]);
      RingStoresFrom(g.(memory := Stored(g.memory, target, d[k])), source, (target + 4) % 0x1_0000_0000, k + 1, d);
      assert d[k..][1..] == d[k + 1..];
    }
  }

  lemma BufferWriteMeans(host: Host, g: Gpu, header: int, source: Source, d: seq<int>)
    requires g.Valid() && source.Valid() && source.InBuffer? && source.Left() >= 3 && |d| >= 3
    requires OpcodeOf(header) == 0x3D && LengthOf(header) == |d| && Spared(g.memory, source, d, d[1], 2)
    ensures BufferType3(host, g, header, source.address, source.offset, source.count, source.depth)
         == g.(memory := StoreFrom(g.memory, d[1], d[2..]))
  {
    BufferHolds(g.memory, source, d);
    BufferIs(g.memory, source.address, source.offset, d);
    hide BufferLoad, OpcodeOf, LengthOf, StoreFrom, BufferStores, BufferDwords, Spared;
    BufferStoresFrom(g, source, d[1], 2, d);
  }

  lemma RingWriteMeans(host: Host, g: Gpu, header: int, source: Source, d: seq<int>)
    requires g.Valid() && source.Valid() && source.InRing? && source.Left() >= 3 && 3 <= |d| <= 0x1_0000
    requires OpcodeOf(header) == 0x3D && LengthOf(header) == |d| && Spared(g.memory, source, d, d[1], 2)
    ensures RingType3(host, g, header, source.base, source.size, source.at, source.available)
         == g.(memory := StoreFrom(g.memory, d[1], d[2..]))
  {
    RingHolds(g.memory, source, d);
    RingIs(g.memory, source.base, source.size, source.at, d);
    hide RingLoad, OpcodeOf, LengthOf, StoreFrom, RingStores, RingDwords;
    RingStoresFrom(g, source, d[1], 2, d);
  }

  /** Words go to memory one after the other; the count of them is in the header, whatever is left to read. */
  lemma StoresMean(host: Host, g: Gpu, source: Source, n: int, d: seq<int>)
    requires g.Valid() && source.Valid() && 1 <= n && |d| == n + 2 && IsType3(d[0], 0x3D, n) && source.Left() >= 3
    requires Spared(g.memory, source, d, d[1], 2)
    ensures Decode(host, g, source, d[0])
         == Counted3(g, 0x3D).(memory := StoreFrom(g.memory, d[1], d[2..]))
  {
    FieldsOfType3(d[0], 0x3D, n);
    var t := Counted3(g, 0x3D);
    assert Tally(g, d[0]) == t;
    hide IsType3, Spared, Counted3, TypeOf, LengthOf, OpcodeOf, Tally, BufferType3, RingType3, StoreFrom;
    if source.InBuffer? {
      BufferWriteMeans(host, t, d[0], source, d);
    } else {
      RingWriteMeans(host, t, d[0], source, d);
    }
  }

  lemma BufferOwnShaderMeans(host: Host, g: Gpu, source: Source, length: int, d: seq<int>)
    requires g.Valid() && source.InBuffer?
    requires BufferPart(g.memory, source.address, source.offset, source.count, length, d)
    ensures BufferImmediateShader(host, g, length, source.address, source.offset, source.count)
         == OwnShader(host, g, source, length, d)
  {
    BufferIs(g.memory, source.address, source.offset, d);
    hide BufferLoad, BufferDwords, UseShader;
  }

  lemma BufferOwnShaderReached(host: Host, g: Gpu, header: int, source: Source)
    requires g.Valid() && source.Valid() && source.InBuffer? && OpcodeOf(header) == 0x2B
    ensures BufferType3(host, g, header, source.address, source.offset, source.count, source.depth)
         == BufferImmediateShader(host, g, LengthOf(header), source.address, source.offset, source.count)
  {
    hide OpcodeOf, LengthOf, BufferImmediateShader;
  }

  /** A shader in the packet itself counts from its fourth dword on. */
  function OwnShader(host: Host, g: Gpu, source: Source, length: int, d: seq<int>): (r: Gpu)
    requires g.Valid() && source.InBuffer?
    ensures r.Valid()
  {
    if |d| >= 3 && 0 < d[2] % 0x1_0000 <= length - 3 then
      UseShader(host, g, d[1], source.address + 4 * (source.offset + 3), d[2] % 0x1_0000)
    else g
  }

  lemma OwnShaderMeans(host: Host, g: Gpu, source: Source, n: int, d: seq<int>)
    requires g.Valid() && source.Valid() && source.InBuffer? && 0 <= n && 1 <= |d| == Min(n + 2, source.Left())
    requires IsType3(d[0], 0x2B, n) && source.Holds(g.memory, d)
    ensures Decode(host, g, source, d[0]) == OwnShader(host, Counted3(g, 0x2B), source, n + 2, d)
  {
    FieldsOfType3(d[0], 0x2B, n);
    var t := Counted3(g, 0x2B);
    assert Tally(g, d[0]) == t;
    BufferHolds(g.memory, source, d);
    hide IsType3, Counted3, TypeOf, LengthOf, OpcodeOf, Tally, BufferType3, BufferImmediateShader, OwnShader;
    hide Source.Holds;
    hide BufferDwords;
    BufferOwnShaderReached(host, t, d[0], source);
    BufferOwnShaderMeans(host, t, source, n + 2, d);
  }

  // ---- Every packet ----

  /** What a packet of type 3 does, from either source; one that is cut off acts on the operands that are left. */
  lemma Type3Means(host: Host, g: Gpu, source: Source, opcode: int, n: int, d: seq<int>)
    requires g.Valid() && source.Valid() && 0 <= n && 1 <= |d| == Min(n + 2, source.Left())
    requires IsType3(d[0], opcode, n) && source.Holds(g.memory, d)
    requires opcode != 0x3D && !(opcode == 0x2B && source.InBuffer?)
    ensures Decode(host, g, source, d[0]) == Effect(host, Counted3(g, opcode), opcode, n + 2, d, source.Depth())
  {
    FieldsOfType3(d[0], opcode, n);
    assert Tally(g, d[0]) == Counted3(g, opcode);
    var t := Counted3(g, opcode);
    if source.InBuffer? { BufferHolds(g.memory, source, d); } else { RingHolds(g.memory, source, d); }
    hide IsType3, Source.Holds, BufferDwords, RingDwords, TypeOf, LengthOf, OpcodeOf, Tally, Counted3, Effect;
    hide BufferType3;
    hide RingType3;
    match source
    case InBuffer(address, offset, count, depth) => BufferType3Means(host, t, d[0], address, offset, count, depth, d);
    case InRing(base, size, at, available) => RingType3Means(host, t, d[0], base, size, at, available, d);
  }

  /** A packet of type 0 writes its operands to registers, one after the other, or all to one. */
  lemma Type0Means(host: Host, g: Gpu, source: Source, register: int, one: bool, n: int, d: seq<int>)
    requires g.Valid() && source.Valid() && 0 <= n && |d| == n + 2
    requires IsType0(d[0], register, one, n) && source.Holds(g.memory, d)
    ensures Decode(host, g, source, d[0])
         == WriteFrom(g.(type0 := g.type0 + 1), register, if one then 0 else 1, d[1..])
  {
    FieldsOfType0(d[0], register, one, n);
    var t := g.(type0 := g.type0 + 1);
    assert Tally(g, d[0]) == t;
    assert d[1..1 + (n + 1)] == d[1..];
    if source.InBuffer? { BufferHolds(g.memory, source, d); } else { RingHolds(g.memory, source, d); }
    hide IsType0, Source.Holds, BufferDwords, RingDwords, TypeOf, LengthOf, Tally, WriteFrom, BufferWrites, RingWrites;
    match source
    case InBuffer(address, offset, count, depth) =>
      BufferWritesFrom(t, register, if one then 0 else 1, address, offset, 1, n + 1, d);
    case InRing(base, size, at, available) =>
      RingWritesFrom(t, register, if one then 0 else 1, base, size, at, 1, n + 1, d);
  }

  /** Packets of types 1 and 2 do nothing. */
  lemma OthersMean(host: Host, g: Gpu, source: Source, header: int)
    requires g.Valid() && source.Valid() && 0x4000_0000 <= header < 0xC000_0000
    ensures Decode(host, g, source, header) == g && LengthOf(header) == 1
  {
  }
}
