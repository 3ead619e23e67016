/**
 What the decoders do not read does not matter. Two states that differ in one region of guest memory
 alone stay that way under every packet that does not look there, whatever it writes. The region may
 be the word that the read pointer is written back to, or all memory that the guest writes meanwhile.
 */
module Unseen {
  import opened Words
  import opened GuestMemory
  import opened FetchBanks
  import opened Pm4
  import opened RingStream

  /** No byte of the range is in the region. */
  ghost predicate RangeApart(code: int, bytes: int, unread: Region) {
    forall a | InRange(a, code, code + bytes) :: a !in unread
  }

  ghost predicate WordApart(address: int, unread: Region) {
    RangeApart(address, 4, unread)
  }

  predicate WordIn(address: int, region: Region) {
    address in region && address + 1 in region && address + 2 in region && address + 3 in region
  }

  /** The bytes of one word. */
  function WordOf(w: int): Region {
    iset{w, w + 1, w + 2, w + 3}
  }

  /** The memories are the same outside the region. */
  ghost predicate Alike(m: Memory, m': Memory, unread: Region) {
    forall a | a !in unread :: (a in m <==> a in m') && (a in m ==> m[a] == m'[a])
  }

  ghost predicate Related(g: Gpu, g': Gpu, unread: Region) {
    g.Valid() && g'.Valid() && g' == g.(memory := g'.memory) && Alike(g.memory, g'.memory, unread)
  }

  lemma RelatedValid(g: Gpu, g': Gpu, unread: Region)
    requires Related(g, g', unread)
    ensures g.Valid() && g'.Valid() && Alike(g.memory, g'.memory, unread)
  {
  }

  lemma RelatedBack(g: Gpu, g': Gpu, unread: Region)
    requires Related(g, g', unread)
    ensures Related(g', g, unread)
  {
  }

  lemma RelatedOn(g: Gpu, t: Gpu, u: Gpu, unread: Region)
    requires Related(g, t, unread) && Related(t, u, unread)
    ensures Related(g, u, unread)
  {
  }

  lemma LoadAlike(m: Memory, m': Memory, unread: Region, address: int)
    requires Alike(m, m', unread) && WordApart(address, unread)
    ensures LoadBE(m, address) == LoadBE(m', address)
  {
    BytesSame(m, m', address, address + 4);
  }

  lemma BytesAlike(m: Memory, m': Memory, unread: Region, code: int, bytes: int)
    requires Alike(m, m', unread) && RangeApart(code, bytes, unread)
    ensures BytesOf(m, code, code + bytes) == BytesOf(m', code, code + bytes)
  {
    BytesOfSame(m, m', code, code + bytes);
  }

  lemma StoreAlike(m: Memory, m': Memory, unread: Region, address: int, value: int)
    requires Alike(m, m', unread)
    ensures Alike(StoreBE(m, address, value), StoreBE(m', address, value), unread)
  {
    var (s, s') := (StoreBE(m, address, value), StoreBE(m', address, value));
    StoredKeys(m, address, address + 4, value);
    StoredKeys(m', address, address + 4, value);
    StoredBytes(m, m', address, address + 4, value);
    hide StoreBytes;
    forall a | a !in unread ensures (a in s <==> a in s') && (a in s ==> s[a] == s'[a]) {
      assert InRange(a, address, address + 4) || !InRange(a, address, address + 4);
    }
  }

  /** A store inside the region changes nothing outside it. */
  lemma StoreInside(m: Memory, unread: Region, address: int, value: int)
    requires WordIn(address, unread)
    ensures Alike(m, StoreBE(m, address, value), unread)
  {
    StoredKeys(m, address, address + 4, value);
    hide StoreBytes;
    assert forall a | a !in unread :: !InRange(a, address, address + 4);
  }

  /** Storing to a word changes nothing else, and makes memories the same that differ in that word only. */
  lemma StoreWord(m: Memory, m': Memory, w: int, value: int)
    requires Alike(m, m', WordOf(w))
    ensures Alike(m, StoreBE(m, w, value), WordOf(w))
    ensures StoreBE(m, w, value) == StoreBE(m', w, value)
  {
    var (s, s') := (StoreBE(m, w, value), StoreBE(m', w, value));
    StoreInside(m, WordOf(w), w, value);
    StoredKeys(m, w, w + 4, value);
    StoredKeys(m', w, w + 4, value);
    StoredBytes(m, m', w, w + 4, value);
    hide StoreBytes;
    assert forall a :: a in s <==> a in s';
    assert forall a | a in s :: s[a] == s'[a];
  }

  lemma WriteAlike(m: Memory, m': Memory, unread: Region, encoded: int, value: int)
    requires Alike(m, m', unread)
    ensures Alike(WriteGpuMemory(m, encoded, value), WriteGpuMemory(m', encoded, value), unread)
  {
    StoreAlike(m, m', unread, PhysicalToGuest(WordAligned(encoded)), Swap32(value, encoded));
    hide StoreBE, Swap32, Alike, PhysicalToGuest, WordAligned;
  }

  // ---- Where packets read apart from their own dwords ----

  /** Dword `i` of a ring or a buffer. */
  function DwordAt(base: int, i: int): int {
    Wrap(base + i * 4)
  }

  ghost predicate DwordsApart(base: int, from: int, end: int, unread: Region) {
    forall i | from <= i < end :: WordApart(DwordAt(base, i), unread)
  }

  /** The rasteriser does not look at the region. */
  ghost predicate DrawBlind(host: Host, g: Gpu, unread: Region) {
    forall m' | Alike(g.memory, m', unread) ::
      var (d, d') := (host.draw(g), host.draw(g.(memory := m')));
      d'.screen == d.screen && Alike(d.memory, d'.memory, unread)
  }

  ghost predicate ConstantsApart(address: int, offsetType: int, size: int, unread: Region) {
    TypedIndex(offsetType).Some? && size % 0x1000 <= 0x8000 - TypedIndex(offsetType).value ==>
      DwordsApart(PhysicalToGuest(address % 0x4000_0000), 0, size % 0x1000, unread)
  }

  ghost predicate CodeApart(code: int, dwords: int, unread: Region) {
    RangeApart(code, 4 * dwords, unread) && DwordsApart(code, 0, dwords, unread)
  }

  ghost predicate PointerApart(address: int, startSize: int, unread: Region) {
    startSize / 0x1_0000 == 0 && 0 < startSize % 0x1_0000 <= 0x4000 ==>
      CodeApart(PhysicalToGuest(WordAligned(address % 0x4000_0000)), startSize % 0x1_0000, unread)
  }

  /** What the operands make a packet read is apart from the region, calls, draws and shaders of its own left aside. */
  ghost predicate ReadsBlind(opcode: int, length: int, available: int, o1: int, o2: int, o3: int, unread: Region) {
    match opcode
    case 0x2F => length >= 4 && 3 < available ==> ConstantsApart(o1, o2, o3, unread)
    case 0x27 => length >= 3 && 2 < available ==> PointerApart(o1, o2, unread)
    case _ => true
  }

  /** The registers that an indexed draw sets. */
  function Indexed(g: Gpu, initiator: int, full: bool, o3: int, o4: int): (r: Gpu)
    requires g.Valid()
    ensures r.Valid()
  {
    var u := Poke(g, DRAW_INITIATOR, initiator);
    if full && initiator / 0x40 % 4 == 0 then Poke(Poke(u, DMA_BASE, o3), DMA_SIZE, o4) else u
  }

  /** Nor does the rasteriser look at it, if the packet draws. */
  ghost predicate DrawsBlind(host: Host, g: Gpu, opcode: int, length: int, available: int, o1: int, o2: int, o3: int,
                             o4: int, unread: Region)
    requires g.Valid()
  {
    match opcode
    case 0x36 => length >= 2 && 1 < available ==> DrawBlind(host, Poke(g, DRAW_INITIATOR, o1), unread)
    case 0x22 => length >= 3 && 2 < available ==> DrawBlind(host, Indexed(g, o2, length >= 5 && 4 < available, o3, o4),
                                                            unread)
    case _ => true
  }

  ghost predicate ReadsApart(host: Host, g: Gpu, opcode: int, length: int, available: int, o1: int, o2: int, o3: int,
                             o4: int, unread: Region)
    requires g.Valid()
  {
    ReadsBlind(opcode, length, available, o1, o2, o3, unread)
      && DrawsBlind(host, g, opcode, length, available, o1, o2, o3,
                                                                       o4, unread)
  }

  // ---- What packets do once their operands are read ----

  lemma SetRegisterRelated(g: Gpu, g': Gpu, unread: Region, index: int, value: int)
    requires Related(g, g', unread) && 0 <= index
    ensures Related(SetRegister(g, index, value), SetRegister(g', index, value), unread)
  {
    hide Write, Alike;
  }

  lemma PokeRelated(g: Gpu, g': Gpu, unread: Region, index: int, value: int)
    requires Related(g, g', unread) && 0 <= index < REGISTERS
    ensures Related(Poke(g, index, value), Poke(g', index, value), unread)
  {
    hide Alike;
  }

  lemma TallyRelated(g: Gpu, g': Gpu, unread: Region, header: int)
    requires Related(g, g', unread)
    ensures Related(Tally(g, header), Tally(g', header), unread)
  {
    hide Alike, OpcodeOf, TypeOf;
  }

  lemma {:induction false} CopyRelated(g: Gpu, g': Gpu, unread: Region, index: int, source: int, i: int, n: int)
    requires Related(g, g', unread) && 0 <= index && DwordsApart(source, i, i + n, unread)
    ensures Related(CopyConstants(g, index, source + i * 4, n), CopyConstants(g', index, source + i * 4, n), unread)
    decreases n
  {
    hide SetRegister, LoadBE, Alike;
    if n > 0 {
      assert WordApart(DwordAt(source, i), unread);
      var address := Wrap(source + i * 4);
      LoadAlike(g.memory, g'.memory, unread, address);
      var value := LoadBE(g.memory, address);
      SetRegisterRelated(g, g', unread, index, value);
      CopyRelated(SetRegister(g, index, value), SetRegister(g', index, value), unread, index + 1, source, i + 1, n - 1);
    }
  }

  lemma LoadConstantsRelated(g: Gpu, g': Gpu, unread: Region, address: int, offsetType: int, size: int)
    requires Related(g, g', unread) && ConstantsApart(address, offsetType, size, unread)
    ensures Related(LoadConstants(g, address, offsetType, size), LoadConstants(g', address, offsetType, size), unread)
  {
    hide CopyConstants, Related, DwordsApart, PhysicalToGuest;
    var index := TypedIndex(offsetType);
    if index.Some? && size % 0x1000 <= 0x8000 - index.value { CopyRelated(g, g', unread, index.value,
                                                                          PhysicalToGuest(address % 0x4000_0000), 0,
                                                                            size % 0x1000); }
  }

  lemma ModifyRelated(g: Gpu, g': Gpu, unread: Region, info: int, andOperand: int, orOperand: int)
    requires Related(g, g', unread)
    ensures Related(ModifyRegister(g, info, andOperand, orOperand), ModifyRegister(g', info, andOperand, orOperand),
                    unread)
  {
    SetRegisterRelated(g, g', unread, info % 0x2000, Modified(g.banks.registers, info, andOperand, orOperand));
    hide SetRegister, Modified, Alike;
  }

  lemma {:induction false} StridesSame(f: Fetches, m: Memory, m': Memory, unread: Region, code: int, offset: int,
                                       count: int)
    requires FetchesValid(f) && Alike(m, m', unread) && 0 <= offset && DwordsApart(code, 0, count, unread)
    ensures RememberStrides(f, m, code, offset, count) == RememberStrides(f, m', code, offset, count)
    decreases count - offset
  {
    hide RememberFetch, LoadBE, Alike, FetchesValid;
    if offset + 2 < count {
      assert WordApart(DwordAt(code, offset), unread) && WordApart(DwordAt(code, offset + 1), unread)
        && WordApart(DwordAt(code, offset + 2), unread);
      LoadAlike(m, m', unread, Wrap(code + 4 * offset));
      LoadAlike(m, m', unread, Wrap(code + 4 * offset + 4));
      LoadAlike(m, m', unread, Wrap(code + 4 * offset + 8));
      var next := RememberFetch(f, LoadBE(m, Wrap(code + 4 * offset)), LoadBE(m, Wrap(code + 4 * offset + 4)),
                                LoadBE(m, Wrap(code + 4 * offset + 8)));
      StridesSame(next, m, m', unread, code, offset + 3, count);
    }
  }

  lemma UseShaderRelated(host: Host, g: Gpu, g': Gpu, unread: Region, kind: int, code: int, dwords: int)
    requires Related(g, g', unread) && CodeApart(code, dwords, unread)
    ensures Related(UseShader(host, g, kind, code, dwords), UseShader(host, g', kind, code, dwords), unread)
  {
    hide RememberStrides, Alike, RangeApart, BytesOf;
    BytesAlike(g.memory, g'.memory, unread, code, 4 * dwords);
    StridesSame(g.fetches, g.memory, g'.memory, unread, code, 0, Min(dwords, 1024));
  }

  lemma PointerRelated(host: Host, g: Gpu, g': Gpu, unread: Region, address: int, startSize: int)
    requires Related(g, g', unread) && PointerApart(address, startSize, unread)
    ensures Related(LoadPointerShader(host, g, address, startSize), LoadPointerShader(host, g', address, startSize),
                    unread)
  {
    if startSize / 0x1_0000 == 0 && 0 < startSize % 0x1_0000 <= 0x4000 {
      UseShaderRelated(host, g, g', unread, address % 4, PhysicalToGuest(WordAligned(address % 0x4000_0000)),
                       startSize % 0x1_0000);
    }
    hide UseShader, Related, PhysicalToGuest, WordAligned, CodeApart;
  }

  lemma EventRelated(g: Gpu, g': Gpu, unread: Region, initiator: int, encoded: int, requested: int)
    requires Related(g, g', unread)
    ensures Related(WriteEvent(g, initiator, encoded, requested), WriteEvent(g', initiator, encoded, requested), unread)
  {
    hide StoreBE, Swap32, PhysicalToGuest, WordAligned, Alike;
    var stored := Swap32(if initiator / 0x8000_0000 % 2 == 1 then Wrap(g.frames) else requested, encoded);
    var destination := PhysicalToGuest(WordAligned(encoded));
    StoreAlike(g.memory, g'.memory, unread, destination, stored);
    StoreAlike(StoreBE(g.memory, destination, stored), StoreBE(g'.memory, destination, stored), unread,
               destination + 0x1000,
               stored);
  }

  lemma DrawRelated(host: Host, g: Gpu, g': Gpu, unread: Region)
    requires Related(g, g', unread) && DrawBlind(host, g, unread)
    ensures Related(Draw(host, g), Draw(host, g'), unread)
  {
    hide Alike;
  }

  // ---- The decoder of linear buffers ----

  /** The dwords of one packet read alike. */
  ghost predicate SameBuffer(m: Memory, m': Memory, address: int, offset: int, n: int) {
    forall k | 0 <= k < n :: BufferLoad(m, address, offset, k) == BufferLoad(m', address, offset, k)
  }

  lemma BufferAlike(m: Memory, m': Memory, unread: Region, address: int, offset: int, n: int)
    requires Alike(m, m', unread) && DwordsApart(address, offset, offset + n, unread)
    ensures SameBuffer(m, m', address, offset, n)
  {
    hide LoadBE, Alike, WordApart;
    forall k | 0 <= k < n ensures BufferLoad(m, address, offset, k) == BufferLoad(m', address, offset, k) {
      assert WordApart(DwordAt(address, offset + k), unread);
      LoadAlike(m, m', unread, Wrap(address + (offset + k) * 4));
    }
  }

  lemma {:induction false} BufferWritesRelated(g: Gpu, g': Gpu, unread: Region, index: int, step: int, address: int,
                                               offset: int, k: int, n: int)
    requires Related(g, g', unread) && 0 <= index && 0 <= step && 0 <= k
    requires SameBuffer(g.memory, g'.memory, address, offset, k + n)
    ensures Related(BufferWrites(g, index, step, address, offset, k, n),
                    BufferWrites(g', index, step, address, offset, k, n), unread)
    decreases n
  {
    hide SetRegister, BufferLoad, Alike;
    if n > 0 {
      var value := BufferLoad(g.memory, address, offset, k);
      SetRegisterRelated(g, g', unread, index, value);
      BufferWritesRelated(SetRegister(g, index, value), SetRegister(g', index, value), unread, index + step, step,
                          address,
                          offset, k + 1, n - 1);
    }
  }

  lemma WrittenRelated(g: Gpu, g': Gpu, unread: Region, destination: int, value: int)
    requires Related(g, g', unread)
    ensures Related(g.(memory := WriteGpuMemory(g.memory, destination, value)),
                    g'.(memory := WriteGpuMemory(g'.memory, destination, value)), unread)
  {
    WriteAlike(g.memory, g'.memory, unread, destination, value);
    hide Alike, WriteGpuMemory;
  }

  lemma {:induction false} BufferStoresRelated(g: Gpu, g': Gpu, unread: Region, destination: int, address: int,
                                               offset: int,
                                               k: int, n: int)
    requires Related(g, g', unread) && 0 <= k && DwordsApart(address, offset, offset + k + n, unread)
    ensures Related(BufferStores(g, destination, address, offset, k, n),
                    BufferStores(g', destination, address, offset, k, n), unread)
    decreases n
  {
    hide WriteGpuMemory, BufferLoad, Alike, DwordsApart;
    if n > 0 {
      BufferAlike(g.memory, g'.memory, unread, address, offset, k + n);
      var value := BufferLoad(g.memory, address, offset, k);
      WrittenRelated(g, g', unread, destination, value);
      BufferStoresRelated(g.(memory := WriteGpuMemory(g.memory, destination, value)),
                          g'.(memory := WriteGpuMemory(g'.memory, destination, value)), unread,
                          Wrap(destination + 4), address, offset, k + 1, n - 1);
    }
  }

  lemma BufferConstantsRelated(g: Gpu, g': Gpu, unread: Region, opcode: int, length: int, address: int, offset: int,
                               count: int)
    requires Related(g, g', unread) && length >= 2 && SameBuffer(g.memory, g'.memory, address, offset, length)
    ensures Related(BufferSetConstant(g, opcode, length, address, offset, count),
                    BufferSetConstant(g', opcode, length, address, offset, count), unread)
  {
    hide BufferLoad, BufferWrites, ConstantIndex, Related;
    var index := ConstantIndex(opcode, BufferLoad(g.memory, address, offset, 1));
    if index.Some? { BufferWritesRelated(g, g', unread, index.value, 1, address, offset, 2, length - 2); }
  }

  lemma BufferSimpleRelated(host: Host, g: Gpu, g': Gpu, unread: Region, length: int, address: int, offset: int,
                            count: int)
    requires Related(g, g', unread) && length >= 2 && SameBuffer(g.memory, g'.memory, address, offset, length)
    ensures Related(BufferModify(g, length, address, offset, count), BufferModify(g', length, address, offset, count),
                    unread)
    ensures Related(BufferEvent(g, length, address, offset, count), BufferEvent(g', length, address, offset, count),
                    unread)
    ensures Related(BufferInterrupt(g, length, offset, count), BufferInterrupt(g', length, offset, count), unread)
    ensures Related(BufferSwap(g, length, offset, count), BufferSwap(g', length, offset, count), unread)
  {
    hide BufferLoad, ModifyRegister, WriteEvent, Alike;
    if length >= 4 {
      var m := g.memory;
      ModifyRelated(g, g', unread, BufferLoad(m, address, offset, 1), BufferLoad(m, address, offset, 2),
                    BufferLoad(m, address, offset, 3));
      EventRelated(g, g', unread, BufferLoad(m, address, offset, 1), BufferLoad(m, address, offset, 2),
                   BufferLoad(m, address, offset, 3));
    }
  }

  lemma BufferMemoryWriteRelated(g: Gpu, g': Gpu, unread: Region, length: int, address: int, offset: int, count: int)
    requires Related(g, g', unread) && length >= 2 && DwordsApart(address, offset, offset + length, unread)
    ensures Related(BufferMemoryWrite(g, length, address, offset, count),
                    BufferMemoryWrite(g', length, address, offset, count), unread)
  {
    BufferAlike(g.memory, g'.memory, unread, address, offset, length);
    hide BufferLoad, BufferStores, Alike, DwordsApart;
    if length >= 3 {
      BufferStoresRelated(g, g', unread, BufferLoad(g.memory, address, offset, 1), address, offset, 2, length - 2);
    }
  }

  /** What a packet's operands make it read is apart from the region. */
  ghost predicate BufferReadsApart(host: Host, g: Gpu, opcode: int, length: int, address: int, offset: int, count: int,
                                   unread: Region)
    requires g.Valid()
  {
    ReadsApart(host, g, opcode, length, count - offset, BufferLoad(g.memory, address, offset, 1),
               BufferLoad(g.memory, address, offset, 2),
               BufferLoad(g.memory, address, offset, 3), BufferLoad(g.memory, address, offset, 4), unread)
  }

  /** The shader that is part of a packet is apart from the region. */
  ghost predicate OwnShaderApart(m: Memory, length: int, address: int, offset: int, unread: Region) {
    var dwords := BufferLoad(m, address, offset, 2) % 0x1_0000;
    0 < dwords <= length - 3 ==> CodeApart(address + (offset + 3) * 4, dwords, unread)
  }

  lemma BufferLoadsRelated(host: Host, g: Gpu, g': Gpu, unread: Region, opcode: int, length: int, address: int,
                           offset: int,
                           count: int)
    requires Related(g, g', unread) && length >= 2 && SameBuffer(g.memory, g'.memory, address, offset, length)
    requires BufferReadsApart(host, g, opcode, length, address, offset, count, unread)
    ensures opcode == 0x2F ==>
      Related(BufferLoadConstants(g, length, address, offset, count),
              BufferLoadConstants(g', length, address, offset, count), unread)
    ensures opcode == 0x27 ==>
      Related(BufferPointerShader(host, g, length, address, offset, count),
              BufferPointerShader(host, g', length, address, offset, count), unread)
  {
    hide BufferLoad, LoadConstants, LoadPointerShader, Related, ConstantsApart, PointerApart;
    var m := g.memory;
    if opcode == 0x2F && length >= 4 && offset + 3 < count {
      LoadConstantsRelated(g, g', unread, BufferLoad(m, address, offset, 1), BufferLoad(m, address, offset, 2),
                           BufferLoad(m, address, offset, 3));
    }
    if opcode == 0x27 && length >= 3 && offset + 2 < count {
      PointerRelated(host, g, g', unread, BufferLoad(m, address, offset, 1), BufferLoad(m, address, offset, 2));
    }
  }

  lemma BufferShaderRelated(host: Host, g: Gpu, g': Gpu, unread: Region, length: int, address: int, offset: int,
                            count: int)
    requires Related(g, g', unread) && length >= 2 && SameBuffer(g.memory, g'.memory, address, offset, length)
    requires OwnShaderApart(g.memory, length, address, offset, unread)
    ensures Related(BufferImmediateShader(host, g, length, address, offset, count),
                    BufferImmediateShader(host, g', length, address, offset, count), unread)
  {
    hide BufferLoad, UseShader, Related, CodeApart;
    var dwords := BufferLoad(g.memory, address, offset, 2) % 0x1_0000;
    if length >= 3 && 0 < dwords <= length - 3 {
      UseShaderRelated(host, g, g', unread, BufferLoad(g.memory, address, offset, 1), address + (offset + 3) * 4,
                       dwords);
    }
  }

  lemma CountRelated(g: Gpu, g': Gpu, unread: Region)
    requires Related(g, g', unread)
    ensures Related(g.(draws := g.draws + 1), g'.(draws := g'.draws + 1), unread)
    ensures Related(g.(packets := g.packets + 1), g'.(packets := g'.packets + 1), unread)
  {
    hide Alike;
  }

  lemma BufferDrawAutoRelated(host: Host, g: Gpu, g': Gpu, unread: Region, length: int, address: int, offset: int,
                              count: int)
    requires Related(g, g', unread) && length >= 2 && SameBuffer(g.memory, g'.memory, address, offset, length)
    requires BufferReadsApart(host, g, 0x36, length, address, offset, count, unread)
    ensures Related(BufferDrawAuto(host, g, length, address, offset, count),
                    BufferDrawAuto(host, g', length, address, offset, count), unread)
  {
    assert g'.Valid();
    hide BufferLoad, Poke, Draw, Related, DrawBlind;
    if offset + 1 < count {
      var o1 := BufferLoad(g.memory, address, offset, 1);
      PokeRelated(g, g', unread, DRAW_INITIATOR, o1);
      DrawRelated(host, Poke(g, DRAW_INITIATOR, o1), Poke(g', DRAW_INITIATOR, o1), unread);
      CountRelated(Draw(host, Poke(g, DRAW_INITIATOR, o1)), Draw(host, Poke(g', DRAW_INITIATOR, o1)), unread);
    } else {
      CountRelated(g, g', unread);
    }
  }

  lemma IndexedRelated(g: Gpu, g': Gpu, unread: Region, initiator: int, full: bool, o3: int, o4: int)
    requires Related(g, g', unread)
    ensures Related(Indexed(g, initiator, full, o3, o4), Indexed(g', initiator, full, o3, o4), unread)
  {
    assert g'.Valid();
    hide Poke, Related;
    PokeRelated(g, g', unread, DRAW_INITIATOR, initiator);
    var (u, u') := (Poke(g, DRAW_INITIATOR, initiator), Poke(g', DRAW_INITIATOR, initiator));
    PokeRelated(u, u', unread, DMA_BASE, o3);
    PokeRelated(Poke(u, DMA_BASE, o3), Poke(u', DMA_BASE, o3), unread, DMA_SIZE, o4);
  }

  lemma IndexedDrawRelated(host: Host, g: Gpu, g': Gpu, unread: Region, initiator: int, full: bool, o3: int, o4: int)
    requires Related(g, g', unread) && DrawBlind(host, Indexed(g, initiator, full, o3, o4), unread)
    ensures var (t, t') := (Draw(host, Indexed(g, initiator, full, o3, o4)),
                            Draw(host, Indexed(g', initiator, full, o3, o4)));
      Related(t.(draws := t.draws + 1), t'.(draws := t'.draws + 1), unread)
  {
    assert g'.Valid();
    hide Indexed, Draw, Related, DrawBlind;
    IndexedRelated(g, g', unread, initiator, full, o3, o4);
    DrawRelated(host, Indexed(g, initiator, full, o3, o4), Indexed(g', initiator, full, o3, o4), unread);
    CountRelated(Draw(host, Indexed(g, initiator, full, o3, o4)), Draw(host, Indexed(g', initiator, full, o3, o4)),
                 unread);
  }

  lemma BufferDrawIndexedRelated(host: Host, g: Gpu, g': Gpu, unread: Region, length: int, address: int, offset: int,
                                 count: int)
    requires Related(g, g', unread) && length >= 2 && SameBuffer(g.memory, g'.memory, address, offset, length)
    requires BufferReadsApart(host, g, 0x22, length, address, offset, count, unread)
    ensures Related(BufferDrawIndexed(host, g, length, address, offset, count),
                    BufferDrawIndexed(host, g', length, address, offset, count), unread)
  {
    assert g'.Valid();
    hide BufferLoad, Poke, Draw, Related, DrawBlind;
    if length >= 3 && offset + 2 < count {
      var (m, full) := (g.memory, length >= 5 && offset + 4 < count);
      IndexedDrawRelated(host, g, g', unread, BufferLoad(m, address, offset, 2), full,
                         BufferLoad(m, address, offset, 3), BufferLoad(m, address, offset, 4));
    } else {
      CountRelated(g, g', unread);
    }
  }

  /** What the packets that neither draw nor call read is apart from the region. */
  ghost predicate BufferStateApart(host: Host, g: Gpu, opcode: int, length: int, address: int, offset: int, count: int,
                                   unread: Region)
    requires g.Valid()
  {
    && BufferReadsApart(host, g, opcode, length, address, offset, count, unread)
    && (opcode == 0x2B ==> OwnShaderApart(g.memory, length, address, offset, unread))
  }

  lemma BufferStateRelated(host: Host, g: Gpu, g': Gpu, unread: Region, opcode: int, length: int, address: int,
                           offset: int,
                           count: int)
    requires Related(g, g', unread) && length >= 2 && DwordsApart(address, offset, offset + length, unread)
    requires BufferStateApart(host, g, opcode, length, address, offset, count, unread)
    ensures Related(BufferState(host, g, opcode, length, address, offset, count),
                    BufferState(host, g', opcode, length, address, offset, count), unread)
  {
    BufferAlike(g.memory, g'.memory, unread, address, offset, length);
    assert g'.Valid();
    hide BufferLoad, Related, SameBuffer, DwordsApart, BufferReadsApart, OwnShaderApart;
    hide BufferSetConstant, BufferLoadConstants, BufferModify, BufferMemoryWrite, BufferImmediateShader;
    hide BufferPointerShader;
    hide BufferInterrupt, BufferEvent, BufferSwap;
    match opcode
    case 0x2D | 0x55 | 0x56 => BufferConstantsRelated(g, g', unread, opcode, length, address, offset, count);
    case 0x2F | 0x27 => BufferLoadsRelated(host, g, g', unread, opcode, length, address, offset, count);
    case 0x3D => BufferMemoryWriteRelated(g, g', unread, length, address, offset, count);
    case 0x2B => BufferShaderRelated(host, g, g', unread, length, address, offset, count);
    case 0x21 | 0x46 | 0x58 | 0x59 | 0x64 => BufferSimpleRelated(host, g, g', unread, length, address, offset, count);
    case _ =>
  }

  // ---- Buffers that do not look at the region ----

  ghost predicate CallUnseen(host: Host, g: Gpu, address: int, count: int, depth: int, unread: Region)
    requires g.Valid() && 0 <= depth <= MAX_DEPTH + 1
    decreases MAX_DEPTH + 1 - depth, 2, 0
  {
    depth > MAX_DEPTH || count > MAX_DWORDS || BufferUnseen(host, g, address, 0, count, depth, unread)
  }

  ghost predicate BufferType3Unseen(host: Host, g: Gpu, header: int, address: int, offset: int, count: int, depth: int,
                                    unread: Region)
    requires g.Valid() && 0 <= depth <= MAX_DEPTH
    decreases MAX_DEPTH + 1 - depth, 0, 0
  {
    if OpcodeOf(header) == 0x3F then
      LengthOf(header) >= 3 && offset + 2 < count ==>
        CallUnseen(host, g, PhysicalToGuest(BufferLoad(g.memory, address, offset, 1)),
                   BufferLoad(g.memory, address, offset, 2) % 0x10_0000, depth + 1, unread)
    else BufferStateApart(host, g, OpcodeOf(header), LengthOf(header), address, offset, count, unread)
  }

  /** No packet of the buffer, nor of the buffers it calls, reads the region when its turn comes. */
  ghost predicate BufferUnseen(host: Host, g: Gpu, address: int, offset: int, count: int, depth: int, unread: Region)
    requires g.Valid() && 0 <= depth <= MAX_DEPTH
    decreases MAX_DEPTH + 1 - depth, 1, count - offset
  {
    offset >= count ||
    (var header := BufferLoad(g.memory, address, offset, 0);
     var length := LengthOf(header);
     if header == 0 then
       DwordsApart(address, offset, offset + 1, unread) && BufferUnseen(host, g, address, offset + 1, count, depth,
                                                                        unread)
     else
       && DwordsApart(address, offset, offset + length, unread)
       && (TypeOf(header) == 3 ==> BufferType3Unseen(host, Tally(g, header), header, address, offset, count, depth,
                                                     unread))
       && (length > count - offset ||
             var t := BufferPacket(host, g, header, address, offset, count, depth);
             BufferUnseen(host, t.(packets := t.packets + 1), address, offset + length, count, depth, unread)))
  }

  lemma {:induction false} BufferIndirectRelated(host: Host, g: Gpu, g': Gpu, unread: Region, length: int, address: int,
                                                 offset: int, count: int, depth: int)
    requires Related(g, g', unread) && length >= 2 && 0 <= depth <= MAX_DEPTH
    requires SameBuffer(g.memory, g'.memory, address, offset, length)
    requires length >= 3 && offset + 2 < count ==>
      CallUnseen(host, g, PhysicalToGuest(BufferLoad(g.memory, address, offset, 1)),
                 BufferLoad(g.memory, address, offset, 2) % 0x10_0000, depth + 1, unread)
    ensures Related(BufferIndirect(host, g, length, address, offset, count, depth),
                    BufferIndirect(host, g', length, address, offset, count, depth), unread)
    decreases MAX_DEPTH + 1 - depth, 0, 0
  {
    assert g'.Valid();
    hide BufferLoad, Related, CallUnseen, ProcessBuffer, PhysicalToGuest;
    if length >= 3 && offset + 2 < count {
      ProcessRelated(host, g, g', unread, PhysicalToGuest(BufferLoad(g.memory, address, offset, 1)),
                     BufferLoad(g.memory, address, offset, 2) % 0x10_0000, depth + 1);
    }
  }

  lemma {:induction false} BufferType3Related(host: Host, g: Gpu, g': Gpu, unread: Region, header: int, address: int,
                                              offset: int, count: int, depth: int)
    requires Related(g, g', unread) && 0 <= depth <= MAX_DEPTH && TypeOf(header) == 3
    requires DwordsApart(address, offset, offset + LengthOf(header), unread)
    requires BufferType3Unseen(host, g, header, address, offset, count, depth, unread)
    ensures Related(BufferType3(host, g, header, address, offset, count, depth),
                    BufferType3(host, g', header, address, offset, count, depth), unread)
    decreases MAX_DEPTH + 1 - depth, 0, 1
  {
    var (opcode, length) := (OpcodeOf(header), LengthOf(header));
    assert length >= 2 && g'.Valid();
    BufferAlike(g.memory, g'.memory, unread, address, offset, length);
    hide BufferLoad, Related, SameBuffer, DwordsApart, OpcodeOf, TypeOf, LengthOf, CallUnseen, BufferReadsApart;
    hide OwnShaderApart;
    hide BufferIndirect, BufferDrawAuto, BufferDrawIndexed, BufferState;
    match opcode
    case 0x3F => BufferIndirectRelated(host, g, g', unread, length, address, offset, count, depth);
    case 0x36 => BufferDrawAutoRelated(host, g, g', unread, length, address, offset, count);
    case 0x22 => BufferDrawIndexedRelated(host, g, g', unread, length, address, offset, count);
    case _ => BufferStateRelated(host, g, g', unread, opcode, length, address, offset, count);
  }

  lemma {:induction false} BufferPacketRelated(host: Host, g: Gpu, g': Gpu, unread: Region, header: int, address: int,
                                               offset: int, count: int, depth: int)
    requires Related(g, g', unread) && 0 <= depth <= MAX_DEPTH
    requires DwordsApart(address, offset, offset + LengthOf(header), unread)
    requires TypeOf(header) == 3 ==> BufferType3Unseen(host, Tally(g, header), header, address, offset, count, depth,
                                                       unread)
    ensures Related(BufferPacket(host, g, header, address, offset, count, depth),
                    BufferPacket(host, g', header, address, offset, count, depth), unread)
    decreases MAX_DEPTH + 1 - depth, 0, 2
  {
    TallyRelated(g, g', unread, header);
    var (t, t') := (Tally(g, header), Tally(g', header));
    BufferAlike(t.memory, t'.memory, unread, address, offset, LengthOf(header));
    hide BufferLoad, Related, SameBuffer, DwordsApart, Tally, BufferType3Unseen, BufferType3, BufferWrites, LengthOf;
    if TypeOf(header) == 0 {
      BufferWritesRelated(t, t', unread, header % 0x8000, if header / 0x8000 % 2 == 1 then 0 else 1, address, offset, 1,
                          LengthOf(header) - 1);
    } else if TypeOf(header) == 3 {
      BufferType3Related(host, t, t', unread, header, address, offset, count, depth);
    }
  }

  lemma BufferStepRelated(host: Host, g: Gpu, g': Gpu, unread: Region, header: int, address: int, offset: int,
                          count: int,
                          depth: int)
    requires Related(g, g', unread) && 0 <= depth <= MAX_DEPTH
    requires DwordsApart(address, offset, offset + LengthOf(header), unread)
    requires TypeOf(header) == 3 ==> BufferType3Unseen(host, Tally(g, header), header, address, offset, count, depth,
                                                       unread)
    ensures var (t, t') := (BufferPacket(host, g, header, address, offset, count, depth),
                            BufferPacket(host, g', header, address, offset, count, depth));
      Related(t, t', unread) && Related(t.(packets := t.packets + 1), t'.(packets := t'.packets + 1), unread)
    decreases MAX_DEPTH + 1 - depth, 0, 3
  {
    RelatedValid(g, g', unread);
    hide Related, DwordsApart, BufferType3Unseen, BufferPacket, LengthOf, TypeOf, Tally;
    BufferPacketRelated(host, g, g', unread, header, address, offset, count, depth);
    CountRelated(BufferPacket(host, g, header, address, offset, count, depth),
                 BufferPacket(host, g', header, address, offset, count, depth), unread);
  }

  lemma BufferUnseenFirst(host: Host, g: Gpu, address: int, offset: int, count: int, depth: int, unread: Region)
    requires g.Valid() && 0 <= depth <= MAX_DEPTH && offset < count
      && BufferUnseen(host, g, address, offset, count, depth, unread)
    ensures var header := BufferLoad(g.memory, address, offset, 0);
      var length := LengthOf(header);
      if header == 0 then DwordsApart(address, offset, offset + 1, unread)
        && BufferUnseen(host, g, address, offset + 1, count, depth, unread)
      else
        && DwordsApart(address, offset, offset + length, unread)
        && (TypeOf(header) == 3 ==> BufferType3Unseen(host, Tally(g, header), header, address, offset, count, depth,
                                                      unread))
        && (length > count - offset ||
              var t := BufferPacket(host, g, header, address, offset, count, depth);
              BufferUnseen(host, t.(packets := t.packets + 1), address, offset + length, count, depth, unread))
  {
    hide BufferLoad, BufferPacket, LengthOf, TypeOf, Tally, BufferType3Unseen, DwordsApart;
  }

  lemma {:induction false} BufferRunRelated(host: Host, g: Gpu, g': Gpu, unread: Region, address: int, offset: int,
                                            count: int,
                                            depth: int)
    requires Related(g, g', unread) && 0 <= depth <= MAX_DEPTH
    requires BufferUnseen(host, g, address, offset, count, depth, unread)
    ensures g'.Valid() && Related(BufferRun(host, g, address, offset, count, depth),
                                  BufferRun(host, g', address, offset, count, depth), unread)
    decreases MAX_DEPTH + 1 - depth, 1, count - offset
  {
    hide *;
    RelatedValid(g, g', unread);
    if offset < count {
      var header := BufferLoad(g.memory, address, offset, 0);
      var length := LengthOf(header);
      BufferUnseenFirst(host, g, address, offset, count, depth, unread);
      HeaderSame(g, g', unread, address, offset, length);
      BufferRunFirst(host, g, address, offset, count, depth);
      BufferRunFirst(host, g', address, offset, count, depth);
      if header == 0 {
        BufferRunRelated(host, g, g', unread, address, offset + 1, count, depth);
      } else {
        BufferStepRelated(host, g, g', unread, header, address, offset, count, depth);
        if length <= count - offset {
          var t := BufferPacket(host, g, header, address, offset, count, depth);
          var t' := BufferPacket(host, g', header, address, offset, count, depth);
          BufferRunRelated(host, t.(packets := t.packets + 1), t'.(packets := t'.packets + 1), unread, address,
                           offset + length, count, depth);
        }
      }
    } else {
      BufferRunDone(host, g, address, offset, count, depth);
      BufferRunDone(host, g', address, offset, count, depth);
    }
  }

  lemma HeaderSame(g: Gpu, g': Gpu, unread: Region, address: int, offset: int, length: int)
    requires Related(g, g', unread) && length >= 1
    requires DwordsApart(address, offset, offset + length, unread) || DwordsApart(address, offset, offset + 1, unread)
    ensures BufferLoad(g.memory, address, offset, 0) == BufferLoad(g'.memory, address, offset, 0)
  {
    assert DwordsApart(address, offset, offset + 1, unread);
    BufferAlike(g.memory, g'.memory, unread, address, offset, 1);
    hide BufferLoad, Alike;
  }

  lemma {:induction false} ProcessRelated(host: Host, g: Gpu, g': Gpu, unread: Region, address: int, count: int,
                                          depth: int)
    requires Related(g, g', unread) && 0 <= depth <= MAX_DEPTH + 1
    requires CallUnseen(host, g, address, count, depth, unread)
    ensures Related(ProcessBuffer(host, g, address, count, depth), ProcessBuffer(host, g', address, count, depth),
                    unread)
    decreases MAX_DEPTH + 1 - depth, 2, 0
  {
    assert g'.Valid();
    hide Related, BufferRun, BufferUnseen;
    if depth <= MAX_DEPTH && count <= MAX_DWORDS { BufferRunRelated(host, g, g', unread, address, 0, count, depth); }
  }

  // ---- The decoder of the ring ----

  /** No slot of the ring overlaps the region. */
  ghost predicate RingApart(base: int, size: int, unread: Region) {
    DwordsApart(base, 0, size, unread)
  }

  /** The ring reads alike from here. */
  ghost predicate SameRing(m: Memory, m': Memory, base: int, size: int, at: int)
    requires size > 0
  {
    forall k :: RingLoad(m, base, size, at, k) == RingLoad(m', base, size, at, k)
  }

  lemma RingAlike(m: Memory, m': Memory, unread: Region, base: int, size: int, at: int)
    requires size > 0 && Alike(m, m', unread) && RingApart(base, size, unread)
    ensures SameRing(m, m', base, size, at)
  {
    hide LoadBE, Alike, WordApart;
    forall k ensures RingLoad(m, base, size, at, k) == RingLoad(m', base, size, at, k) {
      assert WordApart(DwordAt(base, Wrap(at + k) % size), unread);
      LoadAlike(m, m', unread, Wrap(base + Wrap(at + k) % size * 4));
    }
  }

  lemma {:induction false} RingWritesRelated(g: Gpu, g': Gpu, unread: Region, index: int, step: int, base: int,
                                             size: int,
                                             at: int, k: int, n: int)
    requires Related(g, g', unread) && 0 <= index && 0 <= step && size > 0
    requires SameRing(g.memory, g'.memory, base, size, at)
    ensures Related(RingWrites(g, index, step, base, size, at, k, n), RingWrites(g', index, step, base, size, at, k, n),
                    unread)
    decreases n
  {
    hide SetRegister, RingLoad, Alike;
    if n > 0 {
      var value := RingLoad(g.memory, base, size, at, k);
      SetRegisterRelated(g, g', unread, index, value);
      RingWritesRelated(SetRegister(g, index, value), SetRegister(g', index, value), unread, index + step, step, base,
                        size,
                        at, k + 1, n - 1);
    }
  }

  lemma {:induction false} RingStoresRelated(g: Gpu, g': Gpu, unread: Region, destination: int, base: int, size: int,
                                             at: int,
                                             k: int, n: int)
    requires Related(g, g', unread) && size > 0 && RingApart(base, size, unread)
    ensures Related(RingStores(g, destination, base, size, at, k, n), RingStores(g', destination, base, size, at, k, n),
                    unread)
    decreases n
  {
    hide WriteGpuMemory, RingLoad, Alike, RingApart;
    if n > 0 {
      RingAlike(g.memory, g'.memory, unread, base, size, at);
      var value := RingLoad(g.memory, base, size, at, k);
      WrittenRelated(g, g', unread, destination, value);
      RingStoresRelated(g.(memory := WriteGpuMemory(g.memory, destination, value)),
                        g'.(memory := WriteGpuMemory(g'.memory, destination, value)), unread,
                        Wrap(destination + 4), base, size, at, k + 1, n - 1);
    }
  }

  lemma RingConstantsRelated(g: Gpu, g': Gpu, unread: Region, opcode: int, length: int, base: int, size: int, at: int,
                             available: int)
    requires Related(g, g', unread) && length >= 2 && size > 0 && SameRing(g.memory, g'.memory, base, size, at)
    ensures Related(RingSetConstant(g, opcode, length, base, size, at, available),
                    RingSetConstant(g', opcode, length, base, size, at, available), unread)
  {
    hide RingLoad, RingWrites, ConstantIndex, Related;
    var index := ConstantIndex(opcode, RingLoad(g.memory, base, size, at, 1));
    if index.Some? { RingWritesRelated(g, g', unread, index.value, 1, base, size, at, 2, length - 2); }
  }

  lemma RingSimpleRelated(g: Gpu, g': Gpu, unread: Region, length: int, base: int, size: int, at: int, available: int)
    requires Related(g, g', unread) && length >= 2 && size > 0 && SameRing(g.memory, g'.memory, base, size, at)
    ensures Related(RingModify(g, length, base, size, at, available), RingModify(g', length, base, size, at, available),
                    unread)
    ensures Related(RingEvent(g, length, base, size, at, available), RingEvent(g', length, base, size, at, available),
                    unread)
    ensures Related(RingInterrupt(g, length, available), RingInterrupt(g', length, available), unread)
    ensures Related(RingSwap(g, length, available), RingSwap(g', length, available), unread)
  {
    hide RingLoad, ModifyRegister, WriteEvent, Alike;
    var m := g.memory;
    ModifyRelated(g, g', unread, RingLoad(m, base, size, at, 1), RingLoad(m, base, size, at, 2),
                  RingLoad(m, base, size, at, 3));
    EventRelated(g, g', unread, RingLoad(m, base, size, at, 1), RingLoad(m, base, size, at, 2),
                 RingLoad(m, base, size, at, 3));
  }

  lemma RingMemoryWriteRelated(g: Gpu, g': Gpu, unread: Region, length: int, base: int, size: int, at: int,
                               available: int)
    requires Related(g, g', unread) && size > 0 && RingApart(base, size, unread)
    ensures Related(RingMemoryWrite(g, length, base, size, at, available),
                    RingMemoryWrite(g', length, base, size, at, available), unread)
  {
    RingAlike(g.memory, g'.memory, unread, base, size, at);
    hide RingLoad, RingStores, Alike, RingApart;
    if length >= 3 { RingStoresRelated(g, g', unread, RingLoad(g.memory, base, size, at, 1), base, size, at, 2,
                                       length - 2); }
  }

  ghost predicate RingReadsApart(host: Host, g: Gpu, opcode: int, length: int, base: int, size: int, at: int,
                                 available: int, unread: Region)
    requires g.Valid() && size > 0
  {
    ReadsApart(host, g, opcode, length, available, RingLoad(g.memory, base, size, at, 1),
               RingLoad(g.memory, base, size, at, 2),
               RingLoad(g.memory, base, size, at, 3), RingLoad(g.memory, base, size, at, 4), unread)
  }

  lemma RingLoadsRelated(host: Host, g: Gpu, g': Gpu, unread: Region, opcode: int, length: int, base: int, size: int,
                         at: int,
                         available: int)
    requires Related(g, g', unread) && size > 0 && SameRing(g.memory, g'.memory, base, size, at)
    requires RingReadsApart(host, g, opcode, length, base, size, at, available, unread)
    ensures opcode == 0x2F ==>
      Related(RingLoadConstants(g, length, base, size, at, available),
              RingLoadConstants(g', length, base, size, at, available), unread)
    ensures opcode == 0x27 ==>
      Related(RingPointerShader(host, g, length, base, size, at, available),
              RingPointerShader(host, g', length, base, size, at, available), unread)
  {
    hide RingLoad, LoadConstants, LoadPointerShader, Related, ConstantsApart, PointerApart;
    var m := g.memory;
    if opcode == 0x2F && length >= 4 && 3 < available {
      LoadConstantsRelated(g, g', unread, RingLoad(m, base, size, at, 1), RingLoad(m, base, size, at, 2),
                           RingLoad(m, base, size, at, 3));
    }
    if opcode == 0x27 && length >= 3 && 2 < available {
      PointerRelated(host, g, g', unread, RingLoad(m, base, size, at, 1), RingLoad(m, base, size, at, 2));
    }
  }

  lemma RingDrawAutoRelated(host: Host, g: Gpu, g': Gpu, unread: Region, length: int, base: int, size: int, at: int,
                            available: int)
    requires Related(g, g', unread) && length >= 2 && size > 0 && SameRing(g.memory, g'.memory, base, size, at)
    requires RingReadsApart(host, g, 0x36, length, base, size, at, available, unread)
    ensures Related(RingDrawAuto(host, g, length, base, size, at, available),
                    RingDrawAuto(host, g', length, base, size, at, available), unread)
  {
    assert g'.Valid();
    hide RingLoad, Poke, Draw, Related, DrawBlind;
    if 1 < available {
      var o1 := RingLoad(g.memory, base, size, at, 1);
      PokeRelated(g, g', unread, DRAW_INITIATOR, o1);
      DrawRelated(host, Poke(g, DRAW_INITIATOR, o1), Poke(g', DRAW_INITIATOR, o1), unread);
      CountRelated(Draw(host, Poke(g, DRAW_INITIATOR, o1)), Draw(host, Poke(g', DRAW_INITIATOR, o1)), unread);
    } else {
      CountRelated(g, g', unread);
    }
  }

  lemma RingDrawIndexedRelated(host: Host, g: Gpu, g': Gpu, unread: Region, length: int, base: int, size: int, at: int,
                               available: int)
    requires Related(g, g', unread) && length >= 2 && size > 0 && SameRing(g.memory, g'.memory, base, size, at)
    requires RingReadsApart(host, g, 0x22, length, base, size, at, available, unread)
    ensures Related(RingDrawIndexed(host, g, length, base, size, at, available),
                    RingDrawIndexed(host, g', length, base, size, at, available), unread)
  {
    assert g'.Valid();
    hide RingLoad, Poke, Draw, Related, DrawBlind;
    if length >= 3 && 2 < available {
      var m := g.memory;
      IndexedDrawRelated(host, g, g', unread, RingLoad(m, base, size, at, 2), length >= 5 && 4 < available,
                         RingLoad(m, base, size, at, 3), RingLoad(m, base, size, at, 4));
    } else {
      CountRelated(g, g', unread);
    }
  }

  lemma RingIndirectRelated(host: Host, g: Gpu, g': Gpu, unread: Region, length: int, base: int, size: int, at: int,
                            available: int)
    requires Related(g, g', unread) && size > 0 && SameRing(g.memory, g'.memory, base, size, at)
    requires length >= 3 && 2 < available ==>
      CallUnseen(host, g, PhysicalToGuest(RingLoad(g.memory, base, size, at, 1)),
                 RingLoad(g.memory, base, size, at, 2) % 0x10_0000, 1, unread)
    ensures Related(RingIndirect(host, g, length, base, size, at, available),
                    RingIndirect(host, g', length, base, size, at, available), unread)
  {
    assert g'.Valid();
    hide RingLoad, Related, CallUnseen, ProcessBuffer, PhysicalToGuest;
    if length >= 3 && 2 < available {
      ProcessRelated(host, g, g', unread, PhysicalToGuest(RingLoad(g.memory, base, size, at, 1)),
                     RingLoad(g.memory, base, size, at, 2) % 0x10_0000, 1);
    }
  }

  lemma RingStateRelated(host: Host, g: Gpu, g': Gpu, unread: Region, opcode: int, length: int, base: int, size: int,
                         at: int,
                         available: int)
    requires Related(g, g', unread) && length >= 2 && size > 0 && RingApart(base, size, unread)
    requires RingReadsApart(host, g, opcode, length, base, size, at, available, unread)
    ensures Related(RingState(host, g, opcode, length, base, size, at, available),
                    RingState(host, g', opcode, length, base, size, at, available), unread)
  {
    RingAlike(g.memory, g'.memory, unread, base, size, at);
    assert g'.Valid();
    hide RingLoad, Related, SameRing, RingApart, RingReadsApart;
    hide RingSetConstant, RingLoadConstants, RingModify, RingMemoryWrite, RingPointerShader, RingInterrupt, RingEvent;
    hide RingSwap;
    match opcode
    case 0x2D | 0x55 | 0x56 => RingConstantsRelated(g, g', unread, opcode, length, base, size, at, available);
    case 0x2F | 0x27 => RingLoadsRelated(host, g, g', unread, opcode, length, base, size, at, available);
    case 0x3D => RingMemoryWriteRelated(g, g', unread, length, base, size, at, available);
    case 0x21 | 0x46 | 0x58 | 0x59 | 0x64 => RingSimpleRelated(g, g', unread, length, base, size, at, available);
    case _ =>
  }

  // ---- Streams of the ring that do not look at the region ----

  ghost predicate RingType3Unseen(host: Host, g: Gpu, header: int, base: int, size: int, at: int, available: int,
                                  unread: Region)
    requires g.Valid() && size > 0
  {
    if OpcodeOf(header) == 0x3F then
      LengthOf(header) >= 3 && 2 < available ==>
        CallUnseen(host, g, PhysicalToGuest(RingLoad(g.memory, base, size, at, 1)),
                   RingLoad(g.memory, base, size, at, 2) % 0x10_0000, 1, unread)
    else RingReadsApart(host, g, OpcodeOf(header), LengthOf(header), base, size, at, available, unread)
  }

  ghost predicate RingPacketUnseen(host: Host, g: Gpu, header: int, base: int, size: int, at: int, available: int,
                                   unread: Region)
    requires g.Valid() && size > 0
  {
    TypeOf(header) == 3 ==> RingType3Unseen(host, Tally(g, header), header, base, size, at, available, unread)
  }

  /** No packet up to the target, nor the buffers it calls, reads the region when its turn comes. */
  ghost predicate RingUnseen(host: Host, g: Gpu, base: int, size: int, at: int, target: int, available: int,
                             unread: Region)
    requires g.Valid() && size > 0
    decreases available
  {
    at == target || available <= 0 ||
    (var header := RingLoad(g.memory, base, size, at, 0);
     var length := LengthOf(header);
     && RingPacketUnseen(host, g, header, base, size, at, available, unread)
     && (length > available ||
           RingUnseen(host, Step(host, g, base, size, at, available), base, size, Turn(at, length, size), target,
                      available - length, unread)))
  }

  lemma RingType3Related(host: Host, g: Gpu, g': Gpu, unread: Region, header: int, base: int, size: int, at: int,
                         available: int)
    requires Related(g, g', unread) && TypeOf(header) == 3 && size > 0 && RingApart(base, size, unread)
    requires RingType3Unseen(host, g, header, base, size, at, available, unread)
    ensures Related(RingType3(host, g, header, base, size, at, available),
                    RingType3(host, g', header, base, size, at, available), unread)
  {
    var (opcode, length) := (OpcodeOf(header), LengthOf(header));
    assert length >= 2 && g'.Valid();
    RingAlike(g.memory, g'.memory, unread, base, size, at);
    hide RingLoad, Related, SameRing, RingApart, OpcodeOf, TypeOf, LengthOf, CallUnseen, RingReadsApart;
    hide RingIndirect, RingDrawAuto, RingDrawIndexed, RingState;
    match opcode
    case 0x3F => RingIndirectRelated(host, g, g', unread, length, base, size, at, available);
    case 0x36 => RingDrawAutoRelated(host, g, g', unread, length, base, size, at, available);
    case 0x22 => RingDrawIndexedRelated(host, g, g', unread, length, base, size, at, available);
    case _ => RingStateRelated(host, g, g', unread, opcode, length, base, size, at, available);
  }

  lemma RingPacketRelated(host: Host, g: Gpu, g': Gpu, unread: Region, header: int, base: int, size: int, at: int,
                          available: int)
    requires Related(g, g', unread) && size > 0 && RingApart(base, size, unread)
    requires RingPacketUnseen(host, g, header, base, size, at, available, unread)
    ensures Related(RingPacket(host, g, header, base, size, at, available),
                    RingPacket(host, g', header, base, size, at, available), unread)
  {
    TallyRelated(g, g', unread, header);
    var (t, t') := (Tally(g, header), Tally(g', header));
    RingAlike(t.memory, t'.memory, unread, base, size, at);
    assert g'.Valid();
    hide RingLoad, Related, SameRing, RingApart, Tally, RingType3Unseen, RingType3, RingWrites, LengthOf;
    if TypeOf(header) == 0 {
      RingWritesRelated(t, t', unread, header % 0x8000, if header / 0x8000 % 2 == 1 then 0 else 1, base, size, at, 1,
                        LengthOf(header) - 1);
    } else if TypeOf(header) == 3 {
      RingType3Related(host, t, t', unread, header, base, size, at, available);
    }
  }

  lemma RingHeaderSame(g: Gpu, g': Gpu, unread: Region, base: int, size: int, at: int)
    requires Related(g, g', unread) && size > 0 && RingApart(base, size, unread)
    ensures RingLoad(g.memory, base, size, at, 0) == RingLoad(g'.memory, base, size, at, 0)
  {
    RingAlike(g.memory, g'.memory, unread, base, size, at);
    hide RingLoad, Alike, RingApart;
  }

  lemma StepRelated(host: Host, g: Gpu, g': Gpu, unread: Region, base: int, size: int, at: int, available: int)
    requires Related(g, g', unread) && size > 0 && RingApart(base, size, unread)
    requires RingPacketUnseen(host, g, RingLoad(g.memory, base, size, at, 0), base, size, at, available, unread)
    ensures g'.Valid() && Related(Step(host, g, base, size, at, available), Step(host, g', base, size, at, available),
                                  unread)
    ensures var header := RingLoad(g.memory, base, size, at, 0);
      Related(RingPacket(host, g, header, base, size, at, available),
              RingPacket(host, g', header, base, size, at, available), unread)
  {
    var header := RingLoad(g.memory, base, size, at, 0);
    RelatedValid(g, g', unread);
    hide Related, RingApart, RingPacketUnseen, RingPacket, RingLoad;
    RingHeaderSame(g, g', unread, base, size, at);
    RingPacketRelated(host, g, g', unread, header, base, size, at, available);
    CountRelated(RingPacket(host, g, header, base, size, at, available),
                 RingPacket(host, g', header, base, size, at, available), unread);
  }

  lemma RingUnseenFirst(host: Host, g: Gpu, base: int, size: int, at: int, target: int, available: int, unread: Region)
    requires g.Valid() && size > 0 && at != target && 0 < available
      && RingUnseen(host, g, base, size, at, target, available, unread)
    ensures RingPacketUnseen(host, g, RingLoad(g.memory, base, size, at, 0), base, size, at, available, unread)
    ensures var length := NextLength(g, base, size, at);
      length > available ||
      RingUnseen(host, Step(host, g, base, size, at, available), base, size, Turn(at, length, size), target,
                 available - length, unread)
  {
    hide RingPacketUnseen, Step, RingLoad, LengthOf;
  }

  /** A stream that does not look at the region ends in the same place, and in the same state but for the region. */
  lemma {:induction false} RingRunRelated(host: Host, g: Gpu, g': Gpu, unread: Region, base: int, size: int, at: int,
                                          target: int, available: int)
    requires Related(g, g', unread) && size > 0 && RingApart(base, size, unread)
    requires RingUnseen(host, g, base, size, at, target, available, unread)
    ensures g'.Valid()
    ensures var (r, r') := (RingRun(host, g, base, size, at, target, available),
                            RingRun(host, g', base, size, at, target, available));
      r.at == r'.at && Related(r.gpu, r'.gpu, unread)
    decreases available
  {
    hide *;
    RelatedValid(g, g', unread);
    if at != target && available > 0 {
      RingUnseenFirst(host, g, base, size, at, target, available, unread);
      StepRelated(host, g, g', unread, base, size, at, available);
      RingRunFirst(host, g, base, size, at, target, available);
      RingRunFirst(host, g', base, size, at, target, available);
      NextLengthSame(g, g', unread, base, size, at);
      var length := NextLength(g, base, size, at);
      if length <= available {
        RingRunRelated(host, Step(host, g, base, size, at, available), Step(host, g', base, size, at, available),
                       unread,
                       base, size, Turn(at, length, size), target, available - length);
      }
    } else {
      RingRunDone(host, g, base, size, at, target, available);
      RingRunDone(host, g', base, size, at, target, available);
    }
  }

  lemma NextLengthSame(g: Gpu, g': Gpu, unread: Region, base: int, size: int, at: int)
    requires Related(g, g', unread) && size > 0 && RingApart(base, size, unread)
    ensures RingLoad(g.memory, base, size, at, 0) == RingLoad(g'.memory, base, size, at, 0)
    ensures NextLength(g, base, size, at) == NextLength(g', base, size, at)
  {
    RingHeaderSame(g, g', unread, base, size, at);
    hide RingLoad, LengthOf;
  }
}
