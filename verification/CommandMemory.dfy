/**
 Streams whose packets leave command memory alone, as far as the memory itself says. From what the
 packets and the buffers they call hold at the start it follows what they do when their turn comes:
 the ring and a buffer with the same packets stay the same, and a region that no packet reads stays
 unseen.
 */
module CommandMemory {
  import opened Words
  import opened Arithmetic
  import opened GuestMemory
  import opened FetchBanks
  import opened Pm4
  import opened RingStream
  import opened Unseen

  predicate WordOut(address: int, kept: Region) {
    address !in kept && address + 1 !in kept && address + 2 !in kept && address + 3 !in kept
  }

  ghost predicate DwordsIn(base: int, from: int, end: int, kept: Region) {
    forall i | from <= i < end :: WordIn(DwordAt(base, i), kept)
  }

  ghost predicate Kept(m: Memory, m': Memory, kept: Region) {
    forall a | a in kept :: ByteAt(m, a) == ByteAt(m', a)
  }

  lemma LoadKept(m: Memory, m': Memory, kept: Region, address: int)
    requires Kept(m, m', kept) && WordIn(address, kept)
    ensures LoadBE(m, address) == LoadBE(m', address)
  {
    hide ByteAt;
    assert forall a | InRange(a, address, address + 4) :: a in kept;
    BytesSame(m, m', address, address + 4);
  }

  lemma StoreKept(m: Memory, m': Memory, kept: Region, address: int, value: int)
    requires Kept(m, m', kept) && WordOut(address, kept)
    ensures Kept(m, StoreBE(m', address, value), kept)
  {
    StoredKeys(m', address, address + 4, value);
    hide StoreBytes;
    forall a | a in kept ensures ByteAt(m, a) == ByteAt(StoreBE(m', address, value), a) {
      assert ByteAt(m, a) == ByteAt(m', a) && !InRange(a, address, address + 4);
    }
  }

  predicate WriteOut(encoded: int, kept: Region) {
    WordOut(PhysicalToGuest(WordAligned(encoded)), kept)
  }

  lemma WriteKept(m: Memory, m': Memory, kept: Region, encoded: int, value: int)
    requires Kept(m, m', kept) && WriteOut(encoded, kept)
    ensures Kept(m, WriteGpuMemory(m', encoded, value), kept)
  {
    StoreKept(m, m', kept, PhysicalToGuest(WordAligned(encoded)), Swap32(value, encoded));
    hide StoreBE, Swap32, Kept, PhysicalToGuest, WordAligned;
  }

  // ---- What packets write is outside the region ----

  predicate StoresOut(destination: int, n: int, kept: Region)
    decreases n
  {
    n > 0 ==> WriteOut(destination, kept) && StoresOut(Wrap(destination + 4), n - 1, kept)
  }

  predicate EventOut(encoded: int, kept: Region) {
    var destination := PhysicalToGuest(WordAligned(encoded));
    && WordOut(destination, kept)
    && (WordAligned(encoded) / 0x1000 == 0x189F4 ==> WordOut(destination + 0x1000, kept))
  }

  /** The rasteriser draws elsewhere. */
  ghost predicate DrawKeeps(host: Host, kept: Region) {
    forall g: Gpu | g.Valid() :: Kept(g.memory, host.draw(g).memory, kept)
  }

  ghost predicate WritesOut(host: Host, opcode: int, length: int, available: int, o1: int, o2: int, kept: Region) {
    match opcode
    case 0x36 | 0x22 => DrawKeeps(host, kept)
    case 0x3D => length >= 3 && 2 < available ==> StoresOut(o1, length - 2, kept)
    case 0x58 | 0x59 => length >= 4 && 3 < available ==> EventOut(o2, kept)
    case _ => true
  }

  lemma KeptFurther(m: Memory, m1: Memory, m2: Memory, kept: Region)
    requires Kept(m, m1, kept) && Kept(m1, m2, kept)
    ensures Kept(m, m2, kept)
  {
    hide ByteAt;
  }

  lemma DrawKept(host: Host, m: Memory, g: Gpu, kept: Region)
    requires g.Valid() && Kept(m, g.memory, kept) && DrawKeeps(host, kept)
    ensures Kept(m, Draw(host, g).memory, kept)
  {
    hide Kept;
    KeptFurther(m, g.memory, host.draw(g).memory, kept);
  }

  lemma EventKept(m: Memory, g: Gpu, kept: Region, initiator: int, encoded: int, requested: int)
    requires g.Valid() && Kept(m, g.memory, kept) && EventOut(encoded, kept)
    ensures Kept(m, WriteEvent(g, initiator, encoded, requested).memory, kept)
  {
    hide StoreBE, Swap32, PhysicalToGuest, WordAligned, Kept, WordOut;
    var stored := Swap32(if initiator / 0x8000_0000 % 2 == 1 then Wrap(g.frames) else requested, encoded);
    var destination := PhysicalToGuest(WordAligned(encoded));
    StoreKept(m, g.memory, kept, destination, stored);
    if WordAligned(encoded) / 0x1000 == 0x189F4 {
      StoreKept(m, StoreBE(g.memory, destination, stored), kept, destination + 0x1000, stored);
    }
  }

  // ---- Buffers ----

  ghost predicate CallKeeps(host: Host, m: Memory, address: int, count: int, depth: int, kept: Region)
    requires 0 <= depth <= MAX_DEPTH + 1
    decreases MAX_DEPTH + 1 - depth, 2, 0
  {
    depth > MAX_DEPTH || count > MAX_DWORDS || BufferKeeps(host, m, address, 0, count, depth, kept)
  }

  ghost predicate BufferType3Keeps(host: Host, m: Memory, header: int, address: int, offset: int, count: int,
                                   depth: int, kept: Region)
    requires 0 <= depth <= MAX_DEPTH
    decreases MAX_DEPTH + 1 - depth, 0, 0
  {
    if OpcodeOf(header) == 0x3F then
      LengthOf(header) >= 3 && offset + 2 < count ==>
        CallKeeps(host, m, PhysicalToGuest(BufferLoad(m, address, offset, 1)),
                  BufferLoad(m, address, offset, 2) % 0x10_0000, depth + 1, kept)
    else
      WritesOut(host, OpcodeOf(header), LengthOf(header), count - offset, BufferLoad(m, address, offset, 1),
                BufferLoad(m, address, offset, 2), kept)
  }

  /** The packets of the buffer are in the region, as those of the buffers it calls, and write outside it. */
  ghost predicate BufferKeeps(host: Host, m: Memory, address: int, offset: int, count: int, depth: int, kept: Region)
    requires 0 <= depth <= MAX_DEPTH
    decreases MAX_DEPTH + 1 - depth, 1, count - offset
  {
    offset >= count ||
    (var header := BufferLoad(m, address, offset, 0);
     var length := LengthOf(header);
     if header == 0 then
       DwordsIn(address, offset, offset + 1, kept) && BufferKeeps(host, m, address, offset + 1, count, depth, kept)
     else
       && DwordsIn(address, offset, offset + length, kept)
       && (TypeOf(header) == 3 ==> BufferType3Keeps(host, m, header, address, offset, count, depth, kept))
       && (length > count - offset || BufferKeeps(host, m, address, offset + length, count, depth, kept)))
  }

  lemma BufferSame(m: Memory, m': Memory, kept: Region, address: int, offset: int, n: int)
    requires Kept(m, m', kept) && DwordsIn(address, offset, offset + n, kept)
    ensures SameBuffer(m, m', address, offset, n)
  {
    hide LoadBE, Kept, WordIn;
    forall k | 0 <= k < n ensures BufferLoad(m, address, offset, k) == BufferLoad(m', address, offset, k) {
      assert WordIn(DwordAt(address, offset + k), kept);
      LoadKept(m, m', kept, Wrap(address + (offset + k) * 4));
    }
  }

  lemma {:induction false} BufferStoresKept(m: Memory, g: Gpu, kept: Region, destination: int, address: int,
                                            offset: int, k: int, n: int)
    requires g.Valid() && Kept(m, g.memory, kept) && StoresOut(destination, n, kept)
    ensures Kept(m, BufferStores(g, destination, address, offset, k, n).memory, kept)
    decreases n
  {
    hide WriteGpuMemory, BufferLoad, Kept, WriteOut;
    if n > 0 {
      var value := BufferLoad(g.memory, address, offset, k);
      WriteKept(m, g.memory, kept, destination, value);
      BufferStoresKept(m, g.(memory := WriteGpuMemory(g.memory, destination, value)), kept, Wrap(destination + 4),
                       address, offset, k + 1, n - 1);
    }
  }

  lemma BufferStateKept(host: Host, m: Memory, g: Gpu, kept: Region, opcode: int, length: int, address: int,
                        offset: int, count: int)
    requires g.Valid() && Kept(m, g.memory, kept) && length >= 2 && SameBuffer(m, g.memory, address, offset, length)
    requires WritesOut(host, opcode, length, count - offset, BufferLoad(m, address, offset, 1),
                       if length >= 3 then BufferLoad(m, address, offset, 2) else 0, kept)
    ensures Kept(m, BufferState(host, g, opcode, length, address, offset, count).memory, kept)
  {
    hide BufferLoad, Kept, StoresOut, EventOut, BufferStores, WriteEvent;
    hide BufferSetConstant, BufferLoadConstants, BufferModify, BufferImmediateShader, BufferPointerShader;
    hide BufferInterrupt, BufferSwap;
    if opcode == 0x3D && length >= 3 && offset + 2 < count {
      BufferStoresKept(m, g, kept, BufferLoad(m, address, offset, 1), address, offset, 2, length - 2);
    } else if (opcode == 0x58 || opcode == 0x59) && length >= 4 && offset + 3 < count {
      EventKept(m, g, kept, BufferLoad(g.memory, address, offset, 1), BufferLoad(g.memory, address, offset, 2),
                BufferLoad(g.memory, address, offset, 3));
    }
  }

  lemma BufferDrawsKept(host: Host, m: Memory, g: Gpu, kept: Region, length: int, address: int, offset: int, count: int)
    requires g.Valid() && Kept(m, g.memory, kept) && DrawKeeps(host, kept)
    ensures Kept(m, BufferDrawAuto(host, g, length, address, offset, count).memory, kept)
    ensures Kept(m, BufferDrawIndexed(host, g, length, address, offset, count).memory, kept)
  {
    hide BufferLoad, Kept, DrawKeeps, Poke, Draw;
    var (o1, o2) := (BufferLoad(g.memory, address, offset, 1), BufferLoad(g.memory, address, offset, 2));
    DrawKept(host, m, Poke(g, DRAW_INITIATOR, o1), kept);
    var u := Poke(g, DRAW_INITIATOR, o2);
    DrawKept(host, m, u, kept);
    DrawKept(host, m, Poke(Poke(u, DMA_BASE, BufferLoad(g.memory, address, offset, 3)), DMA_SIZE,
                           BufferLoad(g.memory, address, offset, 4)), kept);
  }

  lemma {:induction false} BufferIndirectKept(host: Host, m: Memory, g: Gpu, kept: Region, length: int, address: int,
                                              offset: int, count: int, depth: int)
    requires g.Valid() && Kept(m, g.memory, kept) && 0 <= depth <= MAX_DEPTH
    requires length >= 2 && SameBuffer(m, g.memory, address, offset, length)
    requires length >= 3 && offset + 2 < count ==>
      CallKeeps(host, m, PhysicalToGuest(BufferLoad(m, address, offset, 1)),
                BufferLoad(m, address, offset, 2) % 0x10_0000, depth + 1, kept)
    ensures Kept(m, BufferIndirect(host, g, length, address, offset, count, depth).memory, kept)
    decreases MAX_DEPTH + 1 - depth, 0, 0
  {
    hide BufferLoad, Kept, DrawKeeps, CallKeeps, ProcessBuffer, PhysicalToGuest;
    if length >= 3 && offset + 2 < count {
      ProcessKept(host, m, g, kept, PhysicalToGuest(BufferLoad(m, address, offset, 1)),
                  BufferLoad(m, address, offset, 2) % 0x10_0000, depth + 1);
    }
  }

  lemma {:induction false} BufferPacketKept(host: Host, m: Memory, g: Gpu, kept: Region, header: int, address: int,
                                            offset: int, count: int, depth: int)
    requires g.Valid() && Kept(m, g.memory, kept) && 0 <= depth <= MAX_DEPTH
    requires DwordsIn(address, offset, offset + LengthOf(header), kept)
    requires TypeOf(header) == 3 ==> BufferType3Keeps(host, m, header, address, offset, count, depth, kept)
    ensures Kept(m, BufferPacket(host, g, header, address, offset, count, depth).memory, kept)
    decreases MAX_DEPTH + 1 - depth, 0, 1
  {
    var (opcode, length) := (OpcodeOf(header), LengthOf(header));
    BufferSame(m, g.memory, kept, address, offset, length);
    assert TypeOf(header) == 3 ==> length >= 2;
    hide BufferLoad, Kept, DrawKeeps, CallKeeps, DwordsIn, OpcodeOf, LengthOf, TypeOf, Tally, WritesOut, SameBuffer;
    hide BufferIndirect, BufferDrawAuto, BufferDrawIndexed, BufferState, BufferWrites;
    if TypeOf(header) == 3 {
      var t := Tally(g, header);
      if opcode == 0x3F {
        BufferIndirectKept(host, m, t, kept, length, address, offset, count, depth);
      } else if opcode == 0x36 || opcode == 0x22 {
        BufferDrawsKept(host, m, t, kept, length, address, offset, count);
      } else {
        BufferStateKept(host, m, t, kept, opcode, length, address, offset, count);
      }
    }
  }

  lemma BufferKeepsFirst(host: Host, m: Memory, address: int, offset: int, count: int, depth: int, kept: Region)
    requires 0 <= depth <= MAX_DEPTH && offset < count && BufferKeeps(host, m, address, offset, count, depth, kept)
    ensures var header := BufferLoad(m, address, offset, 0);
      var length := LengthOf(header);
      if header == 0 then DwordsIn(address, offset, offset + 1, kept)
        && BufferKeeps(host, m, address, offset + 1, count, depth, kept)
      else
        && DwordsIn(address, offset, offset + length, kept)
        && (TypeOf(header) == 3 ==> BufferType3Keeps(host, m, header, address, offset, count, depth, kept))
        && (length > count - offset || BufferKeeps(host, m, address, offset + length, count, depth, kept))
  {
    hide BufferLoad, LengthOf, TypeOf, DwordsIn, BufferType3Keeps;
  }

  lemma BufferHeaderKept(m: Memory, m': Memory, kept: Region, address: int, offset: int, length: int)
    requires Kept(m, m', kept) && length >= 1
    requires DwordsIn(address, offset, offset + length, kept) || DwordsIn(address, offset, offset + 1, kept)
    ensures BufferLoad(m, address, offset, 0) == BufferLoad(m', address, offset, 0)
  {
    assert DwordsIn(address, offset, offset + 1, kept);
    BufferSame(m, m', kept, address, offset, 1);
    hide BufferLoad, Kept;
  }

  /** Decoding a buffer leaves the region as it was. */
  lemma {:induction false} BufferRunKept(host: Host, m: Memory, g: Gpu, kept: Region, address: int, offset: int,
                                         count: int, depth: int)
    requires g.Valid() && Kept(m, g.memory, kept) && 0 <= depth <= MAX_DEPTH
    requires BufferKeeps(host, m, address, offset, count, depth, kept)
    ensures Kept(m, BufferRun(host, g, address, offset, count, depth).memory, kept)
    decreases MAX_DEPTH + 1 - depth, 1, count - offset
  {
    hide *;
    if offset < count {
      var header := BufferLoad(m, address, offset, 0);
      var length := LengthOf(header);
      BufferKeepsFirst(host, m, address, offset, count, depth, kept);
      BufferHeaderKept(m, g.memory, kept, address, offset, length);
      BufferRunFirst(host, g, address, offset, count, depth);
      if header == 0 {
        BufferRunKept(host, m, g, kept, address, offset + 1, count, depth);
      } else {
        BufferPacketKept(host, m, g, kept, header, address, offset, count, depth);
        var t := BufferPacket(host, g, header, address, offset, count, depth);
        if length <= count - offset {
          ValidCounted(t);
          BufferRunKept(host, m, t.(packets := t.packets + 1), kept, address, offset + length, count, depth);
        }
      }
    } else {
      BufferRunDone(host, g, address, offset, count, depth);
    }
  }

  lemma ValidCounted(g: Gpu)
    requires g.Valid()
    ensures g.(packets := g.packets + 1).Valid()
  {
  }

  lemma {:induction false} ProcessKept(host: Host, m: Memory, g: Gpu, kept: Region, address: int, count: int,
                                       depth: int)
    requires g.Valid() && Kept(m, g.memory, kept) && 0 <= depth <= MAX_DEPTH + 1
    requires CallKeeps(host, m, address, count, depth, kept)
    ensures Kept(m, ProcessBuffer(host, g, address, count, depth).memory, kept)
    decreases MAX_DEPTH + 1 - depth, 2, 0
  {
    hide Kept, DrawKeeps, BufferRun, BufferKeeps;
    if depth <= MAX_DEPTH && count <= MAX_DWORDS { BufferRunKept(host, m, g, kept, address, 0, count, depth); }
  }

  // ---- The ring ----

  ghost predicate StreamIn(base: int, size: int, at: int, n: int, kept: Region)
    requires size > 0
  {
    forall k | 0 <= k < n :: WordIn(RingAddress(base, size, at, k), kept)
  }

  function RingAddress(base: int, size: int, at: int, k: int): int
    requires size > 0
  {
    DwordAt(base, Wrap(at + k) % size)
  }

  ghost predicate RingType3Keeps(host: Host, m: Memory, header: int, base: int, size: int, at: int, available: int,
                                 kept: Region)
    requires size > 0
  {
    if OpcodeOf(header) == 0x3F then
      LengthOf(header) >= 3 && 2 < available ==>
        CallKeeps(host, m, PhysicalToGuest(RingLoad(m, base, size, at, 1)), RingLoad(m, base, size, at, 2) % 0x10_0000,
                  1, kept)
    else
      WritesOut(host, OpcodeOf(header), LengthOf(header), available, RingLoad(m, base, size, at, 1),
                RingLoad(m, base, size, at, 2), kept)
  }

  /** The next packets are complete and in the region, as those of the buffers they call, and write outside it. */
  ghost predicate RingKeeps(host: Host, m: Memory, base: int, size: int, at: int, available: int, kept: Region)
    requires size > 0
    decreases available
  {
    available == 0 ||
    (var header := RingLoad(m, base, size, at, 0);
     var length := LengthOf(header);
     && length <= available
     && StreamIn(base, size, at, length, kept)
     && (TypeOf(header) == 3 ==> RingType3Keeps(host, m, header, base, size, at, available, kept))
     && RingKeeps(host, m, base, size, Turn(at, length, size), available - length, kept))
  }

  /** The dwords of one packet read alike. */
  ghost predicate SameStream(m: Memory, m': Memory, base: int, size: int, at: int, n: int)
    requires size > 0
  {
    forall k | 0 <= k < n :: RingLoad(m, base, size, at, k) == RingLoad(m', base, size, at, k)
  }

  lemma StreamSame(m: Memory, m': Memory, kept: Region, base: int, size: int, at: int, n: int)
    requires size > 0 && Kept(m, m', kept) && StreamIn(base, size, at, n, kept)
    ensures SameStream(m, m', base, size, at, n)
  {
    hide LoadBE, Kept, WordIn;
    forall k | 0 <= k < n ensures RingLoad(m, base, size, at, k) == RingLoad(m', base, size, at, k) {
      assert WordIn(RingAddress(base, size, at, k), kept);
      LoadKept(m, m', kept, Wrap(base + Wrap(at + k) % size * 4));
    }
  }

  lemma {:induction false} RingStoresKept(m: Memory, g: Gpu, kept: Region, destination: int, base: int, size: int,
                                          at: int, k: int, n: int)
    requires g.Valid() && size > 0 && Kept(m, g.memory, kept) && StoresOut(destination, n, kept)
    ensures Kept(m, RingStores(g, destination, base, size, at, k, n).memory, kept)
    decreases n
  {
    hide WriteGpuMemory, RingLoad, Kept, WriteOut;
    if n > 0 {
      var value := RingLoad(g.memory, base, size, at, k);
      WriteKept(m, g.memory, kept, destination, value);
      RingStoresKept(m, g.(memory := WriteGpuMemory(g.memory, destination, value)), kept, Wrap(destination + 4), base,
                     size, at, k + 1, n - 1);
    }
  }

  lemma RingStateKept(host: Host, m: Memory, g: Gpu, kept: Region, opcode: int, length: int, base: int, size: int,
                      at: int, available: int)
    requires g.Valid() && size > 0 && Kept(m, g.memory, kept) && length >= 2
      && SameStream(m, g.memory, base, size, at, length)
    requires WritesOut(host, opcode, length, available, RingLoad(m, base, size, at, 1), RingLoad(m, base, size, at, 2),
                       kept)
    ensures Kept(m, RingState(host, g, opcode, length, base, size, at, available).memory, kept)
  {
    hide RingLoad, Kept, StoresOut, EventOut, RingStores, WriteEvent;
    hide RingSetConstant, RingLoadConstants, RingModify, RingPointerShader, RingInterrupt, RingSwap;
    if opcode == 0x3D && length >= 3 && 2 < available {
      RingStoresKept(m, g, kept, RingLoad(m, base, size, at, 1), base, size, at, 2, length - 2);
    } else if (opcode == 0x58 || opcode == 0x59) && length >= 4 && 3 < available {
      EventKept(m, g, kept, RingLoad(g.memory, base, size, at, 1), RingLoad(g.memory, base, size, at, 2),
                RingLoad(g.memory, base, size, at, 3));
    }
  }

  lemma RingDrawsKept(host: Host, m: Memory, g: Gpu, kept: Region, length: int, base: int, size: int, at: int,
                      available: int)
    requires g.Valid() && size > 0 && Kept(m, g.memory, kept) && DrawKeeps(host, kept)
    ensures Kept(m, RingDrawAuto(host, g, length, base, size, at, available).memory, kept)
    ensures Kept(m, RingDrawIndexed(host, g, length, base, size, at, available).memory, kept)
  {
    hide RingLoad, Kept, DrawKeeps, Poke, Draw;
    var (o1, o2) := (RingLoad(g.memory, base, size, at, 1), RingLoad(g.memory, base, size, at, 2));
    DrawKept(host, m, Poke(g, DRAW_INITIATOR, o1), kept);
    var u := Poke(g, DRAW_INITIATOR, o2);
    DrawKept(host, m, u, kept);
    DrawKept(host, m, Poke(Poke(u, DMA_BASE, RingLoad(g.memory, base, size, at, 3)), DMA_SIZE,
                           RingLoad(g.memory, base, size, at, 4)), kept);
  }

  lemma RingIndirectKept(host: Host, m: Memory, g: Gpu, kept: Region, length: int, base: int, size: int, at: int,
                         available: int)
    requires g.Valid() && size > 0 && Kept(m, g.memory, kept)
    requires length >= 2 && SameStream(m, g.memory, base, size, at, length)
    requires length >= 3 && 2 < available ==>
      CallKeeps(host, m, PhysicalToGuest(RingLoad(m, base, size, at, 1)), RingLoad(m, base, size, at, 2) % 0x10_0000, 1,
                kept)
    ensures Kept(m, RingIndirect(host, g, length, base, size, at, available).memory, kept)
  {
    hide RingLoad, Kept, DrawKeeps, CallKeeps, ProcessBuffer, PhysicalToGuest;
    if length >= 3 && 2 < available {
      ProcessKept(host, m, g, kept, PhysicalToGuest(RingLoad(m, base, size, at, 1)),
                  RingLoad(m, base, size, at, 2) % 0x10_0000, 1);
    }
  }

  lemma RingPacketKept(host: Host, m: Memory, g: Gpu, kept: Region, header: int, base: int, size: int, at: int,
                       available: int)
    requires g.Valid() && size > 0 && Kept(m, g.memory, kept)
    requires StreamIn(base, size, at, LengthOf(header), kept)
    requires TypeOf(header) == 3 ==> RingType3Keeps(host, m, header, base, size, at, available, kept)
    ensures Kept(m, RingPacket(host, g, header, base, size, at, available).memory, kept)
  {
    var (opcode, length) := (OpcodeOf(header), LengthOf(header));
    StreamSame(m, g.memory, kept, base, size, at, length);
    assert TypeOf(header) == 3 ==> length >= 2;
    hide RingLoad, Kept, DrawKeeps, CallKeeps, StreamIn, OpcodeOf, LengthOf, TypeOf, Tally, WritesOut, SameStream;
    hide RingIndirect, RingDrawAuto, RingDrawIndexed, RingState, RingWrites;
    if TypeOf(header) == 3 {
      var t := Tally(g, header);
      if opcode == 0x3F {
        RingIndirectKept(host, m, t, kept, length, base, size, at, available);
      } else if opcode == 0x36 || opcode == 0x22 {
        RingDrawsKept(host, m, t, kept, length, base, size, at, available);
      } else {
        RingStateKept(host, m, t, kept, opcode, length, base, size, at, available);
      }
    }
  }

  lemma RingKeepsFirst(host: Host, m: Memory, base: int, size: int, at: int, available: int, kept: Region)
    requires size > 0 && available != 0 && RingKeeps(host, m, base, size, at, available, kept)
    ensures var header := RingLoad(m, base, size, at, 0);
      var length := LengthOf(header);
      && length <= available
      && StreamIn(base, size, at, length, kept)
      && (TypeOf(header) == 3 ==> RingType3Keeps(host, m, header, base, size, at, available, kept))
      && RingKeeps(host, m, base, size, Turn(at, length, size), available - length, kept)
  {
    hide RingLoad, LengthOf, TypeOf, StreamIn, RingType3Keeps;
  }

  lemma RingHeaderKept(m: Memory, m': Memory, kept: Region, base: int, size: int, at: int, n: int)
    requires size > 0 && n >= 1 && Kept(m, m', kept) && StreamIn(base, size, at, n, kept)
    ensures RingLoad(m, base, size, at, 0) == RingLoad(m', base, size, at, 0)
  {
    StreamSame(m, m', kept, base, size, at, n);
    hide RingLoad, Kept, StreamIn;
  }

  lemma StepKept(host: Host, m: Memory, g: Gpu, kept: Region, base: int, size: int, at: int, available: int)
    requires g.Valid() && size > 0 && available != 0 && Kept(m, g.memory, kept)
    requires RingKeeps(host, m, base, size, at, available, kept)
    ensures RingLoad(g.memory, base, size, at, 0) == RingLoad(m, base, size, at, 0)
    ensures Kept(m, Step(host, g, base, size, at, available).memory, kept)
  {
    var header := RingLoad(m, base, size, at, 0);
    hide Kept, DrawKeeps, RingKeeps, RingType3Keeps, StreamIn, RingPacket, RingLoad, LengthOf, TypeOf;
    RingKeepsFirst(host, m, base, size, at, available, kept);
    RingHeaderKept(m, g.memory, kept, base, size, at, LengthOf(header));
    RingPacketKept(host, m, g, kept, header, base, size, at, available);
  }

  /** Such a stream is complete when its turn comes, and leaves the region as it was. */
  lemma {:induction false} RingRunKept(host: Host, m: Memory, g: Gpu, kept: Region, base: int, size: int, at: int,
                                       target: int, available: int)
    requires g.Valid() && size > 0 && Kept(m, g.memory, kept)
    requires 0 <= available && RingKeeps(host, m, base, size, at, available, kept)
    ensures Complete(host, g, base, size, at, available)
    ensures Kept(m, RingRun(host, g, base, size, at, target, available).gpu.memory, kept)
    decreases available
  {
    hide Kept, DrawKeeps, RingKeeps, Step, RingLoad, LengthOf, RingRun;
    if available > 0 {
      var length := LengthOf(RingLoad(m, base, size, at, 0));
      RingKeepsFirst(host, m, base, size, at, available, kept);
      StepKept(host, m, g, kept, base, size, at, available);
      RingRunKept(host, m, Step(host, g, base, size, at, available), kept, base, size, Turn(at, length, size), target,
                  available - length);
      if at != target { RingRunFirst(host, g, base, size, at, target, available); }
    }
    if at == target || available <= 0 { RingRunDone(host, g, base, size, at, target, available); }
  }

  // ---- A buffer with the same packets ----

  /** No packet has a zero header or carries a shader. */
  predicate PlainStream(m: Memory, base: int, size: int, at: int, available: int)
    requires size > 0
    decreases available
  {
    available <= 0 ||
    (var header := RingLoad(m, base, size, at, 0);
     header != 0 && !(TypeOf(header) == 3 && OpcodeOf(header) == 0x2B) &&
     PlainStream(m, base, size, Turn(at, LengthOf(header), size), available - LengthOf(header)))
  }

  /** Operands that agree at the start still agree when the stores of the same packet reach them. */
  lemma {:induction false} StoresStay(m: Memory, g: Gpu, kept: Region, destination: int, base: int, size: int, at: int,
                                      address: int, offset: int,
                                      k: int, n: int)
    requires size > 0 && 0 <= k && Kept(m, g.memory, kept) && StoresOut(destination, n, kept)
    requires StreamIn(base, size, at, k + n, kept) && DwordsIn(address, offset, offset + k + n, kept)
    requires Agree(m, base, size, at, address, offset, k + n)
    ensures StoresAgree(g, destination, base, size, at, address, offset, k, n)
    decreases n
  {
    StreamSame(m, g.memory, kept, base, size, at, k + n);
    BufferSame(m, g.memory, kept, address, offset, k + n);
    hide RingLoad, BufferLoad, WriteGpuMemory, Kept, StreamIn, DwordsIn, WriteOut;
    if n > 0 {
      var value := BufferLoad(g.memory, address, offset, k);
      WriteKept(m, g.memory, kept, destination, value);
      StoresStay(m, g.(memory := WriteGpuMemory(g.memory, destination, value)), kept, Wrap(destination + 4), base, size,
                 at, address, offset, k + 1, n - 1);
    }
  }

  lemma AgreeKept(m: Memory, m': Memory, kept: Region, base: int, size: int, at: int, address: int, offset: int, n: int)
    requires size > 0 && Kept(m, m', kept) && Agree(m, base, size, at, address, offset, n)
    requires StreamIn(base, size, at, n, kept) && DwordsIn(address, offset, offset + n, kept)
    ensures Agree(m', base, size, at, address, offset, n)
  {
    StreamSame(m, m', kept, base, size, at, n);
    BufferSame(m, m', kept, address, offset, n);
    hide RingLoad, BufferLoad, Kept, StreamIn, DwordsIn;
  }

  lemma PacketStays(host: Host, m: Memory, g: Gpu, kept: Region, header: int, base: int, size: int, at: int,
                    available: int, address: int, offset: int)
    requires g.Valid() && size > 0 && Kept(m, g.memory, kept) && LengthOf(header) <= available
    requires StreamIn(base, size, at, LengthOf(header), kept)
      && DwordsIn(address, offset, offset + LengthOf(header), kept)
    requires Agree(m, base, size, at, address, offset, LengthOf(header))
    requires !(TypeOf(header) == 3 && OpcodeOf(header) == 0x2B)
    requires TypeOf(header) == 3 ==> RingType3Keeps(host, m, header, base, size, at, available, kept)
    ensures SamePacket(g, header, base, size, at, address, offset)
  {
    var length := LengthOf(header);
    AgreeKept(m, g.memory, kept, base, size, at, address, offset, length);
    if TypeOf(header) == 3 && OpcodeOf(header) == 0x3D {
      var t := Tally(g, header);
      BufferSame(m, g.memory, kept, address, offset, length);
      assert length >= 2;
      assert BufferLoad(g.memory, address, offset, 1) == RingLoad(m, base, size, at, 1);
      hide RingLoad, BufferLoad, Kept, StreamIn, DwordsIn, Agree, StoresOut, SameBuffer, OpcodeOf, LengthOf, TypeOf;
      hide Tally;
      if length >= 3 { StoresStay(m, t, kept, RingLoad(m, base, size, at, 1), base, size, at, address, offset, 2,
                                  length - 2); }
    }
    hide RingLoad, BufferLoad, Kept, StreamIn, DwordsIn, Agree, StoresOut, OpcodeOf, LengthOf, TypeOf, Tally;
  }

  lemma DwordsInside(base: int, from: int, some: int, more: int, kept: Region)
    requires some <= more && DwordsIn(base, from, more, kept)
    ensures DwordsIn(base, from, some, kept)
  {
  }

  /**
   Packets that write outside the region are read alike by both decoders when their turn comes, if
   the ring and the buffer in the region hold the same dwords at the start.
   */
  lemma {:induction false} KeptTwins(host: Host, m: Memory, g: Gpu, kept: Region, base: int, size: int, at: int,
                                     available: int,
                                     address: int, offset: int)
    requires g.Valid() && 0 < size <= 0x4000_0000 && 0 <= at < size && 0 <= available < size
    requires Kept(m, g.memory, kept)
    requires RingKeeps(host, m, base, size, at, available, kept) && PlainStream(m, base, size, at, available)
    requires DwordsIn(address, offset, offset + available, kept) && Agree(m, base, size, at, address, offset, available)
    ensures Complete(host, g, base, size, at, available)
    ensures Twins(host, g, base, size, at, available, address, offset)
    decreases available
  {
    hide Kept, DrawKeeps, RingKeeps, RingType3Keeps, StreamIn, DwordsIn, Agree, SamePacket, Step, RingLoad, LengthOf;
    hide OpcodeOf, TypeOf;
    if available > 0 {
      var header := RingLoad(m, base, size, at, 0);
      var length := LengthOf(header);
      RingKeepsFirst(host, m, base, size, at, available, kept);
      StepKept(host, m, g, kept, base, size, at, available);
      AgreeShorter(m, base, size, at, address, offset, length, available);
      DwordsInside(address, offset, offset + length, offset + available, kept);
      PacketStays(host, m, g, kept, header, base, size, at, available, address, offset);
      AgreeAdvances(m, base, size, at, length, available, address, offset);
      DwordsAfter(address, offset, offset + length, offset + available, kept);
      KeptTwins(host, m, Step(host, g, base, size, at, available), kept, base, size, Turn(at, length, size),
                available - length,
                address, offset + length);
    }
  }

  lemma DwordsAfter(base: int, from: int, later: int, end: int, kept: Region)
    requires from <= later && DwordsIn(base, from, end, kept)
    ensures DwordsIn(base, later, end, kept)
  {
  }

  // ---- A region that no packet reads ----

  /** The rasteriser never looks at the region. */
  ghost predicate AllDrawsBlind(host: Host, unread: Region) {
    forall g: Gpu | g.Valid() :: DrawBlind(host, g, unread)
  }

  ghost predicate CallBlind(host: Host, m: Memory, address: int, count: int, depth: int, unread: Region)
    requires 0 <= depth <= MAX_DEPTH + 1
    decreases MAX_DEPTH + 1 - depth, 2, 0
  {
    depth > MAX_DEPTH || count > MAX_DWORDS || BufferBlind(host, m, address, 0, count, depth, unread)
  }

  ghost predicate BufferType3Blind(host: Host, m: Memory, header: int, address: int, offset: int, count: int,
                                   depth: int, unread: Region)
    requires 0 <= depth <= MAX_DEPTH
    decreases MAX_DEPTH + 1 - depth, 0, 0
  {
    if OpcodeOf(header) == 0x3F then
      LengthOf(header) >= 3 && offset + 2 < count ==>
        CallBlind(host, m, PhysicalToGuest(BufferLoad(m, address, offset, 1)),
                  BufferLoad(m, address, offset, 2) % 0x10_0000, depth + 1, unread)
    else
      && ReadsBlind(OpcodeOf(header), LengthOf(header), count - offset, BufferLoad(m, address, offset, 1),
                    BufferLoad(m, address, offset, 2),
                    BufferLoad(m, address, offset, 3), unread)
      && (OpcodeOf(header) == 0x36 || OpcodeOf(header) == 0x22 ==> AllDrawsBlind(host, unread))
      && (OpcodeOf(header) == 0x2B ==> LengthOf(header) >= 3 ==>
          OwnShaderApart(m, LengthOf(header), address, offset, unread))
  }

  /** Neither the packets of the buffer nor those of the buffers it calls hold or read the region. */
  ghost predicate BufferBlind(host: Host, m: Memory, address: int, offset: int, count: int, depth: int, unread: Region)
    requires 0 <= depth <= MAX_DEPTH
    decreases MAX_DEPTH + 1 - depth, 1, count - offset
  {
    offset >= count ||
    (var header := BufferLoad(m, address, offset, 0);
     var length := LengthOf(header);
     if header == 0 then
       DwordsApart(address, offset, offset + 1, unread) && BufferBlind(host, m, address, offset + 1, count, depth,
                                                                       unread)
     else
       && DwordsApart(address, offset, offset + length, unread)
       && (TypeOf(header) == 3 ==> BufferType3Blind(host, m, header, address, offset, count, depth, unread))
       && (length > count - offset || BufferBlind(host, m, address, offset + length, count, depth, unread)))
  }

  lemma BufferStateUnseen(host: Host, m: Memory, g: Gpu, unread: Region, opcode: int, length: int, address: int,
                          offset: int,
                          count: int)
    requires g.Valid() && length >= 2 && SameBuffer(m, g.memory, address, offset, length)
    requires opcode == 0x36 || opcode == 0x22 ==> AllDrawsBlind(host, unread)
    requires ReadsBlind(opcode, length, count - offset, BufferLoad(m, address, offset, 1),
                        BufferLoad(m, address, offset, 2), BufferLoad(m, address, offset, 3), unread)
    requires opcode == 0x2B ==> length >= 3 ==> OwnShaderApart(m, length, address, offset, unread)
    ensures BufferStateApart(host, g, opcode, length, address, offset, count, unread)
  {
    hide BufferLoad, ConstantsApart, PointerApart, CodeApart, DrawBlind, Poke, Indexed;
  }

  lemma {:induction false} BufferType3IsUnseen(host: Host, m: Memory, g: Gpu, kept: Region, unread: Region, header: int,
                                               address: int, offset: int,
                                               count: int, depth: int)
    requires g.Valid() && Kept(m, g.memory, kept) && 0 <= depth <= MAX_DEPTH
    requires TypeOf(header) == 3 && DwordsIn(address, offset, offset + LengthOf(header), kept)
    requires BufferType3Keeps(host, m, header, address, offset, count, depth, kept)
      && BufferType3Blind(host, m, header, address, offset, count, depth, unread)
    ensures BufferType3Unseen(host, g, header, address, offset, count, depth, unread)
    decreases MAX_DEPTH + 1 - depth, 0, 0
  {
    var (opcode, length) := (OpcodeOf(header), LengthOf(header));
    assert length >= 2;
    BufferSame(m, g.memory, kept, address, offset, length);
    hide BufferLoad, Kept, DrawKeeps, AllDrawsBlind, DwordsIn, OpcodeOf, LengthOf, TypeOf, WritesOut, ReadsBlind;
    hide OwnShaderApart, PhysicalToGuest;
    hide CallKeeps, CallBlind, CallUnseen, BufferStateApart;
    if opcode == 0x3F {
      if length >= 3 && offset + 2 < count {
        CallIsUnseen(host, m, g, kept, unread, PhysicalToGuest(BufferLoad(m, address, offset, 1)),
                     BufferLoad(m, address, offset, 2) % 0x10_0000, depth + 1);
      }
    } else {
      BufferStateUnseen(host, m, g, unread, opcode, length, address, offset, count);
    }
  }

  lemma BufferBlindFirst(host: Host, m: Memory, address: int, offset: int, count: int, depth: int, unread: Region)
    requires 0 <= depth <= MAX_DEPTH && offset < count && BufferBlind(host, m, address, offset, count, depth, unread)
    ensures var header := BufferLoad(m, address, offset, 0);
      var length := LengthOf(header);
      if header == 0 then DwordsApart(address, offset, offset + 1, unread)
        && BufferBlind(host, m, address, offset + 1, count, depth, unread)
      else
        && DwordsApart(address, offset, offset + length, unread)
        && (TypeOf(header) == 3 ==> BufferType3Blind(host, m, header, address, offset, count, depth, unread))
        && (length > count - offset || BufferBlind(host, m, address, offset + length, count, depth, unread))
  {
    hide BufferLoad, LengthOf, TypeOf, DwordsApart, BufferType3Blind;
  }

  lemma TallyKept(m: Memory, g: Gpu, kept: Region, header: int)
    requires g.Valid() && Kept(m, g.memory, kept)
    ensures Kept(m, Tally(g, header).memory, kept)
  {
    hide Kept;
  }

  lemma {:induction false} BufferIsUnseen(host: Host, m: Memory, g: Gpu, kept: Region, unread: Region, address: int,
                                          offset: int, count: int, depth: int)
    requires g.Valid() && Kept(m, g.memory, kept) && 0 <= depth <= MAX_DEPTH
    requires BufferKeeps(host, m, address, offset, count, depth, kept)
      && BufferBlind(host, m, address, offset, count, depth, unread)
    ensures BufferUnseen(host, g, address, offset, count, depth, unread)
    decreases MAX_DEPTH + 1 - depth, 1, count - offset
  {
    hide Kept, DrawKeeps, AllDrawsBlind, BufferKeeps, BufferBlind, DwordsIn, DwordsApart, BufferLoad, BufferPacket;
    hide Tally, LengthOf, TypeOf;
    hide BufferType3Unseen, BufferType3Keeps, BufferType3Blind;
    if offset < count {
      var header := BufferLoad(m, address, offset, 0);
      var length := LengthOf(header);
      BufferKeepsFirst(host, m, address, offset, count, depth, kept);
      BufferBlindFirst(host, m, address, offset, count, depth, unread);
      BufferHeaderKept(m, g.memory, kept, address, offset, length);
      if header == 0 {
        BufferIsUnseen(host, m, g, kept, unread, address, offset + 1, count, depth);
      } else {
        if TypeOf(header) == 3 {
          TallyKept(m, g, kept, header);
          BufferType3IsUnseen(host, m, Tally(g, header), kept, unread, header, address, offset, count, depth);
        }
        BufferPacketKept(host, m, g, kept, header, address, offset, count, depth);
        if length <= count - offset {
          var t := BufferPacket(host, g, header, address, offset, count, depth);
          BufferIsUnseen(host, m, t.(packets := t.packets + 1), kept, unread, address, offset + length, count, depth);
        }
      }
    }
  }

  lemma {:induction false} CallIsUnseen(host: Host, m: Memory, g: Gpu, kept: Region, unread: Region, address: int,
                                        count: int,
                                        depth: int)
    requires g.Valid() && Kept(m, g.memory, kept) && 0 <= depth <= MAX_DEPTH + 1
    requires CallKeeps(host, m, address, count, depth, kept) && CallBlind(host, m, address, count, depth, unread)
    ensures CallUnseen(host, g, address, count, depth, unread)
    decreases MAX_DEPTH + 1 - depth, 2, 0
  {
    hide Kept, DrawKeeps, AllDrawsBlind, BufferKeeps, BufferBlind, BufferUnseen;
    if depth <= MAX_DEPTH && count <= MAX_DWORDS { BufferIsUnseen(host, m, g, kept, unread, address, 0, count, depth); }
  }

  ghost predicate RingType3Blind(host: Host, m: Memory, header: int, base: int, size: int, at: int, available: int,
                                 unread: Region)
    requires size > 0
  {
    if OpcodeOf(header) == 0x3F then
      LengthOf(header) >= 3 && 2 < available ==>
        CallBlind(host, m, PhysicalToGuest(RingLoad(m, base, size, at, 1)), RingLoad(m, base, size, at, 2) % 0x10_0000,
                  1, unread)
    else
      && ReadsBlind(OpcodeOf(header), LengthOf(header), available, RingLoad(m, base, size, at, 1),
                    RingLoad(m, base, size, at, 2),
                    RingLoad(m, base, size, at, 3), unread)
      && (OpcodeOf(header) == 0x36 || OpcodeOf(header) == 0x22 ==> AllDrawsBlind(host, unread))
  }

  /** Neither the next packets nor those of the buffers they call read the region. */
  ghost predicate RingBlind(host: Host, m: Memory, base: int, size: int, at: int, available: int, unread: Region)
    requires size > 0
    decreases available
  {
    available <= 0 ||
    (var header := RingLoad(m, base, size, at, 0);
     && (TypeOf(header) == 3 ==> RingType3Blind(host, m, header, base, size, at, available, unread))
     && RingBlind(host, m, base, size, Turn(at, LengthOf(header), size), available - LengthOf(header), unread))
  }

  lemma RingReadsUnseen(host: Host, m: Memory, g: Gpu, unread: Region, opcode: int, length: int, base: int, size: int,
                        at: int,
                        available: int)
    requires g.Valid() && size > 0 && length >= 2 && SameStream(m, g.memory, base, size, at, length)
    requires opcode == 0x36 || opcode == 0x22 ==> AllDrawsBlind(host, unread)
    requires ReadsBlind(opcode, length, available, RingLoad(m, base, size, at, 1), RingLoad(m, base, size, at, 2),
                        RingLoad(m, base, size, at, 3), unread)
    ensures RingReadsApart(host, g, opcode, length, base, size, at, available, unread)
  {
    hide RingLoad, ConstantsApart, PointerApart, DrawBlind, Poke, Indexed;
  }

  lemma RingPacketIsUnseen(host: Host, m: Memory, g: Gpu, kept: Region, unread: Region, header: int, base: int,
                           size: int,
                           at: int, available: int)
    requires g.Valid() && size > 0 && Kept(m, g.memory, kept)
    requires StreamIn(base, size, at, LengthOf(header), kept)
    requires TypeOf(header) == 3 ==>
      RingType3Keeps(host, m, header, base, size, at, available, kept)
        && RingType3Blind(host, m, header, base, size, at, available, unread)
    ensures RingPacketUnseen(host, g, header, base, size, at, available, unread)
  {
    var (opcode, length) := (OpcodeOf(header), LengthOf(header));
    assert TypeOf(header) == 3 ==> length >= 2;
    StreamSame(m, g.memory, kept, base, size, at, length);
    hide RingLoad, Kept, DrawKeeps, AllDrawsBlind, StreamIn, OpcodeOf, LengthOf, TypeOf, WritesOut, ReadsBlind;
    hide PhysicalToGuest, Tally;
    hide CallKeeps, CallBlind, CallUnseen, RingReadsApart;
    if TypeOf(header) == 3 {
      var t := Tally(g, header);
      if opcode == 0x3F {
        if length >= 3 && 2 < available {
          CallIsUnseen(host, m, t, kept, unread, PhysicalToGuest(RingLoad(m, base, size, at, 1)),
                       RingLoad(m, base, size, at, 2) % 0x10_0000, 1);
        }
      } else {
        RingReadsUnseen(host, m, t, unread, opcode, length, base, size, at, available);
      }
    }
  }

  lemma RingBlindFirst(host: Host, m: Memory, base: int, size: int, at: int, available: int, unread: Region)
    requires size > 0 && available > 0 && RingBlind(host, m, base, size, at, available, unread)
    ensures var header := RingLoad(m, base, size, at, 0);
      && (TypeOf(header) == 3 ==> RingType3Blind(host, m, header, base, size, at, available, unread))
      && RingBlind(host, m, base, size, Turn(at, LengthOf(header), size), available - LengthOf(header), unread)
  {
    hide RingLoad, LengthOf, TypeOf, RingType3Blind;
  }

  /** What the memory says at the start is what the packets do not see when their turn comes. */
  lemma {:induction false} RingIsUnseen(host: Host, m: Memory, g: Gpu, kept: Region, unread: Region, base: int,
                                        size: int,
                                        at: int, target: int, available: int)
    requires g.Valid() && size > 0 && 0 <= available && Kept(m, g.memory, kept)
    requires RingKeeps(host, m, base, size, at, available, kept)
      && RingBlind(host, m, base, size, at, available, unread)
    ensures RingUnseen(host, g, base, size, at, target, available, unread)
    decreases available
  {
    hide Kept, DrawKeeps, AllDrawsBlind, RingKeeps, RingBlind, StreamIn, RingType3Keeps, RingType3Blind;
    hide RingPacketUnseen, Step;
    hide RingLoad, LengthOf, TypeOf;
    if available > 0 {
      var header := RingLoad(m, base, size, at, 0);
      RingKeepsFirst(host, m, base, size, at, available, kept);
      RingBlindFirst(host, m, base, size, at, available, unread);
      StepKept(host, m, g, kept, base, size, at, available);
      RingPacketIsUnseen(host, m, g, kept, unread, header, base, size, at, available);
      RingIsUnseen(host, m, Step(host, g, base, size, at, available), kept, unread, base, size,
                   Turn(at, LengthOf(header), size), target,
                   available - LengthOf(header));
    }
  }

  // ---- Cutting such a stream ----

  /** A packet ends `n` dwords on. */
  ghost predicate PacketEnd(m: Memory, base: int, size: int, at: int, n: int)
    requires size > 0
    decreases n
  {
    n == 0 ||
    (var length := LengthOf(RingLoad(m, base, size, at, 0));
     length <= n && PacketEnd(m, base, size, Turn(at, length, size), n - length))
  }

  lemma OnwardAdds(at: int, length: int, n: int, size: int)
    requires size > 0 && 0 < length <= n
    ensures Onward(Turn(at, length, size), n - length, size) == Onward(at, n, size)
  {
    ModAdds(at + length, n - length, size);
  }

  lemma Type3KeepsIgnoreRest(host: Host, m: Memory, header: int, base: int, size: int, at: int, some: int, more: int,
                             kept: Region)
    requires size > 0 && LengthOf(header) <= some <= more
    ensures RingType3Keeps(host, m, header, base, size, at, some, kept) <==> RingType3Keeps(host, m, header, base, size,
        at, more, kept)
  {
    hide RingLoad, CallKeeps, StoresOut, EventOut, OpcodeOf, LengthOf;
  }

  lemma {:induction false} KeepsSplits(host: Host, m: Memory, kept: Region, base: int, size: int, at: int, n: int,
                                       more: int)
    requires size > 0 && 0 <= n <= more && RingKeeps(host, m, base, size, at, more, kept)
      && PacketEnd(m, base, size, at, n)
    ensures RingKeeps(host, m, base, size, at, n, kept) && RingKeeps(host, m, base, size, Onward(at, n, size), more - n,
                                                                     kept)
    decreases n
  {
    hide RingLoad, LengthOf, TypeOf, StreamIn, RingType3Keeps, Onward;
    if n > 0 {
      var header := RingLoad(m, base, size, at, 0);
      var length := LengthOf(header);
      RingKeepsFirst(host, m, base, size, at, more, kept);
      Type3KeepsIgnoreRest(host, m, header, base, size, at, n, more, kept);
      KeepsSplits(host, m, kept, base, size, Turn(at, length, size), n - length, more - length);
      OnwardAdds(at, length, n, size);
    } else {
      OnwardNone(at, size);
    }
  }

  lemma OnwardNone(at: int, size: int)
    requires size > 0
    ensures Onward(at, 0, size) == at
  {
  }

  lemma {:induction false} BlindSplits(host: Host, m: Memory, unread: Region, base: int, size: int, at: int, n: int,
                                       more: int)
    requires size > 0 && 0 <= n <= more && RingBlind(host, m, base, size, at, more, unread)
      && PacketEnd(m, base, size, at, n)
    ensures RingBlind(host, m, base, size, Onward(at, n, size), more - n, unread)
    decreases n
  {
    hide RingLoad, LengthOf, TypeOf, RingType3Blind, Onward;
    if n > 0 {
      var length := LengthOf(RingLoad(m, base, size, at, 0));
      RingBlindFirst(host, m, base, size, at, more, unread);
      BlindSplits(host, m, unread, base, size, Turn(at, length, size), n - length, more - length);
      OnwardAdds(at, length, n, size);
    } else {
      OnwardNone(at, size);
    }
  }
}
