/** The two PM4 decoders agree, and how a stream is cut into doorbells does not matter. */
module RingStream {
  import opened Words
  import opened Arithmetic
  import opened GuestMemory
  import opened FetchBanks
  import opened Pm4

  // ---- One packet ----

  /** The next `n` dwords of the ring and of the buffer are the same. */
  ghost predicate Agree(m: Memory, base: int, size: int, at: int, address: int, offset: int, n: int)
    requires size > 0
  {
    forall k :: 0 <= k < n ==> RingLoad(m, base, size, at, k) == BufferLoad(m, address, offset, k)
  }

  /** Operands k, k + 1, .. still agree when the stores of the same packet reach them. */
  ghost predicate StoresAgree(g: Gpu, destination: int, base: int, size: int, at: int, address: int, offset: int,
                              k: int, n: int)
    requires size > 0
    decreases n
  {
    n > 0 ==>
      && RingLoad(g.memory, base, size, at, k) == BufferLoad(g.memory, address, offset, k)
      && StoresAgree(g.(memory := WriteGpuMemory(g.memory, destination, BufferLoad(g.memory, address, offset, k))),
                     Wrap(destination + 4), base, size, at, address, offset, k + 1, n - 1)
  }

  lemma {:induction false} WritesAgree(g: Gpu, index: int, step: int, base: int, size: int, at: int,
                                       address: int, offset: int, k: int, n: int)
    requires g.Valid() && 0 <= index && 0 <= step && size > 0 && 0 <= k
    requires Agree(g.memory, base, size, at, address, offset, k + n)
    ensures RingWrites(g, index, step, base, size, at, k, n) == BufferWrites(g, index, step, address, offset, k, n)
    decreases n
  {
    hide SetRegister, RingLoad, BufferLoad;
    if n > 0 {
      var t := SetRegister(g, index, RingLoad(g.memory, base, size, at, k));
      WritesAgree(t, index + step, step, base, size, at, address, offset, k + 1, n - 1);
    }
  }

  lemma {:induction false} StoreLoopsAgree(g: Gpu, destination: int, base: int, size: int, at: int,
                                           address: int, offset: int, k: int, n: int)
    requires g.Valid() && size > 0
    requires StoresAgree(g, destination, base, size, at, address, offset, k, n)
    ensures RingStores(g, destination, base, size, at, k, n) == BufferStores(g, destination, address, offset, k, n)
    decreases n
  {
    hide WriteGpuMemory, RingLoad, BufferLoad;
    if n > 0 {
      var m := WriteGpuMemory(g.memory, destination, BufferLoad(g.memory, address, offset, k));
      StoreLoopsAgree(g.(memory := m), Wrap(destination + 4), base, size, at, address, offset, k + 1, n - 1);
    }
  }

  /** Packets that both decoders know, read alike up to their last dword. */
  ghost predicate SamePacket(g: Gpu, header: int, base: int, size: int, at: int, address: int, offset: int)
    requires g.Valid() && size > 0
  {
    && Agree(g.memory, base, size, at, address, offset, LengthOf(header))
    && (TypeOf(header) == 3 ==>
          && OpcodeOf(header) != 0x2B
          && (OpcodeOf(header) == 0x3D ==>
                StoresAgree(Tally(g, header), BufferLoad(g.memory, address, offset, 1), base, size, at,
                            address, offset, 2, LengthOf(header) - 2)))
  }

  lemma ConstantsAgree(g: Gpu, opcode: int, length: int, base: int, size: int, at: int, available: int,
                       address: int, offset: int, count: int)
    requires g.Valid() && size > 0 && available == count - offset
    requires Agree(g.memory, base, size, at, address, offset, length) && length >= 2
    ensures RingSetConstant(g, opcode, length, base, size, at, available)
         == BufferSetConstant(g, opcode, length, address, offset, count)
    ensures RingLoadConstants(g, length, base, size, at, available)
      == BufferLoadConstants(g, length, address, offset, count)
    ensures RingModify(g, length, base, size, at, available) == BufferModify(g, length, address, offset, count)
  {
    hide RingLoad, BufferLoad, RingWrites, BufferWrites, ConstantIndex, LoadConstants, ModifyRegister;
    var index := ConstantIndex(opcode, BufferLoad(g.memory, address, offset, 1));
    if index.Some? {
      WritesAgree(g, index.value, 1, base, size, at, address, offset, 2, length - 2);
    }
  }

  lemma OthersAgree(host: Host, g: Gpu, length: int, base: int, size: int, at: int, available: int,
                    address: int, offset: int, count: int)
    requires g.Valid() && size > 0 && available == count - offset
    requires Agree(g.memory, base, size, at, address, offset, length) && length >= 2
    ensures RingPointerShader(host, g, length, base, size, at, available)
         == BufferPointerShader(host, g, length, address, offset, count)
    ensures RingEvent(g, length, base, size, at, available) == BufferEvent(g, length, address, offset, count)
    ensures RingInterrupt(g, length, available) == BufferInterrupt(g, length, offset, count)
    ensures RingSwap(g, length, available) == BufferSwap(g, length, offset, count)
  {
    hide RingLoad, BufferLoad, LoadPointerShader, WriteEvent;
  }

  lemma DrawsAgree(host: Host, g: Gpu, length: int, base: int, size: int, at: int, available: int,
                   address: int, offset: int, count: int)
    requires g.Valid() && size > 0 && available == count - offset
    requires Agree(g.memory, base, size, at, address, offset, length) && length >= 2
    ensures RingDrawAuto(host, g, length, base, size, at, available)
         == BufferDrawAuto(host, g, length, address, offset, count)
    ensures RingDrawIndexed(host, g, length, base, size, at, available)
         == BufferDrawIndexed(host, g, length, address, offset, count)
    ensures RingIndirect(host, g, length, base, size, at, available)
         == BufferIndirect(host, g, length, address, offset, count, 0)
  {
    hide RingLoad, BufferLoad, Poke, Draw, ProcessBuffer;
  }

  lemma PacketAgrees(host: Host, g: Gpu, header: int, base: int, size: int, at: int, available: int,
                     address: int, offset: int, count: int)
    requires g.Valid() && size > 0 && available == count - offset
    requires SamePacket(g, header, base, size, at, address, offset)
    ensures RingPacket(host, g, header, base, size, at, available)
         == BufferPacket(host, g, header, address, offset, count, 0)
  {
    hide Agree, RingLoad, BufferLoad, StoresAgree, Tally, RingWrites, BufferWrites;
    var t := Tally(g, header);
    var length := LengthOf(header);
    if TypeOf(header) == 0 {
      WritesAgree(t, header % 0x8000, if header / 0x8000 % 2 == 1 then 0 else 1, base, size, at, address, offset, 1,
                  length - 1);
    } else if TypeOf(header) == 3 {
      Type3Agrees(host, t, header, base, size, at, available, address, offset, count);
    }
  }

  lemma Type3Agrees(host: Host, g: Gpu, header: int, base: int, size: int, at: int, available: int,
                    address: int, offset: int, count: int)
    requires g.Valid() && size > 0 && available == count - offset
    requires Agree(g.memory, base, size, at, address, offset, LengthOf(header))
    requires TypeOf(header) == 3 && OpcodeOf(header) != 0x2B
    requires OpcodeOf(header) == 0x3D ==>
      StoresAgree(g, BufferLoad(g.memory, address, offset, 1), base, size, at, address, offset, 2, LengthOf(header) - 2)
    ensures RingType3(host, g, header, base, size, at, available)
         == BufferType3(host, g, header, address, offset, count, 0)
  {
    hide RingLoad, BufferLoad, StoresAgree, OpcodeOf, TypeOf;
    hide RingSetConstant, BufferSetConstant, RingLoadConstants, BufferLoadConstants, RingModify, BufferModify;
    hide RingPointerShader, BufferPointerShader, RingEvent, BufferEvent, RingDrawAuto, BufferDrawAuto;
    hide RingDrawIndexed, BufferDrawIndexed, RingIndirect, BufferIndirect, RingSwap, BufferSwap, RingInterrupt;
    hide BufferInterrupt;
    hide RingStores, BufferStores;
    var length := LengthOf(header);
    assert length >= 2;
    ConstantsAgree(g, OpcodeOf(header), length, base, size, at, available, address, offset, count);
    OthersAgree(host, g, length, base, size, at, available, address, offset, count);
    DrawsAgree(host, g, length, base, size, at, available, address, offset, count);
    if OpcodeOf(header) == 0x3D && length >= 3 {
      StoreLoopsAgree(g, BufferLoad(g.memory, address, offset, 1), base, size, at, address, offset, 2, length - 2);
    }
  }

  // ---- One turn of the buffer decoder ----

  lemma BufferRunFirst(host: Host, g: Gpu, address: int, offset: int, count: int, depth: int)
    requires g.Valid() && 0 <= depth <= MAX_DEPTH && offset < count
    ensures var header := BufferLoad(g.memory, address, offset, 0);
      var length := LengthOf(header);
      BufferRun(host, g, address, offset, count, depth)
        == if header == 0 then BufferRun(host, g, address, offset + 1, count, depth)
           else
             var t := BufferPacket(host, g, header, address, offset, count, depth);
             if length > count - offset then t
             else BufferRun(host, t.(packets := t.packets + 1), address, offset + length, count, depth)
  {
    hide BufferLoad, BufferPacket, LengthOf;
  }

  lemma BufferRunDone(host: Host, g: Gpu, address: int, offset: int, count: int, depth: int)
    requires g.Valid() && 0 <= depth <= MAX_DEPTH && offset >= count
    ensures BufferRun(host, g, address, offset, count, depth) == g
  {
  }

  // ---- The whole stream ----

  /** One packet of a ring, taken whole. */
  function Step(host: Host, g: Gpu, base: int, size: int, at: int, available: int): (r: Gpu)
    requires g.Valid() && size > 0
    ensures r.Valid()
  {
    var t := RingPacket(host, g, RingLoad(g.memory, base, size, at, 0), base, size, at, available);
    t.(packets := t.packets + 1)
  }

  function NextLength(g: Gpu, base: int, size: int, at: int): (r: int)
    requires size > 0
    ensures r >= 1
  {
    LengthOf(RingLoad(g.memory, base, size, at, 0))
  }

  lemma RingRunFirst(host: Host, g: Gpu, base: int, size: int, at: int, target: int, available: int)
    requires g.Valid() && size > 0 && at != target && 0 < available
    ensures var length := NextLength(g, base, size, at);
      RingRun(host, g, base, size, at, target, available)
        == if length > available then Consumed(RingPacket(host, g, RingLoad(g.memory, base, size, at, 0), base, size,
                                                          at, available), at)
           else RingRun(host, Step(host, g, base, size, at, available), base, size, Turn(at, length, size), target,
                        available - length)
  {
    hide RingPacket, RingLoad, LengthOf;
  }

  lemma RingRunDone(host: Host, g: Gpu, base: int, size: int, at: int, target: int, available: int)
    requires g.Valid() && size > 0 && (at == target || available <= 0)
    ensures RingRun(host, g, base, size, at, target, available) == Consumed(g, at)
  {
  }

  /** The next `available` dwords are complete packets. */
  ghost predicate Complete(host: Host, g: Gpu, base: int, size: int, at: int, available: int)
    requires g.Valid() && size > 0
    decreases available
  {
    available == 0 ||
    (var length := NextLength(g, base, size, at);
     length <= available &&
     Complete(host, Step(host, g, base, size, at, available), base, size, Turn(at, length, size), available - length))
  }

  /**
   The buffer holds the packets of the ring: each is read alike when its turn comes, none has a
   zero header or carries a shader.
   */
  ghost predicate Twins(host: Host, g: Gpu, base: int, size: int, at: int, available: int, address: int, offset: int)
    requires g.Valid() && size > 0
    decreases available
  {
    available <= 0 ||
    (var length := NextLength(g, base, size, at);
     var header := RingLoad(g.memory, base, size, at, 0);
     && header != 0
     && SamePacket(g, header, base, size, at, address, offset)
     && Twins(host, Step(host, g, base, size, at, available), base, size, Turn(at, length, size), available - length,
              address, offset + length))
  }

  /** The distance from the read pointer to the target. */
  function Distance(target: int, at: int, size: int): int
    requires size > 0
  {
    (target - at) % size
  }

  lemma DistanceAfter(target: int, at: int, size: int, length: int)
    requires size > 0 && 0 <= length <= Distance(target, at, size)
    ensures Distance(target, Turn(at, length, size), size) == Distance(target, at, size) - length
  {
    var d := Distance(target, at, size);
    var q := (target - at) / size + (at + length) / size;
    assert target - (at + length) % size == size * q + (d - length);
    ModUnique(target - (at + length) % size, q, d - length, size);
  }

  lemma Arrived(target: int, at: int, size: int, length: int)
    requires 0 <= target < size
    ensures Distance(target, at, size) > 0 ==> at != target
    ensures Distance(target, at, size) == length ==> Turn(at, length, size) == target
  {
    Folded(0, size);
    if Distance(target, at, size) == length {
      ModUnique(at + length, -((target - at) / size), target, size);
    }
  }

  /** The ring decoder does what the buffer decoder does to the same packets, and stops at the target. */
  lemma {:induction false} RingIsBuffer(host: Host, g: Gpu, base: int, size: int, at: int, target: int,
                                        address: int, offset: int, count: int)
    requires g.Valid() && size > 0
    requires 0 <= target < size && Distance(target, at, size) == count - offset
    requires Complete(host, g, base, size, at, count - offset)
    requires Twins(host, g, base, size, at, count - offset, address, offset)
    ensures RingRun(host, g, base, size, at, target, count - offset)
         == Consumed(BufferRun(host, g, address, offset, count, 0), if count == offset then at else target)
    decreases count - offset
  {
    hide RingPacket, BufferPacket, RingLoad, BufferLoad, Distance, LengthOf;
    var available := count - offset;
    if available > 0 {
      var header := RingLoad(g.memory, base, size, at, 0);
      var length := LengthOf(header);
      DistanceAfter(target, at, size, length);
      Arrived(target, at, size, length);
      HeaderAgrees(g, header, base, size, at, address, offset);
      PacketAgrees(host, g, header, base, size, at, available, address, offset, count);
      RingIsBuffer(host, Step(host, g, base, size, at, available), base, size, Turn(at, length, size), target,
                   address, offset + length, count);
    }
  }

  lemma HeaderAgrees(g: Gpu, header: int, base: int, size: int, at: int, address: int, offset: int)
    requires g.Valid() && size > 0 && SamePacket(g, header, base, size, at, address, offset)
    ensures RingLoad(g.memory, base, size, at, 0) == BufferLoad(g.memory, address, offset, 0)
  {
  }

  // ---- Streams that leave memory alone ----

  /** Packets without memory writes, events, draws, calls or shaders of their own. */
  predicate QuietHeader(header: int) {
    header != 0 && (TypeOf(header) == 3 ==> OpcodeOf(header) !in {0x2B, 0x3D, 0x58, 0x59, 0x3F, 0x36, 0x22})
  }

  /** Complete quiet packets, as far as the headers in memory say. */
  predicate QuietStream(m: Memory, base: int, size: int, at: int, available: int)
    requires size > 0
    decreases available
  {
    var header := RingLoad(m, base, size, at, 0);
    available == 0 ||
    (QuietHeader(header) && LengthOf(header) <= available &&
     QuietStream(m, base, size, Turn(at, LengthOf(header), size), available - LengthOf(header)))
  }

  lemma QuietKeepsMemory(host: Host, g: Gpu, header: int, base: int, size: int, at: int, available: int)
    requires g.Valid() && size > 0 && QuietHeader(header)
    ensures RingPacket(host, g, header, base, size, at, available).memory == g.memory
  {
    hide RingLoad, Tally, RingWrites, RingSetConstant, RingLoadConstants, RingModify, RingPointerShader;
    hide RingInterrupt, RingSwap, OpcodeOf, LengthOf, TypeOf;
  }

  lemma IndexAdvances(at: int, length: int, k: int, size: int)
    requires 0 < size <= 0x4000_0000 && 0 <= at < size && 0 <= length < size && 0 <= k < size
    ensures Wrap((at + length) % size + k) % size == Wrap(at + (length + k)) % size
  {
    ModAdds(at + length, k, size);
    Folded(at + length, size);
  }

  /** Advancing the read pointer shifts what the operands of the next packets are. */
  lemma LoadAdvances(m: Memory, base: int, size: int, at: int, length: int, k: int)
    requires 0 < size <= 0x4000_0000 && 0 <= at < size && 0 <= length < size && 0 <= k < size
    ensures RingLoad(m, base, size, Turn(at, length, size), k) == RingLoad(m, base, size, at, length + k)
  {
    hide LoadBE, Wrap;
    IndexAdvances(at, length, k, size);
  }

  lemma AgreeAdvances(m: Memory, base: int, size: int, at: int, length: int, n: int, address: int, offset: int)
    requires 0 < size <= 0x4000_0000 && 0 <= at < size && 0 <= length <= n < size
    requires Agree(m, base, size, at, address, offset, n)
    ensures Agree(m, base, size, Turn(at, length, size), address, offset + length, n - length)
  {
    hide RingLoad, LoadBE;
    var next, shifted := Turn(at, length, size), offset + length;
    forall k | 0 <= k < n - length ensures RingLoad(m, base, size, next, k) == BufferLoad(m, address, shifted, k) {
      LoadAdvances(m, base, size, at, length, k);
      assert BufferLoad(m, address, shifted, k) == BufferLoad(m, address, offset, length + k);
    }
  }

  /** For quiet packets it is enough that the ring and the buffer hold the same dwords at the start. */
  lemma {:induction false} QuietTwins(host: Host, g: Gpu, base: int, size: int, at: int, available: int, address: int,
                                      offset: int)
    requires g.Valid() && 0 < size <= 0x4000_0000 && 0 <= at < size && 0 <= available < size
    requires QuietStream(g.memory, base, size, at, available)
    requires Agree(g.memory, base, size, at, address, offset, available)
    ensures Complete(host, g, base, size, at, available)
    ensures Twins(host, g, base, size, at, available, address, offset)
    decreases available
  {
    hide RingLoad, LengthOf, OpcodeOf, RingPacket, Agree, StoresAgree;
    if available > 0 {
      var header := RingLoad(g.memory, base, size, at, 0);
      var length := LengthOf(header);
      AgreeShorter(g.memory, base, size, at, address, offset, length, available);
      AgreeAdvances(g.memory, base, size, at, length, available, address, offset);
      QuietKeepsMemory(host, g, header, base, size, at, available);
      QuietTwins(host, Step(host, g, base, size, at, available), base, size, Turn(at, length, size), available - length,
                 address, offset + length);
    }
  }

  lemma AgreeShorter(m: Memory, base: int, size: int, at: int, address: int, offset: int, n: int, more: int)
    requires size > 0 && n <= more && Agree(m, base, size, at, address, offset, more)
    ensures Agree(m, base, size, at, address, offset, n)
  {
  }

  // ---- Cutting the stream ----

  lemma StatesIgnoreRest(host: Host, g: Gpu, opcode: int, length: int, base: int, size: int, at: int, some: int,
                         more: int)
    requires g.Valid() && size > 0 && 1 <= length <= some <= more
    ensures RingState(host, g, opcode, length, base, size, at, some)
      == RingState(host, g, opcode, length, base, size, at, more)
  {
    hide RingLoad, RingWrites, RingStores, ConstantIndex, LoadConstants, ModifyRegister, LoadPointerShader, WriteEvent;
  }

  lemma DrawsIgnoreRest(host: Host, g: Gpu, length: int, base: int, size: int, at: int, some: int, more: int)
    requires g.Valid() && size > 0 && 1 <= length <= some <= more
    ensures RingDrawAuto(host, g, length, base, size, at, some) == RingDrawAuto(host, g, length, base, size, at, more)
    ensures RingDrawIndexed(host, g, length, base, size, at, some)
      == RingDrawIndexed(host, g, length, base, size, at, more)
    ensures RingIndirect(host, g, length, base, size, at, some) == RingIndirect(host, g, length, base, size, at, more)
  {
    hide RingLoad, Poke, Draw, ProcessBuffer;
  }

  /** A packet that is complete does not depend on what follows it. */
  lemma PacketIgnoresRest(host: Host, g: Gpu, header: int, base: int, size: int, at: int, some: int, more: int)
    requires g.Valid() && size > 0 && LengthOf(header) <= some <= more
    ensures RingPacket(host, g, header, base, size, at, some) == RingPacket(host, g, header, base, size, at, more)
  {
    hide Tally, RingWrites, RingState, RingDrawAuto, RingDrawIndexed, RingIndirect, OpcodeOf, LengthOf, TypeOf;
    StatesIgnoreRest(host, Tally(g, header), OpcodeOf(header), LengthOf(header), base, size, at, some, more);
    DrawsIgnoreRest(host, Tally(g, header), LengthOf(header), base, size, at, some, more);
  }

  lemma TurnAdds(at: int, length: int, n: int, size: int)
    requires size > 0
    ensures Turn(Turn(at, length, size), n, size) == Turn(at, length + n, size)
  {
    ModAdds(at + length, n, size);
  }

  lemma TurnInside(at: int, n: int, size: int)
    requires size > 0
    ensures 0 <= Turn(at, n, size)
  {
  }

  lemma CompleteFirst(host: Host, g: Gpu, base: int, size: int, at: int, available: int)
    requires g.Valid() && size > 0 && available != 0 && Complete(host, g, base, size, at, available)
    ensures var length := NextLength(g, base, size, at);
      && length <= available
      && Complete(host, Step(host, g, base, size, at, available), base, size, Turn(at, length, size),
                  available - length)
  {
    hide Step, NextLength;
  }

  /** What the first part of a cut stream leaves, and what the rest makes of it. */
  ghost predicate Splits(host: Host, g: Gpu, base: int, size: int, at: int, first: int, second: int)
    requires g.Valid() && size > 0
  {
    var middle := Turn(at, first, size);
    var target := Turn(at, first + second, size);
    var half := RingRun(host, g, base, size, at, middle, first);
    && half.at == (if first == 0 then at else middle)
    && RingRun(host, g, base, size, at, target, first + second)
      == RingRun(host, half.gpu, base, size, half.at, target, second)
  }

  lemma SplitsStep(host: Host, g: Gpu, base: int, size: int, at: int, first: int, second: int)
    requires g.Valid() && size > 0 && 0 <= at && 0 < first && 0 <= second && first + second < size
    requires var length := NextLength(g, base, size, at);
      length <= first && Splits(host, Step(host, g, base, size, at, first), base, size, Turn(at, length, size),
                                first - length, second)
    ensures Splits(host, g, base, size, at, first, second)
  {
    hide Step, NextLength, RingRun, Turn;
    var length := NextLength(g, base, size, at);
    StepIgnoresRest(host, g, base, size, at, first, first + second);
    RunSteps(host, g, base, size, at, first);
    RunSteps(host, g, base, size, at, first + second);
    TurnAdds(at, length, first - length, size);
    TurnAdds(at, length, first + second - length, size);
  }

  /** Two runs, cut at the end of a packet, are one. */
  lemma {:induction false} StreamSplits(host: Host, g: Gpu, base: int, size: int, at: int, first: int, second: int)
    requires g.Valid() && size > 0 && 0 <= at && 0 <= first && 0 <= second && first + second < size
    requires Complete(host, g, base, size, at, first)
    ensures Splits(host, g, base, size, at, first, second)
    decreases first
  {
    hide Step, Turn, Complete, Splits, NextLength;
    if first > 0 {
      var length := NextLength(g, base, size, at);
      CompleteFirst(host, g, base, size, at, first);
      TurnInside(at, length, size);
      StreamSplits(host, Step(host, g, base, size, at, first), base, size, Turn(at, length, size), first - length,
                   second);
      SplitsStep(host, g, base, size, at, first, second);
    } else {
      SplitsNone(host, g, base, size, at, second);
    }
  }

  lemma SplitsNone(host: Host, g: Gpu, base: int, size: int, at: int, second: int)
    requires g.Valid() && size > 0
    ensures Splits(host, g, base, size, at, 0, second)
  {
    RunEnds(host, g, base, size, at, Turn(at, 0, size));
    hide Turn, RingRun;
  }

  lemma RunEnds(host: Host, g: Gpu, base: int, size: int, at: int, target: int)
    requires g.Valid() && size > 0
    ensures RingRun(host, g, base, size, at, target, 0) == Consumed(g, at)
  {
  }

  lemma StepIgnoresRest(host: Host, g: Gpu, base: int, size: int, at: int, some: int, more: int)
    requires g.Valid() && size > 0 && NextLength(g, base, size, at) <= some <= more
    ensures Step(host, g, base, size, at, some) == Step(host, g, base, size, at, more)
  {
    hide RingPacket, RingLoad, LengthOf;
    PacketIgnoresRest(host, g, RingLoad(g.memory, base, size, at, 0), base, size, at, some, more);
  }

  lemma RunSteps(host: Host, g: Gpu, base: int, size: int, at: int, available: int)
    requires g.Valid() && size > 0 && 0 <= at && 0 < available < size
    requires NextLength(g, base, size, at) <= available
    ensures var length := NextLength(g, base, size, at);
      var target := Turn(at, available, size);
      RingRun(host, g, base, size, at, target, available)
        == RingRun(host, Step(host, g, base, size, at, available), base, size, Turn(at, length, size), target,
                   available - length)
  {
    hide Step, NextLength, RingRun, Turn;
    Away(at, available, size);
    RingRunFirst(host, g, base, size, at, Turn(at, available, size), available);
  }

  lemma Away(at: int, distance: int, size: int)
    requires 0 <= at && 0 < distance < size
    ensures Turn(at, distance, size) != at
  {
    if at < size {
      Folded(at + distance, size);
    }
  }

  // ---- Where the decoders part ----

  /** Packets that both decoders read alike are one part of a longer buffer. */
  lemma {:induction false} BufferSplits(host: Host, g: Gpu, base: int, size: int, at: int, first: int, address: int,
                                        offset: int, count: int)
    requires g.Valid() && size > 0 && 0 <= first && offset + first <= count
    requires Complete(host, g, base, size, at, first) && Twins(host, g, base, size, at, first, address, offset)
    ensures BufferRun(host, g, address, offset, count, 0)
         == BufferRun(host, BufferRun(host, g, address, offset, offset + first, 0), address, offset + first, count, 0)
    decreases first
  {
    hide RingPacket, BufferPacket, RingLoad, BufferLoad, LengthOf, BufferRun, SamePacket;
    if first > 0 {
      var header := RingLoad(g.memory, base, size, at, 0);
      var length := LengthOf(header);
      HeaderAgrees(g, header, base, size, at, address, offset);
      PacketAgrees(host, g, header, base, size, at, first, address, offset, offset + first);
      PacketAgrees(host, g, header, base, size, at, count - offset, address, offset, count);
      PacketIgnoresRest(host, g, header, base, size, at, first, count - offset);
      BufferRunFirst(host, g, address, offset, count, 0);
      BufferRunFirst(host, g, address, offset, offset + first, 0);
      BufferSplits(host, Step(host, g, base, size, at, first), base, size, Turn(at, length, size), first - length,
                   address, offset + length, count);
    } else {
      BufferRunDone(host, g, address, offset, offset + first, 0);
    }
  }

  /** Where the read pointer is `n` dwords on. */
  function Onward(at: int, n: int, size: int): int
    requires size > 0
  {
    if n == 0 then at else Turn(at, n, size)
  }

  lemma OnwardAway(at: int, first: int, second: int, size: int)
    requires 0 <= at && 0 <= first && 0 < second && first + second < size
    ensures Onward(at, first, size) != Onward(at, first + second, size)
  {
    if first > 0 { ModAdds(at + first, second, size); }
    Away(Onward(at, first, size), second, size);
  }

  /** The state after the next `n` dwords of the ring. */
  function RingEnd(host: Host, g: Gpu, base: int, size: int, at: int, n: int): (r: Gpu)
    requires g.Valid() && size > 0
    ensures r.Valid()
  {
    RingRun(host, g, base, size, at, Onward(at, n, size), n).gpu
  }

  /** The state after the next `n` dwords of the buffer, if it ends there. */
  function BufferEnd(host: Host, g: Gpu, address: int, offset: int, n: int): (r: Gpu)
    requires g.Valid()
    ensures r.Valid()
  {
    BufferRun(host, g, address, offset, offset + n, 0)
  }

  /** Both decoders reach the packet behind the agreeing ones in the same state. */
  lemma BothReach(host: Host, g: Gpu, base: int, size: int, at: int, first: int, second: int, address: int, offset: int)
    requires g.Valid() && size > 0 && 0 <= at && 0 <= first && 0 < second && first + second < size
    requires Complete(host, g, base, size, at, first) && Twins(host, g, base, size, at, first, address, offset)
    ensures var u := BufferEnd(host, g, address, offset, first);
      && RingEnd(host, g, base, size, at, first + second)
           == RingRun(host, u, base, size, Onward(at, first, size), Onward(at, first + second, size), second).gpu
      && BufferEnd(host, g, address, offset, first + second) == BufferEnd(host, u, address, offset + first, second)
  {
    hide RingRun, BufferRun, Complete, Twins, Distance;
    StreamSplits(host, g, base, size, at, first, second);
    DistanceOf(at, first, size);
    RingIsBuffer(host, g, base, size, at, Turn(at, first, size), address, offset, offset + first);
    BufferSplits(host, g, base, size, at, first, address, offset, offset + first + second);
  }

  /** Behind `first` dwords of packets that read alike there is the same header in ring and buffer. */
  ghost predicate BothMeet(host: Host, g: Gpu, base: int, size: int, at: int, first: int, address: int, offset: int,
                           header: int)
    requires g.Valid() && size > 0
  {
    && Complete(host, g, base, size, at, first) && Twins(host, g, base, size, at, first, address, offset)
    && var m := BufferEnd(host, g, address, offset, first).memory;
       RingLoad(m, base, size, Onward(at, first, size), 0) == header
         && BufferLoad(m, address, offset + first, 0) == header
  }

  lemma DistanceOf(at: int, n: int, size: int)
    requires 0 <= at && 0 <= n < size
    ensures Distance(Turn(at, n, size), at, size) == n
  {
    ModAdds(at + n, -at, size);
    SmallMod(n, size);
  }

  /** What a count of packets sees of a state. */
  predicate SameCounts(g: Gpu, t: Gpu) {
    t.packets == g.packets && t.type0 == g.type0
  }

  lemma {:induction false} RingWritesCount(g: Gpu, index: int, step: int, base: int, size: int, at: int, k: int, n: int)
    requires g.Valid() && 0 <= index && 0 <= step && size > 0
    ensures SameCounts(g, RingWrites(g, index, step, base, size, at, k, n))
    decreases n
  {
    hide RingLoad, Write;
    if n > 0 {
      RingWritesCount(SetRegister(g, index, RingLoad(g.memory, base, size, at, k)), index + step, step, base, size, at,
                      k + 1, n - 1);
    }
  }

  lemma {:induction false} BufferWritesCount(g: Gpu, index: int, step: int, address: int, offset: int, k: int, n: int)
    requires g.Valid() && 0 <= index && 0 <= step
    ensures SameCounts(g, BufferWrites(g, index, step, address, offset, k, n))
    decreases n
  {
    hide BufferLoad, Write;
    if n > 0 {
      BufferWritesCount(SetRegister(g, index, BufferLoad(g.memory, address, offset, k)), index + step, step, address,
                        offset, k + 1, n - 1);
    }
  }

  /** To the ring a zero header is a packet that writes register 0. */
  lemma RingTakesZero(host: Host, g: Gpu, base: int, size: int, at: int, target: int)
    requires g.Valid() && size > 0 && at != target && RingLoad(g.memory, base, size, at, 0) == 0
    ensures var t := RingRun(host, g, base, size, at, target, 2).gpu;
      t.packets == g.packets + 1 && t.type0 == g.type0 + 1
  {
    RingRunFirst(host, g, base, size, at, target, 2);
    RingRunDone(host, Step(host, g, base, size, at, 2), base, size, Turn(at, 2, size), target, 0);
    var t := g.(type0 := g.type0 + 1);
    RingWritesCount(t, 0, 1, base, size, at, 1, 1);
    hide RingRun, RingLoad, RingWrites, RingType3;
    assert RingPacket(host, g, 0, base, size, at, 2) == RingWrites(t, 0, 1, base, size, at, 1, 1);
  }

  /** A packet of which the buffer holds the header only is not counted, though one of type 0 reads on behind it. */
  lemma CutPacketCount(host: Host, g: Gpu, header: int, address: int, offset: int)
    requires g.Valid() && LengthOf(header) > 1
    ensures BufferPacket(host, g, header, address, offset, offset + 1, 0).packets == g.packets
  {
    var t := Tally(g, header);
    assert t.packets == g.packets;
    BufferWritesCount(t, header % 0x8000, if header / 0x8000 % 2 == 1 then 0 else 1, address, offset, 1,
                      LengthOf(header) - 1);
    hide BufferLoad, BufferWrites, OpcodeOf, Tally, TypeOf;
    if TypeOf(header) == 3 { CutType3Count(host, t, header, address, offset); }
  }

  lemma CutType3Count(host: Host, g: Gpu, header: int, address: int, offset: int)
    requires g.Valid() && LengthOf(header) > 1
    ensures BufferType3(host, g, header, address, offset, offset + 1, 0).packets == g.packets
  {
    CutStateCount(host, g, OpcodeOf(header), LengthOf(header), address, offset);
    hide BufferLoad, OpcodeOf, LengthOf, BufferState, ProcessBuffer, Draw, Poke;
  }

  lemma CutStateCount(host: Host, g: Gpu, opcode: int, length: int, address: int, offset: int)
    requires g.Valid() && length > 1
    ensures BufferState(host, g, opcode, length, address, offset, offset + 1).packets == g.packets
  {
    hide BufferLoad, BufferWrites, BufferStores, ConstantIndex, LoadConstants, ModifyRegister, UseShader;
    hide LoadPointerShader, WriteEvent;
  }

  /** To a buffer a zero header is padding; the dword behind it is a header of its own. */
  lemma BufferSkipsZero(host: Host, g: Gpu, address: int, offset: int)
    requires g.Valid() && BufferLoad(g.memory, address, offset, 0) == 0
    ensures var t := BufferEnd(host, g, address, offset, 2);
      t.packets == g.packets || t.type0 == g.type0
  {
    hide BufferRun, BufferLoad, BufferPacket, TypeOf;
    BufferRunFirst(host, g, address, offset, offset + 2, 0);
    BufferRunFirst(host, g, address, offset + 1, offset + 2, 0);
    var header := BufferLoad(g.memory, address, offset + 1, 0);
    BufferRunDone(host, g, address, offset + 2, offset + 2, 0);
    if header != 0 {
      var t := BufferPacket(host, g, header, address, offset + 1, offset + 2, 0);
      if LengthOf(header) > 1 {
        CutPacketCount(host, g, header, address, offset + 1);
      } else {
        BufferRunDone(host, t.(packets := t.packets + 1), address, offset + 2, offset + 2, 0);
        assert t == g by { IdlePacket(host, g, header, address, offset + 1, offset + 2); }
      }
    }
  }

  lemma IdlePacket(host: Host, g: Gpu, header: int, address: int, offset: int, count: int)
    requires g.Valid() && LengthOf(header) <= 1
    ensures BufferPacket(host, g, header, address, offset, count, 0) == g
  {
  }

  /**
   A stream that ends in a zero header: the ring counts a packet of type 0 for it, the buffer does
   not, so that the decoders never end in the same state.
   */
  lemma ZeroHeaderParts(host: Host, g: Gpu, base: int, size: int, at: int, first: int, address: int, offset: int)
    requires g.Valid() && 0 <= at && 0 <= first && first + 2 < size
      && BothMeet(host, g, base, size, at, first, address, offset, 0)
    ensures var (ring, buffer) := (RingEnd(host, g, base, size, at, first + 2),
                                   BufferEnd(host, g, address, offset, first + 2));
      (ring.packets, ring.type0) != (buffer.packets, buffer.type0)
  {
    hide RingRun, Onward, RingEnd, BufferEnd, Complete, Twins, RingLoad, BufferLoad;
    var u := BufferEnd(host, g, address, offset, first);
    BothReach(host, g, base, size, at, first, 2, address, offset);
    OnwardAway(at, first, 2, size);
    RingTakesZero(host, u, base, size, Onward(at, first, size), Onward(at, first + 2, size));
    BufferSkipsZero(host, u, address, offset + first);
  }

  /** Using the shader would change what the GPU remembers. */
  predicate ShaderNew(host: Host, g: Gpu, kind: int, code: int, dwords: int)
    requires g.Valid()
  {
    var shader := Shader(host.hash(BytesOf(g.memory, code, code + 4 * dwords)), dwords);
    || (kind == 0 && (g.vertexShader != shader || g.fetches != RememberStrides(g.fetches, g.memory, code, 0,
                                                                               Min(dwords, 1024))))
    || (kind == 1 && g.pixelShader != shader)
  }

  /** The packet brings a shader along that the GPU does not use yet. */
  predicate BringsShader(host: Host, g: Gpu, length: int, address: int, offset: int)
    requires g.Valid()
  {
    var dwords := BufferLoad(g.memory, address, offset, 2) % 0x1_0000;
    0 < dwords <= length - 3 && ShaderNew(host, g, BufferLoad(g.memory, address, offset, 1), address + (offset + 3) * 4,
                                          dwords)
  }

  /**
   The states differ in the shaders and what is remembered of their fetches alone, and they do differ
   exactly when the packet at `offset`, decoded in state `u`, brings a shader that is new.
   */
  ghost predicate PartByShader(host: Host, u: Gpu, ring: Gpu, buffer: Gpu, length: int, address: int, offset: int)
    requires u.Valid()
  {
    && buffer == ring.(vertexShader := buffer.vertexShader, pixelShader := buffer.pixelShader,
                       fetches := buffer.fetches)
    && (buffer != ring <==> BringsShader(host, u, length, address, offset))
  }

  function Counted(g: Gpu): Gpu {
    g.(packets := g.packets + 1)
  }

  lemma RingIgnoresShader(host: Host, g: Gpu, header: int, base: int, size: int, at: int, target: int)
    requires g.Valid() && size > 0 && at != target && RingLoad(g.memory, base, size, at, 0) == header
    requires TypeOf(header) == 3 && OpcodeOf(header) == 0x2B
    ensures RingRun(host, g, base, size, at, target, LengthOf(header)).gpu == Counted(Tally(g, header))
  {
    var length := LengthOf(header);
    hide RingRun, RingLoad, Tally, TypeOf, OpcodeOf, LengthOf;
    RingRunFirst(host, g, base, size, at, target, length);
    RingRunDone(host, Step(host, g, base, size, at, length), base, size, Turn(at, length, size), target, 0);
  }

  lemma BufferTakesShader(host: Host, g: Gpu, header: int, address: int, offset: int)
    requires g.Valid() && BufferLoad(g.memory, address, offset, 0) == header && TypeOf(header) == 3
      && OpcodeOf(header) == 0x2B
    ensures var length := LengthOf(header);
      BufferEnd(host, g, address, offset, length)
        == Counted(BufferImmediateShader(host, Tally(g, header), length, address, offset, offset + length))
  {
    var length := LengthOf(header);
    assert header != 0 by { assert TypeOf(0) == 0; }
    hide BufferRun, BufferLoad, Tally, TypeOf, OpcodeOf, LengthOf, BufferImmediateShader;
    BufferRunFirst(host, g, address, offset, offset + length, 0);
    BufferRunDone(host, Counted(BufferImmediateShader(host, Tally(g, header), length, address, offset,
                                                      offset + length)),
                  address, offset + length, offset + length, 0);
  }

  lemma ShaderFields(host: Host, g: Gpu, length: int, address: int, offset: int)
    requires g.Valid() && length >= 2
    ensures var t := BufferImmediateShader(host, g, length, address, offset, offset + length);
      && t == g.(vertexShader := t.vertexShader, pixelShader := t.pixelShader, fetches := t.fetches)
      && (t != g <==> BringsShader(host, g, length, address, offset))
  {
    hide BufferLoad, RememberStrides, BytesOf;
  }

  /** Counting a packet does not change which shaders are new. */
  lemma TallyBrings(host: Host, g: Gpu, header: int, length: int, address: int, offset: int)
    requires g.Valid()
    ensures BringsShader(host, Tally(g, header), length, address, offset) <==> BringsShader(host, g, length, address,
        offset)
  {
    hide BufferLoad, RememberStrides, BytesOf, OpcodeOf, TypeOf;
  }

  lemma LengthOfType3(header: int)
    requires TypeOf(header) == 3
    ensures LengthOf(header) >= 2
  {
  }

  lemma CountedShaders(host: Host, u: Gpu, g: Gpu, t: Gpu, length: int, address: int, offset: int)
    requires u.Valid() && t == g.(vertexShader := t.vertexShader, pixelShader := t.pixelShader, fetches := t.fetches)
    requires t != g <==> BringsShader(host, u, length, address, offset)
    ensures PartByShader(host, u, Counted(g), Counted(t), length, address, offset)
  {
    hide BringsShader;
  }

  lemma ShaderPacketParts(host: Host, g: Gpu, header: int, base: int, size: int, at: int, target: int, address: int,
                          offset: int)
    requires g.Valid() && size > 0 && at != target && TypeOf(header) == 3 && OpcodeOf(header) == 0x2B
    requires RingLoad(g.memory, base, size, at, 0) == header && BufferLoad(g.memory, address, offset, 0) == header
    ensures var length := LengthOf(header);
      PartByShader(host, g, RingRun(host, g, base, size, at, target, length).gpu,
                   BufferEnd(host, g, address, offset, length), length, address, offset)
  {
    hide *;
    var length := LengthOf(header);
    LengthOfType3(header);
    RingIgnoresShader(host, g, header, base, size, at, target);
    BufferTakesShader(host, g, header, address, offset);
    var c := Tally(g, header);
    ShaderFields(host, c, length, address, offset);
    TallyBrings(host, g, header, length, address, offset);
    CountedShaders(host, g, c, BufferImmediateShader(host, c, length, address, offset, offset + length), length,
                   address, offset);
  }

  /**
   A stream that ends in a packet with a shader of its own: the decoders differ in the shaders and
   what is remembered of their fetches alone, and exactly when the packet brings a shader that is new.
   */
  lemma OwnShaderParts(host: Host, g: Gpu, base: int, size: int, at: int, first: int, header: int, address: int,
                       offset: int)
    requires g.Valid() && 0 <= at && 0 <= first && first + LengthOf(header) < size
    requires BothMeet(host, g, base, size, at, first, address, offset, header) && TypeOf(header) == 3
      && OpcodeOf(header) == 0x2B
    ensures var length := LengthOf(header);
      PartByShader(host, BufferEnd(host, g, address, offset, first), RingEnd(host, g, base, size, at, first + length),
                   BufferEnd(host, g, address, offset, first + length), length, address, offset + first)
  {
    var length := LengthOf(header);
    hide RingRun, Onward, RingEnd, BufferEnd, Complete, Twins, RingLoad, BufferLoad, LengthOf, TypeOf, OpcodeOf;
    hide PartByShader;
    BothReach(host, g, base, size, at, first, length, address, offset);
    OnwardAway(at, first, length, size);
    ShaderPacketParts(host, BufferEnd(host, g, address, offset, first), header, base, size, Onward(at, first, size),
                      Onward(at, first + length, size), address, offset + first);
  }
}
