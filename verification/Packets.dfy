/** What packets mean: where their operands end up. Stated for buffers; the ring agrees. */
module Packets {
  import opened Words
  import opened Bits
  import opened GuestMemory
  import opened FetchBanks
  import opened Pm4
  import Arithmetic

  /** The registers from `index` on hold the words that `word` names, all others what they held. */
  ghost predicate Filled(before: seq<int>, after: seq<int>, index: int, words: seq<int>) {
    && |before| == |after| == REGISTERS
    && forall i | 0 <= i < REGISTERS :: after[i] == if index <= i < index + |words| then words[i - index] else before[i]
  }

  /** Operands k, k + 1, .. of a packet. */
  function Operands(m: Memory, address: int, offset: int, k: int, n: nat): (r: seq<int>)
    ensures |r| == n
    decreases n
  {
    if n == 0 then [] else [BufferLoad(m, address, offset, k)] + Operands(m, address, offset, k + 1, n - 1)
  }

  /** Consecutive words of guest memory. */
  function WordsAt(m: Memory, source: int, n: nat): (r: seq<int>)
    ensures |r| == n
    decreases n
  {
    if n == 0 then [] else [LoadBE(m, Wrap(source))] + WordsAt(m, source + 4, n - 1)
  }

  predicate OutsideWindow(index: int, n: int) {
    0 <= index && 0 <= n && (index + n <= WINDOW || WINDOW + WINDOW_SIZE <= index)
  }

  lemma PlainWrite(g: Gpu, index: int, value: int)
    requires g.Valid() && OutsideWindow(index, 1)
    ensures var t := SetRegister(g, index, value);
      && t == g.(banks := g.banks.(registers := t.banks.registers))
      && Filled(g.banks.registers, t.banks.registers, index, [value])
  {
  }

  lemma FilledThen(a: seq<int>, b: seq<int>, c: seq<int>, index: int, word: int, words: seq<int>)
    requires Filled(a, b, index, [word]) && Filled(b, c, index + 1, words)
    ensures Filled(a, c, index, [word] + words)
  {
  }

  /** A register run outside the fetch window puts each operand into its own register and touches nothing else. */
  lemma {:induction false} WritesFill(g: Gpu, index: int, address: int, offset: int, k: int, n: nat)
    requires g.Valid() && OutsideWindow(index, n)
    ensures var t := BufferWrites(g, index, 1, address, offset, k, n);
      && t == g.(banks := g.banks.(registers := t.banks.registers))
      && Filled(g.banks.registers, t.banks.registers, index, Operands(g.memory, address, offset, k, n))
    decreases n
  {
    hide BufferLoad, SetRegister, Filled;
    if n == 0 {
      NothingFilled(g.banks.registers, index);
    } else {
      var word := BufferLoad(g.memory, address, offset, k);
      var u := SetRegister(g, index, word);
      PlainWrite(g, index, word);
      WritesFill(u, index + 1, address, offset, k + 1, n - 1);
      FilledThen(g.banks.registers, u.banks.registers,
                 BufferWrites(u, index + 1, 1, address, offset, k + 1, n - 1).banks.registers,
                 index, word, Operands(g.memory, address, offset, k + 1, n - 1));
    }
  }

  lemma NothingFilled(registers: seq<int>, index: int)
    requires |registers| == REGISTERS
    ensures Filled(registers, registers, index, [])
  {
  }

  /** Constants that are loaded from memory end up in consecutive registers. */
  lemma {:induction false} CopiesFill(g: Gpu, index: int, source: int, n: nat)
    requires g.Valid() && OutsideWindow(index, n)
    ensures var t := CopyConstants(g, index, source, n);
      && t == g.(banks := g.banks.(registers := t.banks.registers))
      && Filled(g.banks.registers, t.banks.registers, index, WordsAt(g.memory, source, n))
    decreases n
  {
    hide LoadBE, SetRegister, Filled, Wrap;
    if n == 0 {
      NothingFilled(g.banks.registers, index);
    } else {
      var word := LoadBE(g.memory, Wrap(source));
      var u := SetRegister(g, index, word);
      PlainWrite(g, index, word);
      CopiesFill(u, index + 1, source + 4, n - 1);
      FilledThen(g.banks.registers, u.banks.registers, CopyConstants(u, index + 1, source + 4, n - 1).banks.registers,
                 index, word, WordsAt(g.memory, source + 4, n - 1));
    }
  }

  /** A complete constant packet: its second operand names the place, the rest are the values. */
  lemma SetConstantFills(g: Gpu, opcode: int, length: int, address: int, offset: int, count: int)
    requires g.Valid() && 2 <= length <= count - offset
    ensures var index := ConstantIndex(opcode, BufferLoad(g.memory, address, offset, 1));
      var t := BufferSetConstant(g, opcode, length, address, offset, count);
      if index.None? then t == g
      else OutsideWindow(index.value, length - 2) ==>
        && t == g.(banks := g.banks.(registers := t.banks.registers))
        && Filled(g.banks.registers, t.banks.registers, index.value, Operands(g.memory, address, offset, 2, length - 2))
  {
    hide BufferLoad, ConstantIndex, BufferWrites, Operands, Filled;
    var index := ConstantIndex(opcode, BufferLoad(g.memory, address, offset, 1));
    if index.Some? && OutsideWindow(index.value, length - 2) {
      WritesFill(g, index.value, address, offset, 2, length - 2);
    }
  }

  /** The writes of a packet, when its operands are the words of the labelled run. */
  ghost predicate Carries(m: Memory, index: int, address: int, offset: int, k: int, run: seq<Access>)
    decreases |run|
  {
    run == [] ||
    (&& run[0].Index() == index && run[0].value == BufferLoad(m, address, offset, k)
     && Carries(m, index + 1, address, offset, k + 1, run[1..]))
  }

  lemma {:induction false} CarriesIndices(m: Memory, index: int, address: int, offset: int, k: int, run: seq<Access>)
    requires 0 <= index && Carries(m, index, address, offset, k, run)
    ensures forall a | a in run :: 0 <= a.Index()
    decreases |run|
  {
    hide BufferLoad;
    if run != [] { CarriesIndices(m, index + 1, address, offset, k + 1, run[1..]); }
  }

  /** A packet that carries a run of uploads writes that run. */
  lemma {:induction false} PacketWritesRun(g: Gpu, index: int, address: int, offset: int, k: int, run: seq<Access>)
    requires g.Valid() && 0 <= index && Carries(g.memory, index, address, offset, k, run)
    requires forall a | a in run :: 0 <= a.Index()
    ensures BufferWrites(g, index, 1, address, offset, k, |run|) == g.(banks := WriteAll(g.banks, run))
    decreases |run|
  {
    hide BufferLoad, Write;
    if run != [] {
      PacketWritesRun(SetRegister(g, index, run[0].value), index + 1, address, offset, k + 1, run[1..]);
    }
  }

  /** Complete uploads in one packet leave each bank as if it were written alone. */
  lemma UploadPacketRouted(g: Gpu, index: int, address: int, offset: int, k: int, run: seq<Access>)
    requires g.Valid() && 0 <= index && Carries(g.memory, index, address, offset, k, run)
    requires CompleteUploads(Between, run) && !Collides(g.banks.pendingTexture, run)
    ensures var t := BufferWrites(g, index, 1, address, offset, k, |run|);
      && t.banks.registers == RegistersAlone(g.banks.registers, run)
      && t.banks.vertex == VertexAlone(g.banks.vertex, run)
  {
    hide BufferLoad, Write, Carries, CompleteUploads, Collides, BufferWrites, WriteAll;
    CarriesIndices(g.memory, index, address, offset, k, run);
    PacketWritesRun(g, index, address, offset, k, run);
    BanksIndependent(g.banks, run);
  }

  ghost predicate WordRegisters(registers: seq<int>) {
    forall i | 0 <= i < |registers| :: 0 <= registers[i]
  }

  /** Each bit of a modified register is what the mask leaves of it, or a bit of the second operand. */
  lemma ModifiesBits(registers: seq<int>, info: int, andOperand: int, orOperand: int, k: nat)
    requires |registers| == REGISTERS && WordRegisters(registers) && 0 <= andOperand && 0 <= orOperand
    ensures var mask := if Bit(info, 31) then registers[andOperand % 0x2000] else andOperand;
      var bits := if Bit(info, 30) then registers[orOperand % 0x2000] else orOperand;
      Bit(Modified(registers, info, andOperand, orOperand), k)
        == ((Bit(registers[info % 0x2000], k) && Bit(mask, k)) || Bit(bits, k))
  {
    hide And, Or, Bit;
    BitByDivision(info, 31);
    BitByDivision(info, 30);
    Powers();
    var value, mask := registers[info % 0x2000], if Bit(info, 31) then registers[andOperand % 0x2000] else andOperand;
    AndBits(value, mask, k);
    OrBits(And(value, mask), if Bit(info, 30) then registers[orOperand % 0x2000] else orOperand, k);
  }

  lemma Powers()
    ensures Pow2(30) == 0x4000_0000 && Pow2(31) == 0x8000_0000
  {
    assert Pow2(10) == 0x400;
    assert Pow2(20) == 0x10_0000;
    assert Pow2(30) == 0x4000_0000;
  }

  lemma {:induction false} BitByDivision(x: int, k: nat)
    ensures Bit(x, k) <==> x / Pow2(k) % 2 == 1
    decreases k
  {
    if k > 0 {
      BitByDivision(x / 2, k - 1);
      Arithmetic.DivDiv(x, 2, Pow2(k - 1), Pow2(k));
    }
  }

  /** The rasteriser sees the initiator of an indexed draw, and the index buffer if the draw reads one. */
  lemma DrawSeesOperands(host: Host, g: Gpu, length: int, address: int, offset: int, count: int)
    requires g.Valid() && 5 <= length <= count - offset
    ensures var initiator := BufferLoad(g.memory, address, offset, 2);
      var t := BufferDrawIndexed(host, g, length, address, offset, count);
      exists u: Gpu ::
        && u == g.(banks := g.banks.(registers := u.banks.registers)) && |u.banks.registers| == REGISTERS
        && u.banks.registers[DRAW_INITIATOR] == initiator
        && (initiator / 0x40 % 4 == 0 ==>
              && u.banks.registers[DMA_BASE] == BufferLoad(g.memory, address, offset, 3)
              && u.banks.registers[DMA_SIZE] == BufferLoad(g.memory, address, offset, 4))
        && t == u.(memory := host.draw(u).memory, screen := host.draw(u).screen, draws := g.draws + 1)
  {
    hide BufferLoad;
    var initiator := BufferLoad(g.memory, address, offset, 2);
    var u := Poke(g, DRAW_INITIATOR, initiator);
    var v := Poke(Poke(u, DMA_BASE, BufferLoad(g.memory, address, offset, 3)), DMA_SIZE,
                  BufferLoad(g.memory, address, offset, 4));
    var w := if initiator / 0x40 % 4 == 0 then v else u;
    assert w == g.(banks := g.banks.(registers := w.banks.registers));
  }
}
