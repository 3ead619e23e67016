/** The command processor as an object: the decoders update its fields and arrays in place. */
module CommandProcessorService {
  import opened Words
  import opened Bits
  import opened GuestMemory
  import opened FetchBanks
  import P = Pm4
  import opened RingStream
  import opened CommandMemory
  import D = Doorbells

  class GpuState {
    const host: P.Host
    const file: RegisterFile
    const strides: array<int>
    const opcodes: array<int>
    var active: int
    var vertexShader: P.Shader
    var pixelShader: P.Shader
    var memory: Memory
    var done4000: int
    var done4004: int
    var screen: int
    var interrupt: bool
    var packets: int
    var type0: int
    var type3: int
    var draws: int
    var swaps: int
    var frames: int

    ghost function Footprint(): set<object> {
      {this, file, file.registers, file.vertex, strides, opcodes}
    }

    function Contents(): P.Gpu
      reads Footprint()
    {
      P.Gpu(file.Contents(), P.Fetches(strides[..], active), vertexShader, pixelShader, memory, done4000, done4004,
            screen, interrupt, packets, type0, type3, draws, swaps, frames, opcodes[..])
    }

    ghost predicate Valid()
      reads Footprint()
    {
      && file.Valid()
      && strides.Length == 96 && opcodes.Length == 0x100
      && strides != file.registers && strides != file.vertex
      && opcodes != file.registers && opcodes != file.vertex && opcodes != strides
      && Contents().Valid()
    }

    constructor (host: P.Host)
      ensures Valid() && fresh(Footprint()) && this.host == host && Contents() == D.CLEAR_GPU
    {
      this.host := host;
      file := new RegisterFile();
      strides := new int[96](_ => 0);
      opcodes := new int[0x100](_ => 0);
      active, vertexShader, pixelShader := 0, P.Shader(0, 0), P.Shader(0, 0);
      memory, done4000, done4004, screen, interrupt := map[], 0, 0, 0, false;
      packets, type0, type3, draws, swaps, frames := 0, 0, 0, 0, 0, 0;
      new;
      assert Contents() == D.CLEAR_GPU;
    }

    method SetRegister(index: int, value: int)
      requires Valid() && 0 <= index
      modifies Footprint()
      ensures Valid() && Contents() == P.SetRegister(old(Contents()), index, value)
    {
      file.WriteGpuRegister(index, value);
    }

    method BufferWrites(index: int, step: int, address: int, offset: int, k: int, n: int)
      requires Valid() && 0 <= index && 0 <= step
      modifies Footprint()
      ensures Valid() && Contents() == P.BufferWrites(old(Contents()), index, step, address, offset, k, n)
    {
      hide P.SetRegister, P.BufferLoad;
      var i, register := 0, index;
      while i < n
        invariant 0 <= register
        invariant Valid()
        invariant P.BufferWrites(Contents(), register, step, address, offset, k + i, n - i)
               == P.BufferWrites(old(Contents()), index, step, address, offset, k, n)
      {
        SetRegister(register, P.BufferLoad(memory, address, offset, k + i));
        i, register := i + 1, register + step;
      }
    }

    method RememberStrides(code: int, count: int)
      requires Valid()
      modifies Footprint()
      ensures Valid()
      ensures Contents() == old(Contents()).(fetches := P.RememberStrides(old(Contents()).fetches, old(memory), code, 0,
                                                                          count))
    {
      hide LoadBE;
      var offset := 0;
      while offset + 2 < count
        invariant Valid()
        invariant Contents() == old(Contents()).(fetches := Contents().fetches)
        invariant P.RememberStrides(Contents().fetches, memory, code, offset, count)
               == P.RememberStrides(old(Contents()).fetches, old(memory), code, 0, count)
        decreases count - offset
      {
        var word0 := LoadBE(memory, Wrap(code + 4 * offset));
        var word1 := LoadBE(memory, Wrap(code + 4 * offset + 4));
        var word2 := LoadBE(memory, Wrap(code + 4 * offset + 8));
        offset := offset + 3;
        if word0 % 0x20 != 0 {
          continue;
        }
        var constant := word0 / 0x10_0000 % 0x20 * 3 + word0 / 0x200_0000 % 4;
        var stride := word2 % 0x100;
        if constant < 96 && stride != 0 {
          strides[constant] := stride;
          if word1 / 0x4000_0000 % 2 == 0 {
            active := constant;
          }
        }
      }
    }

    method CopyConstants(index: int, source: int, n: int)
      requires Valid() && 0 <= index
      modifies Footprint()
      ensures Valid() && Contents() == P.CopyConstants(old(Contents()), index, source, n)
    {
      hide P.SetRegister, LoadBE;
      var i := 0;
      while i < n
        invariant Valid() && 0 <= i
        invariant P.CopyConstants(Contents(), index + i, source + 4 * i, n - i)
          == P.CopyConstants(old(Contents()), index, source, n)
      {
        SetRegister(index + i, LoadBE(memory, Wrap(source + 4 * i)));
        i := i + 1;
      }
    }

    method LoadConstants(address: int, offsetType: int, size: int)
      requires Valid()
      modifies Footprint()
      ensures Valid() && Contents() == P.LoadConstants(old(Contents()), address, offsetType, size)
    {
      hide P.CopyConstants, P.TypedIndex;
      var n := size % 0x1000;
      var index := P.TypedIndex(offsetType);
      if index.Some? && n <= 0x8000 - index.value {
        CopyConstants(index.value, PhysicalToGuest(address % 0x4000_0000), n);
      }
    }

    method ModifyRegister(info: int, andOperand: int, orOperand: int)
      requires Valid()
      modifies Footprint()
      ensures Valid() && Contents() == P.ModifyRegister(old(Contents()), info, andOperand, orOperand)
    {
      hide P.SetRegister, And, Or;
      var value := file.registers[info % 0x2000];
      value := And(value, if info / 0x8000_0000 % 2 == 1 then file.registers[andOperand % 0x2000] else andOperand);
      value := Or(value, if info / 0x4000_0000 % 2 == 1 then file.registers[orOperand % 0x2000] else orOperand);
      SetRegister(info % 0x2000, value);
    }

    method UseShader(kind: int, code: int, dwords: int)
      requires Valid()
      modifies Footprint()
      ensures Valid() && Contents() == P.UseShader(host, old(Contents()), kind, code, dwords)
    {
      hide P.RememberStrides;
      var shader := P.Shader(host.hash(BytesOf(memory, code, code + 4 * dwords)), dwords);
      if kind == 0 {
        vertexShader := shader;
        RememberStrides(code, Min(dwords, 1024));
      } else if kind == 1 {
        pixelShader := shader;
      }
    }

    method LoadPointerShader(address: int, startSize: int)
      requires Valid()
      modifies Footprint()
      ensures Valid() && Contents() == P.LoadPointerShader(host, old(Contents()), address, startSize)
    {
      hide P.UseShader;
      var dwords := startSize % 0x1_0000;
      if startSize / 0x1_0000 != 0 || dwords == 0 || dwords > 0x4000 {
        return;
      }
      UseShader(address % 4, PhysicalToGuest(WordAligned(address % 0x4000_0000)), dwords);
    }

    method WriteEvent(initiator: int, encoded: int, requested: int)
      requires Valid()
      modifies this
      ensures Valid() && Contents() == P.WriteEvent(old(Contents()), initiator, encoded, requested)
    {
      hide StoreBE, Swap32;
      var physical := WordAligned(encoded);
      var destination := PhysicalToGuest(physical);
      var value := if initiator / 0x8000_0000 % 2 == 1 then Wrap(frames) else requested;
      if destination < 0x8000_0000 {
        var stored := Swap32(value, encoded);
        memory := StoreBE(memory, destination, stored);
        if physical / 0x1000 == 0x189F4 {
          memory := StoreBE(memory, destination + 0x1000, stored);
          if physical % 0x1000 == 0 {
            done4000 := stored;
          } else if physical % 0x1000 == 4 {
            done4004 := stored;
          }
        }
      }
    }

    method Poke(index: int, value: int)
      requires Valid() && 0 <= index < REGISTERS
      modifies file.registers
      ensures Valid() && Contents() == P.Poke(old(Contents()), index, value)
    {
      file.registers[index] := value;
    }

    method Draw()
      requires Valid()
      modifies this
      ensures Valid() && Contents() == P.Draw(host, old(Contents()))
    {
      var drawn := host.draw(Contents());
      memory, screen := drawn.memory, drawn.screen;
    }

    method Tally(header: int)
      requires Valid()
      modifies this, opcodes
      ensures Valid() && Contents() == P.Tally(old(Contents()), header)
    {
      if P.TypeOf(header) == 0 {
        type0 := type0 + 1;
      } else if P.TypeOf(header) == 3 {
        type3 := type3 + 1;
        opcodes[P.OpcodeOf(header)] := opcodes[P.OpcodeOf(header)] + 1;
      }
    }

    // ---- Linear buffers ----

    method BufferStores(destination: int, address: int, offset: int, k: int, n: int)
      requires Valid()
      modifies this
      ensures Valid() && Contents() == P.BufferStores(old(Contents()), destination, address, offset, k, n)
    {
      hide WriteGpuMemory, P.BufferLoad;
      var i, at := 0, destination;
      while i < n
        invariant Valid()
        invariant P.BufferStores(Contents(), at, address, offset, k + i, n - i)
               == P.BufferStores(old(Contents()), destination, address, offset, k, n)
      {
        memory := WriteGpuMemory(memory, at, P.BufferLoad(memory, address, offset, k + i));
        i, at := i + 1, Wrap(at + 4);
      }
    }

    method BufferSetConstant(opcode: int, length: int, address: int, offset: int, count: int)
      requires Valid()
      modifies Footprint()
      ensures Valid() && Contents() == P.BufferSetConstant(old(Contents()), opcode, length, address, offset, count)
    {
      hide P.BufferWrites, P.BufferLoad, P.ConstantIndex;
      var payload := length - 1;
      if payload != 0 && offset + payload < count {
        var index := P.ConstantIndex(opcode, P.BufferLoad(memory, address, offset, 1));
        if index.Some? {
          BufferWrites(index.value, 1, address, offset, 2, payload - 1);
        }
      }
    }

    method BufferDrawAuto(length: int, address: int, offset: int, count: int)
      requires Valid()
      modifies Footprint()
      ensures Valid() && Contents() == P.BufferDrawAuto(host, old(Contents()), length, address, offset, count)
    {
      hide P.BufferLoad, P.Poke, P.Draw;
      if length >= 2 && offset + 1 < count {
        Poke(P.DRAW_INITIATOR, P.BufferLoad(memory, address, offset, 1));
        Draw();
      }
      draws := draws + 1;
    }

    method BufferDrawIndexed(length: int, address: int, offset: int, count: int)
      requires Valid()
      modifies Footprint()
      ensures Valid() && Contents() == P.BufferDrawIndexed(host, old(Contents()), length, address, offset, count)
    {
      hide P.BufferLoad, P.Poke, P.Draw;
      if length >= 3 && offset + 2 < count {
        var initiator := P.BufferLoad(memory, address, offset, 2);
        Poke(P.DRAW_INITIATOR, initiator);
        if length >= 5 && offset + 4 < count && initiator / 0x40 % 4 == 0 {
          Poke(P.DMA_BASE, P.BufferLoad(memory, address, offset, 3));
          Poke(P.DMA_SIZE, P.BufferLoad(memory, address, offset, 4));
        }
        Draw();
      }
      draws := draws + 1;
    }

    /** The packets that neither draw nor call. */
    method BufferState(opcode: int, length: int, address: int, offset: int, count: int)
      requires Valid() && opcode !in {0x36, 0x22, 0x3F}
      modifies Footprint()
      ensures Valid() && Contents() == P.BufferState(host, old(Contents()), opcode, length, address, offset, count)
    {
      hide P.BufferLoad, P.BufferStores, P.LoadConstants, P.ModifyRegister, P.UseShader, P.LoadPointerShader;
      hide P.WriteEvent;
      hide P.BufferSetConstant;
      match opcode {
        case 0x2D | 0x55 | 0x56 =>
          BufferSetConstant(opcode, length, address, offset, count);
        case 0x2F =>
          if length >= 4 && offset + 3 < count {
            LoadConstants(P.BufferLoad(memory, address, offset, 1), P.BufferLoad(memory, address, offset, 2),
                          P.BufferLoad(memory, address, offset, 3));
          }
        case 0x21 =>
          if length >= 4 && offset + 3 < count {
            ModifyRegister(P.BufferLoad(memory, address, offset, 1), P.BufferLoad(memory, address, offset, 2),
                           P.BufferLoad(memory, address, offset, 3));
          }
        case 0x3D =>
          if length >= 3 && offset + 2 < count {
            BufferStores(P.BufferLoad(memory, address, offset, 1), address, offset, 2, length - 2);
          }
        case 0x2B =>
          if length >= 3 && offset + 2 < count {
            var dwords := P.BufferLoad(memory, address, offset, 2) % 0x1_0000;
            if dwords != 0 && dwords <= length - 3 {
              UseShader(P.BufferLoad(memory, address, offset, 1), address + (offset + 3) * 4, dwords);
            }
          }
        case 0x27 =>
          if length >= 3 && offset + 2 < count {
            LoadPointerShader(P.BufferLoad(memory, address, offset, 1), P.BufferLoad(memory, address, offset, 2));
          }
        case 0x46 =>
          if length >= 2 && offset + 1 < count {
            interrupt := true;
          }
        case 0x58 | 0x59 =>
          if length >= 4 && offset + 3 < count {
            WriteEvent(P.BufferLoad(memory, address, offset, 1), P.BufferLoad(memory, address, offset, 2),
                       P.BufferLoad(memory, address, offset, 3));
            interrupt := true;
          }
        case 0x64 =>
          swaps := swaps + 1;
          if length >= 5 && offset + 4 < count {
            frames := frames + 1;
          }
        case _ =>
      }
    }

    method BufferIndirect(length: int, address: int, offset: int, count: int, depth: int)
      requires Valid() && 0 <= depth <= P.MAX_DEPTH
      modifies Footprint()
      ensures Valid() && Contents() == P.BufferIndirect(host, old(Contents()), length, address, offset, count, depth)
      decreases P.MAX_DEPTH + 1 - depth, 0, 0
    {
      hide P.BufferLoad, P.ProcessBuffer;
      if length >= 3 && offset + 2 < count {
        ProcessBuffer(PhysicalToGuest(P.BufferLoad(memory, address, offset, 1)),
                      P.BufferLoad(memory, address, offset, 2) % 0x10_0000, depth + 1);
      }
    }

    method BufferPacket(header: int, address: int, offset: int, count: int, depth: int)
      requires Valid() && 0 <= depth <= P.MAX_DEPTH
      modifies Footprint()
      ensures Valid() && Contents() == P.BufferPacket(host, old(Contents()), header, address, offset, count, depth)
      decreases P.MAX_DEPTH + 1 - depth, 0, 1
    {
      hide P.BufferWrites, P.Tally, P.BufferState, P.BufferDrawAuto, P.BufferDrawIndexed, P.BufferIndirect;
      hide P.TypeOf, P.LengthOf, P.OpcodeOf;
      var length := P.LengthOf(header);
      if P.TypeOf(header) == 0 {
        Tally(header);
        BufferWrites(header % 0x8000, if header / 0x8000 % 2 == 1 then 0 else 1, address, offset, 1, length - 1);
      } else if P.TypeOf(header) == 3 {
        Tally(header);
        var opcode := P.OpcodeOf(header);
        if opcode == 0x3F {
          BufferIndirect(length, address, offset, count, depth);
        } else if opcode == 0x36 {
          BufferDrawAuto(length, address, offset, count);
        } else if opcode == 0x22 {
          BufferDrawIndexed(length, address, offset, count);
        } else {
          BufferState(opcode, length, address, offset, count);
        }
      }
    }

    method ProcessBuffer(address: int, count: int, depth: int)
      requires Valid() && 0 <= depth <= P.MAX_DEPTH + 1
      modifies Footprint()
      ensures Valid() && Contents() == P.ProcessBuffer(host, old(Contents()), address, count, depth)
      decreases P.MAX_DEPTH + 1 - depth, 1, 0
    {
      hide P.BufferLoad, P.BufferPacket, P.LengthOf;
      if depth > P.MAX_DEPTH || count > P.MAX_DWORDS {
        return;
      }
      var offset := 0;
      while offset < count
        invariant Valid()
        invariant P.BufferRun(host, Contents(), address, offset, count, depth)
               == P.BufferRun(host, old(Contents()), address, 0, count, depth)
        decreases count - offset
      {
        var header := P.BufferLoad(memory, address, offset, 0);
        if header == 0 {
          offset := offset + 1;
          continue;
        }
        var length := P.LengthOf(header);
        BufferPacket(header, address, offset, count, depth);
        if length > count - offset {
          break;
        }
        packets := packets + 1;
        offset := offset + length;
      }
    }

    // ---- The ring ----

    method RingWrites(index: int, step: int, base: int, size: int, at: int, k: int, n: int)
      requires Valid() && 0 <= index && 0 <= step && size > 0
      modifies Footprint()
      ensures Valid() && Contents() == P.RingWrites(old(Contents()), index, step, base, size, at, k, n)
    {
      hide P.SetRegister, P.RingLoad;
      var i, register := 0, index;
      while i < n
        invariant 0 <= register
        invariant Valid()
        invariant P.RingWrites(Contents(), register, step, base, size, at, k + i, n - i)
               == P.RingWrites(old(Contents()), index, step, base, size, at, k, n)
      {
        SetRegister(register, P.RingLoad(memory, base, size, at, k + i));
        i, register := i + 1, register + step;
      }
    }

    method RingStores(destination: int, base: int, size: int, at: int, k: int, n: int)
      requires Valid() && size > 0
      modifies this
      ensures Valid() && Contents() == P.RingStores(old(Contents()), destination, base, size, at, k, n)
    {
      hide WriteGpuMemory, P.RingLoad;
      var i, to := 0, destination;
      while i < n
        invariant Valid()
        invariant P.RingStores(Contents(), to, base, size, at, k + i, n - i)
               == P.RingStores(old(Contents()), destination, base, size, at, k, n)
      {
        memory := WriteGpuMemory(memory, to, P.RingLoad(memory, base, size, at, k + i));
        i, to := i + 1, Wrap(to + 4);
      }
    }

    method RingSetConstant(opcode: int, length: int, base: int, size: int, at: int, available: int)
      requires Valid() && size > 0
      modifies Footprint()
      ensures Valid() && Contents() == P.RingSetConstant(old(Contents()), opcode, length, base, size, at, available)
    {
      hide P.RingWrites, P.RingLoad, P.ConstantIndex;
      var payload := length - 1;
      if payload != 0 && payload < available {
        var index := P.ConstantIndex(opcode, P.RingLoad(memory, base, size, at, 1));
        if index.Some? {
          RingWrites(index.value, 1, base, size, at, 2, payload - 1);
        }
      }
    }

    method RingDrawAuto(length: int, base: int, size: int, at: int, available: int)
      requires Valid() && size > 0
      modifies Footprint()
      ensures Valid() && Contents() == P.RingDrawAuto(host, old(Contents()), length, base, size, at, available)
    {
      hide P.RingLoad, P.Poke, P.Draw;
      if length >= 2 && 1 < available {
        Poke(P.DRAW_INITIATOR, P.RingLoad(memory, base, size, at, 1));
        Draw();
      }
      draws := draws + 1;
    }

    method RingDrawIndexed(length: int, base: int, size: int, at: int, available: int)
      requires Valid() && size > 0
      modifies Footprint()
      ensures Valid() && Contents() == P.RingDrawIndexed(host, old(Contents()), length, base, size, at, available)
    {
      hide P.RingLoad, P.Poke, P.Draw;
      if length >= 3 && 2 < available {
        var initiator := P.RingLoad(memory, base, size, at, 2);
        Poke(P.DRAW_INITIATOR, initiator);
        if length >= 5 && 4 < available && initiator / 0x40 % 4 == 0 {
          Poke(P.DMA_BASE, P.RingLoad(memory, base, size, at, 3));
          Poke(P.DMA_SIZE, P.RingLoad(memory, base, size, at, 4));
        }
        Draw();
      }
      draws := draws + 1;
    }

    method RingState(opcode: int, length: int, base: int, size: int, at: int, available: int)
      requires Valid() && size > 0 && opcode !in {0x36, 0x22, 0x3F}
      modifies Footprint()
      ensures Valid() && Contents() == P.RingState(host, old(Contents()), opcode, length, base, size, at, available)
    {
      hide P.RingLoad, P.RingStores, P.LoadConstants, P.ModifyRegister, P.LoadPointerShader, P.WriteEvent;
      hide P.RingSetConstant;
      match opcode {
        case 0x2D | 0x55 | 0x56 =>
          RingSetConstant(opcode, length, base, size, at, available);
        case 0x2F =>
          if length >= 4 && 3 < available {
            LoadConstants(P.RingLoad(memory, base, size, at, 1), P.RingLoad(memory, base, size, at, 2),
                          P.RingLoad(memory, base, size, at, 3));
          }
        case 0x21 =>
          if length >= 4 && 3 < available {
            ModifyRegister(P.RingLoad(memory, base, size, at, 1), P.RingLoad(memory, base, size, at, 2),
                           P.RingLoad(memory, base, size, at, 3));
          }
        case 0x3D =>
          if length >= 3 && 2 < available {
            RingStores(P.RingLoad(memory, base, size, at, 1), base, size, at, 2, length - 2);
          }
        case 0x27 =>
          if length >= 3 && 2 < available {
            LoadPointerShader(P.RingLoad(memory, base, size, at, 1), P.RingLoad(memory, base, size, at, 2));
          }
        case 0x46 =>
          if length >= 2 && 1 < available {
            interrupt := true;
          }
        case 0x58 | 0x59 =>
          if length >= 4 && 3 < available {
            WriteEvent(P.RingLoad(memory, base, size, at, 1), P.RingLoad(memory, base, size, at, 2),
                       P.RingLoad(memory, base, size, at, 3));
            interrupt := true;
          }
        case 0x64 =>
          swaps := swaps + 1;
          if length >= 5 && 4 < available {
            frames := frames + 1;
          }
        case _ =>
      }
    }

    method RingPacket(header: int, base: int, size: int, at: int, available: int)
      requires Valid() && size > 0
      modifies Footprint()
      ensures Valid() && Contents() == P.RingPacket(host, old(Contents()), header, base, size, at, available)
    {
      hide P.RingWrites, P.Tally, P.RingState, P.RingDrawAuto, P.RingDrawIndexed, P.RingLoad, P.ProcessBuffer;
      hide P.TypeOf, P.LengthOf, P.OpcodeOf;
      var length := P.LengthOf(header);
      if P.TypeOf(header) == 0 {
        Tally(header);
        RingWrites(header % 0x8000, if header / 0x8000 % 2 == 1 then 0 else 1, base, size, at, 1, length - 1);
      } else if P.TypeOf(header) == 3 {
        Tally(header);
        var opcode := P.OpcodeOf(header);
        if opcode == 0x3F {
          if length >= 3 && 2 < available {
            ProcessBuffer(PhysicalToGuest(P.RingLoad(memory, base, size, at, 1)),
                          P.RingLoad(memory, base, size, at, 2) % 0x10_0000, 1);
          }
        } else if opcode == 0x36 {
          RingDrawAuto(length, base, size, at, available);
        } else if opcode == 0x22 {
          RingDrawIndexed(length, base, size, at, available);
        } else {
          RingState(opcode, length, base, size, at, available);
        }
      }
    }
  }

  class CommandProcessor {
    const gpu: GpuState
    const mmio: array<int>
    var mmioWrites: int
    var base: int
    var size: int
    var at: int
    var writePointer: int
    var writeback: int

    ghost function Footprint(): set<object> {
      {this, mmio} + gpu.Footprint()
    }

    ghost function Contents(): D.State
      reads Footprint()
    {
      D.State(gpu.Contents(), mmio[..], mmioWrites, base, size, at, writePointer, writeback)
    }

    ghost predicate Valid()
      reads Footprint()
    {
      gpu.Valid() && mmio !in gpu.Footprint() && this !in gpu.Footprint() && Contents().Valid()
    }

    constructor (host: P.Host)
      ensures Valid() && fresh(Footprint()) && gpu.host == host
      ensures Contents() == D.State(D.CLEAR_GPU, seq(D.MMIO_REGISTERS, _ => 0), 0, 0, 0, 0, 0, 0)
    {
      gpu := new GpuState(host);
      mmio := new int[D.MMIO_REGISTERS](_ => 0);
      mmioWrites, base, size, at, writePointer, writeback := 0, 0, 0, 0, 0, 0;
      new;
      assert mmio[..] == seq(D.MMIO_REGISTERS, _ => 0);
    }

    method InitializeRingBuffer(address: Word, sizeLog2: Word)
      requires Valid()
      modifies this
      ensures Valid() && Contents() == D.InitializeRingBuffer(old(Contents()), address, sizeLog2)
    {
      hide D.SizeFor;
      base := address;
      size := D.SizeFor(sizeLog2);
      at, writePointer := 0, 0;
    }

    /** The loop of ProcessRing. */
    method Drain(target: int)
      requires Valid() && size > 0
      modifies gpu.Footprint(), `at
      ensures gpu.Valid()
      ensures P.Consumed(gpu.Contents(), at)
           == P.RingRun(gpu.host, old(gpu.Contents()), base, size, old(at), target, D.Available(target, size, old(at)))
    {
      hide P.RingPacket, P.RingLoad, P.LengthOf, D.RingSize, D.Available;
      var available := D.Available(target, size, at);
      while at != target && available > 0
        invariant gpu.Valid()
        invariant P.RingRun(gpu.host, gpu.Contents(), base, size, at, target, available)
               == P.RingRun(gpu.host, old(gpu.Contents()), base, size, old(at), target,
                            D.Available(target, size, old(at)))
        decreases available
      {
        var header := P.RingLoad(gpu.memory, base, size, at, 0);
        var length := P.LengthOf(header);
        gpu.RingPacket(header, base, size, at, available);
        if length > available {
          break;
        }
        gpu.packets := gpu.packets + 1;
        at := (at + length) % size;
        available := available - length;
      }
    }

    method ProcessRing()
      requires Valid()
      modifies gpu.Footprint(), `at
      ensures Valid() && Contents() == D.ProcessRing(gpu.host, old(Contents()))
    {
      hide P.RingRun, D.RingSize, D.Available, StoreBE;
      if base == 0 || size == 0 {
        return;
      }
      D.RingSizeBounded(size);
      var target := writePointer % size;
      D.RunKeepsPointer(gpu.host, gpu.Contents(), base, size, at, target, D.Available(target, size, at));
      Drain(target);
      if writeback != 0 {
        gpu.memory := StoreBE(gpu.memory, writeback, at);
      }
    }

    /** A write to the write pointer does to the GPU what decoding a buffer with the same packets would have. */
    method Write(address: Word, value: int, width: int)
      requires Valid()
      modifies Footprint()
      ensures Valid() && Contents() == D.Write(gpu.host, old(Contents()), address, value, width)
      ensures forall buffer: int, kept: Region |
        && address == D.MMIO_BASE + 4 * D.CP_RB_WPTR && width == 4
        && D.BufferOfStream(gpu.host, old(Contents()), Wrap(value), buffer, kept) ::
        gpu.Contents() == D.WriteBack(
          P.ProcessBuffer(gpu.host, old(gpu.Contents()), buffer, Distance(Wrap(value) % size, old(at), size), 0),
            writeback, at)
    {
      ghost var before := Contents();
      WriteRegister(address, value, width);
      forall buffer: int, kept: Region |
        && address == D.MMIO_BASE + 4 * D.CP_RB_WPTR && width == 4
        && D.BufferOfStream(gpu.host, before, Wrap(value), buffer, kept)
        ensures gpu.Contents() == D.WriteBack(
          P.ProcessBuffer(gpu.host, before.gpu, buffer, Distance(Wrap(value) % size, before.at, size), 0), writeback,
            at)
      {
        hide D.Write, D.Doorbell, D.WriteBack, P.ProcessBuffer, Distance;
        D.DoorbellByWrite(gpu.host, before, value);
        D.DoorbellOfStream(gpu.host, before, Wrap(value), buffer, kept);
      }
    }

    method WriteRegister(address: Word, value: int, width: int)
      requires Valid()
      modifies Footprint()
      ensures Valid() && Contents() == D.Write(gpu.host, old(Contents()), address, value, width)
    {
      hide D.ProcessRing, D.SizeFor, D.RingSize;
      mmioWrites := mmioWrites + 1;
      if address < D.MMIO_BASE || address >= D.MMIO_BASE + D.MMIO_SIZE || width != 4 {
        return;
      }
      var index := (address - D.MMIO_BASE) / 4;
      if index >= D.MMIO_REGISTERS {
        return;
      }
      var word := Wrap(value);
      mmio[index] := word;
      if index == D.CP_RB_BASE {
        base := word;
      } else if index == D.CP_RB_CNTL {
        size := D.SizeFor(word % 0x40);
      } else if index == D.CP_RB_RPTR_ADDR {
        writeback := PhysicalToGuest(WordAligned(word % 0x4000_0000));
      } else if index == D.CP_RB_WPTR {
        writePointer := word;
        ProcessRing();
      }
    }
  }
}
