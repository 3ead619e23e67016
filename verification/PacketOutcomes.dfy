/**
 What each packet leaves behind, said in numbers from its header on; and what whole streams of
 packets do, packet by packet.
 */
module PacketOutcomes {
  import opened Words
  import opened Bits
  import opened GuestMemory
  import opened FetchBanks
  import opened Pm4
  import opened RingStream
  import opened Packets
  import opened PacketMeaning
  import Arithmetic
  import Doorbells

  // ---- Registers ----

  /** Register writes outside the fetch window put each word into its own register and touch nothing else. */
  lemma {:induction false} WriteFromFills(g: Gpu, index: int, words: seq<int>)
    requires g.Valid() && 0 <= index && (index + |words| <= 0x4800 || 0x48C0 <= index)
    ensures OnlyFilled(g, WriteFrom(g, index, 1, words), index, words)
    decreases |words|
  {
    hide SetRegister, Filled;
    if words == [] {
      NothingFilled(g.banks.registers, index);
    } else {
      var u := SetRegister(g, index, words[0]);
      PlainWrite(g, index, words[0]);
      WriteFromFills(u, index + 1, words[1..]);
      FilledThen(g.banks.registers, u.banks.registers, WriteFrom(u, index + 1, 1, words[1..]).banks.registers, index,
                 words[0], words[1..]);
      assert [words[0]] + words[1..] == words;
    }
  }

  ghost predicate OnlyFilled(g: Gpu, t: Gpu, index: int, words: seq<int>) {
    && t == g.(banks := g.banks.(registers := t.banks.registers))
    && Filled(g.banks.registers, t.banks.registers, index, words)
  }

  /** Writes that all go to one register outside the window leave the last word there. */
  lemma {:induction false} WriteFromOne(g: Gpu, index: int, words: seq<int>)
    requires g.Valid() && 0 <= index && (index < 0x4800 || 0x48C0 <= index) && words != []
    ensures OnlyFilled(g, WriteFrom(g, index, 0, words), index, [words[|words| - 1]])
    decreases |words|
  {
    var u := SetRegister(g, index, words[0]);
    PlainWrite(g, index, words[0]);
    assert WriteFrom(g, index, 0, words) == WriteFrom(u, index, 0, words[1..]);
    if |words| == 1 {
      assert words[1..] == [];
    } else {
      WriteFromOne(u, index, words[1..]);
    }
  }

  /** 0x55 and 0x56 name the first register outright. */
  lemma SetsRegisters(host: Host, g: Gpu, source: Source, opcode: int, n: int, d: seq<int>)
    requires g.Valid() && source.Valid() && 0 <= n && |d| == n + 2 <= source.Left() && source.Holds(g.memory, d)
    requires opcode in {0x55, 0x56} && IsType3(d[0], opcode, n)
    requires d[1] % 0x1_0000 + n <= 0x4800 || 0x48C0 <= d[1] % 0x1_0000
    ensures OnlyFilled(Counted3(g, opcode), Decode(host, g, source, d[0]), d[1] % 0x1_0000, d[2..])
  {
    Type3Means(host, g, source, opcode, n, d);
    hide Source.Holds, Decode, OnlyFilled, Counted3, WriteFrom;
    WriteFromFills(Counted3(g, opcode), d[1] % 0x1_0000, d[2..]);
  }

  /** 0x2D names a bank and a register in it; an unknown bank is passed over. */
  lemma SetsConstants(host: Host, g: Gpu, source: Source, n: int, d: seq<int>)
    requires g.Valid() && source.Valid() && 0 <= n && |d| == n + 2 <= source.Left() && source.Holds(g.memory, d)
    requires IsType3(d[0], 0x2D, n)
    ensures ConstantsFilled(Counted3(g, 0x2D), Decode(host, g, source, d[0]), d[1], d[2..])
  {
    Type3Means(host, g, source, 0x2D, n, d);
    hide Source.Holds, Decode, Counted3, OnlyFilled, TypedRegister;
    NamedFills(Counted3(g, 0x2D), d[1], d[2..]);
  }

  ghost predicate ConstantsFilled(g: Gpu, t: Gpu, word: int, words: seq<int>) {
    var (bank, low) := (word / 0x1_0000 % 0x100, word % 0x800);
    && (bank == 0 && low + |words| <= 0x800 ==> OnlyFilled(g, t, 0x4000 + low, words))
    && (bank == 1 && 0xC0 <= low ==> OnlyFilled(g, t, 0x4800 + low, words))
    && (bank == 2 ==> OnlyFilled(g, t, 0x4900 + low, words))
    && (bank == 3 ==> OnlyFilled(g, t, 0x4908 + low, words))
    && (bank == 4 && low + |words| <= 0x2800 ==> OnlyFilled(g, t, 0x2000 + low, words))
    && (bank > 4 ==> t == g)
  }

  lemma NamedFills(g: Gpu, word: int, words: seq<int>)
    requires g.Valid()
    ensures ConstantsFilled(g, WriteNamed(g, TypedRegister(word), words), word, words)
  {
    hide OnlyFilled, WriteFrom;
    var index := TypedRegister(word);
    if index.Some? && (index.value + |words| <= 0x4800 || 0x48C0 <= index.value) {
      WriteFromFills(g, index.value, words);
    }
  }

  /** A packet whose words are the words of labelled uploads. */
  ghost predicate CarriesWords(index: int, words: seq<int>, run: seq<Access>) {
    && |run| == |words|
    && forall i | 0 <= i < |run| :: run[i].Index() == index + i && run[i].value == words[i]
  }

  lemma {:induction false} WriteFromCarried(g: Gpu, index: int, words: seq<int>, run: seq<Access>)
    requires g.Valid() && 0 <= index && CarriesWords(index, words, run)
    ensures forall a | a in run :: 0 <= a.Index()
    ensures WriteFrom(g, index, 1, words) == g.(banks := WriteAll(g.banks, run))
    decreases |run|
  {
    hide Write;
    if run != [] {
      assert run[0].Index() == index && run[0].value == words[0];
      forall i | 0 <= i < |run| - 1
        ensures run[1..][i].Index() == index + 1 + i && run[1..][i].value == words[1..][i]
      {
        assert run[1..][i] == run[i + 1];
      }
      WriteFromCarried(SetRegister(g, index, words[0]), index + 1, words[1..], run[1..]);
    }
  }

  lemma ConstantsNamed(host: Host, g: Gpu, n: int, d: seq<int>, depth: int)
    requires g.Valid() && |d| == n + 2 >= 2 && 0 <= depth <= 8 && d[1] / 0x1_0000 % 0x100 == 1
    ensures Effect(host, g, 0x2D, n + 2, d, depth) == WriteFrom(g, 0x4800 + d[1] % 0x800, 1, d[2..])
  {
    hide WriteFrom;
  }

  /** Complete fetch constants in a packet for bank 1 leave each bank as if it were written alone. */
  lemma SetsFetchConstants(host: Host, g: Gpu, source: Source, n: int, d: seq<int>, run: seq<Access>)
    requires g.Valid() && source.Valid() && 0 <= n && |d| == n + 2 <= source.Left() && source.Holds(g.memory, d)
    requires IsType3(d[0], 0x2D, n) && d[1] / 0x1_0000 % 0x100 == 1
    requires CarriesWords(0x4800 + d[1] % 0x800, d[2..], run)
    requires CompleteUploads(Between, run) && !Collides(g.banks.pendingTexture, run)
    ensures var t := Decode(host, g, source, d[0]);
      && t == Counted3(g, 0x2D).(banks := t.banks)
      && t.banks.registers == RegistersAlone(g.banks.registers, run)
      && t.banks.vertex == VertexAlone(g.banks.vertex, run)
  {
    hide Source.Holds, Decode, CarriesWords, CompleteUploads, Collides, WriteAll, WriteFrom, RegistersAlone;
    hide VertexAlone;
    hide Effect, IsType3;
    Type3Means(host, g, source, 0x2D, n, d);
    var u := Counted3(g, 0x2D);
    ConstantsNamed(host, u, n, d, source.Depth());
    WriteFromCarried(u, 0x4800 + d[1] % 0x800, d[2..], run);
    BanksIndependent(u.banks, run);
  }

  /** No bank is so high that a packet could load beyond the last register. */
  lemma RegistersReach(word: int, n: int)
    requires 0 <= n < 0x1000
    ensures TypedRegister(word).Some? ==> TypedRegister(word).value + n < 0x8000
    ensures TypedRegister(word).None? <==> word / 0x1_0000 % 0x100 > 4
  {
  }

  /** 0x2F takes its constants from memory. */
  lemma LoadsConstants(host: Host, g: Gpu, source: Source, n: int, d: seq<int>)
    requires g.Valid() && source.Valid() && 2 <= n && |d| == Min(n + 2, source.Left()) && source.Holds(g.memory, d)
    requires 4 <= |d| && IsType3(d[0], 0x2F, n)
    ensures var words := WordsAt(g.memory, 0x6000_0000 + d[1] % 0x2000_0000, d[3] % 0x1000);
      ConstantsFilled(Counted3(g, 0x2F), Decode(host, g, source, d[0]), d[2], words)
  {
    Type3Means(host, g, source, 0x2F, n, d);
    RegistersReach(d[2], d[3] % 0x1000);
    hide Source.Holds, Decode, Counted3, OnlyFilled, TypedRegister, ConstantsFilled, WordsAt, WriteFrom;
    NamedFills(Counted3(g, 0x2F), d[2], WordsAt(g.memory, 0x6000_0000 + d[1] % 0x2000_0000, d[3] % 0x1000));
  }

  /** 0x21 keeps the bits of its register that the mask has, and adds those of its second operand. */
  lemma ModifiesRegister(host: Host, g: Gpu, source: Source, n: int, d: seq<int>)
    requires g.Valid() && source.Valid() && 2 <= n && |d| == Min(n + 2, source.Left()) && source.Holds(g.memory, d)
    requires 4 <= |d| && IsType3(d[0], 0x21, n) && WordRegisters(g.banks.registers)
    ensures var t := Decode(host, g, source, d[0]);
      var before, at := g.banks.registers, d[1] % 0x2000;
      && |t.banks.registers| == REGISTERS && OnlyFilled(Counted3(g, 0x21), t, at, [t.banks.registers[at]])
      && forall k: nat :: Bit(t.banks.registers[at], k) ==
           ((Bit(before[at], k) && Bit(if Bit(d[1], 31) then before[d[2] % 0x2000] else d[2], k))
             || Bit(if Bit(d[1], 30) then before[d[3] % 0x2000] else d[3], k))
  {
    Type3Means(host, g, source, 0x21, n, d);
    var u := Counted3(g, 0x21);
    assert d[2] == LoadBE(g.memory, source.Place(2)) && d[3] == LoadBE(g.memory, source.Place(3));
    hide Source.Holds, Decode, Modified, Bit, LoadBE;
    var value := Modified(u.banks.registers, d[1], d[2], d[3]);
    PlainWrite(u, d[1] % 0x2000, value);
    forall k: nat
      ensures Bit(value, k) ==
        ((Bit(g.banks.registers[d[1] % 0x2000], k)
           && Bit(if Bit(d[1], 31) then g.banks.registers[d[2] % 0x2000] else d[2], k))
          || Bit(if Bit(d[1], 30) then g.banks.registers[d[3] % 0x2000] else d[3], k))
    {
      ModifiesBits(g.banks.registers, d[1], d[2], d[3], k);
    }
  }

  /** A packet of type 0 without 0x8000 goes to consecutive registers. */
  lemma RunsToRegisters(host: Host, g: Gpu, source: Source, register: int, n: int, d: seq<int>)
    requires g.Valid() && source.Valid() && 0 <= n && |d| == n + 2 && source.Holds(g.memory, d)
    requires IsType0(d[0], register, false, n) && (register + n + 1 <= 0x4800 || 0x48C0 <= register)
    ensures OnlyFilled(g.(type0 := g.type0 + 1), Decode(host, g, source, d[0]), register, d[1..])
  {
    Type0Means(host, g, source, register, false, n, d);
    hide Source.Holds, Decode, OnlyFilled, WriteFrom;
    WriteFromFills(g.(type0 := g.type0 + 1), register, d[1..]);
  }

  /** With 0x8000, every operand goes to the one register. */
  lemma RunsToRegister(host: Host, g: Gpu, source: Source, register: int, n: int, d: seq<int>)
    requires g.Valid() && source.Valid() && 0 <= n && |d| == n + 2 && source.Holds(g.memory, d)
    requires IsType0(d[0], register, true, n) && (register < 0x4800 || 0x48C0 <= register)
    ensures OnlyFilled(g.(type0 := g.type0 + 1), Decode(host, g, source, d[0]), register, [d[n + 1]])
  {
    Type0Means(host, g, source, register, true, n, d);
    hide Source.Holds, Decode, OnlyFilled, WriteFrom;
    WriteFromOne(g.(type0 := g.type0 + 1), register, d[1..]);
  }

  // ---- Memory ----

  /** Where the word at index `i` of a store packet goes. */
  function Target(address: int, i: int): int {
    0x6000_0000 + (address - address % 4 + 4 * i) % 0x2000_0000
  }

  predicate Apart(a: int, b: int) {
    a + 4 <= b || b + 4 <= a
  }

  lemma TargetOn(address: int, i: int)
    ensures Target((address + 4) % 0x1_0000_0000, i) == Target(address, i + 1)
    ensures (address + 4) % 0x1_0000_0000 % 4 == address % 4
  {
    var (q, r) := ((address + 4) / 0x1_0000_0000, (address + 4) % 0x1_0000_0000);
    assert address + 4 == 0x1_0000_0000 * q + r;
    assert address - address % 4 + 4 * (i + 1) == r - r % 4 + 4 * i + 0x2000_0000 * (8 * q);
    Arithmetic.ModShift(r - r % 4 + 4 * i, 8 * q, 0x2000_0000);
  }

  lemma TargetsApart(address: int, i: int, j: int)
    requires 0 <= i < j < 0x4000
    ensures Apart(Target(address, i), Target(address, j))
  {
    var a := address - address % 4;
    var (x, y) := ((a + 4 * i) % 0x2000_0000, (a + 4 * j) % 0x2000_0000);
    var (q, p) := ((a + 4 * i) / 0x2000_0000, (a + 4 * j) / 0x2000_0000);
    assert y - x == 4 * (j - i) - 0x2000_0000 * (p - q);
    assert (y - x) % 4 == 0;
  }

  lemma TargetFirst(m: Memory, address: int, word: int)
    ensures Stored(m, address, word) == StoreBE(m, Target(address, 0), Swap32(word, address))
  {
  }

  /** Whether a place shares no byte with the targets of `n` words. */
  ghost predicate Elsewhere(a: int, address: int, n: int) {
    forall i | 0 <= i < n :: Apart(a, Target(address, i))
  }

  lemma ElsewhereOn(a: int, address: int, n: int)
    requires n > 0 && Elsewhere(a, address, n)
    ensures Apart(a, Target(address, 0)) && Elsewhere(a, (address + 4) % 0x1_0000_0000, n - 1)
  {
    hide Apart, Target;
    var next := (address + 4) % 0x1_0000_0000;
    forall i | 0 <= i < n - 1 ensures Apart(a, Target(next, i)) { TargetOn(address, i); }
  }

  /** Words that share no byte with the targets stay as they were. */
  lemma {:induction false} StoreFromKeeps(m: Memory, address: int, words: seq<int>, a: int)
    requires Elsewhere(a, address, |words|)
    ensures LoadBE(StoreFrom(m, address, words), a) == LoadBE(m, a)
    decreases |words|
  {
    hide LoadBE, StoreBE, Swap32, Target, Elsewhere, Stored;
    if words != [] {
      var (u, next) := (Stored(m, address, words[0]), (address + 4) % 0x1_0000_0000);
      ElsewhereOn(a, address, |words|);
      TargetFirst(m, address, words[0]);
      LoadApartFromStore(m, Target(address, 0), Swap32(words[0], address), a);
      StoreFromKeeps(u, next, words[1..], a);
    }
  }

  /** A stored word is read back in the endian mode of the packet. */
  lemma {:induction false} StoreFromReads(m: Memory, address: int, words: seq<int>, i: int)
    requires 0 <= i < |words| <= 0x4000 && 0 <= words[i] < 0x1_0000_0000
    ensures LoadBE(StoreFrom(m, address, words), Target(address, i)) == Swap32(words[i], address)
    decreases |words|
  {
    hide LoadBE, StoreBE, Swap32, Target, Stored, Apart;
    var (u, next) := (Stored(m, address, words[0]), (address + 4) % 0x1_0000_0000);
    if i == 0 {
      TargetFirst(m, address, words[0]);
      SwapTwice(words[0], address);
      LoadAfterStore(m, Target(address, 0), Swap32(words[0], address));
      forall j | 0 <= j < |words| - 1 ensures Apart(Target(address, 0), Target(next, j)) {
        TargetOn(address, j);
        TargetsApart(address, 0, j + 1);
      }
      StoreFromKeeps(u, next, words[1..], Target(address, 0));
    } else {
      TargetOn(address, i - 1);
      SwapSame(words[i], next, address);
      StoreFromReads(u, next, words[1..], i - 1);
    }
  }

  lemma SwapSame(word: int, endian: int, other: int)
    requires endian % 4 == other % 4
    ensures Swap32(word, endian) == Swap32(word, other)
  {
  }

  /** A packet whose own dwords share no byte with what it stores is read unharmed. */
  lemma {:induction false} SparedApart(m: Memory, source: Source, d: seq<int>, address: int, k: nat)
    requires source.Valid() && k <= |d| && source.Holds(m, d)
    requires forall j | 0 <= j < |d| :: Elsewhere(source.Place(j), address, |d| - k)
    ensures Spared(m, source, d, address, k)
    decreases |d| - k
  {
    hide LoadBE, StoreBE, Swap32, Target, Stored, Apart, Source.Place, Elsewhere;
    if k < |d| {
      var u := Stored(m, address, d[k]);
      forall j | 0 <= j < |d|
        ensures LoadBE(u, source.Place(j)) == LoadBE(m, source.Place(j))
        ensures Elsewhere(source.Place(j), (address + 4) % 0x1_0000_0000, |d| - k - 1)
      {
        ElsewhereOn(source.Place(j), address, |d| - k);
        TargetFirst(m, address, d[k]);
        ApartStore(m, Target(address, 0), Swap32(d[k], address), source.Place(j));
      }
      assert source.Holds(u, d);
      SparedApart(u, source, d, (address + 4) % 0x1_0000_0000, k + 1);
    }
  }

  lemma ApartStore(m: Memory, place: int, value: int, other: int)
    requires Apart(other, place)
    ensures LoadBE(StoreBE(m, place, value), other) == LoadBE(m, other)
  {
    LoadApartFromStore(m, place, value, other);
  }

  /** 0x3D stores its words from its address on, each in the address's endian mode, and changes nothing else. */
  lemma StoresWords(host: Host, g: Gpu, source: Source, n: int, d: seq<int>)
    requires g.Valid() && source.Valid() && 1 <= n && |d| == n + 2 && 3 <= source.Left() && source.Holds(g.memory, d)
    requires IsType3(d[0], 0x3D, n) && forall j | 0 <= j < |d| :: Elsewhere(source.Place(j), d[1], n)
    ensures var t := Decode(host, g, source, d[0]);
      && t == Counted3(g, 0x3D).(memory := t.memory)
      && (forall i | 0 <= i < n :: LoadBE(t.memory, Target(d[1], i)) == Swap32(d[2 + i], d[1]))
      && (forall a | Elsewhere(a, d[1], n) :: LoadBE(t.memory, a) == LoadBE(g.memory, a))
  {
    hide LoadBE, Target, Elsewhere, Swap32, StoreFrom, Decode, Spared, IsType3, Source.Place;
    SparedApart(g.memory, source, d, d[1], 2);
    StoresMean(host, g, source, n, d);
    var words := d[2..];
    forall i | 0 <= i < n ensures LoadBE(StoreFrom(g.memory, d[1], words), Target(d[1], i)) == Swap32(d[2 + i], d[1]) {
      assert d[2 + i] == LoadBE(g.memory, source.Place(2 + i));
      assert words[i] == d[2 + i];
      Small(n, d[0]);
      StoreFromReads(g.memory, d[1], words, i);
    }
    forall a | Elsewhere(a, d[1], n) ensures LoadBE(StoreFrom(g.memory, d[1], words), a) == LoadBE(g.memory, a) {
      StoreFromKeeps(g.memory, d[1], words, a);
    }
  }

  lemma Small(n: int, header: int)
    requires IsType3(header, 0x3D, n)
    ensures n < 0x4000
  {
  }

  lemma NothingStored(host: Host, g: Gpu, header: int, source: Source)
    requires g.Valid() && source.Valid() && OpcodeOf(header) == 0x3D && (LengthOf(header) == 2 || source.Left() < 3)
    ensures source.InBuffer? ==>
      BufferType3(host, g, header, source.address, source.offset, source.count, source.depth) == g
    ensures source.InRing? ==> RingType3(host, g, header, source.base, source.size, source.at, source.available) == g
  {
    hide OpcodeOf, LengthOf;
  }

  /** A memory write without words, or cut off before its first, stores nothing. */
  lemma StoresNothing(host: Host, g: Gpu, source: Source, n: int, header: int)
    requires g.Valid() && source.Valid() && IsType3(header, 0x3D, n) && (n == 0 || source.Left() < 3)
    ensures Decode(host, g, source, header) == Counted3(g, 0x3D)
  {
    FieldsOfType3(header, 0x3D, n);
    var t := Counted3(g, 0x3D);
    assert Tally(g, header) == t;
    hide TypeOf, LengthOf, OpcodeOf, IsType3, Tally, Counted3, BufferType3, RingType3;
    NothingStored(host, t, header, source);
  }

  // ---- Shaders ----

  /** A vertex fetch of the microcode: the constant it names, its stride, and whether it is a full one. */
  datatype Fetch = Fetch(constant: int, stride: int, full: bool)

  /** The instruction at index `i`, if it is a vertex fetch that counts. */
  function FetchAt(m: Memory, code: int, i: int): Option<Fetch> {
    var word0 := LoadBE(m, (code + 12 * i) % 0x1_0000_0000);
    var word1 := LoadBE(m, (code + 12 * i + 4) % 0x1_0000_0000);
    var word2 := LoadBE(m, (code + 12 * i + 8) % 0x1_0000_0000);
    var constant := 3 * (word0 / 0x10_0000 % 0x20) + word0 / 0x200_0000 % 4;
    if word0 % 0x20 == 0 && constant < 96 && word2 % 0x100 != 0 then
      Some(Fetch(constant, word2 % 0x100, word1 / 0x4000_0000 % 2 == 0))
    else None
  }

  predicate Names(m: Memory, code: int, i: int, constant: int) {
    var fetch := FetchAt(m, code, i);
    fetch.Some? && fetch.value.constant == constant
  }

  predicate Fully(m: Memory, code: int, i: int) {
    var fetch := FetchAt(m, code, i);
    fetch.Some? && fetch.value.full
  }

  ghost predicate NoneNames(m: Memory, code: int, start: int, end: int, constant: int) {
    forall i | start <= i < end :: !Names(m, code, i, constant)
  }

  ghost predicate NoneFull(m: Memory, code: int, start: int, end: int) {
    forall i | start <= i < end :: !Fully(m, code, i)
  }

  /** Over these instructions, the last one to name a constant decides its stride, and the last full one is active. */
  ghost predicate Scanned(f: Fetches, t: Fetches, m: Memory, code: int, start: int, end: int) {
    && |t.strides| == |f.strides| == 96
    && (forall c | 0 <= c < 96 && NoneNames(m, code, start, end, c) :: t.strides[c] == f.strides[c])
    && (forall j, c | start <= j < end && 0 <= c < 96 && Names(m, code, j, c) && NoneNames(m, code, j + 1, end, c) ::
          t.strides[c] == FetchAt(m, code, j).value.stride)
    && (NoneFull(m, code, start, end) ==> t.active == f.active)
    && (forall j | start <= j < end && Fully(m, code, j) && NoneFull(m, code, j + 1, end) ::
          t.active == FetchAt(m, code, j).value.constant)
  }

  lemma FetchMeans(f: Fetches, m: Memory, code: int, i: int)
    requires FetchesValid(f)
    ensures var k := 3 * i;
      var fetch := FetchAt(m, code, i);
      var t := RememberFetch(f, LoadBE(m, Wrap(code + 4 * k)), LoadBE(m, Wrap(code + 4 * k + 4)),
                             LoadBE(m, Wrap(code + 4 * k + 8)));
      if fetch.None? then t == f
      else
        && 0 <= fetch.value.constant < 96
        && t == Fetches(f.strides[fetch.value.constant := fetch.value.stride],
                        if fetch.value.full then fetch.value.constant else f.active)
  {
    hide LoadBE;
  }

  lemma ScannedThen(f: Fetches, u: Fetches, t: Fetches, m: Memory, code: int, start: int, end: int)
    requires start < end && Scanned(u, t, m, code, start + 1, end) && |f.strides| == 96
    requires var fetch := FetchAt(m, code, start);
      if fetch.None? then u == f
      else
        && 0 <= fetch.value.constant < 96
        && u == Fetches(f.strides[fetch.value.constant := fetch.value.stride],
                        if fetch.value.full then fetch.value.constant else f.active)
    ensures Scanned(f, t, m, code, start, end)
  {
    hide FetchAt;
    forall c | 0 <= c < 96 && NoneNames(m, code, start, end, c) ensures t.strides[c] == f.strides[c] {
      assert !Names(m, code, start, c);
      assert NoneNames(m, code, start + 1, end, c);
    }
    forall j, c | start <= j < end && 0 <= c < 96 && Names(m, code, j, c) && NoneNames(m, code, j + 1, end, c)
      ensures t.strides[c] == FetchAt(m, code, j).value.stride
    {
    }
    if NoneFull(m, code, start, end) {
      assert !Fully(m, code, start);
      assert NoneFull(m, code, start + 1, end);
    }
  }

  lemma {:induction false} StridesScanned(f: Fetches, m: Memory, code: int, i: int, count: int)
    requires FetchesValid(f) && 0 <= i && 3 * i <= count + 2
    ensures Scanned(f, RememberStrides(f, m, code, 3 * i, count), m, code, i, count / 3)
    decreases count - 3 * i
  {
    hide RememberFetch, LoadBE, Scanned, FetchAt;
    if 3 * i + 2 < count {
      FetchMeans(f, m, code, i);
      var k := 3 * i;
      var u := RememberFetch(f, LoadBE(m, Wrap(code + 4 * k)), LoadBE(m, Wrap(code + 4 * k + 4)),
                             LoadBE(m, Wrap(code + 4 * k + 8)));
      StridesScanned(u, m, code, i + 1, count);
      ScannedThen(f, u, RememberStrides(u, m, code, 3 * (i + 1), count), m, code, i, count / 3);
    } else {
      NothingScanned(f, m, code, i, count / 3);
    }
  }

  lemma NothingScanned(f: Fetches, m: Memory, code: int, start: int, end: int)
    requires start >= end && |f.strides| == 96
    ensures Scanned(f, f, m, code, start, end)
  {
  }

  /** A vertex shader is remembered with the strides of its first 1024 dwords, a pixel shader without; no other is. */
  ghost predicate ShaderUsed(host: Host, g: Gpu, t: Gpu, kind: int, code: int, n: nat) {
    var shader := Shader(host.hash(seq(4 * n, i => ByteAt(g.memory, code + i))), n);
    if kind == 0 then
      t == g.(vertexShader := shader, fetches := t.fetches) &&
      Scanned(g.fetches, t.fetches, g.memory, code, 0, Min(n, 1024) / 3)
    else if kind == 1 then t == g.(pixelShader := shader)
    else t == g
  }

  lemma {:induction false} BytesInOrder(m: Memory, from: int, n: nat)
    ensures BytesOf(m, from, from + n) == seq(n, i => ByteAt(m, from + i))
    decreases n
  {
    hide ByteAt;
    if n > 0 { BytesInOrder(m, from, n - 1); }
  }

  lemma UseShaderMeans(host: Host, g: Gpu, kind: int, code: int, n: nat)
    requires g.Valid()
    ensures ShaderUsed(host, g, UseShader(host, g, kind, code, n), kind, code, n)
  {
    hide RememberStrides, Scanned, BytesOf;
    BytesInOrder(g.memory, code, 4 * n);
    StridesScanned(g.fetches, g.memory, code, 0, Min(n, 1024));
  }

  /** 0x27 uses a shader in memory; the low bits of its address are its kind. */
  lemma LoadsShader(host: Host, g: Gpu, source: Source, n: int, d: seq<int>)
    requires g.Valid() && source.Valid() && 1 <= n && |d| == Min(n + 2, source.Left()) && source.Holds(g.memory, d)
    requires 3 <= |d| && IsType3(d[0], 0x27, n)
    ensures var t := Decode(host, g, source, d[0]);
      if 0 < d[2] <= 0x4000 then
        ShaderUsed(host, Counted3(g, 0x27), t, d[1] % 4, 0x6000_0000 + (d[1] - d[1] % 4) % 0x2000_0000, d[2])
      else t == Counted3(g, 0x27)
  {
    hide Source.Holds, Decode, Counted3, UseShader, ShaderUsed, IsType3;
    Type3Means(host, g, source, 0x27, n, d);
    if 0 < d[2] <= 0x4000 {
      UseShaderMeans(host, Counted3(g, 0x27), d[1] % 4, 0x6000_0000 + (d[1] - d[1] % 4) % 0x2000_0000, d[2]);
    }
  }

  /** 0x2B uses the shader that follows in the packet - in a buffer; the ring only counts the packet. */
  lemma UsesOwnShader(host: Host, g: Gpu, source: Source, n: int, d: seq<int>)
    requires g.Valid() && source.Valid() && 1 <= n && |d| == Min(n + 2, source.Left()) && source.Holds(g.memory, d)
    requires 3 <= |d| && IsType3(d[0], 0x2B, n)
    ensures var t := Decode(host, g, source, d[0]);
      var size := d[2] % 0x1_0000;
      if source.InBuffer? && 0 < size <= n - 1 then
        ShaderUsed(host, Counted3(g, 0x2B), t, d[1], source.address + 4 * (source.offset + 3), size)
      else t == Counted3(g, 0x2B)
  {
    hide Source.Holds, Decode, Counted3, UseShader, ShaderUsed, IsType3;
    if source.InBuffer? {
      OwnShaderMeans(host, g, source, n, d);
      if 0 < d[2] % 0x1_0000 <= n - 1 {
        UseShaderMeans(host, Counted3(g, 0x2B), d[1], source.address + 4 * (source.offset + 3), d[2] % 0x1_0000);
      }
    } else {
      Type3Means(host, g, source, 0x2B, n, d);
    }
  }

  // ---- Signals ----

  /** 0x46 raises the interrupt. */
  lemma RaisesInterrupt(host: Host, g: Gpu, source: Source, n: int, d: seq<int>)
    requires g.Valid() && source.Valid() && 0 <= n && |d| == Min(n + 2, source.Left()) && source.Holds(g.memory, d)
    requires 2 <= |d| && IsType3(d[0], 0x46, n)
    ensures Decode(host, g, source, d[0]) == Counted3(g, 0x46).(interrupt := true)
  {
    hide Source.Holds, Decode, Counted3, IsType3;
    Type3Means(host, g, source, 0x46, n, d);
  }

  /** 0x64 counts a swap, and a frame if its operands are there. */
  lemma CountsSwap(host: Host, g: Gpu, source: Source, n: int, d: seq<int>)
    requires g.Valid() && source.Valid() && 0 <= n && 1 <= |d| == Min(n + 2, source.Left()) && source.Holds(g.memory, d)
    requires IsType3(d[0], 0x64, n)
    ensures Decode(host, g, source, d[0])
         == Counted3(g, 0x64).(swaps := g.swaps + 1, frames := if |d| < 5 then g.frames else g.frames + 1)
  {
    hide Source.Holds, Decode, IsType3;
    Type3Means(host, g, source, 0x64, n, d);
  }

  /** What an event leaves in memory and in the two cells of the host. */
  ghost predicate EventWritten(g: Gpu, t: Gpu, initiator: int, address: int, value: int) {
    var place := 0x6000_0000 + (address - address % 4) % 0x2000_0000;
    var word := Swap32(if initiator >= 0x8000_0000 then g.frames % 0x1_0000_0000 else value, address);
    var stored := StoreBE(g.memory, place, word);
    && t.memory == (if 0x189F_4000 <= address < 0x189F_5000 then StoreBE(stored, place + 0x1000, word) else stored)
    && t.done4000 == (if 0x189F_4000 <= address < 0x189F_4004 then word else g.done4000)
    && t.done4004 == (if 0x189F_4004 <= address < 0x189F_4008 then word else g.done4004)
    && t == g.(memory := t.memory, done4000 := t.done4000, done4004 := t.done4004, interrupt := true)
  }

  lemma EventMeans(g: Gpu, initiator: int, address: int, value: int)
    requires g.Valid() && 0 <= initiator < 0x1_0000_0000 && 0 <= address < 0x1_0000_0000
    ensures EventWritten(g, WriteEvent(g, initiator, address, value).(interrupt := true), initiator, address, value)
  {
    hide Swap32, StoreBE;
    var physical := address - address % 4;
    assert physical / 0x1000 == 0x189F4 <==> 0x189F_4000 <= address < 0x189F_5000;
  }

  /** What a wait on a memory word reads: two words come from the host's cells, all others from memory. */
  lemma WaitReads(g: Gpu, address: int)
    requires g.Valid() && 0 <= address < 0x1_0000_0000
    ensures LoadEventCompletion(g, address) ==
      Swap32(if 0x189F_5000 <= address < 0x189F_5004 then g.done4000
             else if 0x189F_5004 <= address < 0x189F_5008 then g.done4004
             else LoadBE(g.memory, 0x6000_0000 + (address - address % 4) % 0x2000_0000), address)
  {
    hide Swap32, LoadBE;
  }

  /** 0x58 and 0x59 write a word and raise the interrupt. */
  lemma WritesEvent(host: Host, g: Gpu, source: Source, opcode: int, n: int, d: seq<int>)
    requires g.Valid() && source.Valid() && 2 <= n && |d| == Min(n + 2, source.Left()) && source.Holds(g.memory, d)
    requires 4 <= |d| && opcode in {0x58, 0x59} && IsType3(d[0], opcode, n)
    ensures EventWritten(Counted3(g, opcode), Decode(host, g, source, d[0]), d[1], d[2], d[3])
  {
    assert d[1] == LoadBE(g.memory, source.Place(1)) && d[2] == LoadBE(g.memory, source.Place(2));
    hide Source.Holds, Decode, Counted3, IsType3, EventWritten, WriteEvent, LoadBE;
    Type3Means(host, g, source, opcode, n, d);
    EventMeans(Counted3(g, opcode), d[1], d[2], d[3]);
  }

  // ---- Draws and calls ----

  /** The rasteriser has run on exactly these registers. */
  ghost predicate DrawnOn(host: Host, g: Gpu, t: Gpu, registers: seq<int>) {
    var u := g.(banks := g.banks.(registers := registers));
    t == u.(memory := host.draw(u).memory, screen := host.draw(u).screen, draws := g.draws + 1)
  }

  /** 0x36 draws with its operand as initiator. */
  lemma DrawsAuto(host: Host, g: Gpu, source: Source, n: int, d: seq<int>)
    requires g.Valid() && source.Valid() && 0 <= n && |d| == Min(n + 2, source.Left()) && source.Holds(g.memory, d)
    requires 2 <= |d| && IsType3(d[0], 0x36, n)
    ensures DrawnOn(host, Counted3(g, 0x36), Decode(host, g, source, d[0]), g.banks.registers[0x21FC := d[1]])
  {
    hide Source.Holds, Decode, IsType3;
    Type3Means(host, g, source, 0x36, n, d);
  }

  /** 0x22 draws with its second operand as initiator, and with an index buffer if the initiator reads one. */
  lemma DrawsIndexed(host: Host, g: Gpu, source: Source, n: int, d: seq<int>)
    requires g.Valid() && source.Valid() && 1 <= n && |d| == Min(n + 2, source.Left()) && source.Holds(g.memory, d)
    requires 3 <= |d| && IsType3(d[0], 0x22, n)
    ensures var t := Decode(host, g, source, d[0]);
      var registers := g.banks.registers[0x21FC := d[2]];
      DrawnOn(host, Counted3(g, 0x22), t,
              if |d| >= 5 && d[2] / 64 % 4 == 0 then registers[0x21FD := d[3]][0x21FE := d[4]] else registers)
  {
    hide Source.Holds, Decode, IsType3;
    Type3Means(host, g, source, 0x22, n, d);
  }

  /** 0x3F decodes another buffer, one level deeper. */
  lemma CallsBuffer(host: Host, g: Gpu, source: Source, n: int, d: seq<int>)
    requires g.Valid() && source.Valid() && 1 <= n && |d| == Min(n + 2, source.Left()) && source.Holds(g.memory, d)
    requires 3 <= |d| && IsType3(d[0], 0x3F, n)
    ensures Decode(host, g, source, d[0])
         == ProcessBuffer(host, Counted3(g, 0x3F), 0x6000_0000 + d[1] % 0x2000_0000, d[2] % 0x10_0000,
                          source.Depth() + 1)
  {
    hide Source.Holds, Decode, Counted3, IsType3, ProcessBuffer;
    Type3Means(host, g, source, 0x3F, n, d);
  }

  /** All other packets of type 3 are counted and nothing else. */
  lemma CountsOthers(host: Host, g: Gpu, source: Source, opcode: int, n: int, d: seq<int>)
    requires g.Valid() && source.Valid() && 0 <= n && 1 <= |d| == Min(n + 2, source.Left()) && source.Holds(g.memory, d)
    requires opcode !in {0x21, 0x22, 0x27, 0x2B, 0x2D, 0x2F, 0x36, 0x3D, 0x3F, 0x46, 0x55, 0x56, 0x58, 0x59, 0x64}
    requires IsType3(d[0], opcode, n)
    ensures var t := Decode(host, g, source, d[0]);
      && t == g.(type3 := g.type3 + 1, opcodes := t.opcodes)
      && forall o | 0 <= o < 0x100 ::
           |t.opcodes| == 0x100 && t.opcodes[o] == g.opcodes[o] + if o == opcode then 1 else 0
  {
    hide Source.Holds, Decode, IsType3;
    Type3Means(host, g, source, opcode, n, d);
  }

  // ---- Streams ----

  function Length(header: int): int {
    if header < 0x4000_0000 then header / 0x1_0000 + 2
    else if header < 0xC000_0000 then 1
    else (header - 0xC000_0000) / 0x1_0000 + 2
  }

  predicate Complete(d: seq<int>) {
    |d| >= 1 && 0 <= d[0] < 0x1_0000_0000 && |d| == Length(d[0])
  }

  /** A zero between the packets of a buffer. */
  predicate Padding(source: Source, d: seq<int>) {
    source.InBuffer? && d == [0]
  }

  predicate IsStore(d: seq<int>) {
    |d| >= 3 && OpcodeIn(d[0]) == Some(0x3D)
  }

  function OpcodeIn(header: int): (r: Option<int>)
    ensures r.Some? ==> 0 <= r.value < 0x100
  {
    if header < 0xC000_0000 then None else Some((header - 0xC000_0000) % 0x1_0000 / 0x100)
  }

  /** What a complete packet means. */
  function Meaning(host: Host, g: Gpu, source: Source, d: seq<int>): (r: Gpu)
    requires g.Valid() && source.Valid() && Complete(d)
    ensures r.Valid()
  {
    if d[0] < 0x4000_0000 then
      WriteFrom(g.(type0 := g.type0 + 1), d[0] % 0x8000, if d[0] / 0x8000 % 2 == 1 then 0 else 1, d[1..])
    else if d[0] < 0xC000_0000 then g
    else
      var opcode := OpcodeIn(d[0]).value;
      var t := Counted3(g, opcode);
      if opcode == 0x3D then if |d| < 3 then t else t.(memory := StoreFrom(t.memory, d[1], d[2..]))
      else if opcode == 0x2B && source.InBuffer? then OwnShader(host, t, source, |d|, d)
      else Effect(host, t, opcode, |d|, d, source.Depth())
  }

  lemma DecodeMeans(host: Host, g: Gpu, source: Source, d: seq<int>)
    requires g.Valid() && source.Valid() && Complete(d) && |d| <= source.Left() && source.Holds(g.memory, d)
    requires IsStore(d) ==> Spared(g.memory, source, d, d[1], 2)
    ensures Decode(host, g, source, d[0]) == Meaning(host, g, source, d) && LengthOf(d[0]) == |d|
  {
    hide Source.Holds, Decode, Spared, WriteFrom, StoreFrom, Effect, OwnShader, Counted3;
    var (header, n) := (d[0], |d| - 2);
    if header < 0x4000_0000 {
      Type0Means(host, g, source, header % 0x8000, header / 0x8000 % 2 == 1, n, d);
      FieldsOfType0(header, header % 0x8000, header / 0x8000 % 2 == 1, n);
    } else if header < 0xC000_0000 {
      OthersMean(host, g, source, header);
    } else {
      var opcode := OpcodeIn(header).value;
      assert IsType3(header, opcode, n);
      FieldsOfType3(header, opcode, n);
      hide IsType3;
      if opcode == 0x3D && n >= 1 {
        StoresMean(host, g, source, n, d);
      } else if opcode == 0x3D {
        StoresNothing(host, g, source, 0, header);
      } else if opcode == 0x2B && source.InBuffer? {
        OwnShaderMeans(host, g, source, n, d);
      } else {
        Type3Means(host, g, source, opcode, n, d);
      }
    }
  }

  /** A packet of the stream, counted; padding counts for nothing. */
  function Played(host: Host, g: Gpu, source: Source, d: seq<int>): (r: Gpu)
    requires g.Valid() && source.Valid() && (Padding(source, d) || Complete(d))
    ensures r.Valid()
  {
    if Padding(source, d) then g
    else
      var t := Meaning(host, g, source, d);
      t.(packets := t.packets + 1)
  }

  /** Memory holds each packet, complete, when its turn comes, and spares it while its own words are stored. */
  ghost predicate Plays(host: Host, g: Gpu, source: Source, packets: seq<seq<int>>)
    requires g.Valid() && source.Valid()
    decreases |packets|
  {
    packets == [] ||
    (var d := packets[0];
     && (Padding(source, d) || (Complete(d) && !(source.InBuffer? && d[0] == 0)))
     && source.Holds(g.memory, d)
     && (IsStore(d) ==> Spared(g.memory, source, d, d[1], 2))
     && Plays(host, Played(host, g, source, d), source.After(|d|), packets[1..]))
  }

  /** The state after the packets, one after the other. */
  ghost function PlayAll(host: Host, g: Gpu, source: Source, packets: seq<seq<int>>): (r: Gpu)
    requires g.Valid() && source.Valid() && Plays(host, g, source, packets)
    ensures r.Valid()
    decreases |packets|
  {
    if packets == [] then g
    else PlayAll(host, Played(host, g, source, packets[0]), source.After(|packets[0]|), packets[1..])
  }

  function Total(packets: seq<seq<int>>): (r: int)
    ensures r >= 0
    decreases |packets|
  {
    if packets == [] then 0 else |packets[0]| + Total(packets[1..])
  }

  lemma BufferHeader(host: Host, g: Gpu, source: Source, d: seq<int>)
    requires g.Valid() && source.Valid() && source.InBuffer? && |d| >= 1 && source.Holds(g.memory, d)
    ensures BufferLoad(g.memory, source.address, source.offset, 0) == d[0]
  {
    BufferHolds(g.memory, source, d);
    BufferIs(g.memory, source.address, source.offset, d);
    hide BufferLoad;
  }

  /** One step of the buffer's loop. */
  lemma BufferStep(host: Host, g: Gpu, source: Source, d: seq<int>)
    requires g.Valid() && source.Valid() && source.InBuffer? && 1 <= |d| <= source.Left() && source.Holds(g.memory, d)
    requires Padding(source, d) || (Complete(d) && d[0] != 0 && (IsStore(d) ==> Spared(g.memory, source, d, d[1], 2)))
    ensures BufferFrom(host, g, source) == BufferFrom(host, Played(host, g, source, d), source.After(|d|))
  {
    BufferHeader(host, g, source, d);
    hide BufferFrom, BufferLoad, Meaning, Spared, Source.Holds, Complete, Source.After, IsStore;
    if Padding(source, d) {
      PaddingTurn(host, g, source);
    } else {
      PacketTurn(host, g, source, d);
    }
  }

  lemma PacketTurn(host: Host, g: Gpu, source: Source, d: seq<int>)
    requires g.Valid() && source.Valid() && source.InBuffer? && 1 <= |d| <= source.Left() && source.Holds(g.memory, d)
    requires BufferLoad(g.memory, source.address, source.offset, 0) == d[0] != 0
    requires Complete(d) && (IsStore(d) ==> Spared(g.memory, source, d, d[1], 2))
    ensures BufferFrom(host, g, source) == BufferFrom(host, Played(host, g, source, d), source.After(|d|))
  {
    hide BufferLoad, Meaning, Spared, LengthOf, Source.Holds, Complete, BufferFrom, Decode, IsStore, Source.After;
    DecodeMeans(host, g, source, d);
    BufferTurn(host, g, source, d[0], |d|, Meaning(host, g, source, d));
  }

  function BufferFrom(host: Host, g: Gpu, source: Source): Gpu
    requires g.Valid() && source.Valid() && source.InBuffer?
  {
    BufferRun(host, g, source.address, source.offset, source.count, source.depth)
  }

  lemma PaddingTurn(host: Host, g: Gpu, source: Source)
    requires g.Valid() && source.Valid() && source.InBuffer? && 1 <= source.Left()
    requires BufferLoad(g.memory, source.address, source.offset, 0) == 0
    ensures BufferFrom(host, g, source) == BufferFrom(host, g, source.After(1))
  {
    hide BufferLoad, BufferPacket, LengthOf;
  }

  lemma BufferTurn(host: Host, g: Gpu, source: Source, header: int, length: int, t: Gpu)
    requires g.Valid() && t.Valid() && source.Valid() && source.InBuffer? && header != 0
    requires BufferLoad(g.memory, source.address, source.offset, 0) == header
    requires LengthOf(header) == length <= source.Left() && Decode(host, g, source, header) == t
    ensures BufferFrom(host, g, source) == BufferFrom(host, t.(packets := t.packets + 1), source.After(length))
  {
    hide BufferLoad, BufferPacket, LengthOf;
  }

  lemma {:induction false} BufferPlays(host: Host, g: Gpu, source: Source, packets: seq<seq<int>>)
    requires g.Valid() && source.Valid() && source.InBuffer? && Plays(host, g, source, packets)
    requires Total(packets) == source.Left()
    ensures BufferFrom(host, g, source) == PlayAll(host, g, source, packets)
    decreases |packets|
  {
    if packets == [] {
      BufferEnds(host, g, source);
    } else {
      var d := packets[0];
      BufferStepReady(host, g, source, packets);
      hide Played, Complete, Padding, Source.Holds, Spared, BufferFrom, IsStore;
      BufferStep(host, g, source, d);
      BufferPlays(host, Played(host, g, source, d), source.After(|d|), packets[1..]);
    }
  }

  lemma BufferEnds(host: Host, g: Gpu, source: Source)
    requires g.Valid() && source.Valid() && source.InBuffer? && source.Left() == 0
    ensures BufferFrom(host, g, source) == g
  {
  }

  lemma BufferStepReady(host: Host, g: Gpu, source: Source, packets: seq<seq<int>>)
    requires g.Valid() && source.Valid() && packets != [] && Plays(host, g, source, packets)
    ensures 1 <= |packets[0]| <= Total(packets)
  {
  }

  /** A buffer of complete packets, each where it is expected when its turn comes, does what they mean, in order. */
  lemma BufferMeans(host: Host, g: Gpu, address: int, count: int, depth: int, packets: seq<seq<int>>)
    requires g.Valid() && 0 <= depth <= 8 && 0 <= count <= 0x40_0000
    requires Plays(host, g, InBuffer(address, 0, count, depth), packets) && Total(packets) == count
    ensures ProcessBuffer(host, g, address, count, depth)
         == PlayAll(host, g, InBuffer(address, 0, count, depth), packets)
  {
    BufferPlays(host, g, InBuffer(address, 0, count, depth), packets);
  }

  lemma RingHeader(host: Host, g: Gpu, source: Source, d: seq<int>)
    requires g.Valid() && source.Valid() && source.InRing? && 1 <= |d| <= 0x1_0000 && source.Holds(g.memory, d)
    ensures RingLoad(g.memory, source.base, source.size, source.at, 0) == d[0]
  {
    RingHolds(g.memory, source, d);
    RingIs(g.memory, source.base, source.size, source.at, d);
    hide RingLoad;
  }

  /** One step of the ring's loop. */
  lemma RingStep(host: Host, g: Gpu, source: Source, target: int, d: seq<int>)
    requires g.Valid() && source.Valid() && source.InRing? && source.at != target
    requires Complete(d) && |d| <= source.Left() && source.Holds(g.memory, d)
    requires IsStore(d) ==> Spared(g.memory, source, d, d[1], 2)
    ensures RingFrom(host, g, source, target) == RingFrom(host, Played(host, g, source, d), source.After(|d|), target)
  {
    RingHeader(host, g, source, d);
    hide RingLoad, Meaning, Spared, LengthOf, Source.Holds, Complete, RingFrom, Decode, IsStore, Source.After;
    DecodeMeans(host, g, source, d);
    RingTurn(host, g, source, target, d[0], |d|, Meaning(host, g, source, d));
  }

  lemma AfterTurn(source: Source, n: nat)
    requires source.Valid() && source.InRing?
    ensures source.After(n) == InRing(source.base, source.size, Turn(source.at, n, source.size), source.available - n)
  {
  }

  function RingFrom(host: Host, g: Gpu, source: Source, target: int): Consumed
    requires g.Valid() && source.Valid() && source.InRing?
  {
    RingRun(host, g, source.base, source.size, source.at, target, source.available)
  }

  lemma RingTurn(host: Host, g: Gpu, source: Source, target: int, header: int, length: int, t: Gpu)
    requires g.Valid() && t.Valid() && source.Valid() && source.InRing? && source.at != target
    requires RingLoad(g.memory, source.base, source.size, source.at, 0) == header
    requires LengthOf(header) == length <= source.Left() && 0 <= length && Decode(host, g, source, header) == t
    ensures RingFrom(host, g, source, target)
         == RingFrom(host, t.(packets := t.packets + 1), source.After(length), target)
  {
    AfterTurn(source, length);
    hide RingLoad, RingPacket, LengthOf, Source.After, Turn;
  }

  /** The head of the stream is one turn of the loop. */
  lemma RingHead(host: Host, g: Gpu, source: Source, target: int, packets: seq<seq<int>>)
    requires g.Valid() && source.Valid() && source.InRing? && packets != [] && Plays(host, g, source, packets)
    requires Total(packets) == source.Left() == Distance(target, source.at, source.size) && 0 <= target < source.size
    ensures var (d, rest) := (packets[0], packets[1..]);
      && RingFrom(host, g, source, target) == RingFrom(host, Played(host, g, source, d), source.After(|d|), target)
      && Total(rest) == source.After(|d|).Left() == Distance(target, source.After(|d|).at, source.size)
  {
    var d := packets[0];
    hide Played, Source.Holds, Spared, Distance, Complete, IsStore, RingFrom, Turn;
    BufferStepReady(host, g, source, packets);
    Arrived(target, source.at, source.size, |d|);
    DistanceAfter(target, source.at, source.size, |d|);
    AfterTurn(source, |d|);
    RingStep(host, g, source, target, d);
    hide Source.After, PlayAll;
  }

  lemma {:induction false} RingPlays(host: Host, g: Gpu, source: Source, target: int, packets: seq<seq<int>>)
    requires g.Valid() && source.Valid() && source.InRing? && Plays(host, g, source, packets)
    requires Total(packets) == source.Left() == Distance(target, source.at, source.size) && 0 <= target < source.size
    ensures RingFrom(host, g, source, target).gpu == PlayAll(host, g, source, packets)
    ensures packets != [] ==> RingFrom(host, g, source, target).at == target
    decreases |packets|
  {
    hide Played, Source.Holds, Spared, Distance, Complete, IsStore, RingFrom;
    if packets == [] {
      Nothing(host, g, source, target);
    } else {
      var (d, rest) := (packets[0], packets[1..]);
      RingHead(host, g, source, target, packets);
      RingPlays(host, Played(host, g, source, d), source.After(|d|), target, rest);
      if rest == [] { RingLast(host, Played(host, g, source, d), source, target, d); }
    }
  }

  lemma RingLast(host: Host, g: Gpu, source: Source, target: int, d: seq<int>)
    requires g.Valid() && source.Valid() && source.InRing? && 0 <= target < source.size
    requires source.After(|d|).Left() == 0 && source.Left() == Distance(target, source.at, source.size)
    ensures RingFrom(host, g, source.After(|d|), target) == Consumed(g, target)
  {
    Arrived(target, source.at, source.size, |d|);
    Nothing(host, g, source.After(|d|), target);
    hide Distance, RingFrom;
  }

  lemma Nothing(host: Host, g: Gpu, source: Source, target: int)
    requires g.Valid() && source.Valid() && source.InRing? && source.Left() == 0
    ensures RingFrom(host, g, source, target) == Consumed(g, source.at)
  {
  }

  /** Packets that leave memory alone. */
  predicate Quiet(d: seq<int>) {
    d != [] && OpcodeIn(d[0]) !in {Some(0x22), Some(0x36), Some(0x3D), Some(0x3F), Some(0x58), Some(0x59)}
  }

  lemma QuietMeaning(host: Host, g: Gpu, source: Source, d: seq<int>)
    requires g.Valid() && source.Valid() && Complete(d) && Quiet(d)
    ensures Meaning(host, g, source, d).memory == g.memory
  {
    hide WriteFrom, Modified, SetRegister, WordsAt, UseShader, Counted3, StoreFrom, Drawn3, ProcessBuffer, WriteEvent;
  }

  /** Memory holds the packets one after the other. */
  ghost predicate Lies(m: Memory, source: Source, packets: seq<seq<int>>)
    requires source.Valid()
    decreases |packets|
  {
    packets == [] || (source.Holds(m, packets[0]) && Lies(m, source.After(|packets[0]|), packets[1..]))
  }

  /** For packets that leave memory alone, what lies in memory at the start decides that the stream plays. */
  lemma {:induction false} QuietPlays(host: Host, g: Gpu, source: Source, packets: seq<seq<int>>)
    requires g.Valid() && source.Valid() && Lies(g.memory, source, packets)
    requires forall d | d in packets ::
      Quiet(d) && (Padding(source, d) || (Complete(d) && !(source.InBuffer? && d[0] == 0)))
    ensures Plays(host, g, source, packets) && PlayAll(host, g, source, packets).memory == g.memory
    decreases |packets|
  {
    hide Complete, Source.Holds, Spared, Meaning, OpcodeIn;
    if packets != [] {
      var d := packets[0];
      assert d in packets;
      if !Padding(source, d) { QuietMeaning(host, g, source, d); }
      QuietPlays(host, Played(host, g, source, d), source.After(|d|), packets[1..]);
    }
  }

  /** The ring's unread dwords up to a new write pointer. */
  function Unread(s: Doorbells.State, pointer: Word): (r: Source)
    requires s.Valid() && s.size != 0
    ensures r.Valid()
  {
    Doorbells.RingSizeBounded(s.size);
    InRing(s.base, s.size, s.at, (pointer - s.at) % s.size)
  }

  /**
   A store to the write pointer's register makes the GPU play the packets up to it, in order; then the
   pointer that is reached is written back, if the title has asked for it.
   */
  lemma DoorbellPlays(host: Host, s: Doorbells.State, pointer: Word, packets: seq<seq<int>>)
    requires s.Valid() && s.base != 0 && s.size != 0 && packets != []
    requires Plays(host, s.gpu, Unread(s, pointer), packets) && Total(packets) == (pointer - s.at) % s.size
    ensures var r := Doorbells.Write(host, s, 0x7FC8_0714, pointer, 4);
      var t := PlayAll(host, s.gpu, Unread(s, pointer), packets);
      && r.at == pointer % s.size
      && r.gpu == (if s.writeback == 0 then t else t.(memory := StoreBE(t.memory, s.writeback, pointer % s.size)))
  {
    hide Plays, PlayAll, Total, RingRun, Doorbells.RingSize, Doorbells.Write;
    var (target, source) := (pointer % s.size, Unread(s, pointer));
    Arithmetic.ModAdds(pointer, -s.at, s.size);
    assert source.Left() == Distance(target, s.at, s.size);
    Doorbells.DoorbellRuns(host, s, pointer);
    RingPlays(host, s.gpu, source, target, packets);
  }
}
