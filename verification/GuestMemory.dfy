/** Guest memory as the GPU sees it: big-endian words, physical aliases and endian modes. */
module GuestMemory {
  import opened Words

  /** The bytes written so far; every other byte is zero. */
  type Memory = map<int, int>

  /** A set of byte addresses. */
  type Region = iset<int>

  function ByteAt(m: Memory, address: int): (r: int)
    ensures 0 <= r < 0x100
  {
    if address in m then m[address] % 0x100 else 0
  }

  function Join(b3: int, b2: int, b1: int, b0: int): int {
    0x100_0000 * b3 + 0x1_0000 * b2 + 0x100 * b1 + b0
  }

  function ByteOf(value: int, k: nat): (r: int)
    ensures 0 <= r < 0x100
  {
    if k == 0 then value % 0x100 else if k == 1 then value / 0x100 % 0x100
    else if k == 2 then value / 0x1_0000 % 0x100 else value / 0x100_0000 % 0x100
  }

  /** The number whose bytes, most significant first, are those from `from` up to `end`. */
  function LoadBytes(m: Memory, from: int, end: int): (r: int)
    ensures 0 <= r
    decreases end - from
  {
    if from >= end then 0 else 0x100 * LoadBytes(m, from, end - 1) + ByteAt(m, end - 1)
  }

  function StoreBytes(m: Memory, from: int, end: int, value: int): Memory
    decreases end - from
  {
    if from >= end then m else StoreBytes(m, from, end - 1, value / 0x100)[end - 1 := value % 0x100]
  }

  function LoadBE(m: Memory, address: int): (r: int)
    ensures 0 <= r < 0x1_0000_0000
  {
    LoadFits(m, address, address + 4);
    assert Limit(4) == 0x1_0000_0000;
    LoadBytes(m, address, address + 4)
  }

  function StoreBE(m: Memory, address: int, value: int): Memory {
    StoreBytes(m, address, address + 4, value)
  }

  /** What `n` bytes can hold. */
  function Limit(n: nat): int {
    if n == 0 then 1 else 0x100 * Limit(n - 1)
  }

  lemma {:induction false} LoadFits(m: Memory, from: int, end: int)
    requires from <= end
    ensures LoadBytes(m, from, end) < Limit(end - from)
    decreases end - from
  {
    if from < end { LoadFits(m, from, end - 1); }
  }

  function PhysicalToGuest(physical: int): int {
    0x6000_0000 + physical % 0x2000_0000
  }

  function WordAligned(address: int): int {
    address - address % 4
  }

  /** Exchanges the bytes within each half word. */
  function SwapBytes(value: int): int {
    Join(ByteOf(value, 2), ByteOf(value, 3), ByteOf(value, 0), ByteOf(value, 1))
  }

  /** Exchanges the half words. */
  function SwapHalves(value: int): int {
    Join(ByteOf(value, 1), ByteOf(value, 0), ByteOf(value, 3), ByteOf(value, 2))
  }

  function Reverse(value: int): int {
    Join(ByteOf(value, 0), ByteOf(value, 1), ByteOf(value, 2), ByteOf(value, 3))
  }

  function Swap32(value: int, endian: int): int {
    if endian % 4 == 1 then SwapBytes(value)
    else if endian % 4 == 2 then Reverse(value)
    else if endian % 4 == 3 then SwapBytes(SwapHalves(value))
    else value
  }

  function WriteGpuMemory(m: Memory, encoded: int, value: int): Memory {
    var destination := PhysicalToGuest(WordAligned(encoded));
    if destination < 0x8000_0000 then StoreBE(m, destination, Swap32(value, encoded)) else m
  }

  lemma BytesOfJoin(b3: int, b2: int, b1: int, b0: int)
    requires 0 <= b3 < 0x100 && 0 <= b2 < 0x100 && 0 <= b1 < 0x100 && 0 <= b0 < 0x100
    ensures var v := Join(b3, b2, b1, b0);
      && 0 <= v < 0x1_0000_0000
      && ByteOf(v, 3) == b3 && ByteOf(v, 2) == b2 && ByteOf(v, 1) == b1 && ByteOf(v, 0) == b0
  {
    var v := Join(b3, b2, b1, b0);
    assert v / 0x100 == 0x1_0000 * b3 + 0x100 * b2 + b1;
    assert v / 0x1_0000 == 0x100 * b3 + b2;
    assert v / 0x100_0000 == b3;
  }

  lemma JoinOfBytes(value: int)
    requires 0 <= value < 0x1_0000_0000
    ensures Join(ByteOf(value, 3), ByteOf(value, 2), ByteOf(value, 1), ByteOf(value, 0)) == value
  {
    assert value / 0x1_0000 == value / 0x100 / 0x100;
    assert value / 0x100_0000 == value / 0x1_0000 / 0x100;
  }

  lemma BytesReversed(value: int)
    ensures var r := Reverse(value);
      && 0 <= r < 0x1_0000_0000
      && ByteOf(r, 0) == ByteOf(value, 3) && ByteOf(r, 1) == ByteOf(value, 2)
      && ByteOf(r, 2) == ByteOf(value, 1) && ByteOf(r, 3) == ByteOf(value, 0)
  {
    BytesOfJoin(ByteOf(value, 0), ByteOf(value, 1), ByteOf(value, 2), ByteOf(value, 3));
  }

  lemma BytesSwapped(value: int)
    ensures var r := SwapBytes(value);
      && 0 <= r < 0x1_0000_0000
      && ByteOf(r, 0) == ByteOf(value, 1) && ByteOf(r, 1) == ByteOf(value, 0)
      && ByteOf(r, 2) == ByteOf(value, 3) && ByteOf(r, 3) == ByteOf(value, 2)
  {
    BytesOfJoin(ByteOf(value, 2), ByteOf(value, 3), ByteOf(value, 0), ByteOf(value, 1));
  }

  /** The fourth endian mode swaps twice and ends up as the third: a full reversal. */
  lemma EndianModesCoincide(value: int)
    ensures SwapBytes(SwapHalves(value)) == Reverse(value)
  {
    BytesOfJoin(ByteOf(value, 1), ByteOf(value, 0), ByteOf(value, 3), ByteOf(value, 2));
  }

  /** Reading with the endian mode that was used for writing gives the value back. */
  lemma SwapTwice(value: int, endian: int)
    requires 0 <= value < 0x1_0000_0000
    ensures 0 <= Swap32(value, endian) < 0x1_0000_0000
    ensures Swap32(Swap32(value, endian), endian) == value
  {
    hide Join, ByteOf;
    JoinOfBytes(value);
    if endian % 4 == 1 {
      BytesSwapped(value);
    } else {
      EndianModesCoincide(value);
      BytesReversed(value);
      EndianModesCoincide(Reverse(value));
    }
  }

  lemma {:induction false} LoadElsewhere(m: Memory, from: int, end: int, at: int, byte: int)
    requires at < from || end <= at
    ensures LoadBytes(m[at := byte], from, end) == LoadBytes(m, from, end)
    decreases end - from
  {
    if from < end { LoadElsewhere(m, from, end - 1, at, byte); }
  }

  lemma {:induction false} BytesAfterStore(m: Memory, from: int, end: int, value: int)
    requires from <= end && 0 <= value < Limit(end - from)
    ensures LoadBytes(StoreBytes(m, from, end, value), from, end) == value
    decreases end - from
  {
    if from < end {
      BytesAfterStore(m, from, end - 1, value / 0x100);
      LoadElsewhere(StoreBytes(m, from, end - 1, value / 0x100), from, end - 1, end - 1, value % 0x100);
    }
  }

  lemma {:induction false} BytesApart(m: Memory, from: int, end: int, value: int, other: int, stop: int)
    requires stop <= from || end <= other
    ensures LoadBytes(StoreBytes(m, from, end, value), other, stop) == LoadBytes(m, other, stop)
    decreases end - from
  {
    if from < end {
      BytesApart(m, from, end - 1, value / 0x100, other, stop);
      LoadElsewhere(StoreBytes(m, from, end - 1, value / 0x100), other, stop, end - 1, value % 0x100);
    }
  }

  /** A stored word reads back. */
  lemma LoadAfterStore(m: Memory, address: int, value: int)
    requires 0 <= value < 0x1_0000_0000
    ensures LoadBE(StoreBE(m, address, value), address) == value
  {
    assert Limit(4) == 0x1_0000_0000;
    BytesAfterStore(m, address, address + 4, value);
  }

  /** Stores leave every word that does not overlap alone. */
  lemma LoadApartFromStore(m: Memory, address: int, value: int, other: int)
    requires other + 4 <= address || address + 4 <= other
    ensures LoadBE(StoreBE(m, address, value), other) == LoadBE(m, other)
  {
    BytesApart(m, address, address + 4, value, other, other + 4);
  }

  /** The bytes from `from` up to `end`. */
  function BytesOf(m: Memory, from: int, end: int): seq<int>
    decreases end - from
  {
    if from >= end then [] else BytesOf(m, from, end - 1) + [ByteAt(m, end - 1)]
  }

  lemma {:induction false} BytesOfSame(m: Memory, m': Memory, from: int, end: int)
    requires forall a | InRange(a, from, end) :: ByteAt(m, a) == ByteAt(m', a)
    ensures BytesOf(m, from, end) == BytesOf(m', from, end)
    decreases end - from
  {
    hide ByteAt;
    if from < end {
      assert InRange(end - 1, from, end);
      assert forall a | InRange(a, from, end - 1) :: InRange(a, from, end);
      BytesOfSame(m, m', from, end - 1);
    }
  }

  /** A word is made of its own bytes only. */
  lemma {:induction false} BytesSame(m: Memory, m': Memory, from: int, end: int)
    requires forall a | InRange(a, from, end) :: ByteAt(m, a) == ByteAt(m', a)
    ensures LoadBytes(m, from, end) == LoadBytes(m', from, end)
    decreases end - from
  {
    hide ByteAt;
    if from < end {
      assert InRange(end - 1, from, end);
      assert forall a | InRange(a, from, end - 1) :: InRange(a, from, end);
      BytesSame(m, m', from, end - 1);
    }
  }

  predicate InRange(a: int, from: int, end: int) {
    from <= a < end
  }

  lemma {:induction false} StoredKeys(m: Memory, from: int, end: int, value: int)
    ensures forall a :: (a in StoreBytes(m, from, end, value) <==> a in m || InRange(a, from, end))
    ensures forall a | a in m && !InRange(a, from, end) :: StoreBytes(m, from, end, value)[a] == m[a]
    decreases end - from
  {
    if from < end { StoredKeys(m, from, end - 1, value / 0x100); }
  }

  /** The bytes stored depend on the value only. */
  lemma {:induction false} StoredBytes(m: Memory, other: Memory, from: int, end: int, value: int)
    ensures var (s, t) := (StoreBytes(m, from, end, value), StoreBytes(other, from, end, value));
      forall a | InRange(a, from, end) :: a in s && a in t && s[a] == t[a]
    decreases end - from
  {
    if from < end {
      StoredBytes(m, other, from, end - 1, value / 0x100);
      forall a | InRange(a, from, end)
        ensures a in StoreBytes(m, from, end, value) && a in StoreBytes(other, from, end, value)
        ensures StoreBytes(m, from, end, value)[a] == StoreBytes(other, from, end, value)[a]
      {
        assert a < end - 1 ==> InRange(a, from, end - 1);
      }
    }
  }

  /** The byte at the address is the most significant one. */
  lemma BigEndian(m: Memory, a: int)
    ensures LoadBE(m, a)
         == 0x100_0000 * ByteAt(m, a) + 0x1_0000 * ByteAt(m, a + 1) + 0x100 * ByteAt(m, a + 2) + ByteAt(m, a + 3)
  {
    hide ByteAt;
    assert LoadBytes(m, a, a + 1) == ByteAt(m, a);
    assert LoadBytes(m, a, a + 2) == 0x100 * ByteAt(m, a) + ByteAt(m, a + 1);
    assert LoadBytes(m, a, a + 3) == 0x100 * LoadBytes(m, a, a + 2) + ByteAt(m, a + 2);
  }

  /** Mode 0 leaves a word as it is, mode 1 swaps the bytes of its halves, modes 2 and 3 reverse it. */
  lemma EndianBytes(a: Byte, b: Byte, c: Byte, d: Byte, endian: int)
    ensures var (word, swapped) := (0x100_0000 * a + 0x1_0000 * b + 0x100 * c + d,
                                    0x100_0000 * b + 0x1_0000 * a + 0x100 * d + c);
      var reversed := 0x100_0000 * d + 0x1_0000 * c + 0x100 * b + a;
      Swap32(word, endian) == if endian % 4 == 0 then word else if endian % 4 == 1 then swapped else reversed
  {
    BytesOfJoin(a, b, c, d);
    EndianModesCoincide(Join(a, b, c, d));
    hide ByteOf;
  }
}
