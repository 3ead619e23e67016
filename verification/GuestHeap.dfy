/**
 The guest heap: first fit over a free map sorted by address, splitting, two-sided coalescing,
 and a bump cursor that retracts when the top of the heap is given back.
 */
module HeapModel {
  import opened Words
  import opened Order
  import opened Arithmetic

  const BASE := 0x6000_0000
  const LIMIT := 0x8000_0000
  const PAGE := 0x1000

  type Blocks = map<int, int>  // address := size

  /** `gaps` are the bytes a page-aligned request skipped; the runtime keeps no record of them. */
  datatype Heap = Heap(cursor: int, live: Blocks, free: Blocks, gaps: Blocks)

  const EMPTY := Heap(BASE, map[], map[], map[])

  /** Inserting into a standard map leaves an existing entry alone. */
  function Emplace(m: Blocks, address: int, size: int): Blocks {
    if address in m then m else m[address := size]
  }

  function RoundUp16(size: int): int {
    (size + 15) / 16 * 16
  }

  function RoundUpPage(address: int): Word {
    Wrap(address + (PAGE - 1)) / PAGE * PAGE
  }

  function GuestHeapAllocationSize(cursor: Word, limit: Word, size: Word): (r: Option<Word>)
    ensures r.Some? <==> cursor <= limit && cursor + RoundUp16(size) <= limit
    ensures r.Some? ==> r.value % 16 == 0 && size <= r.value < size + 16
  {
    var aligned := RoundUp16(size);
    if cursor > limit || aligned > limit - cursor then None else Some(aligned)
  }

  ghost predicate FirstFit(free: Blocks, need: int, address: int) {
    && address in free && free[address] >= need
    && forall f | f in free && free[f] >= need :: address <= f
  }

  function Take(h: Heap, address: int, need: int): Heap
    requires address in h.free
  {
    var rest := h.free - {address};
    var remainder := h.free[address] - need;
    h.(free := if remainder != 0 then Emplace(rest, address + need, remainder) else rest,
       live := Emplace(h.live, address, need))
  }

  /** The address is 0 when the request cannot be met. */
  function Allocate(h: Heap, size: Word): (Heap, int) {
    var need := Wrap(RoundUp16(size));
    if need < size then (h, 0) else
    var fits := set f | f in h.free && h.free[f] >= need;
    if fits != {} then
      var address := Least(fits);
      (Take(h, address, need), address)
    else
      match GuestHeapAllocationSize(Wrap(h.cursor), LIMIT, size)
      case None => (h, 0)
      case Some(n) => (h.(cursor := h.cursor + n, live := Emplace(h.live, h.cursor, n)), h.cursor)
  }

  /** The cursor moves to a page boundary first, whether or not the request then needs it. */
  function PageAlign(h: Heap): Heap {
    var aligned := RoundUpPage(h.cursor);
    if aligned == h.cursor then h
    else h.(cursor := aligned, gaps := h.gaps[h.cursor := aligned - h.cursor])
  }

  function AllocatePhysical(h: Heap, size: Word): (Heap, int) {
    Allocate(PageAlign(h), size)
  }

  /** Free blocks that end at the cursor go back to it. */
  function Retract(cursor: int, free: Blocks): (int, Blocks)
    decreases |free|
  {
    match Last(free)
    case None => (cursor, free)
    case Some(last) =>
      if last + free[last] != cursor then (cursor, free)
      else
        assert (free - {last}).Keys == free.Keys - {last};
        Retract(last, free - {last})
  }

  function Coalesce(free: Blocks, address: int, size: int): Blocks {
    var joinsNext := UpperBound(free, address) == Some(address + size);
    var total := if joinsNext then size + free[address + size] else size;
    var rest := if joinsNext then free - {address + size} else free;
    match LastBelow(rest, address + 1)
    case Some(p) => if p + rest[p] == address then rest[p := rest[p] + total] else Emplace(rest, address, total)
    case None => Emplace(rest, address, total)
  }

  function Release(h: Heap, address: int): Heap {
    if address !in h.live then h else
    var size := h.live[address];
    var live := h.live - {address};
    if address + size == h.cursor then
      var (cursor, free) := Retract(address, h.free);
      h.(cursor := cursor, live := live, free := free)
    else
      h.(live := live, free := Coalesce(h.free, address, size))
  }

  // ---- What a well-formed heap is ----

  ghost predicate IsBlock(h: Heap, a: int) {
    a in h.live || a in h.free || a in h.gaps
  }

  ghost function Size(h: Heap, a: int): int {
    if a in h.live then h.live[a] else if a in h.free then h.free[a] else if a in h.gaps then h.gaps[a] else 0
  }

  ghost predicate Distinct(h: Heap) {
    && (forall a | a in h.live :: a !in h.free && a !in h.gaps)
    && (forall a | a in h.free :: a !in h.gaps)
  }

  ghost predicate Placed(h: Heap, a: int) {
    BASE <= a && Size(h, a) > 0 && a + Size(h, a) <= h.cursor
  }

  /** The block at `a` ends at the cursor or where another starts. */
  ghost predicate Followed(h: Heap, a: int) {
    a + Size(h, a) == h.cursor || IsBlock(h, a + Size(h, a))
  }

  /** The blocks are disjoint and leave no byte of [BASE, cursor) out. */
  ghost predicate Tiles(h: Heap) {
    && BASE <= h.cursor <= LIMIT
    && (forall a {:trigger IsBlock(h, a)} | IsBlock(h, a) :: Placed(h, a))
    && (forall a, c {:trigger IsBlock(h, a), IsBlock(h, c)} | IsBlock(h, a) && IsBlock(h, c)
        && a < c :: a + Size(h, a) <= c)
    && (h.cursor != BASE ==> IsBlock(h, BASE))
    && (forall a {:trigger Followed(h, a)} | IsBlock(h, a) :: Followed(h, a))
  }

  /** No two free blocks touch and none touches the cursor. */
  ghost predicate Coalesced(free: Blocks, cursor: int) {
    forall f {:trigger Apart(free, cursor, f)} | f in free :: Apart(free, cursor, f)
  }

  ghost predicate Apart(free: Blocks, cursor: int, f: int)
    requires f in free
  {
    f + free[f] !in free && f + free[f] != cursor
  }

  ghost predicate Aligned(x: int) {
    x % 16 == 0
  }

  ghost predicate AlignedBlocks(h: Heap) {
    && Aligned(h.cursor)
    && forall a {:trigger IsBlock(h, a)} | IsBlock(h, a) :: Aligned(a) && Aligned(Size(h, a))
  }

  ghost predicate Canonical(h: Heap) {
    Distinct(h) && Tiles(h) && AlignedBlocks(h) && Coalesced(h.free, h.cursor)
  }

  lemma AlignedSum(x: int, y: int)
    requires Aligned(x) && Aligned(y)
    ensures Aligned(x + y) && Aligned(x - y)
  {
  }

  // ---- Tilings ----

  lemma BlockFacts(h: Heap, a: int)
    requires Tiles(h) && IsBlock(h, a)
    ensures Placed(h, a) && Followed(h, a)
  {
    assert Followed(h, a);
  }

  lemma BlocksApart(h: Heap, a: int, c: int)
    requires Tiles(h) && IsBlock(h, a) && IsBlock(h, c) && a < c
    ensures a + Size(h, a) <= c
  {
  }

  lemma SplitApart(h: Heap, at: int, need: int, a: int, c: int)
    requires Tiles(h) && IsBlock(h, at) && 0 < need < Size(h, at)
    requires IsBlock(h, a) && a != at && (c == at || c == at + need)
    ensures if a < at then a + Size(h, a) <= c else at + Size(h, at) <= a && c < a
  {
    if a < at { BlocksApart(h, a, at); } else { BlocksApart(h, at, a); }
  }

  lemma TilesSplit(h: Heap, t: Heap, at: int, need: int)
    requires Tiles(h) && IsBlock(h, at) && 0 < need < Size(h, at)
    requires t.cursor == h.cursor
    requires forall a :: IsBlock(t, a) <==> IsBlock(h, a) || a == at + need
    requires forall a ::
      Size(t, a) == if a == at then need else if a == at + need then Size(h, at) - need else Size(h, a)
    ensures Tiles(t)
  {
    var second := at + need;
    BlockFacts(h, at);
    hide IsBlock, Size;
    forall a | IsBlock(t, a) ensures Placed(t, a) && Followed(t, a) {
      if a != second { BlockFacts(h, a); }
    }
    forall a, c | IsBlock(t, a) && IsBlock(t, c) && a < c ensures a + Size(t, a) <= c {
      if a != at && a != second && c != at && c != second {
        BlocksApart(h, a, c);
      } else if a != at && a != second {
        SplitApart(h, at, need, a, c);
      } else if c != at && c != second {
        SplitApart(h, at, need, c, a);
      }
    }
  }

  lemma SameTiles(h: Heap, t: Heap)
    requires t.cursor == h.cursor && forall a :: (IsBlock(t, a) <==> IsBlock(h, a)) && Size(t, a) == Size(h, a)
    requires Tiles(h) && AlignedBlocks(h)
    ensures Tiles(t) && AlignedBlocks(t)
  {
    hide IsBlock, Size, Aligned;
    forall a | IsBlock(t, a) ensures Placed(t, a) && Followed(t, a) { BlockFacts(h, a); }
  }

  lemma TilesJoin(h: Heap, t: Heap, at: int, second: int)
    requires Tiles(h) && IsBlock(h, at) && second == at + Size(h, at) && IsBlock(h, second)
    requires t.cursor == h.cursor
    requires forall a :: IsBlock(t, a) <==> IsBlock(h, a) && a != second
    requires forall a :: a != second ==> Size(t, a) == if a == at then Size(h, at) + Size(h, second) else Size(h, a)
    ensures Tiles(t)
  {
    BlockFacts(h, at);
    BlockFacts(h, second);
    hide IsBlock, Size;
    forall a | IsBlock(t, a) ensures Placed(t, a) && Followed(t, a) {
      BlockFacts(h, a);
      if a != at && a + Size(h, a) == second { if a < at { BlocksApart(h, a, at); } else { BlocksApart(h, at, a); } }
    }
    forall a, c | IsBlock(t, a) && IsBlock(t, c) && a < c ensures a + Size(t, a) <= c {
      BlocksApart(h, a, c);
      if a == at && c != second { if c < second { BlocksApart(h, c, second); } else { BlocksApart(h, second, c); } }
    }
  }

  lemma TilesShrink(h: Heap, t: Heap)
    requires Tiles(h) && IsBlock(h, t.cursor) && t.cursor + Size(h, t.cursor) == h.cursor
    requires forall a :: IsBlock(t, a) <==> IsBlock(h, a) && a != t.cursor
    requires forall a :: a != t.cursor ==> Size(t, a) == Size(h, a)
    ensures Tiles(t)
  {
    hide IsBlock, Size;
    forall a | IsBlock(t, a) ensures Followed(t, a) {
      assert Followed(h, a);
    }
  }

  lemma TilesGrow(h: Heap, t: Heap)
    requires Tiles(h) && h.cursor < t.cursor <= LIMIT
    requires forall a :: IsBlock(t, a) <==> IsBlock(h, a) || a == h.cursor
    requires forall a :: Size(t, a) == if a == h.cursor then t.cursor - h.cursor else Size(h, a)
    ensures Tiles(t)
  {
    hide IsBlock, Size;
    forall a | IsBlock(t, a) ensures Placed(t, a) && Followed(t, a) {
      if a != h.cursor { BlockFacts(h, a); }
    }
    forall a, c | IsBlock(t, a) && IsBlock(t, c) && a < c ensures a + Size(t, a) <= c {
      if a != h.cursor {
        BlockFacts(h, a);
        if c != h.cursor { BlocksApart(h, a, c); }
      } else {
        BlockFacts(h, c);
      }
    }
  }

  /** Every byte below the cursor lies in exactly one block. */
  lemma TilesCover(h: Heap, x: int) returns (a: int)
    requires Tiles(h) && BASE <= x < h.cursor
    ensures IsBlock(h, a) && a <= x < a + Size(h, a)
    ensures forall c | IsBlock(h, c) && c <= x < c + Size(h, c) :: c == a
  {
    var below := set k | k in h.live.Keys + h.free.Keys + h.gaps.Keys && k <= x;
    assert IsBlock(h, BASE) && BASE in below;
    a := Greatest(below);
    assert IsBlock(h, a) && Followed(h, a);
    var end := a + Size(h, a);
    assert end <= x ==> IsBlock(h, end) && end in below;
    assert Placed(h, a);
    forall c | IsBlock(h, c) && c <= x < c + Size(h, c) ensures c == a { assert c in below; }
  }

  /** Where one block ends the next starts: nothing but the heap's base starts out of nowhere. */
  lemma Predecessor(h: Heap, at: int) returns (p: int)
    requires Tiles(h) && BASE < at && (IsBlock(h, at) || at == h.cursor)
    ensures IsBlock(h, p) && p + Size(h, p) == at
  {
    p := TilesCover(h, at - 1);
    assert Followed(h, p);
  }

  // ---- The live blocks and the gaps determine the rest ----

  lemma CursorNotAbove(h: Heap, g: Heap)
    requires Canonical(h) && Canonical(g) && h.live == g.live && h.gaps == g.gaps
    ensures h.cursor <= g.cursor
  {
    if h.cursor != BASE {
      var p := Predecessor(h, h.cursor);
      assert p in h.free ==> Apart(h.free, h.cursor, p);
      assert IsBlock(g, p);
    }
  }

  lemma FreeBlockShared(h: Heap, g: Heap, f: int)
    requires Canonical(h) && Canonical(g) && h.live == g.live && h.gaps == g.gaps && h.cursor == g.cursor
    requires f in h.free
    ensures f in g.free && g.free[f] == h.free[f]
  {
    assert IsBlock(h, f);
    if f != BASE {
      var p := Predecessor(h, f);
      assert p in h.free ==> Apart(h.free, h.cursor, p);
      assert IsBlock(g, p) && Followed(g, p);
    }
    assert IsBlock(g, f);
    assert Followed(h, f) && Apart(h.free, h.cursor, f);
    assert Followed(g, f) && Apart(g.free, g.cursor, f);
    assert IsBlock(g, f + h.free[f]) && IsBlock(h, f + g.free[f]);
  }

  lemma CanonicalFormUnique(h: Heap, g: Heap)
    requires Canonical(h) && Canonical(g) && h.live == g.live && h.gaps == g.gaps
    ensures h == g
  {
    CursorNotAbove(h, g);
    CursorNotAbove(g, h);
    forall f | f in h.free ensures f in g.free && g.free[f] == h.free[f] { FreeBlockShared(h, g, f); }
    forall f | f in g.free ensures f in h.free { FreeBlockShared(g, h, f); }
    assert h.free == g.free;
  }

  ghost predicate Within(b: Blocks, x: int) {
    exists a :: a in b && a <= x < a + b[a]
  }

  /** A byte is free exactly when it is below the cursor and in no live block and no gap. */
  lemma FreeBytes(h: Heap, x: int)
    requires Canonical(h)
    ensures Within(h.free, x) <==> BASE <= x < h.cursor && !Within(h.live, x) && !Within(h.gaps, x)
  {
    if Within(h.free, x) {
      var f :| f in h.free && f <= x < f + h.free[f];
      assert IsBlock(h, f);
      forall a | a in h.live || a in h.gaps ensures !(a <= x < a + Size(h, a)) { assert IsBlock(h, a); }
    } else if BASE <= x < h.cursor {
      var a := TilesCover(h, x);
      assert a in h.live || a in h.gaps;
    }
  }

  // ---- Every operation keeps the canonical form ----

  lemma FreeBlockBounds(h: Heap, f: int)
    requires Canonical(h) && f in h.free
    ensures IsBlock(h, f) && Size(h, f) == h.free[f]
    ensures BASE <= f && h.free[f] > 0 && f + h.free[f] <= h.cursor <= LIMIT
  {
    assert IsBlock(h, f) && Placed(h, f);
  }

  lemma SplitCoalesced(h: Heap, address: int, need: int)
    requires Canonical(h) && address in h.free && 0 < need < h.free[address]
    ensures Coalesced((h.free - {address})[address + need := h.free[address] - need], h.cursor)
  {
    var t := (h.free - {address})[address + need := h.free[address] - need];
    assert Apart(h.free, h.cursor, address) && IsBlock(h, address);
    forall f | f in t ensures Apart(t, h.cursor, f) {
      if f != address + need {
        assert Apart(h.free, h.cursor, f) && IsBlock(h, f);
      }
    }
  }

  lemma TakePart(h: Heap, address: int, need: int)
    requires Canonical(h) && address in h.free && 0 < need < h.free[address] && Aligned(need)
    ensures Canonical(Take(h, address, need))
    ensures Take(h, address, need).live == h.live[address := need] && address !in h.live
  {
    hide Aligned, Coalesced;
    FreeBlockBounds(h, address);
    SplitCoalesced(h, address, need);
    assert !IsBlock(h, address + need);
    TilesSplit(h, Take(h, address, need), address, need);
    AlignedSum(address, need);
    AlignedSum(h.free[address], need);
    hide Tiles;
  }

  lemma TakeWhole(h: Heap, address: int)
    requires Canonical(h) && address in h.free
    ensures Canonical(Take(h, address, h.free[address]))
    ensures Take(h, address, h.free[address]).live == h.live[address := h.free[address]] && address !in h.live
  {
    hide Aligned;
    var t := Take(h, address, h.free[address]);
    FreeBlockBounds(h, address);
    forall f | f in t.free ensures Apart(t.free, t.cursor, f) { assert Apart(h.free, h.cursor, f); }
    SameTiles(h, t);
  }

  lemma TakeCanonical(h: Heap, address: int, need: int)
    requires Canonical(h) && address in h.free && 0 < need <= h.free[address] && Aligned(need)
    ensures Canonical(Take(h, address, need))
    ensures Take(h, address, need).live == h.live[address := need] && address !in h.live
  {
    hide Canonical, Take, Aligned;
    if need < h.free[address] { TakePart(h, address, need); } else { TakeWhole(h, address); }
  }

  lemma BumpCanonical(h: Heap, n: int)
    requires Canonical(h) && n > 0 && Aligned(n) && h.cursor + n <= LIMIT
    ensures h.cursor !in h.live
    ensures Canonical(h.(cursor := h.cursor + n, live := Emplace(h.live, h.cursor, n)))
  {
    hide Aligned;
    var t := h.(cursor := h.cursor + n, live := Emplace(h.live, h.cursor, n));
    assert !IsBlock(h, h.cursor);
    TilesGrow(h, t);
    AlignedSum(h.cursor, n);
    forall f | f in t.free ensures Apart(t.free, t.cursor, f) { assert Apart(h.free, h.cursor, f) && IsBlock(h, f); }
  }

  // ---- Allocation ----

  ghost predicate Fits(free: Blocks, need: int) {
    exists f :: f in free && free[f] >= need
  }

  lemma RoundUpBounds(size: int)
    requires size >= 0
    ensures Aligned(RoundUp16(size)) && size <= RoundUp16(size) < size + 16
  {
  }

  lemma AllocateFromFree(h: Heap, size: Word)
    requires Canonical(h) && size > 0 && Fits(h.free, RoundUp16(size))
    ensures var (t, address) := Allocate(h, size);
      && FirstFit(h.free, RoundUp16(size), address) && BASE <= address
      && t == Take(h, address, RoundUp16(size))
  {
    var need := RoundUp16(size);
    RoundUpBounds(size);
    var f :| f in h.free && h.free[f] >= need;
    FreeBlockBounds(h, f);
    var fits := set f | f in h.free && h.free[f] >= need;
    assert f in fits;
    FreeBlockBounds(h, Least(fits));
    hide Canonical, RoundUp16;
    assert Wrap(need) == need;
    assert forall g | g in h.free && h.free[g] >= need :: g in fits;
  }

  lemma AllocateFromTop(h: Heap, size: Word)
    requires Canonical(h) && size > 0 && !Fits(h.free, RoundUp16(size))
    ensures var (t, address) := Allocate(h, size);
      var need := RoundUp16(size);
      if h.cursor + need > LIMIT then t == h && address == 0
      else address == h.cursor && t == h.(cursor := h.cursor + need, live := Emplace(h.live, h.cursor, need))
  {
    var need := RoundUp16(size);
    RoundUpBounds(size);
    assert BASE <= h.cursor <= LIMIT;
    hide Canonical, RoundUp16;
    if need < 0x1_0000_0000 {
      var fits := set f | f in h.free && h.free[f] >= need;
      assert forall f :: f !in fits;
      assert fits == {};
    }
  }

  lemma FirstFitTaken(h: Heap, size: Word, address: int)
    requires var need := Wrap(RoundUp16(size)); need >= size && FirstFit(h.free, need, address)
    ensures Allocate(h, size) == (Take(h, address, Wrap(RoundUp16(size))), address)
  {
    hide RoundUp16;
    var need := Wrap(RoundUp16(size));
    var fits := set f | f in h.free && h.free[f] >= need;
    assert address in fits && Least(fits) == address;
  }

  lemma NoFitFromTop(h: Heap, size: Word)
    requires var need := Wrap(RoundUp16(size)); need >= size && forall f | f in h.free :: h.free[f] < need
    ensures Allocate(h, size) ==
      match GuestHeapAllocationSize(Wrap(h.cursor), LIMIT, size)
      case None => (h, 0)
      case Some(n) => (h.(cursor := h.cursor + n, live := Emplace(h.live, h.cursor, n)), h.cursor)
  {
    hide RoundUp16;
    var need := Wrap(RoundUp16(size));
    var fits := set f | f in h.free && h.free[f] >= need;
    assert forall f :: f !in fits;
  }

  /**
   An allocation fails exactly when no free block fits and the cursor has no room - which
   includes a size that leaves 32 bits once rounded - and then changes nothing. Otherwise it
   is first fit, and the new block is the only change to what is live.
   */
  lemma AllocateOutcome(h: Heap, size: Word)
    requires Canonical(h) && size > 0
    ensures var (t, address) := Allocate(h, size);
      var need := RoundUp16(size);
      && Canonical(t)
      && (address == 0 <==> !Fits(h.free, need) && h.cursor + need > LIMIT)
      && (address == 0 ==> t == h)
      && (Fits(h.free, need) ==> FirstFit(h.free, need, address) && t.cursor == h.cursor)
      && (address != 0 && !Fits(h.free, need) ==>
            address == h.cursor && t.cursor == h.cursor + need && t.free == h.free)
      && (address != 0 ==> address !in h.live && t.live == h.live[address := need] && t.gaps == h.gaps)
  {
    var need := RoundUp16(size);
    RoundUpBounds(size);
    if Fits(h.free, need) {
      AllocateFromFree(h, size);
      TakeCanonical(h, Allocate(h, size).1, need);
    } else {
      AllocateFromTop(h, size);
      assert BASE <= h.cursor <= LIMIT;
      if h.cursor + need <= LIMIT { BumpCanonical(h, need); }
    }
    hide Canonical, RoundUp16, Allocate;
  }

  lemma AllocationInside(h: Heap, size: Word)
    requires Canonical(h)
    ensures var (t, address) := Allocate(h, size);
      address != 0 ==> BASE <= address && address + RoundUp16(size) <= LIMIT
  {
    var (t, address) := Allocate(h, size);
    if size == 0 {
      var fits := set f | f in h.free && h.free[f] >= 0;
      if fits != {} { FreeBlockBounds(h, address); }
    } else if address != 0 {
      AllocateOutcome(h, size);
      if Fits(h.free, RoundUp16(size)) { FreeBlockBounds(h, address); }
    }
  }

  /** A request for no bytes always succeeds and always breaks the canonical form. */
  lemma ZeroSizeBreaksForm(h: Heap)
    requires Canonical(h)
    ensures Allocate(h, 0).1 != 0 && !Canonical(Allocate(h, 0).0)
  {
    var (t, address) := Allocate(h, 0);
    var fits := set f | f in h.free && h.free[f] >= 0;
    if fits != {} {
      FreeBlockBounds(h, address);
      assert address in t.live && address in t.free;
    } else {
      assert !IsBlock(h, h.cursor);
      assert IsBlock(t, address) && Size(t, address) == 0;
    }
  }

  lemma ZeroSizeEntry(h: Heap)
    requires Canonical(h)
    ensures var (t, address) := Allocate(h, 0);
      address !in h.live && t.live == h.live[address := 0]
  {
    var fits := set f | f in h.free && h.free[f] >= 0;
    if fits == {} { assert !IsBlock(h, h.cursor); }
  }

  lemma AllocateKeepsFormIff(h: Heap, size: Word)
    requires Canonical(h)
    ensures Canonical(Allocate(h, size).0) <==> size != 0
  {
    if size == 0 { ZeroSizeBreaksForm(h); } else { AllocateOutcome(h, size); }
  }

  lemma PageBounds(address: int)
    requires BASE <= address <= LIMIT && Aligned(address)
    ensures address <= RoundUpPage(address) <= LIMIT && RoundUpPage(address) % PAGE == 0
    ensures Aligned(RoundUpPage(address)) && RoundUpPage(address) < address + PAGE
  {
    hide Aligned;
    var x := address + (PAGE - 1);
    SmallMod(x, 0x1_0000_0000);
    PagesAligned(x / PAGE);
  }

  lemma PagesAligned(pages: int)
    ensures Aligned(pages * PAGE) && pages * PAGE % PAGE == 0
  {
    DivModUnique(pages * PAGE, 256 * pages, 0, 16);
    DivModUnique(pages * PAGE, pages, 0, PAGE);
  }

  lemma PageAlignCanonical(h: Heap)
    requires Canonical(h)
    ensures Canonical(PageAlign(h)) && PageAlign(h).cursor % PAGE == 0
    ensures PageAlign(h).live == h.live && PageAlign(h).free == h.free
  {
    PageBounds(h.cursor);
    hide Aligned, RoundUpPage;
    var t := PageAlign(h);
    if t != h {
      assert !IsBlock(h, h.cursor);
      TilesGrow(h, t);
      AlignedSum(t.cursor, h.cursor);
      forall f | f in t.free ensures Apart(t.free, t.cursor, f) { assert Apart(h.free, h.cursor, f) && IsBlock(h, f); }
    }
  }

  // ---- Release ----

  lemma RetractStops(h: Heap, last: int)
    requires Distinct(h) && Tiles(h) && last in h.free && last + h.free[last] != h.cursor
    requires forall f | f in h.free :: f <= last && f + h.free[f] !in h.free
    ensures Coalesced(h.free, h.cursor)
  {
    assert IsBlock(h, last) && Placed(h, last);
    forall f | f in h.free ensures Apart(h.free, h.cursor, f) {
      assert IsBlock(h, f);
      if f < last { BlocksApart(h, f, last); }
    }
  }

  ghost predicate Retractable(h: Heap) {
    Distinct(h) && Tiles(h) && AlignedBlocks(h) && forall f | f in h.free :: f + h.free[f] !in h.free
  }

  lemma RetractStep(h: Heap, last: int)
    requires Retractable(h) && last in h.free && last + h.free[last] == h.cursor
    ensures Retractable(h.(cursor := last, free := h.free - {last})) && |h.free - {last}| < |h.free|
  {
    var t := h.(cursor := last, free := h.free - {last});
    assert IsBlock(h, last) && t.free.Keys == h.free.Keys - {last};
    TilesShrink(h, t);
    hide Tiles;
  }

  lemma {:induction false} RetractCanonical(h: Heap)
    requires Retractable(h)
    ensures var (cursor, free) := Retract(h.cursor, h.free);
      Canonical(h.(cursor := cursor, free := free))
    decreases |h.free|
  {
    if Last(h.free).Some? {
      var last := Last(h.free).value;
      if last + h.free[last] == h.cursor {
        RetractStep(h, last);
        hide Retractable, Canonical;
        RetractCanonical(h.(cursor := last, free := h.free - {last}));
      } else {
        RetractStops(h, last);
        hide Tiles;
      }
    }
  }

  /** `h` with the block at `address` moved from the live to the free blocks. */
  function Freed(h: Heap, address: int): Heap
    requires address in h.live
  {
    h.(live := h.live - {address}, free := h.free[address := h.live[address]])
  }

  lemma FreedTiles(h: Heap, address: int)
    requires Canonical(h) && address in h.live
    ensures var t := Freed(h, address); Distinct(t) && Tiles(t) && AlignedBlocks(t)
  {
    SameTiles(h, Freed(h, address));
  }

  /** Two neighbouring free blocks made one. */
  function Joined(free: Blocks, first: int, second: int): Blocks
    requires first in free && second in free
  {
    (free - {second})[first := free[first] + free[second]]
  }

  lemma JoinedTiles(h: Heap, first: int)
    requires Distinct(h) && Tiles(h) && AlignedBlocks(h) && first in h.free && first + h.free[first] in h.free
    ensures var t := h.(free := Joined(h.free, first, first + h.free[first]));
      Distinct(t) && Tiles(t) && AlignedBlocks(t)
  {
    hide Aligned;
    var second := first + h.free[first];
    var t := h.(free := Joined(h.free, first, second));
    assert IsBlock(h, first) && IsBlock(h, second) && Placed(h, first);
    TilesJoin(h, t, first, second);
    AlignedSum(h.free[first], h.free[second]);
  }

  /** All free blocks keep apart from what follows, except perhaps those at or just before `at`. */
  ghost predicate ApartExcept(free: Blocks, cursor: int, at: int) {
    forall f {:trigger Apart(free, cursor, f)} | f in free && f != at && f + free[f] != at :: Apart(free, cursor, f)
  }

  lemma OnePredecessor(h: Heap, p: int, f: int)
    requires Distinct(h) && Tiles(h) && p in h.free && f in h.free && p + h.free[p] == f + h.free[f]
    ensures p == f
  {
    assert IsBlock(h, p) && IsBlock(h, f) && Placed(h, p) && Placed(h, f);
  }

  lemma LastIsPredecessor(h: Heap, at: int, f: int)
    requires Distinct(h) && Tiles(h) && at in h.free && f in h.free && f + h.free[f] == at
    ensures LastBelow(h.free - {at}, at + 1) == Some(f)
  {
    assert IsBlock(h, f) && Placed(h, f);
    var rest := h.free - {at};
    assert f in rest && f < at;
    forall c | c in rest && f < c ensures at <= c {
      assert IsBlock(h, c);
      BlocksApart(h, f, c);
    }
  }

  lemma JoinPrevious(h: Heap, at: int)
    requires Distinct(h) && Tiles(h) && AlignedBlocks(h) && at in h.free
    requires ApartExcept(h.free, h.cursor, at) && Apart(h.free, h.cursor, at)
    ensures var rest := h.free - {at};
      var merged := match LastBelow(rest, at + 1)
        case Some(p) => if p + rest[p] == at then rest[p := rest[p] + h.free[at]] else Emplace(rest, at, h.free[at])
        case None => Emplace(rest, at, h.free[at]);
      Canonical(h.(free := merged))
  {
    var rest := h.free - {at};
    assert IsBlock(h, at) && Placed(h, at);
    var below := LastBelow(rest, at + 1);
    if below.Some? && below.value + rest[below.value] == at {
      var p := below.value;
      JoinedTiles(h, p);
      var merged := Joined(h.free, p, at);
      assert merged == rest[p := rest[p] + h.free[at]];
      forall f | f in merged ensures Apart(merged, h.cursor, f) {
        if f == p {
          assert Apart(h.free, h.cursor, at);
        } else if f + h.free[f] == at {
          OnePredecessor(h, p, f);
        } else {
          assert Apart(h.free, h.cursor, f);
        }
      }
    } else {
      assert h.free == Emplace(rest, at, h.free[at]);
      forall f | f in h.free && f + h.free[f] == at ensures below == Some(f) { LastIsPredecessor(h, at, f); }
      forall f | f in h.free ensures Apart(h.free, h.cursor, f) { }
    }
  }

  lemma NextFree(h: Heap, address: int)
    requires Canonical(h) && address in h.live
    ensures address + h.live[address] in h.free <==> UpperBound(h.free, address) == Some(address + h.live[address])
  {
    var next := UpperBound(h.free, address);
    assert IsBlock(h, address) && Placed(h, address);
    if next.Some? { assert IsBlock(h, next.value); }
  }

  /** What the freed block leaves to be joined. */
  lemma FreedApart(h: Heap, address: int)
    requires Canonical(h) && address in h.live
    ensures ApartExcept(Freed(h, address).free, h.cursor, address)
  {
    var t := Freed(h, address);
    assert IsBlock(h, address);
    hide Tiles, AlignedBlocks;
    forall f | f in t.free && f != address && f + t.free[f] != address ensures Apart(t.free, t.cursor, f) {
      assert Apart(h.free, h.cursor, f);
    }
  }

  lemma CoalesceAlone(h: Heap, address: int)
    requires Canonical(h) && address in h.live && address + h.live[address] != h.cursor
      && address + h.live[address] !in h.free
    ensures Canonical(Release(h, address))
  {
    var t := Freed(h, address);
    FreedTiles(h, address);
    FreedApart(h, address);
    NextFree(h, address);
    assert IsBlock(h, address) && Placed(h, address);
    hide Tiles, AlignedBlocks, ApartExcept, Coalesced;
    assert Apart(t.free, t.cursor, address);
    JoinPrevious(t, address);
    hide Canonical;
    assert t.free - {address} == h.free;
  }

  lemma CoalesceWithNext(h: Heap, address: int)
    requires Canonical(h) && address in h.live && address + h.live[address] != h.cursor
      && address + h.live[address] in h.free
    ensures Canonical(Release(h, address))
  {
    var t, next := Freed(h, address), address + h.live[address];
    FreedTiles(h, address);
    NextFree(h, address);
    NextJoined(h, address);
    assert IsBlock(h, address) && Placed(h, address);
    hide Tiles, AlignedBlocks, ApartExcept, Coalesced, Apart;
    JoinedTiles(t, address);
    var u := t.(free := Joined(t.free, address, next));
    JoinPrevious(u, address);
    hide Canonical;
    assert u.free - {address} == h.free - {next};
  }

  lemma CoalesceCanonical(h: Heap, address: int)
    requires Canonical(h) && address in h.live && address + h.live[address] != h.cursor
    ensures Canonical(Release(h, address))
  {
    hide Canonical, Release;
    if address + h.live[address] in h.free { CoalesceWithNext(h, address); } else { CoalesceAlone(h, address); }
  }

  /** Joining the freed block with the one after it leaves the others as they were. */
  lemma NextJoined(h: Heap, address: int)
    requires Canonical(h) && address in h.live && address + h.live[address] in h.free
    ensures var free := Joined(Freed(h, address).free, address, address + h.live[address]);
      ApartExcept(free, h.cursor, address) && Apart(free, h.cursor, address)
  {
    var next := address + h.live[address];
    var free := Joined(Freed(h, address).free, address, next);
    assert Apart(h.free, h.cursor, next) && IsBlock(h, next) && Placed(h, next) && IsBlock(h, address);
    forall f | f in free && f != address && f + free[f] != address ensures Apart(free, h.cursor, f) {
      assert Apart(h.free, h.cursor, f);
    }
    assert Placed(h, address);
  }

  lemma ReleaseCanonical(h: Heap, address: int)
    requires Canonical(h)
    ensures var t := Release(h, address);
      Canonical(t) && t.live == h.live - {address} && t.gaps == h.gaps
  {
    if address in h.live {
      if address + h.live[address] == h.cursor {
        var t := h.(cursor := address, live := h.live - {address});
        assert IsBlock(h, address);
        TilesShrink(h, t);
        forall f | f in t.free ensures f + t.free[f] !in t.free { assert Apart(h.free, h.cursor, f); }
        RetractCanonical(t);
      } else {
        CoalesceCanonical(h, address);
      }
    } else {
      assert h.live - {address} == h.live;
    }
  }

  // ---- History independence ----

  /** Giving an allocation straight back restores the heap exactly. */
  lemma AllocateReleaseRestores(h: Heap, size: Word)
    requires Canonical(h) && size > 0
    ensures var (t, address) := Allocate(h, size); Release(t, address) == h
  {
    var (t, address) := Allocate(h, size);
    AllocateOutcome(h, size);
    ReleaseCanonical(t, address);
    if address != 0 {
      assert t.live - {address} == h.live;
      CanonicalFormUnique(Release(t, address), h);
    } else {
      assert 0 !in h.live by { assert 0 in h.live ==> IsBlock(h, 0) && Placed(h, 0); }
    }
  }

  lemma ReleasesCommute(h: Heap, a: int, b: int)
    requires Canonical(h)
    ensures Release(Release(h, a), b) == Release(Release(h, b), a)
  {
    ReleaseCanonical(h, a);
    ReleaseCanonical(Release(h, a), b);
    ReleaseCanonical(h, b);
    ReleaseCanonical(Release(h, b), a);
    assert h.live - {a} - {b} == h.live - {b} - {a};
    CanonicalFormUnique(Release(Release(h, a), b), Release(Release(h, b), a));
  }

  function ReleaseEach(h: Heap, addresses: seq<int>): Heap
    decreases |addresses|
  {
    if addresses == [] then h else ReleaseEach(Release(h, addresses[0]), addresses[1..])
  }

  lemma {:induction false} ReleaseEachCanonical(h: Heap, addresses: seq<int>)
    requires Canonical(h)
    ensures var t := ReleaseEach(h, addresses);
      Canonical(t) && t.gaps == h.gaps && t.live.Keys == h.live.Keys - (set a | a in addresses)
    decreases |addresses|
  {
    if addresses != [] {
      ReleaseCanonical(h, addresses[0]);
      ReleaseEachCanonical(Release(h, addresses[0]), addresses[1..]);
      assert addresses == [addresses[0]] + addresses[1..];
      assert (set a | a in addresses) == {addresses[0]} + (set a | a in addresses[1..]);
    }
  }

  lemma AllReleased(h: Heap, addresses: seq<int>)
    requires Canonical(h) && forall a | a in h.live :: a in addresses
    ensures var t := ReleaseEach(h, addresses); Canonical(t) && t.live == map[] && t.gaps == h.gaps
  {
    ReleaseEachCanonical(h, addresses);
    var t := ReleaseEach(h, addresses);
    var all := set a | a in addresses;
    forall a | a in h.live.Keys ensures a in all { assert a in h.live; }
    assert t.live.Keys == h.live.Keys - all;
  }

  /** Releasing everything, in any order, leaves nothing but what page alignment wasted. */
  lemma ReleaseAll(h: Heap, addresses: seq<int>, other: seq<int>)
    requires Canonical(h) && forall a | a in h.live :: a in addresses && a in other
    ensures ReleaseEach(h, addresses) == ReleaseEach(h, other)
    ensures h.gaps == map[] ==> ReleaseEach(h, addresses) == EMPTY
  {
    AllReleased(h, addresses);
    AllReleased(h, other);
    CanonicalFormUnique(ReleaseEach(h, addresses), ReleaseEach(h, other));
    if h.gaps == map[] {
      EmptyCanonical();
      CanonicalFormUnique(ReleaseEach(h, addresses), EMPTY);
    }
  }

  lemma EmptyCanonical()
    ensures Canonical(EMPTY)
  {
  }

  // ---- Reallocation ----

  /** RtlReAllocateHeap gives the old block back whether or not a new one was found. */
  function Reallocate(h: Heap, previous: int, size: Word): (Heap, int) {
    var (t, address) := Allocate(h, size);
    (Release(t, previous), address)
  }

  lemma ReleaseForgets(h: Heap, address: int)
    ensures Release(h, address).live == h.live - {address}
    ensures Release(h, address).gaps == h.gaps
  {
  }

  lemma ZeroSizeReleased(h: Heap)
    requires Canonical(h)
    ensures var (t, address) := Allocate(h, 0); Release(t, address) == h
  {
    ZeroSizeEntry(h);
    var (t, address) := Allocate(h, 0);
    assert t.live - {address} == h.live;
    var fits := set f | f in h.free && h.free[f] >= 0;
    if fits == {} {
      assert forall f | f in h.free :: IsBlock(h, f) && Placed(h, f);
      assert forall f :: f in h.free ==> f in fits;
      assert Last(h.free).None?;
    } else {
      FreeBlockBounds(h, address);
      assert Apart(h.free, h.cursor, address);
      assert t.free == h.free;
      assert LastBelow(h.free, address + 1) == Some(address);
    }
  }

  lemma ReallocateKeepsFormIff(h: Heap, previous: int, size: Word)
    requires Canonical(h)
    ensures Canonical(Reallocate(h, previous, size).0) <==> size != 0 || previous == Allocate(h, 0).1
  {
    var (t, address) := Allocate(h, size);
    if size != 0 {
      AllocateOutcome(h, size);
      ReleaseCanonical(t, previous);
    } else {
      ZeroSizeEntry(h);
      ReleaseForgets(t, previous);
      if previous == address {
        ZeroSizeReleased(h);
      } else {
        var u := Release(t, previous);
        assert Canonical(u) && IsBlock(u, address) ==> Placed(u, address);
      }
    }
  }

  /** The other blocks stay as they were, and apart from the new one. */
  lemma ReallocateKeepsOthers(h: Heap, previous: int, size: Word, other: int)
    requires Canonical(h) && other in h.live && other != previous
    ensures var (t, address) := Reallocate(h, previous, size);
      && other in t.live && t.live[other] == h.live[other]
      && (address != 0 ==> other + h.live[other] <= address || address + RoundUp16(size) <= other)
  {
    var (t, address) := Allocate(h, size);
    if size == 0 { ZeroSizeEntry(h); } else { AllocateOutcome(h, size); }
    ReleaseForgets(t, previous);
    if address != 0 { ReallocateApart(h, other, size); }
  }

  lemma ReallocateApart(h: Heap, previous: int, size: Word)
    requires Canonical(h) && previous in h.live && Allocate(h, size).1 != 0
    ensures var address := Allocate(h, size).1;
      previous + h.live[previous] <= address || address + RoundUp16(size) <= previous
  {
    if size == 0 {
      ZeroSizeApart(h, previous);
    } else {
      var (t, address) := Allocate(h, size);
      AllocateOutcome(h, size);
      assert IsBlock(t, previous) && IsBlock(t, address);
    }
  }

  /** A block of no bytes starts where a free block or the unused rest does. */
  lemma ZeroSizeApart(h: Heap, other: int)
    requires Canonical(h) && other in h.live
    ensures var address := Allocate(h, 0).1;
      other + h.live[other] <= address || address <= other
  {
    var fits := set f | f in h.free && h.free[f] >= 0;
    assert IsBlock(h, other) && Placed(h, other);
    if fits != {} {
      var address := Allocate(h, 0).1;
      assert address in h.free && IsBlock(h, address);
    }
  }

  /** Reallocation is an allocation by the old heap; the previous block goes either way, also when there was no room. */
  lemma ReallocateOutcome(h: Heap, previous: int, size: Word)
    requires Canonical(h) && size > 0
    ensures var (t, address) := Reallocate(h, previous, size);
      var need := (size + 15) / 16 * 16;
      && Canonical(t) && t.gaps == h.gaps
      && t.live == (if address == 0 then h.live else h.live[address := need]) - {previous}
      && (address == 0 <==> !Fits(h.free, need) && h.cursor + need > 0x8000_0000)
      && (Fits(h.free, need) ==> FirstFit(h.free, need, address))
      && (address != 0 && !Fits(h.free, need) ==> address == h.cursor)
  {
    AllocateOutcome(h, size);
    ReleaseCanonical(Allocate(h, size).0, previous);
    hide Canonical, Allocate, Release, Fits, FirstFit;
  }

  // ---- Physical requests ----

  /** The first page boundary that is not below an address. */
  function NextPage(address: int): int {
    (address + 0xFFF) / 0x1000 * 0x1000
  }

  lemma NextPageNear(address: int)
    ensures address <= NextPage(address) < address + 0x1000 && NextPage(address) % 0x1000 == 0
  {
  }

  /**
   A physical request: the cursor goes to the next page boundary first, and what it skips is a gap,
   whatever becomes of the request. It fails exactly when no free block fits and that page has no
   room; a free block that fits is first fit, at any address, and otherwise the block is the page.
   */
  lemma PhysicalOutcome(h: Heap, size: Word)
    requires Canonical(h) && size > 0
    ensures var (t, address) := AllocatePhysical(h, size);
      var (page, need) := (NextPage(h.cursor), (size + 15) / 16 * 16);
      && Canonical(t) && h.cursor <= page < h.cursor + 0x1000 && page % 0x1000 == 0
      && t.gaps == (if page == h.cursor then h.gaps else h.gaps[h.cursor := page - h.cursor])
      && (address == 0 <==> !Fits(h.free, need) && page + need > 0x8000_0000)
      && (address == 0 ==> t.cursor == page && t.free == h.free && t.live == h.live)
      && (Fits(h.free, need) ==> FirstFit(h.free, need, address) && t.cursor == page)
      && (address != 0 && !Fits(h.free, need) ==> address == page && t.cursor == page + need && t.free == h.free)
      && (address != 0 ==> address !in h.live && t.live == h.live[address := need])
  {
    NextPageNear(h.cursor);
    PageAlignCanonical(h);
    PageAlignMoves(h);
    hide Canonical, Allocate, Fits, FirstFit, PageAlign, NextPage, RoundUp16;
    SixteenBytes(size);
    AllocateOutcome(PageAlign(h), size);
  }

  lemma PageAlignMoves(h: Heap)
    requires Canonical(h)
    ensures var (t, page) := (PageAlign(h), NextPage(h.cursor));
      && t.cursor == page
      && t.gaps == if page == h.cursor then h.gaps else h.gaps[h.cursor := page - h.cursor]
  {
    assert BASE <= h.cursor <= LIMIT;
    hide Canonical;
  }

  lemma SixteenBytes(size: int)
    ensures RoundUp16(size) == (size + 15) / 16 * 16
  {
  }

  /** The first 16 bytes of the heap, and the first page behind them. */
  lemma FirstAddresses()
    ensures var (t, first) := Allocate(EMPTY, 16);
      var (u, second) := AllocatePhysical(t, 0x1000);
      first == 0x6000_0000 && second == 0x6000_1000 && u.cursor == 0x6000_2000 && u.gaps == map[0x6000_0010 := 0xFF0]
  {
    EmptyCanonical();
    AllocateOutcome(EMPTY, 16);
    var t := Allocate(EMPTY, 16).0;
    assert NextPage(t.cursor) == 0x6000_1000;
    PhysicalOutcome(t, 0x1000);
    hide Canonical, Allocate, AllocatePhysical;
    assert !Fits(EMPTY.free, 16) && !Fits(t.free, 0x1000);
  }

  // ---- Whole runs ----

  datatype Call =
    | AllocateCall(size: Word)
    | PhysicalCall(bytes: Word)
    | ReleaseCall(address: int)
    | ReallocateCall(previous: int, wanted: Word)

  /** The calls that keep a canonical heap canonical: none for no bytes, unless its block is given straight back. */
  predicate Proper(h: Heap, call: Call) {
    match call
    case AllocateCall(size) => size > 0
    case PhysicalCall(bytes) => bytes > 0
    case ReleaseCall(_) => true
    case ReallocateCall(previous, wanted) => wanted > 0 || previous == Allocate(h, 0).1
  }

  function Apply(h: Heap, call: Call): Heap {
    match call
    case AllocateCall(size) => Allocate(h, size).0
    case PhysicalCall(bytes) => AllocatePhysical(h, bytes).0
    case ReleaseCall(address) => Release(h, address)
    case ReallocateCall(previous, wanted) => Reallocate(h, previous, wanted).0
  }

  function Run(h: Heap, calls: seq<Call>): Heap
    decreases |calls|
  {
    if calls == [] then h else Run(Apply(h, calls[0]), calls[1..])
  }

  /** Every call keeps the canonical form exactly when it is proper. */
  lemma CallKeepsFormIff(h: Heap, call: Call)
    requires Canonical(h)
    ensures Canonical(Apply(h, call)) <==> Proper(h, call)
  {
    hide Canonical, Allocate, Release, PageAlign;
    match call
    case AllocateCall(size) => AllocateKeepsFormIff(h, size);
    case PhysicalCall(bytes) =>
      PageAlignCanonical(h);
      AllocateKeepsFormIff(PageAlign(h), bytes);
    case ReleaseCall(address) => ReleaseCanonical(h, address);
    case ReallocateCall(previous, wanted) => ReallocateKeepsFormIff(h, previous, wanted);
  }

  predicate ProperRun(h: Heap, calls: seq<Call>)
    decreases |calls|
  {
    calls == [] || (Proper(h, calls[0]) && ProperRun(Apply(h, calls[0]), calls[1..]))
  }

  /** The heap is canonical after every call of the run. */
  ghost predicate CanonicalThroughout(h: Heap, calls: seq<Call>)
    decreases |calls|
  {
    Canonical(h) && (calls == [] || CanonicalThroughout(Apply(h, calls[0]), calls[1..]))
  }

  /** A run keeps the heap canonical throughout exactly when all its calls are proper. */
  lemma {:induction false} RunCanonicalIff(h: Heap, calls: seq<Call>)
    requires Canonical(h)
    ensures CanonicalThroughout(h, calls) <==> ProperRun(h, calls)
    ensures ProperRun(h, calls) ==> Canonical(Run(h, calls))
    decreases |calls|
  {
    hide Canonical, Apply, Proper;
    if calls != [] {
      CallKeepsFormIff(h, calls[0]);
      if Canonical(Apply(h, calls[0])) {
        RunCanonicalIff(Apply(h, calls[0]), calls[1..]);
      }
    }
  }

  /** Only what is live, and what alignment wasted, can tell two runs apart. */
  lemma HistoryIndependence(calls: seq<Call>, other: seq<Call>)
    requires ProperRun(EMPTY, calls) && ProperRun(EMPTY, other)
    requires Run(EMPTY, calls).live == Run(EMPTY, other).live && Run(EMPTY, calls).gaps == Run(EMPTY, other).gaps
    ensures Run(EMPTY, calls) == Run(EMPTY, other)
  {
    hide ProperRun, Run, Canonical;
    EmptyCanonical();
    RunCanonicalIff(EMPTY, calls);
    RunCanonicalIff(EMPTY, other);
    CanonicalFormUnique(Run(EMPTY, calls), Run(EMPTY, other));
  }

  /** After a request for no bytes the next request can be given the same address again. */
  lemma ZeroSizeSharesAddress()
    ensures var (h, first) := Allocate(EMPTY, 0);
      var (t, second) := Allocate(h, 16);
      first == second == BASE && first in h.live && t.live[second] == 0
  {
    assert (set f | f in EMPTY.free && EMPTY.free[f] >= 0) == {};
    var h := Allocate(EMPTY, 0).0;
    assert (set f | f in h.free && h.free[f] >= 16) == {};
  }
}

/** The allocator as the service layer runs it, on fields it updates in place. */
module GuestHeapService {
  import opened Words
  import opened Order
  import opened HeapModel

  class GuestHeap {
    var cursor: int
    var live: Blocks
    var free: Blocks
    ghost var gaps: Blocks
    const memory: array<Byte>

    ghost function State(): Heap
      reads this
    {
      Heap(cursor, live, free, gaps)
    }

    ghost predicate Valid()
      reads this
    {
      Canonical(State()) && memory.Length == LIMIT
    }

    constructor ()
      ensures Valid() && State() == EMPTY && fresh(memory)
    {
      cursor, live, free, gaps := BASE, map[], map[], map[];
      memory := new Byte[LIMIT];
      new;
      EmptyCanonical();
    }

    method Clear(address: int, size: int)
      requires 0 <= address && 0 <= size && address + size <= memory.Length
      modifies memory
      ensures forall i | 0 <= i < memory.Length ::
        memory[i] == if address <= i < address + size then 0 else old(memory[i])
    {
      forall i | address <= i < address + size {
        memory[i] := 0;
      }
    }

    /** The first free block, in address order, that holds `need` bytes. */
    method FindBlock(need: int) returns (block: Option<int>)
      requires Valid()
      ensures block.Some? ==> FirstFit(free, need, block.value)
      ensures block.None? ==> forall f | f in free :: free[f] < need
    {
      block := First(free);
      while block.Some?
        invariant block.Some? ==> block.value in free
        invariant forall f | f in free && (block.None? || f < block.value) :: free[f] < need
        decreases if block.Some? then LIMIT - block.value else -1
      {
        if free[block.value] >= need {
          return;
        }
        FreeBlockBounds(State(), block.value);
        block := UpperBound(free, block.value);
        if block.Some? { FreeBlockBounds(State(), block.value); }
      }
    }

    /** The bookkeeping of an allocation, which leaves the bytes alone. */
    method Reserve(size: Word) returns (address: int)
      requires Valid()
      modifies this
      ensures (State(), address) == HeapModel.Allocate(old(State()), size)
    {
      assert BASE <= cursor <= LIMIT;
      RoundUpBounds(size);
      var need := Wrap(RoundUp16(size));
      if need < size {
        return 0;
      }
      var block := FindBlock(need);
      hide Canonical, RoundUp16;
      if block.Some? {
        address := block.value;
        FirstFitTaken(State(), size, address);
        var remainder := free[address] - need;
        free := free - {address};
        if remainder != 0 {
          free := Emplace(free, address + need, remainder);
        }
        live := Emplace(live, address, need);
        return;
      }
      NoFitFromTop(State(), size);
      var checked := GuestHeapAllocationSize(cursor, LIMIT, size);
      if checked.None? {
        return 0;
      }
      address := cursor;
      cursor := cursor + checked.value;
      live := Emplace(live, address, checked.value);
    }

    /** A block found for a request for `size` bytes lies inside the heap. */
    method Allocate(size: Word, clear: bool) returns (address: int)
      requires Valid()
      modifies this, memory
      ensures (State(), address) == HeapModel.Allocate(old(State()), size)
      ensures Valid() <==> size != 0
      ensures address != 0 ==> BASE <= address && address + RoundUp16(size) <= LIMIT
      ensures forall i | 0 <= i < memory.Length ::
        memory[i] == if clear && address != 0 && address <= i < address + RoundUp16(size) then 0 else old(memory[i])
    {
      AllocateKeepsFormIff(State(), size);
      AllocationInside(State(), size);
      address := Reserve(size);
      RoundUpBounds(size);
      hide Canonical, RoundUp16, HeapModel.Allocate;
      if clear && address != 0 {
        Clear(address, RoundUp16(size));
      }
    }

    method AllocatePhysical(size: Word) returns (address: int)
      requires Valid()
      modifies this, memory
      ensures (State(), address) == HeapModel.AllocatePhysical(old(State()), size)
      ensures Valid() <==> size != 0
      ensures memory[..] == old(memory[..])
    {
      PageAlignCanonical(State());
      var aligned := RoundUpPage(cursor);
      if aligned != cursor {
        gaps := gaps[cursor := aligned - cursor];
      }
      cursor := aligned;
      address := Allocate(size, false);
    }

    /** Gives the free blocks at the top of the heap back to the cursor. */
    method RetractCursor()
      modifies this
      ensures (cursor, free) == Retract(old(cursor), old(free))
      ensures live == old(live) && gaps == old(gaps)
    {
      var last := Last(free);
      while last.Some?
        invariant last == Last(free) && live == old(live) && gaps == old(gaps)
        invariant Retract(cursor, free) == Retract(old(cursor), old(free))
        decreases |free|
      {
        if last.value + free[last.value] != cursor {
          break;
        }
        assert (free - {last.value}).Keys == free.Keys - {last.value};
        cursor := last.value;
        free := free - {last.value};
        last := Last(free);
      }
    }

    method Release(address: int)
      modifies this
      ensures State() == HeapModel.Release(old(State()), address)
      ensures old(Valid()) ==> Valid()
    {
      if Canonical(State()) { ReleaseCanonical(State(), address); }
      hide Canonical;
      if address !in live {
        return;
      }
      var size := live[address];
      live := live - {address};
      if address + size == cursor {
        cursor := address;
        RetractCursor();
        return;
      }
      var next := UpperBound(free, address);
      if next.Some? && address + size == next.value {
        size := size + free[next.value];
        free := free - {next.value};
      }
      var previous := LastBelow(free, address + 1);
      if previous.Some? && previous.value + free[previous.value] == address {
        free := free[previous.value := free[previous.value] + size];
      } else {
        free := Emplace(free, address, size);
      }
    }

    /** The bytes [to, to + count) become those at [from, from + count). */
    method Copy(to: int, from: int, count: int)
      requires 0 <= to && 0 <= from && 0 <= count && to + count <= memory.Length && from + count <= memory.Length
      modifies memory
      ensures forall i | 0 <= i < memory.Length ::
        memory[i] == if to <= i < to + count then old(memory[i - to + from]) else old(memory[i])
    {
      forall i | to <= i < to + count {
        memory[i] := memory[i - to + from];
      }
    }

    method Reallocate(previous: int, size: Word) returns (address: int)
      requires Valid()
      modifies this, memory
      ensures (State(), address) == HeapModel.Reallocate(old(State()), previous, size)
      ensures Valid() <==> size != 0 || previous == address
      ensures memory.Length == LIMIT
      ensures previous in old(live) ==> BASE <= previous && previous + old(live)[previous] <= LIMIT
      ensures address != 0 ==> BASE <= address && address + RoundUp16(size) <= LIMIT
      ensures address != 0 ==>
        var kept := if previous in old(live) then Min(old(live)[previous], size) else 0;
        forall i {:trigger memory[address + i]} | 0 <= i < RoundUp16(size) ::
          memory[address + i] == if i < kept then old(memory[previous + i]) else 0
      ensures forall i | 0 <= i < memory.Length && !(address != 0 && address <= i < address + RoundUp16(size)) ::
        memory[i] == old(memory[i])
    {
      ghost var h := State();
      ReallocateKeepsFormIff(h, previous, size);
      RoundUpBounds(size);
      var oldSize := if previous in live then live[previous] else 0;
      if previous in live { assert IsBlock(h, previous) && Placed(h, previous); }
      if size > 0 && HeapModel.Allocate(h, size).1 != 0 && previous in live { ReallocateApart(h, previous, size); }
      hide Canonical, RoundUp16, HeapModel.Allocate;
      address := Allocate(size, true);
      if address != 0 && previous != 0 && oldSize != 0 {
        Copy(address, previous, Min(oldSize, size));
      }
      Release(previous);
    }
  }
}
