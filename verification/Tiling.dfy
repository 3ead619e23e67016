/** Where the blocks of a tiled Xenos texture lie, by the runtime and by the installer. */
module Tiling {
  import opened Words
  import opened Bits
  import opened Arithmetic

  /** The swizzle puts two coordinates' low bits and the packed block number into fixed places. */
  function Place(packed: int, low: int, pipe: int, bank: int): int {
    low * 16 + pipe * 64 + bank * 2048
      + packed % 16 + packed / 16 % 2 * 32 + packed / 32 % 8 * 256 + packed / 256 * 4096
  }

  function BlockSize(log2: nat): int {
    Pow2(log2)
  }

  /** The block number within a 32 by 32 tile, without the bits that go elsewhere. */
  function InnerBlock(x: int, y: int): int {
    y / 2 % 8 * 8 + x % 8
  }

  /** Bytes from the base of a tiled texture to the block (x, y), in 32-bit arithmetic. */
  function TextureOffset(x: Word, y: Word, pitch: Word, log2: nat): Word {
    var outer := Wrap(Wrap(y / 32 * (pitch / 32) + x / 32) * 64);
    var packed := Wrap((outer + InnerBlock(x, y)) * BlockSize(log2));
    var pipe := Xor(x / 8 % 4, y / 8 % 2 * 2);
    Wrap(Place(packed, y % 2, pipe, y / 16 % 2))
  }

  /** The installer's own formula, for four bytes a pixel. */
  function TiledOffset(x: Word, y: Word, pitch: Word): Word {
    var macro := Wrap((x / 32 + y / 32 * (pitch / 32)) * 512);
    var micro := (x % 8 + y / 2 % 8 * 2 * 4) * 4;
    var offset := Wrap(macro + micro / 16 * 16 * 2 + micro % 16 + y % 2 * 16);
    Wrap(offset / 512 * 512 * 8 + y / 16 % 2 * 16 * 128 + offset / 64 % 8 * 64 * 4
           + (y / 8 % 2 * 8 / 4 + x / 8) % 4 * 64 + offset % 64)
  }

  // ---- The two formulas agree ----

  lemma XorOfPipe(a: int, b: int)
    requires 0 <= a < 4 && 0 <= b < 2
    ensures Xor(a, b * 2) == (a + 2 * b) % 4
    ensures Xor(Xor(a, b * 2), b * 2) == a
  {
    assert Xor(0, 2) == 2 && Xor(1, 2) == 3 && Xor(2, 2) == 0 && Xor(3, 2) == 1;
    assert Xor(0, 0) == 0 && Xor(1, 0) == 1 && Xor(2, 0) == 2 && Xor(3, 0) == 3;
  }

  lemma ShiftedTile(m: int)
    ensures Wrap(Wrap(m) * 64) == 64 * (m % 0x400_0000)
    ensures Wrap(m * 512) == 512 * (m % 0x80_0000)
  {
    var r: int := Wrap(m);
    ModOfMod(m, 0x400_0000, 64, 0x1_0000_0000);
    DivModUnique(r * 64, r / 0x400_0000, 64 * (r % 0x400_0000), 0x1_0000_0000);
    DivModUnique(m * 512, m / 0x80_0000, 512 * (m % 0x80_0000), 0x1_0000_0000);
  }

  lemma PackedPixel(m: int, inner: int)
    requires 0 <= inner < 64
    ensures Wrap((64 * (m % 0x400_0000) + inner) * 4) == 256 * (m % 0x100_0000) + 4 * inner
  {
    var s := m % 0x400_0000;
    ModOfMod(m, 0x100_0000, 4, 0x400_0000);
    DivModUnique((64 * s + inner) * 4, s / 0x100_0000, 256 * (s % 0x100_0000) + 4 * inner, 0x1_0000_0000);
  }

  /** Place moves the digits of the packed block number apart. */
  lemma PlaceDigits(d0: int, d1: int, d2: int, d3: int, low: int, pipe: int, bank: int)
    requires 0 <= d0 < 16 && 0 <= d1 < 2 && 0 <= d2 < 8
    ensures Place(d0 + 16 * d1 + 32 * d2 + 256 * d3, low, pipe, bank)
         == d0 + 16 * low + 32 * d1 + 64 * pipe + 256 * d2 + 2048 * bank + 4096 * d3
  {
    var packed := d0 + 16 * d1 + 32 * d2 + 256 * d3;
    DivModUnique(packed, d1 + 2 * d2 + 16 * d3, d0, 16);
    DivModUnique(d1 + 2 * d2 + 16 * d3, d2 + 8 * d3, d1, 2);
    DivModUnique(packed, d2 + 8 * d3, d0 + 16 * d1, 32);
    DivModUnique(d2 + 8 * d3, d3, d2, 8);
    DivModUnique(packed, d3, d0 + 16 * d1 + 32 * d2, 256);
  }

  lemma WrapTile(tile: int, rest: int)
    requires 0 <= rest < 4096
    ensures Wrap(4096 * tile + rest) == 4096 * (tile % 0x10_0000) + rest
  {
    DivModUnique(4096 * tile + rest, tile / 0x10_0000, 4096 * (tile % 0x10_0000) + rest, 0x1_0000_0000);
  }

  /** The digits of the block number within a tile, in bytes. */
  lemma InnerDigits(inner: int)
    requires 0 <= inner < 64
    ensures var micro := inner * 4;
      && micro == micro % 16 + 16 * (micro / 16 % 2) + 32 * (micro / 32)
      && 0 <= micro / 32 < 8 && micro / 16 == micro / 16 % 2 + 2 * (micro / 32)
  {
    DivDiv(inner * 4, 16, 2, 32);
  }

  /** The installer's formula moves the same digits to the same places. */
  lemma InstallerPlaces(tile: int, d0: int, d1: int, d2: int, low: int)
    requires 0 <= tile < 0x80_0000 && 0 <= d0 < 16 && 0 <= d1 < 2 && 0 <= d2 < 8 && 0 <= low < 2
    ensures var offset := Wrap(512 * tile + (d1 + 2 * d2) * 16 * 2 + d0 + low * 16);
      && offset / 512 == tile && offset / 64 % 8 == d2 && offset % 64 == d0 + 16 * low + 32 * d1
  {
    var offset := 512 * tile + (d1 + 2 * d2) * 16 * 2 + d0 + low * 16;
    DivModUnique(offset, tile, 64 * d2 + 32 * d1 + 16 * low + d0, 512);
    DivModUnique(offset, 8 * tile + d2, 32 * d1 + 16 * low + d0, 64);
    DivModUnique(8 * tile + d2, tile, d2, 8);
  }

  /** A pixel's offset by digits: its tile, and the places of its bits within the tile. */
  function PixelOffset(x: int, y: int, tile: int): int {
    var micro := InnerBlock(x, y) * 4;
    micro % 16 + 16 * (y % 2) + 32 * (micro / 16 % 2) + 64 * ((y / 8 % 2 * 2 + x / 8) % 4) + 256 * (micro / 32)
      + 2048 * (y / 16 % 2) + 4096 * (tile % 0x10_0000)
  }

  lemma PipeSums(x: int, y: int)
    ensures Xor(x / 8 % 4, y / 8 % 2 * 2) == (y / 8 % 2 * 2 + x / 8) % 4
  {
    XorOfPipe(x / 8 % 4, y / 8 % 2);
    ModAdds(x / 8, y / 8 % 2 * 2, 4);
  }

  lemma PackedInTile(m: int, inner: int)
    requires 0 <= inner < 64
    ensures Wrap((Wrap(Wrap(m) * 64) + inner) * BlockSize(2)) == 256 * (m % 0x100_0000) + 4 * inner
  {
    ShiftedTile(m);
    PackedPixel(m, inner);
    assert Pow2(2) == 4;
  }

  /** The runtime's formula places the digits of a block of four bytes. */
  lemma PlacedPixel(m: int, inner: int, low: int, pipe: int, bank: int)
    requires 0 <= inner < 64 && 0 <= low < 2 && 0 <= pipe < 4 && 0 <= bank < 2
    ensures var micro := inner * 4;
      Wrap(Place(256 * (m % 0x100_0000) + micro, low, pipe, bank))
        == micro % 16 + 16 * low + 32 * (micro / 16 % 2) + 64 * pipe + 256 * (micro / 32)
             + 2048 * bank + 4096 * (m % 0x10_0000)
  {
    hide Place;
    var micro := inner * 4;
    InnerDigits(inner);
    PlaceDigits(micro % 16, micro / 16 % 2, micro / 32, m % 0x100_0000, low, pipe, bank);
    WrapTile(m % 0x100_0000,
             micro % 16 + 16 * low + 32 * (micro / 16 % 2) + 64 * pipe + 256 * (micro / 32) + 2048 * bank);
    TileBits(m);
  }

  lemma RuntimeByDigits(x: Word, y: Word, pitch: Word)
    ensures TextureOffset(x, y, pitch, 2) == PixelOffset(x, y, y / 32 * (pitch / 32) + x / 32)
  {
    hide Place, Xor, InnerBlock, BlockSize, Wrap;
    var m := y / 32 * (pitch / 32) + x / 32;
    InnerRange(x, y);
    PipeSums(x, y);
    PackedInTile(m, InnerBlock(x, y));
    PlacedPixel(m, InnerBlock(x, y), y % 2, (y / 8 % 2 * 2 + x / 8) % 4, y / 16 % 2);
  }

  lemma InnerRange(x: int, y: int)
    ensures 0 <= InnerBlock(x, y) < 64
  {
  }

  /** The installer's formula places the digits of a block of four bytes. */
  lemma InstalledPixel(m: int, inner: int, low: int, pipe: int, bank: int)
    requires 0 <= inner < 64 && 0 <= low < 2 && 0 <= pipe < 4 && 0 <= bank < 2
    ensures var micro := inner * 4;
      var offset := Wrap(Wrap(m * 512) + micro / 16 * 16 * 2 + micro % 16 + low * 16);
      Wrap(offset / 512 * 512 * 8 + bank * 16 * 128 + offset / 64 % 8 * 64 * 4 + pipe * 64 + offset % 64)
        == micro % 16 + 16 * low + 32 * (micro / 16 % 2) + 64 * pipe + 256 * (micro / 32)
             + 2048 * bank + 4096 * (m % 0x10_0000)
  {
    var micro := inner * 4;
    ShiftedTile(m);
    InnerDigits(inner);
    InstallerPlaces(m % 0x80_0000, micro % 16, micro / 16 % 2, micro / 32, low);
    hide Wrap;
    WrapTile(m % 0x80_0000,
             micro % 16 + 16 * low + 32 * (micro / 16 % 2) + 64 * pipe + 256 * (micro / 32) + 2048 * bank);
    TileBits(m);
  }

  lemma InnerTimesFour(x: int, y: int)
    ensures (x % 8 + y / 2 % 8 * 2 * 4) * 4 == InnerBlock(x, y) * 4
  {
  }

  lemma InstallerByDigits(x: Word, y: Word, pitch: Word)
    ensures TiledOffset(x, y, pitch) == PixelOffset(x, y, y / 32 * (pitch / 32) + x / 32)
  {
    InnerRange(x, y);
    InnerTimesFour(x, y);
    hide Wrap, InnerBlock;
    InstalledPixel(y / 32 * (pitch / 32) + x / 32, InnerBlock(x, y), y % 2, (y / 8 % 2 * 2 + x / 8) % 4, y / 16 % 2);
  }

  /** The installer and the runtime agree on every pixel, pitch and wrap-around. */
  lemma FormulasAgree(x: Word, y: Word, pitch: Word)
    ensures TiledOffset(x, y, pitch) == TextureOffset(x, y, pitch, 2)
  {
    hide TiledOffset, TextureOffset, PixelOffset;
    RuntimeByDigits(x, y, pitch);
    InstallerByDigits(x, y, pitch);
  }

  lemma TileBits(m: int)
    ensures m % 0x100_0000 % 0x10_0000 == m % 0x10_0000 == m % 0x80_0000 % 0x10_0000
  {
    ModOfMod(m, 0x10_0000, 16, 0x100_0000);
    ModOfMod(m, 0x10_0000, 8, 0x80_0000);
  }

  // ---- The swizzle is a bijection ----

  /** A tiled texture of whole tiles that ends within the address space, in blocks of 4, 8 or 16 bytes. */
  predicate Fits(pitch: int, rows: int, log2: nat) {
    && 2 <= log2 <= 4
    && 32 <= pitch < 0x1_0000_0000 && pitch % 32 == 0
    && 32 <= rows < 0x1_0000_0000 && rows % 32 == 0
    && Span(pitch, rows, log2) <= 0x1_0000_0000
  }

  /** The bytes of a whole texture. */
  function Span(pitch: int, rows: int, log2: nat): int {
    Tiles(pitch, rows) * 1024 * BlockSize(log2)
  }

  function Tiles(pitch: int, rows: int): int {
    (pitch / 32) * (rows / 32)
  }

  lemma SpanIsArea(pitch: int, rows: int, log2: nat)
    requires pitch % 32 == 0 && rows % 32 == 0
    ensures Span(pitch, rows, log2) == pitch * rows * BlockSize(log2)
  {
    var p, r := pitch / 32, rows / 32;
    assert pitch == 32 * p && rows == 32 * r;
    assert pitch * rows == 1024 * (p * r);
  }

  function TileNumber(x: int, y: int, pitch: int): int {
    y / 32 * (pitch / 32) + x / 32
  }

  /** The coordinates with the given digits. */
  function Assemble(tile: int, inner: int, pipe: int, bank: int, low: int, pitch: int): (int, int)
    requires pitch >= 32
  {
    (tile % (pitch / 32) * 32 + Xor(pipe, inner / 32 * 2) * 8 + inner % 8,
     tile / (pitch / 32) * 32 + bank * 16 + inner / 8 * 2 + low)
  }

  /** The block that lies at a byte offset. */
  function Untile(offset: int, pitch: int, log2: nat): (int, int)
    requires pitch >= 32
  {
    var packed := offset % 16 + 16 * (offset / 32 % 2) + 32 * (offset / 256 % 8) + 256 * (offset / 4096);
    var block := packed / BlockSize(log2);
    Assemble(block / 64, block % 64, offset / 64 % 4, offset / 2048 % 2, offset / 16 % 2, pitch)
  }

  lemma TileBelow(column: int, row: int, columns: int, rows: int)
    requires 0 <= column < columns && 0 <= row < rows
    ensures 0 <= row * columns + column < columns * rows
  {
    assert row * columns <= (rows - 1) * columns;
  }

  lemma SizesOf(log2: nat)
    requires 2 <= log2 <= 4
    ensures BlockSize(log2) == if log2 == 2 then 4 else if log2 == 3 then 8 else 16
  {
    assert Pow2(2) == 4;
  }

  /** The digits of an offset come apart again. */
  lemma DigitsOf(d0: int, low: int, d1: int, pipe: int, d2: int, bank: int, d3: int)
    requires 0 <= d0 < 16 && 0 <= low < 2 && 0 <= d1 < 2 && 0 <= pipe < 4 && 0 <= d2 < 8 && 0 <= bank < 2
    ensures var o := d0 + 16 * low + 32 * d1 + 64 * pipe + 256 * d2 + 2048 * bank + 4096 * d3;
      && o % 16 == d0 && o / 16 % 2 == low && o / 32 % 2 == d1 && o / 64 % 4 == pipe
      && o / 256 % 8 == d2 && o / 2048 % 2 == bank && o / 4096 == d3
  {
    var o := d0 + 16 * low + 32 * d1 + 64 * pipe + 256 * d2 + 2048 * bank + 4096 * d3;
    var q2048 := bank + 2 * d3;
    var q256 := d2 + 8 * q2048;
    var q64 := pipe + 4 * q256;
    var q32 := d1 + 2 * q64;
    DivModUnique(o, low + 2 * q32, d0, 16);
    DivModUnique(low + 2 * q32, q32, low, 2);
    DivModUnique(o, q32, d0 + 16 * low, 32);
    DivModUnique(q32, q64, d1, 2);
    DivModUnique(o, q64, d0 + 16 * low + 32 * d1, 64);
    DivModUnique(q64, q256, pipe, 4);
    DivModUnique(o, q256, d0 + 16 * low + 32 * d1 + 64 * pipe, 256);
    DivModUnique(q256, q2048, d2, 8);
    DivModUnique(o, q2048, d0 + 16 * low + 32 * d1 + 64 * pipe + 256 * d2, 2048);
    DivModUnique(q2048, d3, bank, 2);
    DivModUnique(o, d3, d0 + 16 * low + 32 * d1 + 64 * pipe + 256 * d2 + 2048 * bank, 4096);
  }

  lemma PackedDigits(packed: int)
    ensures packed == packed % 16 + 16 * (packed / 16 % 2) + 32 * (packed / 32 % 8) + 256 * (packed / 256)
  {
    DivDiv(packed, 16, 2, 32);
    DivDiv(packed, 32, 8, 256);
  }

  /** Within whole tiles no step of the computation wraps, and the packed number stays below its bound. */
  lemma NothingWraps(x: int, y: int, pitch: int, rows: int, log2: nat)
    requires Fits(pitch, rows, log2) && 0 <= x < pitch && 0 <= y < rows
    ensures var tile := TileNumber(x, y, pitch);
      var packed := (64 * tile + InnerBlock(x, y)) * BlockSize(log2);
      && 0 <= tile < Tiles(pitch, rows) && 0 <= packed < Tiles(pitch, rows) * 64 * BlockSize(log2)
      && packed % BlockSize(log2) == 0
      && Wrap((Wrap(Wrap(tile) * 64) + InnerBlock(x, y)) * BlockSize(log2)) == packed
  {
    InnerRange(x, y);
    TileBelow(x / 32, y / 32, pitch / 32, rows / 32);
    PackedBelow(TileNumber(x, y, pitch), Tiles(pitch, rows), InnerBlock(x, y), log2);
  }

  lemma PackedBelow(tile: int, tiles: int, inner: int, log2: nat)
    requires 2 <= log2 <= 4 && 0 <= tile < tiles && 0 <= inner < 64 && tiles * 1024 * BlockSize(log2) <= 0x1_0000_0000
    ensures var packed := (64 * tile + inner) * BlockSize(log2);
      && 0 <= packed < tiles * 64 * BlockSize(log2) && packed % BlockSize(log2) == 0
      && Wrap((Wrap(Wrap(tile) * 64) + inner) * BlockSize(log2)) == packed
  {
    SizesOf(log2);
    var block := 64 * tile + inner;
    hide BlockSize;
    SmallMod(tile, 0x1_0000_0000);
    SmallMod(tile * 64, 0x1_0000_0000);
    DivModUnique(block * BlockSize(log2), block, 0, BlockSize(log2));
    assert 0 <= block <= 64 * tiles - 1;
    if log2 == 2 { SmallMod(block * 4, 0x1_0000_0000); }
    else if log2 == 3 { SmallMod(block * 8, 0x1_0000_0000); }
    else { SmallMod(block * 16, 0x1_0000_0000); }
  }

  /** An offset in digits. */
  function Offset(packed: int, low: int, pipe: int, bank: int): int {
    packed % 16 + 16 * low + 32 * (packed / 16 % 2) + 64 * pipe + 256 * (packed / 32 % 8)
      + 2048 * bank + 4096 * (packed / 256)
  }

  /** Where the digits of a block's number end up. */
  lemma OffsetDigits(x: int, y: int, pitch: int, rows: int, log2: nat)
    requires Fits(pitch, rows, log2) && 0 <= x < pitch && 0 <= y < rows
    ensures var packed := (64 * TileNumber(x, y, pitch) + InnerBlock(x, y)) * BlockSize(log2);
      && TextureOffset(x, y, pitch, log2) == Offset(packed, y % 2, Xor(x / 8 % 4, y / 8 % 2 * 2), y / 16 % 2)
      && 0 <= TextureOffset(x, y, pitch, log2) < Span(pitch, rows, log2)
      && TextureOffset(x, y, pitch, log2) % BlockSize(log2) == 0
  {
    hide Place, Xor, InnerBlock, Offset, BlockSize;
    var packed := (64 * TileNumber(x, y, pitch) + InnerBlock(x, y)) * BlockSize(log2);
    var pipe := Xor(x / 8 % 4, y / 8 % 2 * 2);
    NothingWraps(x, y, pitch, rows, log2);
    PipeSums(x, y);
    PlaceIsOffset(packed, y % 2, pipe, y / 16 % 2);
    OffsetBelow(packed, y % 2, pipe, y / 16 % 2, Tiles(pitch, rows), log2);
  }

  lemma PlaceIsOffset(packed: int, low: int, pipe: int, bank: int)
    ensures Place(packed, low, pipe, bank) == Offset(packed, low, pipe, bank)
  {
  }

  lemma OffsetBelow(packed: int, low: int, pipe: int, bank: int, tiles: int, log2: nat)
    requires 2 <= log2 <= 4 && 0 <= packed < tiles * 64 * BlockSize(log2) && packed % BlockSize(log2) == 0
    requires 0 <= low < 2 && 0 <= pipe < 4 && 0 <= bank < 2
    ensures 0 <= Offset(packed, low, pipe, bank) < tiles * 1024 * BlockSize(log2)
    ensures Offset(packed, low, pipe, bank) % BlockSize(log2) == 0
  {
    SizesOf(log2);
    hide BlockSize;
    var groups := if log2 == 2 then tiles else if log2 == 3 then 2 * tiles else 4 * tiles;
    assert packed / 256 < groups;
    LastByte(packed, log2);
    AlignedSum(packed % 16,
               low + 2 * (packed / 16 % 2) + 4 * pipe + 16 * (packed / 32 % 8) + 128 * bank + 256 * (packed / 256),
                 log2);
  }

  lemma LastByte(packed: int, log2: nat)
    requires 2 <= log2 <= 4 && packed % BlockSize(log2) == 0
    ensures packed % 16 % BlockSize(log2) == 0
  {
    SizesOf(log2);
    hide BlockSize;
    var q, e := packed / 16, packed % 16;
    ModShift(e, if log2 == 2 then 4 * q else if log2 == 3 then 2 * q else q, BlockSize(log2));
    assert packed == e + BlockSize(log2) * (if log2 == 2 then 4 * q else if log2 == 3 then 2 * q else q);
  }

  lemma AlignedSum(e: int, z: int, log2: nat)
    requires 2 <= log2 <= 4 && e % BlockSize(log2) == 0
    ensures (e + 16 * z) % BlockSize(log2) == 0
  {
    SizesOf(log2);
    hide BlockSize;
    ModShift(e, if log2 == 2 then 4 * z else if log2 == 3 then 2 * z else z, BlockSize(log2));
  }

  lemma AssembleOffset(block: int, low: int, pipe: int, bank: int, pitch: int, log2: nat)
    requires pitch >= 32 && 2 <= log2 <= 4 && 0 <= low < 2 && 0 <= pipe < 4 && 0 <= bank < 2
    ensures Untile(Offset(block * BlockSize(log2), low, pipe, bank), pitch, log2)
         == Assemble(block / 64, block % 64, pipe, bank, low, pitch)
  {
    hide Assemble, BlockSize, Untile;
    var packed := block * BlockSize(log2);
    DigitsOf(packed % 16, low, packed / 16 % 2, pipe, packed / 32 % 8, bank, packed / 256);
    PackedDigits(packed);
    SizesOf(log2);
    DivModUnique(packed, block, 0, BlockSize(log2));
    UntileDigits(Offset(packed, low, pipe, bank), packed, low, pipe, bank, pitch, log2);
  }

  lemma UntileDigits(o: int, packed: int, low: int, pipe: int, bank: int, pitch: int, log2: nat)
    requires pitch >= 32
    requires packed == o % 16 + 16 * (o / 32 % 2) + 32 * (o / 256 % 8) + 256 * (o / 4096)
    requires o / 16 % 2 == low && o / 64 % 4 == pipe && o / 2048 % 2 == bank
    ensures Untile(o, pitch, log2)
         == Assemble(packed / BlockSize(log2) / 64, packed / BlockSize(log2) % 64, pipe, bank, low, pitch)
  {
    hide Assemble, BlockSize;
  }

  /** Untiling finds the block again: no two blocks share an offset. */
  lemma UntileTile(x: int, y: int, pitch: int, rows: int, log2: nat)
    requires Fits(pitch, rows, log2) && 0 <= x < pitch && 0 <= y < rows
    ensures Untile(TextureOffset(x, y, pitch, log2), pitch, log2) == (x, y)
  {
    hide TextureOffset, Xor, InnerBlock, TileNumber, Offset, Untile, BlockSize, Assemble;
    var inner, tile := InnerBlock(x, y), TileNumber(x, y, pitch);
    PipeSums(x, y);
    OffsetDigits(x, y, pitch, rows, log2);
    AssembleOffset(64 * tile + inner, y % 2, Xor(x / 8 % 4, y / 8 % 2 * 2), y / 16 % 2, pitch, log2);
    InnerRange(x, y);
    DivModUnique(64 * tile + inner, tile, inner, 64);
    Coordinates(x, y, pitch);
  }

  lemma Coordinates(x: int, y: int, pitch: int)
    requires pitch >= 32 && pitch % 32 == 0 && 0 <= x < pitch && 0 <= y
    ensures Assemble(TileNumber(x, y, pitch), InnerBlock(x, y), Xor(x / 8 % 4, y / 8 % 2 * 2), y / 16 % 2, y % 2, pitch)
      == (x, y)
  {
    hide Xor, InnerBlock, Assemble;
    DivModUnique(TileNumber(x, y, pitch), y / 32, x / 32, pitch / 32);
    InnerParts(x, y);
    XorOfPipe(x / 8 % 4, y / 8 % 2);
    DigitsSum(x, y);
    Assembled(TileNumber(x, y, pitch), InnerBlock(x, y), Xor(x / 8 % 4, y / 8 % 2 * 2), y / 16 % 2, y % 2, pitch,
              x / 32, y / 32, x / 8 % 4, x % 8, y / 2 % 8);
  }

  lemma Assembled(tile: int, inner: int, pipe: int, bank: int, low: int, pitch: int,
                  column: int, row: int, turned: int, fine: int, middle: int)
    requires pitch >= 32 && tile % (pitch / 32) == column && tile / (pitch / 32) == row
    requires Xor(pipe, inner / 32 * 2) == turned && inner % 8 == fine && inner / 8 == middle
    ensures Assemble(tile, inner, pipe, bank, low, pitch)
         == (column * 32 + turned * 8 + fine, row * 32 + bank * 16 + middle * 2 + low)
  {
    hide Xor;
  }

  lemma DigitsSum(x: int, y: int)
    ensures x == x / 32 * 32 + x / 8 % 4 * 8 + x % 8
    ensures y == y / 32 * 32 + y / 16 % 2 * 16 + y / 2 % 8 * 2 + y % 2
  {
    DivDiv(x, 8, 4, 32);
    DivDiv(y, 2, 8, 16);
    DivDiv(y, 16, 2, 32);
  }

  lemma InnerParts(x: int, y: int)
    ensures InnerBlock(x, y) / 32 == y / 8 % 2 && InnerBlock(x, y) % 8 == x % 8 && InnerBlock(x, y) / 8 == y / 2 % 8
  {
    var a, c := y / 2, y / 2 % 8;
    DivModUnique(InnerBlock(x, y), c, x % 8, 8);
    DivDiv(InnerBlock(x, y), 8, 4, 32);
    DivDiv(y, 2, 4, 8);
    ModOfMod(a, 4, 2, 8);
  }

  /** Every block-aligned offset of the texture holds a block: the one that untiling finds. */
  lemma TileUntile(offset: int, pitch: int, rows: int, log2: nat)
    requires Fits(pitch, rows, log2) && 0 <= offset < Span(pitch, rows, log2) && offset % BlockSize(log2) == 0
    ensures var (x, y) := Untile(offset, pitch, log2);
      0 <= x < pitch && 0 <= y < rows && TextureOffset(x, y, pitch, log2) == offset
  {
    hide TextureOffset, Xor, InnerBlock, TileNumber, Offset, BlockSize, Assemble;
    var d0, d1, d2, d3 := offset % 16, offset / 32 % 2, offset / 256 % 8, offset / 4096;
    var packed := d0 + 16 * d1 + 32 * d2 + 256 * d3;
    var block := packed / BlockSize(log2);
    var pipe, bank, low := offset / 64 % 4, offset / 2048 % 2, offset / 16 % 2;
    BlockOf(offset, d1, d2, Tiles(pitch, rows), log2);
    Recovered(block / 64, block % 64, pipe, bank, low, pitch, rows);
    var (x, y) := Untile(offset, pitch, log2);
    assert block == 64 * (block / 64) + block % 64;
    OffsetDigits(x, y, pitch, rows, log2);
    Reassembled(offset);
  }

  lemma Reassembled(offset: int)
    ensures Offset(offset % 16 + 16 * (offset / 32 % 2) + 32 * (offset / 256 % 8) + 256 * (offset / 4096),
                   offset / 16 % 2, offset / 64 % 4, offset / 2048 % 2) == offset
  {
    OffsetSplits(offset);
    DigitsOfPacked(offset % 16, offset / 32 % 2, offset / 256 % 8, offset / 4096);
  }

  lemma OffsetSplits(o: int)
    ensures o == o % 16 + 16 * (o / 16 % 2) + 32 * (o / 32 % 2) + 64 * (o / 64 % 4) + 256 * (o / 256 % 8)
              + 2048 * (o / 2048 % 2) + 4096 * (o / 4096)
  {
    DivDiv(o, 16, 2, 32);
    DivDiv(o, 32, 2, 64);
    DivDiv(o, 64, 4, 256);
    DivDiv(o, 256, 8, 2048);
    DivDiv(o, 2048, 2, 4096);
  }

  lemma DigitsOfPacked(d0: int, d1: int, d2: int, d3: int)
    requires 0 <= d0 < 16 && 0 <= d1 < 2 && 0 <= d2 < 8
    ensures var packed := d0 + 16 * d1 + 32 * d2 + 256 * d3;
      packed % 16 == d0 && packed / 16 % 2 == d1 && packed / 32 % 8 == d2 && packed / 256 == d3
  {
    var packed := d0 + 16 * d1 + 32 * d2 + 256 * d3;
    DivModUnique(packed, d1 + 2 * d2 + 16 * d3, d0, 16);
    DivModUnique(d1 + 2 * d2 + 16 * d3, d2 + 8 * d3, d1, 2);
    DivModUnique(packed, d2 + 8 * d3, d0 + 16 * d1, 32);
    DivModUnique(d2 + 8 * d3, d3, d2, 8);
    DivModUnique(packed, d3, d0 + 16 * d1 + 32 * d2, 256);
  }

  lemma BlockOf(offset: int, d1: int, d2: int, tiles: int, log2: nat)
    requires 2 <= log2 <= 4 && 0 <= offset < tiles * 1024 * BlockSize(log2) && offset % BlockSize(log2) == 0
    requires 0 <= d1 < 2 && 0 <= d2 < 8
    ensures var packed := offset % 16 + 16 * d1 + 32 * d2 + 256 * (offset / 4096);
      var block := packed / BlockSize(log2);
      packed == block * BlockSize(log2) && 0 <= block / 64 < tiles
  {
    SizesOf(log2);
    LastByte(offset, log2);
    AlignedSum(offset % 16, d1 + 2 * d2 + 16 * (offset / 4096), log2);
    hide BlockSize;
    var groups := if log2 == 2 then tiles else if log2 == 3 then 2 * tiles else 4 * tiles;
    assert offset < 4096 * groups;
    assert offset / 4096 <= groups - 1;
    var packed := offset % 16 + 16 * d1 + 32 * d2 + 256 * (offset / 4096);
    assert packed < 256 * groups;
    Quotient(packed, tiles, log2);
  }

  lemma Quotient(packed: int, tiles: int, log2: nat)
    requires 2 <= log2 <= 4 && 0 <= packed < 64 * tiles * BlockSize(log2) && packed % BlockSize(log2) == 0
    ensures packed == packed / BlockSize(log2) * BlockSize(log2) && 0 <= packed / BlockSize(log2) / 64 < tiles
  {
    SizesOf(log2);
  }

  /** The coordinates that untiling puts together have the digits they were made from. */
  lemma Recovered(tile: int, inner: int, pipe: int, bank: int, low: int, pitch: int, rows: int)
    requires 32 <= pitch && pitch % 32 == 0 && 0 <= rows && rows % 32 == 0 && 0 <= tile < Tiles(pitch, rows)
    requires 0 <= inner < 64 && 0 <= pipe < 4 && 0 <= bank < 2 && 0 <= low < 2
    ensures var (x, y) := Assemble(tile, inner, pipe, bank, low, pitch);
      && 0 <= x < pitch && 0 <= y < rows
      && TileNumber(x, y, pitch) == tile && InnerBlock(x, y) == inner
      && Xor(x / 8 % 4, y / 8 % 2 * 2) == pipe && y / 16 % 2 == bank && y % 2 == low
  {
    hide Xor;
    var p := pitch / 32;
    var column, row, turned := tile % p, tile / p, Xor(pipe, inner / 32 * 2);
    XorOfPipe(pipe, inner / 32);
    XorOfPipe(turned, inner / 32);
    RowBelow(tile, p, rows / 32);
    hide Tiles;
    QuotientAndRest(tile, p);
    ColumnDigits(column, turned, inner % 8);
    RowDigits(row, bank, inner / 8, low);
  }

  lemma QuotientAndRest(a: int, size: int)
    requires size > 0
    ensures a / size * size + a % size == a && 0 <= a % size < size
  {
  }

  lemma RowBelow(tile: int, columns: int, rows: int)
    requires columns > 0 && 0 <= tile < columns * rows
    ensures 0 <= tile / columns < rows
  {
    var row := tile / columns;
    NoSmallerProduct(columns, row, rows);
  }

  lemma NoSmallerProduct(columns: int, row: int, rows: int)
    requires columns > 0
    ensures row >= rows ==> columns * row >= columns * rows
  {
  }

  lemma ColumnDigits(column: int, turned: int, fine: int)
    requires 0 <= turned < 4 && 0 <= fine < 8
    ensures var x := column * 32 + turned * 8 + fine;
      x / 32 == column && x / 8 % 4 == turned && x % 8 == fine
  {
    var x := column * 32 + turned * 8 + fine;
    DivModUnique(x, column, turned * 8 + fine, 32);
    DivModUnique(x, column * 4 + turned, fine, 8);
    DivModUnique(column * 4 + turned, column, turned, 4);
  }

  lemma RowDigits(row: int, bank: int, middle: int, low: int)
    requires 0 <= bank < 2 && 0 <= middle < 8 && 0 <= low < 2
    ensures var y := row * 32 + bank * 16 + middle * 2 + low;
      y / 32 == row && y / 16 % 2 == bank && y / 2 % 8 == middle && y / 8 % 2 == middle / 4 && y % 2 == low
  {
    var y := row * 32 + bank * 16 + middle * 2 + low;
    DivModUnique(y, row, bank * 16 + middle * 2 + low, 32);
    DivModUnique(y, row * 2 + bank, middle * 2 + low, 16);
    DivModUnique(row * 2 + bank, row, bank, 2);
    DivModUnique(y, row * 16 + bank * 8 + middle, low, 2);
    DivModUnique(row * 16 + bank * 8 + middle, row * 2 + bank, middle, 8);
    DivModUnique(y, row * 4 + bank * 2 + middle / 4, middle % 4 * 2 + low, 8);
    DivModUnique(row * 4 + bank * 2 + middle / 4, row * 2 + bank, middle / 4, 2);
  }

  lemma OffsetInside(x: int, y: int, pitch: int, rows: int)
    requires Fits(pitch, rows, 2) && 0 <= x < pitch && 0 <= y < rows
    ensures 0 <= TextureOffset(x, y, pitch, 2) && TextureOffset(x, y, pitch, 2) + 4 <= Span(pitch, rows, 2)
  {
    hide TextureOffset, Offset;
    OffsetDigits(x, y, pitch, rows, 2);
    assert Pow2(2) == 4;
    Whole(TextureOffset(x, y, pitch, 2), Tiles(pitch, rows) * 1024);
  }

  lemma Whole(o: int, words: int)
    requires o % 4 == 0 && o < words * 4
    ensures o + 4 <= words * 4
  {
  }

  // ---- Bit by bit ----

  /** Where each bit of the coordinates of a pixel goes: its own place within the tile, the tile above. */
  lemma PixelBits(x: Word, y: Word, pitch: Word)
    ensures var tile := y / 32 * (pitch / 32) + x / 32;
      TextureOffset(x, y, pitch, 2) == TiledOffset(x, y, pitch) ==
        4 * (x % 4) + 16 * (y % 2) + 32 * (x / 4 % 2) + 64 * ((2 * (y / 8 % 2) + x / 8) % 4)
          + 256 * (y / 2 % 8) + 2048 * (y / 16 % 2) + 4096 * (tile % 0x10_0000)
  {
    RuntimeByDigits(x, y, pitch);
    InstallerByDigits(x, y, pitch);
    InnerBits(x, y);
    hide TextureOffset, TiledOffset, InnerBlock;
  }

  lemma InnerBits(x: int, y: int)
    ensures var inner := InnerBlock(x, y);
      && inner * 4 % 16 == 4 * (x % 4) && inner * 4 / 16 % 2 == x / 4 % 2 && inner * 4 / 32 == y / 2 % 8
  {
    var (row, a, b) := (y / 2 % 8, x % 4, x / 4 % 2);
    ModDigits(x);
    var micro := 4 * a + 16 * b + 32 * row;
    assert InnerBlock(x, y) * 4 == micro;
    DivModUnique(micro, b + 2 * row, 4 * a, 16);
    DivModUnique(micro, row, 4 * a + 16 * b, 32);
  }

  /** The low digits of a coordinate. */
  lemma ModDigits(x: int)
    ensures x % 8 == x % 4 + 4 * (x / 4 % 2) == x % 2 + 2 * (x / 2 % 4)
  {
    DivDiv(x, 4, 2, 8);
    DivDiv(x, 2, 4, 8);
  }

  /** The same for blocks of 8 bytes, in a texture of whole tiles. */
  lemma EightByteBits(x: int, y: int, pitch: int, rows: int)
    requires Fits(pitch, rows, 3) && 0 <= x < pitch && 0 <= y < rows
    ensures TextureOffset(x, y, pitch, 3) ==
      8 * (x % 2) + 16 * (y % 2) + 32 * (x / 2 % 2) + 64 * ((2 * (y / 8 % 2) + x / 8) % 4)
        + 256 * (x / 4 % 2 + 2 * (y / 2 % 4)) + 2048 * (y / 16 % 2) + 4096 * (2 * TileNumber(x, y, pitch) + y / 8 % 2)
  {
    OffsetDigits(x, y, pitch, rows, 3);
    SizesOf(3);
    PipeSums(x, y);
    EightPacked(TileNumber(x, y, pitch), x, y);
    hide TextureOffset, Xor, BlockSize, InnerBlock, TileNumber, Fits, Span;
  }

  lemma EightPacked(tile: int, x: int, y: int)
    ensures var packed := (64 * tile + InnerBlock(x, y)) * 8;
      && packed % 16 == 8 * (x % 2) && packed / 16 % 2 == x / 2 % 2
      && packed / 32 % 8 == x / 4 % 2 + 2 * (y / 2 % 4) && packed / 256 == 2 * tile + y / 8 % 2
  {
    ModDigits(x);
    DivDiv(x, 2, 2, 4);
    ModDigits(x / 2);
    ModDigits(y / 2);
    DivDiv(y, 2, 4, 8);
    EightDigits(tile, x % 2, x / 2 % 2, x / 4 % 2, y / 2 % 4, y / 8 % 2);
    assert x % 8 == x % 2 + 2 * (x / 2 % 2) + 4 * (x / 4 % 2);
    assert y / 2 % 8 == y / 2 % 4 + 4 * (y / 8 % 2);
  }

  lemma EightDigits(tile: int, a: int, b: int, c: int, d: int, e: int)
    requires 0 <= a < 2 && 0 <= b < 2 && 0 <= c < 2 && 0 <= d < 4 && 0 <= e < 2
    ensures var packed := (64 * tile + ((d + 4 * e) * 8 + (a + 2 * b + 4 * c))) * 8;
      && packed % 16 == 8 * a && packed / 16 % 2 == b && packed / 32 % 8 == c + 2 * d && packed / 256 == 2 * tile + e
  {
    var packed := 8 * a + 16 * b + 32 * (c + 2 * d) + 256 * (2 * tile + e);
    DivModUnique(packed, b + 2 * (c + 2 * d) + 16 * (2 * tile + e), 8 * a, 16);
    DivModUnique(b + 2 * (c + 2 * d) + 16 * (2 * tile + e), c + 2 * d + 8 * (2 * tile + e), b, 2);
    DivModUnique(packed, c + 2 * d + 8 * (2 * tile + e), 8 * a + 16 * b, 32);
    DivModUnique(c + 2 * d + 8 * (2 * tile + e), 2 * tile + e, c + 2 * d, 8);
    DivModUnique(packed, 2 * tile + e, 8 * a + 16 * b + 32 * (c + 2 * d), 256);
  }

  /** And for blocks of 16 bytes. */
  lemma SixteenByteBits(x: int, y: int, pitch: int, rows: int)
    requires Fits(pitch, rows, 4) && 0 <= x < pitch && 0 <= y < rows
    ensures TextureOffset(x, y, pitch, 4) ==
      16 * (y % 2) + 32 * (x % 2) + 64 * ((2 * (y / 8 % 2) + x / 8) % 4)
        + 256 * (x / 2 % 4 + 4 * (y / 2 % 2)) + 2048 * (y / 16 % 2) + 4096 * (4 * TileNumber(x, y, pitch) + y / 4 % 4)
  {
    OffsetDigits(x, y, pitch, rows, 4);
    SizesOf(4);
    PipeSums(x, y);
    SixteenPacked(TileNumber(x, y, pitch), x, y);
    hide TextureOffset, Xor, BlockSize, InnerBlock, TileNumber, Fits, Span;
  }

  lemma SixteenPacked(tile: int, x: int, y: int)
    ensures var packed := (64 * tile + InnerBlock(x, y)) * 16;
      && packed % 16 == 0 && packed / 16 % 2 == x % 2
      && packed / 32 % 8 == x / 2 % 4 + 4 * (y / 2 % 2) && packed / 256 == 4 * tile + y / 4 % 4
  {
    ModDigits(x);
    ModDigits(y / 2);
    DivDiv(y, 2, 2, 4);
    SixteenDigits(tile, x % 2, x / 2 % 4, y / 2 % 2, y / 4 % 4);
    assert y / 2 % 8 == y / 2 % 2 + 2 * (y / 4 % 4);
  }

  lemma SixteenDigits(tile: int, a: int, b: int, d: int, e: int)
    requires 0 <= a < 2 && 0 <= b < 4 && 0 <= d < 2 && 0 <= e < 4
    ensures var packed := (64 * tile + ((d + 2 * e) * 8 + (a + 2 * b))) * 16;
      && packed % 16 == 0 && packed / 16 % 2 == a && packed / 32 % 8 == b + 4 * d && packed / 256 == 4 * tile + e
  {
    var packed := 16 * a + 32 * (b + 4 * d) + 256 * (4 * tile + e);
    DivModUnique(packed, a + 2 * (b + 4 * d) + 16 * (4 * tile + e), 0, 16);
    DivModUnique(a + 2 * (b + 4 * d) + 16 * (4 * tile + e), b + 4 * d + 8 * (4 * tile + e), a, 2);
    DivModUnique(packed, b + 4 * d + 8 * (4 * tile + e), 16 * a, 32);
    DivModUnique(b + 4 * d + 8 * (4 * tile + e), 4 * tile + e, b + 4 * d, 8);
    DivModUnique(packed, 4 * tile + e, 16 * a + 32 * (b + 4 * d), 256);
  }
}
