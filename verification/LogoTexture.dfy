/** How the installer reads the logo out of the front end's texture file. */
module LogoTexture {
  import opened Words
  import opened Bits
  import opened Arithmetic
  import opened Tiling

  const SIZE_OFFSET := 0x2C
  const FETCH_OFFSET := 0x44

  datatype Pixel = Pixel(alpha: int, red: int, green: int, blue: int)

  datatype Layout = Layout(width: int, height: int, pitch: int, tiled: bool)
  {
    /** Whole tiles when tiled. */
    function Rows(): int {
      if tiled then (height + 31) / 32 * 32 else height
    }

    function Needed(): int {
      pitch * Rows() * 4
    }

    /** Where the pixel (x, y) lies. */
    function PixelOffset(x: Word, y: Word): int
      requires 0 <= pitch < 0x1_0000_0000
    {
      if tiled then TiledOffset(x, y, pitch) else Wrap(Wrap(y * pitch + x) * 4)
    }
  }

  /** A big-endian word of the file; the reader stores the bytes and swaps them. */
  function WordAt(file: seq<Byte>, offset: int): (r: int)
    requires 0 <= offset && offset + 4 <= |file|
    ensures 0 <= r < 0x1_0000_0000
  {
    var (b3: int, b2: int, b1: int, b0: int) := (file[offset], file[offset + 1], file[offset + 2], file[offset + 3]);
    0x100_0000 * b3 + 0x1_0000 * b2 + 0x100 * b1 + b0
  }

  predicate Readable(file: seq<Byte>, offset: int, size: int) {
    0 <= offset && offset + size <= |file|
  }

  /** What the fetch constant says, if the texture can be the logo. */
  function LayoutOf(fetch0: int, fetch1: int, fetch2: int, fetch5: int): (r: Option<Layout>)
    requires 0 <= fetch0 < 0x1_0000_0000
    ensures r.Some? ==> Acceptable(r.value)
  {
    var pitch := fetch0 / 0x40_0000 % 0x200 * 32;
    var width := fetch2 % 0x2000 + 1;
    var height := fetch2 / 0x2000 % 0x2000 + 1;
    if fetch1 % 0x40 != 6 || fetch1 / 0x40 % 4 != 2 || fetch5 / 0x200 % 4 != 1 then None
    else if width != height * 4 || width < 512 || width > 4096 || pitch < width then None
    else Some(Layout(width, height, pitch, fetch0 / 0x8000_0000 == 1))
  }

  predicate Acceptable(layout: Layout) {
    && 512 <= layout.width <= 4096 && layout.width == 4 * layout.height
    && layout.width <= layout.pitch < 0x4000 && layout.pitch % 32 == 0
  }

  lemma RowsFit(layout: Layout)
    requires Acceptable(layout)
    ensures layout.height <= layout.Rows() <= 1024
    ensures layout.tiled ==>
      Fits(layout.pitch, layout.Rows(), 2) && layout.Needed() == Span(layout.pitch, layout.Rows(), 2)
  {
    if layout.tiled {
      var p, r := layout.pitch / 32, layout.Rows() / 32;
      assert r <= 32 && p < 512;
      SmallProduct(p, r);
      assert Pow2(2) == 4;
      SpanIsArea(layout.pitch, layout.Rows(), 2);
    }
  }

  lemma SmallProduct(p: int, r: int)
    requires 0 <= p < 512 && 0 <= r <= 32
    ensures 0 <= p * r <= 512 * 32
  {
    assert p * r <= 512 * r;
  }

  /** Every pixel that is read lies inside the bytes that the texture is known to have. */
  lemma PixelInside(layout: Layout, x: Word, y: Word)
    requires Acceptable(layout) && x < layout.width && y < layout.height
    ensures 0 <= layout.PixelOffset(x, y) && layout.PixelOffset(x, y) + 4 <= layout.Needed()
  {
    hide TiledOffset, TextureOffset;
    RowsFit(layout);
    if layout.tiled {
      FormulasAgree(x, y, layout.pitch);
      OffsetInside(x, y, layout.pitch, layout.Rows());
    } else {
      LinearInside(x, y, layout.pitch, layout.height);
    }
  }

  lemma LinearInside(x: int, y: int, pitch: int, rows: int)
    requires 0 <= x < pitch < 0x4000 && 0 <= y < rows <= 1024
    ensures Wrap(Wrap(y * pitch + x) * 4) == (y * pitch + x) * 4
    ensures 0 <= (y * pitch + x) * 4 <= pitch * rows * 4 - 4
  {
    TileBelow(x, y, pitch, rows);
    AreaBound(pitch, rows);
    var (index, area) := (y * pitch + x, pitch * rows);
    assert 0 <= index <= area - 1 && area <= 0x100_0000;
    assert Wrap(index * 4) == index * 4;
  }

  lemma AreaBound(pitch: int, rows: int)
    requires 0 <= pitch < 0x4000 && 0 <= rows <= 1024
    ensures 0 <= pitch * rows <= 0x100_0000
  {
    assert pitch * rows <= 0x4000 * rows;
  }

  /** Two pixels of the image never come from the same bytes. */
  lemma PixelsApart(layout: Layout, x: Word, y: Word, x': Word, y': Word)
    requires Acceptable(layout) && x < layout.width && y < layout.height && x' < layout.width && y' < layout.height
    requires layout.PixelOffset(x, y) == layout.PixelOffset(x', y')
    ensures x == x' && y == y'
  {
    hide TiledOffset, TextureOffset, Untile;
    RowsFit(layout);
    if layout.tiled {
      FormulasAgree(x, y, layout.pitch);
      FormulasAgree(x', y', layout.pitch);
      UntileTile(x, y, layout.pitch, layout.Rows(), 2);
      UntileTile(x', y', layout.pitch, layout.Rows(), 2);
    } else {
      LinearInside(x, y, layout.pitch, layout.height);
      LinearInside(x', y', layout.pitch, layout.height);
      DivModUnique(y * layout.pitch + x, y, x, layout.pitch);
      DivModUnique(y' * layout.pitch + x', y', x', layout.pitch);
    }
  }

  /** The pixel (x, y) of the texture whose bytes are `data`. */
  function PixelOf(layout: Layout, data: seq<Byte>, x: Word, y: Word): Pixel
    requires Acceptable(layout) && |data| == layout.Needed() && x < layout.width && y < layout.height
  {
    PixelInside(layout, x, y);
    var at := layout.PixelOffset(x, y);
    Pixel(data[at], data[at + 1], data[at + 2], data[at + 3])
  }

  /** The texture at `offset`, if it is readable and can be the logo. */
  function LogoAt(file: seq<Byte>, offset: int): (r: Option<(Layout, int)>)
    ensures r.Some? ==> Acceptable(r.value.0) && Readable(file, r.value.1, r.value.0.Needed())
  {
    if !Readable(file, offset + SIZE_OFFSET, 8) || !Readable(file, offset + FETCH_OFFSET, 24) then None
    else
      var size := WordAt(file, offset + SIZE_OFFSET);
      var start := WordAt(file, offset + SIZE_OFFSET + 4);
      var layout := LayoutOf(WordAt(file, offset + FETCH_OFFSET), WordAt(file, offset + FETCH_OFFSET + 4),
                             WordAt(file, offset + FETCH_OFFSET + 8), WordAt(file, offset + FETCH_OFFSET + 20));
      if layout.None? then None
      else if start >= size || size - start < layout.value.Needed() then None
      else if !Readable(file, offset + start, layout.value.Needed()) then None
      else Some((layout.value, offset + start))
  }

  // ---- The fields of a texture, in numbers ----

  /** The pitch in tiles, the width and height less one, and the kind of texture, at their places in the constant. */
  lemma LayoutFields(tiled: bool, tiles: int, low: int, format: int, endian: int, rest1: int, width: int, height: int,
                     rest2: int, dimension: int, low5: int, rest5: int)
    requires 0 <= tiles < 0x200 && 0 <= low < 0x40_0000 && 0 <= format < 64 && 0 <= endian < 4
    requires 1 <= width <= 0x2000 && 1 <= height <= 0x2000 && 0 <= dimension < 4 && 0 <= low5 < 0x200
    ensures LayoutOf((if tiled then 0x8000_0000 else 0) + 0x40_0000 * tiles + low, 256 * rest1 + 64 * endian + format,
                     0x400_0000 * rest2 + 0x2000 * (height - 1) + (width - 1), 0x800 * rest5 + 0x200 * dimension + low5)
         == if format == 6 && endian == 2 && dimension == 1 && width == 4 * height && 512 <= width <= 4096
                 && width <= 32 * tiles
            then Some(Layout(width, height, 32 * tiles, tiled)) else None
  {
    var fetch0 := (if tiled then 0x8000_0000 else 0) + 0x40_0000 * tiles + low;
    var fetch1 := 256 * rest1 + 64 * endian + format;
    var fetch2 := 0x400_0000 * rest2 + 0x2000 * (height - 1) + (width - 1);
    var fetch5 := 0x800 * rest5 + 0x200 * dimension + low5;
    DivModUnique(fetch0, (if tiled then 512 else 0) + tiles, low, 0x40_0000);
    DivModUnique(fetch1, 4 * rest1 + endian, format, 64);
    DivModUnique(fetch2, 0x2000 * rest2 + (height - 1), width - 1, 0x2000);
    DivModUnique(fetch5, 4 * rest5 + dimension, low5, 0x200);
    DivModUnique(4 * rest1 + endian, rest1, endian, 4);
    DivModUnique(0x2000 * rest2 + (height - 1), rest2, height - 1, 0x2000);
    DivModUnique(4 * rest5 + dimension, rest5, dimension, 4);
  }

  /** The bytes of `word` lie at `offset`, most significant first. */
  predicate HoldsWord(file: seq<Byte>, offset: int, word: int) {
    && 0 <= offset && offset + 4 <= |file|
    && var (b3: int, b2: int, b1: int, b0: int) := (file[offset], file[offset + 1], file[offset + 2], file[offset + 3]);
       word == 0x100_0000 * b3 + 0x1_0000 * b2 + 0x100 * b1 + b0
  }

  /** Where the size, the place of the pixels and the constant lie behind `offset`, and what they decide. */
  lemma LogoFields(file: seq<Byte>, offset: int, size: int, start: int, fetch: seq<int>)
    requires |fetch| == 6 && HoldsWord(file, offset + 44, size) && HoldsWord(file, offset + 48, start)
    requires forall i | 0 <= i < 6 :: HoldsWord(file, offset + 68 + 4 * i, fetch[i])
    ensures 0 <= fetch[0] < 0x1_0000_0000
    ensures var layout := LayoutOf(fetch[0], fetch[1], fetch[2], fetch[5]);
      LogoAt(file, offset)
        == if layout.None? || start >= size then None
           else
             var Layout(_, height, pitch, tiled) := layout.value;
             var bytes := pitch * (if tiled then (height + 31) / 32 * 32 else height) * 4;
             if bytes <= size - start && 0 <= offset + start && offset + start + bytes <= |file| then
               Some((layout.value, offset + start))
             else None
  {
    hide LayoutOf;
    assert HoldsWord(file, offset + 68 + 4 * 5, fetch[5]);
    assert HoldsWord(file, offset + 68 + 4 * 0, fetch[0]);
    assert HoldsWord(file, offset + 68 + 4 * 1, fetch[1]);
    assert HoldsWord(file, offset + 68 + 4 * 2, fetch[2]);
  }

  /** Where a pixel lies; the places of a tiled texture bit by bit. */
  function Place(layout: Layout, x: Word, y: Word): int
    requires Acceptable(layout)
  {
    if layout.tiled then
      4 * (x % 4) + 16 * (y % 2) + 32 * (x / 4 % 2) + 64 * ((2 * (y / 8 % 2) + x / 8) % 4) + 256 * (y / 2 % 8)
        + 2048 * (y / 16 % 2) + 4096 * ((y / 32 * (layout.pitch / 32) + x / 32) % 0x10_0000)
    else 4 * (y * layout.pitch + x)
  }

  lemma PixelPlaced(layout: Layout, x: Word, y: Word)
    requires Acceptable(layout) && x < layout.width && y < layout.height
    ensures layout.PixelOffset(x, y) == Place(layout, x, y)
  {
    hide TiledOffset, TextureOffset;
    if layout.tiled { PixelBits(x, y, layout.pitch); } else { LinearInside(x, y, layout.pitch, layout.height); }
  }

  /** Four bytes a pixel: alpha, red, green, blue. */
  lemma PixelBytes(layout: Layout, data: seq<Byte>, x: Word, y: Word)
    requires Acceptable(layout) && |data| == layout.Needed() && x < layout.width && y < layout.height
    ensures var at := Place(layout, x, y);
      0 <= at && at + 4 <= |data| &&
      PixelOf(layout, data, x, y) == Pixel(data[at], data[at + 1], data[at + 2], data[at + 3])
  {
    PixelInside(layout, x, y);
    PixelPlaced(layout, x, y);
    hide Place, TiledOffset, Acceptable;
  }

  /** The inner loop of ReadLogoTexture. */
  method FillRow(image: array2<Pixel>, layout: Layout, data: seq<Byte>, y: Word)
    requires Acceptable(layout) && |data| == layout.Needed() && y < layout.height
    requires image.Length0 == layout.height && image.Length1 == layout.width
    modifies image
    ensures forall i | 0 <= i < layout.width :: image[y, i] == PixelOf(layout, data, i, y)
    ensures forall j, i | 0 <= j < layout.height && 0 <= i < layout.width && j != y :: image[j, i] == old(image[j, i])
  {
    hide PixelOf;
    var x := 0;
    while x < layout.width
      invariant 0 <= x <= layout.width
      invariant forall i | 0 <= i < x :: image[y, i] == PixelOf(layout, data, i, y)
      invariant forall j, i | 0 <= j < layout.height && 0 <= i < layout.width
        && j != y :: image[j, i] == old(image[j, i])
    {
      image[y, x] := PixelOf(layout, data, x, y);
      x := x + 1;
    }
  }

  method ReadLogoTexture(file: seq<Byte>, offset: int) returns (found: bool, image: array2<Pixel>)
    ensures found == LogoAt(file, offset).Some?
    ensures found ==>
      var (layout, start) := LogoAt(file, offset).value;
      && image.Length0 == layout.height && image.Length1 == layout.width
      && forall y, x | 0 <= y < layout.height && 0 <= x < layout.width ::
           image[y, x] == PixelOf(layout, file[start..start + layout.Needed()], x, y)
  {
    var logo := LogoAt(file, offset);
    if logo.None? {
      image := new Pixel[0, 0];
      return false, image;
    }
    var (layout, start) := logo.value;
    hide LogoAt, PixelOf;
    var data := file[start..start + layout.Needed()];
    image := new Pixel[layout.height, layout.width];
    found := true;
    var y := 0;
    while y < layout.height
      invariant 0 <= y <= layout.height
      invariant forall j, i | 0 <= j < y && 0 <= i < layout.width :: image[j, i] == PixelOf(layout, data, i, j)
    {
      FillRow(image, layout, data, y);
      y := y + 1;
    }
  }
}
