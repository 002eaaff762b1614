/**
 * MainWindow.DrawMandelbrot: the image is cut into an 8 x 8 grid of tiles
 * (chunks); each tile computes the escape count and colour of its pixels and
 * writes them, packed by Rgb, into a row-major buffer.
 */
module MainWindow {
  import opened Complex
  import Escape
  import ColorMap

  /** Tile (a, b): column band a, row band b of the 8 x 8 grid. */
  datatype Chunk = Chunk(a: int, b: int)

  /** What DrawMandelbrot reads from the dependency properties. */
  datatype View = View(centerX: real, centerY: real, zoom: real, maxIterations: int)

  /** The window the application draws: 4096 x 4096 pixels. */
  const PixelWidth := 4096
  const PixelHeight := 4096

  // ---------------------------------------------------------------------
  // The chunk list
  // ---------------------------------------------------------------------

  /** Every pair (a, b) with 0 <= a, b < 8 occurs, at position 8a + b, and no chunk occurs twice. */
  predicate IsChunkGrid(chunks: seq<Chunk>) {
    && |chunks| == 64
    && (forall n :: 0 <= n < |chunks| ==> 0 <= chunks[n].a < 8 && 0 <= chunks[n].b < 8)
    && (forall a, b :: 0 <= a < 8 && 0 <= b < 8 ==> chunks[8 * a + b] == Chunk(a, b))
    && (forall m, n :: 0 <= m < n < |chunks| ==> chunks[m] != chunks[n])
  }

  /** The list in the order the nested loops build it is the 8 x 8 grid. */
  lemma ChunkOrderIsGrid(chunks: seq<Chunk>)
    requires |chunks| == 64
    requires forall n :: 0 <= n < 64 ==> chunks[n] == Chunk(n / 8, n % 8)
    ensures IsChunkGrid(chunks)
  {
    forall a, b | 0 <= a < 8 && 0 <= b < 8
      ensures chunks[8 * a + b] == Chunk(a, b)
    {
      assert (8 * a + b) / 8 == a && (8 * a + b) % 8 == b;
    }
    forall m, n | 0 <= m < n < 64
      ensures chunks[m] != chunks[n]
    {
      assert m == 8 * (m / 8) + m % 8 && n == 8 * (n / 8) + n % 8;
    }
  }

  /** The nested loops over a and b that fill the chunk list. */
  method BuildChunks() returns (chunks: seq<Chunk>)
    ensures forall n :: 0 <= n < |chunks| ==> chunks[n] == Chunk(n / 8, n % 8)
    ensures IsChunkGrid(chunks)
  {
    chunks := [];
    for a := 0 to 8
      invariant |chunks| == 8 * a
      invariant forall n :: 0 <= n < |chunks| ==> chunks[n] == Chunk(n / 8, n % 8)
    {
      for b := 0 to 8
        invariant |chunks| == 8 * a + b
        invariant forall n :: 0 <= n < |chunks| ==> chunks[n] == Chunk(n / 8, n % 8)
      {
        chunks := chunks + [Chunk(a, b)];
      }
    }
    ChunkOrderIsGrid(chunks);
  }

  // ---------------------------------------------------------------------
  // Tiles and buffer indices
  // ---------------------------------------------------------------------

  /** Column i and row j lie in the tile of `chunk`: a subPixelWidth x subPixelHeight block. */
  predicate InTile(pw: int, ph: int, chunk: Chunk, i: int, j: int) {
    var sw, sh := pw / 8, ph / 8;
    sw * chunk.a <= i < sw * chunk.a + sw && sh * chunk.b <= j < sh * chunk.b + sh
  }

  /** The pixels some tile covers: the first 8 * (pw / 8) columns and 8 * (ph / 8) rows. */
  predicate Covered(pw: int, ph: int, i: int, j: int) {
    0 <= i < 8 * (pw / 8) && 0 <= j < 8 * (ph / 8)
  }

  /** The position in the chunk list of the tile that holds a covered pixel. */
  function TileIndex(pw: int, ph: int, i: int, j: int): int
    requires pw >= 8 && ph >= 8
  {
    8 * (i / (pw / 8)) + j / (ph / 8)
  }

  /** The quotient by s is a exactly on the band [s * a, s * a + s). */
  lemma DivBand(i: int, s: int, a: int)
    requires s > 0
    ensures s * a <= i < s * a + s <==> i / s == a
  {
    var q, r := i / s, i % s;
    assert i == s * q + r && 0 <= r < s;
    if s * a <= i < s * a + s {
      assert s * q < s * (a + 1);
      assert s * a < s * (q + 1);
      MulLess(s, q, a + 1);
      MulLess(s, a, q + 1);
    }
  }

  /** Multiplying by a positive factor keeps strict order. */
  lemma MulLess(s: int, x: int, y: int)
    requires s > 0 && s * x < s * y
    ensures x < y
  {
    assert s * (y - x) > 0;
  }

  /** Pixel (i, j) of a pw x ph image sits at i + j * pw, inside the buffer, and is recovered by % and /. */
  lemma BufferIndex(pw: int, ph: int, i: int, j: int)
    requires 0 <= i < pw && 0 <= j < ph
    ensures 0 <= i + j * pw < pw * ph
    ensures (i + j * pw) % pw == i && (i + j * pw) / pw == j
  {
    assert j * pw <= (ph - 1) * pw by {
      assert (ph - 1 - j) * pw >= 0;
    }
    DivBand(i + j * pw, pw, j);
  }

  /** A band [s * a, s * a + s) with s = len / 8 and a one of 0..7 lies inside [0, 8 * s). */
  lemma BandInImage(len: int, a: int, i: int)
    requires 0 <= a < 8
    requires (len / 8) * a <= i < (len / 8) * a + len / 8
    ensures 0 <= i < 8 * (len / 8) <= len
  {
    var s := len / 8;
    assert s * a >= 0;
    assert s * a + s <= s * 8 by {
      assert s * (7 - a) >= 0;
    }
  }

  /** The rows of tile row b lie inside the image. */
  lemma RowBand(ph: int, b: int)
    requires 0 <= b < 8 && ph >= 0
    ensures 0 <= (ph / 8) * b <= (ph / 8) * b + ph / 8 <= ph
  {
    var s := ph / 8;
    assert s * b >= 0;
    assert s * b + s <= s * 8 by {
      assert s * (7 - b) >= 0;
    }
  }

  /** A tile of the grid lies inside the image. */
  lemma TileInImage(pw: int, ph: int, chunk: Chunk, i: int, j: int)
    requires 0 <= chunk.a < 8 && 0 <= chunk.b < 8
    requires InTile(pw, ph, chunk, i, j)
    ensures 0 <= i < pw && 0 <= j < ph
    ensures Covered(pw, ph, i, j)
  {
    BandInImage(pw, chunk.a, i);
    BandInImage(ph, chunk.b, j);
  }

  /** Every index a tile of the grid writes is inside the buffer. */
  lemma TilesInBounds(pw: int, ph: int, chunk: Chunk, i: int, j: int)
    requires 0 <= chunk.a < 8 && 0 <= chunk.b < 8
    requires InTile(pw, ph, chunk, i, j)
    ensures 0 <= i + j * pw < pw * ph
  {
    TileInImage(pw, ph, chunk, i, j);
    BufferIndex(pw, ph, i, j);
  }

  /** A covered pixel lies in tile (a, b) exactly when the tile's position in the list is 8a + b. */
  lemma TileOfPixel(pw: int, ph: int, a: int, b: int, i: int, j: int)
    requires 0 <= a < 8 && 0 <= b < 8
    ensures InTile(pw, ph, Chunk(a, b), i, j) <==> Covered(pw, ph, i, j) && TileIndex(pw, ph, i, j) == 8 * a + b
  {
    var sw, sh := pw / 8, ph / 8;
    if InTile(pw, ph, Chunk(a, b), i, j) {
      TileInImage(pw, ph, Chunk(a, b), i, j);
    }
    if sw > 0 && sh > 0 {
      DivBand(i, sw, a);
      DivBand(j, sh, b);
      if Covered(pw, ph, i, j) {
        DivBand(i, sw, i / sw);
        DivBand(j, sh, j / sh);
        assert 0 <= i / sw < 8 by { BandBelow(i, sw); }
        assert 0 <= j / sh < 8 by { BandBelow(j, sh); }
      }
    }
  }

  /** A covered pixel's tile is one of the 64 in the chunk list. */
  lemma TileIndexRange(pw: int, ph: int, i: int, j: int)
    requires Covered(pw, ph, i, j)
    ensures pw >= 8 && ph >= 8
    ensures 0 <= TileIndex(pw, ph, i, j) < 64
  {
    BandBelow(i, pw / 8);
    BandBelow(j, ph / 8);
  }

  /** Below 8 * s the quotient by s is one of 0..7. */
  lemma BandBelow(i: int, s: int)
    requires s > 0 && 0 <= i < 8 * s
    ensures 0 <= i / s < 8
  {
    var q := i / s;
    assert i == s * q + i % s;
    assert s * q < s * 8;
    MulLess(s, q, 8);
    assert s * -1 < s * q;
    MulLess(s, -1, q);
  }

  /** Two tiles of the grid never share a pixel, so no buffer index is written twice. */
  lemma TilesDisjoint(pw: int, ph: int, c1: Chunk, c2: Chunk, i: int, j: int)
    requires 0 <= c1.a < 8 && 0 <= c1.b < 8 && 0 <= c2.a < 8 && 0 <= c2.b < 8
    requires InTile(pw, ph, c1, i, j) && InTile(pw, ph, c2, i, j)
    ensures c1 == c2
  {
    TileOfPixel(pw, ph, c1.a, c1.b, i, j);
    TileOfPixel(pw, ph, c2.a, c2.b, i, j);
  }

  /** Distinct pixels have distinct buffer indices. */
  lemma IndicesDistinct(pw: int, ph: int, i: int, j: int, i': int, j': int)
    requires 0 <= i < pw && 0 <= j < ph && 0 <= i' < pw && 0 <= j' < ph
    requires i + j * pw == i' + j' * pw
    ensures i == i' && j == j'
  {
    BufferIndex(pw, ph, i, j);
    BufferIndex(pw, ph, i', j');
  }

  /**
   * When both dimensions are multiples of 8, every pixel lies in exactly one
   * tile of the grid.
   */
  lemma CoverExactlyOnce(pw: int, ph: int, i: int, j: int)
    requires pw % 8 == 0 && ph % 8 == 0
    requires 0 <= i < pw && 0 <= j < ph
    ensures Covered(pw, ph, i, j)
    ensures var a, b := i / (pw / 8), j / (ph / 8);
            0 <= a < 8 && 0 <= b < 8 && InTile(pw, ph, Chunk(a, b), i, j)
    ensures forall c: Chunk :: 0 <= c.a < 8 && 0 <= c.b < 8 && InTile(pw, ph, c, i, j) ==> c == Chunk(i / (pw / 8), j / (ph / 8))
  {
    var sw, sh := pw / 8, ph / 8;
    BandBelow(i, sw);
    BandBelow(j, sh);
    TileOfPixel(pw, ph, i / sw, j / sh, i, j);
    forall c: Chunk | 0 <= c.a < 8 && 0 <= c.b < 8 && InTile(pw, ph, c, i, j)
      ensures c == Chunk(i / sw, j / sh)
    {
      TilesDisjoint(pw, ph, c, Chunk(i / sw, j / sh), i, j);
    }
  }

  /** When the width is not a multiple of 8, the last column lies in no tile. */
  lemma RemainderColumnUncovered(pw: int, ph: int, j: int)
    requires pw > 0 && pw % 8 != 0
    ensures !Covered(pw, ph, pw - 1, j)
  {
  }

  /** When the height is not a multiple of 8, the last row lies in no tile. */
  lemma RemainderRowUncovered(pw: int, ph: int, i: int)
    requires ph > 0 && ph % 8 != 0
    ensures !Covered(pw, ph, i, ph - 1)
  {
  }

  /**
   * The 4096 x 4096 window is tiled exactly: pixel (i, j) lies in the chunk
   * (i / 512, j / 512) and in no other.
   */
  lemma WindowCovered(i: int, j: int)
    requires 0 <= i < PixelWidth && 0 <= j < PixelHeight
    ensures Covered(PixelWidth, PixelHeight, i, j)
    ensures 0 <= i / 512 < 8 && 0 <= j / 512 < 8
    ensures InTile(PixelWidth, PixelHeight, Chunk(i / 512, j / 512), i, j)
    ensures forall c: Chunk :: 0 <= c.a < 8 && 0 <= c.b < 8 && InTile(PixelWidth, PixelHeight, c, i, j) ==> c == Chunk(i / 512, j / 512)
  {
    CoverExactlyOnce(PixelWidth, PixelHeight, i, j);
  }

  // ---------------------------------------------------------------------
  // Pixels
  // ---------------------------------------------------------------------

  /**
   * What a pixel's colour depends on: the image size (_pixelWidth,
   * _pixelHeight), the view, the colour conversions and the smoothing term.
   */
  datatype Scene = Scene(pw: int, ph: int, view: View, cs: ColorMap.ColorSpace, smooth: Complex -> real)

  /** The real coordinate of column i: minX + i / pw * zoom with minX = CenterX - Zoom / 2. */
  function PixelX(view: View, pw: int, i: int): real
    requires pw > 0
  {
    (view.centerX - view.zoom / 2.0) + i as real / pw as real * view.zoom
  }

  /** The imaginary coordinate of row j: minY + j / ph * zoom with minY = CenterY - Zoom / 2. */
  function PixelY(view: View, ph: int, j: int): real
    requires ph > 0
  {
    (view.centerY - view.zoom / 2.0) + j as real / ph as real * view.zoom
  }

  /** The packed colour of the point x + yi: escape count, gradient colour, Rgb. */
  function PointRgb(cs: ColorMap.ColorSpace, smooth: Complex -> real, maxIterations: int, x: real, y: real): bv32 {
    var iterations := Escape.MandelbrotValue(Complex(x, y), maxIterations, smooth);
    ColorMap.Rgb(ColorMap.FromIterations(cs, iterations, maxIterations))
  }

  /** The packed colour of pixel (i, j). */
  function PixelRgb(sc: Scene, i: int, j: int): bv32
    requires sc.pw > 0 && sc.ph > 0
  {
    PointRgb(sc.cs, sc.smooth, sc.view.maxIterations, PixelX(sc.view, sc.pw, i), PixelY(sc.view, sc.ph, j))
  }

  /** The three calls of the inner loop body: Mandelbrot, FromIterations and Rgb for one point. */
  method ShadePoint(cs: ColorMap.ColorSpace, smooth: Complex -> real, maxIterations: int, x: real, y: real)
    returns (rgb: bv32)
    ensures rgb == PointRgb(cs, smooth, maxIterations, x, y)
  {
    var iterations := Escape.Mandelbrot(x, y, maxIterations, smooth);
    var color := ColorMap.FromIterations(cs, iterations, maxIterations);
    rgb := ColorMap.Rgb(color);
  }

  /** Pixel colouring of a scene as a function value; an empty image has no pixels to colour. */
  function Shading(sc: Scene): (int, int) -> bv32 {
    (i, j) => if sc.pw > 0 && sc.ph > 0 then PixelRgb(sc, i, j) else 0
  }

  // ---------------------------------------------------------------------
  // Buffer states, for any colouring `color` of the pixels
  // ---------------------------------------------------------------------

  /**
   * The buffer s with every pixel in columns [x0, x1) and rows [y0, y1) set
   * to its colour; entry k holds pixel (k % pw, k / pw).
   */
  function Paint(pw: int, color: (int, int) -> bv32, s: seq<bv32>, x0: int, x1: int, y0: int, y1: int): (r: seq<bv32>)
    ensures |r| == |s|
  {
    if pw <= 0 then s
    else seq(|s|, k requires 0 <= k < |s| =>
           if x0 <= k % pw < x1 && y0 <= k / pw < y1 then color(k % pw, k / pw) else s[k])
  }

  /** The buffer s after the tile of `chunk` is drawn into it. */
  function DrawTile(pw: int, ph: int, color: (int, int) -> bv32, s: seq<bv32>, chunk: Chunk): seq<bv32> {
    var sw, sh := pw / 8, ph / 8;
    Paint(pw, color, s, sw * chunk.a, sw * chunk.a + sw, sh * chunk.b, sh * chunk.b + sh)
  }

  /** The fresh buffer after the first n chunks of the list are drawn. */
  function Image(pw: int, ph: int, color: (int, int) -> bv32, n: int): (r: seq<bv32>)
    requires pw >= 0 && ph >= 0
    ensures |r| == pw * ph
  {
    if pw == 0 || ph == 0 then seq(pw * ph, _ => 0)
    else seq(pw * ph, k requires 0 <= k < pw * ph =>
           if Covered(pw, ph, k % pw, k / pw) && TileIndex(pw, ph, k % pw, k / pw) < n
           then color(k % pw, k / pw) else 0)
  }

  /**
   * The buffer DrawMandelbrot produces: each covered pixel holds its colour,
   * every other entry is 0.
   */
  function Picture(pw: int, ph: int, color: (int, int) -> bv32): (r: seq<bv32>)
    requires pw >= 0 && ph >= 0
    ensures |r| == pw * ph
  {
    if pw == 0 || ph == 0 then []
    else seq(pw * ph, k requires 0 <= k < pw * ph =>
           if Covered(pw, ph, k % pw, k / pw) then color(k % pw, k / pw) else 0)
  }

  /** Buffer index k holds pixel (i, j) exactly when k = i + j * pw. */
  lemma CellOf(pw: int, k: int, i: int, j: int)
    requires pw > 0 && 0 <= i < pw
    ensures k % pw == i && k / pw == j <==> k == i + j * pw
  {
    DivBand(k, pw, j);
  }

  /** An empty rectangle paints nothing. */
  lemma PaintEmpty(pw: int, color: (int, int) -> bv32, s: seq<bv32>, x0: int, x1: int, y0: int, y1: int)
    requires x1 <= x0 || y1 <= y0
    ensures Paint(pw, color, s, x0, x1, y0, y1) == s
  {
  }

  /** Painting one more row of column i changes exactly the entry of pixel (i, j). */
  lemma PaintCell(pw: int, ph: int, color: (int, int) -> bv32, s: seq<bv32>, i: int, y0: int, j: int)
    requires |s| == pw * ph && 0 <= i < pw && 0 <= j < ph && y0 <= j
    ensures i + j * pw < |s|
    ensures Paint(pw, color, s, i, i + 1, y0, j + 1) == Paint(pw, color, s, i, i + 1, y0, j)[i + j * pw := color(i, j)]
  {
    BufferIndex(pw, ph, i, j);
    var lhs := Paint(pw, color, s, i, i + 1, y0, j + 1);
    var rhs := Paint(pw, color, s, i, i + 1, y0, j)[i + j * pw := color(i, j)];
    forall k | 0 <= k < |s|
      ensures lhs[k] == rhs[k]
    {
      CellOf(pw, k, i, j);
    }
  }

  /** A finished column followed by the next one is one wider rectangle. */
  lemma PaintColumn(pw: int, color: (int, int) -> bv32, s: seq<bv32>, x0: int, i: int, y0: int, y1: int)
    requires x0 <= i
    ensures Paint(pw, color, Paint(pw, color, s, x0, i, y0, y1), i, i + 1, y0, y1) == Paint(pw, color, s, x0, i + 1, y0, y1)
  {
  }

  /** Pixel (i, j) after a tile is drawn: its colour inside the tile, unchanged outside. */
  lemma DrawTileAt(pw: int, ph: int, color: (int, int) -> bv32, s: seq<bv32>, chunk: Chunk, i: int, j: int)
    requires |s| == pw * ph && 0 <= i < pw && 0 <= j < ph
    ensures i + j * pw < |s|
    ensures DrawTile(pw, ph, color, s, chunk)[i + j * pw]
         == if InTile(pw, ph, chunk, i, j) then color(i, j) else s[i + j * pw]
  {
    BufferIndex(pw, ph, i, j);
  }

  /** Drawing two chunks gives the same buffer in either order. */
  lemma DrawTilesCommute(pw: int, ph: int, color: (int, int) -> bv32, s: seq<bv32>, c1: Chunk, c2: Chunk)
    ensures DrawTile(pw, ph, color, DrawTile(pw, ph, color, s, c1), c2)
         == DrawTile(pw, ph, color, DrawTile(pw, ph, color, s, c2), c1)
  {
  }

  /** Starting from zeros, no chunk drawn. */
  lemma ImageStart(pw: int, ph: int, color: (int, int) -> bv32)
    requires pw >= 0 && ph >= 0
    ensures Image(pw, ph, color, 0) == seq(pw * ph, _ => 0)
  {
    var zeros: seq<bv32> := seq(pw * ph, _ => 0);
    forall k | 0 <= k < pw * ph
      ensures Image(pw, ph, color, 0)[k] == zeros[k]
    {
      if pw > 0 && ph > 0 && Covered(pw, ph, k % pw, k / pw) {
        TileIndexRange(pw, ph, k % pw, k / pw);
      }
    }
  }

  /** Drawing chunk n of the list, Chunk(n / 8, n % 8), into Image(n) gives Image(n + 1). */
  lemma ImageStep(pw: int, ph: int, color: (int, int) -> bv32, n: int)
    requires pw >= 0 && ph >= 0 && 0 <= n < 64
    ensures DrawTile(pw, ph, color, Image(pw, ph, color, n), Chunk(n / 8, n % 8)) == Image(pw, ph, color, n + 1)
  {
    if pw > 0 && ph > 0 {
      var lhs := DrawTile(pw, ph, color, Image(pw, ph, color, n), Chunk(n / 8, n % 8));
      var rhs := Image(pw, ph, color, n + 1);
      forall k | 0 <= k < pw * ph
        ensures lhs[k] == rhs[k]
      {
        TileOfPixel(pw, ph, n / 8, n % 8, k % pw, k / pw);
      }
    }
  }

  /** After all 64 chunks every covered pixel is drawn. */
  lemma ImageComplete(pw: int, ph: int, color: (int, int) -> bv32)
    requires pw >= 0 && ph >= 0
    ensures Image(pw, ph, color, 64) == Picture(pw, ph, color)
  {
    if pw > 0 && ph > 0 {
      forall k | 0 <= k < pw * ph
        ensures Image(pw, ph, color, 64)[k] == Picture(pw, ph, color)[k]
      {
        if Covered(pw, ph, k % pw, k / pw) {
          TileIndexRange(pw, ph, k % pw, k / pw);
        }
      }
    }
  }

  /** Pixel (i, j) of the picture: its colour when a tile covers it, else 0. */
  lemma PictureAt(pw: int, ph: int, color: (int, int) -> bv32, i: int, j: int)
    requires 0 <= i < pw && 0 <= j < ph
    ensures i + j * pw < |Picture(pw, ph, color)|
    ensures Picture(pw, ph, color)[i + j * pw] == if Covered(pw, ph, i, j) then color(i, j) else 0
  {
    BufferIndex(pw, ph, i, j);
  }

  /** With both dimensions multiples of 8 (as the 4096 x 4096 window), every pixel holds its colour. */
  lemma PictureComplete(pw: int, ph: int, color: (int, int) -> bv32, i: int, j: int)
    requires pw % 8 == 0 && ph % 8 == 0 && 0 <= i < pw && 0 <= j < ph
    ensures i + j * pw < |Picture(pw, ph, color)|
    ensures Picture(pw, ph, color)[i + j * pw] == color(i, j)
  {
    PictureAt(pw, ph, color, i, j);
    CoverExactlyOnce(pw, ph, i, j);
  }

  /** The point the pixel loop computes for (i, j) is the one the colouring shades. */
  lemma PointOfPixel(sc: Scene, i: int, j: int, x: real, y: real)
    requires sc.pw > 0 && sc.ph > 0
    requires x == PixelX(sc.view, sc.pw, i) && y == PixelY(sc.view, sc.ph, j)
    ensures Shading(sc)(i, j) == PointRgb(sc.cs, sc.smooth, sc.view.maxIterations, x, y)
  {
  }

  // ---------------------------------------------------------------------
  // Drawing
  // ---------------------------------------------------------------------

  /** The body of the inner loop: the imaginary coordinate of row j, then the pixel's packed colour. */
  method ShadePixel(sc: Scene, i: int, j: int, x: real) returns (rgb: bv32)
    requires sc.pw > 0 && sc.ph > 0 && x == PixelX(sc.view, sc.pw, i)
    ensures rgb == Shading(sc)(i, j)
  {
    var view := sc.view;
    var minY := view.centerY - view.zoom / 2.0;
    var y := minY + j as real / sc.ph as real * view.zoom;
    assert y == PixelY(view, sc.ph, j);
    rgb := ShadePoint(sc.cs, sc.smooth, view.maxIterations, x, y);
    PointOfPixel(sc, i, j, x, y);
  }

  /**
   * The inner loop of one chunk: rows y0 .. y1 - 1 of column i, whose real
   * coordinate x the outer loop has computed.
   */
  method FillColumn(buffer: array<bv32>, sc: Scene, i: int, x: real, y0: int, y1: int)
    requires buffer.Length == sc.pw * sc.ph
    requires 0 <= i < sc.pw && 0 <= y0 <= y1 <= sc.ph
    requires x == PixelX(sc.view, sc.pw, i)
    modifies buffer
    ensures buffer[..] == Paint(sc.pw, Shading(sc), old(buffer[..]), i, i + 1, y0, y1)
  {
    ghost var color := Shading(sc);
    PaintEmpty(sc.pw, color, old(buffer[..]), i, i + 1, y0, y0);
    for j := y0 to y1
      invariant buffer[..] == Paint(sc.pw, color, old(buffer[..]), i, i + 1, y0, j)
    {
      var rgb := ShadePixel(sc, i, j, x);
      PaintCell(sc.pw, sc.ph, color, old(buffer[..]), i, y0, j);
      buffer[i + j * sc.pw] := rgb;
    }
  }

  /**
   * The body of Parallel.ForEach for one chunk: the loop over the columns
   * of its tile, and for each the loop over its rows.
   */
  method FillChunk(buffer: array<bv32>, sc: Scene, chunk: Chunk)
    requires sc.pw >= 0 && sc.ph >= 0 && buffer.Length == sc.pw * sc.ph
    requires 0 <= chunk.a < 8 && 0 <= chunk.b < 8
    modifies buffer
    ensures buffer[..] == DrawTile(sc.pw, sc.ph, Shading(sc), old(buffer[..]), chunk)
  {
    var pw, view := sc.pw, sc.view;
    ghost var color := Shading(sc);
    var minX := view.centerX - view.zoom / 2.0;
    var subPixelWidth := pw / 8;
    ghost var x0 := subPixelWidth * chunk.a;
    var subPixelHeight := sc.ph / 8;
    var y0, y1 := subPixelHeight * chunk.b, subPixelHeight * chunk.b + subPixelHeight;
    PaintEmpty(pw, color, old(buffer[..]), x0, x0, y0, y1);
    for i := subPixelWidth * chunk.a to subPixelWidth * chunk.a + subPixelWidth
      invariant buffer[..] == Paint(pw, color, old(buffer[..]), x0, i, y0, y1)
    {
      BandInImage(pw, chunk.a, i);
      var x := minX + i as real / pw as real * view.zoom;
      assert x == PixelX(view, pw, i);
      RowBand(sc.ph, chunk.b);
      FillColumn(buffer, sc, i, x, y0, y1);
      PaintColumn(pw, color, old(buffer[..]), x0, i, y0, y1);
    }
  }

  /**
   * MainWindow.DrawMandelbrot, with the chunks run one after another: a fresh
   * zeroed buffer, the chunk list, and each chunk's tile drawn into the buffer.
   */
  method DrawMandelbrot(sc: Scene) returns (buffer: array<bv32>)
    requires sc.pw >= 0 && sc.ph >= 0
    ensures fresh(buffer)
    ensures buffer[..] == Picture(sc.pw, sc.ph, Shading(sc))
  {
    buffer := new bv32[sc.ph * sc.pw](_ => 0);
    ghost var color := Shading(sc);
    ImageStart(sc.pw, sc.ph, color);
    assert buffer[..] == seq(sc.pw * sc.ph, _ => 0);
    var chunks := BuildChunks();
    for n := 0 to |chunks|
      invariant buffer[..] == Image(sc.pw, sc.ph, color, n)
    {
      FillChunk(buffer, sc, chunks[n]);
      ImageStep(sc.pw, sc.ph, color, n);
    }
    ImageComplete(sc.pw, sc.ph, color);
  }

  /** Pixel (i, j) of the drawn buffer holds the packed colour of its point when a tile covers it, else 0. */
  lemma DrawnPixel(sc: Scene, i: int, j: int)
    requires 0 <= i < sc.pw && 0 <= j < sc.ph
    ensures i + j * sc.pw < |Picture(sc.pw, sc.ph, Shading(sc))|
    ensures Picture(sc.pw, sc.ph, Shading(sc))[i + j * sc.pw]
         == if Covered(sc.pw, sc.ph, i, j) then PixelRgb(sc, i, j) else 0
  {
    PictureAt(sc.pw, sc.ph, Shading(sc), i, j);
  }
}
