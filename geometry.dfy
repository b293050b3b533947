/**
  Raster geometry: pixel offsets and sizes as `(x, y)` pairs, the casts
  between integer and floating-point pairs, and the rectangular
  `RasterWindow` with its conversions to and from offset/size pairs and
  chunk windows. Floating-point coordinates are exact reals here.
 */
module Geometry {
  import opened Chunking

  /** A size `(x, y)` in pixels. */
  type PixelSize = (nat, nat)

  /** An offset `(x, y)` in pixels within a raster. */
  type PixelOffset = (nat, nat)

  /** The signed offset the GDAL backend takes. */
  type GdalOffset = (int, int)

  /** A floating-point coordinate `(x, y)`. */
  type Coord = (real, real)

  /** `x.floor() as usize`: the floor, with negative values cast to 0. */
  function FloorToUsize(x: real): (n: nat)
    ensures x >= 0.0 ==> n as real <= x < n as real + 1.0
    ensures x < 0.0 ==> n == 0
  {
    if x < 0.0 then 0 else x.Floor
  }

  /** Both components floored and cast to unsigned integers. */
  function AsUsize(t: Coord): (r: (nat, nat))
    ensures t.0 >= 0.0 ==> r.0 as real <= t.0 < r.0 as real + 1.0
    ensures t.1 >= 0.0 ==> r.1 as real <= t.1 < r.1 as real + 1.0
  {
    (FloorToUsize(t.0), FloorToUsize(t.1))
  }

  /** Both components as floating point. */
  function AsF64(t: (nat, nat)): Coord
  {
    (t.0 as real, t.1 as real)
  }

  /** `AsUsize` takes the floating-point pair of `AsF64` back to the integers. */
  lemma AsF64RoundTrip(t: (nat, nat))
    ensures AsUsize(AsF64(t)) == t
  {
    FloorToUsizeNat(t.0);
    FloorToUsizeNat(t.1);
  }

  /** A rectangle of the raster, from the corner `min` to the corner `max`. */
  datatype RasterWindow = RasterWindow(min: Coord, max: Coord)
  {
    /** The area of the rectangle, as an unsigned integer. */
    function NumPixels(): nat
    {
      var area := (max.0 - min.0) * (max.1 - min.1);
      FloorToUsize(if area < 0.0 then -area else area)
    }

    function Offset(): PixelOffset
    {
      AsUsize(min)
    }

    /** Width and height `(x, y)`. */
    function Size(): PixelSize
    {
      AsUsize((max.0 - min.0, max.1 - min.1))
    }

    /** Rows and columns: the size with its components swapped. */
    function Shape(): (r: (nat, nat))
      ensures r.0 == Size().1 && r.1 == Size().0
    {
      var (x, y) := Size();
      (y, x)
    }
  }

  /** The window at `off` of extent `size`. */
  function FromOffsetSize(off: PixelOffset, size: PixelSize): (w: RasterWindow)
    ensures w.Offset() == off && w.Size() == size
    ensures w.Shape() == (size.1, size.0)
    ensures w.NumPixels() == size.0 * size.1
  {
    var min := AsF64(off);
    var extent := AsF64(size);
    var max := (min.0 + extent.0, min.1 + extent.1);
    assert (max.0 - min.0, max.1 - min.1) == extent;
    var w := RasterWindow(min, max);
    NatMulReal(size.0, size.1);
    assert (max.0 - min.0) * (max.1 - min.1) == (size.0 * size.1) as real;
    FloorToUsizeNat(size.0 * size.1);
    assert w.NumPixels() == FloorToUsize((size.0 * size.1) as real);
    w
  }

  /** A natural number cast to a real floors back to itself. */
  lemma FloorToUsizeNat(n: nat)
    ensures FloorToUsize(n as real) == n
  {
  }

  /** Multiplying naturals commutes with the cast to reals. */
  lemma {:induction false} NatMulReal(x: nat, y: nat)
    ensures (x as real) * (y as real) == (x * y) as real
  {
    if y > 0 {
      NatMulReal(x, y - 1);
      assert x * y == x * (y - 1) + x;
      assert (x as real) * (y as real) == (x as real) * ((y - 1) as real) + x as real;
    }
  }

  /** The offset, now signed, and the size of a window, as the GDAL backend takes them. */
  function ToGdal(w: RasterWindow): (GdalOffset, PixelSize)
  {
    var (x, y) := w.Offset();
    ((x as int, y as int), w.Size())
  }

  /** An offset/size pair survives the round trip through a window. */
  lemma GdalRoundTrip(off: PixelOffset, size: PixelSize)
    ensures ToGdal(FromOffsetSize(off, size)) == ((off.0 as int, off.1 as int), size)
  {
  }

  /**
    The conversion of a chunk window as the source writes it: the third
    component is taken as the end row, and the height is `rows - start`.
   */
  function FromChunkWindow(cw: ChunkWindow): (w: RasterWindow)
    requires cw.start <= cw.rows
    ensures w.Offset() == (0, cw.start)
    ensures w.Size() == (cw.cfg.width, cw.rows - cw.start)
  {
    FromOffsetSize((0, cw.start), (cw.cfg.width, cw.rows - cw.start))
  }

  /**
    The conversion of a chunk window with the third component read as a row
    count, as the iteration produces it.
   */
  function FromChunkWindowRows(cw: ChunkWindow): (w: RasterWindow)
    ensures w.Offset() == (0, cw.start)
    ensures w.Size() == (cw.cfg.width, cw.rows)
  {
    FromOffsetSize((0, cw.start), (cw.cfg.width, cw.rows))
  }

  /**
    Every window of a valid configuration becomes a full-width rectangle
    that lies inside the raster and holds the window's data rows.
   */
  lemma EmittedWindowsFitRaster(cfg: ChunkConfig, k: nat)
    requires Valid(cfg) && k < |Windows(cfg, cfg.start)|
    ensures |DataBounds(cfg, cfg.start)| == |Windows(cfg, cfg.start)| + 1
    ensures var w := FromChunkWindowRows(Windows(cfg, cfg.start)[k]);
      var b := DataBounds(cfg, cfg.start);
      && w.Offset().0 == 0 && w.Size().0 == cfg.width
      && 0 < w.Size().1
      && w.Offset().1 + w.Size().1 <= cfg.height
      && w.Offset().1 <= b[k] < b[k + 1] <= w.Offset().1 + w.Size().1
      && w.NumPixels() == cfg.width * Windows(cfg, cfg.start)[k].rows
  {
    WindowsWithinRaster(cfg);
    var b := DataBounds(cfg, cfg.start);
    var cw := Windows(cfg, cfg.start)[k];
    assert cw.cfg == cfg by {
      WindowsShape(cfg, cfg.start);
      assert ShapedAround(cfg, cw, b[k], b[k + 1]);
    }
    assert FitsAround(cfg, cw, b[k], b[k + 1]);
    var w := FromOffsetSize((0, cw.start), (cfg.width, cw.rows));
    assert w == FromChunkWindowRows(cw);
  }

  /**
    With the source's conversion the second window of the reference
    scenario, rows 2..17 around the data row 9, becomes a rectangle of only
    13 rows (2..15), which misses the padding rows 15 and 16 below the data.
   */
  lemma ChunkWindowConversionDropsRows(cfg: ChunkConfig)
    requires cfg == ChunkConfig(32, 20, 2, 2, 7, 7, 10)
    ensures |Windows(cfg, cfg.start)| == 2 && |DataBounds(cfg, cfg.start)| == 3
    ensures Windows(cfg, cfg.start)[1] == ChunkWindow(cfg, 2, 15)
    ensures DataBounds(cfg, cfg.start)[1] == 9
    ensures FromChunkWindow(ChunkWindow(cfg, 2, 15)).Size() == (32, 13)
    ensures FromChunkWindowRows(ChunkWindow(cfg, 2, 15)).Size() == (32, 15)
  {
    assert DataEnd(cfg, 7) == 9 && DataEnd(cfg, 9) == 10;
    assert Windows(cfg, 10) == [] && DataBounds(cfg, 10) == [10];
    assert Windows(cfg, 9) == [ChunkWindow(cfg, 2, 15)];
    assert DataBounds(cfg, 9) == [9, 10];
    assert Windows(cfg, 7) == [ChunkWindow(cfg, 0, 16), ChunkWindow(cfg, 2, 15)];
    assert DataBounds(cfg, 7) == [7, 9, 10];
  }

  /**
    A window can start below its row count: a 10 x 100 raster with data
    height 2, no padding and the range 50..52 yields the single window
    (50, 2), for which the source's `rows - start` would underflow.
   */
  lemma ChunkWindowConversionUnderflows(cfg: ChunkConfig)
    requires cfg == ChunkConfig(10, 100, 1, 2, 0, 50, 52)
    ensures Valid(cfg)
    ensures Windows(cfg, cfg.start) == [ChunkWindow(cfg, 50, 2)]
    ensures Windows(cfg, cfg.start)[0].start > Windows(cfg, cfg.start)[0].rows
  {
    assert DataEnd(cfg, 50) == 52;
    assert Windows(cfg, 52) == [];
    assert WindowAt(cfg, 50) == ChunkWindow(cfg, 50, 2);
  }
}
