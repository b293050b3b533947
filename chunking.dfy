/**
  Chunk planning: the configuration a raster is traversed with, the
  `next_multiple` alignment helper, and the iteration of a configuration
  into padded, full-width row windows.

  A configuration asks for the rows `[start, end)` of a `width` x `height`
  raster, `dataHeight` rows at a time (a multiple of `blockSize`, the storage
  block granularity), each chunk extended by `padding` rows above and below
  and clipped at the raster's edges.
 */
module Chunking {
  import opened Integer

  /** The fields of a chunk configuration; its accessors are the destructors. */
  datatype ChunkConfig = ChunkConfig(
    width: nat,
    height: nat,
    blockSize: nat,
    dataHeight: nat,
    padding: nat,
    start: nat,
    end: nat)

  /** What every configuration produced by the builder satisfies. */
  predicate Valid(cfg: ChunkConfig)
  {
    && Iterable(cfg)
    && cfg.width > 0
    && cfg.height > 0
    && cfg.blockSize > 0
    && cfg.dataHeight % cfg.blockSize == 0
    && cfg.padding <= cfg.start
  }

  /**
    What the iteration itself needs: it advances by a positive number of
    rows and stays inside the raster.
   */
  predicate Iterable(cfg: ChunkConfig)
  {
    cfg.dataHeight > 0 && cfg.end <= cfg.height
  }

  // ---------------------------------------------------------------------
  // next_multiple

  /** `usize::div_ceil`: the quotient, plus one when there is a remainder. */
  function DivCeil(num: nat, m: nat): nat
    requires m > 0
  {
    var q := num / m;
    if num % m > 0 then q + 1 else q
  }

  /** The smallest multiple of `m` at or above `num`. */
  function NextMultiple(num: nat, m: nat): (r: nat)
    requires m > 0
    ensures r % m == 0
    ensures num <= r < num + m
  {
    var q := num / m;
    assert num == m * q + num % m;
    DivMulExact(m * DivCeil(num, m), m, DivCeil(num, m));
    DivCeil(num, m) * m
  }

  /** No multiple of `m` lies in `[num, NextMultiple(num, m))`. */
  lemma NextMultipleIsLeast(num: nat, m: nat, k: nat)
    requires m > 0 && k % m == 0 && num <= k
    ensures NextMultiple(num, m) <= k
  {
    var r := NextMultiple(num, m);
    var qr, qk := r / m, k / m;
    assert r == m * qr && k == m * qk;
    if k < r {
      // then r - m < k < r, so qr - 1 < qk < qr
      assert m * (qr - qk) > 0 && m * (qr - qk) < m;
      MulSign(m, qr - qk);
      assert false;
    }
  }

  /** A positive value at or below `m` is rounded up to `m` itself. */
  lemma NextMultipleUpTo(num: nat, m: nat)
    requires 0 < num <= m
    ensures NextMultiple(num, m) == m
  {
    NextMultipleIsLeast(num, m, m);
    MultipleAtLeast(NextMultiple(num, m), m);
  }

  /** A value that is already a multiple is left where it is. */
  lemma NextMultipleOfMultiple(k: nat, m: nat)
    requires m > 0
    ensures NextMultiple(k * m, m) == k * m
  {
    DivMulExact(k * m, m, k);
  }

  // ---------------------------------------------------------------------
  // Chunk windows

  /**
    One item of the iteration: the configuration it belongs to, the first
    row of the window, and the number of rows of the window including
    padding. The window spans the full width of the raster.
   */
  datatype ChunkWindow = ChunkWindow(cfg: ChunkConfig, start: nat, rows: nat)

  /** The end of the data rows of the chunk whose data rows begin at `cursor`. */
  function DataEnd(cfg: ChunkConfig, cursor: nat): nat
  {
    Min(cfg.end, cursor + cfg.dataHeight)
  }

  /** The window emitted for the chunk whose data rows begin at `cursor`. */
  function WindowAt(cfg: ChunkConfig, cursor: nat): ChunkWindow
    requires Iterable(cfg) && cursor < cfg.end
  {
    var windowStart := if cursor >= cfg.padding then cursor - cfg.padding else 0;
    var windowEnd := Min(cfg.height, DataEnd(cfg, cursor) + cfg.padding);
    ChunkWindow(cfg, windowStart, windowEnd - windowStart)
  }

  /** The windows the iteration emits from `cursor` on. */
  function Windows(cfg: ChunkConfig, cursor: nat): seq<ChunkWindow>
    requires Iterable(cfg)
    decreases cfg.end - cursor
  {
    if cursor >= cfg.end then []
    else [WindowAt(cfg, cursor)] + Windows(cfg, DataEnd(cfg, cursor))
  }

  /**
    The cursor positions the iteration passes through from `cursor` on: the
    data rows of the k-th window are `[b[k], b[k + 1])`.
   */
  function DataBounds(cfg: ChunkConfig, cursor: nat): seq<nat>
    requires Iterable(cfg)
    decreases cfg.end - cursor
  {
    if cursor >= cfg.end then [cursor]
    else [cursor] + DataBounds(cfg, DataEnd(cfg, cursor))
  }

  /**
    The iterator: a cursor starts at `start` and advances chunk by chunk
    until it reaches `end`. The configuration is only read, so iterating it
    again yields the same windows.
   */
  method Chunks(cfg: ChunkConfig) returns (windows: seq<ChunkWindow>)
    requires Iterable(cfg)
    ensures windows == Windows(cfg, cfg.start)
  {
    windows := [];
    var cursor := cfg.start;
    while cursor < cfg.end
      invariant windows + Windows(cfg, cursor) == Windows(cfg, cfg.start)
      decreases cfg.end - cursor
    {
      var dataEnd := Min(cfg.end, cursor + cfg.dataHeight);
      var windowStart := if cursor >= cfg.padding then cursor - cfg.padding else 0;
      var windowEnd := Min(cfg.height, dataEnd + cfg.padding);
      var window := ChunkWindow(cfg, windowStart, windowEnd - windowStart);
      assert Windows(cfg, cursor) == [window] + Windows(cfg, dataEnd);
      assert windows + Windows(cfg, cursor) == (windows + [window]) + Windows(cfg, dataEnd);
      windows := windows + [window];
      cursor := dataEnd;
    }
  }

  /** Iterating a borrowed configuration twice gives the same windows. */
  method IterateTwice(cfg: ChunkConfig) returns (first: seq<ChunkWindow>, second: seq<ChunkWindow>)
    requires Iterable(cfg)
    ensures first == second
  {
    first := Chunks(cfg);
    second := Chunks(cfg);
  }

  // ---------------------------------------------------------------------
  // What the iteration guarantees

  /**
    There is one window per data step; the steps run from the cursor to
    `end` (or nowhere, when the cursor is already at or past `end`).
   */
  lemma {:induction false} WindowsCount(cfg: ChunkConfig, cursor: nat)
    requires Iterable(cfg)
    ensures |DataBounds(cfg, cursor)| == |Windows(cfg, cursor)| + 1
    ensures DataBounds(cfg, cursor)[0] == cursor
    ensures DataBounds(cfg, cursor)[|Windows(cfg, cursor)|] == if cursor < cfg.end then cfg.end else cursor
    ensures Windows(cfg, cursor) == [] <==> cfg.end <= cursor
    decreases cfg.end - cursor
  {
    if cursor < cfg.end {
      WindowsCount(cfg, DataEnd(cfg, cursor));
    }
  }

  /** Data steps strictly increase, and each is at most `dataHeight` rows; all but the last are exactly that. */
  lemma {:induction false} DataBoundsIncrease(cfg: ChunkConfig, cursor: nat)
    requires Iterable(cfg)
    ensures var b := DataBounds(cfg, cursor);
      forall i, j :: 0 <= i < j < |b| ==> b[i] < b[j]
    ensures var b := DataBounds(cfg, cursor);
      forall k :: 0 <= k < |b| - 1 ==> b[k + 1] <= b[k] + cfg.dataHeight
    ensures var b := DataBounds(cfg, cursor);
      forall k :: 0 <= k < |b| - 2 ==> b[k + 1] == b[k] + cfg.dataHeight
    decreases cfg.end - cursor
  {
    if cursor < cfg.end {
      var next := DataEnd(cfg, cursor);
      DataBoundsIncrease(cfg, next);
      WindowsCount(cfg, next);
      var b' := DataBounds(cfg, next);
      assert DataBounds(cfg, cursor) == [cursor] + b';
      IncreaseCons(cursor, b', cfg.dataHeight);
    }
  }

  /**
    Prepending a bound `lo` below increasing bounds whose steps are at most
    `step` (and exactly `step` but for the last) keeps them so, provided the
    new step is at most `step`, and exactly `step` when more follow.
   */
  lemma IncreaseCons(lo: nat, b: seq<nat>, step: nat)
    requires |b| >= 1 && lo < b[0] <= lo + step
    requires |b| >= 2 ==> b[0] == lo + step
    requires forall i, j :: 0 <= i < j < |b| ==> b[i] < b[j]
    requires forall k :: 0 <= k < |b| - 1 ==> b[k + 1] <= b[k] + step
    requires forall k :: 0 <= k < |b| - 2 ==> b[k + 1] == b[k] + step
    ensures var b2 := [lo] + b;
      forall i, j :: 0 <= i < j < |b2| ==> b2[i] < b2[j]
    ensures var b2 := [lo] + b;
      forall k :: 0 <= k < |b2| - 1 ==> b2[k + 1] <= b2[k] + step
    ensures var b2 := [lo] + b;
      forall k :: 0 <= k < |b2| - 2 ==> b2[k + 1] == b2[k] + step
  {
    var b2 := [lo] + b;
    forall i, j | 0 <= i < j < |b2| ensures b2[i] < b2[j] {
      if i == 0 {
        if j > 1 {
          assert b[0] < b[j - 1];
        }
      } else {
        assert b2[i] == b[i - 1] && b2[j] == b[j - 1];
      }
    }
    forall k | 0 <= k < |b2| - 1 ensures b2[k + 1] <= b2[k] + step {
      if k > 0 {
        assert b2[k] == b[k - 1] && b2[k + 1] == b[k];
      }
    }
    forall k | 0 <= k < |b2| - 2 ensures b2[k + 1] == b2[k] + step {
      if k > 0 {
        assert b2[k] == b[k - 1] && b2[k + 1] == b[k];
      }
    }
  }

  /**
    The window `cw` around the data rows `[lo, hi)`: it belongs to `cfg`,
    starts `padding` rows before them and ends `padding` rows after them,
    clipped to the raster's height.
   */
  predicate ShapedAround(cfg: ChunkConfig, cw: ChunkWindow, lo: nat, hi: nat)
  {
    && cw.cfg == cfg
    && cw.start + cfg.padding == lo
    && cw.start + cw.rows == Min(cfg.height, hi + cfg.padding)
  }

  /** The k-th window is shaped around the k-th run of data rows. */
  lemma {:induction false} WindowsShape(cfg: ChunkConfig, cursor: nat)
    requires Iterable(cfg) && cfg.padding <= cursor
    ensures var w, b := Windows(cfg, cursor), DataBounds(cfg, cursor);
      |b| == |w| + 1 &&
      forall k :: 0 <= k < |w| ==> ShapedAround(cfg, w[k], b[k], b[k + 1])
    decreases cfg.end - cursor
  {
    if cursor < cfg.end {
      var next := DataEnd(cfg, cursor);
      WindowsShape(cfg, next);
      WindowsCount(cfg, next);
      var w', b' := Windows(cfg, next), DataBounds(cfg, next);
      assert Windows(cfg, cursor) == [WindowAt(cfg, cursor)] + w';
      assert DataBounds(cfg, cursor) == [cursor] + b';
      ShapeCons(cfg, WindowAt(cfg, cursor), cursor, w', b');
    }
  }

  /** Prepending one well-shaped window to well-shaped windows keeps them well shaped. */
  lemma ShapeCons(cfg: ChunkConfig, x: ChunkWindow, lo: nat, w: seq<ChunkWindow>, b: seq<nat>)
    requires |b| == |w| + 1
    requires forall k :: 0 <= k < |w| ==> ShapedAround(cfg, w[k], b[k], b[k + 1])
    requires ShapedAround(cfg, x, lo, b[0])
    ensures var w2, b2 := [x] + w, [lo] + b;
      |b2| == |w2| + 1 &&
      forall k :: 0 <= k < |w2| ==> ShapedAround(cfg, w2[k], b2[k], b2[k + 1])
  {
    var w2, b2 := [x] + w, [lo] + b;
    forall k | 0 <= k < |w2|
      ensures ShapedAround(cfg, w2[k], b2[k], b2[k + 1])
    {
      if k > 0 {
        assert w2[k] == w[k - 1] && b2[k] == b[k - 1] && b2[k + 1] == b[k];
      }
    }
  }

  /**
    The window `cw` is not empty, lies inside the raster, contains the data
    rows `[lo, hi)` and adds exactly `padding` rows above them and at most
    `padding` rows below them.
   */
  predicate FitsAround(cfg: ChunkConfig, cw: ChunkWindow, lo: nat, hi: nat)
  {
    && 0 < cw.rows
    && cw.start + cw.rows <= cfg.height
    && cw.start <= lo < hi <= cw.start + cw.rows
    && lo - cw.start == cfg.padding
    && cw.start + cw.rows - hi <= cfg.padding
  }

  /** Every window of a configuration whose range starts at or after row `padding` fits around its data rows. */
  lemma WindowsWithinRaster(cfg: ChunkConfig)
    requires Iterable(cfg) && cfg.padding <= cfg.start
    ensures var w, b := Windows(cfg, cfg.start), DataBounds(cfg, cfg.start);
      |b| == |w| + 1 &&
      forall k :: 0 <= k < |w| ==> FitsAround(cfg, w[k], b[k], b[k + 1])
  {
    WindowsCount(cfg, cfg.start);
    WindowsShape(cfg, cfg.start);
    DataBoundsIncrease(cfg, cfg.start);
    WithinFromShape(cfg, Windows(cfg, cfg.start), DataBounds(cfg, cfg.start));
  }

  /** Shaped windows over increasing bounds that end at `end` fit around their data rows. */
  lemma WithinFromShape(cfg: ChunkConfig, w: seq<ChunkWindow>, b: seq<nat>)
    requires Iterable(cfg) && |b| == |w| + 1
    requires forall k :: 0 <= k < |w| ==> ShapedAround(cfg, w[k], b[k], b[k + 1])
    requires forall i, j :: 0 <= i < j < |b| ==> b[i] < b[j]
    requires b[|w|] == (if b[0] < cfg.end then cfg.end else b[0])
    ensures forall k :: 0 <= k < |w| ==> FitsAround(cfg, w[k], b[k], b[k + 1])
  {
    forall k | 0 <= k < |w|
      ensures FitsAround(cfg, w[k], b[k], b[k + 1])
    {
      assert b[0] <= b[k] < b[k + 1] <= b[|w|];
      assert ShapedAround(cfg, w[k], b[k], b[k + 1]);
    }
  }

  /**
    The data rows of the windows partition `[start, end)`: every row of the
    range belongs to the data rows of exactly one window.
   */
  lemma DataRowsPartition(cfg: ChunkConfig, row: nat)
    requires Iterable(cfg) && cfg.start <= row < cfg.end
    ensures var w, b := Windows(cfg, cfg.start), DataBounds(cfg, cfg.start);
      |b| == |w| + 1 &&
      (exists k :: 0 <= k < |w| && b[k] <= row < b[k + 1]) &&
      (forall k1, k2 :: 0 <= k1 < |w| && 0 <= k2 < |w| && b[k1] <= row < b[k1 + 1] && b[k2] <= row < b[k2 + 1] ==> k1 == k2)
  {
    WindowsCount(cfg, cfg.start);
    DataBoundsIncrease(cfg, cfg.start);
    var w, b := Windows(cfg, cfg.start), DataBounds(cfg, cfg.start);
    assert b[0] <= row < b[|b| - 1];
    Segment(b, row);
  }

  /** In a strictly increasing sequence, a value between the ends falls in some step. */
  lemma {:induction false} Segment(b: seq<nat>, row: nat)
    requires |b| >= 1 && b[0] <= row < b[|b| - 1]
    ensures exists k :: 0 <= k < |b| - 1 && b[k] <= row < b[k + 1]
  {
    if row < b[1] {
      assert b[0] <= row < b[1];
    } else {
      Segment(b[1..], row);
      var k :| 0 <= k < |b| - 2 && b[1..][k] <= row < b[1..][k + 1];
      assert b[k + 1] <= row < b[k + 2];
    }
  }
}
