/**
  The chunk configuration builder. It wraps one configuration and folds
  constraints into it: block sizes by least common multiple, a data height
  (rounded up to the block size), a data size in pixels, padding, start and
  end. Every operation overwrites fields in place and keeps the
  configuration `Valid`.
 */
module Builder {
  import opened Integer
  import opened Chunking

  /**
    Rows needed to hold `dataSize` pixels in rows of `width` pixels, computed
    as `(dataSize + width - 1) / width`: the ceiling of `dataSize / width`,
    and at least one row for a positive size.
   */
  function RowsForDataSize(dataSize: nat, width: nat): (rows: nat)
    requires dataSize > 0 && width > 0
    ensures rows >= 1
    ensures dataSize <= rows * width < dataSize + width
  {
    var n := dataSize + width - 1;
    assert n == width * (n / width) + n % width;
    (dataSize + width - 1) / width
  }

  class ChunkConfigBuilder {
    var width: nat
    var height: nat
    var blockSize: nat
    var dataHeight: nat
    var padding: nat
    var start: nat
    var end: nat

    /** The configuration being built. */
    function Config(): ChunkConfig
      reads this
    {
      ChunkConfig(width, height, blockSize, dataHeight, padding, start, end)
    }

    /** A builder for a `width` x `height` raster, processing every row one row at a time. */
    constructor (width: nat, height: nat)
      requires width > 0 && height > 0
      ensures Config() == ChunkConfig(width, height, 1, 1, 0, 0, height)
      ensures Valid(Config())
    {
      this.width := width;
      this.height := height;
      blockSize := 1;
      dataHeight := 1;
      padding := 0;
      start := 0;
      end := height;
    }

    /**
      Accumulates a block size: the stored one becomes the least common
      multiple of both, and the data height is rounded up to it. Adding the
      current block size again changes nothing.
     */
    method AddBlockSize(b: nat)
      requires Valid(Config()) && b > 0
      modifies this
      ensures Valid(Config())
      ensures blockSize == Lcm(old(blockSize), b)
      ensures old(dataHeight) <= dataHeight
      ensures b == old(blockSize) ==> Config() == old(Config())
      ensures Config() == old(Config()).(
        blockSize := Lcm(old(blockSize), b),
        dataHeight := NextMultiple(old(dataHeight), Lcm(old(blockSize), b)))
    {
      if blockSize != b {
        blockSize := Lcm(blockSize, b);
        AdjustDataHeight();
      } else {
        LcmSame(b);
        NextMultipleOfMultiple(dataHeight / b, b);
        assert dataHeight == dataHeight / b * b;
      }
    }

    /**
      Sets the data height to the smallest multiple of the block size at or
      above `h`.
     */
    method WithDataHeight(h: nat)
      requires Valid(Config()) && h > 0
      modifies this
      ensures Valid(Config())
      ensures h <= dataHeight < h + blockSize
      ensures Config() == old(Config()).(dataHeight := NextMultiple(h, blockSize))
    {
      dataHeight := h;
      AdjustDataHeight();
    }

    /** Rounds the data height up to a multiple of the block size. */
    method AdjustDataHeight()
      requires blockSize > 0
      modifies this
      ensures Config() == old(Config()).(dataHeight := NextMultiple(old(dataHeight), old(blockSize)))
    {
      dataHeight := NextMultiple(dataHeight, blockSize);
    }

    /**
      Sets the data height from a number of pixels per chunk: exactly like
      `WithDataHeight` given the number of full-width rows those pixels need.
     */
    method WithDataSize(dataSize: nat)
      requires Valid(Config()) && dataSize > 0
      modifies this
      ensures Valid(Config())
      ensures Config() == old(Config()).(dataHeight := NextMultiple(RowsForDataSize(dataSize, width), blockSize))
    {
      var rows := RowsForDataSize(dataSize, width);
      WithDataHeight(rows);
    }

    /** Sets the padding and raises `start` to at least the padding. */
    method WithPadding(p: nat)
      requires Valid(Config())
      modifies this
      ensures Valid(Config())
      ensures Config() == old(Config()).(padding := p, start := Max(old(start), p))
    {
      padding := p;
      AdjustStart();
    }

    /** Sets `start`, raised to at least the padding. */
    method WithStart(s: nat)
      requires Valid(Config())
      modifies this
      ensures Valid(Config())
      ensures Config() == old(Config()).(start := Max(s, padding))
    {
      start := s;
      AdjustStart();
    }

    /** Raises `start` to at least the padding. */
    method AdjustStart()
      modifies this
      ensures Config() == old(Config()).(start := Max(old(start), padding))
      ensures padding <= start
    {
      start := Max(start, padding);
    }

    /** Sets `end`, clipped to the height of the raster. */
    method WithEnd(e: nat)
      requires Valid(Config())
      modifies this
      ensures Valid(Config())
      ensures Config() == old(Config()).(end := Min(e, height))
    {
      end := Min(e, height);
    }

    /** The configuration as built; it is valid. */
    method Build() returns (cfg: ChunkConfig)
      requires Valid(Config())
      ensures cfg == Config() && Valid(cfg)
    {
      cfg := Config();
    }
  }

  /**
    A fresh builder that accumulates the block sizes `bs` one after the
    other builds a configuration whose block size is their least common
    multiple, with the data height rounded up to it.
   */
  method BuildWithBlockSizes(width: nat, height: nat, bs: seq<nat>) returns (cfg: ChunkConfig)
    requires width > 0 && height > 0
    requires forall i :: 0 <= i < |bs| ==> bs[i] > 0
    ensures Valid(cfg)
    ensures cfg.blockSize == LcmOf(bs)
    ensures cfg.dataHeight == LcmOf(bs)
    ensures cfg == ChunkConfig(width, height, LcmOf(bs), LcmOf(bs), 0, 0, height)
  {
    var builder := new ChunkConfigBuilder(width, height);
    var i := 0;
    while i < |bs|
      invariant 0 <= i <= |bs|
      invariant Valid(builder.Config())
      invariant builder.Config() == ChunkConfig(width, height, LcmOf(bs[..i]), LcmOf(bs[..i]), 0, 0, height)
    {
      ghost var before := builder.blockSize;
      builder.AddBlockSize(bs[i]);
      assert builder.blockSize == Lcm(before, bs[i]);
      assert bs[..i + 1][..i] == bs[..i];
      assert builder.blockSize == LcmOf(bs[..i + 1]);
      MultipleAtLeast(Lcm(before, bs[i]), before);
      NextMultipleUpTo(before, Lcm(before, bs[i]));
      i := i + 1;
    }
    assert bs[..i] == bs;
    cfg := builder.Build();
  }
}
