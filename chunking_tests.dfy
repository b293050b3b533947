/**
  The reference scenario of the chunking module: a 32 x 20 raster with block
  size 2, padding 7 and the range ending at row 10.
 */
module ChunkingTests {
  import opened Chunking
  import opened Builder

  /** The (window start, window rows) pairs of a sequence of windows. */
  function StartsAndRows(windows: seq<ChunkWindow>): (pairs: seq<(nat, nat)>)
    ensures |pairs| == |windows|
    ensures forall k :: 0 <= k < |windows| ==> pairs[k] == (windows[k].start, windows[k].rows)
  {
    if windows == [] then []
    else [(windows[0].start, windows[0].rows)] + StartsAndRows(windows[1..])
  }

  /**
    Block size 2 turns the data height 1 into 2, padding 7 moves `start` to
    7, and `end` is 10: the data rows 7..9 and 9..10 give the windows
    (0, 16) and (2, 15).
   */
  method TestSimple() returns (pairs: seq<(nat, nat)>)
    ensures pairs == [(0, 16), (2, 15)]
  {
    var builder := new ChunkConfigBuilder(32, 20);
    builder.AddBlockSize(2);
    builder.WithPadding(7);
    builder.WithEnd(10);
    var cfg := builder.Build();
    assert cfg == ChunkConfig(32, 20, 2, 2, 7, 7, 10);
    var windows := Chunks(cfg);
    assert windows == [ChunkWindow(cfg, 0, 16), ChunkWindow(cfg, 2, 15)];
    pairs := StartsAndRows(windows);
  }
}
