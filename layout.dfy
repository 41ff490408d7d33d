/**
  Block layout arithmetic of the chunked upload: how a file of a given size is
  cut into fixed-size blocks, as computed once while hashing (getFileBlocks)
  and once more while transferring (uploadBlock).
 */
module BlockLayout {
  import opened Outcomes

  /** Bytes per block (4 MiB). */
  const ChunkSize: nat := 4194304

  /** Files of this many bytes or more are refused (4 GiB). */
  const SizeCeiling: nat := 4 * 1024 * 1024 * 1024

  /** The size check UploadFile does before any hashing: empty files and
      files of 4 GiB or more are refused. */
  predicate SizeAccepted(size: nat)
  {
    !(size == 0 || size >= SizeCeiling)
  }

  /** Number of blocks of a file: the ceiling of size / ChunkSize. */
  function BlockCount(size: nat): (n: nat)
    ensures size <= n * ChunkSize
    ensures n == 0 || (n - 1) * ChunkSize < size
    ensures n == 0 <==> size == 0
  {
    (size + ChunkSize - 1) / ChunkSize
  }

  /** A contiguous byte range of the file. */
  datatype Range = Range(offset: nat, length: nat)
  {
    function End(): nat { offset + length }
  }

  /** The range of 0-based block k as getFileBlocks reads it: it starts at
      k * ChunkSize and is ChunkSize long unless the tail is shorter. */
  function BlockRange(size: nat, k: nat): (r: Range)
    requires k < BlockCount(size)
    ensures 0 < r.length <= ChunkSize
    ensures r.End() <= size
    ensures k + 1 < BlockCount(size) ==> r.length == ChunkSize
    ensures k + 1 == BlockCount(size) ==> r.End() == size
  {
    var offset := k * ChunkSize;
    Range(offset, if size - offset < ChunkSize then size - offset else ChunkSize)
  }

  /** The whole block layout of a file of the given size. */
  function Layout(size: nat): (rs: seq<Range>)
    ensures |rs| == BlockCount(size)
  {
    seq(BlockCount(size), k requires 0 <= k < BlockCount(size) => BlockRange(size, k))
  }

  /** The range uploadBlock computes for 0-based block k, independently of
      the layout: offset k * ChunkSize, ChunkSize bytes cut down to what is
      left of the file. None where the length would be negative (the Go code
      would panic allocating the buffer). */
  function TransferRange(size: nat, k: nat): (r: Option<Range>)
    ensures r.Some? ==> r.value.End() <= size
  {
    var offset := k * ChunkSize;
    var chunkSize: int := if ChunkSize > size - offset then size - offset else ChunkSize;
    if chunkSize < 0 then None else Some(Range(offset, chunkSize))
  }

  /** Sum of the lengths of a sequence of ranges. */
  function TotalLength(rs: seq<Range>): nat
  {
    if rs == [] then 0 else TotalLength(rs[..|rs| - 1]) + rs[|rs| - 1].length
  }

  /** The two computations of a block range agree on every block of the
      layout; past the layout uploadBlock sends an empty block exactly when
      the block starts at the end of the file, and otherwise has no range. */
  lemma TransferRangeAgrees(size: nat, k: nat)
    ensures k < BlockCount(size) ==> TransferRange(size, k) == Some(BlockRange(size, k))
    ensures k >= BlockCount(size) ==>
      TransferRange(size, k) == if k * ChunkSize == size then Some(Range(size, 0)) else None
  {
  }

  /** The blocks are contiguous: the first starts at 0, each starts where
      the previous one ends, and the last ends at the file size. */
  lemma LayoutContiguous(size: nat)
    ensures |Layout(size)| > 0 ==> Layout(size)[0].offset == 0
    ensures forall k :: 0 <= k < |Layout(size)| - 1 ==> Layout(size)[k].End() == Layout(size)[k + 1].offset
    ensures |Layout(size)| > 0 ==> Layout(size)[|Layout(size)| - 1].End() == size
  {
  }

  /** No two blocks overlap: an earlier block ends no later than a later
      one starts. */
  lemma LayoutDisjoint(size: nat, i: nat, j: nat)
    requires i < j < BlockCount(size)
    ensures Layout(size)[i].End() <= Layout(size)[j].offset
  {
  }

  /** The lengths of the first m blocks add up to m full chunks, and those of
      all the blocks to the file size. */
  lemma {:induction false} LayoutPrefixTotal(size: nat, m: nat)
    requires m <= BlockCount(size)
    ensures m < BlockCount(size) ==> TotalLength(Layout(size)[..m]) == m * ChunkSize
    ensures m == BlockCount(size) ==> TotalLength(Layout(size)[..m]) == size
  {
    var rs := Layout(size);
    if m > 0 {
      LayoutPrefixTotal(size, m - 1);
      assert rs[..m][..m - 1] == rs[..m - 1];
      assert rs[..m][m - 1] == BlockRange(size, m - 1);
      assert (m - 1) * ChunkSize + ChunkSize == m * ChunkSize;
    }
  }

  /** The block lengths sum to the file size. */
  lemma LayoutTotal(size: nat)
    ensures TotalLength(Layout(size)) == size
  {
    LayoutPrefixTotal(size, BlockCount(size));
    assert Layout(size)[..BlockCount(size)] == Layout(size);
  }

  /** The boundary cases of the size check and of the block count. */
  lemma Boundaries()
    ensures !SizeAccepted(0) && !SizeAccepted(SizeCeiling) && SizeAccepted(SizeCeiling - 1)
    ensures BlockCount(ChunkSize) == 1 && BlockCount(ChunkSize + 1) == 2
  {
  }

  /** A 10 MiB file is cut into blocks of 4 MiB, 4 MiB and 2 MiB. */
  lemma TenMiBLayout()
    ensures Layout(10 * 1024 * 1024) ==
      [Range(0, ChunkSize), Range(ChunkSize, ChunkSize), Range(2 * ChunkSize, 2 * 1024 * 1024)]
  {
  }
}
