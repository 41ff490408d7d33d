/**
  The chunker and its digests: the per-block manifest entries getFileBlocks
  builds by reading each block's range into a buffer and hashing it.
 */
module Chunker {
  import opened Outcomes
  import opened BlockLayout

  /** The two digest algorithms, left uninterpreted: any function from bytes
      to a hex string. */
  datatype Digests = Digests(sha1: seq<bv8> -> string, md5: seq<bv8> -> string)

  /** The file being uploaded: its base name, its bytes, and the offsets at
      which a read fails (stands for I/O errors of the disk). */
  datatype SourceFile = SourceFile(name: string, content: seq<bv8>, unreadable: set<nat>)

  /** One manifest entry: digests and size of one block. */
  datatype BlockInfo = BlockInfo(sha1: string, md5: string, size: nat)

  /** A read of `length` bytes at `offset` fills its buffer unless it starts
      at an unreadable offset; an empty read never touches the disk. */
  predicate ReadSucceeds(f: SourceFile, offset: nat, length: nat)
  {
    length == 0 || offset !in f.unreadable
  }

  /** The bytes of a range of the file. */
  function Bytes(f: SourceFile, r: Range): seq<bv8>
    requires r.End() <= |f.content|
  {
    f.content[r.offset..r.End()]
  }

  /** The manifest entry of a range: both digests taken over exactly its bytes. */
  function Describe(f: SourceFile, h: Digests, r: Range): BlockInfo
    requires r.End() <= |f.content|
  {
    var bytes := Bytes(f, r);
    BlockInfo(h.sha1(bytes), h.md5(bytes), r.length)
  }

  /** The manifest of a file whose every block could be read. */
  function ExpectedBlocks(f: SourceFile, h: Digests): (bs: seq<BlockInfo>)
    ensures |bs| == BlockCount(|f.content|)
  {
    var n := BlockCount(|f.content|);
    seq(n, k requires 0 <= k < n => Describe(f, h, BlockRange(|f.content|, k)))
  }

  predicate BlockReadable(f: SourceFile, k: nat)
    requires k < BlockCount(|f.content|)
  {
    var r := BlockRange(|f.content|, k);
    ReadSucceeds(f, r.offset, r.length)
  }

  predicate AllBlocksReadable(f: SourceFile)
  {
    forall k :: 0 <= k < BlockCount(|f.content|) ==> BlockReadable(f, k)
  }

  /** What getFileBlocks as written keeps of the first n blocks: the entries
      of the blocks whose read succeeded, the others dropped. */
  function KeptBlocks(f: SourceFile, h: Digests, n: nat): seq<BlockInfo>
    requires n <= BlockCount(|f.content|)
  {
    if n == 0 then []
    else
      KeptBlocks(f, h, n - 1) +
      (if BlockReadable(f, n - 1) then [Describe(f, h, BlockRange(|f.content|, n - 1))] else [])
  }

  /** Sum of the sizes of manifest entries. */
  function TotalSize(bs: seq<BlockInfo>): nat
  {
    if bs == [] then 0 else TotalSize(bs[..|bs| - 1]) + bs[|bs| - 1].size
  }

  /** Reads b.Length bytes at offset into the buffer (a seek then a read). */
  method ReadAt(f: SourceFile, offset: nat, b: array<bv8>) returns (ok: bool)
    requires offset + b.Length <= |f.content|
    modifies b
    ensures ok == ReadSucceeds(f, offset, b.Length)
    ensures ok ==> b[..] == f.content[offset..offset + b.Length]
    ensures !ok ==> b[..] == old(b[..])
  {
    ok := ReadSucceeds(f, offset, b.Length);
    if ok {
      forall j | 0 <= j < b.Length {
        b[j] := f.content[offset + j];
      }
    }
  }

  /** getFileBlocks as written: a failed read skips its block and the loop
      goes on. */
  method GetFileBlocks(f: SourceFile, h: Digests) returns (blocks: seq<BlockInfo>)
    ensures blocks == KeptBlocks(f, h, BlockCount(|f.content|))
  {
    var size := |f.content|;
    var num := BlockCount(size);
    var b := new bv8[ChunkSize];
    var i := 1;
    blocks := [];
    while i <= num
      invariant 1 <= i <= num + 1
      invariant fresh(b)
      invariant i <= num ==> b.Length == ChunkSize
      invariant blocks == KeptBlocks(f, h, i - 1)
    {
      var offset := (i - 1) * ChunkSize;
      var r := BlockRange(size, i - 1);
      if b.Length > size - offset {
        b := new bv8[size - offset];
      }
      assert b.Length == r.length;
      var ok := ReadAt(f, offset, b);
      if ok {
        blocks := blocks + [BlockInfo(h.sha1(b[..]), h.md5(b[..]), b.Length)];
      }
      i := i + 1;
    }
  }

  /** getFileBlocks with the read error propagated: the first failed read
      ends chunking with no manifest. */
  method GetFileBlocksStrict(f: SourceFile, h: Digests) returns (blocks: Option<seq<BlockInfo>>)
    ensures blocks == if AllBlocksReadable(f) then Some(ExpectedBlocks(f, h)) else None
  {
    var size := |f.content|;
    var num := BlockCount(size);
    var b := new bv8[ChunkSize];
    var i := 1;
    var done: seq<BlockInfo> := [];
    while i <= num
      invariant 1 <= i <= num + 1
      invariant fresh(b)
      invariant i <= num ==> b.Length == ChunkSize
      invariant forall k :: 0 <= k < i - 1 ==> BlockReadable(f, k)
      invariant done == ExpectedBlocks(f, h)[..i - 1]
    {
      var offset := (i - 1) * ChunkSize;
      var r := BlockRange(size, i - 1);
      if b.Length > size - offset {
        b := new bv8[size - offset];
      }
      assert b.Length == r.length;
      var ok := ReadAt(f, offset, b);
      if !ok {
        assert !BlockReadable(f, i - 1);
        return None;
      }
      done := done + [BlockInfo(h.sha1(b[..]), h.md5(b[..]), b.Length)];
      assert ExpectedBlocks(f, h)[..i] == ExpectedBlocks(f, h)[..i - 1] + [ExpectedBlocks(f, h)[i - 1]];
      i := i + 1;
    }
    assert ExpectedBlocks(f, h)[..num] == ExpectedBlocks(f, h);
    return Some(done);
  }

  /** Entry k of the manifest describes block k of the layout: the digests
      are taken over exactly that block's bytes. */
  lemma ExpectedBlockAt(f: SourceFile, h: Digests, k: nat)
    requires k < BlockCount(|f.content|)
    ensures var b := ExpectedBlocks(f, h)[k];
      var r := Layout(|f.content|)[k];
      && r.End() <= |f.content|
      && b.size == r.length
      && b.sha1 == h.sha1(f.content[r.offset..r.End()])
      && b.md5 == h.md5(f.content[r.offset..r.End()])
  {
  }

  /** Every entry holds between 1 and ChunkSize bytes, all but the last
      exactly ChunkSize, and the sizes add up to the file size. */
  lemma ExpectedBlocksSizes(f: SourceFile, h: Digests)
    ensures forall k :: 0 <= k < |ExpectedBlocks(f, h)| ==> 0 < ExpectedBlocks(f, h)[k].size <= ChunkSize
    ensures forall k :: 0 <= k < |ExpectedBlocks(f, h)| - 1 ==> ExpectedBlocks(f, h)[k].size == ChunkSize
    ensures TotalSize(ExpectedBlocks(f, h)) == |f.content|
  {
    var bs := ExpectedBlocks(f, h);
    var rs := Layout(|f.content|);
    SizesMatchLengths(f, h, |bs|);
    assert bs[..|bs|] == bs;
    assert rs[..|rs|] == rs;
    LayoutTotal(|f.content|);
  }

  lemma {:induction false} SizesMatchLengths(f: SourceFile, h: Digests, m: nat)
    requires m <= BlockCount(|f.content|)
    ensures TotalSize(ExpectedBlocks(f, h)[..m]) == TotalLength(Layout(|f.content|)[..m])
  {
    if m > 0 {
      SizesMatchLengths(f, h, m - 1);
      var bs := ExpectedBlocks(f, h);
      var rs := Layout(|f.content|);
      assert bs[..m][..m - 1] == bs[..m - 1];
      assert rs[..m][..m - 1] == rs[..m - 1];
      assert rs[..m][m - 1] == BlockRange(|f.content|, m - 1);
    }
  }

  /** The blocks' bytes, put back together in order, are the whole file. */
  function Reassemble(f: SourceFile, rs: seq<Range>): seq<bv8>
    requires forall k :: 0 <= k < |rs| ==> rs[k].End() <= |f.content|
  {
    if rs == [] then [] else Reassemble(f, rs[..|rs| - 1]) + Bytes(f, rs[|rs| - 1])
  }

  lemma {:induction false} ReassemblePrefix(f: SourceFile, m: nat)
    requires m <= BlockCount(|f.content|)
    ensures Reassemble(f, Layout(|f.content|)[..m]) ==
      f.content[..if m == 0 then 0 else Layout(|f.content|)[m - 1].End()]
  {
    var size := |f.content|;
    var rs := Layout(size);
    if m > 0 {
      ReassemblePrefix(f, m - 1);
      assert rs[..m][..m - 1] == rs[..m - 1];
      assert rs[m - 1] == BlockRange(size, m - 1);
      var start := if m == 1 then 0 else rs[m - 2].End();
      if m > 1 {
        assert rs[m - 2] == BlockRange(size, m - 2);
        assert (m - 1) * ChunkSize == (m - 2) * ChunkSize + ChunkSize;
      }
      assert start == rs[m - 1].offset;
      assert f.content[..start] + f.content[start..rs[m - 1].End()] == f.content[..rs[m - 1].End()];
    }
  }

  /** The layout partitions the file: concatenating the blocks' bytes gives
      back the content. */
  lemma LayoutPartitionsContent(f: SourceFile)
    ensures Reassemble(f, Layout(|f.content|)) == f.content
  {
    var rs := Layout(|f.content|);
    ReassemblePrefix(f, |rs|);
    assert rs[..|rs|] == rs;
    LayoutContiguous(|f.content|);
  }

  /** The single-block shortcut of UploadFile (whole-file digests, size
      equal to the file size) is what the layout gives for a file of at most
      ChunkSize bytes. */
  lemma SingleBlockAgrees(f: SourceFile, h: Digests)
    requires 0 < |f.content| <= ChunkSize
    ensures ExpectedBlocks(f, h) == [BlockInfo(h.sha1(f.content), h.md5(f.content), |f.content|)]
  {
    assert BlockRange(|f.content|, 0) == Range(0, |f.content|);
    assert Bytes(f, Range(0, |f.content|)) == f.content;
  }

  /** When every read succeeds, getFileBlocks as written keeps every block. */
  lemma {:induction false} KeptAllWhenReadable(f: SourceFile, h: Digests, n: nat)
    requires n <= BlockCount(|f.content|)
    requires AllBlocksReadable(f)
    ensures KeptBlocks(f, h, n) == ExpectedBlocks(f, h)[..n]
  {
    if n > 0 {
      KeptAllWhenReadable(f, h, n - 1);
      assert ExpectedBlocks(f, h)[..n] == ExpectedBlocks(f, h)[..n - 1] + [ExpectedBlocks(f, h)[n - 1]];
    }
  }

  lemma {:induction false} KeptTotalBound(f: SourceFile, h: Digests, n: nat)
    requires n <= BlockCount(|f.content|)
    ensures TotalSize(KeptBlocks(f, h, n)) <= TotalLength(Layout(|f.content|)[..n])
    ensures |KeptBlocks(f, h, n)| <= n
  {
    if n > 0 {
      KeptTotalBound(f, h, n - 1);
      KeptStep(f, h, n);
    }
  }

  /** Every entry getFileBlocks as written emits holds 1 to ChunkSize bytes,
      whatever reads fail. */
  lemma {:induction false} KeptBlockSizes(f: SourceFile, h: Digests, n: nat)
    requires n <= BlockCount(|f.content|)
    ensures forall i :: 0 <= i < |KeptBlocks(f, h, n)| ==> 0 < KeptBlocks(f, h, n)[i].size <= ChunkSize
  {
    if n > 0 {
      KeptBlockSizes(f, h, n - 1);
    }
  }

  /** One more block adds its length to the layout's total, and adds it to
      the kept total exactly when its read succeeds. */
  lemma KeptStep(f: SourceFile, h: Digests, n: nat)
    requires 0 < n <= BlockCount(|f.content|)
    ensures var r := BlockRange(|f.content|, n - 1);
      && TotalLength(Layout(|f.content|)[..n]) == TotalLength(Layout(|f.content|)[..n - 1]) + r.length
      && TotalSize(KeptBlocks(f, h, n)) ==
           TotalSize(KeptBlocks(f, h, n - 1)) + (if BlockReadable(f, n - 1) then r.length else 0)
      && |KeptBlocks(f, h, n)| == |KeptBlocks(f, h, n - 1)| + (if BlockReadable(f, n - 1) then 1 else 0)
  {
    var rs := Layout(|f.content|);
    var r := BlockRange(|f.content|, n - 1);
    assert rs[..n][..n - 1] == rs[..n - 1];
    assert rs[..n][n - 1] == r;
    assert TotalLength(rs[..n]) == TotalLength(rs[..n - 1]) + r.length;
    var prev := KeptBlocks(f, h, n - 1);
    var cur := KeptBlocks(f, h, n);
    if BlockReadable(f, n - 1) {
      assert cur == prev + [Describe(f, h, r)];
      assert cur[..|cur| - 1] == prev;
      assert TotalSize(cur) == TotalSize(prev) + r.length;
    } else {
      assert cur == prev;
    }
  }

  /** An unreadable block among the first n makes the kept total fall short. */
  lemma {:induction false} KeptTotalShort(f: SourceFile, h: Digests, n: nat, k: nat)
    requires k < n <= BlockCount(|f.content|)
    requires !BlockReadable(f, k)
    ensures TotalSize(KeptBlocks(f, h, n)) < TotalLength(Layout(|f.content|)[..n])
    ensures |KeptBlocks(f, h, n)| < n
  {
    KeptStep(f, h, n);
    if k == n - 1 {
      KeptTotalBound(f, h, n - 1);
    } else {
      KeptTotalShort(f, h, n - 1, k);
    }
  }

  /** The defect of getFileBlocks as written: once any block's read fails,
      the manifest it returns has fewer entries than the file has blocks and
      its sizes no longer add up to the file size. */
  lemma SkippedReadLosesBytes(f: SourceFile, h: Digests)
    requires !AllBlocksReadable(f)
    ensures |KeptBlocks(f, h, BlockCount(|f.content|))| < BlockCount(|f.content|)
    ensures TotalSize(KeptBlocks(f, h, BlockCount(|f.content|))) < |f.content|
  {
    var n := BlockCount(|f.content|);
    var k :| 0 <= k < n && !BlockReadable(f, k);
    KeptTotalShort(f, h, n, k);
    LayoutTotal(|f.content|);
    assert Layout(|f.content|)[..n] == Layout(|f.content|);
  }

  /** The strict chunker's manifest, when there is one, has the block count
      ceil(size / ChunkSize) and sizes adding up to the file size. */
  lemma StrictManifestComplete(f: SourceFile, h: Digests)
    requires AllBlocksReadable(f)
    ensures |ExpectedBlocks(f, h)| == BlockCount(|f.content|)
    ensures TotalSize(ExpectedBlocks(f, h)) == |f.content|
    ensures KeptBlocks(f, h, BlockCount(|f.content|)) == ExpectedBlocks(f, h)
  {
    ExpectedBlocksSizes(f, h);
    KeptAllWhenReadable(f, h, BlockCount(|f.content|));
    assert ExpectedBlocks(f, h)[..BlockCount(|f.content|)] == ExpectedBlocks(f, h);
  }
}
