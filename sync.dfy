/** The block synchroniser: the scan loop of read-compare-copy.c (56-102) over a
    read-only source and a destination updated in place, both of one length. */
module Sync {
  import opened Blocks
  import opened Runs
  import opened Events
  import opened Scan

  newtype byte = x: int | 0 <= x < 256

  /** Block i differs between source and destination, compared over its own
      bytes only (the corrected comparison: the source compares a full
      BLOCK_SIZE window, see SameAsWritten). */
  function BlockDiffers(src: seq<byte>, dst: seq<byte>, bs: nat, i: nat): bool
    requires bs > 0 && |src| == |dst| && i < BlockCount(|src|, bs)
  {
    var off, end := BlockOffset(bs, i), BlockEnd(|src|, bs, i);
    src[off..end] != dst[off..end]
  }

  /** A block differs iff some byte inside it differs; bytes outside the block
      do not matter. */
  lemma BlockDiffersIff(src: seq<byte>, dst: seq<byte>, bs: nat, i: nat)
    requires bs > 0 && |src| == |dst| && i < BlockCount(|src|, bs)
    ensures BlockDiffers(src, dst, bs, i) <==>
      exists k :: BlockOffset(bs, i) <= k < BlockEnd(|src|, bs, i) && src[k] != dst[k]
  {
    var off, end := BlockOffset(bs, i), BlockEnd(|src|, bs, i);
    if BlockDiffers(src, dst, bs, i) {
      var m :| 0 <= m < end - off && src[off..end][m] != dst[off..end][m];
      assert src[off + m] != dst[off + m];
    }
  }

  /** The flags of blocks 0 .. n-1: does each differ? */
  function FlagsUpTo(src: seq<byte>, dst: seq<byte>, bs: nat, n: nat): (flags: seq<bool>)
    requires bs > 0 && |src| == |dst| && n <= BlockCount(|src|, bs)
    ensures |flags| == n
  {
    if n == 0 then [] else FlagsUpTo(src, dst, bs, n - 1) + [BlockDiffers(src, dst, bs, n - 1)]
  }

  /** One flag per block of the file. */
  function Flags(src: seq<byte>, dst: seq<byte>, bs: nat): (flags: seq<bool>)
    requires bs > 0 && |src| == |dst|
    ensures |flags| == BlockCount(|src|, bs)
  {
    FlagsUpTo(src, dst, bs, BlockCount(|src|, bs))
  }

  /** Flag i says whether block i differs. */
  lemma {:induction false} FlagsAt(src: seq<byte>, dst: seq<byte>, bs: nat, n: nat, i: nat)
    requires bs > 0 && |src| == |dst| && i < n <= BlockCount(|src|, bs)
    ensures FlagsUpTo(src, dst, bs, n)[i] == BlockDiffers(src, dst, bs, i)
  {
    if i < n - 1 {
      FlagsAt(src, dst, bs, n - 1, i);
    }
  }

  /** What one run reports: block_count, blocks_written and the skip/write
      events in the order printed. */
  datatype ScanResult = ScanResult(blockCount: nat, blocksWritten: nat, reports: seq<Report>)

  /** The equal-size precondition (read-compare-copy.c:54), as an error. */
  datatype SyncError = SizeMismatch(srcSize: nat, dstSize: nat)

  datatype Outcome = Done(result: ScanResult) | Failed(error: SyncError)

  /** The result a scan of these contents must have: the block count, the
      number of differing blocks, and the reports of the maximal-run
      decomposition of the per-block flags. */
  function ScanOf(src: seq<byte>, dst: seq<byte>, bs: nat): ScanResult
    requires bs > 0 && |src| == |dst|
  {
    var flags := Flags(src, dst, bs);
    ScanResult(|flags|, CountTrue(flags), Reports(Segments(flags, 0), |src|, bs))
  }

  /** pwrite of a buffer at an offset (read-compare-copy.c:82): the buffer's
      bytes land at [offset, offset + |buf|) and nothing else changes. */
  method PWrite(dst: array<byte>, offset: nat, buf: seq<byte>)
    requires offset + |buf| <= dst.Length
    modifies dst
    ensures dst[..] == old(dst[..])[..offset] + buf + old(dst[..])[offset + |buf|..]
  {
    ghost var before := dst[..];
    forall k | offset <= k < offset + |buf| {
      dst[k] := buf[k - offset];
    }
    assert dst[..] == before[..offset] + buf + before[offset + |buf|..];
  }

  /** The destination after the bytes before m have been brought in line with
      the source. */
  ghost function Synced(s0: seq<byte>, d0: seq<byte>, m: nat): (r: seq<byte>)
    requires |s0| == |d0|
    ensures |r| == |s0|
  {
    if m >= |s0| then s0 else s0[..m] + d0[m..]
  }

  /** Copying the source's bytes [m, m + count) brings the destination in line
      up to m + count. */
  lemma SyncedWrite(s0: seq<byte>, d0: seq<byte>, m: nat, count: nat)
    requires |s0| == |d0| && m + count <= |s0|
    ensures Synced(s0, d0, m)[..m] + s0[m..m + count] + Synced(s0, d0, m)[m + count..]
      == Synced(s0, d0, m + count)
  {
    var before := Synced(s0, d0, m);
    var after := before[..m] + s0[m..m + count] + before[m + count..];
    assert forall k | 0 <= k < |s0| :: after[k] == Synced(s0, d0, m + count)[k];
  }

  /** In line up to the end of block i is in line up to the start of block
      i + 1 (or the whole file, after the last block). */
  lemma SyncedNextBlock(s0: seq<byte>, d0: seq<byte>, bs: nat, i: nat)
    requires bs > 0 && |s0| == |d0| && i < BlockCount(|s0|, bs)
    ensures Synced(s0, d0, BlockOffset(bs, i) + BlockLength(|s0|, bs, i)) == Synced(s0, d0, BlockOffset(bs, i + 1))
  {
    BlocksAbut(|s0|, bs, i, i);
  }

  /** Bringing block i in line changes no byte outside block i, and leaves the
      source's bytes inside it (read-compare-copy.c:82). */
  lemma SyncedBlockStep(s0: seq<byte>, d0: seq<byte>, bs: nat, i: nat)
    requires bs > 0 && |s0| == |d0| && i < BlockCount(|s0|, bs)
    ensures forall k | 0 <= k < |s0| && !(BlockOffset(bs, i) <= k < BlockEnd(|s0|, bs, i)) ::
      Synced(s0, d0, BlockOffset(bs, i + 1))[k] == Synced(s0, d0, BlockOffset(bs, i))[k]
    ensures forall k | BlockOffset(bs, i) <= k < BlockEnd(|s0|, bs, i) ::
      Synced(s0, d0, BlockOffset(bs, i + 1))[k] == s0[k]
  {
    SyncedNextBlock(s0, d0, bs, i);
  }

  /** The bytes from m on are still the destination's own. */
  lemma SyncedUntouched(s0: seq<byte>, d0: seq<byte>, m: nat, count: nat)
    requires |s0| == |d0| && m + count <= |s0|
    ensures Synced(s0, d0, m)[m..m + count] == d0[m..m + count]
  {
  }

  /** Bytes [m, m + count) that already agree need no copy. */
  lemma SyncedSame(s0: seq<byte>, d0: seq<byte>, m: nat, count: nat)
    requires |s0| == |d0| && m + count <= |s0|
    requires s0[m..m + count] == d0[m..m + count]
    ensures Synced(s0, d0, m) == Synced(s0, d0, m + count)
  {
    forall k | m <= k < m + count ensures s0[k] == d0[k] {
      assert s0[m..m + count][k - m] == d0[m..m + count][k - m];
    }
    assert forall k | 0 <= k < |s0| :: Synced(s0, d0, m)[k] == Synced(s0, d0, m + count)[k];
  }

  /** The file operations of one iteration of the scan loop for block
      blockIndex: read the block from both files (read-compare-copy.c:67-75),
      compare its bytes (:73) and, when they differ, write the source's block
      into dst (:82). Afterwards dst is in line with src up to the end of the
      block. A dst that is src itself is never written. */
  method SyncBlock(src: array<byte>, dst: array<byte>, bs: nat, blockIndex: nat,
                   ghost s0: seq<byte>, ghost d0: seq<byte>)
    returns (differs: bool)
    requires bs > 0 && src.Length == dst.Length == |s0| == |d0|
    requires blockIndex < BlockCount(src.Length, bs)
    requires src[..] == s0 && dst[..] == Synced(s0, d0, BlockOffset(bs, blockIndex))
    modifies dst
    ensures differs == BlockDiffers(s0, d0, bs, blockIndex)
    ensures src[..] == s0 && dst[..] == Synced(s0, d0, BlockOffset(bs, blockIndex + 1))
    ensures forall k | 0 <= k < dst.Length &&
      !(BlockOffset(bs, blockIndex) <= k < BlockEnd(src.Length, bs, blockIndex)) :: dst[k] == old(dst[k])
  {
    var size := src.Length;
    // the zero-remainder case gets a full block, not 0 (see BlockLengthAsWritten)
    var count := BlockLength(size, bs, blockIndex);
    var offset := BlockOffset(bs, blockIndex);
    BlocksAbut(size, bs, blockIndex, blockIndex);
    var bufSrc := src[offset..offset + count];
    var bufDst := dst[offset..offset + count];
    SyncedUntouched(s0, d0, offset, count);
    // only count bytes are compared (see SameAsWritten)
    differs := bufSrc != bufDst;
    if differs {
      // a destination that is the source itself never reaches this write
      assert src != dst;
      SyncedWrite(s0, d0, offset, count);
      PWrite(dst, offset, bufSrc);
      assert dst[..] == Synced(s0, d0, offset + count);
    } else {
      SyncedSame(s0, d0, offset, count);
    }
    SyncedBlockStep(s0, d0, bs, blockIndex);
  }

  /** The bookkeeping of one iteration of the scan loop for block blockIndex,
      once the block is known to differ or not: a differing block closes the
      open skip run and reports it (read-compare-copy.c:77-80), then is
      reported as written and counted (:81-84); an identical block opens the
      skip run or extends it (:86-91); at the last block a still-open run is
      reported up to the end of the file (:94-99). */
  method RecordBlock(skip: SkipState, reports: seq<Report>, blocksWritten: nat, differs: bool,
                     blockIndex: nat, blockCount: nat, size: nat, bs: nat)
    returns (skip': SkipState, reports': seq<Report>, blocksWritten': nat)
    requires bs > 0 && blockCount == BlockCount(size, bs) && blockIndex < blockCount
    ensures ScanState(skip', reports', blocksWritten')
      == Step(ScanState(skip, reports, blocksWritten), differs, blockIndex, size, bs)
  {
    var count := BlockLength(size, bs, blockIndex);
    var offset := BlockOffset(bs, blockIndex);
    skip', reports', blocksWritten' := skip, reports, blocksWritten;
    if differs {
      if skip'.SkipRun? {
        reports' := reports' + [Skip(BlockOffset(bs, skip'.first), BlockOffset(bs, skip'.last + 1) - 1)];
        skip' := NoRun;
      }
      reports' := reports' + [Write(offset, offset + count - 1)];
      blocksWritten' := blocksWritten' + 1;
    } else {
      if skip'.NoRun? {
        skip' := SkipRun(blockIndex, blockIndex);
      } else {
        skip' := skip'.(last := skip'.last + 1);
      }
    }
    if blockIndex == blockCount - 1 {
      if skip'.SkipRun? {
        reports' := reports' + [Skip(BlockOffset(bs, skip'.first), offset + count - 1)];
        skip' := NoRun;
      }
    }
  }

  /** The scan loop (read-compare-copy.c:56-102). Every differing block is
      copied from src to dst and reported as written; identical blocks are
      gathered into the open skip run, which is reported when a differing
      block or the last block is reached. Afterwards dst equals src, and the
      counts and reports are those of the maximal-run decomposition. */
  method Synchronize(src: array<byte>, dst: array<byte>, bs: nat) returns (out: Outcome)
    requires bs > 0
    modifies dst
    ensures src[..] == old(src[..])
    ensures src.Length != dst.Length ==>
      out == Failed(SizeMismatch(src.Length, dst.Length)) && dst[..] == old(dst[..])
    ensures src.Length == dst.Length ==>
      out == Done(ScanOf(old(src[..]), old(dst[..]), bs)) && dst[..] == old(src[..])
  {
    if src.Length != dst.Length {
      return Failed(SizeMismatch(src.Length, dst.Length));
    }
    var size := src.Length;
    ghost var s0, d0 := src[..], dst[..];
    ghost var flags := Flags(s0, d0, bs);
    var blockCount := ComputeBlockCount(size, bs);
    var blocksWritten := 0;
    var skip := NoRun;
    var reports: seq<Report> := [];
    for blockIndex := 0 to blockCount
      invariant src[..] == s0
      invariant dst[..] == Synced(s0, d0, BlockOffset(bs, blockIndex))
      invariant ScanState(skip, reports, blocksWritten) == ScanPrefix(flags, size, bs, blockIndex)
    {
      FlagsAt(s0, d0, bs, blockCount, blockIndex);
      var differs := SyncBlock(src, dst, bs, blockIndex, s0, d0);
      skip, reports, blocksWritten := RecordBlock(skip, reports, blocksWritten, differs, blockIndex, blockCount, size, bs);
      ScanPrefixNext(flags, size, bs, blockIndex);
    }
    BlocksEnd(size, bs);
    ScanComplete(flags, size, bs);
    out := Done(ScanResult(blockCount, blocksWritten, reports));
  }

  /** percent_saved (read-compare-copy.c:107-109) in exact arithmetic: the share
      of blocks not written, in percent, and 0 when every block is written,
      an empty file included. */
  function PercentSaved(written: nat, count: nat): (p: real)
    requires written <= count
    ensures 0.0 <= p <= 100.0
    ensures written == count ==> p == 0.0
    ensures written < count ==> p * count as real == 100.0 * (count - written) as real
  {
    if written == count then 0.0 else 100.0 - written as real * 100.0 / count as real
  }

  /** pread of count bytes at offset into a buffer of BLOCK_SIZE bytes
      (read-compare-copy.c:68-69): the first count bytes are the file's, the
      rest keep whatever the buffer held before. */
  function ReadInto(buf: seq<byte>, file: seq<byte>, offset: nat, count: nat): (r: seq<byte>)
    requires count <= |buf| && offset + count <= |file|
    ensures |r| == |buf|
    ensures forall k | 0 <= k < count :: r[k] == file[offset + k]
    ensures forall k | count <= k < |buf| :: r[k] == buf[k]
  {
    file[offset..offset + count] + buf[count..]
  }

  /** The comparison as written (read-compare-copy.c:73): memcmp over the
      whole BLOCK_SIZE of both buffers, whatever count was read. */
  predicate SameAsWritten(bufSrc: seq<byte>, bufDst: seq<byte>)
  {
    bufSrc == bufDst
  }

  /** The full-width compare never misses a differing block: when the block's
      own bytes differ, so do the buffers it was read into. It can only call
      an identical short block different. */
  lemma SameAsWrittenSound(bufSrc: seq<byte>, bufDst: seq<byte>, src: seq<byte>, dst: seq<byte>, bs: nat, i: nat)
    requires bs > 0 && |src| == |dst| && i < BlockCount(|src|, bs)
    requires |bufSrc| == |bufDst| == bs
    requires BlockDiffers(src, dst, bs, i)
    ensures !SameAsWritten(ReadInto(bufSrc, src, BlockOffset(bs, i), BlockLength(|src|, bs, i)),
                           ReadInto(bufDst, dst, BlockOffset(bs, i), BlockLength(|src|, bs, i)))
  {
    var off, count := BlockOffset(bs, i), BlockLength(|src|, bs, i);
    BlockDiffersIff(src, dst, bs, i);
    var k :| off <= k < BlockEnd(|src|, bs, i) && src[k] != dst[k];
    var readSrc, readDst := ReadInto(bufSrc, src, off, count), ReadInto(bufDst, dst, off, count);
    assert 0 <= k - off < count;
    assert readSrc[k - off] == src[k] && readDst[k - off] == dst[k];
  }

  /** Two 4106-byte files that differ only in byte 4095. Block 0 (bytes
      0-4095) differs; block 1 (bytes 4096-4105) agrees. Whatever the buffers
      held at first, after block 0 they hold that block, and reading block 1's
      10 bytes overwrites only their first 10, so the full-width compare still
      sees byte 4095 and copies and reports block 1 as well. */
  lemma StaleCompareExample(buf0Src: seq<byte>, buf0Dst: seq<byte>)
    requires |buf0Src| == |buf0Dst| == BLOCK_SIZE
    ensures var src := seq(4106, k => if k == 4095 then 1 as byte else 0);
            var dst := seq(4106, k => 0 as byte);
            var bufSrc := ReadInto(ReadInto(buf0Src, src, 0, 4096), src, 4096, 10);
            var bufDst := ReadInto(ReadInto(buf0Dst, dst, 0, 4096), dst, 4096, 10);
            BlockCount(4106, BLOCK_SIZE) == 2 &&
            BlockLengthAsWritten(4106, BLOCK_SIZE, 1) == 10 &&
            BlockDiffers(src, dst, BLOCK_SIZE, 0) &&
            !BlockDiffers(src, dst, BLOCK_SIZE, 1) &&
            !SameAsWritten(bufSrc, bufDst)
  {
    var src := seq(4106, k => if k == 4095 then 1 as byte else 0);
    var dst := seq(4106, k => 0 as byte);
    var bufSrc := ReadInto(ReadInto(buf0Src, src, 0, 4096), src, 4096, 10);
    var bufDst := ReadInto(ReadInto(buf0Dst, dst, 0, 4096), dst, 4096, 10);
    assert BlockCount(4106, BLOCK_SIZE) == 2;
    assert src[0..4096][4095] != dst[0..4096][4095];
    assert src[4096..4106] == dst[4096..4106];
    assert bufSrc[4095] == 1 && bufDst[4095] == 0;
  }
}
