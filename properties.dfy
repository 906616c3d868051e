/** What one run of the synchroniser guarantees, stated on ScanOf, the result
    Synchronize returns: how many blocks it writes, which ones, how the skip
    and write reports cover the file, and what a second run does. */
module Properties {
  import opened Blocks
  import opened Runs
  import opened Events
  import opened Sync

  /** Flag i of the scan is whether block i differs. */
  lemma FlagOf(s: seq<byte>, d: seq<byte>, bs: nat, i: nat)
    requires bs > 0 && |s| == |d| && i < BlockCount(|s|, bs)
    ensures Flags(s, d, bs)[i] == BlockDiffers(s, d, bs, i)
  {
    FlagsAt(s, d, bs, BlockCount(|s|, bs), i);
  }

  /** blocks_written is the number of write reports and at most block_count;
      it is 0 iff no block differs and block_count iff every block does
      (read-compare-copy.c:56-58, :84). */
  lemma WrittenCount(s: seq<byte>, d: seq<byte>, bs: nat)
    requires bs > 0 && |s| == |d|
    ensures ScanOf(s, d, bs).blockCount == BlockCount(|s|, bs)
    ensures ScanOf(s, d, bs).blocksWritten == NumWrites(ScanOf(s, d, bs).reports)
    ensures ScanOf(s, d, bs).blocksWritten <= ScanOf(s, d, bs).blockCount
    ensures ScanOf(s, d, bs).blocksWritten == 0 <==>
      forall i | 0 <= i < BlockCount(|s|, bs) :: !BlockDiffers(s, d, bs, i)
    ensures ScanOf(s, d, bs).blocksWritten == ScanOf(s, d, bs).blockCount <==>
      forall i | 0 <= i < BlockCount(|s|, bs) :: BlockDiffers(s, d, bs, i)
  {
    var flags := Flags(s, d, bs);
    NumDiffersCount(flags, 0);
    assert flags[0..] == flags;
    NumWritesReports(Segments(flags, 0), |s|, bs);
    CountTrueExtremes(flags);
    forall i | 0 <= i < |flags| ensures flags[i] == BlockDiffers(s, d, bs, i) {
      FlagOf(s, d, bs, i);
    }
  }

  /** Block i is reported as written, over exactly its own bytes, iff it
      differs (read-compare-copy.c:73, :81). */
  lemma WriteIffDiffers(s: seq<byte>, d: seq<byte>, bs: nat, i: nat)
    requires bs > 0 && |s| == |d| && i < BlockCount(|s|, bs)
    ensures Write(BlockOffset(bs, i), BlockEnd(|s|, bs, i) - 1) in ScanOf(s, d, bs).reports
      <==> BlockDiffers(s, d, bs, i)
  {
    var flags := Flags(s, d, bs);
    var segs := Segments(flags, 0);
    var reps := Reports(segs, |s|, bs);
    var w := Write(BlockOffset(bs, i), BlockEnd(|s|, bs, i) - 1);
    FlagOf(s, d, bs, i);
    DiffersIff(flags, 0, i);
    ReportsAt(segs, |s|, bs);
    if flags[i] {
      var n :| 0 <= n < |segs| && segs[n] == Differs(i);
      assert reps[n] == w;
    }
    if w in reps {
      var n :| 0 <= n < |reps| && reps[n] == w;
      OffsetInjective(bs, i, segs[n].index);
      assert segs[n] == Differs(i);
    }
  }

  /** Every write report is the byte range of one differing block. */
  lemma WriteReportsAreBlocks(s: seq<byte>, d: seq<byte>, bs: nat)
    requires bs > 0 && |s| == |d|
    ensures forall n | 0 <= n < |ScanOf(s, d, bs).reports| && ScanOf(s, d, bs).reports[n].Write? ::
      exists i | 0 <= i < BlockCount(|s|, bs) ::
        ScanOf(s, d, bs).reports[n] == Write(BlockOffset(bs, i), BlockEnd(|s|, bs, i) - 1) &&
        BlockDiffers(s, d, bs, i)
  {
    var flags := Flags(s, d, bs);
    var segs := Segments(flags, 0);
    var reps := Reports(segs, |s|, bs);
    ReportsAt(segs, |s|, bs);
    SegmentsClassify(flags, 0);
    forall n | 0 <= n < |reps| && reps[n].Write?
      ensures exists i | 0 <= i < BlockCount(|s|, bs) ::
        reps[n] == Write(BlockOffset(bs, i), BlockEnd(|s|, bs, i) - 1) && BlockDiffers(s, d, bs, i)
    {
      var i := segs[n].index;
      assert Classified(flags, 0, segs, n);
      FlagOf(s, d, bs, i);
      assert reps[n] == Write(BlockOffset(bs, i), BlockEnd(|s|, bs, i) - 1);
    }
  }

  /** Every skip report covers bytes that agree in both files, and is followed
      and preceded by write reports only: two skips are never adjacent, so
      each skip is a whole run of identical blocks (read-compare-copy.c:74-79,
      :86-91). */
  lemma SkipReportsIdentical(s: seq<byte>, d: seq<byte>, bs: nat)
    requires bs > 0 && |s| == |d|
    ensures forall n | 0 <= n < |ScanOf(s, d, bs).reports| && ScanOf(s, d, bs).reports[n].Skip? ::
      (forall k | ScanOf(s, d, bs).reports[n].first <= k <= ScanOf(s, d, bs).reports[n].last && 0 <= k < |s| ::
        s[k] == d[k]) &&
      (n > 0 ==> ScanOf(s, d, bs).reports[n - 1].Write?) &&
      (n + 1 < |ScanOf(s, d, bs).reports| ==> ScanOf(s, d, bs).reports[n + 1].Write?)
  {
    var flags := Flags(s, d, bs);
    var segs := Segments(flags, 0);
    var reps := Reports(segs, |s|, bs);
    ReportsAt(segs, |s|, bs);
    SegmentsClassify(flags, 0);
    forall n | 0 <= n < |reps| && reps[n].Skip?
      ensures forall k | reps[n].first <= k <= reps[n].last && 0 <= k < |s| :: s[k] == d[k]
      ensures n > 0 ==> reps[n - 1].Write?
      ensures n + 1 < |reps| ==> reps[n + 1].Write?
    {
      assert reps[n] == ToReport(segs[n], |s|, bs);
      assert Classified(flags, 0, segs, n);
      SkipBytesAgree(s, d, bs, segs[n].first, segs[n].last);
      if n > 0 {
        assert Classified(flags, 0, segs, n - 1);
      }
    }
  }

  /** The bytes of a run f..l of identical blocks agree in both files. */
  lemma SkipBytesAgree(s: seq<byte>, d: seq<byte>, bs: nat, f: nat, l: nat)
    requires bs > 0 && |s| == |d| && f <= l < BlockCount(|s|, bs)
    requires forall j | f <= j <= l :: !Flags(s, d, bs)[j]
    ensures forall k | BlockOffset(bs, f) <= k < BlockEnd(|s|, bs, l) :: s[k] == d[k]
  {
    forall k | BlockOffset(bs, f) <= k < BlockEnd(|s|, bs, l)
      ensures s[k] == d[k]
    {
      var b := BlockWithin(|s|, bs, k, f, l);
      FlagOf(s, d, bs, b);
      BlockDiffersIff(s, d, bs, b);
    }
  }

  /** A maximal run j..k of identical blocks is reported as a skip from the
      first byte of block j to the byte before block k + 1, or to the last
      byte of the file when k is the last block (read-compare-copy.c:74-79,
      :94-100). */
  lemma MaximalRunReported(s: seq<byte>, d: seq<byte>, bs: nat, j: nat, k: nat)
    requires bs > 0 && |s| == |d| && j <= k < BlockCount(|s|, bs)
    requires forall b | j <= b <= k :: !BlockDiffers(s, d, bs, b)
    requires j == 0 || BlockDiffers(s, d, bs, j - 1)
    requires k + 1 == BlockCount(|s|, bs) || BlockDiffers(s, d, bs, k + 1)
    ensures Skip(BlockOffset(bs, j), BlockEnd(|s|, bs, k) - 1) in ScanOf(s, d, bs).reports
    ensures k + 1 < BlockCount(|s|, bs) ==> BlockEnd(|s|, bs, k) == BlockOffset(bs, k + 1)
    ensures k + 1 == BlockCount(|s|, bs) ==> BlockEnd(|s|, bs, k) == |s|
  {
    var flags := Flags(s, d, bs);
    forall b | j <= b <= k ensures !flags[b] {
      FlagOf(s, d, bs, b);
    }
    if j > 0 {
      FlagOf(s, d, bs, j - 1);
    }
    if k + 1 < |flags| {
      FlagOf(s, d, bs, k + 1);
    }
    MaximalRunSkip(flags, |s|, bs, j, k);
    BlocksAbut(|s|, bs, k, k);
  }

  /** The reports tile [0, size): they ascend strictly, do not overlap, stay in
      the file and cover every byte of it, and a non-empty file's last report
      ends at its last byte (read-compare-copy.c:63-102). */
  lemma ReportsTileFile(s: seq<byte>, d: seq<byte>, bs: nat)
    requires bs > 0 && |s| == |d|
    ensures Tiles(ScanOf(s, d, bs).reports, 0, |s|)
    ensures forall n | 0 <= n < |ScanOf(s, d, bs).reports| ::
      0 <= ScanOf(s, d, bs).reports[n].first <= ScanOf(s, d, bs).reports[n].last < |s|
    ensures forall m, n | 0 <= m < n < |ScanOf(s, d, bs).reports| ::
      ScanOf(s, d, bs).reports[m].last < ScanOf(s, d, bs).reports[n].first
    ensures forall k | 0 <= k < |s| :: Covered(ScanOf(s, d, bs).reports, k)
    ensures |s| > 0 ==>
      ScanOf(s, d, bs).reports != [] &&
      ScanOf(s, d, bs).reports[|ScanOf(s, d, bs).reports| - 1].last == |s| - 1
  {
    var reps := ScanOf(s, d, bs).reports;
    ReportsTile(Flags(s, d, bs), |s|, bs);
    TilesOrdered(reps, 0, |s|);
    if |s| > 0 {
      assert Covered(reps, 0);
      TilesLast(reps, 0, |s|);
    }
  }

  /** When the last block is identical, the last report is the skip of the run
      that holds it, and it ends at the last byte of the file
      (read-compare-copy.c:94-100). */
  lemma FinalSkip(s: seq<byte>, d: seq<byte>, bs: nat)
    requires bs > 0 && |s| == |d| && |s| > 0
    requires !BlockDiffers(s, d, bs, BlockCount(|s|, bs) - 1)
    ensures ScanOf(s, d, bs).reports != []
    ensures ScanOf(s, d, bs).reports[|ScanOf(s, d, bs).reports| - 1].Skip?
    ensures ScanOf(s, d, bs).reports[|ScanOf(s, d, bs).reports| - 1].last == |s| - 1
  {
    FlagOf(s, d, bs, BlockCount(|s|, bs) - 1);
    LastReportSkip(Flags(s, d, bs), |s|, bs);
  }

  /** A run over two files that agree writes nothing and reports one skip of
      the whole file, or nothing for an empty one. Because Synchronize leaves
      dst equal to src, this is what a second run reports
      (read-compare-copy.c:54, :82-84). */
  lemma SecondRunNoWrites(s: seq<byte>, bs: nat)
    requires bs > 0
    ensures ScanOf(s, s, bs) ==
      ScanResult(BlockCount(|s|, bs), 0, if |s| == 0 then [] else [Skip(0, |s| - 1)])
  {
    var flags := Flags(s, s, bs);
    forall i | 0 <= i < |flags| ensures !flags[i] {
      FlagOf(s, s, bs, i);
    }
    CountTrueExtremes(flags);
    if |s| > 0 {
      AllSameOneRun(flags);
      BlocksAbut(|s|, bs, 0, |flags| - 1);
      assert Reports(Segments(flags, 0), |s|, bs) == [ToReport(Same(0, |flags| - 1), |s|, bs)];
    }
  }

  /** When every block differs, every block is written and each is reported
      on its own, in order: adjacent writes are not merged
      (read-compare-copy.c:81). */
  lemma AllBlocksDiffer(s: seq<byte>, d: seq<byte>, bs: nat)
    requires bs > 0 && |s| == |d|
    requires forall i | 0 <= i < BlockCount(|s|, bs) :: BlockDiffers(s, d, bs, i)
    ensures ScanOf(s, d, bs).blocksWritten == BlockCount(|s|, bs)
    ensures |ScanOf(s, d, bs).reports| == BlockCount(|s|, bs)
    ensures forall i | 0 <= i < BlockCount(|s|, bs) ::
      ScanOf(s, d, bs).reports[i] == Write(BlockOffset(bs, i), BlockEnd(|s|, bs, i) - 1)
  {
    var flags := Flags(s, d, bs);
    forall i | 0 <= i < |flags| ensures flags[i] {
      FlagOf(s, d, bs, i);
    }
    CountTrueExtremes(flags);
    AllWrites(flags, |s|, bs);
  }

  /** Two 12288-byte files, three full blocks, that differ only in byte 5000:
      the first and last blocks are separate skips around one write of the
      middle block, one block of three is written, and two thirds of the
      blocks are saved. The last block is a full one although 12288 is a
      multiple of BLOCK_SIZE (see BlockLengthAsWritten). */
  lemma ThreeBlockExample()
    ensures ScanOf(seq(12288, k => if k == 5000 then 1 as byte else 0), seq(12288, k => 0 as byte), BLOCK_SIZE)
      == ScanResult(3, 1, [Skip(0, 4095), Write(4096, 8191), Skip(8192, 12287)])
    ensures PercentSaved(1, 3) == 200.0 / 3.0
  {
    var flags := ThreeBlockFlags();
    assert RunEnd(flags, 0) == 1 && RunEnd(flags, 2) == 3;
    var segs := [Same(0, 0), Differs(1), Same(2, 2)];
    assert Segments(flags, 2) == segs[2..];
    assert Segments(flags, 1) == segs[1..];
    assert Segments(flags, 0) == segs;
    assert Reports(segs[2..], 12288, BLOCK_SIZE) == [Skip(8192, 12287)];
    assert Reports(segs[1..], 12288, BLOCK_SIZE) == [Write(4096, 8191), Skip(8192, 12287)];
    assert Reports(segs, 12288, BLOCK_SIZE) == [Skip(0, 4095), Write(4096, 8191), Skip(8192, 12287)];
    assert CountTrue(flags[2..]) == 0 && CountTrue(flags[1..]) == 1 && CountTrue(flags) == 1;
  }

  /** The flags of the three-block example: only the middle block differs. */
  lemma ThreeBlockFlags() returns (flags: seq<bool>)
    ensures flags == Flags(seq(12288, k => if k == 5000 then 1 as byte else 0), seq(12288, k => 0 as byte), BLOCK_SIZE)
    ensures flags == [false, true, false]
  {
    var s := seq(12288, k => if k == 5000 then 1 as byte else 0);
    var d := seq(12288, k => 0 as byte);
    assert BlockCount(12288, BLOCK_SIZE) == 3;
    assert !BlockDiffers(s, d, BLOCK_SIZE, 0) by {
      assert s[0..4096] == d[0..4096];
    }
    assert BlockDiffers(s, d, BLOCK_SIZE, 1) by {
      assert s[4096..8192][904] != d[4096..8192][904];
    }
    assert !BlockDiffers(s, d, BLOCK_SIZE, 2) by {
      assert s[8192..12288] == d[8192..12288];
    }
    flags := Flags(s, d, BLOCK_SIZE);
    FlagOf(s, d, BLOCK_SIZE, 0);
    FlagOf(s, d, BLOCK_SIZE, 1);
    FlagOf(s, d, BLOCK_SIZE, 2);
  }
}
