/** The events the scan reports, in byte offsets: "Skipping bytes a to b"
    (notify_skipped, read-compare-copy.c:25-27) and "Writing bytes a to b"
    (read-compare-copy.c:81), both with inclusive bounds. */
module Events {
  import opened Blocks
  import opened Runs

  datatype Report = Skip(first: int, last: int) | Write(first: int, last: int)

  /** A segment lies inside the file's blocks. */
  predicate InRange(seg: Segment, size: nat, bs: nat)
    requires bs > 0
  {
    seg.Lo() <= seg.Hi() < BlockCount(size, bs)
  }

  /** The byte range of a segment: from the first byte of its first block to the
      last byte of its last block. */
  function ToReport(seg: Segment, size: nat, bs: nat): (r: Report)
    requires bs > 0 && InRange(seg, size, bs)
    ensures r.Skip? <==> seg.Same?
    ensures 0 <= r.first <= r.last < size
  {
    BlocksAbut(size, bs, seg.Lo(), seg.Hi());
    match seg
    case Same(j, k) => Skip(BlockOffset(bs, j), BlockEnd(size, bs, k) - 1)
    case Differs(i) => Write(BlockOffset(bs, i), BlockEnd(size, bs, i) - 1)
  }

  function Reports(segs: seq<Segment>, size: nat, bs: nat): (reps: seq<Report>)
    requires bs > 0
    requires forall n | 0 <= n < |segs| :: InRange(segs[n], size, bs)
  {
    if segs == [] then []
    else [ToReport(segs[0], size, bs)] + Reports(segs[1..], size, bs)
  }

  /** The reports cover the byte range [lo, hi) one after the other, each
      starting just after the previous one ends. */
  ghost predicate Tiles(reps: seq<Report>, lo: int, hi: int)
    decreases |reps|
  {
    if reps == [] then lo == hi
    else reps[0].first == lo <= reps[0].last < hi && Tiles(reps[1..], reps[0].last + 1, hi)
  }

  /** Reports are the segments' byte ranges, one for one. */
  lemma {:induction false} ReportsAt(segs: seq<Segment>, size: nat, bs: nat)
    requires bs > 0
    requires forall n | 0 <= n < |segs| :: InRange(segs[n], size, bs)
    ensures |Reports(segs, size, bs)| == |segs|
    ensures forall n | 0 <= n < |segs| :: Reports(segs, size, bs)[n] == ToReport(segs[n], size, bs)
  {
    if segs != [] {
      ReportsAt(segs[1..], size, bs);
      forall n | 0 <= n < |segs|
        ensures Reports(segs, size, bs)[n] == ToReport(segs[n], size, bs)
      {
        if n > 0 {
          assert segs[n] == segs[1..][n - 1];
        }
      }
    }
  }

  /** Byte k lies in one of the reported ranges. */
  ghost predicate Covered(reps: seq<Report>, k: int)
  {
    exists n :: 0 <= n < |reps| && reps[n].first <= k <= reps[n].last
  }

  /** A tiling is strictly ascending and non-overlapping, stays inside [lo, hi),
      and every byte of [lo, hi) lies in one of its ranges. */
  lemma {:induction false} TilesOrdered(reps: seq<Report>, lo: int, hi: int)
    requires Tiles(reps, lo, hi)
    ensures forall n | 0 <= n < |reps| :: lo <= reps[n].first <= reps[n].last < hi
    ensures forall m, n | 0 <= m < n < |reps| :: reps[m].last < reps[n].first
    ensures forall k | lo <= k < hi :: Covered(reps, k)
    decreases |reps|
  {
    if reps != [] {
      var rest := reps[1..];
      TilesOrdered(rest, reps[0].last + 1, hi);
      forall n | 1 <= n < |reps| ensures reps[n] == rest[n - 1] { }
      forall k | lo <= k < hi
        ensures Covered(reps, k)
      {
        if k > reps[0].last {
          assert Covered(rest, k);
          var n' :| 0 <= n' < |rest| && rest[n'].first <= k <= rest[n'].last;
          assert reps[n' + 1] == rest[n'];
        } else {
          assert reps[0].first <= k <= reps[0].last;
        }
      }
    }
  }

  /** Reports of segments that tile blocks [lo, BlockCount) tile the bytes
      [BlockOffset(lo), size). */
  lemma {:induction false} ReportsTileBytes(segs: seq<Segment>, lo: nat, size: nat, bs: nat)
    requires bs > 0 && lo < BlockCount(size, bs)
    requires forall n | 0 <= n < |segs| :: InRange(segs[n], size, bs)
    requires SegTiles(segs, lo, BlockCount(size, bs))
    ensures Tiles(Reports(segs, size, bs), BlockOffset(bs, lo), size)
    decreases |segs|
  {
    var n := BlockCount(size, bs);
    var hi := segs[0].Hi();
    var r := ToReport(segs[0], size, bs);
    BlocksAbut(size, bs, lo, hi);
    var reps := Reports(segs, size, bs);
    assert reps[1..] == Reports(segs[1..], size, bs);
    if hi + 1 < n {
      ReportsTileBytes(segs[1..], hi + 1, size, bs);
    } else {
      assert segs[1..] == [];
    }
  }

  /** All reports of the whole decomposition tile [0, size). */
  lemma ReportsTile(flags: seq<bool>, size: nat, bs: nat)
    requires bs > 0 && |flags| == BlockCount(size, bs)
    ensures Tiles(Reports(Segments(flags, 0), size, bs), 0, size)
  {
    SegmentsTile(flags, 0);
    if |flags| > 0 {
      ReportsTileBytes(Segments(flags, 0), 0, size, bs);
    }
  }

  /** A differing block is reported on its own, as written over its byte range. */
  lemma EmitWrite(flags: seq<bool>, size: nat, bs: nat, i: nat)
    requires bs > 0 && |flags| == BlockCount(size, bs) && i < |flags| && flags[i]
    ensures Reports(Segments(flags, i), size, bs)
      == [Write(BlockOffset(bs, i), BlockEnd(size, bs, i) - 1)] + Reports(Segments(flags, i + 1), size, bs)
  {
    assert Segments(flags, i) == [Differs(i)] + Segments(flags, i + 1);
  }

  /** An identical run f..i-1 that a differing block i ends is reported as one
      skip up to the byte before block i. */
  lemma EmitSkipBeforeWrite(flags: seq<bool>, size: nat, bs: nat, f: nat, i: nat)
    requires bs > 0 && |flags| == BlockCount(size, bs) && f < i < |flags| && flags[i]
    requires forall j | f <= j < i :: !flags[j]
    ensures Reports(Segments(flags, f), size, bs)
      == [Skip(BlockOffset(bs, f), BlockOffset(bs, i) - 1)] + Reports(Segments(flags, i), size, bs)
  {
    RunEndShared(flags, f, i - 1);
    assert Segments(flags, f) == [Same(f, i - 1)] + Segments(flags, i);
    BlocksAbut(size, bs, i - 1, i - 1);
  }

  /** An identical run f.. that reaches the last block is reported as one skip
      ending at the last byte of the file. */
  lemma EmitFinalSkip(flags: seq<bool>, size: nat, bs: nat, f: nat)
    requires bs > 0 && |flags| == BlockCount(size, bs) && f < |flags|
    requires forall j | f <= j < |flags| :: !flags[j]
    ensures Reports(Segments(flags, f), size, bs) == [Skip(BlockOffset(bs, f), size - 1)]
  {
    RunEndShared(flags, f, |flags| - 1);
    assert Segments(flags, f) == [Same(f, |flags| - 1)];
    BlocksAbut(size, bs, |flags| - 1, |flags| - 1);
  }

  /** Number of write reports. */
  function NumWrites(reps: seq<Report>): nat
  {
    if reps == [] then 0
    else (if reps[0].Write? then 1 else 0) + NumWrites(reps[1..])
  }

  /** There is one write report per single-block write segment. */
  lemma {:induction false} NumWritesReports(segs: seq<Segment>, size: nat, bs: nat)
    requires bs > 0
    requires forall n | 0 <= n < |segs| :: InRange(segs[n], size, bs)
    ensures NumWrites(Reports(segs, size, bs)) == NumDiffers(segs)
  {
    if segs != [] {
      NumWritesReports(segs[1..], size, bs);
      assert Reports(segs, size, bs)[1..] == Reports(segs[1..], size, bs);
    }
  }

  /** A non-empty tiling of [lo, hi) ends with a range whose last byte is
      hi - 1. */
  lemma {:induction false} TilesLast(reps: seq<Report>, lo: int, hi: int)
    requires Tiles(reps, lo, hi) && reps != []
    ensures reps[|reps| - 1].last == hi - 1
    decreases |reps|
  {
    if |reps| > 1 {
      TilesLast(reps[1..], reps[0].last + 1, hi);
    }
  }

  /** When the last block is identical, the last report is a skip ending at
      the last byte. */
  lemma LastReportSkip(flags: seq<bool>, size: nat, bs: nat)
    requires bs > 0 && |flags| == BlockCount(size, bs) && |flags| > 0 && !flags[|flags| - 1]
    ensures Reports(Segments(flags, 0), size, bs) != []
    ensures Reports(Segments(flags, 0), size, bs)[|Reports(Segments(flags, 0), size, bs)| - 1].Skip?
    ensures Reports(Segments(flags, 0), size, bs)[|Reports(Segments(flags, 0), size, bs)| - 1].last == size - 1
  {
    var segs := Segments(flags, 0);
    var reps := Reports(segs, size, bs);
    LastSegment(flags, 0);
    ReportsAt(segs, size, bs);
    var m := |segs| - 1;
    var f := segs[m].first;
    assert segs[m] == Same(f, |flags| - 1);
    assert reps[m] == Skip(BlockOffset(bs, f), BlockEnd(size, bs, |flags| - 1) - 1);
    BlocksAbut(size, bs, |flags| - 1, |flags| - 1);
  }

  /** A maximal run j..k of identical blocks is reported as one skip over its
      bytes. */
  lemma MaximalRunSkip(flags: seq<bool>, size: nat, bs: nat, j: nat, k: nat)
    requires bs > 0 && |flags| == BlockCount(size, bs) && j <= k < |flags|
    requires forall b | j <= b <= k :: !flags[b]
    requires j == 0 || flags[j - 1]
    requires k + 1 == |flags| || flags[k + 1]
    ensures Skip(BlockOffset(bs, j), BlockEnd(size, bs, k) - 1) in Reports(Segments(flags, 0), size, bs)
  {
    var segs := Segments(flags, 0);
    MaximalRunSegment(flags, 0, j, k);
    var n :| 0 <= n < |segs| && segs[n] == Same(j, k);
    ReportsAt(segs, size, bs);
    assert Reports(segs, size, bs)[n] == ToReport(Same(j, k), size, bs);
  }

  /** When every block differs, the reports are one write per block, in
      order. */
  lemma AllWrites(flags: seq<bool>, size: nat, bs: nat)
    requires bs > 0 && |flags| == BlockCount(size, bs)
    requires forall j | 0 <= j < |flags| :: flags[j]
    ensures |Reports(Segments(flags, 0), size, bs)| == |flags|
    ensures forall i | 0 <= i < |flags| ::
      Reports(Segments(flags, 0), size, bs)[i] == Write(BlockOffset(bs, i), BlockEnd(size, bs, i) - 1)
  {
    AllDiffersOnePerBlock(flags, 0);
    ReportsAt(Segments(flags, 0), size, bs);
  }
}
