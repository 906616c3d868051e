/** The scan loop's bookkeeping as a state machine over the per-block flags:
    what the loop of read-compare-copy.c (63-102) has reported, counted and
    left open after each block. */
module Scan {
  import opened Blocks
  import opened Runs
  import opened Events

  /** The loop's variables besides the buffers: the open skip run, the
      reports printed so far and blocks_written. */
  datatype ScanState = ScanState(skip: SkipState, reports: seq<Report>, written: nat)

  /** One iteration of the loop for block i, whose flag says whether it
      differs: classify the block, then close the open run at the last block. */
  function Step(st: ScanState, differs: bool, i: nat, size: nat, bs: nat): ScanState
    requires bs > 0 && i < BlockCount(size, bs)
  {
    FinishLast(Advance(st, differs, i, size, bs), i, size, bs)
  }

  /** A differing block flushes the open skip run (read-compare-copy.c:77-80),
      then is reported as written and counted (:81-84); an identical block opens
      the skip run or extends it by one block (:86-91). */
  function Advance(st: ScanState, differs: bool, i: nat, size: nat, bs: nat): ScanState
    requires bs > 0 && i < BlockCount(size, bs)
  {
    var offset := BlockOffset(bs, i);
    if differs then
      ScanState(NoRun, Flushed(st, bs) + [Write(offset, offset + BlockLength(size, bs, i) - 1)], st.written + 1)
    else
      ScanState(if st.skip.NoRun? then SkipRun(i, i) else st.skip.(last := st.skip.last + 1),
                st.reports, st.written)
  }

  /** The skip run a differing block closes, if one is open, is reported up to
      the byte before the block after the run's last one. */
  function Flushed(st: ScanState, bs: nat): seq<Report>
  {
    if st.skip.SkipRun? then
      st.reports + [Skip(BlockOffset(bs, st.skip.first), BlockOffset(bs, st.skip.last + 1) - 1)]
    else st.reports
  }

  /** At the last block a still-open skip run is reported up to the end of the
      block (read-compare-copy.c:94-99). */
  function FinishLast(st: ScanState, i: nat, size: nat, bs: nat): ScanState
    requires bs > 0 && i < BlockCount(size, bs)
  {
    if i == BlockCount(size, bs) - 1 && st.skip.SkipRun? then
      ScanState(NoRun, st.reports + [Skip(BlockOffset(bs, st.skip.first),
                                          BlockOffset(bs, i) + BlockLength(size, bs, i) - 1)], st.written)
    else st
  }

  /** The state after the first n blocks. */
  function ScanPrefix(flags: seq<bool>, size: nat, bs: nat, n: nat): ScanState
    requires bs > 0 && n <= |flags| == BlockCount(size, bs)
  {
    if n == 0 then ScanState(NoRun, [], 0)
    else Step(ScanPrefix(flags, size, bs, n - 1), flags[n - 1], n - 1, size, bs)
  }

  /** The state after n + 1 blocks is one step on from the state after n. */
  lemma ScanPrefixNext(flags: seq<bool>, size: nat, bs: nat, n: nat)
    requires bs > 0 && n < |flags| == BlockCount(size, bs)
    ensures ScanPrefix(flags, size, bs, n + 1) == Step(ScanPrefix(flags, size, bs, n), flags[n], n, size, bs)
  {
  }

  /** The block where the reference decomposition resumes: the first block of
      the open skip run, or block n when none is open. */
  function Resume(skip: SkipState, n: nat): nat
  {
    if skip.SkipRun? then skip.first else n
  }

  /** What holds of the state after n blocks: the open skip run ends at block
      n - 1 and holds only identical blocks; none is open after the last block;
      blocks_written counts the differing blocks so far; and the reports printed
      so far, followed by the reference reports of the blocks from Resume on,
      are the reference reports of the whole file. */
  ghost predicate Inv(flags: seq<bool>, size: nat, bs: nat, n: nat, st: ScanState)
    requires bs > 0 && n <= |flags| == BlockCount(size, bs)
  {
    (st.skip.SkipRun? ==>
      st.skip.first <= st.skip.last && st.skip.last + 1 == n &&
      forall j | st.skip.first <= j < n :: !flags[j]) &&
    (n == |flags| ==> st.skip == NoRun) &&
    st.written + CountTrue(flags[n..]) == CountTrue(flags) &&
    st.reports + Reports(Segments(flags, Resume(st.skip, n)), size, bs)
      == Reports(Segments(flags, 0), size, bs)
  }

  lemma FlushBeforeWrite(flags: seq<bool>, size: nat, bs: nat, i: nat, st0: ScanState)
    requires bs > 0 && i < |flags| == BlockCount(size, bs) && flags[i]
    requires Inv(flags, size, bs, i, st0)
    ensures Flushed(st0, bs) + Reports(Segments(flags, i), size, bs) == Reports(Segments(flags, 0), size, bs)
  {
    if st0.skip.SkipRun? {
      var f := st0.skip.first;
      var sk := Skip(BlockOffset(bs, f), BlockOffset(bs, i) - 1);
      var here := Reports(Segments(flags, i), size, bs);
      assert Flushed(st0, bs) == st0.reports + [sk];
      assert st0.reports + Reports(Segments(flags, f), size, bs) == Reports(Segments(flags, 0), size, bs);
      EmitSkipBeforeWrite(flags, size, bs, f, i);
      Associate(st0.reports, sk, here);
    }
  }

  lemma WriteAfterFlush(flags: seq<bool>, size: nat, bs: nat, i: nat, flushed: seq<Report>)
    requires bs > 0 && i < |flags| == BlockCount(size, bs) && flags[i]
    requires flushed + Reports(Segments(flags, i), size, bs) == Reports(Segments(flags, 0), size, bs)
    ensures (flushed + [Write(BlockOffset(bs, i), BlockOffset(bs, i) + BlockLength(size, bs, i) - 1)])
      + Reports(Segments(flags, i + 1), size, bs) == Reports(Segments(flags, 0), size, bs)
  {
    EmitWrite(flags, size, bs, i);
    Associate(flushed, Write(BlockOffset(bs, i), BlockOffset(bs, i) + BlockLength(size, bs, i) - 1),
      Reports(Segments(flags, i + 1), size, bs));
  }

  /** A differing block flushes the open skip run and is reported as a write. */
  lemma StepWrite(flags: seq<bool>, size: nat, bs: nat, i: nat, st0: ScanState)
    requires bs > 0 && i < |flags| == BlockCount(size, bs) && flags[i]
    requires Inv(flags, size, bs, i, st0)
    ensures Inv(flags, size, bs, i + 1, Step(st0, true, i, size, bs))
  {
    StepOnWrite(st0, i, size, bs);
    FlushBeforeWrite(flags, size, bs, i, st0);
    WriteAfterFlush(flags, size, bs, i, Flushed(st0, bs));
    CountTrueStep(flags, i);
    InvNoRun(flags, size, bs, i + 1, Step(st0, true, i, size, bs));
  }

  lemma StepOnWrite(st0: ScanState, i: nat, size: nat, bs: nat)
    requires bs > 0 && i < BlockCount(size, bs)
    ensures Step(st0, true, i, size, bs) == ScanState(NoRun,
      Flushed(st0, bs) + [Write(BlockOffset(bs, i), BlockOffset(bs, i) + BlockLength(size, bs, i) - 1)],
      st0.written + 1)
  {
  }

  /** The invariant with no skip run open. */
  lemma InvNoRun(flags: seq<bool>, size: nat, bs: nat, n: nat, st: ScanState)
    requires bs > 0 && n <= |flags| == BlockCount(size, bs) && st.skip == NoRun
    requires st.written + CountTrue(flags[n..]) == CountTrue(flags)
    requires st.reports + Reports(Segments(flags, n), size, bs) == Reports(Segments(flags, 0), size, bs)
    ensures Inv(flags, size, bs, n, st)
  {
  }

  lemma StepOnSame(st0: ScanState, i: nat, size: nat, bs: nat)
    requires bs > 0 && i < BlockCount(size, bs)
    requires st0.skip.SkipRun? ==> st0.skip.last + 1 == i
    ensures Step(st0, false, i, size, bs) ==
      if i == BlockCount(size, bs) - 1 then
        ScanState(NoRun, st0.reports + [Skip(BlockOffset(bs, Resume(st0.skip, i)), size - 1)], st0.written)
      else
        ScanState(SkipRun(Resume(st0.skip, i), i), st0.reports, st0.written)
  {
  }

  /** An identical block extends or opens the skip run, which the last block
      flushes. */
  lemma StepSame(flags: seq<bool>, size: nat, bs: nat, i: nat, st0: ScanState)
    requires bs > 0 && i < |flags| == BlockCount(size, bs) && !flags[i]
    requires Inv(flags, size, bs, i, st0)
    ensures Inv(flags, size, bs, i + 1, Step(st0, false, i, size, bs))
  {
    var f := Resume(st0.skip, i);
    StepOnSame(st0, i, size, bs);
    CountTrueStep(flags, i);
    if i == |flags| - 1 {
      var sk := Skip(BlockOffset(bs, f), size - 1);
      EmitFinalSkip(flags, size, bs, f);
      assert Segments(flags, i + 1) == [];
      assert (st0.reports + [sk]) + [] == st0.reports + [sk];
      InvNoRun(flags, size, bs, i + 1, ScanState(NoRun, st0.reports + [sk], st0.written));
    }
  }

  lemma Associate(done: seq<Report>, r: Report, rest: seq<Report>)
    ensures (done + [r]) + rest == done + ([r] + rest)
  {
  }

  /** The invariant holds after every prefix of the blocks. */
  lemma {:induction false} ScanPrefixInvariant(flags: seq<bool>, size: nat, bs: nat, n: nat)
    requires bs > 0 && n <= |flags| == BlockCount(size, bs)
    ensures Inv(flags, size, bs, n, ScanPrefix(flags, size, bs, n))
  {
    if n == 0 {
      assert flags[0..] == flags;
    } else {
      ScanPrefixInvariant(flags, size, bs, n - 1);
      if flags[n - 1] {
        StepWrite(flags, size, bs, n - 1, ScanPrefix(flags, size, bs, n - 1));
      } else {
        StepSame(flags, size, bs, n - 1, ScanPrefix(flags, size, bs, n - 1));
      }
    }
  }

  /** After the last block no skip run is open, the reports are exactly the
      reference reports of the maximal-run decomposition, and blocks_written is
      the number of differing blocks. */
  lemma ScanComplete(flags: seq<bool>, size: nat, bs: nat)
    requires bs > 0 && |flags| == BlockCount(size, bs)
    ensures ScanPrefix(flags, size, bs, |flags|)
      == ScanState(NoRun, Reports(Segments(flags, 0), size, bs), CountTrue(flags))
  {
    ScanPrefixInvariant(flags, size, bs, |flags|);
    assert flags[|flags|..] == [];
  }
}
