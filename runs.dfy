/** The shape of the scan's report stream on block indices. The loop classifies
    every block as identical or differing (one flag per block, true = differs);
    it reports each differing block on its own and each maximal run of identical
    blocks once. Segments is that decomposition, defined directly on the flags;
    the scan loop is proved to produce it. */
module Runs {

  /** One reported unit, in block indices: a maximal run Same(first, last) of
      identical blocks, or a single differing block Differs(index). */
  datatype Segment = Same(first: nat, last: nat) | Differs(index: nat)
  {
    function Lo(): nat { if Same? then first else index }
    function Hi(): nat { if Same? then last else index }
  }

  /** The open skip run of the scan loop: skip_first_index / skip_last_index,
      with -1 in skip_first_index meaning no run is open
      (read-compare-copy.c:60-61). */
  datatype SkipState = NoRun | SkipRun(first: nat, last: nat)

  /** End (exclusive) of the run of identical blocks that starts at block i. */
  function RunEnd(flags: seq<bool>, i: nat): (k: nat)
    requires i < |flags| && !flags[i]
    ensures i < k <= |flags|
    ensures forall j | i <= j < k :: !flags[j]
    ensures k == |flags| || flags[k]
    decreases |flags| - i
  {
    if i + 1 == |flags| || flags[i + 1] then i + 1 else RunEnd(flags, i + 1)
  }

  /** The decomposition of blocks i.. into maximal identical runs and single
      differing blocks, in ascending order. */
  function Segments(flags: seq<bool>, i: nat): (segs: seq<Segment>)
    requires i <= |flags|
    ensures forall n | 0 <= n < |segs| :: i <= segs[n].Lo() <= segs[n].Hi() < |flags|
    decreases |flags| - i
  {
    if i == |flags| then []
    else if flags[i] then [Differs(i)] + Segments(flags, i + 1)
    else [Same(i, RunEnd(flags, i) - 1)] + Segments(flags, RunEnd(flags, i))
  }

  /** Number of differing blocks. */
  function CountTrue(flags: seq<bool>): (c: nat)
    ensures c <= |flags|
  {
    if flags == [] then 0
    else (if flags[0] then 1 else 0) + CountTrue(flags[1..])
  }

  /** Counting from block i: block i's flag plus the count from block i + 1. */
  lemma CountTrueStep(flags: seq<bool>, i: nat)
    requires i < |flags|
    ensures CountTrue(flags[i..]) == (if flags[i] then 1 else 0) + CountTrue(flags[i + 1..])
  {
    assert flags[i..][1..] == flags[i + 1..];
  }

  /** No block differs iff the count is 0; every block differs iff it is the
      number of blocks. */
  lemma {:induction false} CountTrueExtremes(flags: seq<bool>)
    ensures CountTrue(flags) == 0 <==> forall j | 0 <= j < |flags| :: !flags[j]
    ensures CountTrue(flags) == |flags| <==> forall j | 0 <= j < |flags| :: flags[j]
  {
    if flags != [] {
      CountTrueExtremes(flags[1..]);
      assert forall j | 1 <= j < |flags| :: flags[j] == flags[1..][j - 1];
    }
  }

  /** Number of single-block write segments. */
  function NumDiffers(segs: seq<Segment>): nat
  {
    if segs == [] then 0
    else (if segs[0].Differs? then 1 else 0) + NumDiffers(segs[1..])
  }

  /** Segments lo.. cover the block indices [lo, hi) one after the other. */
  ghost predicate SegTiles(segs: seq<Segment>, lo: nat, hi: nat)
    decreases |segs|
  {
    if segs == [] then lo == hi
    else segs[0].Lo() == lo <= segs[0].Hi() < hi && SegTiles(segs[1..], segs[0].Hi() + 1, hi)
  }

  /** Every identical run ends at the same place wherever inside it one starts. */
  lemma {:induction false} RunEndShared(flags: seq<bool>, f: nat, i: nat)
    requires f <= i < |flags|
    requires forall j | f <= j <= i :: !flags[j]
    ensures RunEnd(flags, f) == RunEnd(flags, i)
    decreases i - f
  {
    if f < i {
      RunEndShared(flags, f + 1, i);
    }
  }

  /** The segments from block i cover blocks [i, |flags|) exactly, in order. */
  lemma {:induction false} SegmentsTile(flags: seq<bool>, i: nat)
    requires i <= |flags|
    ensures SegTiles(Segments(flags, i), i, |flags|)
    decreases |flags| - i
  {
    if i < |flags| {
      var segs := Segments(flags, i);
      if flags[i] {
        SegmentsTile(flags, i + 1);
        assert segs[1..] == Segments(flags, i + 1);
      } else {
        SegmentsTile(flags, RunEnd(flags, i));
        assert segs[1..] == Segments(flags, RunEnd(flags, i));
      }
    }
  }

  /** Segment n of segs, a decomposition of blocks lo.., is classified right: a
      Differs segment is a differing block; a Same segment is a run of
      identical blocks that cannot be extended on either side, and is followed
      by a differing block if by anything (it is flushed before the next write). */
  ghost predicate Classified(flags: seq<bool>, lo: nat, segs: seq<Segment>, n: nat)
    requires n < |segs|
    requires segs[n].Lo() <= segs[n].Hi() < |flags|
  {
    (segs[n].Differs? ==> flags[segs[n].index]) &&
    (segs[n].Same? ==>
      (forall j | segs[n].first <= j <= segs[n].last :: !flags[j]) &&
      (segs[n].first == lo || (segs[n].first > 0 && flags[segs[n].first - 1])) &&
      (segs[n].last + 1 == |flags| || flags[segs[n].last + 1]) &&
      (n + 1 < |segs| ==> segs[n + 1].Differs?))
  }

  lemma {:induction false} SegmentsClassify(flags: seq<bool>, i: nat)
    requires i <= |flags|
    ensures forall n | 0 <= n < |Segments(flags, i)| :: Classified(flags, i, Segments(flags, i), n)
    decreases |flags| - i
  {
    if i < |flags| {
      var next := Next(flags, i);
      SegmentsClassify(flags, next);
      forall n | 0 <= n < |Segments(flags, i)|
        ensures Classified(flags, i, Segments(flags, i), n)
      {
        if n == 0 {
          ClassifiedFirst(flags, i);
        } else {
          ClassifiedLater(flags, i, n);
        }
      }
    }
  }

  /** The block after the first segment from block i. */
  function Next(flags: seq<bool>, i: nat): (next: nat)
    requires i < |flags|
    ensures i < next <= |flags|
    ensures Segments(flags, i) == [Segments(flags, i)[0]] + Segments(flags, next)
  {
    if flags[i] then i + 1 else RunEnd(flags, i)
  }

  /** The first segment from block i is classified right. */
  lemma ClassifiedFirst(flags: seq<bool>, i: nat)
    requires i < |flags|
    ensures Classified(flags, i, Segments(flags, i), 0)
  {
    var next := Next(flags, i);
    if !flags[i] && next < |flags| {
      assert Segments(flags, i)[1] == Segments(flags, next)[0] == Differs(next);
    }
  }

  /** A later segment from block i is classified right when the segments from
      the next block are. */
  lemma ClassifiedLater(flags: seq<bool>, i: nat, n: nat)
    requires i < |flags| && 0 < n < |Segments(flags, i)|
    requires forall m | 0 <= m < |Segments(flags, Next(flags, i))| ::
      Classified(flags, Next(flags, i), Segments(flags, Next(flags, i)), m)
    ensures Classified(flags, i, Segments(flags, i), n)
  {
    var segs := Segments(flags, i);
    var next := Next(flags, i);
    var rest := Segments(flags, next);
    assert segs[n] == rest[n - 1];
    assert Classified(flags, next, rest, n - 1);
    if n + 1 < |segs| {
      assert segs[n + 1] == rest[n];
    }
  }

  /** Block j (j >= i) differs iff it appears as a Differs segment. */
  lemma {:induction false} DiffersIff(flags: seq<bool>, i: nat, j: nat)
    requires i <= j < |flags|
    ensures flags[j] <==> Differs(j) in Segments(flags, i)
    decreases |flags| - i
  {
    var segs := Segments(flags, i);
    var next := if flags[i] then i + 1 else RunEnd(flags, i);
    assert segs == [segs[0]] + Segments(flags, next);
    if j < next {
      assert forall n | 0 <= n < |Segments(flags, next)| :: Segments(flags, next)[n] != Differs(j);
    } else {
      DiffersIff(flags, next, j);
    }
  }

  lemma {:induction false} CountTrueSame(flags: seq<bool>, i: nat, k: nat)
    requires i <= k <= |flags|
    requires forall j | i <= j < k :: !flags[j]
    ensures CountTrue(flags[i..]) == CountTrue(flags[k..])
    decreases k - i
  {
    if i < k {
      assert flags[i..][1..] == flags[i + 1..];
      CountTrueSame(flags, i + 1, k);
    }
  }

  /** The number of write segments is the number of differing blocks. */
  lemma {:induction false} NumDiffersCount(flags: seq<bool>, i: nat)
    requires i <= |flags|
    ensures NumDiffers(Segments(flags, i)) == CountTrue(flags[i..])
    decreases |flags| - i
  {
    if i < |flags| {
      var segs := Segments(flags, i);
      assert flags[i..][1..] == flags[i + 1..];
      if flags[i] {
        assert segs[1..] == Segments(flags, i + 1);
        NumDiffersCount(flags, i + 1);
      } else {
        var k := RunEnd(flags, i);
        assert segs[1..] == Segments(flags, k);
        NumDiffersCount(flags, k);
        CountTrueSame(flags, i + 1, k);
      }
    }
  }

  /** With no differing block the whole range is one identical run. */
  lemma AllSameOneRun(flags: seq<bool>)
    requires |flags| > 0
    requires forall j | 0 <= j < |flags| :: !flags[j]
    ensures Segments(flags, 0) == [Same(0, |flags| - 1)]
  {
    RunEndShared(flags, 0, |flags| - 1);
  }

  /** With every block differing, every block is its own write segment: the
      scan does not merge adjacent writes. */
  lemma {:induction false} AllDiffersOnePerBlock(flags: seq<bool>, i: nat)
    requires i <= |flags|
    requires forall j | 0 <= j < |flags| :: flags[j]
    ensures |Segments(flags, i)| == |flags| - i
    ensures forall n | 0 <= n < |flags| - i :: Segments(flags, i)[n] == Differs(i + n)
    decreases |flags| - i
  {
    if i < |flags| {
      AllDiffersOnePerBlock(flags, i + 1);
      var segs := Segments(flags, i);
      assert segs[1..] == Segments(flags, i + 1);
      forall n | 0 <= n < |flags| - i ensures segs[n] == Differs(i + n) {
        if n > 0 {
          assert segs[n] == segs[1..][n - 1];
        }
      }
    }
  }

  /** A maximal run j..k of identical blocks (the block before it, if any,
      differs, and so does the block after it, if any) is one segment of the
      decomposition from any block at or before j. */
  lemma {:induction false} MaximalRunSegment(flags: seq<bool>, i: nat, j: nat, k: nat)
    requires i <= j <= k < |flags|
    requires forall b | j <= b <= k :: !flags[b]
    requires j == 0 || flags[j - 1]
    requires k + 1 == |flags| || flags[k + 1]
    ensures Same(j, k) in Segments(flags, i)
    decreases j - i
  {
    var segs := Segments(flags, i);
    if i == j {
      RunEndShared(flags, j, k);
      assert segs[0] == Same(j, k);
    } else {
      var next := if flags[i] then i + 1 else RunEnd(flags, i);
      assert next <= j;
      MaximalRunSegment(flags, next, j, k);
      assert segs == [segs[0]] + Segments(flags, next);
    }
  }

  /** When the last block is identical, the decomposition ends with the run of
      identical blocks that holds it. */
  lemma {:induction false} LastSegment(flags: seq<bool>, i: nat)
    requires i < |flags| && !flags[|flags| - 1]
    ensures Segments(flags, i) != []
    ensures Segments(flags, i)[|Segments(flags, i)| - 1].Same?
    ensures Segments(flags, i)[|Segments(flags, i)| - 1].last == |flags| - 1
    decreases |flags| - i
  {
    var segs := Segments(flags, i);
    var next := if flags[i] then i + 1 else RunEnd(flags, i);
    assert segs == [segs[0]] + Segments(flags, next);
    if next < |flags| {
      LastSegment(flags, next);
    }
  }
}
