/** Block geometry of the scan: how a byte range of length `size` is cut into
    blocks of `bs` bytes (the source fixes `bs` at BLOCK_SIZE = 4096), the last
    one possibly short. */
module Blocks {

  /** The block size the program is built with (read-compare-copy.c:20). */
  const BLOCK_SIZE: nat := 4096

  /** Number of blocks: one per started stretch of bs bytes, so the ceiling of
      size / bs, and 0 for an empty file. */
  function BlockCount(size: nat, bs: nat): (n: nat)
    requires bs > 0
    ensures size <= n * bs
    ensures n > 0 ==> (n - 1) * bs < size
    ensures n == 0 <==> size == 0
    decreases size
  {
    if size == 0 then 0
    else if size <= bs then 1
    else
      var n' := BlockCount(size - bs, bs);
      assert (n' + 1) * bs == n' * bs + bs;
      1 + n'
  }

  /** bs * (q + 1) is bs * q plus one more block. */
  lemma MulStep(bs: nat, q: nat)
    ensures bs * (q + 1) == bs * q + bs
  {
  }

  /** A size of q full blocks and r < bs more bytes has q blocks, plus one for
      a partial tail. */
  lemma {:induction false} CountOfSplit(q: nat, r: nat, bs: nat)
    requires bs > 0 && r < bs
    ensures BlockCount(bs * q + r, bs) == q + (if r != 0 then 1 else 0)
  {
    if q > 0 {
      MulStep(bs, q - 1);
      if bs * q + r > bs {
        CountOfSplit(q - 1, r, bs);
        assert bs * q + r - bs == bs * (q - 1) + r;
      }
    }
  }

  /** The source's formula for the block count, size / bs plus one for a
      partial tail (read-compare-copy.c:56), is the ceiling of size / bs. */
  lemma BlockCountFormula(size: nat, bs: nat)
    requires bs > 0
    ensures BlockCount(size, bs) == size / bs + (if size % bs != 0 then 1 else 0)
  {
    var q, r := size / bs, size % bs;
    assert size == bs * q + r;
    CountOfSplit(q, r, bs);
  }

  /** block_count as the source computes it, size / BLOCK_SIZE plus one for a
      partial tail (read-compare-copy.c:56). */
  method ComputeBlockCount(size: nat, bs: nat) returns (n: nat)
    requires bs > 0
    ensures n == BlockCount(size, bs)
  {
    n := size / bs + (if size % bs != 0 then 1 else 0);
    BlockCountFormula(size, bs);
  }

  /** First byte of block i (read-compare-copy.c:67), in unbounded integers. */
  function BlockOffset(bs: nat, i: nat): nat
  {
    bs * i
  }

  /** Length of block i: every block but the last is full, and the last one
      runs to the end of the file, so it is never empty. */
  function BlockLength(size: nat, bs: nat, i: nat): (len: nat)
    requires bs > 0 && i < BlockCount(size, bs)
    ensures 0 < len <= bs
    ensures i + 1 < BlockCount(size, bs) ==> len == bs
    ensures i + 1 == BlockCount(size, bs) ==> BlockOffset(bs, i) + len == size
    ensures BlockOffset(bs, i) + len <= size
  {
    var n := BlockCount(size, bs);
    assert i + 1 < n ==> bs * i + bs == bs * (i + 1) <= bs * (n - 1);
    if i + 1 == n then size - BlockOffset(bs, i) else bs
  }

  /** The source's length formula (read-compare-copy.c:64-66) with its zero
      remainder read as a full block: BLOCK_SIZE for all but the last block, and
      for the last one size - BLOCK_SIZE * (size / BLOCK_SIZE), or BLOCK_SIZE
      when that is 0. The source as written keeps the 0; see
      BlockLengthAsWritten. */
  lemma BlockLengthFormula(size: nat, bs: nat, i: nat)
    requires bs > 0 && i < BlockCount(size, bs)
    ensures BlockLength(size, bs, i) ==
      if i == BlockCount(size, bs) - 1 then
        (var rem := size - bs * (size / bs); if rem == 0 then bs else rem)
      else bs
  {
    if i == BlockCount(size, bs) - 1 {
      LastBlockLength(size, bs);
    }
  }

  /** The last block is the remainder of size / bs, or a full block when that
      remainder is 0. */
  lemma LastBlockLength(size: nat, bs: nat)
    requires bs > 0 && size > 0
    ensures size - bs * (size / bs) == size % bs
    ensures BlockLength(size, bs, BlockCount(size, bs) - 1) == if size % bs == 0 then bs else size % bs
  {
    var q, r := size / bs, size % bs;
    assert size == bs * q + r;
    CountOfSplit(q, r, bs);
    var i := BlockCount(size, bs) - 1;
    if r == 0 {
      MulStep(bs, i);
    }
  }

  /** One past the last byte of block i. */
  function BlockEnd(size: nat, bs: nat, i: nat): (e: nat)
    requires bs > 0 && i < BlockCount(size, bs)
    ensures BlockOffset(bs, i) < e <= size
  {
    BlockOffset(bs, i) + BlockLength(size, bs, i)
  }

  lemma {:induction false} MulMonotone(bs: nat, a: nat, b: nat)
    requires a <= b
    ensures bs * a <= bs * b
  {
    if a < b {
      MulMonotone(bs, a, b - 1);
      assert bs * b == bs * (b - 1) + bs;
    }
  }

  /** The offset one past the last block is at or beyond the end. */
  lemma BlocksEnd(size: nat, bs: nat)
    requires bs > 0
    ensures size <= BlockOffset(bs, BlockCount(size, bs))
  {
    var n := BlockCount(size, bs);
    assert size <= n * bs;
    assert n * bs == bs * n;
  }

  /** Consecutive blocks abut, and block offsets grow with the index. */
  lemma BlocksAbut(size: nat, bs: nat, i: nat, j: nat)
    requires bs > 0 && i <= j < BlockCount(size, bs)
    ensures BlockOffset(bs, i) <= BlockOffset(bs, j)
    ensures j + 1 < BlockCount(size, bs) ==> BlockEnd(size, bs, j) == BlockOffset(bs, j + 1)
    ensures j + 1 == BlockCount(size, bs) ==> BlockEnd(size, bs, j) == size
    ensures BlockEnd(size, bs, j) <= BlockOffset(bs, j + 1)
  {
    MulMonotone(bs, i, j);
    assert bs * (j + 1) == bs * j + bs;
  }

  /** k / bs is the b with bs * b <= k < bs * b + bs. */
  lemma DivUnique(k: nat, bs: nat, b: nat)
    requires bs > 0 && bs * b <= k < bs * b + bs
    ensures k / bs == b
  {
    var q, r := k / bs, k % bs;
    assert k == bs * q + r;
    if q < b {
      MulMonotone(bs, q + 1, b);
      MulStep(bs, q);
      assert false;
    } else if q > b {
      MulMonotone(bs, b + 1, q);
      MulStep(bs, b);
      assert false;
    }
  }

  /** Every byte k < size lies in exactly one block, block k / bs: the blocks
      partition [0, size) (read-compare-copy.c:63-67). */
  lemma BlocksCover(size: nat, bs: nat, k: nat, i: nat)
    requires bs > 0 && k < size && i < BlockCount(size, bs)
    ensures k / bs < BlockCount(size, bs)
    ensures BlockOffset(bs, i) <= k < BlockEnd(size, bs, i) <==> i == k / bs
  {
    var n := BlockCount(size, bs);
    BlocksAbut(size, bs, n - 1, n - 1);
    var b := BlockWithin(size, bs, k, 0, n - 1);
    DivUnique(k, bs, b);
    if i < b {
      BlocksAbut(size, bs, i, i);
      BlocksAbut(size, bs, i + 1, b);
    } else if b < i {
      BlocksAbut(size, bs, b, b);
      BlocksAbut(size, bs, b + 1, i);
    }
  }

  /** Distinct blocks start at distinct offsets. */
  lemma OffsetInjective(bs: nat, i: nat, j: nat)
    requires bs > 0 && BlockOffset(bs, i) == BlockOffset(bs, j)
    ensures i == j
  {
  }

  /** A byte inside the span of blocks f..l lies in one of those blocks. */
  lemma {:induction false} BlockWithin(size: nat, bs: nat, k: nat, f: nat, l: nat) returns (b: nat)
    requires bs > 0 && f <= l < BlockCount(size, bs)
    requires BlockOffset(bs, f) <= k < BlockEnd(size, bs, l)
    ensures f <= b <= l && BlockOffset(bs, b) <= k < BlockEnd(size, bs, b)
    decreases l - f
  {
    if f == l || k < BlockEnd(size, bs, f) {
      b := f;
    } else {
      BlocksAbut(size, bs, f, f);
      b := BlockWithin(size, bs, k, f + 1, l);
    }
  }

  /** The last block's length exactly as the source computes it: the remainder
      size - BLOCK_SIZE * (size / BLOCK_SIZE), with no zero test
      (read-compare-copy.c:64-66). */
  function BlockLengthAsWritten(size: nat, bs: nat, i: nat): nat
    requires bs > 0 && i < BlockCount(size, bs)
  {
    if i == BlockCount(size, bs) - 1 then size - bs * (size / bs) else bs
  }

  /** When bs divides a non-empty size, the as-written last block is empty, so
      the last byte of the file lies in no block the loop reads, compares or
      copies. */
  lemma LastBlockEmptyAsWritten(size: nat, bs: nat)
    requires bs > 0 && size > 0 && size % bs == 0
    ensures BlockLengthAsWritten(size, bs, BlockCount(size, bs) - 1) == 0
    ensures forall i | 0 <= i < BlockCount(size, bs) ::
      !(BlockOffset(bs, i) <= size - 1 < BlockOffset(bs, i) + BlockLengthAsWritten(size, bs, i))
  {
    var n := BlockCount(size, bs);
    var q := size / bs;
    assert size == bs * q;
    CountOfSplit(q, 0, bs);
    MulStep(bs, n - 1);
    forall i | 0 <= i < n - 1
      ensures BlockOffset(bs, i) + bs <= size - 1
    {
      BlocksAbut(size, bs, i + 1, n - 1);
      MulStep(bs, i);
    }
  }

  /** Two 8192-byte files: the as-written second block has length 0, where the
      corrected rule gives a full block. */
  lemma LastBlockEmptyAsWrittenExample()
    ensures BlockCount(8192, BLOCK_SIZE) == 2
    ensures BlockLengthAsWritten(8192, BLOCK_SIZE, 1) == 0
    ensures BlockLength(8192, BLOCK_SIZE, 1) == BLOCK_SIZE
  {
  }

  /** Two's-complement reduction to a C `int` (32 bits). */
  function Int32(x: int): (r: int)
    ensures -0x8000_0000 <= r < 0x8000_0000
    ensures (r - x) % 0x1_0000_0000 == 0
  {
    (x + 0x8000_0000) % 0x1_0000_0000 - 0x8000_0000
  }

  /** Offset of block i as the source computes it: BLOCK_SIZE * block_index is a
      product of two `int`s (read-compare-copy.c:67, and likewise :75, :96),
      evaluated in 32 bits before it is widened to off_t. */
  function OffsetAsWritten(i: nat): int
  {
    Int32(BLOCK_SIZE * i)
  }

  /** Block 524288 of a file over 2 GiB starts at byte 2^31; the as-written
      offset is negative. */
  lemma OffsetAsWrittenOverflows()
    ensures BlockCount(0x8000_0001, BLOCK_SIZE) == 524289
    ensures BlockOffset(BLOCK_SIZE, 524288) == 0x8000_0000
    ensures OffsetAsWritten(524288) == -0x8000_0000
  {
  }
}
