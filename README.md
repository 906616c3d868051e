# read-compare-copy: a verified model of the block synchroniser

`read-compare-copy` brings a destination file in line with a source file of
the same size by rewriting only the blocks that differ. The file is cut into
blocks of `BLOCK_SIZE` = 4096 bytes, and the last block may be short. Each block
is read from both files at the same offset and compared. A differing block is
written from the source into the destination, printed as "Writing bytes a to
b" and counted in `blocks_written`. Identical blocks are gathered into an open
skip run, held in `skip_first_index` / `skip_last_index` with `-1` meaning
none. That run is printed once, as "Skipping bytes a to b", when the next
differing block or the last block is reached. A summary of blocks written and
the percentage saved follows.

The model is in Dafny, in six modules:

- `Blocks` (blocks.dfy) covers the block geometry: the block count, each
  block's offset and length, and how the blocks tile the file. It also holds
  the as-written length and offset of two of the findings below.
- `Runs` (runs.dfy) holds the per-block flags (true means the block differs)
  and their reference decomposition `Segments` into maximal identical runs
  and single differing blocks.
- `Events` (events.dfy) covers the reported events `Skip(first, last)` and
  `Write(first, last)` in byte offsets, with inclusive bounds as printed. It
  proves that they tile the file.
- `Scan` (scan.dfy) is the loop's bookkeeping as a state machine over the
  flags: the open skip run, the reports so far and `blocks_written`. Its
  invariant states that the reports so far, followed by the reference reports
  from the resume point on, are the reference reports of the whole file.
- `Sync` (sync.dfy) is the imperative program:
  - `Synchronize` runs the `for` loop over a read-only `src` array and a `dst`
    array updated in place.
  - `SyncBlock` does one block's reads, compare and `pwrite`.
  - `RecordBlock` does one block's bookkeeping.
  - `Synchronize` is proved to return `ScanOf` of the initial contents and to
    leave `dst` equal to `src`.
- `Properties` (properties.dfy) proves what the program promises about
  `ScanOf`: counts, which blocks are written, maximal skips, tiling, and
  idempotence.

The block size is a positive parameter `bs`; the program uses `BLOCK_SIZE`.
Offsets and counts are unbounded integers. The 32-bit `int` arithmetic of the
source is modelled separately, in the third finding.

The code reports every differing block on its own "Writing" line (line 81): it
has no write runs. The system's design description says that adjacent
differing blocks merge into one written run, and that a full rewrite is
reported as one write run. This model follows the code: `AllBlocksDiffer` proves
one write report per block. The description also puts 100% saved for
identical files. The code gives 0.0 when `blocks_written == block_count`
(lines 107-109), and that includes an empty file, where both are 0. This model
follows the code there as well.

## Model

| member | source | states |
|---|---|---|
| Blocks.BlockCount | read-compare-copy.c:56 | The block count n is the ceiling of size / bs: size <= n * bs, (n - 1) * bs < size, and n is 0 exactly for an empty file. |
| Blocks.CountOfSplit | read-compare-copy.c:56 | A size of q full blocks plus r < bs bytes has q blocks, plus one when r is not 0. |
| Blocks.BlockCountFormula | read-compare-copy.c:56 | The source's `size / BLOCK_SIZE + (size % BLOCK_SIZE != 0)` equals the block count. |
| Blocks.ComputeBlockCount | read-compare-copy.c:56 | Computing block_count with the source's division formula yields BlockCount. |
| Blocks.BlockLength | read-compare-copy.c:64-66 | A block length is between 1 and bs. Every block but the last is full. The last block ends exactly at the end of the file, and no block runs past it. |
| Blocks.BlockLengthFormula | read-compare-copy.c:64-66 | The length equals the source's count expression, with a zero remainder read as a full block. |
| Blocks.LastBlockLength | read-compare-copy.c:64-66 | `size - BLOCK_SIZE * (size / BLOCK_SIZE)` is size % bs. The last block is that remainder, or a full block when the remainder is 0. |
| Blocks.BlockEnd | read-compare-copy.c:81 | `offset + count` lies beyond the block's first byte and at most at the end of the file. |
| Blocks.BlocksEnd | read-compare-copy.c:63 | The offset one past the last block is at or beyond the end of the file. |
| Blocks.BlocksAbut | read-compare-copy.c:63-67 | Offsets grow with the index. Each block ends where the next begins, and the last ends at size. |
| Blocks.BlocksCover | read-compare-copy.c:63-67 | Byte k < size lies in block i iff i == k / bs, and that block exists: the blocks partition [0, size). |
| Blocks.BlockWithin | read-compare-copy.c:63-67 | A byte inside the span of blocks f..l lies inside one of those blocks. |
| Blocks.OffsetInjective | read-compare-copy.c:67 | Distinct blocks have distinct offsets. |
| Blocks.LastBlockEmptyAsWritten | read-compare-copy.c:64-66 | As written, when bs divides a non-empty size, the last block's count is 0, and the last byte of the file lies in no block. |
| Blocks.LastBlockEmptyAsWrittenExample | read-compare-copy.c:64-66 | For 8192-byte files, the as-written second block is empty, while the corrected one is full. |
| Blocks.Int32 | read-compare-copy.c:67 | The reduction to a C `int` lies in [-2^31, 2^31) and is congruent to its argument modulo 2^32. |
| Blocks.OffsetAsWrittenOverflows | read-compare-copy.c:67 | In a file of 2^31 + 1 bytes, block 524288 starts at byte 2^31, but the 32-bit product `BLOCK_SIZE * block_index` gives -2^31. |
| Runs.RunEnd | read-compare-copy.c:86-91 | The run of identical blocks starting at i ends at the first differing block after it, or at the end. |
| Runs.Segments | read-compare-copy.c:74-91 | The decomposition lists segments in ascending blocks, all inside the file. |
| Runs.CountTrue | read-compare-copy.c:84 | The number of differing blocks is at most the number of blocks. |
| Runs.CountTrueExtremes | read-compare-copy.c:84 | The count is 0 iff no block differs, and it is the block count iff every block differs. |
| Runs.SegmentsTile | read-compare-copy.c:63-102 | The segments cover the blocks one after the other, without gap or overlap. |
| Runs.SegmentsClassify | read-compare-copy.c:74-91 | Each Differs segment is a differing block. Each Same segment is a run of identical blocks that cannot be extended on either side, and only a Differs segment follows it. |
| Runs.DiffersIff | read-compare-copy.c:73 | A block differs iff it is a Differs segment. |
| Runs.NumDiffersCount | read-compare-copy.c:84 | There are as many Differs segments as differing blocks. |
| Runs.AllSameOneRun | read-compare-copy.c:86-100 | With no differing block, the decomposition is one run over every block. |
| Runs.AllDiffersOnePerBlock | read-compare-copy.c:81 | With every block differing, segment n is block n: writes are never merged. |
| Runs.MaximalRunSegment | read-compare-copy.c:74-91 | A maximal run j..k of identical blocks is a segment. |
| Runs.LastSegment | read-compare-copy.c:94-100 | When the last block is identical, the last segment is the run that holds it and ends at the last block. |
| Events.ToReport | read-compare-copy.c:25-27 | A segment's report is a skip iff the segment is an identical run. Its inclusive byte range lies inside the file. |
| Events.ReportsAt | read-compare-copy.c:63-102 | There is one report per segment, in the same order. |
| Events.TilesOrdered | read-compare-copy.c:63-102 | A tiling stays inside its range, ascends strictly without overlap, and covers every byte of the range. |
| Events.ReportsTileBytes | read-compare-copy.c:63-102 | The reports of segments that tile blocks lo.. tile the bytes from the offset of block lo to the end. |
| Events.ReportsTile | read-compare-copy.c:63-102 | The reports of the whole decomposition tile [0, size). |
| Events.EmitWrite | read-compare-copy.c:81 | A differing block is reported as `Write(offset, offset + count - 1)`. |
| Events.EmitSkipBeforeWrite | read-compare-copy.c:74-79 | A run f..i-1 that ends at a differing block i is one skip, `Skip(BLOCK_SIZE*f, BLOCK_SIZE*i - 1)`. |
| Events.EmitFinalSkip | read-compare-copy.c:94-100 | A run reaching the last block is one skip ending at size - 1. |
| Events.NumWritesReports | read-compare-copy.c:81-84 | There are as many write reports as Differs segments. |
| Events.TilesLast | read-compare-copy.c:94-100 | A non-empty tiling of [lo, hi) ends at hi - 1. |
| Events.LastReportSkip | read-compare-copy.c:94-100 | When the last block is identical, the last report is a skip ending at size - 1. |
| Events.MaximalRunSkip | read-compare-copy.c:74-79 | A maximal identical run j..k is reported as a skip from block j's first byte to block k's last byte. |
| Events.AllWrites | read-compare-copy.c:81 | With every block differing, report i is the write of block i. |
| Scan.FlushBeforeWrite | read-compare-copy.c:74-79 | Flushing the open run before a differing block keeps the reports on course for the reference reports. |
| Scan.WriteAfterFlush | read-compare-copy.c:81 | Reporting the differing block after the flush keeps them on course from the next block. |
| Scan.StepWrite | read-compare-copy.c:73-84 | A differing block preserves the loop invariant: flush, write, count, and no run open. |
| Scan.StepOnWrite | read-compare-copy.c:74-84 | A differing block leaves no run open, appends the flushed skip (if any) and the write, and counts one. |
| Scan.StepOnSame | read-compare-copy.c:86-100 | An identical block opens or extends the run. At the last block the run is reported up to size - 1 and closed. |
| Scan.StepSame | read-compare-copy.c:86-100 | An identical block preserves the loop invariant. |
| Scan.ScanPrefixInvariant | read-compare-copy.c:63-102 | After every prefix of blocks: an open run holds only identical blocks and ends at the last one scanned; no run is open after the last block; blocks_written counts the differing blocks so far; and the reports so far extend to the reference reports. |
| Scan.ScanComplete | read-compare-copy.c:63-102 | After the last block no run is open, the reports are the reference reports, and blocks_written is the number of differing blocks. |
| Sync.BlockDiffersIff | read-compare-copy.c:73 | A block differs iff one of its own bytes differs. |
| Sync.FlagsAt | read-compare-copy.c:73 | Flag i is whether block i differs. |
| Sync.PWrite | read-compare-copy.c:82 | The buffer's bytes land at [offset, offset + count), and every other byte is unchanged. |
| Sync.SyncedWrite | read-compare-copy.c:82 | Copying the source's bytes of a range extends the in-line prefix over that range. |
| Sync.SyncedNextBlock | read-compare-copy.c:63-67 | In line up to the end of block i is in line up to the start of block i + 1. |
| Sync.SyncedBlockStep | read-compare-copy.c:82 | Bringing block i in line changes no byte outside it, and gives the block the source's bytes. |
| Sync.SyncedSame | read-compare-copy.c:73 | A range whose bytes already agree needs no copy. |
| Sync.SyncBlock | read-compare-copy.c:64-84 | One block is read, compared over its own count bytes and, if it differs, written. Afterwards: the result is whether the block differed; src is unchanged; dst is in line up to the next block; no byte outside the block changed. |
| Sync.RecordBlock | read-compare-copy.c:74-100 | One block's bookkeeping performs one Step of the state machine. |
| Sync.Synchronize | read-compare-copy.c:54-102 | On a size mismatch, fails before any write. Otherwise returns the block count, the number of differing blocks and the reference reports, and leaves dst equal to src; src is never changed. |
| Sync.PercentSaved | read-compare-copy.c:107-109 | The result lies within [0, 100]. It is 0 when every block is written; otherwise it is 100 times the share of blocks skipped. |
| Sync.ReadInto | read-compare-copy.c:68-69 | pread fills the first count bytes of the buffer from the file and leaves the rest as they were. |
| Sync.SameAsWrittenSound | read-compare-copy.c:73 | The full-width compare never misses a differing block. |
| Sync.StaleCompareExample | read-compare-copy.c:73 | With 4106-byte files differing only in byte 4095, the full-width compare flags the identical 10-byte last block after stale bytes of block 0. |
| Properties.WrittenCount | read-compare-copy.c:56-84 | blocks_written is the number of write reports and at most block_count. It is 0 iff no block differs, and block_count iff every block differs. |
| Properties.WriteIffDiffers | read-compare-copy.c:73-82 | Block i is reported written, over exactly its bytes, iff it differs. |
| Properties.WriteReportsAreBlocks | read-compare-copy.c:81 | Every write report is the byte range of one differing block. |
| Properties.SkipReportsIdentical | read-compare-copy.c:74-91 | Every skip covers bytes equal in both files. Only writes surround it, so no two skips are adjacent. |
| Properties.SkipBytesAgree | read-compare-copy.c:73 | The bytes of a run of identical blocks agree. |
| Properties.MaximalRunReported | read-compare-copy.c:74-100 | A maximal identical run j..k is reported as `Skip(BLOCK_SIZE*j, BLOCK_SIZE*(k+1) - 1)`, or as ending at size - 1 when k is the last block. |
| Properties.ReportsTileFile | read-compare-copy.c:63-102 | The reports tile [0, size). They ascend strictly, do not overlap and cover every byte, and the last one ends at size - 1. |
| Properties.FinalSkip | read-compare-copy.c:94-100 | When the last block is identical, the last report is a skip ending at size - 1. |
| Properties.SecondRunNoWrites | read-compare-copy.c:54-84 | On equal contents, what dst holds after Synchronize, nothing is written and the report is one skip of the whole file (none for an empty file). |
| Properties.AllBlocksDiffer | read-compare-copy.c:81-84 | When every block differs, all are written, one write report per block, in order. |
| Properties.ThreeBlockExample | read-compare-copy.c:56-109 | For 12288-byte files differing in block 1 only, the reports are [Skip(0, 4095), Write(4096, 8191), Skip(8192, 12287)] with 1 of 3 written and 200/3 % saved. |

## Left out

- Argument checking and the usage message (lines 31-34) are left out: they are command-line handling.
- open, fstat and close (lines 39-52, 104-105) are left out: they are OS I/O. The files are two byte arrays, and their sizes are the array lengths.
- The equal-size check (line 54) is the error result `Failed(SizeMismatch)`, returned before any write, in place of an abort.
- The abort of `TODO_ASSERT` on short reads and writes (lines 70-71, 83) is left out: reads and writes on arrays always move `count` bytes.
- `printf` formatting (lines 26, 81, 111) is left out: reports are `Skip`/`Write` events carrying the printed offsets, in print order.
- The C stack buffers of lines 44-45 are not kept across iterations in `SyncBlock`: it reads the block into fresh sequences of `count` bytes. Stale buffer contents appear only in the as-written compare (`ReadInto`, `SameAsWritten`).
- PercentSaved: computed on `real`, so it does not model the rounding of `double` arithmetic or the `%.2f` output.
- `Synchronize` implements the corrected behaviour of the three findings below: a compare limited to the bytes read, a full last block, and unbounded offsets. The as-written behaviour is modelled only by the members named in the table below.

## Findings

| source | as written | input that shows it | evidently intended | confidence | as-written member | corrected member |
|---|---|---|---|---|---|---|
| read-compare-copy.c:73 | `memcmp(buf_src, buf_dst, BLOCK_SIZE)` compares the whole 4096-byte buffers even when only `count` bytes were read, so stale bytes of an earlier block take part | two 4106-byte files equal except byte 4095: block 0 differs; block 1 (10 bytes) is identical but is still copied and reported, because both buffers keep block 0's byte 4095 | compare only the `count` bytes of the block | not executed | Sync.StaleCompareExample | Sync.BlockDiffersIff |
| read-compare-copy.c:64-66 | the last block's count is `size - BLOCK_SIZE * (size / BLOCK_SIZE)`, which is 0 when BLOCK_SIZE divides size | two 8192-byte files: block 1 gets count 0, so bytes 4096-8191 are never read, compared or copied, and whatever block 1 reports ends at byte 4096 + 0 - 1 = 4095 | a full block when the remainder is 0 | not executed | Blocks.LastBlockEmptyAsWritten | Blocks.BlockLengthFormula |
| read-compare-copy.c:67 | `BLOCK_SIZE * block_index` (and the products on lines 75-76 and 96) is an `int` product, evaluated in 32 bits before widening to off_t | a file of 2^31 + 1 bytes: block 524288 should start at 2^31, but the product overflows (undefined behaviour; -2^31 on two's-complement wrap) | compute offsets in off_t | not executed | Blocks.OffsetAsWrittenOverflows | Blocks.BlocksCover |
