/**
 * The paced DRAM transfer engine of the memory benchmark: one engine moves a
 * volume of bytes block by block, waiting before each block for a deadline
 * computed from a fixed origin and the target rate, counts the bytes of the
 * blocks whose deadline had already passed, and applies one of four block
 * operations to a pair of buffers. The station/stage table and the summary
 * of the reports are modelled too; the threads that run the engines side by
 * side are not.
 */
module MemTest {
  import opened Timevals
  import EthParams

  /** Total number of packets each input stage processes. */
  const NR_PACKETS: nat := 1024 * 1024
  /** Number of simulated stations. */
  const NR_STATIONS: nat := 18
  /** Number of pipeline stages per station. */
  const NR_STEPS: nat := 10
  /** Input blocks hold this many 9000-byte packets... */
  const UDP_BUFFER_SIZE: nat := 128
  /** ...and processing blocks this many. */
  const PROCESSING_BUFFER_SIZE: nat := 1024
  /** The output stages move this much less data, at this much less rate. */
  const REDUCTION_FACTOR: nat := 2
  /** Size of the chunks the transpose reorders, in elements. */
  const XPOSE_CHUNK: nat := 9000
  /** `sizeof(int)`: the buffers are arrays of this many-byte ints. */
  const INT_SIZE: nat := 4
  /** The int whose four bytes are all 42: what `memset(buf, 42, ...)` leaves in every element. */
  const FILL: int := 0x2A2A2A2A

  /** `transfer_t` */
  datatype Transfer = Read | Write | Copy | Transpose

  /** The operation reads the input buffer. */
  predicate ReadsInput(op: Transfer) {
    op != Write
  }

  /** The operation writes the output buffer. */
  predicate WritesOutput(op: Transfer) {
    op != Read
  }

  /** `nr_operations` of a report: the number of buffers the operation moves data through. */
  function NrOperations(op: Transfer): (r: nat)
    ensures r == (if ReadsInput(op) then 1 else 0) + (if WritesOutput(op) then 1 else 0)
    ensures 1 <= r <= 2
  {
    if op == Read || op == Write then 1 else 2
  }

  // ---------------------------------------------------------------------------
  // Deadlines
  // ---------------------------------------------------------------------------

  /**
   * Microseconds from the origin to the deadline of the block that ends at
   * `offset` bytes: the time `offset` bytes take at `bitsPerSec`, rounded down.
   */
  function DeadlineOffset(offset: nat, bitsPerSec: nat): nat
    requires bitsPerSec > 0
  {
    8 * USEC_PER_SEC * offset / bitsPerSec
  }

  /** The offset is the exact time the bytes take, rounded down to whole microseconds. */
  lemma DeadlineOffsetRounds(offset: nat, bitsPerSec: nat)
    requires bitsPerSec > 0
    ensures var d := DeadlineOffset(offset, bitsPerSec);
      d * bitsPerSec <= 8 * USEC_PER_SEC * offset < (d + 1) * bitsPerSec
  {
    var x := 8 * USEC_PER_SEC * offset;
    DivModUnique(x, bitsPerSec, x / bitsPerSec, x % bitsPerSec);
  }

  /** The deadline of the block that ends at `offset`, always counted from the fixed origin. */
  function BlockDeadline(origin: Timeval, offset: nat, bitsPerSec: nat): (t: Timeval)
    requires bitsPerSec > 0
    ensures Micros(t) == Micros(origin) + DeadlineOffset(offset, bitsPerSec)
    ensures Normalised(origin) ==> Normalised(t)
  {
    Added(origin, DeadlineOffset(offset, bitsPerSec))
  }

  lemma MulLess(a: int, b: int, c: int)
    requires c > 0 && a * c < b * c
    ensures a < b
  {
  }

  /** Later blocks never have earlier deadlines. */
  lemma DeadlineMonotone(origin: Timeval, offset1: nat, offset2: nat, bitsPerSec: nat)
    requires bitsPerSec > 0 && offset1 <= offset2
    ensures Micros(BlockDeadline(origin, offset1, bitsPerSec)) <= Micros(BlockDeadline(origin, offset2, bitsPerSec))
  {
    var d1, d2 := DeadlineOffset(offset1, bitsPerSec), DeadlineOffset(offset2, bitsPerSec);
    DeadlineOffsetRounds(offset1, bitsPerSec);
    DeadlineOffsetRounds(offset2, bitsPerSec);
    MulLess(d1, d2 + 1, bitsPerSec);
  }

  /**
   * `wait_for_packet(first_packet_timestamp, offset, rate)` when the clock
   * inside `wait_until` reads `now`: 1 if the block's deadline has passed.
   */
  method WaitForPacket(origin: Timeval, offset: nat, bitsPerSec: nat, now: Timeval) returns (late: int)
    requires bitsPerSec > 0
    ensures late == 1 <==> After(now, BlockDeadline(origin, offset, bitsPerSec))
    ensures late == 0 <==> !After(now, BlockDeadline(origin, offset, bitsPerSec))
  {
    var next := new Stamp(origin);
    next.Add(8 * USEC_PER_SEC * offset / bitsPerSec);
    late := WaitUntil(next.Value(), now).result;
  }

  // ---------------------------------------------------------------------------
  // Block operations
  // ---------------------------------------------------------------------------

  /** The sum of a sequence of ints, taken from the front as the read loop does. */
  function Sum(s: seq<int>): int {
    if s == [] then 0 else Sum(s[..|s| - 1]) + s[|s| - 1]
  }

  /** READ: sum every element of the input block; neither buffer is written. */
  method ReadBlock(input: array<int>) returns (sum: int)
    ensures sum == Sum(input[..])
  {
    sum := 0;
    var i := 0;
    while i < input.Length
      invariant 0 <= i <= input.Length
      invariant sum == Sum(input[..i])
    {
      assert input[..i + 1][..i] == input[..i];
      sum := sum + input[i];
      i := i + 1;
    }
    assert input[..i] == input[..];
  }

  /** WRITE: `memset(output, 42, block_size)`. */
  method WriteBlock(output: array<int>)
    modifies output
    ensures forall i :: 0 <= i < output.Length ==> output[i] == FILL
  {
    forall i | 0 <= i < output.Length {
      output[i] := FILL;
    }
  }

  /** COPY: `memcpy(output, input, block_size)`. */
  method CopyBlock(input: array<int>, output: array<int>)
    requires input != output && input.Length == output.Length
    modifies output
    ensures output[..] == input[..]
    ensures input[..] == old(input[..])
  {
    forall i | 0 <= i < output.Length {
      output[i] := input[i];
    }
  }

  /** The chunk that chunk `i` of the output is copied from, out of `n`. */
  function Stride(i: nat, n: nat): (j: nat)
    requires n > 0
    ensures j < n
  {
    (i * 7) % n
  }

  /** Chunk `i` of a buffer. */
  function Chunk(s: seq<int>, i: nat): seq<int>
    requires (i + 1) * XPOSE_CHUNK <= |s|
  {
    s[i * XPOSE_CHUNK .. (i + 1) * XPOSE_CHUNK]
  }

  /** One `memcpy` of the transpose: the chunk at `from` in the input to `to` in the output. */
  method CopyChunk(input: array<int>, output: array<int>, from: nat, to: nat)
    requires input != output && from + XPOSE_CHUNK <= input.Length && to + XPOSE_CHUNK <= output.Length
    modifies output
    ensures output[to .. to + XPOSE_CHUNK] == input[from .. from + XPOSE_CHUNK]
    ensures forall k :: 0 <= k < output.Length && !(to <= k < to + XPOSE_CHUNK) ==> output[k] == old(output[k])
  {
    forall j | 0 <= j < XPOSE_CHUNK {
      output[to + j] := input[from + j];
    }
  }

  /**
   * TRANSPOSE: with `n` whole chunks in the block, chunk `i` of the output
   * becomes chunk `7i mod n` of the input; the elements past the last whole
   * chunk keep their value.
   */
  method TransposeBlock(input: array<int>, output: array<int>)
    requires input != output && input.Length == output.Length
    modifies output
    ensures forall i :: 0 <= i < output.Length / XPOSE_CHUNK ==>
      Chunk(output[..], i) == Chunk(input[..], Stride(i, output.Length / XPOSE_CHUNK))
    ensures forall k :: output.Length / XPOSE_CHUNK * XPOSE_CHUNK <= k < output.Length ==> output[k] == old(output[k])
    ensures input[..] == old(input[..])
  {
    var n := input.Length / XPOSE_CHUNK;
    var i := 0;
    while i < n
      invariant 0 <= i <= n
      invariant forall c :: 0 <= c < i ==> Chunk(output[..], c) == Chunk(input[..], Stride(c, n))
      invariant forall k :: i * XPOSE_CHUNK <= k < output.Length ==> output[k] == old(output[k])
    {
      CopyChunk(input, output, Stride(i, n) * XPOSE_CHUNK, i * XPOSE_CHUNK);
      i := i + 1;
    }
  }

  // ---------------------------------------------------------------------------
  // The transpose stride is a permutation of the chunks
  // ---------------------------------------------------------------------------

  /** Division by `n` is unique: a quotient and an in-range remainder fix `x / n` and `x % n`. */
  lemma {:induction false} DivModUnique(x: int, n: int, q: int, r: int)
    requires n > 0 && 0 <= r < n && x == q * n + r
    ensures x / n == q && x % n == r
  {
    var d := q - x / n;
    assert d * n == x % n - r;
  }

  /** Reducing a factor modulo `n` first does not change the product modulo `n`. */
  lemma {:induction false} ModMulRight(a: nat, b: nat, n: nat)
    requires n > 0
    ensures (a * (b % n)) % n == (a * b) % n
  {
    var q, r := b / n, b % n;
    assert a * b == (a * q) * n + a * r;
    DivModUnique(a * r, n, (a * r) / n, (a * r) % n);
    DivModUnique(a * b, n, a * q + (a * r) / n, (a * r) % n);
  }

  /** Multiplying by an inverse `m` of 7 modulo `n` undoes the stride. */
  lemma {:induction false} StrideUndone(i: nat, n: nat, m: nat)
    requires n > 0 && (7 * m) % n == 1 && i < n
    ensures (m * Stride(i, n)) % n == i
  {
    ModMulRight(m, i * 7, n);
    assert m * (i * 7) == i * (7 * m);
    ModMulRight(i, 7 * m, n);
    DivModUnique(i, n, 0, i);
  }

  /** The stride undoes multiplication by an inverse `m` of 7 modulo `n`. */
  lemma {:induction false} StrideReaches(j: nat, n: nat, m: nat)
    requires n > 0 && (7 * m) % n == 1 && j < n
    ensures (m * j) % n < n && Stride((m * j) % n, n) == j
  {
    ModMulRight(7, m * j, n);
    assert (m * j) % n * 7 == 7 * ((m * j) % n);
    assert 7 * (m * j) == j * (7 * m);
    ModMulRight(j, 7 * m, n);
    DivModUnique(j, n, 0, j);
  }

  /**
   * With an inverse `m` of 7 modulo `n`, the stride `i -> 7i mod n` is a
   * bijection of `0..n-1`: no two output chunks come from the same input
   * chunk, and every input chunk is copied somewhere.
   */
  lemma {:induction false} StrideBijective(n: nat, m: nat)
    requires n > 0 && (7 * m) % n == 1
    ensures forall i, j :: 0 <= i < n && 0 <= j < n && Stride(i, n) == Stride(j, n) ==> i == j
    ensures forall j :: 0 <= j < n ==> (m * j) % n < n && Stride((m * j) % n, n) == j
  {
    forall i, j | 0 <= i < n && 0 <= j < n && Stride(i, n) == Stride(j, n)
      ensures i == j
    {
      StrideUndone(i, n, m);
      StrideUndone(j, n, m);
    }
    forall j | 0 <= j < n
      ensures (m * j) % n < n && Stride((m * j) % n, n) == j
    {
      StrideReaches(j, n, m);
    }
  }

  // ---------------------------------------------------------------------------
  // The pacing loop of dram_test
  // ---------------------------------------------------------------------------

  /** The file-scope `done` flag: one flag that every engine of every station reads and sets. */
  class StopFlag {
    var done: bool

    constructor ()
      ensures !done
    {
      done := false;
    }
  }

  lemma MulLeq(a: nat, b: nat, c: nat)
    requires a <= b
    ensures a * c <= b * c
  {
  }

  /** Counts of whole blocks are multiples of the block size, ordered as the counts are. */
  lemma Multiples(k: nat, l: nat, blockSize: nat)
    requires blockSize > 0 && l <= k
    ensures (k * blockSize) % blockSize == 0 && (l * blockSize) % blockSize == 0
    ensures l * blockSize <= k * blockSize
  {
    DivModUnique(k * blockSize, blockSize, k, 0);
    DivModUnique(l * blockSize, blockSize, l, 0);
    MulLeq(l, k, blockSize);
  }

  /** One more block adds one block size to the offset, and `l` block sizes to the late count. */
  lemma StepCounts(k: nat, late: nat, l: nat, blockSize: nat)
    ensures (k + 1) * blockSize == k * blockSize + blockSize
    ensures (late + l) * blockSize == late * blockSize + l * blockSize
  {
  }

  /**
   * How many blocks an engine processes: none when the stop flag is already
   * up, otherwise the fewest blocks that cover the volume.
   */
  function Blocks(done: bool, nrBytes: nat, blockSize: nat): (n: nat)
    requires blockSize > 0
    ensures done ==> n == 0
    ensures !done ==> n * blockSize >= nrBytes && (n == 0 || (n - 1) * blockSize < nrBytes)
  {
    if done then 0
    else
      var n := (nrBytes + blockSize - 1) / blockSize;
      assert n * blockSize >= nrBytes by {
        DivModUnique(nrBytes + blockSize - 1, blockSize, n, (nrBytes + blockSize - 1) % blockSize);
      }
      n
  }

  /** The fewest blocks covering a volume: any count with that property is `Blocks`. */
  lemma {:induction false} BlocksUnique(nrBytes: nat, blockSize: nat, k: nat)
    requires blockSize > 0
    requires k * blockSize >= nrBytes && (k == 0 || (k - 1) * blockSize < nrBytes)
    ensures k == Blocks(false, nrBytes, blockSize)
  {
    var n := Blocks(false, nrBytes, blockSize);
    if k < n {
      MulLeq(k, n - 1, blockSize);
    } else if k > n {
      MulLeq(n, k - 1, blockSize);
    }
  }

  /**
   * Of the first `k` blocks, how many found the clock past their deadline:
   * block `j` ends at offset `(j + 1) * blockSize` and its wait reads `clock(j)`.
   */
  function LateBlocks(origin: Timeval, clock: nat -> Timeval, blockSize: nat, bitsPerSec: nat, k: nat): (n: nat)
    requires bitsPerSec > 0
    ensures n <= k
  {
    if k == 0 then 0
    else
      LateBlocks(origin, clock, blockSize, bitsPerSec, k - 1) +
      (if After(clock(k - 1), BlockDeadline(origin, k * blockSize, bitsPerSec)) then 1 else 0)
  }

  /** `struct report`, with the measured counts in place of the floating-point speed and percentage. */
  datatype Report = Report(desiredBitsPerSec: nat, bytes: nat, lateBytes: nat, nrOperations: nat)

  /** The `switch (operation)` of the loop body: process one block. */
  method Process(op: Transfer, input: array<int>, output: array<int>)
    requires input != output && input.Length == output.Length
    modifies output
    ensures !WritesOutput(op) ==> output[..] == old(output[..])
    ensures op == Write ==> forall i :: 0 <= i < output.Length ==> output[i] == FILL
    ensures op == Copy ==> output[..] == input[..]
    ensures op == Transpose ==> forall i :: 0 <= i < output.Length / XPOSE_CHUNK ==>
      Chunk(output[..], i) == Chunk(input[..], Stride(i, output.Length / XPOSE_CHUNK))
    ensures op == Transpose ==> forall k :: output.Length / XPOSE_CHUNK * XPOSE_CHUNK <= k < output.Length ==>
      output[k] == old(output[k])
  {
    match op {
      case Read =>
        var sum := ReadBlock(input);
      case Write =>
        WriteBlock(output);
      case Copy =>
        CopyBlock(input, output);
      case Transpose =>
        TransposeBlock(input, output);
    }
  }

  /** mem-test.c:56-60: two buffers of `count` ints, every byte set to 42. */
  method NewBuffers(count: nat) returns (input: array<int>, output: array<int>)
    ensures fresh(input) && fresh(output) && input != output
    ensures input.Length == count && output.Length == count
    ensures forall i :: 0 <= i < count ==> input[i] == FILL && output[i] == FILL
  {
    input := new int[count](_ => FILL);
    output := new int[count](_ => FILL);
  }

  /**
   * mem-test.c:73-76 for block `k` (counting from 0): advance the offset by one
   * block, wait for that offset's deadline with the clock reading `clock(k)`,
   * and add a block to the late count if it had passed.
   */
  method AdvanceAndWait(origin: Timeval, clock: nat -> Timeval, blockSize: nat, bitsPerSec: nat,
                        k: nat, offset: nat, late: nat)
    returns (nextOffset: nat, nextLate: nat)
    requires bitsPerSec > 0
    requires offset == k * blockSize && late == LateBlocks(origin, clock, blockSize, bitsPerSec, k) * blockSize
    ensures nextOffset == (k + 1) * blockSize
    ensures nextLate == LateBlocks(origin, clock, blockSize, bitsPerSec, k + 1) * blockSize
  {
    ghost var lateBefore := LateBlocks(origin, clock, blockSize, bitsPerSec, k);
    nextOffset := offset + blockSize;
    var l := WaitForPacket(origin, nextOffset, bitsPerSec, clock(k));
    nextLate := late + l * blockSize;
    StepCounts(k, lateBefore, l, blockSize);
    assert LateBlocks(origin, clock, blockSize, bitsPerSec, k + 1) == lateBefore + l;
  }

  /**
   * After `k` steps the loop holds `offset == k * blockSize` and
   * `late == LateBlocks(k) * blockSize` (`AdvanceAndWait`), so both are whole
   * numbers of blocks by their form; what this adds is that no more bytes are
   * late than were moved.
   */
  lemma PacedCounts(origin: Timeval, clock: nat -> Timeval, blockSize: nat, bitsPerSec: nat, k: nat)
    requires blockSize > 0 && bitsPerSec > 0
    ensures var late := LateBlocks(origin, clock, blockSize, bitsPerSec, k) * blockSize;
      (k * blockSize) % blockSize == 0 && late % blockSize == 0 && late <= k * blockSize
  {
    Multiples(k, LateBlocks(origin, clock, blockSize, bitsPerSec, k), blockSize);
  }

  /**
   * `dram_test`: move `nrBytes` in blocks of `blockSize` at `bitsPerSec`.
   * `origin` is the clock reading taken when the engine starts and
   * `clock(j)` the reading inside the wait before block `j`. The flag is read
   * at every loop head; when the loop ends the engine raises it.
   */
  method DramTest(op: Transfer, nrBytes: nat, blockSize: nat, bitsPerSec: nat,
                  stop: StopFlag, origin: Timeval, clock: nat -> Timeval) returns (rep: Report)
    requires blockSize > 0 && bitsPerSec > 0
    modifies stop
    ensures stop.done
    ensures var n := Blocks(old(stop.done), nrBytes, blockSize);
      rep == Report(bitsPerSec, n * blockSize, LateBlocks(origin, clock, blockSize, bitsPerSec, n) * blockSize, NrOperations(op))
  {
    var input, output := NewBuffers(blockSize / INT_SIZE);

    var offset, late := 0, 0;
    var waits := 0;  // number of clock readings taken so far
    while !stop.done && offset < nrBytes
      invariant stop.done == old(stop.done)
      invariant stop.done ==> waits == 0
      invariant offset == waits * blockSize
      invariant waits == 0 || (waits - 1) * blockSize < nrBytes
      invariant late == LateBlocks(origin, clock, blockSize, bitsPerSec, waits) * blockSize
      invariant input.Length == output.Length && input != output
      decreases nrBytes - offset
    {
      offset, late := AdvanceAndWait(origin, clock, blockSize, bitsPerSec, waits, offset, late);
      waits := waits + 1;
      Process(op, input, output);
    }
    if !stop.done {
      BlocksUnique(nrBytes, blockSize, waits);
    }
    stop.done := true;

    rep := Report(bitsPerSec, offset, late, NrOperations(op));
  }

  /** The first wait compares the clock with a deadline one whole block after the origin. */
  lemma FirstDeadlineOneBlockIn(origin: Timeval, clock: nat -> Timeval, blockSize: nat, bitsPerSec: nat)
    requires bitsPerSec > 0
    ensures LateBlocks(origin, clock, blockSize, bitsPerSec, 1) ==
      (if After(clock(0), BlockDeadline(origin, blockSize, bitsPerSec)) then 1 else 0)
    ensures Micros(BlockDeadline(origin, blockSize, bitsPerSec)) * bitsPerSec <= Micros(origin) * bitsPerSec + 8 * USEC_PER_SEC * blockSize
  {
    DeadlineOffsetRounds(blockSize, bitsPerSec);
  }

  // ---------------------------------------------------------------------------
  // The stations and their stages, and the summary
  // ---------------------------------------------------------------------------

  const GBIT: nat := 1000 * 1000 * 1000

  /** One `dram_test` call of a station: operation, volume, block size and target rate. */
  datatype Stage = Stage(op: Transfer, nrBytes: nat, blockSize: nat, bitsPerSec: nat)

  /** The ten sections every station runs, in the order of `reports[station][0..9]`. */
  const STAGES: seq<Stage> := [
    Stage(Write, NR_PACKETS * 9000, UDP_BUFFER_SIZE * 9000, 3 * GBIT),
    Stage(Copy, NR_PACKETS * 9000, UDP_BUFFER_SIZE * 9000, 3 * GBIT),
    Stage(Transpose, NR_PACKETS * 9000, UDP_BUFFER_SIZE * 9000, 3 * GBIT),
    Stage(Copy, NR_PACKETS * 9000, PROCESSING_BUFFER_SIZE * 9000, 3 * GBIT),
    Stage(Transpose, NR_PACKETS * 9000, PROCESSING_BUFFER_SIZE * 9000, 3 * GBIT),
    Stage(Read, NR_PACKETS * 9000, PROCESSING_BUFFER_SIZE * 9000, 3 * GBIT),
    Stage(Write, NR_PACKETS * 9000 / REDUCTION_FACTOR, PROCESSING_BUFFER_SIZE * 9000, 3 * GBIT / REDUCTION_FACTOR),
    Stage(Copy, NR_PACKETS * 9000 / REDUCTION_FACTOR, PROCESSING_BUFFER_SIZE * 9000, 3 * GBIT / REDUCTION_FACTOR),
    Stage(Copy, NR_PACKETS * 9000 / REDUCTION_FACTOR, PROCESSING_BUFFER_SIZE * 9000, 3 * GBIT / REDUCTION_FACTOR),
    Stage(Read, NR_PACKETS * 9000 / REDUCTION_FACTOR, PROCESSING_BUFFER_SIZE * 9000, 3 * GBIT / REDUCTION_FACTOR)
  ]

  /**
   * Every configured stage can run: its block size and rate are positive, the
   * volume is a whole number of blocks (so an engine that is not stopped ends
   * exactly at the volume), the product `1000000 * offset` stays within
   * `size_t`, and each transpose block holds 32 or 256 chunks, for which the
   * stride is a bijection.
   */
  lemma {:induction false} ConfiguredStages()
    ensures |STAGES| == NR_STEPS
    ensures forall i :: 0 <= i < |STAGES| ==>
      STAGES[i].blockSize > 0 && STAGES[i].bitsPerSec > 0 &&
      STAGES[i].nrBytes % STAGES[i].blockSize == 0 &&
      Blocks(false, STAGES[i].nrBytes, STAGES[i].blockSize) * STAGES[i].blockSize == STAGES[i].nrBytes &&
      USEC_PER_SEC * STAGES[i].nrBytes < EthParams.SIZE_T_LIMIT
    ensures forall i :: 0 <= i < |STAGES| && STAGES[i].op == Transpose ==>
      STAGES[i].blockSize / INT_SIZE / XPOSE_CHUNK in {32, 256}
    ensures forall i, j :: 0 <= i < 32 && 0 <= j < 32 && Stride(i, 32) == Stride(j, 32) ==> i == j
    ensures forall i, j :: 0 <= i < 256 && 0 <= j < 256 && Stride(i, 256) == Stride(j, 256) ==> i == j
  {
    forall i | 0 <= i < |STAGES|
      ensures Blocks(false, STAGES[i].nrBytes, STAGES[i].blockSize) * STAGES[i].blockSize == STAGES[i].nrBytes
    {
      var st := STAGES[i];
      BlocksUnique(st.nrBytes, st.blockSize, st.nrBytes / st.blockSize);
    }
    StrideBijective(32, 23);
    StrideBijective(256, 183);
  }

  /** The total of the desired rates, each weighted by its report's `nr_operations`. */
  function WeightedDesired(rs: seq<Report>): nat {
    if rs == [] then 0
    else WeightedDesired(rs[..|rs| - 1]) + rs[|rs| - 1].desiredBitsPerSec * rs[|rs| - 1].nrOperations
  }

  /** The total of the moved volumes, each weighted by its report's `nr_operations`. */
  function WeightedBytes(rs: seq<Report>): nat {
    if rs == [] then 0
    else WeightedBytes(rs[..|rs| - 1]) + rs[|rs| - 1].bytes * rs[|rs| - 1].nrOperations
  }

  /** The weighted totals of a concatenation are the sums of the parts' totals. */
  lemma {:induction false} WeightedAppend(a: seq<Report>, b: seq<Report>)
    ensures WeightedDesired(a + b) == WeightedDesired(a) + WeightedDesired(b)
    ensures WeightedBytes(a + b) == WeightedBytes(a) + WeightedBytes(b)
  {
    if b != [] {
      assert (a + b)[..|a + b| - 1] == a + b[..|b| - 1];
      WeightedAppend(a, b[..|b| - 1]);
    } else {
      assert a + b == a;
    }
  }

  /** The reports of station `s`, in stage order. */
  function Row(reports: array2<Report>, s: nat): (r: seq<Report>)
    requires s < reports.Length0
    reads reports
    ensures |r| == reports.Length1
    ensures forall i :: 0 <= i < reports.Length1 ==> r[i] == reports[s, i]
  {
    seq(reports.Length1, i requires 0 <= i < reports.Length1 reads reports => reports[s, i])
  }

  /** The reports of the first `s` stations, station by station. */
  function Rows(reports: array2<Report>, s: nat): seq<Report>
    requires s <= reports.Length0
    reads reports
  {
    if s == 0 then [] else Rows(reports, s - 1) + Row(reports, s - 1)
  }

  /** The summary totals `main` prints. */
  datatype Totals = Totals(desiredBitsPerSec: nat, bytes: nat)

  /**
   * The summary loop of `main`: sum the desired rates and the moved volumes of
   * all reports, station by station, each weighted by `nr_operations`.
   */
  method Summarise(reports: array2<Report>) returns (totals: Totals)
    ensures totals.desiredBitsPerSec == WeightedDesired(Rows(reports, reports.Length0))
    ensures totals.bytes == WeightedBytes(Rows(reports, reports.Length0))
  {
    var desired, bytes := 0, 0;
    var station := 0;
    while station < reports.Length0
      invariant 0 <= station <= reports.Length0
      invariant desired == WeightedDesired(Rows(reports, station))
      invariant bytes == WeightedBytes(Rows(reports, station))
    {
      var i := 0;
      while i < reports.Length1
        invariant 0 <= i <= reports.Length1
        invariant desired == WeightedDesired(Rows(reports, station)) + WeightedDesired(Row(reports, station)[..i])
        invariant bytes == WeightedBytes(Rows(reports, station)) + WeightedBytes(Row(reports, station)[..i])
      {
        assert Row(reports, station)[..i + 1][..i] == Row(reports, station)[..i];
        desired := desired + reports[station, i].desiredBitsPerSec * reports[station, i].nrOperations;
        bytes := bytes + reports[station, i].bytes * reports[station, i].nrOperations;
        i := i + 1;
      }
      assert Row(reports, station)[..i] == Row(reports, station);
      WeightedAppend(Rows(reports, station), Row(reports, station));
      station := station + 1;
    }
    totals := Totals(desired, bytes);
  }
}
