# Paced memory and network benchmarks: a Dafny model

The benchmarks check whether a machine can sustain the data rates of a radio-telescope station
pipeline. A memory benchmark runs, for each of 18 simulated stations, ten transfer engines side by
side. Each engine reads, writes, copies or transposes fixed-size blocks of DRAM at a target rate.
Before each block it waits for a deadline derived from the rate, and it counts the blocks for which
it was already too late. A UDP benchmark sends numbered jumbo messages at a fixed rate on several
ports. It receives them in batches and derives the loss from the packet numbers.

This project models the integer and array logic under that plumbing:

- `Timevals` (`timevals.dfy`) covers `struct timeval` arithmetic: `timeval_add`, which updates a
  timestamp in place; `timeval_diff`; and the decision of `wait_until`, that is, late or sleep and
  for how long. The clock is a parameter.
- `MemTest` (`memtest.dfy`) covers the pacing loop of `dram_test` with its block deadlines and late
  count, the four block operations on the two int buffers, `nr_operations`, the configured stages of
  a station, and the weighted summary in `main`. The stop flag is one object that the engine reads
  at each loop head and raises when it finishes.
- `Wrappers` (`wrappers.dfy`) holds `Option`, which stands for a NULL pointer or a wait that did not
  sleep.
- `EthParams` (`ethparams.dfy`) holds the constants shared by sender and receiver, `size_t`
  wrap-around, and the set-up of the `iovec`/`mmsghdr` arrays. Pointers are modelled as indices.
- `EthSend` (`ethsend.dfy`) covers the paced send loop: packet numbering, the `size_t` deadline
  arithmetic and the late count. What it hands to `sendmsg` is an output sequence.
- `EthReceive` (`ethreceive.dfy`) covers the baseline message, the counting loop over the batches
  and the loss. Each `recvmmsg` call is an input: a failure, or the messages it delivered.

The file-scope stop flag `done` (mem-test.c:41) is a single variable. Every engine of every station
reads and sets it (mem-test.c:72, mem-test.c:104), so the first engine to finish stops all the
others. It is not one flag per station. The model follows the code: `MemTest.StopFlag` is one
shared object.

## Model

| member | source | states |
|---|---|---|
| Timevals.Added | common.c:69-77 | adding `usec` to a timestamp advances the moment it denotes by exactly `usec` microseconds, the seconds grow by `usec / 10^6` or by one more (a single carry), and a normalised timestamp stays normalised |
| Timevals.Stamp.Add | common.c:69-77 | `timeval_add` updating the fields in place leaves exactly the value `Added` describes |
| Timevals.Stamp.constructor | mem-test.c:26 | a copied timestamp holds the value it was copied from |
| Timevals.Diff | common.c:79-91 | the difference denotes `to - from` in microseconds, and it is normalised when both operands are (the borrow case included) |
| Timevals.WaitUntil | common.c:93-108 | the result is 1 exactly when `now` is past the deadline in (seconds, microseconds) order and 0 otherwise; it sleeps exactly when not late, for `Diff(now, t)`; for normalised readings, late means strictly later, and the sleep is normalised, non-negative and ends at the deadline |
| Timevals.AfterIsLater | common.c:98-99 | for normalised timestamps, the lexicographic test is the same as comparing the moments |
| Timevals.DiffThenAdd | common.c:69-91 | for normalised `from <= to`, adding the difference back onto `from` gives `to` |
| Timevals.AddThenDiff | common.c:69-91 | the difference between a normalised timestamp and itself plus `usec` is `usec` split into seconds and microseconds |
| Timevals.DiffBorrowExample | common.c:83-88 | from 5.900000 to 6.100000 is 0.200000, and adding it back gives 6.100000 |
| Timevals.WaitUntilNow | common.c:98-104 | a deadline equal to the clock reading is not late, and the sleep is zero |
| MemTest.NrOperations | mem-test.c:110 | the multiplier counts the buffers the operation touches: 1 for read and write, 2 for copy and transpose |
| MemTest.DeadlineOffsetRounds | mem-test.c:27 | the deadline offset is the time `offset` bytes take at the rate, rounded down: `d * rate <= 8 * 10^6 * offset < (d + 1) * rate` |
| MemTest.BlockDeadline | mem-test.c:25-27 | the deadline is the fixed origin plus that offset, normalised if the origin is |
| MemTest.DeadlineMonotone | mem-test.c:25-29 | a block further on never has an earlier deadline |
| MemTest.WaitForPacket | mem-test.c:25-29 | the result is 1 exactly when the clock is past the block's deadline, and 0 exactly when it is not |
| MemTest.NewBuffers | mem-test.c:54-60 | two fresh, distinct buffers of `block_size / 4` ints, every int holding `0x2A2A2A2A` |
| MemTest.AdvanceAndWait | mem-test.c:73-76 | one loop step advances the offset by exactly one block and adds a block to the late count exactly when that block's wait found its deadline passed |
| MemTest.PacedCounts | mem-test.c:69-76 | after any number of steps no more bytes are late than were moved, `late <= offset`; both are whole numbers of blocks by the form `AdvanceAndWait` keeps them in |
| MemTest.ReadBlock | mem-test.c:81-85 | the read loop sums the whole input block and writes neither buffer |
| MemTest.WriteBlock | mem-test.c:87-89 | every int of the output is `0x2A2A2A2A`, the int whose bytes are all 42 |
| MemTest.CopyBlock | mem-test.c:91-93 | the output equals the input afterwards, and the input is unchanged |
| MemTest.Stride | mem-test.c:98 | the source chunk `7i mod n` is one of the `n` chunks |
| MemTest.CopyChunk | mem-test.c:98 | one `memcpy` of 9000 ints: the target chunk equals the source chunk, and every other output element is unchanged |
| MemTest.TransposeBlock | mem-test.c:95-100 | for every `i < n`, output chunk `i` equals input chunk `7i mod n`; output elements from `n * 9000` on and the whole input are unchanged |
| MemTest.StrideBijective | mem-test.c:97-98 | when 7 has an inverse `m` modulo `n`, `i -> 7i mod n` is injective on `0..n-1` and `(m * j) mod n` is the chunk that lands on `j`, so every input chunk is copied exactly once |
| MemTest.StopFlag.constructor | mem-test.c:41 | the flag starts lowered |
| MemTest.Blocks | mem-test.c:72-73 | with the flag raised no block is processed; otherwise the count covers the volume, and one block fewer would not |
| MemTest.BlocksUnique | mem-test.c:72-73 | any count of blocks that covers the volume while one fewer does not is `Blocks`, so the loop's final offset is the least multiple of the block size at or above the volume |
| MemTest.LateBlocks | mem-test.c:76 | at most every block is late |
| MemTest.Process | mem-test.c:79-101 | read leaves the output unchanged, write fills it with `0x2A2A2A2A`, copy makes it equal to the input, and transpose makes output chunk `i` input chunk `7i mod n` while the elements past the last whole chunk keep their values |
| MemTest.DramTest | mem-test.c:66-110 | the engine processes exactly `Blocks` blocks: none if the flag was already raised, else up to the first offset at or beyond the volume. The report holds the desired rate, the bytes moved, the bytes of late blocks (each block judged against its own deadline at its own clock reading), and `nr_operations`, and the flag is raised at the end |
| MemTest.FirstDeadlineOneBlockIn | mem-test.c:72-76 | the first wait is judged against the deadline one whole block after the origin |
| MemTest.ConfiguredStages | mem-test.c:154-200 | every configured stage has a positive block size and rate, and its volume is a whole number of blocks, so an unstopped engine moves exactly the volume. `10^6 * offset` stays within `size_t`. Every transpose block holds 32 or 256 chunks, and for both counts the stride is injective |
| MemTest.WeightedAppend | mem-test.c:208-216 | the weighted totals of two runs of reports add up |
| MemTest.Summarise | mem-test.c:206-216 | the summary loop totals the desired rates and the moved volumes of all reports, station by station, each weighted by its `nr_operations` |
| EthParams.AsLong | eth-test-receive.c:86-88 | the `long` that `%ld` reads from a `size_t` lies in the `long` range and has the same 64-bit pattern |
| EthParams.SetupMessages | eth-test-send.c:25-35 | every `iov[i]` covers buffer slot `i` with `MAX_MSGSIZE` bytes, and every `msgs[i]` has `iov[i]` as its one entry, no address and no control data; following the pointers of message `k` leads to slot `k` |
| EthParams.NewBatch | eth-test-send.c:19-35 | fresh buffer, `iov` and `msgs` arrays of 128 entries each, set up so that message `k` leads to slot `k` |
| EthSend.DeadlineProductFits | eth-test-send.c:50 | for every packet the sender sends, `10^6 * k * 8900` is below 2^64, so the `size_t` products do not wrap |
| EthSend.PacketDeadlineOffset | eth-test-send.c:50 | for those packets the offset is the time `k` messages take at the target rate, rounded down |
| EthSend.PacketDeadlineMonotone | eth-test-send.c:49-50 | a later packet never has an earlier deadline |
| EthSend.PacketDeadline | eth-test-send.c:49-50 | the deadline is the fixed origin plus that offset, normalised if the origin is |
| EthSend.LatePackets | eth-test-send.c:51 | at most every packet is late |
| EthSend.WaitForPacket | eth-test-send.c:48-51 | the wait for packet `n` reports 1 exactly when its clock reading is past that packet's deadline, so it adds exactly packet `n`'s share to the late count |
| EthSend.SendPacket | eth-test-send.c:54-55 | slot 0 of the buffer holds the current packet number afterwards and the other slots are unchanged; the number returned is the one in the slot that message 0's pointers lead to, which is the current packet number |
| EthSend.SendOne | eth-test-send.c:46-55 | one iteration for packet `n` extends the late count for packets 1..n-1 to exactly `LatePackets` of 1..n, extends the numbers sent 1..n-1 by a message carrying `n`, and leaves `n` in slot 0 with slots 1..127 unchanged |
| EthSend.SendData | eth-test-send.c:39-56 | the loop runs exactly `512 * 128 * 2` times and ends with `packet_nr` at that bound. The messages sent carry the numbers 1, 2, ..., N in order, and `late` counts exactly the packets whose wait found the deadline passed, so `late <= packet_nr` |
| EthReceive.MaxNr | eth-test-receive.c:67-72 | the running maximum never drops below the baseline |
| EthReceive.MaxNrIsMax | eth-test-receive.c:67-72 | the running maximum is at least every packet number seen, and is either the baseline or one of them |
| EthReceive.TotalBytesBound | eth-test-receive.c:68 | the counted bytes are at most `MAX_MSGSIZE` per message |
| EthReceive.AllMsgsBound | eth-test-receive.c:60-64 | the calls deliver at most 128 messages each, all of them with `size_t` numbers and lengths within the message size |
| EthReceive.CountersBounded | eth-test-receive.c:57-75 | over the 512 calls at most `512 * 128` messages are counted, their bytes are at most `8900` each, and the maximum stays a `size_t` |
| EthReceive.LossAsWritten | eth-test-receive.c:80 | the unsigned loss is `(max - first) - count` when that is non-negative, and wraps to `2^64` minus the excess otherwise |
| EthReceive.Loss | eth-test-receive.c:80-88 | the signed loss is non-negative exactly when the count is at most the span of numbers; for `size_t` operands its 64-bit pattern is exactly the wrapped value `LossAsWritten` the receiver computes, and whenever it fits a `long` it is what the `%ld` in the format on line 86 prints for the argument on line 88. What it counts is stated by `EthReceive.LossCountsMissing` |
| EthReceive.Deliver | eth-test-receive.c:63-64 | each delivered message lands in the slot its header points at, with its length in `msg_len`; the slots past the delivered messages keep their contents |
| EthReceive.CountBatch | eth-test-receive.c:67-72 | accumulating one batch extends the byte total and the running maximum by exactly the batch's messages |
| EthReceive.CountCalls | eth-test-receive.c:60-75 | the loop ends early exactly when some call fails; otherwise the counters cover exactly the messages of all calls, in order |
| EthReceive.ReceiveData | eth-test-receive.c:20-88 | the receiver exits exactly when the baseline or a counted call fails. Otherwise the baseline is the first message's number and is not counted; the maximum, message count and byte total are those of the counted messages; the count is at most `512 * 128` and the maximum stays a `size_t`. The outcome carries both the wrapped `size_t` loss of lines 80 and 88 and the signed loss; the first is the bit pattern of the second, and for a span below 2^63 the `%ld` report prints the signed loss |
| EthReceive.LossExample | eth-test-receive.c:80 | baseline 100, maximum 200 and 95 messages give a loss of 5 |
| EthReceive.InOrderMax | eth-test-receive.c:67-72 | messages numbered `first + 1`, `first + 2`, ... in order raise the maximum to `first + count` |
| EthReceive.LosslessInOrder | eth-test-receive.c:80 | lossless in-order delivery after the baseline reports a loss of 0, signed and unsigned |
| EthReceive.LossCountsMissing | eth-test-receive.c:80 | when the counted messages carry distinct numbers after the baseline, the count is at most the span and the loss is exactly the number of packet numbers in the span that never arrived |
| EthReceive.Overtaken | eth-test-receive.c:60-72 | the run in which the baseline overtook its predecessor: that predecessor first, then every number after the baseline up to `first + n`, in order |
| EthReceive.OvertakenMax | eth-test-receive.c:67-72 | in that run the highest number is `first + n`, one less than the number of messages counted |
| EthReceive.LossWrapsOnReorder | eth-test-receive.c:80 | baseline 101, then 100 and 102..65636 (65536 messages, as many as 512 full calls deliver, nothing in the span missing): the maximum is 65636 and the unsigned loss is `2^64 - 1`, where the signed loss is -1 |

## Left out

- Threads and barriers are not modelled: the OpenMP sections and the pthread barrier in `mem-test.c`, and the parallel ports of both UDP programs. Each engine, sender and receiver is modelled as one sequential run. During such a run the stop flag does not change, because only another thread could raise it.
- The `reports[station][i] = dram_test(...)` calls of `main` are left out, because in a sequential run every engine after the first would find the flag raised. `MemTest.ConfiguredStages` states the configuration they use instead.
- Floating point is not modelled: `duration`, `speed_gbps`, `late_perc`, `loss_perc` and the GBPS/GBYTE conversions. Rates are integer bits per second. The deadline offset `10^6 * offset / (rate / 8)`, which the source computes in `double` and truncates, is modelled as the exact rounded-down quotient, so rounding in `double` is not captured.
- MemTest.Summarise: totals the moved volumes weighted by `nr_operations` in place of the measured speeds (floating point), and omits the average of the late percentages.
- The real clock and sleep are not modelled: `gettimeofday` readings are parameters (`origin`, `clock`), and the `select` sleep is the interval `WaitUntil` returns. `time_t` overflow is not modelled.
- Sockets are not modelled: `create_udp_socket`, `getaddrinfo`, `bind`, `connect` and `close`. The output of `checkSyscall` is left out; its exit is the `Exited` outcome. `sendmsg` is left out beyond the message it sends. `recvmmsg` is an input.
- MemTest.DramTest: requires `blockSize > 0`. With a block size of 0, a positive volume and the flag lowered, the loop of mem-test.c:72-73 never ends, because the offset never grows. Every configured stage uses a block size of at least 1152000 bytes (`MemTest.ConfiguredStages`).
- EthReceive.ReceiveData: requires the baseline call, when it succeeds, to deliver exactly one message, as a blocking receive does; a call returning no message would leave slot 0 unset.
- EthReceive.ReceiveData: each counted call is modelled as delivering from 0 to 128 messages, although a blocking `recvmmsg` with 128 slots and no timeout returns only with all 128; the model admits more runs than the source, and every promise holds for all of them.
- EthReceive.ReceiveData: the `%ld` reading of the loss is stated only for spans below 2^63. With a maximum 2^63 or more above the baseline, `%ld` would print the loss minus 2^64; the sender stamps only numbers from 1 to 131072.
- NUMA binding (`nrNodes`, `setNodeAffinity`), `printf` reports, `usage`, `getopt` parsing and `gpu-copy.c` are not part of this model.
- MemTest.ReadBlock: the running sum is an unbounded integer. In the source it is a signed `int` whose initialiser sits before the first `case` label and is skipped; its value is never used.
- MemTest.DramTest: the buffers hold `block_size / 4` ints. The up to three trailing bytes that `memset` and `memcpy` also cover when `block_size` is not a multiple of 4 are not modelled; every configured block size is a multiple of 4.
- `size_t` wrap is modelled where it can occur: the send deadline (proved not to wrap) and the receiver's loss. Elsewhere the counters are proved to stay far below 2^64, or they are unbounded integers.

## Findings

| source | as written | input that shows it | evidently intended | confidence | as-written member | corrected member |
|---|---|---|---|---|---|---|
| eth-test-receive.c:80 | `loss_perc` is computed from `(max_packet_nr - first_packet_nr) - total_num_msgs` in unsigned `size_t`, which wraps when more messages are counted than the span of packet numbers | packet 101 overtakes packet 100 and becomes the baseline; then 100 and 102, ..., 65636 arrive in 512 full calls with none lost: 65536 messages against a span of 65535, and the loss becomes 2^64 - 1 | the signed difference, -1 here, which the `%ld` report (format on line 86, argument on line 88) prints | medium; not executed | EthReceive.LossWrapsOnReorder | EthReceive.Loss |
