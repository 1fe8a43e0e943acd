/**
 * The UDP receiver of one data stream. It takes one message as a baseline
 * (not counted), then makes a fixed number of batched receive calls and
 * accumulates the number of messages, their bytes and the highest packet
 * number seen; loss is the span of packet numbers minus the messages counted.
 *
 * `recvmmsg` is not modelled: each call is an input, either a failure (the
 * program exits) or the messages it delivered, which land in the slots the
 * set-up loop gave them.
 */
module EthReceive {
  import opened Timevals
  import opened EthParams
  import opened Wrappers

  /** A received message: its `packet_nr` field and its length `msg_len`. */
  datatype Message = Message(packetNr: nat, len: nat)

  /** What one `recvmmsg` call does: fail (a negative result), or deliver some messages. */
  datatype Recv = Failed | Got(msgs: seq<Message>)

  /**
   * A call asked for at most `vlen` messages delivers at most that many, each
   * no longer than the `MAX_MSGSIZE` of its `iovec`, with a `size_t` packet number.
   */
  predicate Fits(r: Recv, vlen: nat) {
    r.Got? ==> (|r.msgs| <= vlen &&
      forall m :: m in r.msgs ==> m.packetNr < SIZE_T_LIMIT && m.len <= MAX_MSGSIZE)
  }

  /** Every call delivered. */
  predicate AllGot(calls: seq<Recv>) {
    forall i :: 0 <= i < |calls| ==> calls[i].Got?
  }

  /** The messages of all calls, in the order they were delivered. */
  function AllMsgs(calls: seq<Recv>): (ms: seq<Message>)
    requires AllGot(calls)
  {
    if calls == [] then [] else AllMsgs(calls[..|calls| - 1]) + calls[|calls| - 1].msgs
  }

  /** The highest of `first` and every packet number in `ms`. */
  function MaxNr(first: nat, ms: seq<Message>): (r: nat)
    ensures r >= first
  {
    if ms == [] then first
    else
      var r0 := MaxNr(first, ms[..|ms| - 1]);
      if ms[|ms| - 1].packetNr > r0 then ms[|ms| - 1].packetNr else r0
  }

  /** The running maximum bounds every packet number seen, and is the baseline or one of them. */
  lemma {:induction false} MaxNrIsMax(first: nat, ms: seq<Message>)
    ensures forall m :: m in ms ==> m.packetNr <= MaxNr(first, ms)
    ensures MaxNr(first, ms) == first || exists m :: m in ms && m.packetNr == MaxNr(first, ms)
  {
    if ms != [] {
      var init := ms[..|ms| - 1];
      MaxNrIsMax(first, init);
      assert forall m :: m in ms ==> m in init || m == ms[|ms| - 1];
      assert forall m :: m in init ==> m in ms;
    }
  }

  /** The sum of the message lengths. */
  function TotalBytes(ms: seq<Message>): (b: nat)
    ensures ms == [] ==> b == 0
    ensures ms != [] ==> b >= ms[|ms| - 1].len
  {
    if ms == [] then 0 else TotalBytes(ms[..|ms| - 1]) + ms[|ms| - 1].len
  }

  /** Messages no longer than `MAX_MSGSIZE` add up to at most that much each. */
  lemma {:induction false} TotalBytesBound(ms: seq<Message>)
    requires forall m :: m in ms ==> m.len <= MAX_MSGSIZE
    ensures TotalBytes(ms) <= |ms| * MAX_MSGSIZE
  {
    if ms != [] {
      var init := ms[..|ms| - 1];
      assert forall m :: m in init ==> m in ms;
      TotalBytesBound(init);
      assert ms[|ms| - 1] in ms;
    }
  }

  /** The loss as the receiver computes it: the two subtractions wrap in `size_t`. */
  function LossAsWritten(first: nat, max: nat, msgs: nat): (l: nat)
    requires first <= max < SIZE_T_LIMIT && msgs < SIZE_T_LIMIT
    ensures msgs <= max - first ==> l == max - first - msgs
    ensures msgs > max - first ==> l == SIZE_T_LIMIT - (msgs - (max - first))
  {
    SizeT(SizeT(max - first) - msgs)
  }

  /**
   * The loss as a signed count: negative when more messages were counted than
   * the span of numbers. Its `size_t` bit pattern is the value the receiver
   * computes; the `%ld` report reads that pattern back as this signed count
   * whenever the count fits a `long`, which it does for every span below
   * 2^63.
   */
  function Loss(first: nat, max: nat, msgs: nat): (l: int)
    ensures l >= 0 <==> msgs <= max - first
    ensures l + msgs == max - first
    ensures first <= max < SIZE_T_LIMIT && msgs < SIZE_T_LIMIT ==> SizeT(l) == LossAsWritten(first, max, msgs)
    ensures first <= max < SIZE_T_LIMIT && msgs < SIZE_T_LIMIT && -(LONG_LIMIT as int) <= l < LONG_LIMIT ==>
      AsLong(LossAsWritten(first, max, msgs)) == l
  {
    max - first - msgs
  }

  /** What `receive_data` ends with: an exit through `checkSyscall`, or its counters and the loss. */
  datatype Outcome =
    | Exited
    | Counted(firstPacketNr: nat, maxPacketNr: nat, totalMsgs: nat, totalBytes: nat,
              lossAsWritten: nat, loss: int)

  /** Every call that delivers stays within 128 messages, each with a `size_t` number and at most `MAX_MSGSIZE` bytes; a failed call fits trivially. */
  predicate AllFit(calls: seq<Recv>) {
    forall i :: 0 <= i < |calls| ==> Fits(calls[i], MSG_BATCHSIZE)
  }

  /**
   * The baseline call blocks until its one message is there: it fails, or
   * delivers exactly one message.
   */
  predicate BaselineFits(baseline: Recv) {
    Fits(baseline, 1) && (baseline.Got? ==> |baseline.msgs| == 1)
  }

  /**
   * What the kernel does in `recvmmsg` for a call that delivered `batch`:
   * message `j` is written to the buffer slot its header points at, and its
   * length to `msgs[j].msg_len` (here `lens[j]`).
   */
  method Deliver(iov: array<IoVec>, msgs: array<MsgHdr>, buffer: array<nat>, lens: array<nat>, batch: seq<Message>)
    requires iov.Length == MSG_BATCHSIZE && msgs.Length == MSG_BATCHSIZE
    requires buffer.Length == MSG_BATCHSIZE && lens.Length == MSG_BATCHSIZE && buffer != lens
    requires forall k :: 0 <= k < MSG_BATCHSIZE ==> MessageSlot(iov, msgs, k) == Some(k)
    requires |batch| <= MSG_BATCHSIZE
    modifies buffer, lens
    ensures forall j :: 0 <= j < |batch| ==> buffer[j] == batch[j].packetNr && lens[j] == batch[j].len
    ensures forall k :: |batch| <= k < MSG_BATCHSIZE ==> buffer[k] == old(buffer[k]) && lens[k] == old(lens[k])
  {
    var j := 0;
    while j < |batch|
      invariant j <= |batch|
      invariant forall k :: 0 <= k < j ==> buffer[k] == batch[k].packetNr && lens[k] == batch[k].len
      invariant forall k :: j <= k < MSG_BATCHSIZE ==> buffer[k] == old(buffer[k]) && lens[k] == old(lens[k])
    {
      var slot := MessageSlot(iov, msgs, j).value;
      buffer[slot] := batch[j].packetNr;
      lens[j] := batch[j].len;
      j := j + 1;
    }
  }

  lemma AllMsgsStep(calls: seq<Recv>, i: nat)
    requires i < |calls| && AllGot(calls[..i]) && calls[i].Got?
    ensures AllGot(calls[..i + 1])
    ensures AllMsgs(calls[..i + 1]) == AllMsgs(calls[..i]) + calls[i].msgs
  {
    assert calls[..i + 1][..i] == calls[..i];
    assert calls[..i + 1][i] == calls[i];
  }

  lemma MaxNrStep(first: nat, ms: seq<Message>, m: Message)
    ensures MaxNr(first, ms + [m]) == if m.packetNr > MaxNr(first, ms) then m.packetNr else MaxNr(first, ms)
  {
    assert (ms + [m])[..|ms|] == ms;
  }

  lemma TotalBytesStep(ms: seq<Message>, m: Message)
    ensures TotalBytes(ms + [m]) == TotalBytes(ms) + m.len
  {
    assert (ms + [m])[..|ms|] == ms;
  }

  /** A failed call means not all calls delivered. */
  lemma FailedCall(calls: seq<Recv>, i: nat)
    requires i < |calls| && calls[i].Failed?
    ensures !AllGot(calls)
  {
  }

  /** Every message the calls deliver fits, so there are at most 128 per call. */
  lemma {:induction false} AllMsgsBound(calls: seq<Recv>)
    requires AllGot(calls) && AllFit(calls)
    ensures |AllMsgs(calls)| <= |calls| * MSG_BATCHSIZE
    ensures forall m :: m in AllMsgs(calls) ==> m.packetNr < SIZE_T_LIMIT && m.len <= MAX_MSGSIZE
  {
    if calls != [] {
      var init := calls[..|calls| - 1];
      assert AllGot(init) && AllFit(init);
      AllMsgsBound(init);
      assert Fits(calls[|calls| - 1], MSG_BATCHSIZE);
    }
  }

  /** What bounds the counters of a run whose calls all delivered. */
  lemma CountersBounded(first: nat, calls: seq<Recv>)
    requires first < SIZE_T_LIMIT
    requires |calls| == NR_BATCHES && AllGot(calls) && AllFit(calls)
    ensures |AllMsgs(calls)| <= NR_BATCHES * MSG_BATCHSIZE
    ensures TotalBytes(AllMsgs(calls)) <= |AllMsgs(calls)| * MAX_MSGSIZE
    ensures MaxNr(first, AllMsgs(calls)) < SIZE_T_LIMIT
  {
    AllMsgsBound(calls);
    TotalBytesBound(AllMsgs(calls));
    MaxNrIsMax(first, AllMsgs(calls));
  }

  /**
   * The accumulation over one batch: the first `n` slots hold the `n`
   * messages of `batch`, which follow the messages `before` already counted.
   */
  method CountBatch(buffer: array<nat>, lens: array<nat>, n: nat, first: nat,
                    ghost before: seq<Message>, ghost batch: seq<Message>, bytes0: nat, max0: nat)
    returns (bytes: nat, max: nat)
    requires n == |batch| <= buffer.Length && n <= lens.Length
    requires forall k :: 0 <= k < n ==> buffer[k] == batch[k].packetNr && lens[k] == batch[k].len
    requires bytes0 == TotalBytes(before) && max0 == MaxNr(first, before)
    ensures bytes == TotalBytes(before + batch) && max == MaxNr(first, before + batch)
  {
    bytes, max := bytes0, max0;
    var j := 0;
    ghost var seen := before;  // `before` and the first `j` messages of `batch`
    while j < n
      invariant j <= n
      invariant seen == before + batch[..j]
      invariant max == MaxNr(first, seen) && bytes == TotalBytes(seen)
    {
      bytes := bytes + lens[j];
      var packetNr := buffer[j];
      if packetNr > max {
        max := packetNr;
      }
      MaxNrStep(first, seen, batch[j]);
      TotalBytesStep(seen, batch[j]);
      assert batch[..j + 1] == batch[..j] + [batch[j]];
      seen := seen + [batch[j]];
      j := j + 1;
    }
    assert batch[..n] == batch;
  }

  /**
   * The counting loop of `receive_data` (one `recvmmsg` call per batch) after
   * the baseline `first`: `ok` is false when a call failed, which ends the
   * program; otherwise the counters cover exactly the messages of all calls.
   */
  method CountCalls(iov: array<IoVec>, msgs: array<MsgHdr>, buffer: array<nat>, lens: array<nat>,
                    first: nat, calls: seq<Recv>)
    returns (ok: bool, totalMsgs: nat, totalBytes: nat, max: nat)
    requires iov.Length == MSG_BATCHSIZE && msgs.Length == MSG_BATCHSIZE
    requires buffer.Length == MSG_BATCHSIZE && lens.Length == MSG_BATCHSIZE && buffer != lens
    requires forall k :: 0 <= k < MSG_BATCHSIZE ==> MessageSlot(iov, msgs, k) == Some(k)
    requires AllFit(calls)
    modifies buffer, lens
    ensures ok <==> AllGot(calls)
    ensures ok ==> max == MaxNr(first, AllMsgs(calls)) && totalMsgs == |AllMsgs(calls)| &&
                   totalBytes == TotalBytes(AllMsgs(calls))
  {
    totalBytes, totalMsgs, max := 0, 0, first;
    ghost var counted: seq<Message> := [];
    var i := 0;
    while i < |calls| && calls[i].Got?
      invariant i <= |calls|
      invariant AllGot(calls[..i]) && counted == AllMsgs(calls[..i])
      invariant max == MaxNr(first, counted) && totalMsgs == |counted| && totalBytes == TotalBytes(counted)
      modifies buffer, lens
    {
      var batch := calls[i].msgs;
      Deliver(iov, msgs, buffer, lens, batch);
      var numMsgs := |batch|;
      totalBytes, max := CountBatch(buffer, lens, numMsgs, first, counted, batch, totalBytes, max);
      totalMsgs := totalMsgs + numMsgs;
      AllMsgsStep(calls, i);
      counted := counted + batch;
      i := i + 1;
    }
    if i < |calls| {
      FailedCall(calls, i);
      return false, totalMsgs, totalBytes, max;
    }
    assert calls[..|calls|] == calls;
    ok := true;
  }

  /**
   * `receive_data`: `baseline` is the first call (one message asked for),
   * `calls` the `NR_BATCHES` counted calls. The first failing call ends the
   * program through `checkSyscall`; otherwise the counters cover exactly the
   * messages of the counted calls and the baseline message is not among them.
   */
  method ReceiveData(baseline: Recv, calls: seq<Recv>) returns (out: Outcome)
    requires BaselineFits(baseline)
    requires |calls| == NR_BATCHES && AllFit(calls)
    ensures out.Exited? <==> baseline.Failed? || !AllGot(calls)
    ensures out.Counted? ==>
      var ms := AllMsgs(calls);
      var first := baseline.msgs[0].packetNr;
      var max := MaxNr(first, ms);
      max < SIZE_T_LIMIT && |ms| <= NR_BATCHES * MSG_BATCHSIZE && TotalBytes(ms) <= |ms| * MAX_MSGSIZE &&
      out == Counted(first, max, |ms|, TotalBytes(ms), LossAsWritten(first, max, |ms|), Loss(first, max, |ms|)) &&
      SizeT(out.loss) == out.lossAsWritten &&
      (max - first < LONG_LIMIT ==> AsLong(out.lossAsWritten) == out.loss)
  {
    var buffer, iov, msgs := NewBatch();   // `buffer` holds the packet_nr field of each message slot
    var lens := new nat[MSG_BATCHSIZE];    // msgs[j].msg_len

    if baseline.Failed? {
      return Exited;
    }
    Deliver(iov, msgs, buffer, lens, baseline.msgs);
    var first := buffer[0];

    var ok, totalMsgs, totalBytes, max := CountCalls(iov, msgs, buffer, lens, first, calls);
    if !ok {
      return Exited;
    }
    assert baseline.msgs[0] in baseline.msgs;
    CountersBounded(first, calls);
    out := Counted(first, max, totalMsgs, totalBytes, LossAsWritten(first, max, totalMsgs), Loss(first, max, totalMsgs));
  }

  /** Baseline 100, highest number 200 and 95 messages counted: 5 were lost. */
  lemma LossExample()
    ensures Loss(100, 200, 95) == 5 && LossAsWritten(100, 200, 95) == 5
  {
  }

  /** Messages numbered `first + 1`, `first + 2`, ... in order: the highest is `first + |ms|`. */
  lemma {:induction false} InOrderMax(first: nat, ms: seq<Message>)
    requires forall i :: 0 <= i < |ms| ==> ms[i].packetNr == first + 1 + i
    ensures MaxNr(first, ms) == first + |ms|
  {
    if ms != [] {
      InOrderMax(first, ms[..|ms| - 1]);
    }
  }

  /** Lossless in-order delivery after the baseline reports no loss, in either computation. */
  lemma LosslessInOrder(first: nat, ms: seq<Message>)
    requires forall i :: 0 <= i < |ms| ==> ms[i].packetNr == first + 1 + i
    requires first + |ms| < SIZE_T_LIMIT
    ensures Loss(first, MaxNr(first, ms), |ms|) == 0
    ensures LossAsWritten(first, MaxNr(first, ms), |ms|) == 0
  {
    InOrderMax(first, ms);
  }

  /** The packet numbers the messages carry. */
  function Numbers(ms: seq<Message>): (s: set<nat>)
    ensures forall m :: m in ms ==> m.packetNr in s
    ensures forall x :: x in s ==> exists m :: m in ms && m.packetNr == x
  {
    set m | m in ms :: m.packetNr
  }

  /** No packet number occurs twice. */
  predicate Distinct(ms: seq<Message>) {
    forall i, j :: 0 <= i < j < |ms| ==> ms[i].packetNr != ms[j].packetNr
  }

  /** The packet numbers after `first`, up to and including `max`. */
  function Span(first: nat, max: nat): (s: set<nat>)
    ensures forall x :: x in s <==> first < x <= max
  {
    if max <= first then {} else Span(first, max - 1) + {max}
  }

  lemma {:induction false} NumbersCount(ms: seq<Message>)
    requires Distinct(ms)
    ensures |Numbers(ms)| == |ms|
  {
    if ms != [] {
      var init := ms[..|ms| - 1];
      var last := ms[|ms| - 1];
      assert Distinct(init);
      NumbersCount(init);
      assert last.packetNr !in Numbers(init);
      assert Numbers(ms) == Numbers(init) + {last.packetNr};
    }
  }

  lemma {:induction false} SpanCount(first: nat, max: nat)
    requires first <= max
    ensures |Span(first, max)| == max - first
  {
    if max > first {
      SpanCount(first, max - 1);
    }
  }

  /**
   * When every counted message carries its own number after the baseline,
   * the loss is the number of packet numbers in the span that never arrived,
   * and so is never negative.
   */
  lemma LossCountsMissing(first: nat, ms: seq<Message>)
    requires Distinct(ms)
    requires forall m :: m in ms ==> m.packetNr > first
    ensures |ms| <= MaxNr(first, ms) - first
    ensures Loss(first, MaxNr(first, ms), |ms|) == |Span(first, MaxNr(first, ms)) - Numbers(ms)|
  {
    var max := MaxNr(first, ms);
    MaxNrIsMax(first, ms);
    NumbersCount(ms);
    SpanCount(first, max);
    assert Numbers(ms) <= Span(first, max);
    assert Span(first, max) == (Span(first, max) - Numbers(ms)) + Numbers(ms);
  }

  /**
   * A lossless run in which packet `first` overtook packet `first - 1`: the
   * baseline is `first`, and the counted messages are `first - 1` followed by
   * `first + 1`, ..., `first + n` in order.
   */
  function Overtaken(first: nat, n: nat): (ms: seq<Message>)
    requires first > 0
    ensures |ms| == n + 1 && ms[0].packetNr == first - 1
    ensures forall i :: 1 <= i <= n ==> ms[i].packetNr == first + i
  {
    [Message(first - 1, MAX_MSGSIZE)] + seq(n, i requires 0 <= i => Message(first + 1 + i, MAX_MSGSIZE))
  }

  /** In such a run the highest number is `first + n`, one short of the count after the baseline. */
  lemma {:induction false} OvertakenMax(first: nat, n: nat)
    requires first > 0
    ensures MaxNr(first, Overtaken(first, n)) == first + n
  {
    if n == 0 {
      assert Overtaken(first, 0)[..0] == [];
    } else {
      OvertakenMax(first, n - 1);
      assert Overtaken(first, n)[..n] == Overtaken(first, n - 1);
    }
  }

  /**
   * The wrap on a run the receiver can see: baseline 101, then 100 (which
   * the baseline overtook) and 102, ..., 65636, which is 65536 messages, as
   * many as 512 full calls deliver, and none of the span missing. The highest
   * number is 65636, so the span is 65535 and the unsigned loss is 2^64 - 1,
   * where the signed loss is -1.
   */
  lemma LossWrapsOnReorder()
    ensures |Overtaken(101, 65535)| == NR_BATCHES * MSG_BATCHSIZE
    ensures MaxNr(101, Overtaken(101, 65535)) == 65636
    ensures LossAsWritten(101, 65636, 65536) == SIZE_T_LIMIT - 1
    ensures Loss(101, 65636, 65536) == -1
  {
    OvertakenMax(101, 65535);
  }
}
