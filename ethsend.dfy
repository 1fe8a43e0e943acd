/**
 * The paced UDP sender of one data stream: it numbers its messages 1, 2, ...,
 * waits before each for a deadline computed from a fixed origin with integer
 * arithmetic, counts the waits that found the deadline already passed, and
 * hands each message to `sendmsg`. The socket is not modelled: what the
 * sender produces is the sequence of packet numbers it sends.
 */
module EthSend {
  import opened Timevals
  import opened EthParams
  import opened Wrappers

  /** The sender sends twice the volume the receiver counts, to allow for loss. */
  const TOTAL_PACKETS: nat := NR_BATCHES * MSG_BATCHSIZE * 2
  /** `SPEED_BITS_PER_SEC / 8` */
  const BYTES_PER_SEC: nat := SPEED_BITS_PER_SEC / 8

  /** The product in the deadline of packet `k` does not wrap in `size_t` for any packet the sender sends. */
  lemma DeadlineProductFits(k: nat)
    requires k <= TOTAL_PACKETS
    ensures USEC_PER_SEC * k * MAX_MSGSIZE < SIZE_T_LIMIT
    ensures SizeT(SizeT(USEC_PER_SEC * k) * MAX_MSGSIZE) == USEC_PER_SEC * k * MAX_MSGSIZE
  {
    assert SizeT(USEC_PER_SEC * k) == USEC_PER_SEC * k;
  }

  /** Division by `BYTES_PER_SEC` rounds down. */
  lemma DivBytes(x: nat)
    ensures (x / BYTES_PER_SEC) * BYTES_PER_SEC <= x < (x / BYTES_PER_SEC + 1) * BYTES_PER_SEC
  {
  }

  /**
   * Microseconds from the origin to the deadline of packet `k`, with the
   * `size_t` arithmetic of the source: the time `k` messages take at the
   * target rate, rounded down.
   */
  function PacketDeadlineOffset(k: nat): (d: nat)
    ensures k <= TOTAL_PACKETS ==>
      d * BYTES_PER_SEC <= USEC_PER_SEC * k * MAX_MSGSIZE < (d + 1) * BYTES_PER_SEC
  {
    assert BYTES_PER_SEC == 93750000;
    var product := SizeT(SizeT(USEC_PER_SEC * k) * MAX_MSGSIZE);
    assert k <= TOTAL_PACKETS ==>
      (product / BYTES_PER_SEC) * BYTES_PER_SEC <= USEC_PER_SEC * k * MAX_MSGSIZE < (product / BYTES_PER_SEC + 1) * BYTES_PER_SEC
    by {
      if k <= TOTAL_PACKETS {
        DeadlineProductFits(k);
        DivBytes(product);
      }
    }
    product / BYTES_PER_SEC
  }

  /** Rounded-down quotients by `BYTES_PER_SEC` keep the order of what they divide. */
  lemma QuotientOrder(d1: int, d2: int, p1: int, p2: int)
    requires d1 * BYTES_PER_SEC <= p1 <= p2 < (d2 + 1) * BYTES_PER_SEC
    ensures d1 <= d2
  {
  }

  /** Deadlines of later packets are never earlier. */
  lemma {:induction false} PacketDeadlineMonotone(k1: nat, k2: nat)
    requires k1 <= k2 <= TOTAL_PACKETS
    ensures PacketDeadlineOffset(k1) <= PacketDeadlineOffset(k2)
  {
    var d1, d2 := PacketDeadlineOffset(k1), PacketDeadlineOffset(k2);
    QuotientOrder(d1, d2, USEC_PER_SEC * k1 * MAX_MSGSIZE, USEC_PER_SEC * k2 * MAX_MSGSIZE);
  }

  /** The deadline of packet `k`, always counted from the fixed origin. */
  function PacketDeadline(origin: Timeval, k: nat): (t: Timeval)
    ensures Micros(t) == Micros(origin) + PacketDeadlineOffset(k)
    ensures Normalised(origin) ==> Normalised(t)
  {
    Added(origin, PacketDeadlineOffset(k))
  }

  /** Of packets 1..n, how many found the clock past their deadline; packet `k`'s wait reads `clock(k - 1)`. */
  function LatePackets(origin: Timeval, clock: nat -> Timeval, n: nat): (late: nat)
    ensures late <= n
  {
    if n == 0 then 0
    else LatePackets(origin, clock, n - 1) + (if After(clock(n - 1), PacketDeadline(origin, n)) then 1 else 0)
  }

  /**
   * eth-test-send.c:49-51 for packet `n`: copy the origin, add the packet's offset and
   * wait until then; the clock inside the wait reads `clock(n - 1)`. The
   * result is 1 exactly when the deadline had already passed, so it is what
   * packet `n` adds to the late count.
   */
  method WaitForPacket(origin: Timeval, clock: nat -> Timeval, n: nat) returns (l: nat)
    requires n > 0
    ensures l == (if After(clock(n - 1), PacketDeadline(origin, n)) then 1 else 0)
    ensures LatePackets(origin, clock, n) == LatePackets(origin, clock, n - 1) + l
  {
    var next := new Stamp(origin);
    next.Add(PacketDeadlineOffset(n));
    l := WaitUntil(next.Value(), clock(n - 1)).result;
  }

  /** The packet numbers 1..n, in order. */
  function Numbered(n: nat): (s: seq<nat>)
    ensures |s| == n
    ensures forall i :: 0 <= i < n ==> s[i] == i + 1
  {
    seq(n, i => i + 1)
  }

  /**
   * eth-test-send.c:54-55: stamp the packet number into slot 0 and send the message
   * that `msgs[0]` describes. Returns the packet number that message carries.
   */
  method SendPacket(buffer: array<nat>, iov: array<IoVec>, msgs: array<MsgHdr>, packetNr: nat) returns (nr: nat)
    requires buffer.Length == MSG_BATCHSIZE && iov.Length == MSG_BATCHSIZE && msgs.Length == MSG_BATCHSIZE
    requires MessageSlot(iov, msgs, 0) == Some(0)
    modifies buffer
    ensures buffer[0] == packetNr
    ensures forall k :: 1 <= k < buffer.Length ==> buffer[k] == old(buffer[k])
    ensures nr == buffer[MessageSlot(iov, msgs, 0).value] && nr == packetNr
  {
    buffer[0] := packetNr;
    var slot := MessageSlot(iov, msgs, 0).value;
    nr := buffer[slot];
  }

  /**
   * One iteration of eth-test-send.c:46-55 for packet `n`: wait for its
   * deadline, then stamp and send it. Takes the late count and the numbers
   * sent for packets 1..n-1 and returns them for packets 1..n.
   */
  method SendOne(origin: Timeval, clock: nat -> Timeval, buffer: array<nat>, iov: array<IoVec>, msgs: array<MsgHdr>,
                 n: nat, late: nat, sent: seq<nat>)
    returns (late': nat, sent': seq<nat>)
    requires n > 0
    requires buffer.Length == MSG_BATCHSIZE && iov.Length == MSG_BATCHSIZE && msgs.Length == MSG_BATCHSIZE
    requires MessageSlot(iov, msgs, 0) == Some(0)
    requires late == LatePackets(origin, clock, n - 1)
    requires |sent| == n - 1 && forall i :: 0 <= i < n - 1 ==> sent[i] == i + 1
    modifies buffer
    ensures late' == LatePackets(origin, clock, n)
    ensures |sent'| == n && forall i :: 0 <= i < n ==> sent'[i] == i + 1
    ensures buffer[0] == n
    ensures forall k :: 1 <= k < buffer.Length ==> buffer[k] == old(buffer[k])
  {
    var l := WaitForPacket(origin, clock, n);
    late' := late + l;
    var nr := SendPacket(buffer, iov, msgs, n);
    sent' := sent + [nr];
  }

  /**
   * `send_data`: `origin` is the clock reading taken when sending starts and
   * `clock(k)` the reading inside the wait before the `k+1`-th packet. Returns
   * the final `packet_nr`, the `late` count and the packet numbers of the
   * messages passed to `sendmsg`, in order.
   */
  method SendData(origin: Timeval, clock: nat -> Timeval) returns (packetNr: nat, late: nat, sent: seq<nat>)
    ensures packetNr == TOTAL_PACKETS
    ensures sent == Numbered(packetNr)
    ensures late == LatePackets(origin, clock, packetNr) && late <= packetNr
  {
    var buffer, iov, msgs := NewBatch();

    packetNr, late, sent := 0, 0, [];
    ghost var slots := buffer[..];
    while packetNr < TOTAL_PACKETS
      invariant packetNr <= TOTAL_PACKETS
      invariant |sent| == packetNr && forall i :: 0 <= i < packetNr ==> sent[i] == i + 1
      invariant late == LatePackets(origin, clock, packetNr)
      invariant MessageSlot(iov, msgs, 0) == Some(0)
      invariant packetNr > 0 ==> buffer[0] == packetNr
      invariant forall k :: 1 <= k < MSG_BATCHSIZE ==> buffer[k] == slots[k]
      modifies buffer
    {
      packetNr := packetNr + 1;
      late, sent := SendOne(origin, clock, buffer, iov, msgs, packetNr, late, sent);
    }
  }
}
