/**
 * Parameters shared by the UDP sender and receiver, `size_t` arithmetic, and
 * the set-up of the `iovec`/`mmsghdr` arrays that both sides perform before
 * they start: message slot `i` of the batch buffer is described by `iov[i]`,
 * and `msgs[i]` carries that single `iov` and nothing else.
 *
 * Pointers are modelled as indices into the array they point into, with
 * `None` for NULL.
 */
module EthParams {
  import opened Wrappers

  /** How many batches of messages the receiver counts. */
  const NR_BATCHES: nat := 512
  /** Messages per batch. */
  const MSG_BATCHSIZE: nat := 128
  /** Size of each message, in bytes. */
  const MAX_MSGSIZE: nat := 8900
  /** Target rate of one data stream: 3/4 Gbit/s. */
  const SPEED_BITS_PER_SEC: nat := 3 * 1000 * 1000 * 1000 / 4
  /** Number of ports (data streams). */
  const NR_PORTS: nat := 12

  /** `size_t` values are below this bound; its arithmetic wraps modulo it. */
  const SIZE_T_LIMIT: nat := 0x1_0000_0000_0000_0000

  /** `long` values lie in `[-LONG_LIMIT, LONG_LIMIT)`. */
  const LONG_LIMIT: nat := 0x8000_0000_0000_0000

  /** The `size_t` result of an unsigned computation whose exact value is `x`. */
  function SizeT(x: int): (r: nat)
    ensures r < SIZE_T_LIMIT
    ensures 0 <= x < SIZE_T_LIMIT ==> r == x
    ensures -(SIZE_T_LIMIT as int) <= x < 0 ==> r == SIZE_T_LIMIT + x
  {
    x % SIZE_T_LIMIT
  }

  /** The `long` that `printf("%ld")` reads from the bit pattern of the `size_t` value `x` (two's complement). */
  function AsLong(x: nat): (r: int)
    requires x < SIZE_T_LIMIT
    ensures -(LONG_LIMIT as int) <= r < LONG_LIMIT
    ensures SizeT(r) == x
  {
    if x < LONG_LIMIT then x else x - SIZE_T_LIMIT
  }

  /** `struct iovec`: the buffer slot it points at and its length. */
  datatype IoVec = IoVec(base: Option<nat>, len: nat)

  /** `struct msghdr`: address, scatter/gather list and control data, with their lengths, and flags. */
  datatype MsgHdr = MsgHdr(name: Option<nat>, nameLen: nat, iov: Option<nat>, iovLen: nat,
                           control: Option<nat>, controlLen: nat, flags: int)

  /** What slot `i` holds after set-up: `iov[i]` covers the whole of `buffer[i]`... */
  function SlotIoVec(i: nat): IoVec {
    IoVec(Some(i), MAX_MSGSIZE)
  }

  /** ...and `msgs[i]` has `iov[i]` as its only entry, no address and no control data. */
  function SlotMsg(i: nat): MsgHdr {
    MsgHdr(None, 0, Some(i), 1, None, 0, 0)
  }

  /** The buffer slot that message `k` reads from or writes to, following its two pointers. */
  function MessageSlot(iov: array<IoVec>, msgs: array<MsgHdr>, k: nat): Option<nat>
    requires k < msgs.Length
    reads iov, msgs
  {
    match msgs[k].iov
    case None => None
    case Some(j) => if j < iov.Length then iov[j].base else None
  }

  /** The set-up loop: every message of the batch gets its own slot of the buffer. */
  method SetupMessages(iov: array<IoVec>, msgs: array<MsgHdr>)
    requires iov.Length == MSG_BATCHSIZE && msgs.Length == MSG_BATCHSIZE
    modifies iov, msgs
    ensures forall i :: 0 <= i < MSG_BATCHSIZE ==> iov[i] == SlotIoVec(i) && msgs[i] == SlotMsg(i)
    ensures forall k :: 0 <= k < MSG_BATCHSIZE ==> MessageSlot(iov, msgs, k) == Some(k)
  {
    var i := 0;
    while i < MSG_BATCHSIZE
      invariant 0 <= i <= MSG_BATCHSIZE
      invariant forall k :: 0 <= k < i ==> iov[k] == SlotIoVec(k) && msgs[k] == SlotMsg(k)
    {
      iov[i] := IoVec(Some(i), MAX_MSGSIZE);
      msgs[i] := MsgHdr(None, 0, Some(i), 1, None, 0, 0);
      i := i + 1;
    }
  }

  /**
   * The buffer and the two descriptor arrays both programs allocate on their
   * stack (a `packet_nr` per message slot), with the set-up loop run over them.
   */
  method NewBatch() returns (buffer: array<nat>, iov: array<IoVec>, msgs: array<MsgHdr>)
    ensures fresh(buffer) && fresh(iov) && fresh(msgs)
    ensures buffer.Length == MSG_BATCHSIZE && iov.Length == MSG_BATCHSIZE && msgs.Length == MSG_BATCHSIZE
    ensures forall k :: 0 <= k < MSG_BATCHSIZE ==> MessageSlot(iov, msgs, k) == Some(k)
  {
    buffer := new nat[MSG_BATCHSIZE];
    iov := new IoVec[MSG_BATCHSIZE];
    msgs := new MsgHdr[MSG_BATCHSIZE];
    SetupMessages(iov, msgs);
  }
}
