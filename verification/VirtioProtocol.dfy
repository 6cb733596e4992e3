/** The custom virtio device as one protocol: a guest driver and a host device that together
    keep a stack of byte strings behind two split virtqueues.

    Every C function is one step function on the joint state.  A step that would run into
    undefined behaviour (a null or freed pointer, an index outside an array, a double free)
    is a `Fault`.  What the surrounding kernel, QEMU and user must do is `Enabled`. */
module VirtioProtocol {
  import opened Basics

  /** An address in the guest's or the host's allocator; 0 is the null pointer. */
  type Ptr = nat
  const NULL: Ptr := 0

  const BUFFERS := 1024
  const VRING_NUM := 256

  const ENOSPC := 28
  const ENOMEM := 12

  /** One descriptor: the guest address and the byte count of the single scatterlist entry. */
  datatype Desc = Desc(ptr: Ptr, len: nat)

  datatype Kick = KickTx | KickRx

  /** The file operation in progress: none, or a read that sleeps on `data_ready`. */
  datatype Reader = Idle | Waiting(buf: Ptr)

  datatype Sys = Sys(
    // driver: struct virtio_custom_device, the guest allocator and the sleeping reader
    buffers: nat, lens: seq<nat>, readData: Ptr, done: nat,
    gheap: map<Ptr, Bytes>, reader: Reader,
    // the two rings and the notifications not yet delivered to the device
    txAvail: seq<Desc>, txUsed: seq<Ptr>, rxAvail: seq<Desc>, rxUsed: seq<Ptr>, kicks: seq<Kick>,
    // device: VirtIOCustdev and the host allocator
    rcvCount: nat, rcvBufs: seq<Ptr>, hheap: map<Ptr, Bytes>)

  /** What the user of the character device sees of one step. */
  datatype Obs =
    | Silent
    | Wrote(data: Bytes)
    | WriteRefused(code: int)
    | ReadGot(bytes: Bytes, missing: nat)
    | ReadNothing(code: int)

  datatype Outcome = Fault | Ok(s: Sys, obs: Obs)

  datatype Step =
    | Write(data: Bytes, missing: nat, toSend: Ptr, block: Bytes)
    | HandleTx(ready: bool, copy: Ptr)
    | TxCallback
    | ReadStart(rcvBuf: Ptr)
    | HandleRx(ready: bool)
    | RxCallback
    | ReadFinish(missing: nat)

  // ---------------------------------------------------------------- driver steps

  predicate HasRoom(avail: seq<Desc>, used: seq<Ptr>) {
    |avail| + |used| < VRING_NUM
  }

  /** write(): `toSend` is what kmalloc returned, `block` the buffer after copy_from_user left
      the last `missing` bytes uncopied.  The result of adding to the ring is ignored. */
  function WriteStep(s: Sys, data: Bytes, missing: nat, toSend: Ptr, block: Bytes): Outcome {
    if s.buffers >= BUFFERS then Ok(s, WriteRefused(ENOSPC))
    else if toSend == NULL then Ok(s, WriteRefused(1))
    else if missing > |data| || s.buffers >= |s.lens| then Fault
    else
      var count := |data| - missing;
      Ok(s.(gheap := s.gheap[toSend := block],
            lens := s.lens[s.buffers := count],
            buffers := s.buffers + 1,
            txAvail := if HasRoom(s.txAvail, s.txUsed) then s.txAvail + [Desc(toSend, count)] else s.txAvail,
            kicks := s.kicks + [KickTx]),
         Wrote(data[..count]))
  }

  function TxCallbackStep(s: Sys): Outcome {
    if s.txUsed == [] then Ok(s, Silent)
    else if s.txUsed[0] !in s.gheap then Fault
    else Ok(s.(gheap := s.gheap - {s.txUsed[0]}, txUsed := s.txUsed[1..]), Silent)
  }

  function Zeros(n: nat): (z: Bytes)
    ensures |z| == n
  {
    seq(n, _ => 0)
  }

  /** read() up to the point where it sleeps. */
  function ReadStartStep(s: Sys, rcvBuf: Ptr): Outcome {
    if s.buffers < 1 then Ok(s, ReadNothing(0))
    else if s.buffers > |s.lens| then Fault
    else if rcvBuf == NULL then Ok(s, ReadNothing(-ENOMEM))
    else
      var len := s.lens[s.buffers - 1];
      Ok(s.(gheap := s.gheap[rcvBuf := Zeros(len)],
            rxAvail := if HasRoom(s.rxAvail, s.rxUsed) then s.rxAvail + [Desc(rcvBuf, len)] else s.rxAvail,
            kicks := s.kicks + [KickRx],
            reader := Waiting(rcvBuf)),
         Silent)
  }

  function RxCallbackStep(s: Sys): Outcome {
    Ok(s.(readData := if s.rxUsed == [] then NULL else s.rxUsed[0],
          rxUsed := if s.rxUsed == [] then [] else s.rxUsed[1..],
          buffers := if s.buffers == 0 then U32 - 1 else s.buffers - 1,
          done := s.done + 1),
       Silent)
  }

  /** read() after it wakes: copy_to_user leaves the last `missing` bytes uncopied. */
  function ReadFinishStep(s: Sys, missing: nat): Outcome {
    if s.reader.Idle? || s.done == 0 || s.buffers >= |s.lens| then Fault
    else
      var len := s.lens[s.buffers];
      if s.readData !in s.gheap || |s.gheap[s.readData]| < len || missing > len || s.reader.buf !in s.gheap then Fault
      else
        Ok(s.(done := s.done - 1,
              lens := s.lens[s.buffers := len - missing],
              gheap := s.gheap - {s.reader.buf},
              reader := Idle),
           ReadGot(s.gheap[s.readData][..len - missing], missing))
  }

  // ---------------------------------------------------------------- device steps

  /** handle_outbuf(), called for one kick: when the queue is ready and the VM runs (`ready`), pop
      one element, keep a host copy of it, give the element back. */
  function HandleTxStep(s: Sys, ready: bool, copy: Ptr): Outcome {
    if s.kicks == [] then Fault
    else if !ready then Ok(s.(kicks := s.kicks[1..]), Silent)
    else if s.txAvail == [] then Fault
    else
      var d := s.txAvail[0];
      if d.len == 0 || d.ptr !in s.gheap || |s.gheap[d.ptr]| < d.len then Fault
      else if copy == NULL || s.rcvCount >= |s.rcvBufs| then Fault
      else
        Ok(s.(kicks := s.kicks[1..],
              rcvBufs := s.rcvBufs[s.rcvCount := copy],
              hheap := s.hheap[copy := s.gheap[d.ptr][..d.len]],
              rcvCount := s.rcvCount + 1,
              txAvail := s.txAvail[1..],
              txUsed := s.txUsed + [d.ptr]),
           Silent)
  }

  /** handle_inbuf(): pop one element, fill it from the newest copy, free that copy. */
  function HandleRxStep(s: Sys, ready: bool): Outcome {
    if s.kicks == [] then Fault
    else if !ready then Ok(s.(kicks := s.kicks[1..]), Silent)
    else if s.rxAvail == [] || s.rcvCount < 1 || s.rcvCount > |s.rcvBufs| then Fault
    else
      var d := s.rxAvail[0];
      var last := s.rcvBufs[s.rcvCount - 1];
      if d.len == 0 || d.ptr !in s.gheap || |s.gheap[d.ptr]| < d.len then Fault
      else if last !in s.hheap || |s.hheap[last]| < d.len then Fault
      else
        Ok(s.(kicks := s.kicks[1..],
              gheap := s.gheap[d.ptr := s.hheap[last][..d.len] + s.gheap[d.ptr][d.len..]],
              rcvCount := s.rcvCount - 1,
              rxAvail := s.rxAvail[1..],
              rxUsed := s.rxUsed + [d.ptr],
              hheap := s.hheap - {last}),
           Silent)
  }

  function Apply(s: Sys, a: Step): Outcome {
    match a
    case Write(data, missing, toSend, block) => WriteStep(s, data, missing, toSend, block)
    case HandleTx(ready, copy) => HandleTxStep(s, ready, copy)
    case TxCallback => TxCallbackStep(s)
    case ReadStart(rcvBuf) => ReadStartStep(s, rcvBuf)
    case HandleRx(ready) => HandleRxStep(s, ready)
    case RxCallback => RxCallbackStep(s)
    case ReadFinish(missing) => ReadFinishStep(s, missing)
  }

  // ---------------------------------------------------------------- environment

  /** The allocator hands out null or memory that is not in use. */
  predicate Allocates(heap: map<Ptr, Bytes>, p: Ptr) {
    p == NULL || p !in heap
  }

  predicate Accepted(s: Sys, toSend: Ptr) {
    s.buffers < BUFFERS && toSend != NULL
  }

  /** copy_from_user fills a prefix of the block that kmalloc returned. */
  predicate CopiedIn(data: Bytes, missing: nat, block: Bytes) {
    && missing <= |data| == |block| < U32
    && block[..|data| - missing] == data[..|data| - missing]
  }

  /** One file operation at a time, kicks delivered in order with one handler call each, a
      running VM with ready queues, host memory for every copy, one receive interrupt per used
      element.  Transmit interrupts may be late or spurious.  An accepted write copies at least
      one byte and finds a free descriptor. */
  predicate Enabled(s: Sys, a: Step) {
    match a
    case Write(data, missing, toSend, block) =>
      && s.reader.Idle? && Allocates(s.gheap, toSend)
      && (Accepted(s, toSend) ==>
            CopiedIn(data, missing, block) && missing < |data| && HasRoom(s.txAvail, s.txUsed))
    case HandleTx(ready, copy) => ready && s.kicks != [] && s.kicks[0] == KickTx && copy != NULL && copy !in s.hheap
    case TxCallback => true
    case ReadStart(rcvBuf) => s.reader.Idle? && Allocates(s.gheap, rcvBuf)
    case HandleRx(ready) => ready && s.kicks != [] && s.kicks[0] == KickRx
    case RxCallback => s.rxUsed != []
    case ReadFinish(missing) =>
      s.reader.Waiting? && s.done > 0 && (s.buffers < |s.lens| ==> missing <= s.lens[s.buffers])
  }

  /** After probe and realize: no buffer anywhere; the two arrays hold anything. */
  predicate Initial(s: Sys) {
    && s.buffers == 0 && |s.lens| == BUFFERS && s.done == 0 && s.reader.Idle?
    && s.gheap == map[] && s.hheap == map[] && s.rcvCount == 0 && |s.rcvBufs| == BUFFERS
    && s.txAvail == [] && s.txUsed == [] && s.rxAvail == [] && s.rxUsed == [] && s.kicks == []
  }

  // ---------------------------------------------------------------- the abstract stack

  /** Whether a stack of at most BUFFERS byte strings may show its user `o` ... */
  predicate StackAllows(st: seq<Bytes>, o: Obs) {
    match o
    case Silent => true
    case Wrote(data) => |st| < BUFFERS && data != []
    case WriteRefused(code) => code == if |st| == BUFFERS then ENOSPC else 1
    case ReadGot(bytes, missing) =>
      && st != [] && missing <= |st[|st| - 1]|
      && bytes == st[|st| - 1][..|st[|st| - 1]| - missing]
    case ReadNothing(code) => code == if st == [] then 0 else -ENOMEM
  }

  /** ... and the stack that results. */
  function StackAfter(st: seq<Bytes>, o: Obs): seq<Bytes> {
    match o
    case Wrote(data) => st + [data]
    case ReadGot(_, _) => if st == [] then [] else st[..|st| - 1]
    case _ => st
  }

  predicate StackHistory(st: seq<Bytes>, obs: seq<Obs>, final: seq<Bytes>)
    decreases |obs|
  {
    if obs == [] then st == final
    else StackAllows(st, obs[0]) && StackHistory(StackAfter(st, obs[0]), obs[1..], final)
  }

  function Block(heap: map<Ptr, Bytes>, p: Ptr): Bytes {
    if p in heap then heap[p] else []
  }

  function Payload(heap: map<Ptr, Bytes>, d: Desc): Bytes {
    var b := Block(heap, d.ptr);
    if d.len <= |b| then b[..d.len] else b
  }

  function Stored(s: Sys): (r: seq<Bytes>)
    requires s.rcvCount <= |s.rcvBufs|
    ensures |r| == s.rcvCount
  {
    seq(s.rcvCount, i requires 0 <= i < s.rcvCount => Block(s.hheap, s.rcvBufs[i]))
  }

  function Pending(s: Sys): (r: seq<Bytes>)
    ensures |r| == |s.txAvail|
  {
    seq(|s.txAvail|, i requires 0 <= i < |s.txAvail| => Payload(s.gheap, s.txAvail[i]))
  }

  /** The item that has left the device but has not reached the reader yet. */
  function InFlight(s: Sys): seq<Bytes> {
    if s.reader.Waiting? && s.rxAvail == [] then [Block(s.gheap, s.reader.buf)] else []
  }

  function Stack(s: Sys): seq<Bytes>
    requires s.rcvCount <= |s.rcvBufs|
  {
    Stored(s) + Pending(s) + InFlight(s)
  }

  // ---------------------------------------------------------------- runs

  datatype RunResult = Broke | Ran(s: Sys, obs: seq<Obs>)

  function Run(s: Sys, trace: seq<Step>): RunResult
    decreases |trace|
  {
    if trace == [] then Ran(s, [])
    else
      match Apply(s, trace[0])
      case Fault => Broke
      case Ok(s', o) =>
        match Run(s', trace[1..])
        case Broke => Broke
        case Ran(end, obs) => Ran(end, [o] + obs)
  }

  /** Each step is enabled in the state it is taken in; nothing is said about faults. */
  predicate Legal(s: Sys, trace: seq<Step>)
    decreases |trace|
  {
    trace == [] ||
    (Enabled(s, trace[0]) && (Apply(s, trace[0]).Ok? ==> Legal(Apply(s, trace[0]).s, trace[1..])))
  }

  /** unrealize(): free the first `n` host copies in order; `None` is a double free. */
  function FreeCopies(heap: map<Ptr, Bytes>, bufs: seq<Ptr>, n: nat): Option<map<Ptr, Bytes>>
    requires n <= |bufs|
  {
    if n == 0 then Some(heap)
    else
      match FreeCopies(heap, bufs, n - 1)
      case None => None
      case Some(h) => if bufs[n - 1] in h then Some(h - {bufs[n - 1]}) else None
  }
}
