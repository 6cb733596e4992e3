/** The driver and the device as the objects they are, each method proved against its step. */
module VirtioDevices {
  import opened Basics
  import opened VirtioProtocol
  import opened VirtioProofs

  /** What both sides share: the two rings, undelivered kicks and guest memory. */
  class Bus {
    var txAvail: seq<Desc>
    var txUsed: seq<Ptr>
    var rxAvail: seq<Desc>
    var rxUsed: seq<Ptr>
    var kicks: seq<Kick>
    var gheap: map<Ptr, Bytes>

    constructor ()
      ensures txAvail == [] && txUsed == [] && rxAvail == [] && rxUsed == [] && kicks == [] && gheap == map[]
    {
      txAvail, txUsed, rxAvail, rxUsed, kicks, gheap := [], [], [], [], [], map[];
    }
  }

  /** struct virtio_custom_device, and the local `rcvBuf` of a read that sleeps. */
  class Driver {
    const bus: Bus
    var buffers: nat
    const bufLens: array<nat>
    var readData: Ptr
    var done: nat
    var reader: Reader

    constructor (bus: Bus)
      ensures this.bus == bus && fresh(bufLens) && bufLens.Length == BUFFERS
      ensures buffers == 0 && done == 0 && reader == Idle
    {
      this.bus := bus;
      bufLens := new nat[BUFFERS];
      buffers, readData, done, reader := 0, NULL, 0, Idle;
    }

    /** `accepted` is not visible to the user: a refusal returns 28 or 1, like a short write. */
    method Write(data: Bytes, missing: nat, toSend: Ptr, block: Bytes, ghost dev: Device)
      returns (accepted: bool, ret: int)
      requires dev.bus == bus && dev.rcvBufs != bufLens
      requires WriteStep(View(this, dev), data, missing, toSend, block).Ok?
      modifies this, bus, bufLens
      ensures View(this, dev) == WriteStep(old(View(this, dev)), data, missing, toSend, block).s
      ensures accepted ==> 0 <= ret <= |data|
      ensures accepted ==> WriteStep(old(View(this, dev)), data, missing, toSend, block).obs == Wrote(data[..ret])
      ensures !accepted ==> WriteStep(old(View(this, dev)), data, missing, toSend, block).obs == WriteRefused(ret)
    {
      if buffers >= BUFFERS {
        return false, ENOSPC;
      }
      if toSend == NULL {
        return false, 1;
      }
      bus.gheap := bus.gheap[toSend := block];
      var count := |data| - missing;
      bufLens[buffers] := count;
      buffers := buffers + 1;
      if HasRoom(bus.txAvail, bus.txUsed) {
        bus.txAvail := bus.txAvail + [Desc(toSend, count)];
      }
      bus.kicks := bus.kicks + [KickTx];
      return true, count;
    }

    method OutbufCallback(ghost dev: Device)
      requires dev.bus == bus && TxCallbackStep(View(this, dev)).Ok?
      modifies bus
      ensures View(this, dev) == TxCallbackStep(old(View(this, dev))).s
      ensures old(bus.txUsed) == [] ==> bus.txUsed == [] && bus.gheap == old(bus.gheap)
      ensures old(bus.txUsed) != [] ==>
                bus.txUsed == old(bus.txUsed[1..]) && bus.gheap == old(bus.gheap - {bus.txUsed[0]})
    {
      if bus.txUsed != [] {
        var buf := bus.txUsed[0];
        bus.txUsed := bus.txUsed[1..];
        bus.gheap := bus.gheap - {buf};
      }
    }

    /** read() up to wait_for_completion; `sleeping` says whether it got that far. */
    method ReadStart(rcvBuf: Ptr, ghost dev: Device) returns (sleeping: bool, ret: int)
      requires dev.bus == bus && ReadStartStep(View(this, dev), rcvBuf).Ok?
      modifies this, bus
      ensures View(this, dev) == ReadStartStep(old(View(this, dev)), rcvBuf).s
      ensures ReadStartStep(old(View(this, dev)), rcvBuf).obs == if sleeping then Silent else ReadNothing(ret)
    {
      if buffers < 1 {
        return false, 0;
      }
      if rcvBuf == NULL {
        return false, -ENOMEM;
      }
      var len := bufLens[buffers - 1];
      bus.gheap := bus.gheap[rcvBuf := Zeros(len)];
      if HasRoom(bus.rxAvail, bus.rxUsed) {
        bus.rxAvail := bus.rxAvail + [Desc(rcvBuf, len)];
      }
      bus.kicks := bus.kicks + [KickRx];
      reader := Waiting(rcvBuf);
      return true, 0;
    }

    method InbufCallback(ghost dev: Device)
      requires dev.bus == bus
      modifies this, bus
      ensures View(this, dev) == RxCallbackStep(old(View(this, dev))).s
      ensures done == old(done) + 1
      ensures old(bus.rxUsed) != [] ==> readData == old(bus.rxUsed[0]) && bus.rxUsed == old(bus.rxUsed[1..])
    {
      if bus.rxUsed == [] {
        readData := NULL;
      } else {
        readData := bus.rxUsed[0];
        bus.rxUsed := bus.rxUsed[1..];
      }
      buffers := if buffers == 0 then U32 - 1 else buffers - 1;
      done := done + 1;
    }

    /** read() after it wakes; `bytes` is what reached the user. */
    method ReadFinish(missing: nat, ghost dev: Device) returns (bytes: Bytes, ret: int)
      requires dev.bus == bus && dev.rcvBufs != bufLens
      requires ReadFinishStep(View(this, dev), missing).Ok?
      modifies this, bus, bufLens
      ensures View(this, dev) == ReadFinishStep(old(View(this, dev)), missing).s
      ensures ReadFinishStep(old(View(this, dev)), missing).obs == ReadGot(bytes, missing) && ret == |bytes|
      ensures done == old(done) - 1
    {
      done := done - 1;
      bytes := bus.gheap[readData][..bufLens[buffers] - missing];
      if missing != 0 {
        bufLens[buffers] := bufLens[buffers] - missing;
      }
      bus.gheap := bus.gheap - {reader.buf};
      reader := Idle;
      ret := bufLens[buffers];
    }
  }

  /** VirtIOCustdev and the host allocator. */
  class Device {
    const bus: Bus
    var rcvCount: nat
    const rcvBufs: array<Ptr>
    var hheap: map<Ptr, Bytes>

    constructor (bus: Bus)
      ensures this.bus == bus && fresh(rcvBufs) && rcvBufs.Length == BUFFERS
      ensures rcvCount == 0 && hheap == map[]
    {
      this.bus := bus;
      rcvBufs := new Ptr[BUFFERS];
      rcvCount, hheap := 0, map[];
    }

    method HandleOutbuf(queueReady: bool, running: bool, copy: Ptr, ghost drv: Driver)
      requires drv.bus == bus && drv.bufLens != rcvBufs
      requires HandleTxStep(View(drv, this), queueReady && running, copy).Ok?
      modifies this, bus, rcvBufs
      ensures View(drv, this) == HandleTxStep(old(View(drv, this)), queueReady && running, copy).s
    {
      bus.kicks := bus.kicks[1..];
      if !queueReady {
        return;
      }
      if !running {
        return;
      }
      var vqe := bus.txAvail[0];
      bus.txAvail := bus.txAvail[1..];
      rcvBufs[rcvCount] := copy;
      hheap := hheap[copy := bus.gheap[vqe.ptr][..vqe.len]];
      rcvCount := rcvCount + 1;
      bus.txUsed := bus.txUsed + [vqe.ptr];
    }

    method HandleInbuf(queueReady: bool, running: bool, ghost drv: Driver)
      requires drv.bus == bus && HandleRxStep(View(drv, this), queueReady && running).Ok?
      modifies this, bus
      ensures View(drv, this) == HandleRxStep(old(View(drv, this)), queueReady && running).s
    {
      bus.kicks := bus.kicks[1..];
      if !queueReady {
        return;
      }
      if !running {
        return;
      }
      var lastBuf := rcvCount - 1;
      var vqe := bus.rxAvail[0];
      bus.rxAvail := bus.rxAvail[1..];
      bus.gheap := bus.gheap[vqe.ptr := hheap[rcvBufs[lastBuf]][..vqe.len] + bus.gheap[vqe.ptr][vqe.len..]];
      rcvCount := rcvCount - 1;
      bus.rxUsed := bus.rxUsed + [vqe.ptr];
      hheap := hheap - {rcvBufs[lastBuf]};
    }

    /** Frees every copy the device still holds, in order; a double free is not defined. */
    method Unrealize()
      requires rcvCount <= rcvBufs.Length && FreeCopies(hheap, rcvBufs[..], rcvCount).Some?
      modifies this`hheap
      ensures FreeCopies(old(hheap), rcvBufs[..], rcvCount) == Some(hheap)
    {
      var i := 0;
      while i < rcvCount
        invariant 0 <= i <= rcvCount
        invariant FreeCopies(old(hheap), rcvBufs[..], i) == Some(hheap)
      {
        FreeCopiesDefined(old(hheap), rcvBufs[..], i + 1, rcvCount);
        hheap := hheap - {rcvBufs[i]};
        i := i + 1;
      }
    }
  }

  lemma {:induction false} FreeCopiesDefined(heap: map<Ptr, Bytes>, bufs: seq<Ptr>, k: nat, n: nat)
    requires k <= n <= |bufs| && FreeCopies(heap, bufs, n).Some?
    ensures FreeCopies(heap, bufs, k).Some?
    decreases n - k
  {
    if k < n {
      FreeCopiesDefined(heap, bufs, k, n - 1);
    }
  }

  ghost function View(drv: Driver, dev: Device): Sys
    reads drv, drv.bus, drv.bufLens, dev, dev.rcvBufs
  {
    Sys(drv.buffers, drv.bufLens[..], drv.readData, drv.done, drv.bus.gheap, drv.reader,
        drv.bus.txAvail, drv.bus.txUsed, drv.bus.rxAvail, drv.bus.rxUsed, drv.bus.kicks,
        dev.rcvCount, dev.rcvBufs[..], dev.hheap)
  }

  /** The two objects run one step. */
  method Perform(drv: Driver, dev: Device, a: Step) returns (obs: Obs)
    requires drv.bus == dev.bus && drv.bufLens != dev.rcvBufs && Apply(View(drv, dev), a).Ok?
    modifies drv, dev, drv.bus, drv.bufLens, dev.rcvBufs
    ensures Apply(old(View(drv, dev)), a) == Ok(View(drv, dev), obs)
  {
    obs := Silent;
    match a
    case Write(data, missing, toSend, block) =>
      var accepted, ret := drv.Write(data, missing, toSend, block, dev);
      obs := if accepted then Wrote(data[..ret]) else WriteRefused(ret);
    case HandleTx(ready, copy) => dev.HandleOutbuf(ready, true, copy, drv);
    case TxCallback => drv.OutbufCallback(dev);
    case ReadStart(rcvBuf) =>
      var sleeping, ret := drv.ReadStart(rcvBuf, dev);
      if !sleeping {
        obs := ReadNothing(ret);
      }
    case HandleRx(ready) => dev.HandleInbuf(ready, true, drv);
    case RxCallback => drv.InbufCallback(dev);
    case ReadFinish(missing) =>
      var bytes, ret := drv.ReadFinish(missing, dev);
      obs := ReadGot(bytes, missing);
  }

  /** A fresh driver and device perform any legal schedule without a fault, and what the user
      saw is a history of one stack, whose contents are spread over the two objects. */
  method Session(trace: seq<Step>, bus: Bus, drv: Driver, dev: Device) returns (obs: seq<Obs>)
    requires drv.bus == dev.bus == bus && drv.bufLens != dev.rcvBufs
    requires Initial(View(drv, dev)) && Legal(View(drv, dev), trace)
    modifies drv, dev, bus, drv.bufLens, dev.rcvBufs
    ensures Inv(View(drv, dev)) && StackHistory([], obs, Stack(View(drv, dev)))
  {
    ghost var start := View(drv, dev);
    RunsImplementStack(start, trace);
    RestStart(start, trace);
    obs := [];
    var i := 0;
    while i < |trace|
      invariant 0 <= i <= |trace|
      invariant Rest(start, trace, i, obs, View(drv, dev))
    {
      RestNext(start, trace, i, obs, View(drv, dev));
      var o := Perform(drv, dev, trace[i]);
      obs := obs + [o];
      i := i + 1;
    }
    RestDone(start, trace, obs, View(drv, dev));
  }

  /** After `i` steps that showed `obs`, the run goes on from `s`. */
  ghost predicate Rest(start: Sys, trace: seq<Step>, i: nat, obs: seq<Obs>, s: Sys)
    requires i <= |trace|
  {
    Inv(s) && Legal(s, trace[i..]) && Run(start, trace) == Prepend(obs, Run(s, trace[i..]))
  }

  lemma RestStart(start: Sys, trace: seq<Step>)
    requires Initial(start) && Legal(start, trace)
    ensures Rest(start, trace, 0, [], start)
  {
    InitialInv(start);
    RunGood(start, trace);
    assert trace[0..] == trace;
    assert [] + Run(start, trace).obs == Run(start, trace).obs;
  }

  lemma RestNext(start: Sys, trace: seq<Step>, i: nat, obs: seq<Obs>, s: Sys)
    requires i < |trace| && Rest(start, trace, i, obs, s)
    ensures var o := Apply(s, trace[i]); o.Ok? && Rest(start, trace, i + 1, obs + [o.obs], o.s)
  {
    StepGood(s, trace[i]);
    assert trace[i..][1..] == trace[i + 1..];
    var o := Apply(s, trace[i]);
    PrependTwice(obs, o.obs, Run(o.s, trace[i + 1..]));
  }

  lemma RestDone(start: Sys, trace: seq<Step>, obs: seq<Obs>, s: Sys)
    requires Rest(start, trace, |trace|, obs, s)
    ensures Run(start, trace) == Ran(s, obs)
  {
    assert Run(s, trace[|trace|..]) == Ran(s, []);
    assert obs + [] == obs;
  }

  ghost function Prepend(obs: seq<Obs>, r: RunResult): RunResult {
    match r
    case Broke => Broke
    case Ran(s, more) => Ran(s, obs + more)
  }

  lemma PrependTwice(obs: seq<Obs>, o: Obs, r: RunResult)
    ensures Prepend(obs, Prepend([o], r)) == Prepend(obs + [o], r)
  {
    if r.Ran? {
      assert obs + ([o] + r.obs) == (obs + [o]) + r.obs;
    }
  }
}
