/** What the user meets when the protocol's assumptions on writes, kicks and buffers fail. */
module VirtioFailures {
  import opened Basics
  import opened VirtioProtocol
  import opened VirtioProofs

  /** One call of the transmit handler for each host copy. */
  function Handles(copies: seq<Ptr>): (trace: seq<Step>)
    ensures |trace| == |copies|
  {
    seq(|copies|, i requires 0 <= i < |copies| => HandleTx(true, copies[i]))
  }

  lemma HandlesRest(copies: seq<Ptr>)
    requires copies != []
    ensures Handles(copies)[0] == HandleTx(true, copies[0]) && Handles(copies)[1..] == Handles(copies[1..])
  {
  }

  // ---------------------------------------------------------------- writes that should not be accepted

  /** The two conditions on an accepted write cannot be dropped: the invariant survives it
      exactly when the ring had room and at least one byte was copied ... */
  lemma WriteExact(s: Sys, data: Bytes, missing: nat, toSend: Ptr, block: Bytes)
    requires Inv(s) && s.reader.Idle? && Accepted(s, toSend) && toSend !in s.gheap
    requires CopiedIn(data, missing, block)
    ensures WriteStep(s, data, missing, toSend, block).Ok?
    ensures Inv(WriteStep(s, data, missing, toSend, block).s) <==>
            missing < |data| && HasRoom(s.txAvail, s.txUsed)
  {
    var s' := WriteStep(s, data, missing, toSend, block).s;
    if missing < |data| && HasRoom(s.txAvail, s.txUsed) {
      WriteGood(s, data, missing, toSend, block);
    } else if HasRoom(s.txAvail, s.txUsed) {
      assert s'.txAvail[|s.txAvail|] == Desc(toSend, 0);
    }
  }

  /** After `n` more elements the ring has none, or one of no bytes. */
  predicate Doomed(s: Sys, n: nat) {
    |s.txAvail| == n || (|s.txAvail| > n && s.txAvail[n].len == 0)
  }

  lemma {:induction false} DoomedBreaks(s: Sys, copies: seq<Ptr>)
    requires copies != [] && Doomed(s, |copies| - 1)
    ensures Run(s, Handles(copies)).Broke?
    decreases |copies|
  {
    HandlesRest(copies);
    var o := HandleTxStep(s, true, copies[0]);
    if o.Ok? && |copies| > 1 {
      DoomedBreaks(o.s, copies[1..]);
    }
  }

  /** ... and otherwise the device, having popped every earlier element, pops a null element for
      that write. */
  lemma WriteFaultsDevice(
      s: Sys, data: Bytes, missing: nat, toSend: Ptr, block: Bytes, copies: seq<Ptr>)
    requires Inv(s) && s.reader.Idle? && Accepted(s, toSend) && toSend !in s.gheap
    requires CopiedIn(data, missing, block) && |copies| == |s.txAvail| + 1
    requires Legal(WriteStep(s, data, missing, toSend, block).s, Handles(copies))
    ensures Run(WriteStep(s, data, missing, toSend, block).s, Handles(copies)).Broke? <==>
            !(missing < |data| && HasRoom(s.txAvail, s.txUsed))
  {
    var s' := WriteStep(s, data, missing, toSend, block).s;
    if missing < |data| && HasRoom(s.txAvail, s.txUsed) {
      WriteExact(s, data, missing, toSend, block);
      RunGood(s', Handles(copies));
    } else {
      DoomedBreaks(s', copies);
    }
  }

  /** For example, an empty write to a fresh device. */
  lemma EmptyWriteBreaks(s: Sys)
    requires Initial(s)
    ensures Run(s, [Write([], 0, 1, []), HandleTx(true, 1)]).Broke?
  {
    var trace := [Write([], 0, 1, []), HandleTx(true, 1)];
    assert trace[1..] == [HandleTx(true, 1)];
    assert HandleTxStep(WriteStep(s, [], 0, 1, []).s, true, 1).Fault?;
  }

  // ---------------------------------------------------------------- lost kicks

  /** A handler that finds its queue not ready, or the VM stopped, breaks the correspondence
      between kicks and elements, and only then. */
  lemma KickExact(s: Sys, ready: bool, copy: Ptr)
    requires Inv(s) && s.kicks != [] && copy != NULL && copy !in s.hheap
    ensures var o := Apply(s, if s.kicks[0] == KickTx then HandleTx(ready, copy) else HandleRx(ready));
            o.Ok? && (Inv(o.s) <==> ready)
  {
    if ready {
      StepGood(s, if s.kicks[0] == KickTx then HandleTx(true, copy) else HandleRx(true));
    }
  }

  /** A reader that nothing will wake. */
  ghost predicate Stuck(s: Sys) {
    s.reader.Waiting? && s.kicks == [] && s.rxUsed == [] && s.done == 0 && Owns(s.gheap, GuestOwned(s))
  }

  lemma {:induction false} StuckForever(s: Sys, trace: seq<Step>)
    requires Stuck(s) && Legal(s, trace)
    ensures var r := Run(s, trace);
            r.Ran? && r.s.reader == s.reader && forall i :: 0 <= i < |r.obs| ==> r.obs[i] == Silent
    decreases |trace|
  {
    if trace != [] {
      assert trace[0] == TxCallback;
      if s.txUsed != [] {
        TxCallbackOwns(s);
      }
      StuckForever(TxCallbackStep(s).s, trace[1..]);
    }
  }

  /** A lost receive kick: with it the read would have completed (VirtioProofs.ReadCompletes),
      without it the reader sleeps through every legal continuation. */
  lemma LostReceiveKick(s: Sys, trace: seq<Step>)
    requires Inv(s) && s.kicks != [] && s.kicks[0] == KickRx && Legal(HandleRxStep(s, false).s, trace)
    ensures var r := Run(HandleRxStep(s, false).s, trace);
            && s.reader.Waiting? && r.Ran? && r.s.reader == s.reader
            && forall i :: 0 <= i < |r.obs| ==> r.obs[i] == Silent
  {
    assert s.txAvail == [] && |s.rxAvail| == 1;
    StuckForever(HandleRxStep(s, false).s, trace);
  }

  /** No read, or one that has just gone to sleep. */
  predicate AtRest(s: Sys) {
    && s.rxUsed == [] && s.done == 0
    && match s.reader
       case Idle => s.rxAvail == []
       case Waiting(p) =>
         && 0 < s.buffers <= |s.lens| && s.rxAvail == [Desc(p, s.lens[s.buffers - 1])]
         && p in s.gheap && |s.gheap[p]| == s.lens[s.buffers - 1]
  }

  /** Only `kicks` transmit kicks for more elements than that. */
  ghost predicate Late(s: Sys, kicks: nat) {
    && Counted(s) && Measured(s) && Owned(s) && AtRest(s)
    && kicks < |s.txAvail| && s.kicks == Repeat(KickTx, kicks) + Repeat(KickRx, |s.rxAvail|)
  }

  lemma RepeatLess(k: Kick, n: nat, tail: seq<Kick>)
    requires n > 0
    ensures (Repeat(k, n) + tail)[1..] == Repeat(k, n - 1) + tail
  {
  }

  lemma LateMoves(s: Sys, copy: Ptr)
    requires Counted(s) && Measured(s) && s.txAvail != [] && s.kicks != [] && copy != NULL && copy !in s.hheap
    ensures var o := HandleTxStep(s, true, copy);
            o.Ok? && Counted(o.s) && Measured(o.s) && Stack(o.s) == Stack(s)
  {
    HandleTxMeasured(s, copy);
    HandleTxMoves(s, copy);
  }

  lemma LateStep(s: Sys, kicks: nat, copy: Ptr) returns (s': Sys)
    requires Late(s, kicks) && kicks > 0 && Enabled(s, HandleTx(true, copy))
    ensures Apply(s, HandleTx(true, copy)) == Ok(s', Silent) && Late(s', kicks - 1) && Stack(s') == Stack(s)
    ensures s'.gheap == s.gheap && s'.reader == s.reader && |s'.txAvail| == |s.txAvail| - 1
  {
    LateMoves(s, copy);
    HandleTxOwns(s, copy);
    s' := HandleTxStep(s, true, copy).s;
    RepeatLess(KickTx, kicks, Repeat(KickRx, |s.rxAvail|));
  }

  /** What each call of the handler keeps, with one kick less to go, holds after all of them. */
  lemma {:induction false} HandlesKeep(holds: (Sys, int) -> bool, s: Sys, copies: seq<Ptr>)
    requires holds(s, |copies|) && Legal(s, Handles(copies))
    requires forall x, n, copy {:trigger holds(x, n), HandleTxStep(x, true, copy)}
               | holds(x, n) && n > 0 && Enabled(x, HandleTx(true, copy)) ::
               HandleTxStep(x, true, copy).Ok? && holds(HandleTxStep(x, true, copy).s, n - 1)
    ensures Run(s, Handles(copies)).Ran? && holds(Run(s, Handles(copies)).s, 0)
    decreases |copies|
  {
    if copies != [] {
      HandlesRest(copies);
      HandlesKeep(holds, HandleTxStep(s, true, copies[0]).s, copies[1..]);
    }
  }

  /** Late, with the stack, the guest's memory and the reader of `s0`. */
  ghost predicate LateFrom(s0: Sys, s: Sys, kicks: int)
    requires s0.rcvCount <= |s0.rcvBufs|
  {
    && kicks >= 0 && Late(s, kicks) && Stack(s) == Stack(s0)
    && s.gheap == s0.gheap && s.reader == s0.reader && |s.txAvail| == kicks + 1
  }

  lemma LateRun(s: Sys, copies: seq<Ptr>)
    requires Late(s, |copies|) && |s.txAvail| == |copies| + 1 && Legal(s, Handles(copies))
    ensures var r := Run(s, Handles(copies)); r.Ran? && LateFrom(s, r.s, 0)
  {
    forall x, n, copy | LateFrom(s, x, n) && n > 0 && Enabled(x, HandleTx(true, copy))
      ensures HandleTxStep(x, true, copy).Ok? && LateFrom(s, HandleTxStep(x, true, copy).s, n - 1)
    {
      var x' := LateStep(x, n, copy);
    }
    HandlesKeep((x, n) => LateFrom(s, x, n), s, copies);
  }

  /** A read of `len` bytes sleeps, and its kick is the next thing that the device sees. */
  predicate Asleep(s: Sys, len: nat) {
    && 0 < s.buffers <= |s.lens| && s.lens[s.buffers - 1] == len > 0 && s.kicks == [KickRx]
    && s.reader.Waiting? && s.rxAvail == [Desc(s.reader.buf, len)] && s.rxUsed == [] && s.done == 0
    && s.reader.buf in s.gheap && |s.gheap[s.reader.buf]| == len
    && s.rcvCount <= |s.rcvBufs| && (s.rcvCount > 0 ==> s.rcvBufs[s.rcvCount - 1] in s.hheap)
  }

  /** The newest item that the device has. */
  function Newest(s: Sys): Bytes
    requires 0 < s.rcvCount <= |s.rcvBufs| && s.rcvBufs[s.rcvCount - 1] in s.hheap
  {
    s.hheap[s.rcvBufs[s.rcvCount - 1]]
  }

  lemma AsleepFaults(s: Sys, len: nat)
    requires Asleep(s, len)
    ensures HandleRxStep(s, true).Fault? <==> s.rcvCount == 0 || |Newest(s)| < len
  {
  }

  /** From a sleeping read whose buffer is on the used ring to its return. */
  lemma UsedDelivers(s: Sys)
    requires s.reader.Waiting? && s.rxUsed == [s.reader.buf] && s.done == 0 && 0 < s.buffers <= |s.lens|
    requires s.reader.buf in s.gheap && |s.gheap[s.reader.buf]| == s.lens[s.buffers - 1]
    ensures Delivers(s, [RxCallback, ReadFinish(0)], s.gheap[s.reader.buf])
  {
    var item, s' := s.gheap[s.reader.buf], RxCallbackStep(s).s;
    assert ReadFinishStep(s', 0).obs == ReadGot(item, 0) by {
      assert item[..|item| - 0] == item;
    }
    assert Run(ReadFinishStep(s', 0).s, [ReadFinish(0)][1..]) == Ran(ReadFinishStep(s', 0).s, []);
    assert Delivers(s', [ReadFinish(0)], item);
    DeliversLater(s, RxCallback, [ReadFinish(0)], item);
    assert [RxCallback] + [ReadFinish(0)] == [RxCallback, ReadFinish(0)];
  }

  lemma AsleepDelivers(s: Sys, len: nat)
    requires Asleep(s, len) && s.rcvCount > 0 && |Newest(s)| >= len
    ensures Delivers(s, [HandleRx(true)] + [RxCallback, ReadFinish(0)], Newest(s)[..len])
  {
    AsleepFaults(s, len);
    var item, s' := Newest(s), HandleRxStep(s, true).s;
    assert s'.gheap[s.reader.buf] == item[..len] by {
      assert s.gheap[s.reader.buf][len..] == [];
    }
    UsedDelivers(s');
    DeliversLater(s, HandleRx(true), [RxCallback, ReadFinish(0)], item[..len]);
  }

  /** A sleeping read from a device that has only the items below `below` returns a prefix of the
      newest of them, of the length of the item that the driver asked for, or faults. */
  ghost predicate WakesBelow(s: Sys, st: seq<Bytes>, below: nat)
    requires below < |st|
  {
    var o, len := HandleRxStep(s, true), |st[|st| - 1]|;
    && (o.Fault? <==> below == 0 || |st[below - 1]| < len)
    && (o.Ok? ==> Delivers(s, [HandleRx(true)] + [RxCallback, ReadFinish(0)], st[below - 1][..len]))
  }

  /** The same of a read that starts now. */
  ghost predicate ReadsBelow(s: Sys, rcvBuf: Ptr, st: seq<Bytes>, below: nat)
    requires below < |st|
  {
    var o := ReadStartStep(s, rcvBuf);
    o.Ok? && o.s.reader == Waiting(rcvBuf) && WakesBelow(o.s, st, below)
  }

  lemma AsleepWakes(s: Sys, st: seq<Bytes>)
    requires s.rcvCount < |st| && Asleep(s, |st[|st| - 1]|)
    requires s.rcvCount > 0 ==> Newest(s) == st[s.rcvCount - 1]
    ensures WakesBelow(s, st, s.rcvCount)
  {
    var len := |st[|st| - 1]|;
    AsleepFaults(s, len);
    if s.rcvCount > 0 && |Newest(s)| >= len {
      AsleepDelivers(s, len);
    }
  }

  lemma LateAsleep(s: Sys)
    requires Counted(s) && Measured(s) && AtRest(s) && s.reader.Waiting? && s.kicks == [KickRx] && s.txAvail != []
    ensures s.rcvCount < |Stack(s)| == s.buffers && Asleep(s, |Stack(s)[s.buffers - 1]|)
    ensures s.rcvCount > 0 ==> Newest(s) == Stack(s)[s.rcvCount - 1]
  {
    ItemLength(s, s.buffers - 1);
    var last := |s.txAvail| - 1;
    assert s.txAvail[last].len == s.lens[s.rcvCount + last] > 0;
    if s.rcvCount > 0 {
      assert Stack(s)[s.rcvCount - 1] == Stored(s)[s.rcvCount - 1];
    }
  }

  lemma LateWakes(s: Sys)
    requires Counted(s) && Measured(s) && AtRest(s) && s.reader.Waiting? && s.kicks == [KickRx] && s.txAvail != []
    ensures |Stack(s)| == s.rcvCount + |s.txAvail| && WakesBelow(s, Stack(s), s.rcvCount)
  {
    LateAsleep(s);
    AsleepWakes(s, Stack(s));
  }

  lemma LateReadStarts(s: Sys, rcvBuf: Ptr) returns (s': Sys)
    requires Counted(s) && Measured(s) && AtRest(s) && s.kicks == [] && s.txAvail != []
    requires s.reader.Idle? && rcvBuf != NULL && rcvBuf !in s.gheap
    ensures ReadStartStep(s, rcvBuf) == Ok(s', Silent) && s'.reader == Waiting(rcvBuf) && Stack(s') == Stack(s)
    ensures Counted(s') && Measured(s') && AtRest(s') && s'.kicks == [KickRx]
    ensures s'.txAvail == s.txAvail && s'.rcvCount == s.rcvCount
  {
    ReadStartMeasured(s, rcvBuf);
    ReadStartKeepsStack(s, rcvBuf);
    s' := ReadStartStep(s, rcvBuf).s;
  }

  lemma LateReads(s: Sys, rcvBuf: Ptr)
    requires Counted(s) && Measured(s) && AtRest(s) && s.kicks == [] && s.txAvail != []
    requires s.reader.Idle? && rcvBuf != NULL && rcvBuf !in s.gheap
    ensures |Stack(s)| == s.rcvCount + |s.txAvail| && ReadsBelow(s, rcvBuf, Stack(s), s.rcvCount)
  {
    var s' := LateReadStarts(s, rcvBuf);
    LateWakes(s');
  }

  lemma KicksLost(s: Sys, kicks: seq<Kick>)
    requires Counted(s) && Measured(s) && Owned(s)
    ensures var s' := s.(kicks := kicks); Counted(s') && Measured(s') && Owned(s') && Stack(s') == Stack(s)
  {
    var s' := s.(kicks := kicks);
    assert Stored(s') == Stored(s) && Pending(s') == Pending(s);
    assert GuestOwned(s') == GuestOwned(s);
  }

  lemma PendingRests(s: Sys)
    requires Core(s) && s.txAvail != []
    ensures AtRest(s)
  {
  }

  lemma LostKickLate(s: Sys, lost: Ptr) returns (s': Sys)
    requires Inv(s) && s.kicks != [] && s.kicks[0] == KickTx
    ensures HandleTxStep(s, false, lost) == Ok(s', Silent) && s.txAvail != [] && Late(s', |s.txAvail| - 1)
    ensures Stack(s') == Stack(s) && s'.gheap == s.gheap && s'.reader == s.reader && s'.txAvail == s.txAvail
  {
    assert s.txAvail != [];
    PendingRests(s);
    KicksLost(s, s.kicks[1..]);
    s' := HandleTxStep(s, false, lost).s;
    RepeatLess(KickTx, |s.txAvail|, Repeat(KickRx, |s.rxAvail|));
  }

  /** The sleeping read, or else the next one, takes the item below the top for the top. */
  ghost predicate OneBehind(s: Sys, rcvBuf: Ptr, st: seq<Bytes>)
    requires st != []
  {
    if s.reader.Waiting? then WakesBelow(s, st, |st| - 1) else ReadsBelow(s, rcvBuf, st, |st| - 1)
  }

  lemma LateBehind(s: Sys, rcvBuf: Ptr)
    requires Late(s, 0) && |s.txAvail| == 1 && rcvBuf != NULL && rcvBuf !in s.gheap
    ensures Stack(s) != [] && OneBehind(s, rcvBuf, Stack(s))
  {
    assert s.kicks == Repeat(KickRx, |s.rxAvail|);
    if s.reader.Waiting? {
      LateWakes(s);
    } else {
      LateReads(s, rcvBuf);
    }
  }

  /** A lost transmit kick (or two that are coalesced): the device handles the other kicks without
      complaint, but it is one item behind.  The read that sleeps behind them, or else the next
      one, faults exactly when there is no item below the top or that item is the shorter one;
      otherwise it returns a prefix of the item below the top. */
  lemma LostTransmitKick(s: Sys, lost: Ptr, copies: seq<Ptr>, rcvBuf: Ptr)
    requires Inv(s) && s.kicks != [] && s.kicks[0] == KickTx && |copies| + 1 == |s.txAvail|
    requires Legal(HandleTxStep(s, false, lost).s, Handles(copies))
    requires rcvBuf != NULL && rcvBuf !in s.gheap
    ensures var run := Run(HandleTxStep(s, false, lost).s, Handles(copies));
            run.Ran? && run.s.reader == s.reader && Stack(s) != [] && OneBehind(run.s, rcvBuf, Stack(s))
  {
    var s' := LostKickLate(s, lost);
    LateRun(s', copies);
    LateBehind(Run(s', Handles(copies)).s, rcvBuf);
  }

  // ---------------------------------------------------------------- spurious interrupts, no host memory

  /** A receive interrupt keeps the invariant exactly when there is a used element. */
  lemma InterruptExact(s: Sys)
    requires Inv(s)
    ensures Inv(RxCallbackStep(s).s) <==> s.rxUsed != []
  {
    if s.rxUsed != [] {
      RxCallbackGood(s);
    }
  }

  /** Without one, a sleeping reader wakes at once and copies from a null pointer ... */
  lemma SpuriousWakes(s: Sys, missing: nat)
    requires Inv(s) && s.rxUsed == [] && s.reader.Waiting?
    ensures var s' := RxCallbackStep(s).s;
            s'.done > 0 && ReadFinishStep(s', missing).Fault?
  {
  }

  /** ... and with no reader the driver forgets an item that the device keeps: the next read
      indexes far outside `buf_lens` if there was none, finds nothing if it was the only one, and
      otherwise does not wait and copies from a null pointer. */
  lemma SpuriousForgets(s: Sys, rcvBuf: Ptr, missing: nat)
    requires Inv(s) && s.reader.Idle? && rcvBuf != NULL && rcvBuf !in s.gheap
    ensures var s', n := RxCallbackStep(s).s, |Stack(s)|;
            var o := ReadStartStep(s', rcvBuf);
            && Stack(s') == Stack(s)
            && (o.Fault? <==> n == 0)
            && (n == 1 ==> o == Ok(s', ReadNothing(0)))
            && (n > 1 ==> o.s.reader == Waiting(rcvBuf) && o.s.done > 0 && ReadFinishStep(o.s, missing).Fault?)
  {
    RxCallbackKeepsStack(s);
    assert |Stack(s)| == s.buffers;
  }

  /** The transmit handler does not look at what its malloc returns: it faults exactly when that
      is null. */
  lemma HostMemoryExact(s: Sys, copy: Ptr)
    requires Inv(s) && s.kicks != [] && s.kicks[0] == KickTx && Allocates(s.hheap, copy)
    ensures HandleTxStep(s, true, copy).Fault? <==> copy == NULL
  {
    if copy != NULL {
      HandleTxGood(s, copy);
    }
  }

  // ---------------------------------------------------------------- reads of fewer bytes than are there

  lemma {:induction false} SilentHistory(st: seq<Bytes>, obs: seq<Obs>, final: seq<Bytes>)
    requires StackHistory(st, obs, final) && forall i :: 0 <= i < |obs| ==> obs[i] == Silent
    ensures st == final
    decreases |obs|
  {
    if obs != [] {
      SilentHistory(st, obs[1..], final);
    }
  }

  lemma HistoryTop(st: seq<Bytes>, obs: seq<Obs>, final: seq<Bytes>, item: Bytes)
    requires StackHistory(st, obs, final) && obs != [] && obs[|obs| - 1] == ReadGot(item, 0)
    requires forall i :: 0 <= i < |obs| - 1 ==> obs[i] == Silent
    ensures st != [] && item == st[|st| - 1]
  {
    var n := |obs| - 1;
    var mid := HistorySplit(st, obs, final, n);
    SilentHistory(st, obs[..n], mid);
    assert obs[n..][0] == ReadGot(item, 0);
  }

  /** Every schedule that completes a read returns the whole top item. */
  lemma DeliversTop(s: Sys, trace: seq<Step>, item: Bytes)
    requires Inv(s) && Delivers(s, trace, item)
    ensures Stack(s) != [] && item == Stack(s)[|Stack(s)| - 1]
  {
    RunGood(s, trace);
    var r := Run(s, trace);
    HistoryTop(Stack(s), r.obs, Stack(r.s), item);
  }

  /** read() does not look at its `count` argument: a sleeping read can return more than `count`
      bytes exactly when the top item is longer than that. */
  lemma ReadCountExact(s: Sys, count: nat)
    requires Inv(s) && s.reader.Waiting?
    ensures Stack(s) != []
    ensures (exists trace, item :: Delivers(s, trace, item) && |item| > count) <==>
            |Stack(s)[|Stack(s)| - 1]| > count
  {
    var trace := ReadCompletes(s);
    if exists t, item :: Delivers(s, t, item) && |item| > count {
      var t, item :| Delivers(s, t, item) && |item| > count;
      DeliversTop(s, t, item);
    }
  }
}
