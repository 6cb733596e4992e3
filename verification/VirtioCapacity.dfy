/** What the protocol gives back and how much it takes: freed buffers, full rings, a full stack. */
module VirtioCapacity {
  import opened Basics
  import opened VirtioProtocol
  import opened VirtioProofs

  lemma Cons(s: Sys, a: Step, s': Sys, o: Obs, rest: seq<Step>)
    requires Enabled(s, a) && Apply(s, a) == Ok(s', o) && Legal(s', rest) && Run(s', rest).Ran?
    ensures Legal(s, [a] + rest) && Run(s, [a] + rest) == Ran(Run(s', rest).s, [o] + Run(s', rest).obs)
  {
    assert ([a] + rest)[1..] == rest;
  }

  // ---------------------------------------------------------------- transmit callbacks

  /** A callback frees exactly the first used buffer and takes it off the ring. */
  lemma CallbackFrees(s: Sys)
    requires Inv(s) && s.txUsed != []
    ensures var o := Apply(s, TxCallback);
            && o.Ok? && o.s == s.(gheap := o.s.gheap, txUsed := s.txUsed[1..])
            && s.txUsed[0] in s.gheap && o.s.gheap.Keys == s.gheap.Keys - {s.txUsed[0]}
            && forall p | p in o.s.gheap :: o.s.gheap[p] == s.gheap[p]
  {
    TxCallbackOwns(s);
  }

  function Callbacks(n: nat): (trace: seq<Step>)
    ensures |trace| == n
  {
    if n == 0 then [] else [TxCallback] + Callbacks(n - 1)
  }

  /** What each callback keeps, with one less to go, holds after all of them. */
  lemma {:induction false} CallbacksKeep(holds: (Sys, int) -> bool, s: Sys, n: nat)
    requires holds(s, n)
    requires forall x, m {:trigger holds(x, m)} | holds(x, m) && m > 0 ::
               TxCallbackStep(x).Ok? && holds(TxCallbackStep(x).s, m - 1)
    ensures var trace := Callbacks(n); Legal(s, trace) && Run(s, trace).Ran? && holds(Run(s, trace).s, 0)
    decreases n
  {
    if n > 0 {
      CallbacksKeep(holds, TxCallbackStep(s).s, n - 1);
      assert Callbacks(n)[0] == TxCallback && Callbacks(n)[1..] == Callbacks(n - 1);
    }
  }

  /** `s0` with all but `n` of its used buffers freed. */
  ghost predicate Draining(s0: Sys, s: Sys, n: int)
    requires s0.rcvCount <= |s0.rcvBufs|
  {
    Inv(s) && Stack(s) == Stack(s0) && |s.txUsed| == n && s == s0.(gheap := s.gheap, txUsed := s.txUsed)
  }

  lemma DrainStep(s0: Sys, s: Sys, n: int)
    requires s0.rcvCount <= |s0.rcvBufs| && Draining(s0, s, n) && n > 0
    ensures TxCallbackStep(s).Ok? && Draining(s0, TxCallbackStep(s).s, n - 1)
  {
    CallbackFrees(s);
    var s', o := StepNext(s, TxCallback);
  }

  lemma DrainRun(s: Sys)
    requires Inv(s)
    ensures var trace := Callbacks(|s.txUsed|);
            Legal(s, trace) && Run(s, trace).Ran? && Draining(s, Run(s, trace).s, 0)
  {
    forall x, m | Draining(s, x, m) && m > 0
      ensures TxCallbackStep(x).Ok? && Draining(s, TxCallbackStep(x).s, m - 1)
    {
      DrainStep(s, x, m);
    }
    CallbacksKeep((x, m) => Draining(s, x, m), s, |s.txUsed|);
  }

  /** As many callbacks as there are used buffers free them all and touch nothing else that the
      user or the device sees; a guest with nothing else under way then holds no memory. */
  lemma CallbacksDrain(s: Sys)
    requires Inv(s)
    ensures var trace := Callbacks(|s.txUsed|);
            var r := Run(s, trace);
            && Legal(s, trace) && r.Ran? && Inv(r.s) && Stack(r.s) == Stack(s)
            && r.s == s.(gheap := r.s.gheap, txUsed := [])
            && (s.reader.Idle? && s.txAvail == [] ==> r.s.gheap == map[])
  {
    DrainRun(s);
    NothingLeaks(Run(s, Callbacks(|s.txUsed|)).s);
  }

  // ---------------------------------------------------------------- refusals

  /** A write is refused with 28 exactly when 1024 items are unread, and with 1 exactly when there
      is room for it but no memory. */
  lemma WriteRefusalExact(s: Sys, data: Bytes, missing: nat, toSend: Ptr, block: Bytes)
    requires Inv(s) && s.reader.Idle? && missing <= |data|
    ensures var o, n := WriteStep(s, data, missing, toSend, block), |Stack(s)|;
            && n <= 1024 && o.Ok?
            && (o == Ok(s, WriteRefused(28)) <==> n == 1024)
            && (o == Ok(s, WriteRefused(1)) <==> n < 1024 && toSend == 0)
            && (o.obs == Wrote(data[..|data| - missing]) <==> n < 1024 && toSend != 0)
  {
    assert |Stack(s)| == s.buffers;
  }

  /** A read returns at once, with 0, exactly when there is no item, and with -12 exactly when there
      is one but no memory. */
  lemma ReadRefusalExact(s: Sys, rcvBuf: Ptr)
    requires Inv(s) && s.reader.Idle?
    ensures var o := ReadStartStep(s, rcvBuf);
            && o.Ok?
            && (o == Ok(s, ReadNothing(0)) <==> Stack(s) == [])
            && (o == Ok(s, ReadNothing(-12)) <==> Stack(s) != [] && rcvBuf == 0)
            && (o.s.reader == Waiting(rcvBuf) <==> Stack(s) != [] && rcvBuf != 0)
  {
    assert |Stack(s)| == s.buffers;
  }

  lemma ReadClears(s: Sys, rcvBuf: Ptr)
    requires 0 < s.buffers <= |s.lens| && rcvBuf != 0
    ensures var o := ReadStartStep(s, rcvBuf);
            && o.Ok? && rcvBuf in o.s.gheap && |o.s.gheap[rcvBuf]| == s.lens[s.buffers - 1]
            && forall i :: 0 <= i < |o.s.gheap[rcvBuf]| ==> o.s.gheap[rcvBuf][i] == 0
  {
  }

  /** Otherwise it sleeps on a clear buffer of the size of the top item. */
  lemma ReadBuffer(s: Sys, rcvBuf: Ptr)
    requires Inv(s) && s.reader.Idle? && Stack(s) != [] && rcvBuf != 0
    ensures var o := ReadStartStep(s, rcvBuf);
            && o.Ok? && rcvBuf in o.s.gheap && |o.s.gheap[rcvBuf]| == |Stack(s)[|Stack(s)| - 1]|
            && forall i :: 0 <= i < |o.s.gheap[rcvBuf]| ==> o.s.gheap[rcvBuf][i] == 0
  {
    assert |Stack(s)| == s.buffers;
    ItemLength(s, s.buffers - 1);
    ReadClears(s, rcvBuf);
  }

  /** When a read is over, in whatever state, one completion is used up, the length on record is
      that of what the user got, and no other length has changed. */
  lemma ReturnedLength(s: Sys, missing: nat)
    requires ReadFinishStep(s, missing).Ok?
    ensures var o := ReadFinishStep(s, missing);
            && o.obs.ReadGot? && |o.s.lens| == |s.lens| && o.s.buffers == s.buffers < |s.lens|
            && o.s.lens[s.buffers] == |o.obs.bytes| && o.s.done + 1 == s.done
            && forall i :: 0 <= i < |s.lens| && i != s.buffers ==> o.s.lens[i] == s.lens[i]
  {
  }

  // ---------------------------------------------------------------- a full ring

  /** A write of one byte, to memory that is free. */
  function WriteByte(p: Ptr): Step { Write([0], 0, p, [0]) }

  lemma WriteByteStep(s: Sys, p: Ptr)
    requires Inv(s) && s.reader.Idle? && s.buffers < 1024 && |s.txAvail| + |s.txUsed| < 256
    requires p != NULL && p !in s.gheap
    ensures var o := Apply(s, WriteByte(p));
            && Enabled(s, WriteByte(p)) && o.Ok? && o.obs == Wrote([0])
            && o.s.reader.Idle? && o.s.txAvail == s.txAvail + [Desc(p, 1)] && o.s.txUsed == s.txUsed
            && o.s.rcvCount == s.rcvCount
  {
    assert [0][..1 - 0] == [0];
  }

  lemma WriteOne(s: Sys) returns (a: Step, s': Sys)
    requires Inv(s) && s.reader.Idle? && |Stack(s)| < 1024 && |s.txAvail| + |s.txUsed| < 256
    ensures Enabled(s, a) && Apply(s, a) == Ok(s', Wrote([0]))
    ensures Inv(s') && s'.reader.Idle? && Stack(s') == Stack(s) + [[0]]
    ensures |s'.txAvail| == |s.txAvail| + 1 && s'.txUsed == s.txUsed && s'.rcvCount == s.rcvCount
  {
    assert |Stack(s)| == s.buffers;
    var p := FreshPtr(s.gheap);
    a := WriteByte(p);
    WriteByteStep(s, p);
    var o;
    s', o := StepNext(s, a);
  }

  /** `k` writes that the device has not seen, and nothing else under way. */
  ghost predicate Unseen(s: Sys, k: nat) {
    Inv(s) && s.reader.Idle? && s.txUsed == [] && s.rcvCount == 0 && |s.txAvail| == k
  }

  lemma UnseenNext(s: Sys, k: nat) returns (a: Step, s': Sys)
    requires Unseen(s, k) && k < 256
    ensures Enabled(s, a) && Apply(s, a) == Ok(s', Wrote([0])) && Unseen(s', k + 1)
  {
    assert |Stack(s)| == k;
    a, s' := WriteOne(s);
  }

  /** Writes with these data, and nothing else. */
  ghost predicate OnlyWrites(obs: seq<Obs>) {
    forall i :: 0 <= i < |obs| ==> obs[i] == Wrote([0])
  }

  lemma {:induction false} FillRing(s: Sys, k: nat) returns (trace: seq<Step>)
    requires Unseen(s, k) && k <= 256
    ensures |trace| == 256 - k && Legal(s, trace)
    ensures var r := Run(s, trace); r.Ran? && Unseen(r.s, 256) && |r.obs| == |trace| && OnlyWrites(r.obs)
    decreases 256 - k
  {
    trace := [];
    if k < 256 {
      var a, s' := UnseenNext(s, k);
      trace := FillRing(s', k + 1);
      Cons(s, a, s', Wrote([0]), trace);
      trace := [a] + trace;
    }
  }

  /** The ring takes 256 writes that the device has not seen; the next one is accepted too, but
      does not get on the ring. */
  lemma RingTakes256(s: Sys) returns (trace: seq<Step>)
    requires Initial(s)
    ensures |trace| == 256 && Legal(s, trace)
    ensures var r := Run(s, trace); r.Ran? && |r.obs| == 256 && OnlyWrites(r.obs) && |r.s.txAvail| == 256
    ensures var full := Run(s, trace).s;
            forall p: Ptr | p != 0 ::
              var o := WriteStep(full, [0], 0, p, [0]); o.Ok? && o.obs == Wrote([0]) && o.s.txAvail == full.txAvail
  {
    InitialInv(s);
    trace := FillRing(s, 0);
    assert [0][..1 - 0] == [0];
  }

  // ---------------------------------------------------------------- a full stack

  /** Nothing under way. */
  ghost predicate Quiet(s: Sys) {
    Inv(s) && s.reader.Idle? && s.txAvail == [] && s.txUsed == []
  }

  /** Room for exactly `n` more items. */
  ghost predicate Room(s: Sys, n: nat) {
    Quiet(s) && |Stack(s)| + n == 1024
  }

  ghost predicate WritesOrSilent(obs: seq<Obs>) {
    forall i :: 0 <= i < |obs| ==> obs[i] == Wrote([0]) || obs[i] == Silent
  }

  /** `trace` leads from `s` to `s'` and shows only such writes. */
  ghost predicate Leads(s: Sys, trace: seq<Step>, s': Sys) {
    Legal(s, trace) && Run(s, trace).Ran? && Run(s, trace).s == s' && WritesOrSilent(Run(s, trace).obs)
  }

  /** One step of such a trace. */
  ghost predicate Goes(s: Sys, a: Step, s': Sys) {
    Enabled(s, a) && (Apply(s, a) == Ok(s', Wrote([0])) || Apply(s, a) == Ok(s', Silent))
  }

  lemma LeadsMore(s: Sys, a: Step, s': Sys, rest: seq<Step>, end: Sys)
    requires Goes(s, a, s') && Leads(s', rest, end)
    ensures Leads(s, [a] + rest, end)
  {
    Cons(s, a, s', Apply(s, a).obs, rest);
  }

  /** Three steps in a row. */
  ghost predicate Round(s: Sys, a: Step, s1: Sys, b: Step, s2: Sys, c: Step, s3: Sys) {
    Goes(s, a, s1) && Goes(s1, b, s2) && Goes(s2, c, s3)
  }

  lemma LeadsRound(s: Sys, a: Step, s1: Sys, b: Step, s2: Sys, c: Step, s3: Sys, rest: seq<Step>, end: Sys)
    requires Round(s, a, s1, b, s2, c, s3) && Leads(s3, rest, end)
    ensures Leads(s, [a] + ([b] + ([c] + rest)), end)
  {
    LeadsMore(s2, c, s3, rest, end);
    LeadsMore(s1, b, s2, [c] + rest, end);
    LeadsMore(s, a, s1, [b] + ([c] + rest), end);
  }

  /** An item is on the transmit ring, or used, with room for exactly `n` more after it. */
  ghost predicate Passing(s: Sys, avail: nat, used: nat, n: nat) {
    && Inv(s) && s.reader.Idle? && |s.txAvail| == avail && |s.txUsed| == used
    && |Stack(s)| + n == 1024
  }

  lemma RoundWrites(s: Sys, n: nat) returns (a: Step, s': Sys)
    requires Room(s, n) && n > 0
    ensures Goes(s, a, s') && Passing(s', 1, 0, n - 1)
  {
    a, s' := WriteOne(s);
  }

  lemma RoundHandles(s: Sys, n: nat) returns (a: Step, s': Sys)
    requires Passing(s, 1, 0, n)
    ensures Goes(s, a, s') && Passing(s', 0, 1, n)
  {
    var q := FreshPtr(s.hheap);
    a := HandleTx(true, q);
    assert s.kicks[0] == KickTx;
    var o;
    s', o := StepNext(s, a);
  }

  lemma RoundFrees(s: Sys, n: nat) returns (s': Sys)
    requires Passing(s, 0, 1, n)
    ensures Goes(s, TxCallback, s') && Room(s', n)
  {
    CallbackFrees(s);
    var o;
    s', o := StepNext(s, TxCallback);
  }

  /** A write that the device consumes and the guest cleans up at once. */
  lemma WriteRound(s: Sys, n: nat) returns (a: Step, s1: Sys, b: Step, s2: Sys, s3: Sys)
    requires Room(s, n) && n > 0
    ensures Round(s, a, s1, b, s2, TxCallback, s3) && Room(s3, n - 1)
  {
    a, s1 := RoundWrites(s, n);
    b, s2 := RoundHandles(s1, n - 1);
    s3 := RoundFrees(s2, n - 1);
  }

  lemma {:induction false} FillStack(s: Sys, n: nat) returns (trace: seq<Step>, end: Sys)
    requires Room(s, n)
    ensures Leads(s, trace, end) && Room(end, 0)
    decreases n
  {
    trace, end := [], s;
    if n > 0 {
      var a, s1, b, s2, s3 := WriteRound(s, n);
      trace, end := FillStack(s3, n - 1);
      LeadsRound(s, a, s1, b, s2, TxCallback, s3, trace, end);
      trace := [a] + ([b] + ([TxCallback] + trace));
    }
  }

  /** A legal run takes 1024 unread writes, and every further write is refused with 28. */
  lemma StackTakes1024(s: Sys) returns (trace: seq<Step>)
    requires Initial(s)
    ensures Legal(s, trace) && Run(s, trace).Ran?
    ensures var r := Run(s, trace);
            && Inv(r.s) && StackHistory([], r.obs, Stack(r.s)) && |Stack(r.s)| == 1024
            && WritesOrSilent(r.obs)
            && forall data, toSend, block :: WriteStep(r.s, data, 0, toSend, block) == Ok(r.s, WriteRefused(28))
  {
    InitialInv(s);
    var full;
    trace, full := FillStack(s, 1024);
    RunGood(s, trace);
    forall data: Bytes, toSend, block
      ensures WriteStep(full, data, 0, toSend, block) == Ok(full, WriteRefused(28))
    {
      WriteRefusalExact(full, data, 0, toSend, block);
    }
  }
}
