/** What every legal run of the protocol keeps, and the stack it implements. */
module VirtioProofs {
  import opened Basics
  import opened VirtioProtocol

  predicate Distinct(ps: seq<Ptr>) {
    forall i, j :: 0 <= i < j < |ps| ==> ps[i] != ps[j]
  }

  /** The addresses of a row of descriptors. */
  function Ptrs(ds: seq<Desc>): (ps: seq<Ptr>)
    ensures |ps| == |ds|
    ensures forall i :: 0 <= i < |ds| ==> ps[i] == ds[i].ptr
  {
    seq(|ds|, i requires 0 <= i < |ds| => ds[i].ptr)
  }

  function ReaderBuf(r: Reader): seq<Ptr> {
    if r.Waiting? then [r.buf] else []
  }

  /** Every guest allocation, each with its one owner: the transmit ring (not yet read by the
      device, or read but not yet freed) or the sleeping reader. */
  function GuestOwned(s: Sys): seq<Ptr> {
    ReaderBuf(s.reader) + s.txUsed + Ptrs(s.txAvail)
  }

  /** `heap` holds exactly the blocks of `owned`, and no block has two owners. */
  ghost predicate Owns(heap: map<Ptr, Bytes>, owned: seq<Ptr>) {
    && Distinct(owned) && NULL !in owned
    && forall p :: p in heap <==> p in owned
  }

  ghost predicate Counted(s: Sys) {
    && |s.lens| == BUFFERS && |s.rcvBufs| == BUFFERS
    && s.rcvCount + |s.txAvail| + |s.rxUsed| == s.buffers <= BUFFERS
    && |s.txAvail| + |s.txUsed| <= VRING_NUM
  }

  function Repeat(k: Kick, n: nat): (r: seq<Kick>)
    ensures |r| == n && forall i :: 0 <= i < n ==> r[i] == k
  {
    seq(n, _ => k)
  }

  /** Pending kicks are exactly one per element the device has not popped, transmit first. */
  predicate Kicked(s: Sys) {
    s.kicks == Repeat(KickTx, |s.txAvail|) + Repeat(KickRx, |s.rxAvail|)
  }

  lemma RepeatMore(k: Kick, n: nat)
    ensures Repeat(k, n) + [k] == Repeat(k, n + 1)
  {
  }

  /** Block `i` of the first `n` has exactly `lens[i]` bytes. */
  ghost predicate CopiesMeasured(heap: map<Ptr, Bytes>, bufs: seq<Ptr>, lens: seq<nat>, n: nat) {
    && n <= |bufs| && n <= |lens|
    && forall i :: 0 <= i < n ==> bufs[i] in heap && |heap[bufs[i]]| == lens[i] > 0
  }

  /** The descriptors have the lengths from `lens[n]` on, and blocks for them. */
  ghost predicate DescsMeasured(heap: map<Ptr, Bytes>, ds: seq<Desc>, lens: seq<nat>, n: nat) {
    && n + |ds| <= |lens|
    && forall i :: 0 <= i < |ds| ==>
         ds[i].ptr in heap && ds[i].len <= |heap[ds[i].ptr]| && ds[i].len == lens[n + i] > 0
  }

  /** `buf_lens[i]` is the exact length of the i-th item, stored or pending. */
  ghost predicate Measured(s: Sys) {
    && CopiesMeasured(s.hheap, s.rcvBufs, s.lens, s.rcvCount)
    && DescsMeasured(s.gheap, s.txAvail, s.lens, s.rcvCount)
  }

  /** The one sleeping reader is in exactly one of three places. */
  ghost predicate ReaderPlaced(s: Sys)
    requires Counted(s)
  {
    match s.reader
    case Idle => s.rxAvail == [] && s.rxUsed == [] && s.done == 0
    case Waiting(p) =>
      && p in s.gheap
      && (|| (s.rxUsed == [] && s.done == 0 && s.buffers > 0 && s.rxAvail == [Desc(p, s.lens[s.buffers - 1])]
              && |s.gheap[p]| == s.lens[s.buffers - 1])
          || (s.rxAvail == [] && s.rxUsed == [p] && s.done == 0 && s.txAvail == []
              && |s.gheap[p]| == s.lens[s.buffers - 1] > 0)
          || (s.rxAvail == [] && s.rxUsed == [] && s.done == 1 && s.txAvail == [] && s.readData == p
              && s.buffers < BUFFERS && |s.gheap[p]| == s.lens[s.buffers] > 0))
  }

  ghost predicate Core(s: Sys) {
    Counted(s) && Kicked(s) && Measured(s) && ReaderPlaced(s)
  }

  ghost predicate Owned(s: Sys)
    requires Counted(s)
  {
    && Owns(s.gheap, GuestOwned(s))
    && Owns(s.hheap, s.rcvBufs[..s.rcvCount])
  }

  ghost predicate Inv(s: Sys) {
    Core(s) && Owned(s)
  }

  /** One step does not fault, keeps the invariant and is one step of the abstract stack. */
  ghost predicate Good(s: Sys, o: Outcome)
    requires Inv(s)
  {
    Refines(s, o) && Owned(o.s)
  }

  ghost predicate Refines(s: Sys, o: Outcome)
    requires Core(s)
  {
    && o.Ok? && Core(o.s)
    && StackAllows(Stack(s), o.obs) && Stack(o.s) == StackAfter(Stack(s), o.obs)
  }

  // ---------------------------------------------------------------- ownership

  lemma OwnsInsert(heap: map<Ptr, Bytes>, pre: seq<Ptr>, post: seq<Ptr>, p: Ptr, b: Bytes)
    requires Owns(heap, pre + post) && p != NULL && p !in heap
    ensures Owns(heap[p := b], pre + [p] + post)
  {
    var owned := pre + [p] + post;
    assert forall x :: x in owned <==> x in pre + post || x == p;
    forall i, j | 0 <= i < j < |owned| ensures owned[i] != owned[j] {
      assert i < |pre| ==> owned[i] == (pre + post)[i];
      assert i > |pre| ==> owned[i] == (pre + post)[i - 1];
      assert j < |pre| ==> owned[j] == (pre + post)[j];
      assert j > |pre| ==> owned[j] == (pre + post)[j - 1];
    }
  }

  lemma OwnsAppend(heap: map<Ptr, Bytes>, owned: seq<Ptr>, p: Ptr, b: Bytes)
    requires Owns(heap, owned) && p != NULL && p !in heap
    ensures Owns(heap[p := b], owned + [p])
  {
    assert owned == owned + [];
    OwnsInsert(heap, owned, [], p, b);
    assert owned + [p] == owned + [p] + [];
  }

  lemma OwnsPrepend(heap: map<Ptr, Bytes>, owned: seq<Ptr>, p: Ptr, b: Bytes)
    requires Owns(heap, owned) && p != NULL && p !in heap
    ensures Owns(heap[p := b], [p] + owned)
  {
    var more := [p] + owned;
    assert forall i :: 0 < i < |more| ==> more[i] == owned[i - 1];
    assert forall x :: x in more <==> x == p || x in owned;
  }

  lemma OwnsRemove(heap: map<Ptr, Bytes>, pre: seq<Ptr>, p: Ptr, post: seq<Ptr>)
    requires Owns(heap, pre + [p] + post)
    ensures p in heap && p !in pre && p !in post
    ensures Owns(heap - {p}, pre + post)
  {
    var owned, rest := pre + [p] + post, pre + post;
    assert owned[|pre|] == p;
    forall i | 0 <= i < |rest| ensures rest[i] != p && rest[i] in owned {
      assert rest[i] == owned[if i < |pre| then i else i + 1];
    }
    forall i, j | 0 <= i < j < |rest| ensures rest[i] != rest[j] {
      assert rest[i] == owned[if i < |pre| then i else i + 1];
      assert rest[j] == owned[if j < |pre| then j else j + 1];
    }
    forall x | x in owned && x != p ensures x in rest {
      var i :| 0 <= i < |owned| && owned[i] == x;
      assert x == rest[if i < |pre| then i else i - 1];
    }
    forall i | 0 <= i < |pre| ensures pre[i] != p {
      assert rest[i] == pre[i];
    }
    forall i | 0 <= i < |post| ensures post[i] != p {
      assert rest[|pre| + i] == post[i];
    }
  }

  /** Items whose blocks did not change still have the same contents. */
  lemma PendingKept(s: Sys, s': Sys)
    requires s'.txAvail == s.txAvail
    requires forall i :: 0 <= i < |s.txAvail| ==>
               Block(s'.gheap, s.txAvail[i].ptr) == Block(s.gheap, s.txAvail[i].ptr)
    ensures Pending(s') == Pending(s)
  {
  }

  lemma StoredKept(s: Sys, s': Sys, n: nat)
    requires n <= s.rcvCount <= |s.rcvBufs| && n <= s'.rcvCount <= |s'.rcvBufs|
    requires forall i :: 0 <= i < n ==>
               Block(s'.hheap, s'.rcvBufs[i]) == Block(s.hheap, s.rcvBufs[i])
    ensures Stored(s')[..n] == Stored(s)[..n]
  {
  }

  // ---------------------------------------------------------------- lengths

  /** A block that the descriptors do not use may come or go. */
  lemma DescsKept(heap: map<Ptr, Bytes>, heap': map<Ptr, Bytes>, ds: seq<Desc>, lens: seq<nat>, n: nat)
    requires DescsMeasured(heap, ds, lens, n)
    requires forall i :: 0 <= i < |ds| && ds[i].ptr in heap ==>
               ds[i].ptr in heap' && heap'[ds[i].ptr] == heap[ds[i].ptr]
    ensures DescsMeasured(heap', ds, lens, n)
  {
  }

  lemma DescsInsert(heap: map<Ptr, Bytes>, p: Ptr, b: Bytes, ds: seq<Desc>, lens: seq<nat>, n: nat)
    requires DescsMeasured(heap, ds, lens, n) && p !in heap
    ensures DescsMeasured(heap[p := b], ds, lens, n)
  {
    DescsKept(heap, heap[p := b], ds, lens, n);
  }

  /** So may a length beyond them. */
  lemma DescsBelow(heap: map<Ptr, Bytes>, ds: seq<Desc>, lens: seq<nat>, n: nat, k: nat, len: nat)
    requires DescsMeasured(heap, ds, lens, n) && n + |ds| <= k < |lens|
    ensures DescsMeasured(heap, ds, lens[k := len], n)
  {
    forall i | 0 <= i < |ds| ensures ds[i].len == lens[k := len][n + i] {
    }
  }

  lemma DescsAppend(heap: map<Ptr, Bytes>, ds: seq<Desc>, lens: seq<nat>, n: nat, d: Desc)
    requires DescsMeasured(heap, ds, lens, n) && n + |ds| < |lens| && 0 < d.len == lens[n + |ds|]
    requires d.ptr in heap && d.len <= |heap[d.ptr]|
    ensures DescsMeasured(heap, ds + [d], lens, n)
  {
    var more := ds + [d];
    forall i | 0 <= i < |more|
      ensures more[i].ptr in heap && more[i].len <= |heap[more[i].ptr]| && more[i].len == lens[n + i] > 0
    {
      if i < |ds| {
        assert more[i] == ds[i];
      }
    }
  }

  lemma DescsRest(heap: map<Ptr, Bytes>, ds: seq<Desc>, lens: seq<nat>, n: nat)
    requires DescsMeasured(heap, ds, lens, n) && ds != []
    ensures DescsMeasured(heap, ds[1..], lens, n + 1)
  {
    forall i | 0 <= i < |ds| - 1
      ensures ds[1..][i] == ds[1 + i] && ds[1 + i].len == lens[n + (1 + i)]
    {
    }
  }

  lemma CopiesAppend(heap: map<Ptr, Bytes>, bufs: seq<Ptr>, lens: seq<nat>, n: nat, p: Ptr, b: Bytes)
    requires CopiesMeasured(heap, bufs, lens, n) && n < |bufs| && n < |lens| && p !in heap && |b| == lens[n] > 0
    ensures CopiesMeasured(heap[p := b], bufs[n := p], lens, n + 1)
  {
  }

  lemma CopiesRemove(heap: map<Ptr, Bytes>, bufs: seq<Ptr>, lens: seq<nat>, n: nat)
    requires CopiesMeasured(heap, bufs, lens, n + 1) && bufs[n] !in bufs[..n]
    ensures CopiesMeasured(heap - {bufs[n]}, bufs, lens, n)
  {
    forall i | 0 <= i < n ensures bufs[i] != bufs[n] {
      assert bufs[i] == bufs[..n][i];
    }
  }

  /** `buf_lens` has the lengths of the items, stored or pending. */
  lemma ItemLength(s: Sys, i: nat)
    requires Counted(s) && Measured(s) && InFlight(s) == [] && s.rxUsed == [] && i < s.buffers
    ensures i < |Stack(s)| && |Stack(s)[i]| == s.lens[i]
  {
    assert Stack(s)[i] == if i < s.rcvCount then Stored(s)[i] else Pending(s)[i - s.rcvCount];
    if i >= s.rcvCount {
      assert s.txAvail[i - s.rcvCount].len == s.lens[s.rcvCount + (i - s.rcvCount)];
    }
  }

  // ---------------------------------------------------------------- what each step does to the stack

  lemma WriteMeasured(s: Sys, data: Bytes, missing: nat, toSend: Ptr, block: Bytes)
    requires Counted(s) && Measured(s) && s.rxUsed == [] && Accepted(s, toSend) && toSend !in s.gheap
    requires CopiedIn(data, missing, block) && missing < |data| && HasRoom(s.txAvail, s.txUsed)
    ensures var s' := WriteStep(s, data, missing, toSend, block).s; Counted(s') && Measured(s')
  {
    var n, k, d := s.rcvCount, s.buffers, Desc(toSend, |data| - missing);
    DescsInsert(s.gheap, toSend, block, s.txAvail, s.lens, n);
    var heap, lens := s.gheap[toSend := block], s.lens[k := d.len];
    DescsBelow(heap, s.txAvail, s.lens, n, k, d.len);
    DescsAppend(heap, s.txAvail, lens, n, d);
  }

  lemma WriteKeepsCore(s: Sys, data: Bytes, missing: nat, toSend: Ptr, block: Bytes)
    requires Core(s) && Enabled(s, Write(data, missing, toSend, block)) && Accepted(s, toSend)
    ensures Core(WriteStep(s, data, missing, toSend, block).s)
  {
    WriteMeasured(s, data, missing, toSend, block);
    RepeatMore(KickTx, |s.txAvail|);
    assert s.rxAvail == [] && Repeat(KickRx, 0) == [];
  }

  lemma WritePushes(s: Sys, data: Bytes, missing: nat, toSend: Ptr, block: Bytes)
    requires s.rcvCount <= |s.rcvBufs| && |s.lens| == BUFFERS && s.reader.Idle? && HasRoom(s.txAvail, s.txUsed)
    requires Accepted(s, toSend) && toSend !in s.gheap && CopiedIn(data, missing, block)
    requires forall i :: 0 <= i < |s.txAvail| ==> s.txAvail[i].ptr in s.gheap
    ensures Stack(WriteStep(s, data, missing, toSend, block).s) == Stack(s) + [data[..|data| - missing]]
  {
    var s' := WriteStep(s, data, missing, toSend, block).s;
    assert Pending(s') == Pending(s) + [data[..|data| - missing]];
    assert Stored(s') == Stored(s);
  }

  lemma WriteRefines(s: Sys, data: Bytes, missing: nat, toSend: Ptr, block: Bytes)
    requires Core(s) && Enabled(s, Write(data, missing, toSend, block))
    ensures Refines(s, WriteStep(s, data, missing, toSend, block))
  {
    if Accepted(s, toSend) {
      WriteKeepsCore(s, data, missing, toSend, block);
      WritePushes(s, data, missing, toSend, block);
    }
  }

  lemma TxCallbackKeepsStack(s: Sys)
    requires s.rcvCount <= |s.rcvBufs| && s.txUsed != [] && s.txUsed[0] in s.gheap
    requires forall i :: 0 <= i < |s.txAvail| ==> s.txAvail[i].ptr != s.txUsed[0]
    requires s.reader.Waiting? ==> s.reader.buf != s.txUsed[0]
    ensures Stack(TxCallbackStep(s).s) == Stack(s)
  {
    var s' := TxCallbackStep(s).s;
    PendingKept(s, s');
    assert Stored(s') == Stored(s);
  }

  lemma TxCallbackKeepsCore(s: Sys)
    requires Core(s) && s.txUsed != [] && s.txUsed[0] in s.gheap
    requires forall i :: 0 <= i < |s.txAvail| ==> s.txAvail[i].ptr != s.txUsed[0]
    requires s.reader.Waiting? ==> s.reader.buf != s.txUsed[0]
    ensures Core(TxCallbackStep(s).s)
  {
    var s' := TxCallbackStep(s).s;
    DescsKept(s.gheap, s'.gheap, s.txAvail, s.lens, s.rcvCount);
    assert Counted(s') && Kicked(s');
  }

  lemma TxCallbackRefines(s: Sys)
    requires Core(s) && s.txUsed != [] && s.txUsed[0] in s.gheap
    requires s.txUsed[0] !in Ptrs(s.txAvail) && s.txUsed[0] !in ReaderBuf(s.reader)
    ensures Refines(s, TxCallbackStep(s))
  {
    assert forall i :: 0 <= i < |s.txAvail| ==> s.txAvail[i].ptr == Ptrs(s.txAvail)[i];
    assert s.reader.Waiting? ==> s.reader.buf == ReaderBuf(s.reader)[0];
    TxCallbackKeepsCore(s);
    TxCallbackKeepsStack(s);
  }

  lemma ReadStartMeasured(s: Sys, rcvBuf: Ptr)
    requires Counted(s) && Measured(s) && s.buffers > 0 && rcvBuf != NULL && rcvBuf !in s.gheap
    ensures var s' := ReadStartStep(s, rcvBuf).s; Counted(s') && Measured(s')
  {
    DescsInsert(s.gheap, rcvBuf, Zeros(s.lens[s.buffers - 1]), s.txAvail, s.lens, s.rcvCount);
  }

  lemma ReadStartKeepsCore(s: Sys, rcvBuf: Ptr)
    requires Core(s) && Enabled(s, ReadStart(rcvBuf)) && s.buffers > 0 && rcvBuf != NULL
    ensures Core(ReadStartStep(s, rcvBuf).s)
  {
    var s' := ReadStartStep(s, rcvBuf).s;
    ReadStartMeasured(s, rcvBuf);
    assert Kicked(s');
  }

  lemma ReadStartKeepsStack(s: Sys, rcvBuf: Ptr)
    requires 0 < s.buffers <= |s.lens| && s.rcvCount <= |s.rcvBufs| && rcvBuf != NULL && rcvBuf !in s.gheap
    requires forall i :: 0 <= i < |s.txAvail| ==> s.txAvail[i].ptr in s.gheap
    requires s.reader.Idle? && s.rxAvail == [] && s.rxUsed == []
    ensures Stack(ReadStartStep(s, rcvBuf).s) == Stack(s)
  {
    var s' := ReadStartStep(s, rcvBuf).s;
    PendingKept(s, s');
    assert Stored(s') == Stored(s);
  }

  lemma ReadStartRefines(s: Sys, rcvBuf: Ptr)
    requires Core(s) && Enabled(s, ReadStart(rcvBuf))
    ensures Refines(s, ReadStartStep(s, rcvBuf))
  {
    if s.buffers > 0 && rcvBuf != NULL {
      ReadStartKeepsCore(s, rcvBuf);
      ReadStartKeepsStack(s, rcvBuf);
    }
  }

  lemma HandleTxMeasured(s: Sys, copy: Ptr)
    requires Counted(s) && Measured(s) && s.txAvail != [] && s.kicks != [] && copy != NULL && copy !in s.hheap
    ensures var o := HandleTxStep(s, true, copy); o.Ok? && Counted(o.s) && Measured(o.s)
  {
    var d := s.txAvail[0];
    assert 0 < d.len == s.lens[s.rcvCount + 0] && d.ptr in s.gheap && d.len <= |s.gheap[d.ptr]|;
    CopiesAppend(s.hheap, s.rcvBufs, s.lens, s.rcvCount, copy, s.gheap[d.ptr][..d.len]);
    DescsRest(s.gheap, s.txAvail, s.lens, s.rcvCount);
  }

  lemma HandleTxKeepsCore(s: Sys, copy: Ptr)
    requires Core(s) && Enabled(s, HandleTx(true, copy))
    ensures HandleTxStep(s, true, copy).Ok? && Core(HandleTxStep(s, true, copy).s)
  {
    assert s.txAvail != [];
    HandleTxMeasured(s, copy);
    assert Kicked(HandleTxStep(s, true, copy).s);
  }

  lemma HandleTxMoves(s: Sys, copy: Ptr)
    requires s.rcvCount < |s.rcvBufs| && HandleTxStep(s, true, copy).Ok? && s.kicks != [] && copy !in s.hheap
    requires forall i :: 0 <= i < s.rcvCount ==> s.rcvBufs[i] in s.hheap
    ensures Stack(HandleTxStep(s, true, copy).s) == Stack(s)
  {
    var s' := HandleTxStep(s, true, copy).s;
    assert Stored(s') == Stored(s) + [Pending(s)[0]];
    assert Pending(s') == Pending(s)[1..];
  }

  lemma HandleTxRefines(s: Sys, copy: Ptr)
    requires Core(s) && Enabled(s, HandleTx(true, copy))
    ensures Refines(s, HandleTxStep(s, true, copy))
  {
    HandleTxKeepsCore(s, copy);
    HandleTxMoves(s, copy);
  }

  lemma HandleRxMoves(s: Sys)
    requires 0 < s.rcvCount <= |s.rcvBufs| && s.rcvBufs[s.rcvCount - 1] in s.hheap
    requires s.rcvBufs[s.rcvCount - 1] !in s.rcvBufs[..s.rcvCount - 1]
    requires s.kicks != [] && s.txAvail == [] && |s.rxAvail| == 1
    requires var d := s.rxAvail[0];
             && s.reader == Waiting(d.ptr) && d.ptr in s.gheap
             && 0 < d.len == |s.gheap[d.ptr]| == |s.hheap[s.rcvBufs[s.rcvCount - 1]]|
    ensures HandleRxStep(s, true).Ok? && Stack(HandleRxStep(s, true).s) == Stack(s)
  {
    var s' := HandleRxStep(s, true).s;
    StoredKept(s, s', s'.rcvCount);
    var item, d := s.hheap[s.rcvBufs[s'.rcvCount]], s.rxAvail[0];
    assert Stored(s) == Stored(s') + [item];
    assert item[..d.len] + s.gheap[d.ptr][d.len..] == item;
    assert Pending(s) == [] == Pending(s');
    assert InFlight(s') == [item];
  }

  lemma HandleRxKeepsCore(s: Sys)
    requires Core(s) && Enabled(s, HandleRx(true))
    requires s.rcvCount > 0 ==> s.rcvBufs[s.rcvCount - 1] !in s.rcvBufs[..s.rcvCount - 1]
    ensures HandleRxStep(s, true).Ok? && Core(HandleRxStep(s, true).s)
  {
    assert s.txAvail == [] && s.rxAvail != [];
    CopiesRemove(s.hheap, s.rcvBufs, s.lens, s.rcvCount - 1);
    var s' := HandleRxStep(s, true).s;
    assert Counted(s') && Kicked(s');
  }

  lemma HandleRxRefines(s: Sys)
    requires Core(s) && Enabled(s, HandleRx(true))
    requires s.rcvCount > 0 ==> s.rcvBufs[s.rcvCount - 1] !in s.rcvBufs[..s.rcvCount - 1]
    ensures Refines(s, HandleRxStep(s, true))
  {
    assert s.txAvail == [] && s.rxAvail != [];
    HandleRxKeepsCore(s);
    HandleRxMoves(s);
  }

  lemma RxCallbackKeepsStack(s: Sys)
    requires s.rcvCount <= |s.rcvBufs|
    ensures Stack(RxCallbackStep(s).s) == Stack(s)
  {
    var s' := RxCallbackStep(s).s;
    assert Stored(s') == Stored(s);
    assert Pending(s') == Pending(s);
  }

  lemma RxCallbackKeepsCore(s: Sys)
    requires Core(s) && Enabled(s, RxCallback)
    ensures Core(RxCallbackStep(s).s)
  {
    assert s.txAvail == [] && s.rxAvail == [] && s.rxUsed == [s.reader.buf];
    var s' := RxCallbackStep(s).s;
    assert Counted(s') && Kicked(s');
    assert Measured(s');
  }

  lemma RxCallbackRefines(s: Sys)
    requires Core(s) && Enabled(s, RxCallback)
    ensures Refines(s, RxCallbackStep(s))
  {
    RxCallbackKeepsCore(s);
    RxCallbackKeepsStack(s);
  }

  lemma ReadFinishKeepsCore(s: Sys, missing: nat)
    requires Core(s) && Enabled(s, ReadFinish(missing))
    ensures ReadFinishStep(s, missing).Ok? && Core(ReadFinishStep(s, missing).s)
  {
    assert s.txAvail == [] && s.buffers == s.rcvCount;
    var s' := ReadFinishStep(s, missing).s;
    assert Counted(s') && Kicked(s');
  }

  lemma ReadFinishPops(s: Sys, missing: nat)
    requires Core(s) && Enabled(s, ReadFinish(missing)) && ReadFinishStep(s, missing).Ok?
    ensures var o, st := ReadFinishStep(s, missing), Stack(s);
            StackAllows(st, o.obs) && Stack(o.s) == StackAfter(st, o.obs)
  {
    var s' := ReadFinishStep(s, missing).s;
    StoredKept(s, s', s.rcvCount);
    assert Stack(s) == Stored(s) + [s.gheap[s.readData]] && Stack(s') == Stored(s);
  }

  lemma ReadFinishRefines(s: Sys, missing: nat)
    requires Core(s) && Enabled(s, ReadFinish(missing))
    ensures Refines(s, ReadFinishStep(s, missing))
  {
    ReadFinishKeepsCore(s, missing);
    ReadFinishPops(s, missing);
  }

  // ---------------------------------------------------------------- who owns which allocation

  lemma WriteOwns(s: Sys, data: Bytes, missing: nat, toSend: Ptr, block: Bytes)
    requires Counted(s) && Owned(s) && Enabled(s, Write(data, missing, toSend, block))
    ensures var o := WriteStep(s, data, missing, toSend, block); o.Ok? && Counted(o.s) ==> Owned(o.s)
  {
    if Accepted(s, toSend) {
      var s' := WriteStep(s, data, missing, toSend, block).s;
      OwnsAppend(s.gheap, GuestOwned(s), toSend, block);
      assert GuestOwned(s') == GuestOwned(s) + [toSend];
    }
  }

  lemma FirstUsedOwned(heap: map<Ptr, Bytes>, pre: seq<Ptr>, used: seq<Ptr>, avail: seq<Ptr>)
    requires used != [] && Owns(heap, pre + used + avail)
    ensures used[0] in heap && used[0] !in avail && used[0] !in pre
    ensures Owns(heap - {used[0]}, pre + used[1..] + avail)
  {
    var post := used[1..] + avail;
    assert pre + used + avail == pre + [used[0]] + post;
    OwnsRemove(heap, pre, used[0], post);
    assert pre + used[1..] + avail == pre + post;
  }

  lemma TxCallbackOwns(s: Sys)
    requires Owns(s.gheap, GuestOwned(s)) && s.txUsed != []
    ensures s.txUsed[0] in s.gheap
    ensures s.txUsed[0] !in Ptrs(s.txAvail) && s.txUsed[0] !in ReaderBuf(s.reader)
    ensures Owns(TxCallbackStep(s).s.gheap, GuestOwned(TxCallbackStep(s).s))
  {
    FirstUsedOwned(s.gheap, ReaderBuf(s.reader), s.txUsed, Ptrs(s.txAvail));
  }

  lemma ReadStartOwns(s: Sys, rcvBuf: Ptr)
    requires Counted(s) && Owned(s) && Enabled(s, ReadStart(rcvBuf))
    ensures var o := ReadStartStep(s, rcvBuf); o.Ok? && Counted(o.s) ==> Owned(o.s)
  {
    if s.buffers > 0 && rcvBuf != NULL {
      var s' := ReadStartStep(s, rcvBuf).s;
      OwnsPrepend(s.gheap, GuestOwned(s), rcvBuf, Zeros(s.lens[s.buffers - 1]));
      assert GuestOwned(s') == [rcvBuf] + GuestOwned(s);
    }
  }

  lemma HostCopies(heap: map<Ptr, Bytes>, bufs: seq<Ptr>, n: nat, copy: Ptr, b: Bytes)
    requires n < |bufs| && Owns(heap, bufs[..n]) && copy != NULL && copy !in heap
    ensures Owns(heap[copy := b], bufs[n := copy][..n + 1])
  {
    OwnsAppend(heap, bufs[..n], copy, b);
    assert bufs[n := copy][..n + 1] == bufs[..n] + [copy];
  }

  lemma RingMoves(pre: seq<Ptr>, used: seq<Ptr>, avail: seq<Desc>)
    requires avail != []
    ensures pre + (used + [avail[0].ptr]) + Ptrs(avail[1..]) == pre + used + Ptrs(avail)
  {
  }

  lemma HandleTxOwns(s: Sys, copy: Ptr)
    requires Counted(s) && Owned(s) && Enabled(s, HandleTx(true, copy))
    ensures var o := HandleTxStep(s, true, copy); o.Ok? && Counted(o.s) ==> Owned(o.s)
  {
    var o := HandleTxStep(s, true, copy);
    if o.Ok? && Counted(o.s) {
      RingMoves(ReaderBuf(s.reader), s.txUsed, s.txAvail);
      assert GuestOwned(o.s) == GuestOwned(s);
      HostCopies(s.hheap, s.rcvBufs, s.rcvCount, copy, o.s.hheap[copy]);
    }
  }

  lemma HostFrees(heap: map<Ptr, Bytes>, bufs: seq<Ptr>, n: nat)
    requires n < |bufs| && Owns(heap, bufs[..n + 1])
    ensures bufs[n] !in bufs[..n] && Owns(heap - {bufs[n]}, bufs[..n])
  {
    assert bufs[..n + 1] == bufs[..n] + [bufs[n]] + [];
    OwnsRemove(heap, bufs[..n], bufs[n], []);
    assert bufs[..n] == bufs[..n] + [];
  }

  lemma HandleRxOwns(s: Sys)
    requires Counted(s) && Owned(s) && s.rcvCount > 0
    ensures s.rcvBufs[s.rcvCount - 1] !in s.rcvBufs[..s.rcvCount - 1]
    ensures var o := HandleRxStep(s, true); o.Ok? && Counted(o.s) ==> Owned(o.s)
  {
    HostFrees(s.hheap, s.rcvBufs, s.rcvCount - 1);
    var o := HandleRxStep(s, true);
    if o.Ok? && Counted(o.s) {
      assert s.rxAvail[0].ptr in s.gheap;
      assert GuestOwned(o.s) == GuestOwned(s);
    }
  }

  lemma ReadFinishOwns(s: Sys, missing: nat)
    requires Counted(s) && Owned(s) && s.reader.Waiting?
    ensures var o := ReadFinishStep(s, missing); o.Ok? && Counted(o.s) ==> Owned(o.s)
  {
    var rest := s.txUsed + Ptrs(s.txAvail);
    assert GuestOwned(s) == [] + [s.reader.buf] + rest;
    OwnsRemove(s.gheap, [], s.reader.buf, rest);
    var o := ReadFinishStep(s, missing);
    assert o.Ok? ==> GuestOwned(o.s) == [] + rest;
  }

  // ---------------------------------------------------------------- runs

  lemma WriteGood(s: Sys, data: Bytes, missing: nat, toSend: Ptr, block: Bytes)
    requires Inv(s) && Enabled(s, Write(data, missing, toSend, block))
    ensures Good(s, WriteStep(s, data, missing, toSend, block))
  {
    WriteRefines(s, data, missing, toSend, block);
    WriteOwns(s, data, missing, toSend, block);
  }

  lemma HandleTxGood(s: Sys, copy: Ptr)
    requires Inv(s) && Enabled(s, HandleTx(true, copy))
    ensures Good(s, HandleTxStep(s, true, copy))
  {
    HandleTxRefines(s, copy);
    HandleTxOwns(s, copy);
  }

  lemma TxCallbackGood(s: Sys)
    requires Inv(s)
    ensures Good(s, TxCallbackStep(s))
  {
    if s.txUsed != [] {
      TxCallbackOwns(s);
      TxCallbackRefines(s);
    }
  }

  lemma ReadStartGood(s: Sys, rcvBuf: Ptr)
    requires Inv(s) && Enabled(s, ReadStart(rcvBuf))
    ensures Good(s, ReadStartStep(s, rcvBuf))
  {
    ReadStartRefines(s, rcvBuf);
    ReadStartOwns(s, rcvBuf);
  }

  lemma HasItem(s: Sys)
    requires Core(s) && Enabled(s, HandleRx(true))
    ensures s.rcvCount > 0
  {
    assert s.txAvail == [] && s.rxAvail != [];
  }

  lemma HandleRxGood(s: Sys)
    requires Inv(s) && Enabled(s, HandleRx(true))
    ensures Good(s, HandleRxStep(s, true))
  {
    HasItem(s);
    HandleRxOwns(s);
    HandleRxRefines(s);
  }

  lemma RxCallbackGood(s: Sys)
    requires Inv(s) && Enabled(s, RxCallback)
    ensures Good(s, RxCallbackStep(s))
  {
    RxCallbackRefines(s);
  }

  lemma ReadFinishGood(s: Sys, missing: nat)
    requires Inv(s) && Enabled(s, ReadFinish(missing))
    ensures Good(s, ReadFinishStep(s, missing))
  {
    ReadFinishRefines(s, missing);
    ReadFinishOwns(s, missing);
  }

  lemma StepGood(s: Sys, a: Step)
    requires Inv(s) && Enabled(s, a)
    ensures Good(s, Apply(s, a))
  {
    match a
    case Write(data, missing, toSend, block) => WriteGood(s, data, missing, toSend, block);
    case HandleTx(_, copy) => HandleTxGood(s, copy);
    case TxCallback => TxCallbackGood(s);
    case ReadStart(rcvBuf) => ReadStartGood(s, rcvBuf);
    case HandleRx(_) => HandleRxGood(s);
    case RxCallback => RxCallbackGood(s);
    case ReadFinish(missing) => ReadFinishGood(s, missing);
  }

  lemma InitialInv(s: Sys)
    requires Initial(s)
    ensures Inv(s) && Stack(s) == []
  {
  }

  lemma HistoryCons(st: seq<Bytes>, o: Obs, tail: seq<Obs>, final: seq<Bytes>)
    requires StackAllows(st, o) && StackHistory(StackAfter(st, o), tail, final)
    ensures StackHistory(st, [o] + tail, final)
  {
    assert ([o] + tail)[1..] == tail;
  }

  lemma StepNext(s: Sys, a: Step) returns (s': Sys, o: Obs)
    requires Inv(s) && Enabled(s, a)
    ensures Apply(s, a) == Ok(s', o) && Inv(s')
    ensures StackAllows(Stack(s), o) && Stack(s') == StackAfter(Stack(s), o)
  {
    StepGood(s, a);
    s', o := Apply(s, a).s, Apply(s, a).obs;
  }

  lemma RunNext(s: Sys, trace: seq<Step>, s': Sys, o: Obs)
    requires trace != [] && Apply(s, trace[0]) == Ok(s', o) && Run(s', trace[1..]).Ran?
    ensures var r := Run(s', trace[1..]); Run(s, trace) == Ran(r.s, [o] + r.obs)
  {
  }

  /** From any good state every legal run is fault free and is a run of the stack. */
  lemma {:induction false} RunGood(s: Sys, trace: seq<Step>)
    requires Inv(s) && Legal(s, trace)
    ensures var r := Run(s, trace);
            r.Ran? && Inv(r.s) && StackHistory(Stack(s), r.obs, Stack(r.s)) && |r.obs| == |trace|
    decreases |trace|
  {
    if trace != [] {
      var s', o := StepNext(s, trace[0]);
      RunGood(s', trace[1..]);
      RunNext(s, trace, s', o);
      var r := Run(s', trace[1..]);
      HistoryCons(Stack(s), o, r.obs, Stack(r.s));
    }
  }

  /** Main result: whatever the user does and however the device and the interrupts interleave,
      no run faults, the counters agree with the rings, and the user sees a stack. */
  lemma RunsImplementStack(s: Sys, trace: seq<Step>)
    requires Initial(s) && Legal(s, trace)
    ensures var r := Run(s, trace);
            && r.Ran? && Inv(r.s)
            && StackHistory([], r.obs, Stack(r.s))
            && r.s.buffers == r.s.rcvCount + |r.s.txAvail| + |r.s.rxUsed|
            && r.s.rcvCount <= r.s.buffers <= BUFFERS
  {
    InitialInv(s);
    RunGood(s, trace);
  }

  // ---------------------------------------------------------------- which write a read returns

  /** Accepted writes minus completed reads among the observations after `a` and before `b`. */
  function Height(obs: seq<Obs>, a: nat, b: nat): int
    requires b <= |obs|
  {
    if b <= a + 1 then 0
    else Height(obs, a, b - 1) + if obs[b - 1].Wrote? then 1 else if obs[b - 1].ReadGot? then -1 else 0
  }

  /** The write at `i` is still unread at the end, with `above` unread writes after it. */
  ghost predicate Unread(obs: seq<Obs>, i: nat, above: int) {
    && i < |obs| && obs[i].Wrote? && Height(obs, i, |obs|) == above
    && forall j | i < j <= |obs| :: Height(obs, i, j) >= 0
  }

  lemma {:induction false} HistorySplit(st: seq<Bytes>, obs: seq<Obs>, final: seq<Bytes>, k: nat)
    returns (mid: seq<Bytes>)
    requires StackHistory(st, obs, final) && k <= |obs|
    ensures StackHistory(st, obs[..k], mid) && StackHistory(mid, obs[k..], final)
    decreases k
  {
    if k == 0 {
      mid := st;
      assert obs[0..] == obs;
    } else {
      mid := HistorySplit(StackAfter(st, obs[0]), obs[1..], final, k - 1);
      assert obs[..k][1..] == obs[1..][..k - 1] && obs[1..][k - 1..] == obs[k..];
    }
  }

  lemma {:induction false} HeightPrefix(obs: seq<Obs>, o: Obs, a: nat, b: nat)
    requires b <= |obs|
    ensures Height(obs + [o], a, b) == Height(obs, a, b)
  {
    if a + 1 < b {
      HeightPrefix(obs, o, a, b - 1);
    }
  }

  lemma UnreadLater(obs: seq<Obs>, o: Obs, i: nat, above: int, above': int)
    requires Unread(obs, i, above) && above' >= 0
    requires above' == above + (if o.Wrote? then 1 else if o.ReadGot? then -1 else 0)
    ensures Unread(obs + [o], i, above')
  {
    forall j | i < j <= |obs| ensures Height(obs + [o], i, j) == Height(obs, i, j) {
      HeightPrefix(obs, o, i, j);
    }
  }

  /** Every item on the stack is an unread write, and its depth counts the unread ones after it. */
  lemma {:induction false} WrittenBy(obs: seq<Obs>, final: seq<Bytes>, p: nat) returns (i: nat)
    requires StackHistory([], obs, final) && p < |final|
    ensures Unread(obs, i, |final| - 1 - p) && obs[i] == Wrote(final[p])
    decreases |obs|
  {
    var n := |obs| - 1;
    var o := obs[n];
    var mid := HistorySplit([], obs, final, n);
    assert obs[n..] == [o] && obs[n..][1..] == [];
    assert StackAllows(mid, o) && final == StackAfter(mid, o);
    assert obs == obs[..n] + [o];
    if o.Wrote? && p == |final| - 1 {
      i := n;
    } else {
      i := WrittenBy(obs[..n], mid, p);
      UnreadLater(obs[..n], o, i, |mid| - 1 - p, |final| - 1 - p);
    }
  }

  /** What a completed read returns is a prefix of the latest unread write. */
  ghost predicate ReturnsLatest(obs: seq<Obs>, k: nat, i: nat)
    requires k < |obs| && obs[k].ReadGot?
  {
    && i < k && Unread(obs[..k], i, 0)
    && obs[k].missing <= |obs[i].data| && obs[k].bytes == obs[i].data[..|obs[i].data| - obs[k].missing]
  }

  lemma HistoryReturnsLatest(obs: seq<Obs>, final: seq<Bytes>, k: nat) returns (i: nat)
    requires StackHistory([], obs, final) && k < |obs| && obs[k].ReadGot?
    ensures ReturnsLatest(obs, k, i)
  {
    var st := HistorySplit([], obs, final, k);
    assert obs[k..][0] == obs[k];
    i := WrittenBy(obs[..k], st, |st| - 1);
  }

  /** In every legal run each completed read returns the bytes of the latest unread write: the
      writes and reads between the two cancel out. */
  lemma ReadsLatestUnread(s: Sys, trace: seq<Step>)
    requires Initial(s) && Legal(s, trace)
    ensures Run(s, trace).Ran?
    ensures var obs := Run(s, trace).obs;
            forall k | 0 <= k < |obs| && obs[k].ReadGot? :: exists i: nat :: ReturnsLatest(obs, k, i)
  {
    RunsImplementStack(s, trace);
    var obs, final := Run(s, trace).obs, Stack(Run(s, trace).s);
    forall k | 0 <= k < |obs| && obs[k].ReadGot? ensures exists i: nat :: ReturnsLatest(obs, k, i) {
      var i := HistoryReturnsLatest(obs, final, k);
    }
  }

  lemma FreshPtr(heap: map<Ptr, Bytes>) returns (p: Ptr)
    ensures p != NULL && p !in heap
  {
    p := Above(heap.Keys);
  }

  lemma Above(ps: set<Ptr>) returns (p: Ptr)
    ensures p > 0 && forall x :: x in ps ==> x < p
  {
    if ps == {} {
      p := 1;
    } else {
      var x :| x in ps;
      var q := Above(ps - {x});
      p := if x < q then q else x + 1;
      assert forall y :: y in ps ==> y == x || y in ps - {x};
    }
  }

  /** `trace` lets the sleeping read return `item` and shows the user nothing else. */
  ghost predicate Delivers(s: Sys, trace: seq<Step>, item: Bytes) {
    && Legal(s, trace) && trace != []
    && var r := Run(s, trace);
       && r.Ran? && r.s.reader.Idle? && |r.obs| == |trace|
       && (forall i :: 0 <= i < |trace| - 1 ==> r.obs[i] == Silent)
       && r.obs[|trace| - 1] == ReadGot(item, 0)
  }

  lemma DeliversLater(s: Sys, a: Step, rest: seq<Step>, item: Bytes)
    requires Enabled(s, a) && Apply(s, a).Ok? && Apply(s, a).obs == Silent
    requires Delivers(Apply(s, a).s, rest, item)
    ensures Delivers(s, [a] + rest, item)
  {
    assert ([a] + rest)[1..] == rest;
  }

  lemma DeliversNow(s: Sys)
    requires Core(s) && s.reader.Waiting? && s.rxAvail == [] && s.rxUsed == []
    ensures Stack(s) != [] && Delivers(s, [ReadFinish(0)], Stack(s)[|Stack(s)| - 1])
  {
    var s' := ReadFinishStep(s, 0).s;
    var item := s.gheap[s.readData];
    assert item[..|item| - 0] == item;
    assert Run(s', [ReadFinish(0)][1..]) == Ran(s', []);
  }

  /** Steps until a sleeping read can return: kicks to deliver, then the interrupt. */
  function Delay(s: Sys): nat {
    |s.kicks| + |s.rxAvail| + |s.rxUsed|
  }

  /** The next thing the device or the interrupt does for a sleeping reader. */
  lemma NextDeviceStep(s: Sys) returns (a: Step)
    requires Core(s) && s.reader.Waiting? && !(s.rxAvail == [] && s.rxUsed == [])
    ensures Enabled(s, a)
    ensures Apply(s, a).Ok? ==>
              var s' := Apply(s, a).s;
              Apply(s, a).obs == Silent && s'.reader == s.reader && Delay(s') == Delay(s) - 1
  {
    if s.rxAvail == [] {
      a := RxCallback;
    } else if s.txAvail != [] {
      var p := FreshPtr(s.hheap);
      a := HandleTx(true, p);
    } else {
      a := HandleRx(true);
    }
  }

  /** A sleeping read is never stuck: delivering the outstanding kicks and the interrupt wakes
      it with the whole item that is on top of the stack. */
  lemma ReadCompletes(s: Sys) returns (trace: seq<Step>)
    requires Inv(s) && s.reader.Waiting?
    ensures Stack(s) != [] && Delivers(s, trace, Stack(s)[|Stack(s)| - 1])
    ensures |trace| == Delay(s) + 1
    decreases Delay(s)
  {
    if s.rxAvail == [] && s.rxUsed == [] {
      DeliversNow(s);
      trace := [ReadFinish(0)];
      assert s.kicks == [];
    } else {
      var a := NextDeviceStep(s);
      StepGood(s, a);
      var rest := ReadCompletes(Apply(s, a).s);
      DeliversLater(s, a, rest, Stack(s)[|Stack(s)| - 1]);
      trace := [a] + rest;
    }
  }

  /** The steps that a sleeping read has to wait for; a transmit interrupt is not one of them. */
  function Work(trace: seq<Step>): nat {
    if trace == [] then 0 else (if trace[0] == TxCallback then 0 else 1) + Work(trace[1..])
  }

  /** While a read sleeps, every other step that can happen brings it nearer to its end. */
  lemma StepNearer(s: Sys, a: Step)
    requires Core(s) && s.reader.Waiting? && Enabled(s, a) && !a.ReadFinish? && Apply(s, a).Ok?
    ensures var o := Apply(s, a);
            && o.obs == Silent && o.s.reader == s.reader
            && Delay(o.s) + (if a == TxCallback then 0 else 1) == Delay(s)
  {
  }

  /** Observation `k` satisfies `answer` and is the first that is not silent. */
  ghost predicate AnswersAt(obs: seq<Obs>, k: nat, answer: Obs -> bool) {
    k < |obs| && answer(obs[k]) && forall i :: 0 <= i < k ==> obs[i] == Silent
  }

  lemma AnswersLater(obs: seq<Obs>, k: nat, answer: Obs -> bool)
    requires AnswersAt(obs, k, answer)
    ensures AnswersAt([Silent] + obs, k + 1, answer)
  {
  }

  /** A step answers, or is silent and keeps `sleeps` with one less to wait for. */
  ghost predicate Nearer(sleeps: (Sys, int) -> bool, answer: Obs -> bool, s: Sys, delay: int, a: Step) {
    var o := Apply(s, a);
    o.Ok? && if a.ReadFinish? then answer(o.obs)
             else o.obs == Silent && sleeps(o.s, if a == TxCallback then delay else delay - 1)
  }

  /** If every step brings an answer nearer, a run with enough work in it has the answer. */
  lemma {:induction false} RunAnswers(
      sleeps: (Sys, int) -> bool, answer: Obs -> bool, s: Sys, delay: int, trace: seq<Step>) returns (k: nat)
    requires sleeps(s, delay) && Legal(s, trace) && Run(s, trace).Ran? && Work(trace) > delay
    requires forall x, n {:trigger sleeps(x, n)} | sleeps(x, n) :: n >= 0
    requires forall x, n, a {:trigger sleeps(x, n), Enabled(x, a)} | sleeps(x, n) && Enabled(x, a) ::
               Nearer(sleeps, answer, x, n, a)
    ensures AnswersAt(Run(s, trace).obs, k, answer)
    decreases |trace|
  {
    var a := trace[0];
    assert Enabled(s, a) && Nearer(sleeps, answer, s, delay, a);
    k := 0;
    if !a.ReadFinish? {
      var s' := Apply(s, a).s;
      k := RunAnswers(sleeps, answer, s', if a == TxCallback then delay else delay - 1, trace[1..]);
      AnswersLater(Run(s', trace[1..]).obs, k, answer);
      k := k + 1;
    }
  }

  /** A read is asleep, with that stack and that much to wait for. */
  ghost predicate Sleeps(st: seq<Bytes>, s: Sys, delay: int) {
    Inv(s) && s.reader.Waiting? && Stack(s) == st && Delay(s) == delay
  }

  /** The end of a read of the top of `st`, less what the user copy missed. */
  predicate AnswersTop(st: seq<Bytes>, o: Obs) {
    && st != [] && o.ReadGot? && o.missing <= |st[|st| - 1]|
    && o.bytes == st[|st| - 1][..|st[|st| - 1]| - o.missing]
  }

  lemma FinishAnswers(s: Sys, missing: nat)
    requires Inv(s) && Enabled(s, ReadFinish(missing))
    ensures ReadFinishStep(s, missing).Ok? && AnswersTop(Stack(s), ReadFinishStep(s, missing).obs)
  {
    ReadFinishRefines(s, missing);
  }

  lemma SleepStep(s: Sys, a: Step) returns (s': Sys)
    requires Inv(s) && s.reader.Waiting? && Enabled(s, a) && !a.ReadFinish?
    ensures Apply(s, a) == Ok(s', Silent) && Inv(s') && s'.reader.Waiting? && Stack(s') == Stack(s)
    ensures Delay(s') == Delay(s) - if a == TxCallback then 0 else 1
  {
    var o;
    s', o := StepNext(s, a);
    StepNearer(s, a);
  }

  lemma SleepNearer(s: Sys, a: Step)
    requires Inv(s) && s.reader.Waiting?
    ensures var st := Stack(s);
            Enabled(s, a) ==> Nearer((x, n) => Sleeps(st, x, n), o => AnswersTop(st, o), s, Delay(s), a)
  {
    if Enabled(s, a) {
      if a.ReadFinish? {
        FinishAnswers(s, a.missing);
      } else {
        var s' := SleepStep(s, a);
      }
    }
  }

  /** The first thing to be seen, at `k`, is the end of such a read. */
  ghost predicate ReturnsTop(obs: seq<Obs>, k: nat, st: seq<Bytes>) {
    k < |obs| && AnswersTop(st, obs[k]) && forall i :: 0 <= i < k ==> obs[i] == Silent
  }

  lemma SleepAnswers(st: seq<Bytes>, s: Sys, delay: int, trace: seq<Step>) returns (k: nat)
    requires Sleeps(st, s, delay) && Legal(s, trace) && Run(s, trace).Ran? && Work(trace) > delay
    ensures ReturnsTop(Run(s, trace).obs, k, st)
  {
    forall x, n, a | Sleeps(st, x, n) && Enabled(x, a)
      ensures Nearer((x, n) => Sleeps(st, x, n), o => AnswersTop(st, o), x, n, a)
    {
      SleepNearer(x, a);
    }
    k := RunAnswers((x, n) => Sleeps(st, x, n), o => AnswersTop(st, o), s, delay, trace);
  }

  /** And a sleeping read does complete: in every legal run with more than `Delay` steps of work,
      whatever they are, it returns the top of the stack, less what the user copy missed, before
      anything else is seen. */
  lemma ReadMustComplete(s: Sys, trace: seq<Step>)
    requires Inv(s) && s.reader.Waiting?
    ensures var r, st := Run(s, trace), Stack(s);
            Legal(s, trace) && Work(trace) > Delay(s) ==>
              r.Ran? && exists k: nat :: ReturnsTop(r.obs, k, st)
  {
    if Legal(s, trace) && Work(trace) > Delay(s) {
      assert Run(s, trace).Ran? by {
        RunGood(s, trace);
      }
      var k := SleepAnswers(Stack(s), s, Delay(s), trace);
    }
  }

  // ---------------------------------------------------------------- nothing leaks

  lemma OwnsRemoveFirst(heap: map<Ptr, Bytes>, ps: seq<Ptr>)
    requires Owns(heap, ps) && ps != []
    ensures ps[0] in heap && Owns(heap - {ps[0]}, ps[1..])
  {
    assert ps == [] + [ps[0]] + ps[1..];
    OwnsRemove(heap, [], ps[0], ps[1..]);
    assert [] + ps[1..] == ps[1..];
  }

  lemma {:induction false} FreeCopiesRest(heap: map<Ptr, Bytes>, bufs: seq<Ptr>, k: nat)
    requires k <= |bufs| && Owns(heap, bufs)
    ensures FreeCopies(heap, bufs, k).Some?
    ensures Owns(FreeCopies(heap, bufs, k).value, bufs[k..])
  {
    if k == 0 {
      assert bufs[0..] == bufs;
    } else {
      FreeCopiesRest(heap, bufs, k - 1);
      OwnsRemoveFirst(FreeCopies(heap, bufs, k - 1).value, bufs[k - 1..]);
      assert bufs[k - 1..][1..] == bufs[k..];
    }
  }

  lemma {:induction false} FreeCopiesPrefix(heap: map<Ptr, Bytes>, bufs: seq<Ptr>, n: nat, k: nat)
    requires k <= n <= |bufs|
    ensures FreeCopies(heap, bufs, k) == FreeCopies(heap, bufs[..n], k)
  {
    if k > 0 {
      FreeCopiesPrefix(heap, bufs, n, k - 1);
    }
  }

  /** In every good state, unrealize frees each host copy that the receive handler has not
      freed, each once, and leaves nothing; and with no transfer under way the guest holds
      no buffer either. */
  lemma NothingLeaks(s: Sys)
    requires Inv(s)
    ensures FreeCopies(s.hheap, s.rcvBufs, s.rcvCount) == Some(map[])
    ensures s.reader.Idle? && s.txAvail == [] && s.txUsed == [] ==> s.gheap == map[]
  {
    FreeCopiesPrefix(s.hheap, s.rcvBufs, s.rcvCount, s.rcvCount);
    FreeCopiesRest(s.hheap, s.rcvBufs[..s.rcvCount], s.rcvCount);
    var left := FreeCopies(s.hheap, s.rcvBufs, s.rcvCount).value;
    assert left.Keys == {};
    if s.reader.Idle? && s.txAvail == [] && s.txUsed == [] {
      assert GuestOwned(s) == [];
      assert s.gheap.Keys == {};
    }
  }
}
