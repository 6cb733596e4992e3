/** The SVM MSR permission map: packed 32-bit updates against the layout of section 15.11 (MSR
    Intercepts) of the AMD64 APM Vol. 2. */
module Msrpm {
  import opened Basics

  // ---------------------------------------------------------------- bits of a word

  predicate Bit(w: nat, k: nat) {
    if k == 0 then w % 2 == 1 else Bit(w / 2, k - 1)
  }

  /** set_bit or clear_bit. */
  function WithBit(w: nat, k: nat, b: bool): nat {
    if k == 0 then w / 2 * 2 + (if b then 1 else 0) else WithBit(w / 2, k - 1, b) * 2 + w % 2
  }

  lemma {:induction false} WithBitBits(w: nat, k: nat, b: bool, j: nat)
    ensures Bit(WithBit(w, k, b), j) == if j == k then b else Bit(w, j)
  {
    if k > 0 && j > 0 {
      WithBitBits(w / 2, k - 1, b, j - 1);
      assert WithBit(w, k, b) / 2 == WithBit(w / 2, k - 1, b);
    }
  }

  function Pow2(n: nat): nat { if n == 0 then 1 else 2 * Pow2(n - 1) }

  lemma HalfFits(w: nat, p: nat)
    requires w < 2 * p
    ensures w / 2 < p
  {
  }

  lemma {:induction false} WithBitFits(w: nat, k: nat, b: bool, n: nat)
    requires k < n && w < Pow2(n)
    ensures WithBit(w, k, b) < Pow2(n)
  {
    HalfFits(w, Pow2(n - 1));
    if k > 0 {
      WithBitFits(w / 2, k - 1, b, n - 1);
    }
  }

  // ---------------------------------------------------------------- the source

  const RANGES: seq<nat> := [0, 0xc0000000, 0xc0010000]
  const MSRS_RANGE_SIZE := 2048
  const MSRS_IN_RANGE := 8192
  const WORDS := 1536

  /** An MSR that the map covers: number, range and position in the range. */
  predicate Mapped(msr: nat) {
    msr < 0x2000 || 0xc0000000 <= msr < 0xc0002000 || 0xc0010000 <= msr < 0xc0012000
  }

  function RangeOf(msr: nat): nat {
    if msr < 0xc0000000 then 0 else if msr < 0xc0010000 then 1 else 2
  }

  function Base(i: nat): nat {
    if i == 0 then 0 else if i == 1 then 0xc0000000 else 0xc0010000
  }

  /** The 32-bit word that holds the two bits of an MSR. */
  function Offset(msr: nat): (o: nat)
    requires Mapped(msr)
    ensures o < WORDS
  {
    ((msr - Base(RangeOf(msr))) / 4 + RangeOf(msr) * 2048) / 4
  }

  /** svm_msrpm_offset: `found` is false for MSR_INVALID. */
  method SvmMsrpmOffset(msr: nat) returns (found: bool, offset: nat)
    ensures found <==> Mapped(msr)
    ensures found ==> offset == Offset(msr)
  {
    var i := 0;
    while i < 3
      invariant 0 <= i <= 3
      invariant Mapped(msr) ==> i <= RangeOf(msr)
    {
      if msr < RANGES[i] || msr >= RANGES[i] + MSRS_IN_RANGE {
        i := i + 1;
        continue;
      }
      offset := (msr - RANGES[i]) / 4;
      offset := offset + i * MSRS_RANGE_SIZE;
      return true, offset / 4;
    }
    return false, 0;
  }

  /** The map after one call; a true argument lets the access through. */
  function SetIntercept(words: seq<nat>, c: Call): seq<nat>
    requires |words| >= WORDS && Mapped(c.msr)
  {
    var bit := 2 * (c.msr % 16);
    words[Offset(c.msr) := WithBit(WithBit(words[Offset(c.msr)], bit, !c.read), bit + 1, !c.write)]
  }

  datatype Call = Call(msr: nat, read: bool, write: bool)

  /** set_msr_interception: `ok` is false for the BUG_ON. */
  method SetMsrInterception(msrpm: array<nat>, msr: nat, read: bool, write: bool) returns (ok: bool)
    requires msrpm.Length >= WORDS
    modifies msrpm
    ensures ok <==> Mapped(msr)
    ensures msrpm[..] == if ok then SetIntercept(old(msrpm[..]), Call(msr, read, write)) else old(msrpm[..])
  {
    var offset;
    ok, offset := SvmMsrpmOffset(msr);
    if !ok {
      return;
    }
    var bitRead, bitWrite := 2 * (msr % 16), 2 * (msr % 16) + 1;
    var tmp := msrpm[offset];
    tmp := WithBit(tmp, bitRead, !read);
    tmp := WithBit(tmp, bitWrite, !write);
    msrpm[offset] := tmp;
  }

  // ---------------------------------------------------------------- the architecture

  /** Bit `k` of byte `a` of the map, for a little-endian array of words. */
  predicate MapBit(words: seq<nat>, a: nat, k: nat)
    requires a / 4 < |words| && k < 8
  {
    Bit(words[a / 4], 8 * (a % 4) + k)
  }

  /** The byte of an MSR: four to a byte, 2048 bytes to a range. */
  function ByteOf(msr: nat): nat
    requires Mapped(msr)
  {
    if msr < 0x2000 then msr / 4
    else if msr < 0xc0002000 then 0x800 + (msr - 0xc0000000) / 4
    else 0x1000 + (msr - 0xc0010000) / 4
  }

  /** Within it, the read intercept; the write intercept is the next bit up. */
  function BitOf(msr: nat): nat { 2 * (msr % 4) }

  /** A position in a range as word, byte in the word, and MSR in the byte. */
  lemma Parts(i: nat, x: nat, a: nat, b: nat, c: nat)
    requires i < 3 && x == 16 * a + 4 * b + c && b < 4 && c < 4
    ensures x / 4 == 4 * a + b && x % 4 == c && x % 16 == 4 * b + c
    ensures (x / 4 + i * 2048) / 4 == 512 * i + a && (2048 * i + x / 4) % 4 == b
  {
  }

  lemma Rem16(q: nat, r: nat)
    requires r < 16
    ensures (16 * q + r) % 16 == r && (16 * q + r) % 4 == r % 4
  {
    assert (16 * q + r) / 16 == q;
    assert (16 * q + r) / 4 == 4 * q + r / 4;
  }

  lemma Above16(k: nat, x: nat)
    ensures (16 * k + x) % 16 == x % 16 && (16 * k + x) % 4 == x % 4
  {
    var q, r := x / 16, x % 16;
    assert x == 16 * q + r && 16 * k + x == 16 * (k + q) + r;
    Rem16(q, r);
    Rem16(k + q, r);
  }

  lemma BaseAligned(msr: nat, x: nat)
    requires msr == Base(RangeOf(msr)) + x
    ensures msr % 16 == x % 16 && msr % 4 == x % 4
  {
    Above16(if RangeOf(msr) == 0 then 0 else if RangeOf(msr) == 1 then 0xc000000 else 0xc001000, x);
  }

  /** Word and bit of the source are byte and bit of the architecture. */
  lemma LayoutAgrees(msr: nat)
    requires Mapped(msr)
    ensures Offset(msr) == ByteOf(msr) / 4
    ensures 2 * (msr % 16) == 8 * (ByteOf(msr) % 4) + BitOf(msr)
  {
    var x := msr - Base(RangeOf(msr));
    BaseAligned(msr, x);
    Parts(RangeOf(msr), x, x / 16, x % 16 / 4, x % 4);
  }

  lemma LayoutInjective(m1: nat, m2: nat)
    requires Mapped(m1) && Mapped(m2) && ByteOf(m1) == ByteOf(m2) && BitOf(m1) == BitOf(m2)
    ensures m1 == m2
  {
    var x1, x2 := m1 - Base(RangeOf(m1)), m2 - Base(RangeOf(m2));
    BaseAligned(m1, x1);
    BaseAligned(m2, x2);
    assert 0 <= x1 / 4 < 2048 && 0 <= x2 / 4 < 2048;
  }

  /** What one call does to one bit. */
  lemma CallBits(words: seq<nat>, c: Call, a: nat, k: nat)
    requires |words| >= WORDS && Mapped(c.msr) && a / 4 < |words| && k < 8
    ensures MapBit(SetIntercept(words, c), a, k) ==
              if a == ByteOf(c.msr) && k == BitOf(c.msr) then !c.read
              else if a == ByteOf(c.msr) && k == BitOf(c.msr) + 1 then !c.write
              else MapBit(words, a, k)
  {
    LayoutAgrees(c.msr);
    var bit, w, j := 2 * (c.msr % 16), words[Offset(c.msr)], 8 * (a % 4) + k;
    WithBitBits(w, bit, !c.read, j);
    WithBitBits(WithBit(w, bit, !c.read), bit + 1, !c.write, j);
  }

  /** Whether reads and writes of an MSR are intercepted, as the processor finds it. */
  function Intercepts(words: seq<nat>, msr: nat): (bool, bool)
    requires |words| >= WORDS && Mapped(msr)
  {
    LayoutAgrees(msr);
    (MapBit(words, ByteOf(msr), BitOf(msr)), MapBit(words, ByteOf(msr), BitOf(msr) + 1))
  }

  /** No two MSRs share a bit, so a call changes one MSR. */
  lemma CallIntercepts(words: seq<nat>, c: Call, msr: nat)
    requires |words| >= WORDS && Mapped(c.msr) && Mapped(msr)
    ensures Intercepts(SetIntercept(words, c), msr) ==
            if msr == c.msr then (!c.read, !c.write) else Intercepts(words, msr)
  {
    LayoutAgrees(msr);
    CallBits(words, c, ByteOf(msr), BitOf(msr));
    CallBits(words, c, ByteOf(msr), BitOf(msr) + 1);
    if ByteOf(c.msr) == ByteOf(msr) && BitOf(c.msr) == BitOf(msr) {
      LayoutInjective(c.msr, msr);
    }
  }

  predicate AllMapped(calls: seq<Call>) {
    forall i :: 0 <= i < |calls| ==> Mapped(calls[i].msr)
  }

  function ApplyAll(words: seq<nat>, calls: seq<Call>): (r: seq<nat>)
    requires |words| >= WORDS && AllMapped(calls)
    ensures |r| == |words|
  {
    if calls == [] then words
    else SetIntercept(ApplyAll(words, calls[..|calls| - 1]), calls[|calls| - 1])
  }

  /** The last call made for an MSR. */
  function LastCall(calls: seq<Call>, msr: nat): Option<Call> {
    if calls == [] then None
    else if calls[|calls| - 1].msr == msr then Some(calls[|calls| - 1])
    else LastCall(calls[..|calls| - 1], msr)
  }

  /** Main result: after any calls, the intercepts of every covered MSR are those of the last
      call made for it, or the initial ones. */
  lemma {:induction false} LastCallWins(words: seq<nat>, calls: seq<Call>, msr: nat)
    requires |words| >= WORDS && AllMapped(calls) && Mapped(msr)
    ensures Intercepts(ApplyAll(words, calls), msr) ==
              match LastCall(calls, msr) { case Some(c) => (!c.read, !c.write) case None => Intercepts(words, msr) }
  {
    if calls != [] {
      var n := |calls| - 1;
      LastCallWins(words, calls[..n], msr);
      CallIntercepts(ApplyAll(words, calls[..n]), calls[n], msr);
    }
  }

  /** Every other bit keeps its value. */
  lemma {:induction false} OtherBitsKept(words: seq<nat>, calls: seq<Call>, a: nat, k: nat)
    requires |words| >= WORDS && AllMapped(calls)
    requires a / 4 < |words| && k < 8
    requires forall i :: 0 <= i < |calls| ==>
               !(a == ByteOf(calls[i].msr) && BitOf(calls[i].msr) <= k <= BitOf(calls[i].msr) + 1)
    ensures MapBit(ApplyAll(words, calls), a, k) == MapBit(words, a, k)
  {
    if calls != [] {
      var n := |calls| - 1;
      OtherBitsKept(words, calls[..n], a, k);
      CallBits(ApplyAll(words, calls[..n]), calls[n], a, k);
    }
  }

  /** The words stay 32-bit words. */
  lemma {:induction false} WordsFit(words: seq<nat>, calls: seq<Call>)
    requires |words| >= WORDS && AllMapped(calls)
    requires forall i :: 0 <= i < |words| ==> words[i] < Pow2(32)
    ensures forall i :: 0 <= i < |words| ==> ApplyAll(words, calls)[i] < Pow2(32)
  {
    if calls != [] {
      var c := calls[|calls| - 1];
      var before := ApplyAll(words, calls[..|calls| - 1]);
      WordsFit(words, calls[..|calls| - 1]);
      var w := before[Offset(c.msr)];
      WithBitFits(w, 2 * (c.msr % 16), !c.read, 32);
      WithBitFits(WithBit(w, 2 * (c.msr % 16), !c.read), 2 * (c.msr % 16) + 1, !c.write, 32);
    }
  }
}
