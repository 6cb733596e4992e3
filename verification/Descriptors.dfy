/** Descriptors built from overlapping stores (asm/libs64.S), against the formats of section
    6.14.1 (64-bit IDT gates) of the Intel SDM Vol. 3A. */
module Descriptors {
  import opened Basics

  // ---------------------------------------------------------------- little-endian numbers

  function Pow256(n: nat): (p: nat)
    ensures p > 0
  {
    if n == 0 then 1 else 256 * Pow256(n - 1)
  }

  /** The low `n` bytes of a register. */
  function ToBytes(v: nat, n: nat): (bs: Bytes)
    ensures |bs| == n
  {
    if n == 0 then [] else [v % 256] + ToBytes(v / 256, n - 1)
  }

  function FromBytes(bs: Bytes): nat {
    if bs == [] then 0 else bs[0] + 256 * FromBytes(bs[1..])
  }

  lemma {:induction false} ToFrom(v: nat, n: nat)
    requires v < Pow256(n)
    ensures FromBytes(ToBytes(v, n)) == v
  {
    if n > 0 {
      ToFrom(v / 256, n - 1);
      assert ToBytes(v, n)[1..] == ToBytes(v / 256, n - 1);
    }
  }

  // ---------------------------------------------------------------- memory

  /** Memory after a store of `bs` at `at`. */
  function Stored(m: Bytes, at: nat, bs: Bytes): (r: Bytes)
    requires at + |bs| <= |m|
    ensures |r| == |m|
    ensures forall i :: 0 <= i < |m| ==> r[i] == if at <= i < at + |bs| then bs[i - at] else m[i]
  {
    m[..at] + bs + m[at + |bs|..]
  }

  method Store(m: array<Byte>, at: nat, bs: Bytes)
    requires at + |bs| <= m.Length
    modifies m
    ensures m[..] == Stored(old(m[..]), at, bs)
  {
    for i := 0 to |bs|
      invariant forall k :: 0 <= k < m.Length ==> m[k] == if at <= k < at + i then bs[k - at] else old(m[k])
    {
      m[at + i] := bs[i];
    }
  }

  // ---------------------------------------------------------------- interrupt gates

  const KERNEL_CS := 0x28

  /** An interrupt gate taken apart. */
  datatype Gate = Gate(handler: nat, selector: nat, ist: nat, kind: nat)

  function Decoded(g: Bytes): Gate
    requires |g| == 16
  {
    Gate(FromBytes([g[0], g[1], g[6], g[7], g[8], g[9], g[10], g[11]]), FromBytes([g[2], g[3]]), g[4] % 8, g[5])
  }

  function GateAt(m: Bytes, vector: nat): Bytes
    requires 16 * vector + 16 <= |m|
  {
    m[16 * vector..16 * vector + 16]
  }

  /** A handler installed: which vector, where, and as kernel (0x8e) or user (0xee) gate. */
  datatype Install = Install(vector: nat, handler: nat, kind: Byte)

  /** The five stores of __set_interrupt_handler, of which each overlaps the one before. */
  function Overlapped(m: Bytes, at: nat, handler: Bytes, cs: Bytes, zero: Bytes, kind: Byte): (r: Bytes)
    requires at + 16 <= |m| && |handler| == 8 && |cs| == 2 && |zero| == 2
    ensures |r| == |m|
  {
    var m1 := Stored(m, at, handler);
    var m2 := Stored(m1, at + 4, handler);
    var m3 := Stored(m2, at + 2, cs);
    var m4 := Stored(m3, at + 4, zero);
    Stored(m4, at + 5, [kind])
  }

  function Installed(m: Bytes, c: Install): (r: Bytes)
    requires 16 * c.vector + 16 <= |m|
    ensures |r| == |m|
  {
    Overlapped(m, 16 * c.vector, ToBytes(c.handler, 8), ToBytes(KERNEL_CS, 2), ToBytes(0, 2), c.kind)
  }

  method SetInterruptHandler(idt: array<Byte>, rsi: nat, rdi: nat, user: bool)
    requires 16 * rsi + 16 <= idt.Length
    modifies idt
    ensures idt[..] == Installed(old(idt[..]), Install(rsi, rdi, if user then 0xee else 0x8e))
  {
    var at := rsi * 16;
    Store(idt, at, ToBytes(rdi, 8));
    Store(idt, at + 4, ToBytes(rdi, 8));
    Store(idt, at + 2, ToBytes(KERNEL_CS, 2));
    Store(idt, at + 4, ToBytes(0, 2));
    Store(idt, at + 5, [if user then 0xe0 + 0xe else 0x80 + 0xe]);
  }

  lemma HandlerTwice(m: Bytes, at: nat, h: Bytes)
    requires at + 16 <= |m| && |h| == 8
    ensures Stored(Stored(m, at, h), at + 4, h) == m[..at] + h[..4] + h + m[at + 12..]
  {
    var m1 := Stored(m, at, h);
    assert m1[..at + 4] == m[..at] + h[..4];
    assert m1[at + 12..] == m[at + 12..];
  }

  lemma SelectorOver(pre: Bytes, h: Bytes, post: Bytes, cs: Bytes)
    requires |h| == 8 && |cs| == 2
    ensures Stored(pre + h[..4] + h + post, |pre| + 2, cs) == pre + h[..2] + cs + h + post
  {
    var m := pre + h[..4] + h + post;
    assert m[..|pre| + 2] == pre + h[..2];
    assert m[|pre| + 4..] == h + post;
  }

  lemma ZeroOver(pre: Bytes, h: Bytes, post: Bytes, zero: Bytes)
    requires |h| == 8 && |zero| == 2
    ensures Stored(pre + h + post, |pre|, zero) == pre + zero + h[2..] + post
  {
    var m := pre + h + post;
    assert m[..|pre|] == pre;
    assert m[|pre| + 2..] == h[2..] + post;
  }

  lemma KindOver(pre: Bytes, zero: Bytes, post: Bytes, kind: Byte)
    requires |zero| == 2
    ensures Stored(pre + zero + post, |pre| + 1, [kind]) == pre + zero[..1] + [kind] + post
  {
    var m := pre + zero + post;
    assert m[..|pre| + 1] == pre + zero[..1];
    assert m[|pre| + 2..] == post;
  }

  lemma Regroup(pre: Bytes, a: Bytes, b: Bytes, c: Bytes, d: Bytes)
    ensures pre + a + b + c + d == pre + (a + b + c + d)
  {
  }

  /** What the overlapping stores leave of each other. */
  lemma OverlapBytes(m: Bytes, at: nat, h: Bytes, cs: Bytes, zero: Bytes, kind: Byte)
    requires at + 16 <= |m| && |h| == 8 && |cs| == 2 && |zero| == 2
    ensures Overlapped(m, at, h, cs, zero, kind) ==
            m[..at] + (h[..2] + cs + zero[..1] + [kind]) + (h[2..] + m[at + 12..])
  {
    var pre, post := m[..at], m[at + 12..];
    HandlerTwice(m, at, h);
    SelectorOver(pre, h, post, cs);
    ZeroOver(pre + h[..2] + cs, h, post, zero);
    ConcatAssoc(pre + h[..2] + cs + zero, h[2..], post);
    KindOver(pre + h[..2] + cs, zero, h[2..] + post, kind);
    Regroup(pre, h[..2], cs, zero[..1], [kind]);
  }

  lemma SliceOf(pre: Bytes, a: Bytes, b: Bytes, post: Bytes, n: nat)
    requires n <= |post|
    ensures (pre + a + (b + post))[|pre|..|pre| + |a| + |b| + n] == a + b + post[..n]
  {
  }

  lemma OverlapGate(m: Bytes, at: nat, h: Bytes, cs: Bytes, zero: Bytes, kind: Byte)
    requires at + 16 <= |m| && |h| == 8 && |cs| == 2 && |zero| == 2
    ensures Overlapped(m, at, h, cs, zero, kind)[at..at + 16] ==
            h[..2] + cs + zero[..1] + [kind] + h[2..] + m[at + 12..at + 16]
  {
    OverlapBytes(m, at, h, cs, zero, kind);
    SliceOf(m[..at], h[..2] + cs + zero[..1] + [kind], h[2..], m[at + 12..], 4);
    assert m[at + 12..][..4] == m[at + 12..at + 16];
  }

  /** A gate of these bytes decodes to what they say. */
  lemma GateDecodes(h: Bytes, cs: Bytes, zero: Bytes, kind: Byte, rest: Bytes)
    requires |h| == 8 && |cs| == 2 && |zero| == 2 && zero[0] == 0 && |rest| == 4
    ensures var g := h[..2] + cs + zero[..1] + [kind] + h[2..] + rest;
            Decoded(g) == Gate(FromBytes(h), FromBytes(cs), 0, kind) && g[12..] == rest
  {
    var g := h[..2] + cs + zero[..1] + [kind] + h[2..] + rest;
    assert [g[0], g[1], g[6], g[7], g[8], g[9], g[10], g[11]] == h;
    assert [g[2], g[3]] == cs;
  }

  lemma OwnGate(m: Bytes, c: Install)
    requires 16 * c.vector + 16 <= |m| && c.handler < Pow256(8)
    ensures var g := GateAt(Installed(m, c), c.vector);
            Decoded(g) == Gate(c.handler, KERNEL_CS, 0, c.kind) && g[12..] == GateAt(m, c.vector)[12..]
  {
    var at, h, cs, zero := 16 * c.vector, ToBytes(c.handler, 8), ToBytes(KERNEL_CS, 2), ToBytes(0, 2);
    OverlapGate(m, at, h, cs, zero, c.kind);
    GateDecodes(h, cs, zero, c.kind, m[at + 12..at + 16]);
    assert GateAt(m, c.vector)[12..] == m[at + 12..at + 16];
    ToFrom(c.handler, 8);
    assert KERNEL_CS < Pow256(2);
    ToFrom(KERNEL_CS, 2);
  }

  lemma OtherGate(m: Bytes, c: Install, vector: nat)
    requires 16 * c.vector + 16 <= |m| && 16 * vector + 16 <= |m| && vector != c.vector
    ensures GateAt(Installed(m, c), vector) == GateAt(m, vector)
  {
  }

  /** The processor finds the handler that was installed, and every other gate as it was. */
  lemma InstallDecodes(m: Bytes, c: Install, vector: nat)
    requires 16 * c.vector + 16 <= |m| && 16 * vector + 16 <= |m| && c.handler < Pow256(8)
    ensures vector == c.vector ==> Decoded(GateAt(Installed(m, c), vector)) == Gate(c.handler, 0x28, 0, c.kind)
    ensures vector != c.vector ==> GateAt(Installed(m, c), vector) == GateAt(m, vector)
    ensures GateAt(Installed(m, c), vector)[12..] == GateAt(m, vector)[12..]
  {
    if vector == c.vector {
      OwnGate(m, c);
    } else {
      OtherGate(m, c, vector);
    }
  }

  predicate Fits(m: Bytes, calls: seq<Install>) {
    forall i :: 0 <= i < |calls| ==> 16 * calls[i].vector + 16 <= |m| && calls[i].handler < Pow256(8)
  }

  function InstalledAll(m: Bytes, calls: seq<Install>): (r: Bytes)
    requires Fits(m, calls)
    ensures |r| == |m|
  {
    if calls == [] then m
    else Installed(InstalledAll(m, calls[..|calls| - 1]), calls[|calls| - 1])
  }

  function LastInstall(calls: seq<Install>, vector: nat): Option<Install> {
    if calls == [] then None
    else if calls[|calls| - 1].vector == vector then Some(calls[|calls| - 1])
    else LastInstall(calls[..|calls| - 1], vector)
  }

  /** Main result: after any installs each gate holds the last handler installed for its vector,
      and a vector without one keeps its sixteen bytes. */
  lemma {:induction false} LastInstallWins(m: Bytes, calls: seq<Install>, vector: nat)
    requires Fits(m, calls) && 16 * vector + 16 <= |m|
    ensures match LastInstall(calls, vector)
            case Some(c) => Decoded(GateAt(InstalledAll(m, calls), vector)) == Gate(c.handler, 0x28, 0, c.kind)
            case None => GateAt(InstalledAll(m, calls), vector) == GateAt(m, vector)
  {
    if calls != [] {
      var n := |calls| - 1;
      LastInstallWins(m, calls[..n], vector);
      InstallDecodes(InstalledAll(m, calls[..n]), calls[n], vector);
    }
  }

  /** The code and data segments of the global descriptor table, from entry 0. */
  const GDT: seq<nat> := [
    0, 0x00009a000000ffff, 0x000092000000ffff, 0x00cf9a000000ffff, 0x00cf92000000ffff, 0x0020980000000000,
    0x0000920000000001, 0x00cffa000000ffff, 0x00cff2000000ffff, 0x0020f80000000000, 0x0000f20000000000]

  /** Present, privilege level 0, a code segment (access byte 1001 1xxx), in 64-bit mode (bits L and
      D of the flags are 1 and 0). */
  predicate KernelCode64(d: nat) {
    d / 0x80000000000 % 0x20 == 0x13 && d / 0x20000000000000 % 4 == 1
  }

  /** The selector in the gates is the one of the only such segment. */
  lemma KernelSelector(i: nat)
    requires i < |GDT|
    ensures KernelCode64(GDT[i]) <==> 8 * i == KERNEL_CS
  {
  }

  // ---------------------------------------------------------------- system descriptors

  /** The limit as it is stored: in bytes, or in pages when it needs more than twelve bits. */
  function LimitWord(limit: nat): nat {
    if limit / 4096 == 0 then limit else limit / 4096
  }

  /** __set_system_descriptor at byte `at` of the GDT; `byte6` is what the last store leaves
      there (limit bits 19:16 and flags, from a shift whose result is not defined). */
  function SystemDescriptor(m: Bytes, at: nat, limit: nat, base: nat, kind: nat, byte6: Byte): (r: Bytes)
    requires at + 16 <= |m|
    ensures |r| == |m|
  {
    var m1 := Stored(m, at + 4, ToBytes(base, 8));
    var m2 := Stored(m1, at + 2, ToBytes(base, 4));
    var m3 := Stored(m2, at + 5, [kind % 128 + 128]);
    var m4 := Stored(m3, at, ToBytes(LimitWord(limit), 2));
    Stored(m4, at + 6, [byte6])
  }

  method SetSystemDescriptor(gdt: array<Byte>, selector: nat, limit: nat, base: nat, kind: nat, byte6: Byte)
    requires selector % 0x10000 / 8 * 8 + 16 <= gdt.Length
    modifies gdt
    ensures gdt[..] == SystemDescriptor(old(gdt[..]), selector % 0x10000 / 8 * 8, limit, base, kind, byte6)
  {
    var at := selector % 0x10000 / 8 * 8;
    Store(gdt, at + 4, ToBytes(base, 8));
    Store(gdt, at + 2, ToBytes(base, 4));
    Store(gdt, at + 5, [kind % 128 + 128]);
    var r8 := limit / 4096;
    if r8 == 0 {
      r8 := limit;
    }
    Store(gdt, at, ToBytes(r8, 2));
    Store(gdt, at + 6, [byte6]);
  }

  lemma {:induction false} ToBytesPrefix(v: nat, k: nat, n: nat)
    requires k <= n
    ensures ToBytes(v, k) == ToBytes(v, n)[..k]
  {
    if k > 0 {
      ToBytesPrefix(v / 256, k - 1, n - 1);
    }
  }

  function Window(m: Bytes, at: nat): (w: Bytes)
    requires at + 16 <= |m|
    ensures |w| == 16
  {
    m[at..at + 16]
  }

  lemma SystemByte(m: Bytes, at: nat, limit: nat, base: nat, kind: nat, byte6: Byte, i: nat)
    requires at + 16 <= |m| && i < 16
    ensures var b := ToBytes(base, 8);
            Window(SystemDescriptor(m, at, limit, base, kind, byte6), at)[i] ==
              if i < 2 then ToBytes(LimitWord(limit), 2)[i] else if i < 5 then b[i - 2]
              else if i == 5 then kind % 128 + 128 else if i == 6 then byte6
              else if i < 12 then b[i - 4] else Window(m, at)[i]
  {
    ToBytesPrefix(base, 4, 8);
    var r := SystemDescriptor(m, at, limit, base, kind, byte6);
    assert Window(r, at)[i] == r[at + i];
  }

  lemma LowWord(v: nat)
    ensures v % 256 + 256 * (v / 256 % 256) == v % 0x10000
  {
    var q := v / 256 / 256;
    assert v == 0x10000 * q + (v % 256 + 256 * (v / 256 % 256));
  }

  lemma WordBytes(v: nat)
    ensures FromBytes(ToBytes(v, 2)) == v % 0x10000
  {
    var a, b: Byte := v % 256, v / 256 % 256;
    assert ToBytes(v, 2) == [a] + ToBytes(v / 256, 1) && ToBytes(v / 256, 1) == [b] + ToBytes(v / 256 / 256, 0);
    assert ToBytes(v, 2) == [a, b];
    assert [a, b][1..] == [b] && [b][1..] == [];
    assert FromBytes([b]) == b + 256 * FromBytes([]);
    assert FromBytes([a, b]) == a + 256 * FromBytes([b]);
    LowWord(v);
  }

  /** Base and type survive the overlapping stores, whatever byte 6 becomes. */
  lemma SystemDescriptorDecodes(m: Bytes, at: nat, limit: nat, base: nat, kind: nat, byte6: Byte)
    requires at + 16 <= |m| && base < Pow256(8)
    ensures var d := Window(SystemDescriptor(m, at, limit, base, kind, byte6), at);
            && FromBytes([d[2], d[3], d[4], d[7], d[8], d[9], d[10], d[11]]) == base
            && d[5] >= 0x80 && d[5] % 0x80 == kind % 0x80
            && FromBytes([d[0], d[1]]) == (if limit < 0x1000 then limit else limit / 0x1000) % 0x10000
    ensures var r := SystemDescriptor(m, at, limit, base, kind, byte6);
            forall j | 0 <= j < |m| && !(at <= j < at + 12) :: r[j] == m[j]
  {
    forall i | 0 <= i < 16 {
      SystemByte(m, at, limit, base, kind, byte6, i);
    }
    var d := Window(SystemDescriptor(m, at, limit, base, kind, byte6), at);
    assert [d[2], d[3], d[4], d[7], d[8], d[9], d[10], d[11]] == ToBytes(base, 8);
    ToFrom(base, 8);
    assert [d[0], d[1]] == ToBytes(LimitWord(limit), 2);
    WordBytes(LimitWord(limit));
  }
}
