/** Four-level paging as section 4.5 of the Intel SDM Vol. 3A defines it, the tables that
    asm/page64.S is meant to build, and the address map that follows from them. */
module PageTables {
  import opened Basics

  const P := 0x1
  const RW := 0x2
  const US := 0x4
  const PWT := 0x8
  const PCD := 0x10
  const PS := 0x80

  /** Page number of PML4T, 0x200000. */
  const PML4T := 0x200

  // ---------------------------------------------------------------- host memory (vm.c)

  const SLOT1_BASE := 0x7000
  const SLOT1_SIZE := 0x80000
  const SLOT2_BASE := 0x100000
  const SLOT2_SIZE := 0x4000000

  predicate InSlot1(a: int) { SLOT1_BASE <= a < SLOT1_BASE + SLOT1_SIZE }
  predicate InSlot2(a: int) { SLOT2_BASE <= a < SLOT2_BASE + SLOT2_SIZE }

  // ---------------------------------------------------------------- the walker

  /** A paging-structure entry taken apart; `page` is bits 51:12. */
  datatype Entry = Entry(p: bool, rw: bool, us: bool, pwt: bool, pcd: bool, ps: bool, page: int)

  function Decode(e: int): Entry {
    Entry(e % 2 == 1, e / 0x2 % 2 == 1, e / 0x4 % 2 == 1, e / 0x8 % 2 == 1, e / 0x10 % 2 == 1, e / 0x80 % 2 == 1,
          e / 0x1000 % 0x100_0000_0000)
  }

  function Encode(e: Entry): int {
    (if e.p then P else 0) + (if e.rw then RW else 0) + (if e.us then US else 0) + (if e.pwt then PWT else 0)
    + (if e.pcd then PCD else 0) + (if e.ps then PS else 0) + 0x1000 * e.page
  }

  /** Physical memory by dword: `m(i)` is the dword at address 4 * i. */
  type Memory = int -> int

  /** The paging structures, by page number of the table and entry number. */
  type Tables = (int, int) -> Entry

  function TablesIn(m: Memory): Tables {
    (t, k) => Decode(m(0x400 * t + 2 * k) + 0x1_0000_0000 * m(0x400 * t + 2 * k + 1))
  }

  datatype Translation =
    | PageFault
    | Mapped(phys: int, user: bool, writable: bool, pat: nat)

  predicate Canonical(va: int) {
    0 <= va < 0x8000_0000_0000 || TWO64 - 0x8000_0000_0000 <= va < TWO64
  }

  /** A linear address as the walker uses it: four table indices and a page offset. */
  datatype Linear = Linear(i4: int, i3: int, i2: int, i1: int, off: int)

  function Split(va: int): Linear {
    Linear(va / 0x80_0000_0000 % 512, va / 0x4000_0000 % 512, va / 0x20_0000 % 512, va / 0x1000 % 512, va % 0x1000)
  }

  /** The translation of a linear address by the tables in memory `m` with CR3 at page PML4T. */
  function Translate(m: Memory, va: int): Translation {
    if !Canonical(va) then PageFault else Walk(TablesIn(m), Split(va))
  }

  function Walk(ts: Tables, v: Linear): Translation {
    var e := ts(PML4T, v.i4);
    if !e.p || e.ps then PageFault
    else WalkPdpt(ts, e.page, v, e.us, e.rw)
  }

  function WalkPdpt(ts: Tables, table: int, v: Linear, user: bool, writable: bool): Translation {
    var e := ts(table, v.i3);
    if !e.p then PageFault
    else if e.ps then
      if e.page % 0x40000 >= 2 then PageFault                  // reserved bits 29:13; bit 12 is PAT
      else Leaf(e, 0x1000 * (e.page - e.page % 0x40000) + v.i2 * 0x20_0000 + v.i1 * 0x1000 + v.off, user, writable)
    else WalkPd(ts, e.page, v, user && e.us, writable && e.rw)
  }

  function WalkPd(ts: Tables, table: int, v: Linear, user: bool, writable: bool): Translation {
    var e := ts(table, v.i2);
    if !e.p then PageFault
    else if e.ps then
      if e.page % 0x200 >= 2 then PageFault                    // reserved bits 20:13; bit 12 is PAT
      else Leaf(e, 0x1000 * (e.page - e.page % 0x200) + v.i1 * 0x1000 + v.off, user, writable)
    else WalkPt(ts, e.page, v, user && e.us, writable && e.rw)
  }

  function WalkPt(ts: Tables, table: int, v: Linear, user: bool, writable: bool): Translation {
    var e := ts(table, v.i1);
    if !e.p then PageFault else Leaf(e, 0x1000 * e.page + v.off, user, writable)
  }

  /** `pat` is the entry of the page attribute table that gives the memory type; bit 12 of a large
      page, its third bit, is clear in all of them. */
  function Leaf(e: Entry, phys: int, user: bool, writable: bool): Translation {
    Mapped(phys, user && e.us, writable && e.rw, (if e.pcd then 2 else 0) + (if e.pwt then 1 else 0))
  }

  // ---------------------------------------------------------------- the tables

  /** The page numbers that init_paging clears. */
  predicate IsTablePage(t: int) {
    0x200 <= t < 0x20f || 0x300 <= t < 0x305
  }

  const EMPTY := Entry(false, false, false, false, false, false, 0)

  /** A present, writable entry for the next table or a 4 KB page. */
  function Page(page: int, us: bool): Entry { Entry(true, true, us, false, false, false, page) }

  function BigPage(page: int, us: bool): Entry { Entry(true, true, us, false, false, true, page) }

  /** Entry `k` of the table in page `t` when init_paging is done. */
  function TableEntry(t: int, k: int): Entry {
    if t == 0x200 then
      if k == 0 then Page(0x201, true) else if k == 0xff then Page(0x300, true)
      else if k == 0x1ff then Page(0x202, false) else EMPTY
    else if t == 0x201 then
      if k == 0 then Page(0x203, true) else EMPTY
    else if t == 0x202 then
      if k == 0x1e0 then Page(0x204, true) else if k == 0x1ff then Page(0x209, false) else EMPTY
    else if t == 0x203 then
      if k == 0 then Page(0x205, true) else if k == 1 then BigPage(0x200, false)
      else if k == 2 then Page(0x207, false) else if k == 0x40 then BigPage(0x8000, true)
      else if k == 4 then Entry(true, true, false, true, true, true, 0xfee00) else EMPTY
    else if t == 0x204 then
      if k == 0 then Page(0x206, false) else if k == 0x80 then Page(0x208, false) else EMPTY
    else if t == 0x205 then
      if k == 1 then Entry(false, true, true, false, false, false, 0)
      else if IdentityPage(k) then Page(k, true) else EMPTY
    else if t == 0x206 then
      if 0 <= k <= 1 then Page(0x410 + k, false) else EMPTY
    else if t == 0x208 then
      if 0 <= k <= 1 then Page(0x412 + k, false) else EMPTY
    else if t == 0x209 then
      if k == 0x1ff then BigPage(0xa00, false) else EMPTY
    else if t == 0x300 then
      if k == 0x1fc then Page(0x301, true) else if k == 0x1ff then Page(0x302, true) else EMPTY
    else if t == 0x301 then
      if k == 0 then Entry(false, true, true, false, false, true, 0x800) else EMPTY
    else if t == 0x302 then
      if k == 0x1ff then Page(0x303, true) else EMPTY
    else if t == 0x303 then
      if 0 <= k <= 3 then Page(0x414 + k, true) else EMPTY
    else EMPTY
  }

  /** The pages of the first 2 MB that are mapped to themselves. */
  predicate IdentityPage(k: int) { 9 <= k <= 0x19 || k == 0x20 || 0xb8 <= k <= 0xb9 }

  /** Table page `t` in memory holds its entries, encoded, with zero high halves. */
  ghost predicate Filled(m: Memory, t: int) {
    forall k | 0 <= k < 512 :: Cell(m, t, k) == (Encode(TableEntry(t, k)), 0)
  }

  /** The two dwords of one entry. */
  function Cell(m: Memory, t: int, k: int): (int, int) {
    (m(0x400 * t + 2 * k), m(0x400 * t + 2 * k + 1))
  }

  ghost predicate InMemory(m: Memory) {
    forall t | IsTablePage(t) :: Filled(m, t)
  }

  ghost predicate Built(ts: Tables) {
    forall t, k :: IsTablePage(t) && 0 <= k < 512 ==> ts(t, k) == TableEntry(t, k)
  }

  // ---------------------------------------------------------------- the address map

  /** Where the guest finds itself: the whole translation in closed form. */
  function AddressMap(va: int): Translation {
    if 0x9000 <= va < 0x1a000 || 0x20000 <= va < 0x21000 || 0xb8000 <= va < 0xba000 then
      Mapped(va, true, true, 0)                                   // code and text buffer
    else if 0x200000 <= va < 0x400000 then
      Mapped(va, false, true, 0)                                  // page tables
    else if 0x800000 <= va < 0xa00000 then
      Mapped(va - 0x800000 + 0xfee00000, false, true, 3)          // local APIC
    else if 0x8000000 <= va < 0x8200000 then
      Mapped(va, true, true, 0)                                   // test MMIO page
    else if 0x7fffffe00000 <= va < 0x7fffffe04000 then
      Mapped(va - 0x7fffffe00000 + 0x414000, true, true, 0)       // user stacks
    else if 0xfffffff800000000 <= va < 0xfffffff800002000 then
      Mapped(va - 0xfffffff800000000 + 0x410000, false, true, 0)  // system data
    else if 0xfffffff810000000 <= va < 0xfffffff810002000 then
      Mapped(va - 0xfffffff810000000 + 0x412000, false, true, 0)  // IST stacks
    else if 0xffffffffffe00000 <= va < TWO64 then
      Mapped(va - 0xffffffffffe00000 + 0xa00000, false, true, 0)  // kernel stacks
    else PageFault
  }

  // ---------------------------------------------------------------- from memory to entries

  // One bit of a number that is given as the bits above it, the bit, and the bits below it.

  lemma Bit1(x: int, high: int, b: int)
    requires 0 <= b <= 1 && x == 2 * high + b
    ensures x % 2 == b
  {
  }

  lemma Bit2(x: int, high: int, b: int, low: int)
    requires 0 <= low < 0x2 && 0 <= b <= 1 && x == 0x4 * high + 0x2 * b + low
    ensures x / 0x2 % 2 == b
  {
  }

  lemma Bit4(x: int, high: int, b: int, low: int)
    requires 0 <= low < 0x4 && 0 <= b <= 1 && x == 0x8 * high + 0x4 * b + low
    ensures x / 0x4 % 2 == b
  {
  }

  lemma Bit8(x: int, high: int, b: int, low: int)
    requires 0 <= low < 0x8 && 0 <= b <= 1 && x == 0x10 * high + 0x8 * b + low
    ensures x / 0x8 % 2 == b
  {
  }

  lemma Bit10(x: int, high: int, b: int, low: int)
    requires 0 <= low < 0x10 && 0 <= b <= 1 && x == 0x20 * high + 0x10 * b + low
    ensures x / 0x10 % 2 == b
  {
  }

  lemma Bit80(x: int, high: int, b: int, low: int)
    requires 0 <= low < 0x80 && 0 <= b <= 1 && x == 0x100 * high + 0x80 * b + low
    ensures x / 0x80 % 2 == b
  {
  }

  lemma PageBits(x: int, page: int, low: int)
    requires 0 <= low < 0x1000 && x == 0x1000 * page + low && 0 <= page < 0x100_0000_0000
    ensures x / 0x1000 % 0x100_0000_0000 == page
  {
  }

  lemma EntryBits(x: int, p: int, rw: int, us: int, pwt: int, pcd: int, ps: int, page: int)
    requires 0 <= p <= 1 && 0 <= rw <= 1 && 0 <= us <= 1 && 0 <= pwt <= 1 && 0 <= pcd <= 1 && 0 <= ps <= 1
    requires 0 <= page < 0x100_0000_0000
    requires x == p + 2 * rw + 4 * us + 8 * pwt + 0x10 * pcd + 0x80 * ps + 0x1000 * page
    ensures x % 2 == p && x / 0x2 % 2 == rw && x / 0x4 % 2 == us && x / 0x8 % 2 == pwt
    ensures x / 0x10 % 2 == pcd && x / 0x80 % 2 == ps && x / 0x1000 % 0x100_0000_0000 == page
  {
    var b4 := pcd + 8 * ps + 0x100 * page;
    Bit1(x, rw + 2 * us + 4 * pwt + 8 * b4, p);
    Bit2(x, us + 2 * pwt + 4 * b4, rw, p);
    Bit4(x, pwt + 2 * b4, us, p + 2 * rw);
    Bit8(x, b4, pwt, p + 2 * rw + 4 * us);
    Bit10(x, 4 * ps + 0x80 * page, pcd, x - 16 * b4);
    Bit80(x, 0x10 * page, ps, x - 0x80 * ps - 0x1000 * page);
    PageBits(x, page, x - 0x1000 * page);
  }

  function Num(b: bool): int { if b then 1 else 0 }

  lemma EncodeDecode(e: Entry)
    requires 0 <= e.page < 0x100_0000_0000
    ensures Decode(Encode(e)) == e
  {
    EntryBits(Encode(e), Num(e.p), Num(e.rw), Num(e.us), Num(e.pwt), Num(e.pcd), Num(e.ps), e.page);
  }

  lemma TablePages(t: int, k: int)
    requires 0 <= k < 512
    ensures 0 <= TableEntry(t, k).page < 0x100_0000_0000
  {
  }

  lemma CellDecodes(m: Memory, t: int, k: int, e: Entry)
    requires Cell(m, t, k) == (Encode(e), 0) && 0 <= e.page < 0x100_0000_0000
    ensures TablesIn(m)(t, k) == e
  {
    EncodeDecode(e);
  }

  lemma EntryInMemory(m: Memory, t: int, k: int)
    requires 0 <= k < 512 && Cell(m, t, k) == (Encode(TableEntry(t, k)), 0)
    ensures TablesIn(m)(t, k) == TableEntry(t, k)
  {
    TablePages(t, k);
    CellDecodes(m, t, k, TableEntry(t, k));
  }

  lemma MemoryBuilds(m: Memory)
    requires InMemory(m)
    ensures Built(TablesIn(m))
  {
    forall t, k | IsTablePage(t) && 0 <= k < 512
      ensures TablesIn(m)(t, k) == TableEntry(t, k)
    {
      assert Filled(m, t);
      EntryInMemory(m, t, k);
    }
  }

  /** A canonical address is put together from its parts, with the top bits sign-extended. */
  predicate Joins(v: Linear, va: int) {
    && 0 <= v.i4 < 512 && 0 <= v.i3 < 512 && 0 <= v.i2 < 512 && 0 <= v.i1 < 512 && 0 <= v.off < 0x1000
    && va == v.i4 * 0x80_0000_0000 + v.i3 * 0x4000_0000 + v.i2 * 0x20_0000 + v.i1 * 0x1000 + v.off
             + if v.i4 < 256 then 0 else TWO64 - 0x1_0000_0000_0000
  }

  lemma Quotient2M(q: int, rest: int)
    requires 0 <= rest < 0x20_0000
    ensures (0x20_0000 * q + rest) / 0x20_0000 == q
  {
  }

  lemma Quotient1G(q: int, rest: int)
    requires 0 <= rest < 0x4000_0000
    ensures (0x4000_0000 * q + rest) / 0x4000_0000 == q
  {
  }

  lemma Quotient512G(q: int, rest: int)
    requires 0 <= rest < 0x80_0000_0000
    ensures (0x80_0000_0000 * q + rest) / 0x80_0000_0000 == q
  {
  }

  /** The indices that the walker takes are the successive remainders. */
  lemma SplitParts(va: int, q2: int, i1: int, off: int, q3: int, i2: int, q4: int, i3: int)
    requires va == 0x20_0000 * q2 + 0x1000 * i1 + off && 0 <= i1 < 512 && 0 <= off < 0x1000
    requires q2 == 512 * q3 + i2 && 0 <= i2 < 512 && q3 == 512 * q4 + i3 && 0 <= i3 < 512
    ensures va / 0x20_0000 == q2 && va / 0x4000_0000 == q3 && va / 0x80_0000_0000 == q4
  {
    Quotient2M(q2, 0x1000 * i1 + off);
    Quotient1G(q3, 0x20_0000 * i2 + 0x1000 * i1 + off);
    Quotient512G(q4, 0x4000_0000 * i3 + 0x20_0000 * i2 + 0x1000 * i1 + off);
  }

  /** The top index of a canonical address, whose upper bits are all equal. */
  lemma TopIndex(va: int, q4: int, rest: int)
    requires Canonical(va) && va == 0x80_0000_0000 * q4 + rest && 0 <= rest < 0x80_0000_0000
    ensures var i4 := q4 % 512;
            0 <= i4 < 512 && va == i4 * 0x80_0000_0000 + rest + if i4 < 256 then 0 else TWO64 - 0x1_0000_0000_0000
  {
    assert 0 <= q4 < 256 || 0x1ff_ff00 <= q4 < 0x200_0000;
  }

  lemma SplitJoins(va: int)
    requires Canonical(va)
    ensures Joins(Split(va), va)
  {
    var q1, off := va / 0x1000, va % 0x1000;
    var q2, i1 := q1 / 512, q1 % 512;
    var q3, i2 := q2 / 512, q2 % 512;
    var q4, i3 := q3 / 512, q3 % 512;
    SplitParts(va, q2, i1, off, q3, i2, q4, i3);
    TopIndex(va, q4, 0x4000_0000 * i3 + 0x20_0000 * i2 + 0x1000 * i1 + off);
  }

  // ---------------------------------------------------------------- the walk, table by table

  lemma WalkLow(ts: Tables, va: int, v: Linear)
    requires Built(ts) && Joins(v, va) && v.i4 == 0
    ensures WalkPdpt(ts, 0x201, v, true, true) == AddressMap(va)
  {
    assert ts(0x201, v.i3) == TableEntry(0x201, v.i3);
    assert ts(0x203, v.i2) == TableEntry(0x203, v.i2);
    assert ts(0x205, v.i1) == TableEntry(0x205, v.i1);
    assert ts(0x207, v.i1) == TableEntry(0x207, v.i1);
  }

  lemma WalkUserStacks(ts: Tables, va: int, v: Linear)
    requires Built(ts) && Joins(v, va) && v.i4 == 0xff
    ensures WalkPdpt(ts, 0x300, v, true, true) == AddressMap(va)
  {
    assert ts(0x300, v.i3) == TableEntry(0x300, v.i3);
    assert ts(0x301, v.i2) == TableEntry(0x301, v.i2);
    assert ts(0x302, v.i2) == TableEntry(0x302, v.i2);
    assert ts(0x303, v.i1) == TableEntry(0x303, v.i1);
  }

  lemma WalkKernel(ts: Tables, va: int, v: Linear)
    requires Built(ts) && Joins(v, va) && v.i4 == 0x1ff
    ensures WalkPdpt(ts, 0x202, v, false, true) == AddressMap(va)
  {
    assert ts(0x202, v.i3) == TableEntry(0x202, v.i3);
    assert ts(0x204, v.i2) == TableEntry(0x204, v.i2);
    assert ts(0x206, v.i1) == TableEntry(0x206, v.i1);
    assert ts(0x208, v.i1) == TableEntry(0x208, v.i1);
    assert ts(0x209, v.i2) == TableEntry(0x209, v.i2);
  }

  lemma WalkIsAddressMap(ts: Tables, va: int, v: Linear)
    requires Built(ts) && Joins(v, va)
    ensures Walk(ts, v) == AddressMap(va)
  {
    assert ts(PML4T, v.i4) == TableEntry(PML4T, v.i4);
    if v.i4 == 0 {
      WalkLow(ts, va, v);
    } else if v.i4 == 0xff {
      WalkUserStacks(ts, va, v);
    } else if v.i4 == 0x1ff {
      WalkKernel(ts, va, v);
    }
  }

  /** With the tables in memory the hardware walk is the closed form, for every address. */
  lemma TranslateIsAddressMap(m: Memory, va: int)
    requires InMemory(m)
    ensures Translate(m, va) == if Canonical(va) then AddressMap(va) else PageFault
  {
    if Canonical(va) {
      MemoryBuilds(m);
      SplitJoins(va);
      WalkIsAddressMap(TablesIn(m), va, Split(va));
    }
  }

  lemma TranslateIsAddressMapEverywhere(m: Memory)
    requires InMemory(m)
    ensures forall va :: Translate(m, va) == if Canonical(va) then AddressMap(va) else PageFault
  {
    forall va ensures Translate(m, va) == if Canonical(va) then AddressMap(va) else PageFault {
      TranslateIsAddressMap(m, va);
    }
  }

  // ---------------------------------------------------------------- what the map guarantees

  lemma AddressMapInjective(va1: int, va2: int)
    requires AddressMap(va1).Mapped? && AddressMap(va2).Mapped? && AddressMap(va1).phys == AddressMap(va2).phys
    ensures va1 == va2
  {
  }

  /** No physical byte has two linear addresses, across small and large pages. */
  lemma TranslationInjective(m: Memory, va1: int, va2: int)
    requires InMemory(m)
    ensures var t1, t2 := Translate(m, va1), Translate(m, va2);
            t1.Mapped? && t2.Mapped? && t1.phys == t2.phys ==> va1 == va2
  {
    TranslateIsAddressMap(m, va1);
    TranslateIsAddressMap(m, va2);
    var t1, t2 := Translate(m, va1), Translate(m, va2);
    if t1.Mapped? && t2.Mapped? && t1.phys == t2.phys {
      AddressMapInjective(va1, va2);
    }
  }

  /** Memory that only the kernel may touch: table pages, system data and IST frames, kernel
      stacks, and the local APIC. */
  predicate KernelOnly(phys: int) {
    || 0x200000 <= phys < 0x400000
    || 0x410000 <= phys < 0x414000
    || 0xa00000 <= phys < 0xc00000
    || 0xfee00000 <= phys < 0xff000000
  }

  lemma MapIsolates(va: int)
    ensures var t := AddressMap(va);
            t.Mapped? ==> (!t.user <==> KernelOnly(t.phys)) && (t.user ==> !IsTablePage(t.phys / 0x1000))
  {
  }

  /** A mapped address is out of the user's reach exactly when it leads there. */
  lemma UserIsolation(m: Memory, va: int)
    requires InMemory(m)
    ensures var t := Translate(m, va);
            t.Mapped? ==> (!t.user <==> KernelOnly(t.phys)) && (t.user ==> !IsTablePage(t.phys / 0x1000))
  {
    TranslateIsAddressMap(m, va);
    MapIsolates(va);
  }

  /** The three windows that no memory slot backs: accesses exit to the monitor. */
  predicate DeviceWindow(phys: int) {
    0xb8000 <= phys < 0xba000 || 0x8000000 <= phys < 0x8200000 || 0xfee00000 <= phys < 0xff000000
  }

  /** Exactly one of slot 1, slot 2 and the device windows. */
  predicate BackedOnce(a: int) {
    && (InSlot1(a) || InSlot2(a) || DeviceWindow(a))
    && !(InSlot1(a) && InSlot2(a)) && !(InSlot1(a) && DeviceWindow(a)) && !(InSlot2(a) && DeviceWindow(a))
  }

  /** Every mapped byte has exactly one backing. */
  lemma EveryPageBacked(m: Memory, va: int)
    requires InMemory(m)
    ensures Translate(m, va).Mapped? ==> BackedOnce(Translate(m, va).phys)
  {
    TranslateIsAddressMap(m, va);
  }

  // ---------------------------------------------------------------- the tables dword by dword

  /** What init_paging leaves in the dword at physical address `a` of a table page. */
  function DwordAt(a: int): int {
    if a < 0x205000 then UpperDword(a)
    else if a < 0x206000 then CodeDword(a - 0x205000)
    else if a < 0x300000 then DataDword(a)
    else StackDword(a)
  }

  function UpperDword(a: int): int {
    if a == 0x200000 then 0x201007 else if a == 0x2007f8 then 0x300007 else if a == 0x200ff8 then 0x202003
    else if a == 0x201000 then 0x203007
    else if a == 0x202f00 then 0x204007 else if a == 0x202ff8 then 0x209003
    else if a == 0x203000 then 0x205007 else if a == 0x203008 then 0x200083 else if a == 0x203010 then 0x207003
    else if a == 0x203020 then 0xfee0009b else if a == 0x203200 then 0x8000087
    else if a == 0x204000 then 0x206003 else if a == 0x204400 then 0x208003
    else 0
  }

  /** By byte of the page; the pages 9 to 0x19, 0x20, 0xb8 and 0xb9 are mapped to themselves. */
  function CodeDword(b: int): int {
    if b == 8 then 0x6
    else if b % 8 == 0 && (0x48 <= b <= 0xc8 || b == 0x100 || b == 0x5c0 || b == 0x5c8) then 0x200 * b + 7
    else 0
  }

  function DataDword(a: int): int {
    if a == 0x206000 then 0x410003 else if a == 0x206008 then 0x411003
    else if a == 0x208000 then 0x412003 else if a == 0x208008 then 0x413003
    else if a == 0x209ff8 then 0xa00083
    else 0
  }

  function StackDword(a: int): int {
    if a == 0x300fe0 then 0x301007 else if a == 0x300ff8 then 0x302007
    else if a == 0x301000 then 0x800086
    else if a == 0x302ff8 then 0x303007
    else if a == 0x303000 then 0x414007 else if a == 0x303008 then 0x415007
    else if a == 0x303010 then 0x416007 else if a == 0x303018 then 0x417007
    else 0
  }

  lemma UpperEntry(t: int, k: int)
    requires 0x200 <= t < 0x205 && 0 <= k < 512
    ensures var a := 0x1000 * t + 8 * k; Encode(TableEntry(t, k)) == UpperDword(a) && UpperDword(a + 4) == 0
  {
  }

  lemma CodeEntry(k: int)
    requires 0 <= k < 512
    ensures Encode(TableEntry(0x205, k)) == CodeDword(8 * k) && CodeDword(8 * k + 4) == 0
  {
  }

  lemma DataEntry(t: int, k: int)
    requires 0x206 <= t < 0x20f && 0 <= k < 512
    ensures var a := 0x1000 * t + 8 * k; Encode(TableEntry(t, k)) == DataDword(a) && DataDword(a + 4) == 0
  {
  }

  lemma StackEntry(t: int, k: int)
    requires 0x300 <= t < 0x305 && 0 <= k < 512
    ensures var a := 0x1000 * t + 8 * k; Encode(TableEntry(t, k)) == StackDword(a) && StackDword(a + 4) == 0
  {
  }

  lemma EntryIsDword(t: int, k: int)
    requires IsTablePage(t) && 0 <= k < 512
    ensures var a := 0x1000 * t + 8 * k; Encode(TableEntry(t, k)) == DwordAt(a) && DwordAt(a + 4) == 0
  {
    if t < 0x205 {
      UpperEntry(t, k);
    } else if t == 0x205 {
      CodeEntry(k);
    } else if t < 0x300 {
      DataEntry(t, k);
    } else {
      StackEntry(t, k);
    }
  }

  lemma CellIsDword(m: Memory, t: int, k: int)
    requires IsTablePage(t) && 0 <= k < 512 && Filled(m, t)
    ensures Cell(m, t, k) == (DwordAt(0x1000 * t + 8 * k), 0) && DwordAt(0x1000 * t + 8 * k + 4) == 0
  {
    EntryIsDword(t, k);
  }

  /** From cells to dwords, for any function that gives the contents by address. */
  lemma DwordOfCell(m: Memory, at: int -> int, i: int, t: int, k: int)
    requires i == 0x400 * t + 2 * k || i == 0x400 * t + 2 * k + 1
    requires Cell(m, t, k) == (at(0x1000 * t + 8 * k), 0) && at(0x1000 * t + 8 * k + 4) == 0
    ensures m(i) == at(4 * i)
  {
    if i == 0x400 * t + 2 * k {
      assert 4 * i == 0x1000 * t + 8 * k;
    } else {
      assert 4 * i == 0x1000 * t + 8 * k + 4;
    }
  }

  lemma TableDword(m: Memory, i: int)
    requires InMemory(m) && IsTablePage(i / 0x400)
    ensures m(i) == DwordAt(4 * i)
  {
    var t, k := i / 0x400, i % 0x400 / 2;
    assert Filled(m, t);
    CellIsDword(m, t, k);
    DwordOfCell(m, DwordAt, i, t, k);
  }
}
