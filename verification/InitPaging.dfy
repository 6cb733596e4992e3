/** asm/page64.S: the loops and stores that build the tables in guest memory. */
module InitPaging {
  import opened PageTables

  /** `after` is `before` with the dwords from `lo` up to `hi` cleared. */
  ghost predicate Cleared(after: Memory, before: Memory, lo: int, hi: int) {
    forall i :: after(i) == if lo <= i < hi then 0 else before(i)
  }

  ghost predicate Zeroed(m: Memory, t: int) {
    forall k | 0 <= k < 512 :: Cell(m, t, k) == (0, 0)
  }

  /** No dword outside the pages `ts` differs (a page is 512 cells of two dwords). */
  ghost predicate OnlyPages(after: Memory, before: Memory, ts: set<int>) {
    forall t, k | 0 <= k < 512 && t !in ts :: Cell(after, t, k) == Cell(before, t, k)
  }

  lemma ClearedCells(after: Memory, before: Memory, t0: int, t1: int)
    requires Cleared(after, before, 0x400 * t0, 0x400 * t1)
    ensures forall t, k :: 0 <= k < 512 ==> Cell(after, t, k) == if t0 <= t < t1 then (0, 0) else Cell(before, t, k)
  {
  }

  /** The page table of the first 2 MB while it is being filled upwards. */
  ghost predicate FilledBelow(m: Memory, t: int, limit: int) {
    forall k | 0 <= k < 512 :: Cell(m, t, k) == if k < limit then (Encode(TableEntry(t, k)), 0) else (0, 0)
  }

  const UPPER := {0x200, 0x201, 0x202, 0x203, 0x204}

  /** All that are filled. */
  const FILLED := {0x200, 0x201, 0x202, 0x203, 0x204, 0x205, 0x206, 0x208, 0x209, 0x300, 0x301, 0x302, 0x303}

  function AllTables(): set<int> {
    set t | 0x200 <= t < 0x305 && IsTablePage(t)
  }

  /** Part of the way: the tables `done` are filled, the others still clear, and nothing but
      table pages differs from the memory `m0` that init_paging found. */
  ghost predicate Progress(m: Memory, m0: Memory, done: set<int>) {
    && (forall t | IsTablePage(t) :: if t in done then Filled(m, t) else Zeroed(m, t))
    && OnlyPages(m, m0, AllTables())
  }

  lemma Advance(after: Memory, before: Memory, m0: Memory, done: set<int>, ts: set<int>)
    requires Progress(before, m0, done) && OnlyPages(after, before, ts)
    requires forall t | t in ts :: IsTablePage(t) && Filled(after, t)
    ensures Progress(after, m0, done + ts)
  {
  }

  /** The one table page that is linked but never filled, 0x207, is meant to stay clear. */
  lemma AllFilled(m: Memory, m0: Memory)
    requires Progress(m, m0, FILLED)
    ensures InMemory(m)
  {
    forall t | IsTablePage(t) && t !in FILLED ensures Filled(m, t) {
      assert Zeroed(m, t);
      assert t == 0x207 || 0x20a <= t < 0x20f || t == 0x304;
    }
  }

  /** Dword `i` is in the fifteen pages from 0x200000 or the five from 0x300000. */
  predicate InTables(i: int) {
    0x200000 <= 4 * i < 0x20f000 || 0x300000 <= 4 * i < 0x305000
  }

  /** So the whole memory is known. */
  lemma MemoryAfter(m: Memory, m0: Memory)
    requires InMemory(m) && OnlyPages(m, m0, AllTables())
    ensures forall i :: m(i) == if InTables(i) then DwordAt(4 * i) else m0(i)
  {
    forall i ensures m(i) == if InTables(i) then DwordAt(4 * i) else m0(i) {
      var t, k := i / 0x400, i % 0x400 / 2;
      if InTables(i) {
        TableDword(m, i);
      } else {
        assert Cell(m, t, k) == Cell(m0, t, k);
      }
    }
  }

  /** Guest-physical memory as the boot code sees it. */
  class GuestMemory {
    var dword: Memory

    /** One movl to address 4 * i; every store has to be backed by the host's slot 2. */
    method Movl(i: int, v: int)
      requires InSlot2(4 * i) && InSlot2(4 * i + 3)
      modifies this
      ensures forall x :: dword(x) == if x == i then v else old(dword)(x)
    {
      var m := dword;
      dword := x => if x == i then v else m(x);
    }

    /** One movdqu of a zero register to address 4 * i. */
    method MovdquZero(i: int)
      requires InSlot2(4 * i) && InSlot2(4 * i + 15)
      modifies this
      ensures Cleared(dword, old(dword), i, i + 4)
    {
      var m := dword;
      dword := x => if i <= x < i + 4 then 0 else m(x);
    }

    /** The eight stores of one turn of the loop, from the top of the 128 bytes at 4 * i down. */
    method ClearLine(i: int)
      requires InSlot2(4 * i) && InSlot2(4 * i + 127)
      modifies this
      ensures Cleared(dword, old(dword), i, i + 32)
    {
      MovdquZero(i + 32 - 4);
      MovdquZero(i + 32 - 8);
      MovdquZero(i + 32 - 12);
      MovdquZero(i + 32 - 16);
      MovdquZero(i + 32 - 20);
      MovdquZero(i + 32 - 24);
      MovdquZero(i + 32 - 28);
      MovdquZero(i + 32 - 32);
    }

    /** clear_4K_page for esi == 0x1000 * t. */
    method Clear4KPage(t: int)
      requires InSlot2(0x1000 * t) && InSlot2(0x1000 * t + 0xfff)
      modifies this
      ensures Cleared(dword, old(dword), 0x400 * t, 0x400 * t + 0x400)
    {
      var eax := 4096;
      ghost var lines := 32;
      while true
        invariant 0 < lines <= 32 && eax == 128 * lines
        invariant Cleared(dword, old(dword), 0x400 * t + 32 * lines, 0x400 * t + 0x400)
        decreases eax
      {
        lines := lines - 1;
        eax := eax - 128;
        assert (0x1000 * t + eax) / 4 == 0x400 * t + 32 * lines;
        ClearLine((0x1000 * t + eax) / 4);
        if eax == 0 { break; }
      }
    }

    /** clear_4k_pages for esi == 0x1000 * t. */
    method Clear4KPages(t: int, edi: nat)
      requires InSlot2(0x1000 * t) && InSlot2(0x1000 * (t + edi))
      modifies this
      ensures Cleared(dword, old(dword), 0x400 * t, 0x400 * (t + edi))
    {
      if edi == 0 {
        return;
      }
      var page, left := t, edi;
      while true
        invariant 0 < left <= edi && page == t + (edi - left)
        invariant Cleared(dword, old(dword), 0x400 * t, 0x400 * page)
        decreases left
      {
        Clear4KPage(page);
        page := page + 1;
        left := left - 1;
        if left == 0 { break; }
      }
    }

    /** The low half of entry `k` of the table in page `t`. */
    method StoreLow(t: int, k: int, v: int)
      requires IsTablePage(t) && 0 <= k < 512
      modifies this
      ensures forall t', k' :: 0 <= k' < 512 ==>
                Cell(dword, t', k') ==
                if t' == t && k' == k then (v, Cell(old(dword), t, k).1) else Cell(old(dword), t', k')
    {
      Movl(0x400 * t + 2 * k, v);
    }

    /** The high half. */
    method StoreHigh(t: int, k: int, v: int)
      requires IsTablePage(t) && 0 <= k < 512
      modifies this
      ensures forall t', k' :: 0 <= k' < 512 ==>
                Cell(dword, t', k') ==
                if t' == t && k' == k then (Cell(old(dword), t, k).0, v) else Cell(old(dword), t', k')
    {
      Movl(0x400 * t + 2 * k + 1, v);
    }

    /** The two stores that write a whole entry. */
    method StoreEntry(t: int, k: int, low: int)
      requires IsTablePage(t) && 0 <= k < 512
      modifies this
      ensures forall t', k' :: 0 <= k' < 512 ==>
                Cell(dword, t', k') == if t' == t && k' == k then (low, 0) else Cell(old(dword), t', k')
    {
      StoreLow(t, k, low);
      StoreHigh(t, k, 0);
    }

    // The stores of lines 67-203 in groups of whole tables, each group in source order.

    /** PML4 entries for low memory, kernel and processor stacks. */
    method FillPml4()
      requires Zeroed(dword, 0x200)
      modifies this
      ensures Filled(dword, 0x200)
      ensures OnlyPages(dword, old(dword), {0x200})
    {
      StoreEntry(0x200, 0x0, 0x201000 + RW + US + P);
      StoreEntry(0x200, 0x1ff, 0x202000 + RW + P);
      StoreEntry(0x200, 0xff, 0x300000 + RW + US + P);
    }

    /** Low memory: two page tables and three 2 MB pages. */
    method FillLowPdpt()
      requires Zeroed(dword, 0x201)
      modifies this
      ensures Filled(dword, 0x201) && OnlyPages(dword, old(dword), {0x201})
    {
      StoreEntry(0x201, 0x0, 0x203000 + RW + US + P);
    }

    method FillLowPd()
      requires Zeroed(dword, 0x203)
      modifies this
      ensures Filled(dword, 0x203) && OnlyPages(dword, old(dword), {0x203})
    {
      StoreEntry(0x203, 0x0, 0x205000 + RW + US + P);
      StoreEntry(0x203, 0x1, 0x200000 + PS + RW + P);
      StoreEntry(0x203, 0x2, 0x207000 + RW + P);
      StoreEntry(0x203, 0x40, 0x8000000 + PS + US + RW + P);
      StoreEntry(0x203, 0x4, 0xfee00000 + PCD + PWT + PS + RW + P);
    }

    /** Kernel half: system data and stacks. */
    method FillKernel()
      requires Zeroed(dword, 0x202) && Zeroed(dword, 0x204)
      modifies this
      ensures Filled(dword, 0x202) && Filled(dword, 0x204)
      ensures OnlyPages(dword, old(dword), {0x202, 0x204})
    {
      StoreEntry(0x202, 0x1e0, 0x204000 + RW + US + P);
      StoreEntry(0x204, 0x0, 0x206000 + RW + P);
      StoreEntry(0x204, 0x80, 0x208000 + RW + P);
      StoreEntry(0x202, 0x1ff, 0x209000 + RW + P);
    }

    /** Processor stacks: the upper level. */
    method FillStackPdpt()
      requires Zeroed(dword, 0x300)
      modifies this
      ensures Filled(dword, 0x300) && OnlyPages(dword, old(dword), {0x300})
    {
      StoreEntry(0x300, 0x1fc, 0x301000 + RW + US + P);
      StoreEntry(0x300, 0x1ff, 0x302000 + RW + US + P);
    }

    /** Processor stacks: the next level.  The entry of line 116 names PS twice and never P. */
    method FillStackPds()
      requires Zeroed(dword, 0x301) && Zeroed(dword, 0x302)
      modifies this
      ensures Filled(dword, 0x301) && Filled(dword, 0x302) && OnlyPages(dword, old(dword), {0x301, 0x302})
    {
      StoreEntry(0x301, 0x0, 0x800000 + PS + RW + US);
      StoreEntry(0x302, 0x1ff, 0x303000 + RW + US + P);
    }

    /** The 2 MB page of kernel stacks. */
    method FillKernelStack()
      requires Zeroed(dword, 0x209)
      modifies this
      ensures Filled(dword, 0x209)
      ensures OnlyPages(dword, old(dword), {0x209})
    {
      StoreEntry(0x209, 0x1ff, 0xa00000 + PS + RW + P);
    }

    /** Lines 127-128: the low half of entry 1, without P, and the high half of entry 0. */
    method FillCode1()
      requires FilledBelow(dword, 0x205, 0)
      modifies this
      ensures FilledBelow(dword, 0x205, 9) && OnlyPages(dword, old(dword), {0x205})
    {
      StoreLow(0x205, 1, 0x0 + RW + US);
      StoreHigh(0x205, 0, 0);
    }

    /** One page of code or text buffer, above all that are stored so far. */
    method StoreCode(k: int, low: int)
      requires 9 <= k < 512 && FilledBelow(dword, 0x205, k) && low == Encode(TableEntry(0x205, k))
      modifies this
      ensures FilledBelow(dword, 0x205, k + 1) && OnlyPages(dword, old(dword), {0x205})
    {
      StoreEntry(0x205, k, low);
    }

    /** Lines 130-137. */
    method FillCode9()
      requires FilledBelow(dword, 0x205, 0x9)
      modifies this
      ensures FilledBelow(dword, 0x205, 0xd) && OnlyPages(dword, old(dword), {0x205})
    {
      StoreCode(0x9, 0x9000 + RW + US + P);
      StoreCode(0xa, 0xa000 + RW + US + P);
      StoreCode(0xb, 0xb000 + RW + US + P);
      StoreCode(0xc, 0xc000 + RW + US + P);
    }

    /** Lines 138-147. */
    method FillCodeD()
      requires FilledBelow(dword, 0x205, 0xd)
      modifies this
      ensures FilledBelow(dword, 0x205, 0x12) && OnlyPages(dword, old(dword), {0x205})
    {
      StoreCode(0xd, 0xd000 + RW + US + P);
      StoreCode(0xe, 0xe000 + RW + US + P);
      StoreCode(0xf, 0xf000 + RW + US + P);
      StoreCode(0x10, 0x10000 + RW + US + P);
      StoreCode(0x11, 0x11000 + RW + US + P);
    }

    /** Lines 148-157. */
    method FillCode12()
      requires FilledBelow(dword, 0x205, 0x12)
      modifies this
      ensures FilledBelow(dword, 0x205, 0x17) && OnlyPages(dword, old(dword), {0x205})
    {
      StoreCode(0x12, 0x12000 + RW + US + P);
      StoreCode(0x13, 0x13000 + RW + US + P);
      StoreCode(0x14, 0x14000 + RW + US + P);
      StoreCode(0x15, 0x15000 + RW + US + P);
      StoreCode(0x16, 0x16000 + RW + US + P);
    }

    /** Lines 158-163. */
    method FillCode17()
      requires FilledBelow(dword, 0x205, 0x17)
      modifies this
      ensures FilledBelow(dword, 0x205, 0x1a) && OnlyPages(dword, old(dword), {0x205})
    {
      StoreCode(0x17, 0x17000 + RW + US + P);
      StoreCode(0x18, 0x18000 + RW + US + P);
      StoreCode(0x19, 0x19000 + RW + US + P);
    }

    /** Lines 164-173: the last page of code and the text buffer, with nothing between them. */
    method FillVideo()
      requires FilledBelow(dword, 0x205, 0x1a)
      modifies this
      ensures FilledBelow(dword, 0x205, 0x200) && OnlyPages(dword, old(dword), {0x205})
    {
      assert FilledBelow(dword, 0x205, 0x20);
      StoreCode(0x20, 0x20000 + RW + US + P);
      assert FilledBelow(dword, 0x205, 0xb8);
      StoreCode(0xb8, 0xb8000 + RW + US + P);
      StoreCode(0xb9, 0xb9000 + RW + US + P);
    }

    /** Lines 127-173: the first 2 MB. */
    method FillCode()
      requires Zeroed(dword, 0x205)
      modifies this
      ensures Filled(dword, 0x205) && OnlyPages(dword, old(dword), {0x205})
    {
      FillCode1();
      FillCode9();
      FillCodeD();
      FillCode12();
      FillCode17();
      FillVideo();
    }

    method FillSystemData()
      requires Zeroed(dword, 0x206)
      modifies this
      ensures Filled(dword, 0x206) && OnlyPages(dword, old(dword), {0x206})
    {
      StoreEntry(0x206, 0x0, 0x410000 + RW + P);
      StoreEntry(0x206, 0x1, 0x411000 + RW + P);
    }

    method FillIst()
      requires Zeroed(dword, 0x208)
      modifies this
      ensures Filled(dword, 0x208) && OnlyPages(dword, old(dword), {0x208})
    {
      StoreEntry(0x208, 0x0, 0x412000 + RW + P);
      StoreEntry(0x208, 0x1, 0x413000 + RW + P);
    }

    /** The four user stacks. */
    method FillUserStacks()
      requires Zeroed(dword, 0x303)
      modifies this
      ensures Filled(dword, 0x303)
      ensures OnlyPages(dword, old(dword), {0x303})
    {
      StoreEntry(0x303, 0x0, 0x414000 + RW + US + P);
      StoreEntry(0x303, 0x1, 0x415000 + RW + US + P);
      StoreEntry(0x303, 0x2, 0x416000 + RW + US + P);
      StoreEntry(0x303, 0x3, 0x417000 + RW + US + P);
    }

    method ClearTables()
      modifies this
      ensures Progress(dword, old(dword), {})
    {
      ghost var m0 := dword;
      Clear4KPages(0x200, 15);
      ghost var m1 := dword;
      Clear4KPages(0x201, 3);
      ghost var m2 := dword;
      Clear4KPages(0x300, 5);
      ClearedCells(m1, m0, 0x200, 0x20f);
      ClearedCells(m2, m1, 0x201, 0x204);
      ClearedCells(dword, m2, 0x300, 0x305);
    }

    // The same on top of any tables that are filled already.

    /** Lines 67-108. */
    method BuildUpper(ghost m0: Memory)
      requires Progress(dword, m0, {})
      modifies this
      ensures Progress(dword, m0, UPPER)
    {
      ghost var m := dword;
      FillPml4();
      Advance(dword, m, m0, {}, {0x200});
      m := dword;
      FillLowPdpt();
      Advance(dword, m, m0, {0x200}, {0x201});
      m := dword;
      FillLowPd();
      Advance(dword, m, m0, {0x200, 0x201}, {0x203});
      m := dword;
      FillKernel();
      Advance(dword, m, m0, {0x200, 0x201, 0x203}, {0x202, 0x204});
      assert {0x200, 0x201, 0x203} + {0x202, 0x204} == UPPER;
    }

    /** Lines 110-124. */
    method BuildStacks(ghost m0: Memory, ghost done: set<int>)
      requires Progress(dword, m0, done) && done !! {0x300, 0x301, 0x302, 0x209}
      modifies this
      ensures Progress(dword, m0, done + {0x300} + {0x301, 0x302} + {0x209})
    {
      ghost var m := dword;
      FillStackPdpt();
      Advance(dword, m, m0, done, {0x300});
      m := dword;
      FillStackPds();
      Advance(dword, m, m0, done + {0x300}, {0x301, 0x302});
      m := dword;
      FillKernelStack();
      Advance(dword, m, m0, done + {0x300} + {0x301, 0x302}, {0x209});
    }

    /** Lines 127-173. */
    method BuildCode(ghost m0: Memory, ghost done: set<int>)
      requires Progress(dword, m0, done) && 0x205 !in done
      modifies this
      ensures Progress(dword, m0, done + {0x205})
    {
      ghost var m := dword;
      FillCode();
      Advance(dword, m, m0, done, {0x205});
    }

    /** Lines 178-203. */
    method BuildData(ghost m0: Memory, ghost done: set<int>)
      requires Progress(dword, m0, done) && done !! {0x206, 0x208, 0x303}
      modifies this
      ensures Progress(dword, m0, done + {0x206} + {0x208} + {0x303})
    {
      ghost var m := dword;
      FillSystemData();
      Advance(dword, m, m0, done, {0x206});
      m := dword;
      FillIst();
      Advance(dword, m, m0, done + {0x206}, {0x208});
      m := dword;
      FillUserStacks();
      Advance(dword, m, m0, done + {0x206} + {0x208}, {0x303});
    }

    /** Lines 67-203. */
    method BuildAll(ghost m0: Memory)
      requires Progress(dword, m0, {})
      modifies this
      ensures Progress(dword, m0, FILLED)
    {
      BuildUpper(m0);
      BuildStacks(m0, UPPER);
      ghost var done := UPPER + {0x300} + {0x301, 0x302} + {0x209};
      BuildCode(m0, done);
      BuildData(m0, done + {0x205});
      assert done + {0x205} + {0x206} + {0x208} + {0x303} == FILLED;
    }

    /** The whole of init_paging; only the boot processor (bit 8 of the APIC base) runs it. */
    method InitPaging(apicBase: nat)
      modifies this
      ensures apicBase / 0x100 % 2 == 0 ==> dword == old(dword)
      ensures apicBase / 0x100 % 2 == 1 ==> InMemory(dword)
      ensures apicBase / 0x100 % 2 == 1 ==>
                forall i :: dword(i) == if InTables(i) then DwordAt(4 * i) else old(dword)(i)
      ensures apicBase / 0x100 % 2 == 1 ==>
                forall va :: Translate(dword, va) == if Canonical(va) then AddressMap(va) else PageFault
    {
      if apicBase / 0x100 % 2 == 0 {
        return;
      }
      ghost var m0 := dword;
      ClearTables();
      BuildAll(m0);
      AllFilled(dword, m0);
      MemoryAfter(dword, m0);
      TranslateIsAddressMapEverywhere(dword);
    }
  }
}
