/** vm_init_cpuid: the table of CPUID leaves that the monitor gives its virtual processor. */
module Cpuid {
  import opened Basics

  const MAX_ENTRIES := 100
  const SIGNIFICANT_INDEX := 1
  const EXTENDED := 0x8000_0000

  datatype Regs = Regs(eax: u32, ebx: u32, ecx: u32, edx: u32)

  const ZERO := Regs(0, 0, 0, 0)

  datatype Entry = Entry(func: nat, index: nat, flags: nat, regs: Regs)

  /** A cleared struct kvm_cpuid_entry2. */
  const BLANK := Entry(0, 0, 0, ZERO)

  /** The host processor as the compiler's CPUID wrappers show it.  A wrapper leaves its
      outputs alone when the leaf is not available.  `limit0` is what the uninitialised local
      holds. */
  datatype Cpu = Cpu(available: nat -> bool, leaf: nat -> Regs, subleaf: (nat, nat) -> Regs, limit0: u32)

  /** The two values that `limit` takes. */
  function StandardLimit(cpu: Cpu): u32 {
    if cpu.available(0) then cpu.leaf(0).eax else cpu.limit0
  }

  function ExtendedLimit(cpu: Cpu): u32 {
    if cpu.available(EXTENDED) then cpu.leaf(EXTENDED).eax else StandardLimit(cpu)
  }

  // ---------------------------------------------------------------- what the wrappers deliver

  /** Registers of a leaf as they end up in a slot that was clear. */
  function Leaf(cpu: Cpu, f: nat): Regs {
    if cpu.available(f) then cpu.leaf(f) else ZERO
  }

  function Sub(cpu: Cpu, f: nat, j: nat): Regs {
    if cpu.available(f) then cpu.subleaf(f, j) else ZERO
  }

  predicate Enumerated(f: nat) { f == 4 || f == 0xb || f == 0xd }
  predicate Counted(f: nat) { f == 7 || f == 0x14 }

  /** The record that stands for subleaf `j` of leaf `f`. */
  function Record(cpu: Cpu, f: nat, j: nat): Entry {
    if Enumerated(f) then Entry(f, j, SIGNIFICANT_INDEX, Sub(cpu, f, j))
    else if Counted(f) then Entry(f, j, SIGNIFICANT_INDEX, if j == 0 then Leaf(cpu, f) else Sub(cpu, f, j))
    else Entry(f, j, 0, Leaf(cpu, f))
  }

  /** Whether subleaf `j` ends the enumeration of leaf 4 or 0xb. */
  predicate Last(cpu: Cpu, f: nat, j: nat) {
    || (f == 4 && Sub(cpu, f, j).eax == 0)
    || (f == 0xb && Sub(cpu, f, j).ecx / 0x100 % 0x100 == 0)
  }

  // ---------------------------------------------------------------- the table as a function

  /** Leaf 4, 0xb or 0xd from subleaf `j` on, with a slot claimed after the entries `es`. */
  function Subleaves(cpu: Cpu, f: nat, j: nat, es: seq<Entry>): Option<seq<Entry>>
    requires Enumerated(f) && |es| < MAX_ENTRIES && (f == 0xd ==> j <= 64)
    decreases MAX_ENTRIES - |es|, if f == 0xd then 64 - j else 0
  {
    if f == 0xd && j == 64 then
      Some(es + [if Sub(cpu, f, 63).eax == 0 then Record(cpu, f, 63) else BLANK])
    else if Last(cpu, f, j) then Some(es + [Record(cpu, f, j)])
    else if f == 0xd && Sub(cpu, f, j).eax == 0 then Subleaves(cpu, f, j + 1, es)
    else if |es| + 1 == MAX_ENTRIES then None
    else Subleaves(cpu, f, j + 1, es + [Record(cpu, f, j)])
  }

  /** Leaf 7 or 0x14 from subleaf `j` to subleaf `times`. */
  function Counting(cpu: Cpu, f: nat, j: nat, times: nat, es: seq<Entry>): Option<seq<Entry>>
    requires Counted(f) && |es| <= MAX_ENTRIES
    decreases MAX_ENTRIES - |es|
  {
    if j > times then Some(es)
    else if |es| == MAX_ENTRIES then None
    else Counting(cpu, f, j + 1, times, es + [Record(cpu, f, j)])
  }

  /** Any other leaf, and every extended leaf: one record, or none when it is all zero. */
  function PlainInto(cpu: Cpu, f: nat, es: seq<Entry>): seq<Entry> {
    if Leaf(cpu, f) == ZERO then es else es + [Entry(f, 0, 0, Leaf(cpu, f))]
  }

  function LeafInto(cpu: Cpu, f: nat, es: seq<Entry>): (r: Option<seq<Entry>>)
    requires |es| <= MAX_ENTRIES
  {
    if |es| == MAX_ENTRIES then None
    else if Enumerated(f) then Subleaves(cpu, f, 0, es)
    else if Counted(f) then Counting(cpu, f, 1, Leaf(cpu, f).eax, es + [Record(cpu, f, 0)])
    else Some(PlainInto(cpu, f, es))
  }

  lemma {:induction false} SubleavesFit(cpu: Cpu, f: nat, j: nat, es: seq<Entry>)
    requires Enumerated(f) && |es| < MAX_ENTRIES && (f == 0xd ==> j <= 64)
    ensures var r := Subleaves(cpu, f, j, es); r.Some? ==> |r.value| <= MAX_ENTRIES && es < r.value
    decreases MAX_ENTRIES - |es|, if f == 0xd then 64 - j else 0
  {
    if (f == 0xd && j == 64) || Last(cpu, f, j) {
    } else if f == 0xd && Sub(cpu, f, j).eax == 0 {
      SubleavesFit(cpu, f, j + 1, es);
    } else if |es| + 1 < MAX_ENTRIES {
      SubleavesFit(cpu, f, j + 1, es + [Record(cpu, f, j)]);
    }
  }

  lemma {:induction false} CountingFits(cpu: Cpu, f: nat, j: nat, times: nat, es: seq<Entry>)
    requires Counted(f) && |es| <= MAX_ENTRIES
    ensures var r := Counting(cpu, f, j, times, es); r.Some? ==> |r.value| <= MAX_ENTRIES && es <= r.value
    decreases MAX_ENTRIES - |es|
  {
    if j <= times && |es| < MAX_ENTRIES {
      CountingFits(cpu, f, j + 1, times, es + [Record(cpu, f, j)]);
    }
  }

  lemma LeafFits(cpu: Cpu, f: nat, es: seq<Entry>)
    requires |es| <= MAX_ENTRIES
    ensures var r := LeafInto(cpu, f, es); r.Some? ==> |r.value| <= MAX_ENTRIES && es <= r.value
  {
    if |es| < MAX_ENTRIES {
      if Enumerated(f) {
        SubleavesFit(cpu, f, 0, es);
      } else if Counted(f) {
        CountingFits(cpu, f, 1, Leaf(cpu, f).eax, es + [Record(cpu, f, 0)]);
      }
    }
  }

  /** The leaves from `f` to `limit`. */
  function Leaves(cpu: Cpu, f: nat, limit: nat, es: seq<Entry>): Option<seq<Entry>>
    requires |es| <= MAX_ENTRIES
    decreases limit + 1 - f
  {
    if f > limit then Some(es)
    else
      LeafFits(cpu, f, es);
      match LeafInto(cpu, f, es)
      case None => None
      case Some(more) => Leaves(cpu, f + 1, limit, more)
  }

  lemma {:induction false} LeavesFit(cpu: Cpu, f: nat, limit: nat, es: seq<Entry>)
    requires |es| <= MAX_ENTRIES
    ensures var r := Leaves(cpu, f, limit, es); r.Some? ==> |r.value| <= MAX_ENTRIES && es <= r.value
    decreases limit + 1 - f
  {
    if f <= limit {
      LeafFits(cpu, f, es);
      if LeafInto(cpu, f, es).Some? {
        LeavesFit(cpu, f + 1, limit, LeafInto(cpu, f, es).value);
      }
    }
  }

  /** The leaves of the second loop from `f` to `limit`, which are all plain. */
  function PlainLeaves(cpu: Cpu, f: nat, limit: nat, es: seq<Entry>): (r: Option<seq<Entry>>)
    requires |es| <= MAX_ENTRIES
    ensures r.Some? ==> es <= r.value && |r.value| <= MAX_ENTRIES
    decreases limit + 1 - f
  {
    if f > limit then Some(es)
    else if |es| == MAX_ENTRIES then None
    else PlainLeaves(cpu, f + 1, limit, PlainInto(cpu, f, es))
  }

  /** The first loop.  At the limit 2^32 - 1 its 32-bit counter starts over until no slot is
      left (CpuidTable.LapsRunOut). */
  function StandardLeaves(cpu: Cpu): Option<seq<Entry>> {
    if StandardLimit(cpu) == U32 - 1 then None else Leaves(cpu, 0, StandardLimit(cpu), [])
  }

  /** The whole table; `None` is the early return with -1.  At the limit 2^32 - 1 the second
      loop starts over too (CpuidTable.PlainLapsExact). */
  function Table(cpu: Cpu): Option<seq<Entry>> {
    match StandardLeaves(cpu)
    case None => None
    case Some(es) =>
      LeavesFit(cpu, 0, StandardLimit(cpu), []);
      if ExtendedLimit(cpu) == U32 - 1 then None else PlainLeaves(cpu, EXTENDED, ExtendedLimit(cpu), es)
  }

  // ---------------------------------------------------------------- 32-bit counting

  /** i++ on a 32-bit counter. */
  function Next32(i: u32): u32 {
    if i == U32 - 1 then 0 else i + 1
  }

  /** Increments until the counter is at `f`. */
  function Distance(i: u32, f: u32): nat {
    if i <= f then f - i else f + U32 - i
  }

  /** A leaf that fits never takes slots away, and leaf 4 takes at least one: its terminator
      stays in the table. */
  lemma LeafGrows(cpu: Cpu, f: nat, es: seq<Entry>)
    requires |es| <= MAX_ENTRIES
    ensures var r := LeafInto(cpu, f, es);
            r.Some? ==> |es| <= |r.value| <= MAX_ENTRIES && (f == 4 ==> |es| < |r.value|)
  {
    LeafFits(cpu, f, es);
    if f == 4 && |es| < MAX_ENTRIES {
      SubleavesFit(cpu, f, 0, es);
    }
  }

  // ---------------------------------------------------------------- the builder

  class Builder {
    const entries: array<Entry>
    var cpuidIndex: nat

    constructor ()
      ensures fresh(entries) && entries.Length == MAX_ENTRIES && cpuidIndex == 0
      ensures forall k :: 0 <= k < MAX_ENTRIES ==> entries[k] == BLANK
    {
      entries := new Entry[MAX_ENTRIES](_ => BLANK);
      cpuidIndex := 0;
    }

    /** The slots from `n` on are clear, except that a leaf rolled back from slot `n` may have
        left its number there. */
    ghost predicate CleanFrom(n: nat)
      reads entries
      requires entries.Length == MAX_ENTRIES
    {
      forall k :: n <= k < MAX_ENTRIES ==>
        && (k > n ==> entries[k] == BLANK)
        && entries[k].index == 0 && entries[k].flags == 0 && entries[k].regs == ZERO
    }

    ghost predicate Valid()
      reads this, entries
    {
      entries.Length == MAX_ENTRIES && cpuidIndex <= MAX_ENTRIES && CleanFrom(cpuidIndex)
    }

    ghost function Contents(): seq<Entry>
      reads this, entries
      requires Valid()
    {
      entries[..cpuidIndex]
    }

    /** The output of a wrapper: slot `c` with the registers it delivers, if it delivers any. */
    ghost function Delivered(slots: seq<Entry>, c: nat, delivers: bool, r: Regs): seq<Entry>
      requires c < |slots|
    {
      if delivers then slots[c := slots[c].(regs := r)] else slots
    }

    /** __get_cpuid into slot `c`. */
    method GetCpuid(cpu: Cpu, f: nat, c: nat)
      requires c < entries.Length
      modifies entries
      ensures entries[..] == Delivered(old(entries[..]), c, cpu.available(f), cpu.leaf(f))
    {
      if cpu.available(f) {
        entries[c] := entries[c].(regs := cpu.leaf(f));
      }
    }

    method GetCpuidCount(cpu: Cpu, f: nat, j: nat, c: nat)
      requires c < entries.Length
      modifies entries
      ensures entries[..] == Delivered(old(entries[..]), c, cpu.available(f), cpu.subleaf(f, j))
    {
      if cpu.available(f) {
        entries[c] := entries[c].(regs := cpu.subleaf(f, j));
      }
    }

    /** The stores into slot `c` that record subleaf `j` of an enumerated leaf. */
    method FillEnumerated(cpu: Cpu, i: nat, j: nat, c: nat)
      requires c < entries.Length && Enumerated(i) && (!cpu.available(i) ==> entries[c].regs == ZERO)
      modifies entries
      ensures entries[c] == Record(cpu, i, j) && entries[..c + 1] == old(entries[..c]) + [Record(cpu, i, j)]
      ensures forall k :: c < k < entries.Length ==> entries[k] == old(entries[k])
    {
      entries[c] := entries[c].(func := i, flags := SIGNIFICANT_INDEX, index := j);
      GetCpuidCount(cpu, i, j, c);
      assert entries[c] == entries[..][c];
    }

    /** The same for a counted leaf; subleaf 0 is asked for without an index. */
    method FillCounted(cpu: Cpu, i: nat, j: nat, c: nat)
      requires c < entries.Length && Counted(i) && entries[c].regs == ZERO
      modifies entries
      ensures entries[c] == Record(cpu, i, j) && entries[..c + 1] == old(entries[..c]) + [Record(cpu, i, j)]
      ensures forall k :: c < k < entries.Length ==> entries[k] == old(entries[k])
    {
      entries[c] := entries[c].(func := i, index := j, flags := SIGNIFICANT_INDEX);
      if j == 0 {
        GetCpuid(cpu, i, c);
      } else {
        GetCpuidCount(cpu, i, j, c);
      }
      assert entries[c] == entries[..][c];
    }

    /** The case of leaves 4, 0xb and 0xd. */
    method Enumerate(cpu: Cpu, i: nat) returns (ok: bool)
      requires Valid() && cpuidIndex < MAX_ENTRIES && Enumerated(i)
      modifies this, entries
      ensures ok ==> Valid() && Subleaves(cpu, i, 0, old(Contents())) == Some(Contents())
      ensures !ok ==> Subleaves(cpu, i, 0, old(Contents())) == None
    {
      ghost var es := Contents();
      var c := cpuidIndex;
      cpuidIndex := cpuidIndex + 1;
      var j := 0;
      while true
        invariant cpuidIndex <= MAX_ENTRIES && c == cpuidIndex - 1 == |es| && (i == 0xd ==> j <= 64)
        invariant entries[..c] == es && forall k :: c < k < MAX_ENTRIES ==> entries[k] == BLANK
        invariant Subleaves(cpu, i, 0, old(Contents())) == Subleaves(cpu, i, j, es)
        invariant !cpu.available(i) ==> entries[c].regs == ZERO
        invariant i == 0xd && j > 0 ==>
                    entries[c] == if Sub(cpu, i, j - 1).eax == 0 then Record(cpu, i, j - 1) else BLANK
        decreases MAX_ENTRIES - |es|, if i == 0xd then 64 - j else 0
      {
        if i == 0xd && j == 64 {
          assert entries[..cpuidIndex] == es + [entries[c]];
          return true;
        }
        FillEnumerated(cpu, i, j, c);
        if i == 4 && entries[c].regs.eax == 0 {
          return true;
        }
        if i == 0xb && entries[c].regs.ecx / 0x100 % 0x100 == 0 {
          return true;
        }
        if i == 0xd && entries[c].regs.eax == 0 {
          j := j + 1;
          continue;
        }
        if cpuidIndex == MAX_ENTRIES {
          return false;
        }
        es := es + [Record(cpu, i, j)];
        c := cpuidIndex;
        cpuidIndex := cpuidIndex + 1;
        j := j + 1;
      }
    }

    /** The case of leaves 7 and 0x14. */
    method Count(cpu: Cpu, i: nat) returns (ok: bool)
      requires Valid() && cpuidIndex < MAX_ENTRIES && Counted(i)
      modifies this, entries
      ensures ok ==> Valid() && LeafInto(cpu, i, old(Contents())) == Some(Contents())
      ensures !ok ==> LeafInto(cpu, i, old(Contents())) == None
    {
      ghost var es := Contents();
      var c := cpuidIndex;
      cpuidIndex := cpuidIndex + 1;
      FillCounted(cpu, i, 0, c);
      es := es + [Record(cpu, i, 0)];
      var times := entries[c].regs.eax;
      var j: nat := 1;
      while j <= times
        invariant cpuidIndex == |es| <= MAX_ENTRIES && entries[..cpuidIndex] == es
        invariant forall k :: cpuidIndex <= k < MAX_ENTRIES ==> entries[k] == BLANK
        invariant LeafInto(cpu, i, old(Contents())) == Counting(cpu, i, j, times, es)
        decreases MAX_ENTRIES - |es|
      {
        if cpuidIndex == MAX_ENTRIES {
          return false;
        }
        c := cpuidIndex;
        cpuidIndex := cpuidIndex + 1;
        FillCounted(cpu, i, j, c);
        es := es + [Record(cpu, i, j)];
        j := j + 1;
      }
      return true;
    }

    /** The default case, and every extended leaf: an all-zero leaf gives its slot back. */
    method Plain(cpu: Cpu, i: nat)
      requires Valid() && cpuidIndex < MAX_ENTRIES
      modifies this, entries
      ensures Valid() && Contents() == PlainInto(cpu, i, old(Contents()))
    {
      ghost var es := Contents();
      var c := cpuidIndex;
      cpuidIndex := cpuidIndex + 1;
      entries[c] := entries[c].(func := i, flags := 0);
      GetCpuid(cpu, i, c);
      assert entries[c] == entries[..][c] == Entry(i, 0, 0, Leaf(cpu, i));
      if entries[c].regs == ZERO {
        cpuidIndex := cpuidIndex - 1;
        assert entries[..cpuidIndex] == es;
      } else {
        assert entries[..cpuidIndex] == es + [Entry(i, 0, 0, Leaf(cpu, i))];
      }
    }

    /** One turn of the first loop. */
    method AddLeaf(cpu: Cpu, i: nat) returns (ok: bool)
      requires Valid()
      modifies this, entries
      ensures ok ==> Valid() && LeafInto(cpu, i, old(Contents())) == Some(Contents())
      ensures !ok ==> LeafInto(cpu, i, old(Contents())) == None
    {
      if cpuidIndex == MAX_ENTRIES {
        return false;
      }
      if Enumerated(i) {
        ok := Enumerate(cpu, i);
      } else if Counted(i) {
        ok := Count(cpu, i);
      } else {
        Plain(cpu, i);
        ok := true;
      }
    }

    /** The first loop, for any limit: either a turn takes a slot, or leaf 4 comes nearer, and
        leaf 4 always takes one. */
    method AddStandardLeaves(cpu: Cpu, limit: u32) returns (ok: bool)
      requires Valid()
      modifies this, entries
      ensures ok ==> Valid() && limit < U32 - 1 && Leaves(cpu, 0, limit, old(Contents())) == Some(Contents())
      ensures !ok && limit < U32 - 1 ==> Leaves(cpu, 0, limit, old(Contents())) == None
    {
      var i: u32 := 0;
      while i <= limit
        invariant Valid()
        invariant limit < U32 - 1 ==> Leaves(cpu, 0, limit, old(Contents())) == Leaves(cpu, i, limit, Contents())
        decreases MAX_ENTRIES - cpuidIndex, Distance(i, 4)
      {
        LeafGrows(cpu, i, Contents());
        ok := AddLeaf(cpu, i);
        if !ok {
          return;
        }
        i := Next32(i);
      }
      return true;
    }

    /** The second loop, where every leaf is plain, also after its counter has started over.  At
        the limit 2^32 - 1 it ends only if it starts without a free slot or meets a leaf that
        takes one. */
    method AddExtendedLeaves(cpu: Cpu, limit: u32, ghost f: u32) returns (ok: bool)
      requires Valid() && (limit == U32 - 1 ==> cpuidIndex == MAX_ENTRIES || Leaf(cpu, f) != ZERO)
      modifies this, entries
      ensures ok ==>
                Valid() && limit < U32 - 1 && PlainLeaves(cpu, EXTENDED, limit, old(Contents())) == Some(Contents())
      ensures !ok && limit < U32 - 1 ==> PlainLeaves(cpu, EXTENDED, limit, old(Contents())) == None
    {
      var i: u32 := EXTENDED;
      while i <= limit
        invariant Valid() && (limit == U32 - 1 ==> cpuidIndex == MAX_ENTRIES || Leaf(cpu, f) != ZERO)
        invariant limit < U32 - 1 ==> EXTENDED <= i
        invariant limit < U32 - 1 ==>
                    PlainLeaves(cpu, EXTENDED, limit, old(Contents())) == PlainLeaves(cpu, i, limit, Contents())
        decreases MAX_ENTRIES - cpuidIndex, if limit < U32 - 1 then limit + 1 - i else Distance(i, f)
      {
        if cpuidIndex == MAX_ENTRIES {
          return false;
        }
        Plain(cpu, i);
        i := Next32(i);
      }
      return true;
    }
  }

  /** vm_init_cpuid up to its ioctl: `ok` is false for the return with -1. */
  method VmInitCpuid(cpu: Cpu) returns (ok: bool, table: seq<Entry>)
    ensures Table(cpu) == if ok then Some(table) else None
    ensures ok ==> |table| <= 100
  {
    var b := new Builder();
    assert b.entries[..0] == [];
    var limit := if cpu.available(0) then cpu.leaf(0).eax else cpu.limit0;
    ok := b.AddStandardLeaves(cpu, limit);
    if !ok {
      return false, [];
    }
    if cpu.available(EXTENDED) {
      limit := cpu.leaf(EXTENDED).eax;
    }
    ok := b.AddExtendedLeaves(cpu, limit, EXTENDED);
    if !ok {
      return false, [];
    }
    table := b.entries[..b.cpuidIndex];
  }
}
