/** What the CPUID table contains, said without running the builder. */
module CpuidTable {
  import opened Basics
  import opened Cpuid

  /** The leaves that the two loops visit. */
  predicate InRange(cpu: Cpu, f: nat) {
    f <= StandardLimit(cpu) || EXTENDED <= f <= ExtendedLimit(cpu)
  }

  /** The subleaves that belong in the table: up to and including the terminator for 4 and
      0xb, the non-empty ones and number 63 for 0xd, as many as the leaf says for 7 and 0x14,
      and the leaf itself, if not all zero, for any other. */
  ghost predicate Listed(cpu: Cpu, f: nat, j: nat) {
    if f == 0xd then j < 64 && (Sub(cpu, f, j).eax != 0 || j == 63)
    else if Enumerated(f) then forall i: nat | i < j :: !Last(cpu, f, i)
    else if Counted(f) then j <= Leaf(cpu, f).eax
    else j == 0 && Leaf(cpu, f) != ZERO
  }

  predicate Before(f: nat, j: nat, g: nat, k: nat) {
    f < g || (f == g && j < k)
  }

  predicate Increasing(es: seq<Entry>) {
    forall a, b | 0 <= a < b < |es| :: Before(es[a].func, es[a].index, es[b].func, es[b].index)
  }

  /** Every entry is the record of a listed subleaf before subleaf `j` of leaf `f`. */
  ghost predicate Sound(cpu: Cpu, es: seq<Entry>, f: nat, j: nat) {
    forall a | 0 <= a < |es| ::
      && es[a] == Record(cpu, es[a].func, es[a].index)
      && InRange(cpu, es[a].func) && Listed(cpu, es[a].func, es[a].index)
      && Before(es[a].func, es[a].index, f, j)
  }

  /** Every listed subleaf before that one has its record. */
  ghost predicate Complete(cpu: Cpu, es: seq<Entry>, f: nat, j: nat) {
    forall g: nat, i: nat | Before(g, i, f, j) && InRange(cpu, g) && Listed(cpu, g, i) :: Record(cpu, g, i) in es
  }

  ghost predicate Covers(cpu: Cpu, es: seq<Entry>, f: nat, j: nat) {
    Increasing(es) && Sound(cpu, es, f, j) && Complete(cpu, es, f, j)
  }

  /** At least `n` listed subleaves come before subleaf `j` of leaf `f`. */
  ghost predicate Demands(cpu: Cpu, n: nat, f: nat, j: nat) {
    exists es :: |es| == n && Increasing(es) && Sound(cpu, es, f, j)
  }

  lemma DemandsLater(cpu: Cpu, n: nat, f: nat, g: nat)
    requires Demands(cpu, n, f, 0) && f <= g
    ensures Demands(cpu, n, g, 0)
  {
    var es :| |es| == n && Increasing(es) && Sound(cpu, es, f, 0);
    assert Sound(cpu, es, g, 0);
  }

  lemma {:induction false} DistinctCount(xs: seq<Entry>)
    requires forall a, b | 0 <= a < b < |xs| :: xs[a] != xs[b]
    ensures |set e | e in xs| == |xs|
  {
    if xs != [] {
      var last, rest := xs[|xs| - 1], xs[..|xs| - 1];
      DistinctCount(rest);
      assert (set e | e in xs) == (set e | e in rest) + {last};
    }
  }

  lemma {:induction false} ElementCount(es: seq<Entry>)
    ensures |set e | e in es| <= |es|
  {
    if es != [] {
      var last, rest := es[|es| - 1], es[..|es| - 1];
      ElementCount(rest);
      assert (set e | e in es) == (set e | e in rest) + {last};
    }
  }

  /** A distinct sequence is no longer than one that has all its elements. */
  lemma InclusionCount(xs: seq<Entry>, es: seq<Entry>)
    requires forall a, b | 0 <= a < b < |xs| :: xs[a] != xs[b]
    requires forall e | e in xs :: e in es
    ensures |xs| <= |es|
  {
    var small, big := set e | e in xs, set e | e in es;
    DistinctCount(xs);
    ElementCount(es);
    assert small <= big;
    assert |big| == |small| + |big - small| by {
      assert big == small + (big - small);
    }
  }

  /** A covering table bounds the demand. */
  lemma CoverBounds(cpu: Cpu, es: seq<Entry>, n: nat, f: nat, j: nat)
    requires Covers(cpu, es, f, j) && Demands(cpu, n, f, j)
    ensures n <= |es|
  {
    var xs :| |xs| == n && Increasing(xs) && Sound(cpu, xs, f, j);
    InclusionCount(xs, es);
  }

  lemma CoverAdd(cpu: Cpu, es: seq<Entry>, f: nat, j: nat)
    requires Covers(cpu, es, f, j) && InRange(cpu, f) && Listed(cpu, f, j)
    ensures Covers(cpu, es + [Record(cpu, f, j)], f, j + 1)
  {
    var r := es + [Record(cpu, f, j)];
    forall g: nat, i: nat | Before(g, i, f, j + 1) && InRange(cpu, g) && Listed(cpu, g, i)
      ensures Record(cpu, g, i) in r
    {
      if Before(g, i, f, j) {
        assert Record(cpu, g, i) in es;
      } else {
        assert r[|es|] == Record(cpu, g, i);
      }
    }
  }

  lemma CoverSkip(cpu: Cpu, es: seq<Entry>, f: nat, j: nat)
    requires Covers(cpu, es, f, j) && !Listed(cpu, f, j)
    ensures Covers(cpu, es, f, j + 1)
  {
    forall g: nat, i: nat | Before(g, i, f, j + 1) && InRange(cpu, g) && Listed(cpu, g, i)
      ensures Record(cpu, g, i) in es
    {
      assert Before(g, i, f, j);
    }
  }

  lemma CoverNext(cpu: Cpu, es: seq<Entry>, f: nat, j: nat, g: nat)
    requires Covers(cpu, es, f, j) && (f < g || (f == g && j == 0))
    requires forall h: nat, i: nat | !Before(h, i, f, j) && h < g && InRange(cpu, h) :: !Listed(cpu, h, i)
    ensures Covers(cpu, es, g, 0)
  {
  }

  /** One listed subleaf more is one more to be stored. */
  lemma DemandMore(cpu: Cpu, es: seq<Entry>, f: nat, j: nat)
    requires Increasing(es) && Sound(cpu, es, f, j) && InRange(cpu, f) && Listed(cpu, f, j)
    ensures Demands(cpu, |es| + 1, f + 1, 0)
  {
    var r := es + [Record(cpu, f, j)];
    assert Sound(cpu, r, f + 1, 0);
  }

  /** Subleaf `j` is not the last one of its leaf, so another is listed after it. */
  lemma SubleavesOverrun(cpu: Cpu, f: nat, j: nat, r: seq<Entry>)
    requires Enumerated(f) && InRange(cpu, f) && Increasing(r) && Sound(cpu, r, f, j + 1)
    requires f == 0xd ==> j < 63
    requires f != 0xd ==> forall i: nat | i <= j :: !Last(cpu, f, i)
    ensures Demands(cpu, |r| + 1, f + 1, 0)
  {
    if f == 0xd {
      assert Sound(cpu, r, f, 63);
      DemandMore(cpu, r, f, 63);
    } else {
      DemandMore(cpu, r, f, j + 1);
    }
  }

  lemma {:induction false} SubleavesCover(cpu: Cpu, f: nat, j: nat, es: seq<Entry>)
    requires Enumerated(f) && |es| < MAX_ENTRIES && InRange(cpu, f) && Covers(cpu, es, f, j)
    requires f == 0xd ==> j < 64 && Sub(cpu, f, 63).eax == 0
    requires f != 0xd ==> forall i: nat | i < j :: !Last(cpu, f, i)
    ensures Subleaves(cpu, f, j, es).Some? ==> Covers(cpu, Subleaves(cpu, f, j, es).value, f + 1, 0)
    ensures Subleaves(cpu, f, j, es).None? ==> Demands(cpu, MAX_ENTRIES + 1, f + 1, 0)
    decreases MAX_ENTRIES - |es|, if f == 0xd then 64 - j else 0
  {
    var r := es + [Record(cpu, f, j)];
    if f == 0xd && j == 63 {
      CoverAdd(cpu, es, f, j);
      CoverNext(cpu, r, f, 64, f + 1);
      assert Subleaves(cpu, f, 64, es) == Some(r);
    } else if f == 0xd && Sub(cpu, f, j).eax == 0 {
      CoverSkip(cpu, es, f, j);
      SubleavesCover(cpu, f, j + 1, es);
    } else {
      assert Listed(cpu, f, j);
      CoverAdd(cpu, es, f, j);
      if Last(cpu, f, j) {
        CoverNext(cpu, r, f, j + 1, f + 1);
      } else if |r| < MAX_ENTRIES {
        SubleavesCover(cpu, f, j + 1, r);
      } else {
        SubleavesOverrun(cpu, f, j, r);
      }
    }
  }

  lemma {:induction false} CountingCover(cpu: Cpu, f: nat, j: nat, es: seq<Entry>)
    requires Counted(f) && |es| <= MAX_ENTRIES && InRange(cpu, f) && Covers(cpu, es, f, j)
    ensures var r := Counting(cpu, f, j, Leaf(cpu, f).eax, es); r.Some? ==> Covers(cpu, r.value, f + 1, 0)
    ensures Counting(cpu, f, j, Leaf(cpu, f).eax, es).None? ==> Demands(cpu, MAX_ENTRIES + 1, f + 1, 0)
    decreases MAX_ENTRIES - |es|
  {
    if j > Leaf(cpu, f).eax {
      CoverNext(cpu, es, f, j, f + 1);
    } else if |es| < MAX_ENTRIES {
      CoverAdd(cpu, es, f, j);
      CountingCover(cpu, f, j + 1, es + [Record(cpu, f, j)]);
    } else {
      DemandMore(cpu, es, f, j);
    }
  }

  /** The table cannot hold what is listed up to leaf `f`, or is full when leaf `f` claims its
      slot, which it does even if it is all zero. */
  ghost predicate Exhausts(cpu: Cpu, f: nat) {
    Demands(cpu, MAX_ENTRIES + 1, f + 1, 0) || Demands(cpu, MAX_ENTRIES, f, 0)
  }

  lemma ExhaustsLater(cpu: Cpu, f: nat, g: nat)
    requires Exhausts(cpu, f) && f <= g
    ensures Exhausts(cpu, g)
  {
    if Demands(cpu, MAX_ENTRIES, f, 0) {
      DemandsLater(cpu, MAX_ENTRIES, f, g);
    } else {
      DemandsLater(cpu, MAX_ENTRIES + 1, f + 1, g + 1);
    }
  }

  lemma NotExhausted(cpu: Cpu, f: nat, es: seq<Entry>)
    requires |es| <= MAX_ENTRIES && Covers(cpu, es, f, 0)
    requires var r := LeafInto(cpu, f, es); r.Some? && Covers(cpu, r.value, f + 1, 0)
    ensures !Exhausts(cpu, f)
  {
    LeafFits(cpu, f, es);
    if Demands(cpu, MAX_ENTRIES, f, 0) {
      CoverBounds(cpu, es, MAX_ENTRIES, f, 0);
    } else if Demands(cpu, MAX_ENTRIES + 1, f + 1, 0) {
      CoverBounds(cpu, LeafInto(cpu, f, es).value, MAX_ENTRIES + 1, f + 1, 0);
    }
  }

  lemma LeafCover(cpu: Cpu, f: nat, es: seq<Entry>)
    requires |es| <= MAX_ENTRIES && InRange(cpu, f) && Covers(cpu, es, f, 0)
    requires f == 0xd ==> Sub(cpu, f, 63).eax == 0
    ensures var r := LeafInto(cpu, f, es); r.Some? ==> Covers(cpu, r.value, f + 1, 0)
    ensures LeafInto(cpu, f, es).None? ==> Exhausts(cpu, f)
  {
    if |es| < MAX_ENTRIES {
      if Enumerated(f) {
        SubleavesCover(cpu, f, 0, es);
      } else if Counted(f) {
        CoverAdd(cpu, es, f, 0);
        CountingCover(cpu, f, 1, es + [Record(cpu, f, 0)]);
      } else if Leaf(cpu, f) == ZERO {
        CoverNext(cpu, es, f, 0, f + 1);
      } else {
        CoverAdd(cpu, es, f, 0);
        CoverNext(cpu, es + [Record(cpu, f, 0)], f, 1, f + 1);
      }
    }
  }

  lemma LeavesStep(cpu: Cpu, f: nat, limit: nat, es: seq<Entry>, more: seq<Entry>)
    requires |es| <= MAX_ENTRIES && f <= limit && LeafInto(cpu, f, es) == Some(more)
    ensures |more| <= MAX_ENTRIES && Leaves(cpu, f, limit, es) == Leaves(cpu, f + 1, limit, more)
  {
    LeafFits(cpu, f, es);
  }

  /** A leaf exhausts the table, or keeps `covers`; the last one then shows that nothing does. */
  predicate Advances(
      cpu: Cpu, covers: (seq<Entry>, nat) -> bool, exhausts: bool, f: nat, limit: nat, es: seq<Entry>)
    requires |es| <= MAX_ENTRIES
  {
    match LeafInto(cpu, f, es)
    case None => exhausts
    case Some(more) => covers(more, f + 1) && (f == limit ==> !exhausts)
  }

  lemma {:induction false} LeavesAdvance(
      cpu: Cpu, covers: (seq<Entry>, nat) -> bool, exhausts: bool, f: nat, limit: nat, es: seq<Entry>)
    requires |es| <= MAX_ENTRIES && f <= limit && covers(es, f)
    requires forall g, xs {:trigger covers(xs, g)} | f <= g <= limit && |xs| <= MAX_ENTRIES && covers(xs, g) ::
               Advances(cpu, covers, exhausts, g, limit, xs)
    ensures Leaves(cpu, f, limit, es).None? <==> exhausts
    ensures var r := Leaves(cpu, f, limit, es); r.Some? ==> covers(r.value, limit + 1)
    decreases limit - f
  {
    assert Advances(cpu, covers, exhausts, f, limit, es);
    var next := LeafInto(cpu, f, es);
    if next.Some? {
      LeavesStep(cpu, f, limit, es, next.value);
      if f < limit {
        LeavesAdvance(cpu, covers, exhausts, f + 1, limit, next.value);
      }
    }
  }

  lemma LeafAdvances(cpu: Cpu, f: nat, limit: nat, es: seq<Entry>)
    requires |es| <= MAX_ENTRIES && f <= limit && InRange(cpu, f) && Covers(cpu, es, f, 0)
    requires f == 0xd ==> Sub(cpu, f, 63).eax == 0
    ensures Advances(cpu, (xs, g: nat) => Covers(cpu, xs, g, 0), Exhausts(cpu, limit), f, limit, es)
  {
    LeafCover(cpu, f, es);
    if LeafInto(cpu, f, es).None? {
      ExhaustsLater(cpu, f, limit);
    } else if f == limit {
      NotExhausted(cpu, f, es);
    }
  }

  lemma LeavesCover(cpu: Cpu, f: nat, limit: nat, es: seq<Entry>)
    requires |es| <= MAX_ENTRIES && f <= limit && Covers(cpu, es, f, 0)
    requires forall g: nat | f <= g <= limit :: InRange(cpu, g)
    requires f <= 0xd <= limit ==> Sub(cpu, 0xd, 63).eax == 0
    ensures var r := Leaves(cpu, f, limit, es); r.Some? ==> Covers(cpu, r.value, limit + 1, 0)
    ensures Leaves(cpu, f, limit, es).None? <==> Exhausts(cpu, limit)
  {
    var covers: (seq<Entry>, nat) -> bool := (xs, g: nat) => Covers(cpu, xs, g, 0);
    forall g: nat, xs | f <= g <= limit && |xs| <= MAX_ENTRIES && covers(xs, g)
      ensures Advances(cpu, covers, Exhausts(cpu, limit), g, limit, xs)
    {
      LeafAdvances(cpu, g, limit, xs);
    }
    LeavesAdvance(cpu, covers, Exhausts(cpu, limit), f, limit, es);
  }

  /** Extended leaves never meet the special cases, so the first loop would treat them as the
      second one does. */
  lemma {:induction false} ExtendedPlain(cpu: Cpu, f: nat, limit: nat, es: seq<Entry>)
    requires |es| <= MAX_ENTRIES && EXTENDED <= f
    ensures Leaves(cpu, f, limit, es) == PlainLeaves(cpu, f, limit, es)
    decreases limit + 1 - f
  {
    if f <= limit && |es| < MAX_ENTRIES {
      ExtendedPlain(cpu, f + 1, limit, PlainInto(cpu, f, es));
    }
  }

  /** The usual processor: standard leaves below the extended ones, subleaf 63 of 0xd empty. */
  predicate Regular(cpu: Cpu) {
    StandardLimit(cpu) < EXTENDED && (StandardLimit(cpu) >= 0xd ==> Sub(cpu, 0xd, 63).eax == 0)
  }

  function LastLeaf(cpu: Cpu): nat {
    if EXTENDED <= ExtendedLimit(cpu) then ExtendedLimit(cpu) else StandardLimit(cpu)
  }

  lemma TableCovers(cpu: Cpu)
    requires Regular(cpu)
    ensures Table(cpu).Some? ==> Covers(cpu, Table(cpu).value, LastLeaf(cpu) + 1, 0)
    ensures Table(cpu).None? <==> ExtendedLimit(cpu) == U32 - 1 || Exhausts(cpu, LastLeaf(cpu))
  {
    var std, ext := StandardLimit(cpu), ExtendedLimit(cpu);
    assert Covers(cpu, [], 0, 0);
    LeavesCover(cpu, 0, std, []);
    LeavesFit(cpu, 0, std, []);
    if Leaves(cpu, 0, std, []).None? {
      ExhaustsLater(cpu, std, LastLeaf(cpu));
    } else if EXTENDED <= ext {
      var es := Leaves(cpu, 0, std, []).value;
      CoverNext(cpu, es, std + 1, 0, EXTENDED);
      LeavesCover(cpu, EXTENDED, ext, es);
      ExtendedPlain(cpu, EXTENDED, ext, es);
    }
  }

  /** Main result: the table is the increasing enumeration of exactly the listed subleaves, and
      the builder gives up exactly when they do not fit, or fill the table before the last leaf
      is looked at, or the extended leaves go on to the end of the numbers. */
  lemma TableIsListing(cpu: Cpu)
    requires Regular(cpu)
    ensures Table(cpu).Some? ==> Increasing(Table(cpu).value)
    ensures Table(cpu).Some? ==> forall e | e in Table(cpu).value ::
              InRange(cpu, e.func) && Listed(cpu, e.func, e.index) && e == Record(cpu, e.func, e.index)
    ensures Table(cpu).Some? ==> forall f: nat, j: nat | InRange(cpu, f) && Listed(cpu, f, j) ::
              Record(cpu, f, j) in Table(cpu).value
    ensures Table(cpu).None? <==>
            || ExtendedLimit(cpu) == 0xffff_ffff
            || Demands(cpu, 101, LastLeaf(cpu) + 1, 0)
            || Demands(cpu, 100, LastLeaf(cpu), 0)
  {
    TableCovers(cpu);
  }

  // ---------------------------------------------------------------- in the processor's own words

  /** Leaf `f` is asked for. */
  predicate Visited(cpu: Cpu, f: nat) {
    var std := if cpu.available(0) then cpu.leaf(0).eax else cpu.limit0;
    f <= std || 0x8000_0000 <= f <= if cpu.available(0x8000_0000) then cpu.leaf(0x8000_0000).eax else std
  }

  /** What the processor answers for leaf `f`, with and without a subleaf. */
  function Answer(cpu: Cpu, f: nat): Regs {
    if cpu.available(f) then cpu.leaf(f) else Regs(0, 0, 0, 0)
  }

  function SubAnswer(cpu: Cpu, f: nat, j: nat): Regs {
    if cpu.available(f) then cpu.subleaf(f, j) else Regs(0, 0, 0, 0)
  }

  /** An entry that belongs in the table.  Caches (4) go on until the type in eax is 0, levels (0xb)
      until bits 15:8 of ecx are 0, each with that last one; state components (0xd) are those with
      a size in eax and number 63; leaves 7 and 0x14 say how many subleaves they have. */
  ghost predicate Wanted(cpu: Cpu, e: Entry) {
    var f, j := e.func, e.index;
    Visited(cpu, f) &&
    if f == 4 then
      e == Entry(4, j, 1, SubAnswer(cpu, 4, j)) && forall i: nat | i < j :: SubAnswer(cpu, 4, i).eax != 0
    else if f == 0xb then
      e == Entry(0xb, j, 1, SubAnswer(cpu, 0xb, j)) &&
      forall i: nat | i < j :: SubAnswer(cpu, 0xb, i).ecx / 0x100 % 0x100 != 0
    else if f == 0xd then
      e == Entry(0xd, j, 1, SubAnswer(cpu, 0xd, j)) && j <= 63 && (j == 63 || SubAnswer(cpu, 0xd, j).eax != 0)
    else if f == 7 || f == 0x14 then
      && j <= Answer(cpu, f).eax
      && e == Entry(f, j, 1, if j == 0 then Answer(cpu, f) else SubAnswer(cpu, f, j))
    else
      e == Entry(f, 0, 0, Answer(cpu, f)) && Answer(cpu, f) != Regs(0, 0, 0, 0)
  }

  lemma WantedIsListed(cpu: Cpu, e: Entry)
    ensures Wanted(cpu, e) <==>
            InRange(cpu, e.func) && Listed(cpu, e.func, e.index) && e == Record(cpu, e.func, e.index)
  {
    assert Visited(cpu, e.func) <==> InRange(cpu, e.func);
    if e.func == 4 {
      assert forall i: nat :: Last(cpu, 4, i) <==> SubAnswer(cpu, 4, i).eax == 0;
    } else if e.func == 0xb {
      assert forall i: nat :: Last(cpu, 0xb, i) <==> SubAnswer(cpu, 0xb, i).ecx / 0x100 % 0x100 == 0;
    }
  }

  /** So an entry is in the table exactly when it belongs there. */
  lemma TableExact(cpu: Cpu, e: Entry)
    requires Regular(cpu) && Table(cpu).Some?
    ensures e in Table(cpu).value <==> Wanted(cpu, e)
  {
    TableIsListing(cpu);
    WantedIsListed(cpu, e);
  }

  /** For example, a processor with two levels in leaf 0xb: the third answer has a level number in
      its low byte but no type above it. */
  function LevelsExample(): Cpu {
    Cpu(f => f == 0 || f == 0xb,
        f => if f == 0 then Regs(0xb, 0, 0, 0) else Regs(0, 0, 0, 0),
        (f, j) => if f == 0xb then Regs(0, 0, if j == 0 then 0x100 else if j == 1 then 0x201 else 2, 0)
                  else Regs(0, 0, 0, 0),
        0)
  }

  lemma {:induction false} EmptyLeaves(cpu: Cpu, f: nat, g: nat, limit: nat, es: seq<Entry>)
    requires |es| < MAX_ENTRIES && f <= g <= limit + 1
    requires forall h: nat | f <= h < g :: !Enumerated(h) && !Counted(h) && Leaf(cpu, h) == ZERO
    ensures Leaves(cpu, f, limit, es) == Leaves(cpu, g, limit, es)
    decreases g - f
  {
    if f < g {
      EmptyLeaves(cpu, f + 1, g, limit, es);
    }
  }

  /** Leaf 0 and the special leaves before 0xb, when only leaf 0 has something to say. */
  lemma SparseLeaves(cpu: Cpu, limit: nat, e0: seq<Entry>, e4: seq<Entry>, e7: seq<Entry>)
    requires limit >= 0xb && Leaf(cpu, 0) != ZERO && forall f: nat | 0 < f < 0xb :: !cpu.available(f)
    requires e0 == [Record(cpu, 0, 0)] && e4 == e0 + [Record(cpu, 4, 0)] && e7 == e4 + [Record(cpu, 7, 0)]
    ensures Leaves(cpu, 0, limit, []) == Leaves(cpu, 0xb, limit, e7)
  {
    assert [] + [Record(cpu, 0, 0)] == e0;
    LeavesStep(cpu, 0, limit, [], e0);
    EmptyLeaves(cpu, 1, 4, limit, e0);
    LeavesStep(cpu, 4, limit, e0, e4);
    EmptyLeaves(cpu, 5, 7, limit, e4);
    LeavesStep(cpu, 7, limit, e4, e7);
    EmptyLeaves(cpu, 8, 0xb, limit, e7);
  }

  lemma LevelsSubleaves(es: seq<Entry>)
    requires |es| < 90
    ensures var z := (c: u32) => Regs(0, 0, c, 0);
            Subleaves(LevelsExample(), 0xb, 0, es) ==
            Some(es + [Entry(0xb, 0, 1, z(0x100))] + [Entry(0xb, 1, 1, z(0x201))] + [Entry(0xb, 2, 1, z(2))])
  {
    var cpu := LevelsExample();
    var e0 := es + [Record(cpu, 0xb, 0)];
    var e1 := e0 + [Record(cpu, 0xb, 1)];
    assert !Last(cpu, 0xb, 0) && Subleaves(cpu, 0xb, 0, es) == Subleaves(cpu, 0xb, 1, e0);
    assert !Last(cpu, 0xb, 1) && Subleaves(cpu, 0xb, 1, e0) == Subleaves(cpu, 0xb, 2, e1);
    assert Last(cpu, 0xb, 2);
  }

  lemma LevelsTable()
    ensures var z := (c: u32) => Regs(0, 0, c, 0);
            Table(LevelsExample()) ==
            Some([Entry(0, 0, 0, Regs(0xb, 0, 0, 0))] + [Entry(4, 0, 1, z(0))] + [Entry(7, 0, 1, z(0))]
                 + [Entry(0xb, 0, 1, z(0x100))] + [Entry(0xb, 1, 1, z(0x201))] + [Entry(0xb, 2, 1, z(2))])
  {
    var cpu := LevelsExample();
    var e0 := [Record(cpu, 0, 0)];
    var e4 := e0 + [Record(cpu, 4, 0)];
    var e7 := e4 + [Record(cpu, 7, 0)];
    SparseLeaves(cpu, 0xb, e0, e4, e7);
    LevelsSubleaves(e7);
    LeavesStep(cpu, 0xb, 0xb, e7, Subleaves(cpu, 0xb, 0, e7).value);
  }

  // ---------------------------------------------------------------- when subleaf 63 is not empty

  /** A slot that is claimed and never written follows the records of leaf 0xd. */
  predicate EndsBlank(es: seq<Entry>) {
    |es| >= 2 && es[|es| - 1] == BLANK && es[|es| - 2].func == 0xd
  }

  lemma {:induction false} SubleavesEndBlank(cpu: Cpu, j: nat, es: seq<Entry>)
    requires |es| < MAX_ENTRIES && j <= 64 && Sub(cpu, 0xd, 63).eax != 0
    requires j == 64 ==> es != [] && es[|es| - 1].func == 0xd
    ensures var r := Subleaves(cpu, 0xd, j, es); r.Some? ==> EndsBlank(r.value)
    decreases MAX_ENTRIES - |es|, 64 - j
  {
    if j < 64 {
      if Sub(cpu, 0xd, j).eax == 0 {
        SubleavesEndBlank(cpu, j + 1, es);
      } else if |es| + 1 < MAX_ENTRIES {
        SubleavesEndBlank(cpu, j + 1, es + [Record(cpu, 0xd, j)]);
      }
    }
  }

  lemma {:induction false} LeavesSplit(cpu: Cpu, f: nat, mid: nat, limit: nat, es: seq<Entry>)
    requires f <= mid <= limit && |es| <= MAX_ENTRIES
    ensures var r := Leaves(cpu, f, mid, es);
            && (r.Some? ==>
                  |r.value| <= MAX_ENTRIES && Leaves(cpu, f, limit, es) == Leaves(cpu, mid + 1, limit, r.value))
            && (r.None? ==> Leaves(cpu, f, limit, es).None?)
    decreases mid - f
  {
    LeafFits(cpu, f, es);
    var next := LeafInto(cpu, f, es);
    if next.Some? {
      if f < mid {
        LeavesSplit(cpu, f + 1, mid, limit, next.value);
      } else {
        assert Leaves(cpu, f + 1, mid, next.value) == next;
      }
    }
  }

  /** With subleaf 63 of 0xd in use, the table keeps a blank record of function 0 behind the
      records of 0xd, out of order. */
  lemma TableKeepsBlank(cpu: Cpu)
    requires 0xd <= StandardLimit(cpu) && Table(cpu).Some? && Sub(cpu, 0xd, 63).eax != 0
    ensures var t := Table(cpu).value;
            exists k :: 0 < k < |t| && t[k] == BLANK && t[k - 1].func == 0xd
    ensures !Increasing(Table(cpu).value)
  {
    var std := StandardLimit(cpu);
    LeavesSplit(cpu, 0, 0xc, std, []);
    var es := Leaves(cpu, 0, 0xc, []).value;
    LeafFits(cpu, 0xd, es);
    SubleavesEndBlank(cpu, 0, es);
    var r := LeafInto(cpu, 0xd, es).value;
    LeavesFit(cpu, 0xe, std, r);
    var t := Table(cpu).value;
    assert t[|r| - 1] == r[|r| - 1] && t[|r| - 1 - 1] == r[|r| - 2];
  }

  /** A processor on which that happens: leaf 0 and subleaf 63 of leaf 0xd are all it has. */
  function BlankExample(): Cpu {
    Cpu(f => f == 0 || f == 0xd,
        f => if f == 0 then Regs(0xd, 0, 0, 0) else ZERO,
        (f, j) => if f == 0xd && j == 63 then Regs(1, 0, 0, 0) else ZERO,
        0)
  }

  lemma {:induction false} EmptySubleaves(cpu: Cpu, j: nat, k: nat, es: seq<Entry>)
    requires |es| < MAX_ENTRIES && j <= k <= 64 && forall i: nat | j <= i < k :: Sub(cpu, 0xd, i).eax == 0
    ensures Subleaves(cpu, 0xd, j, es) == Subleaves(cpu, 0xd, k, es)
    decreases k - j
  {
    if j < k {
      EmptySubleaves(cpu, j + 1, k, es);
    }
  }

  lemma BlankTable()
    ensures var cpu := BlankExample();
            && Sub(cpu, 0xd, 63).eax != 0
            && Table(cpu) == Some([Record(cpu, 0, 0)] + [Record(cpu, 4, 0)] + [Record(cpu, 7, 0)]
                                  + [Record(cpu, 0xb, 0)] + [Record(cpu, 0xd, 63)] + [BLANK])
  {
    var cpu := BlankExample();
    var e7 := [Record(cpu, 0, 0)] + [Record(cpu, 4, 0)] + [Record(cpu, 7, 0)];
    var eb := e7 + [Record(cpu, 0xb, 0)];
    var ed := eb + [Record(cpu, 0xd, 63)];
    SparseLeaves(cpu, 0xd, [Record(cpu, 0, 0)], [Record(cpu, 0, 0)] + [Record(cpu, 4, 0)], e7);
    LeavesStep(cpu, 0xb, 0xd, e7, eb);
    EmptyLeaves(cpu, 0xc, 0xd, 0xd, eb);
    EmptySubleaves(cpu, 0, 63, eb);
    assert Subleaves(cpu, 0xd, 63, eb) == Subleaves(cpu, 0xd, 64, ed);
    LeavesStep(cpu, 0xd, 0xd, eb, ed + [BLANK]);
  }

  // ---------------------------------------------------------------- leaves that both loops visit

  /** An extended leaf that both loops visit and that has something to say. */
  ghost predicate Repeated(cpu: Cpu, g: nat) {
    EXTENDED <= g <= StandardLimit(cpu) && g <= ExtendedLimit(cpu) && Leaf(cpu, g) != ZERO
  }

  /** Records of leaves from `f` to `limit` that are not all zero, in order. */
  ghost predicate PlainRecords(cpu: Cpu, f: nat, limit: nat, tail: seq<Entry>) {
    && Increasing(tail)
    && (forall a | 0 <= a < |tail| ::
          f <= tail[a].func <= limit && tail[a].index == 0 && Leaf(cpu, tail[a].func) != ZERO)
    && (forall g: nat | f <= g <= limit && Leaf(cpu, g) != ZERO :: Entry(g, 0, 0, Leaf(cpu, g)) in tail)
  }

  lemma PlainRecordsMore(cpu: Cpu, f: nat, limit: nat, tail: seq<Entry>, more: seq<Entry>)
    requires PlainRecords(cpu, f + 1, limit, tail) && f <= limit
    requires more == if Leaf(cpu, f) == ZERO then tail else [Entry(f, 0, 0, Leaf(cpu, f))] + tail
    ensures PlainRecords(cpu, f, limit, more)
  {
    forall g: nat | f <= g <= limit && Leaf(cpu, g) != ZERO ensures Entry(g, 0, 0, Leaf(cpu, g)) in more {
      if g == f {
        assert more[0] == Entry(g, 0, 0, Leaf(cpu, g));
      } else {
        assert Entry(g, 0, 0, Leaf(cpu, g)) in tail;
      }
    }
  }

  /** What the second loop adds. */
  lemma {:induction false} PlainTail(cpu: Cpu, f: nat, limit: nat, es: seq<Entry>) returns (tail: seq<Entry>)
    requires |es| <= MAX_ENTRIES && PlainLeaves(cpu, f, limit, es).Some?
    ensures PlainLeaves(cpu, f, limit, es).value == es + tail && PlainRecords(cpu, f, limit, tail)
    decreases limit + 1 - f
  {
    if f > limit {
      tail := [];
    } else {
      var rest := PlainTail(cpu, f + 1, limit, PlainInto(cpu, f, es));
      tail := if Leaf(cpu, f) == ZERO then rest else [Entry(f, 0, 0, Leaf(cpu, f))] + rest;
      ConcatAssoc(es, [Entry(f, 0, 0, Leaf(cpu, f))], rest);
      PlainRecordsMore(cpu, f, limit, rest, tail);
    }
  }

  /** Two rows of records are in order together when one is before the other. */
  lemma JoinIncreasing(es: seq<Entry>, tail: seq<Entry>)
    requires Increasing(es) && Increasing(tail)
    requires forall a, b | 0 <= a < |es| && 0 <= b < |tail| :: es[a].func < tail[b].func
    ensures Increasing(es + tail)
  {
  }

  lemma RepeatedTwice(es: seq<Entry>, tail: seq<Entry>, e: Entry)
    requires e in es && e in tail
    ensures !Increasing(es + tail)
  {
    var a :| 0 <= a < |es| && es[a] == e;
    var b :| 0 <= b < |tail| && tail[b] == e;
    assert (es + tail)[a] == (es + tail)[|es| + b] == e;
  }

  /** The order of the joined table, when the first loop has covered the standard leaves. */
  lemma JoinExact(cpu: Cpu, es: seq<Entry>, tail: seq<Entry>)
    requires Covers(cpu, es, StandardLimit(cpu) + 1, 0) && PlainRecords(cpu, EXTENDED, ExtendedLimit(cpu), tail)
    ensures Increasing(es + tail) <==> !exists g: nat :: Repeated(cpu, g)
  {
    if exists g: nat :: Repeated(cpu, g) {
      var g: nat :| Repeated(cpu, g);
      assert Listed(cpu, g, 0) && Before(g, 0, StandardLimit(cpu) + 1, 0);
      RepeatedTwice(es, tail, Record(cpu, g, 0));
    } else {
      forall a, b | 0 <= a < |es| && 0 <= b < |tail| ensures es[a].func < tail[b].func {
        assert !Repeated(cpu, tail[b].func);
      }
      JoinIncreasing(es, tail);
    }
  }

  /** So, for every processor, the order holds exactly when that subleaf is empty, if leaf 0xd is
      visited at all, and no leaf with something to say is visited by both loops. */
  lemma OrderExact(cpu: Cpu)
    requires Table(cpu).Some?
    ensures Increasing(Table(cpu).value) <==>
            && (0xd <= StandardLimit(cpu) ==> Sub(cpu, 0xd, 63).eax == 0)
            && !exists g: nat :: Repeated(cpu, g)
  {
    var std := StandardLimit(cpu);
    if 0xd <= std && Sub(cpu, 0xd, 63).eax != 0 {
      TableKeepsBlank(cpu);
    } else {
      assert Covers(cpu, [], 0, 0);
      LeavesCover(cpu, 0, std, []);
      LeavesFit(cpu, 0, std, []);
      var es := Leaves(cpu, 0, std, []).value;
      var tail := PlainTail(cpu, EXTENDED, ExtendedLimit(cpu), es);
      JoinExact(cpu, es, tail);
    }
  }

  // ---------------------------------------------------------------- when the counter starts over

  /** `n` turns of the 32-bit counter through all numbers, as the first loop takes them at the
      limit 2^32 - 1. */
  function Laps(cpu: Cpu, n: nat, es: seq<Entry>): Option<seq<Entry>>
    requires |es| <= MAX_ENTRIES
  {
    if n == 0 then Some(es)
    else
      LeavesFit(cpu, 0, U32 - 1, es);
      match Leaves(cpu, 0, U32 - 1, es)
      case None => None
      case Some(more) => Laps(cpu, n - 1, more)
  }

  lemma LapGrows(cpu: Cpu, es: seq<Entry>)
    requires |es| <= MAX_ENTRIES
    ensures var r := Leaves(cpu, 0, U32 - 1, es); r.Some? ==> |es| < |r.value| <= MAX_ENTRIES
  {
    LeavesFit(cpu, 0, 3, es);
    LeavesSplit(cpu, 0, 3, U32 - 1, es);
    if Leaves(cpu, 0, 3, es).Some? {
      var before := Leaves(cpu, 0, 3, es).value;
      LeafGrows(cpu, 4, before);
      if LeafInto(cpu, 4, before).Some? {
        LeavesFit(cpu, 5, U32 - 1, LeafInto(cpu, 4, before).value);
      }
    }
  }

  /** The first loop cannot go on: every turn costs a slot. */
  lemma {:induction false} LapsRunOut(cpu: Cpu, n: nat, es: seq<Entry>)
    requires |es| <= MAX_ENTRIES < n + |es|
    ensures Laps(cpu, n, es) == None
  {
    LapGrows(cpu, es);
    if Leaves(cpu, 0, U32 - 1, es).Some? {
      LapsRunOut(cpu, n - 1, Leaves(cpu, 0, U32 - 1, es).value);
    }
  }

  /** The second loop at the limit 2^32 - 1 until its counter has started over `n` times more. */
  function PlainLaps(cpu: Cpu, n: nat, es: seq<Entry>): (r: Option<seq<Entry>>)
    requires |es| <= MAX_ENTRIES
    ensures r.Some? ==> |r.value| <= MAX_ENTRIES
  {
    if n == 0 then PlainLeaves(cpu, EXTENDED, U32 - 1, es)
    else
      match PlainLaps(cpu, n - 1, es)
      case None => None
      case Some(more) => PlainLeaves(cpu, 0, U32 - 1, more)
  }

  lemma {:induction false} PlainLapGrows(cpu: Cpu, f: u32, g: nat, es: seq<Entry>)
    requires |es| <= MAX_ENTRIES && g <= f && Leaf(cpu, f) != ZERO
    ensures var r := PlainLeaves(cpu, g, U32 - 1, es); r.Some? ==> |es| < |r.value|
    decreases f - g
  {
    if g < f && |es| < MAX_ENTRIES {
      PlainLapGrows(cpu, f, g + 1, PlainInto(cpu, g, es));
    }
  }

  lemma {:induction false} PlainLapsGrow(cpu: Cpu, f: u32, n: nat, es: seq<Entry>)
    requires |es| <= MAX_ENTRIES && Leaf(cpu, f) != ZERO
    ensures var r := PlainLaps(cpu, n, es); r.Some? ==> n <= |r.value|
  {
    if n > 0 {
      PlainLapsGrow(cpu, f, n - 1, es);
      if PlainLaps(cpu, n - 1, es).Some? {
        PlainLapGrows(cpu, f, 0, PlainLaps(cpu, n - 1, es).value);
      }
    }
  }

  lemma {:induction false} PlainLeavesIdle(cpu: Cpu, f: nat, es: seq<Entry>)
    requires |es| < MAX_ENTRIES && forall g: u32 :: Leaf(cpu, g) == ZERO
    ensures PlainLeaves(cpu, f, U32 - 1, es) == Some(es)
    decreases U32 - f
  {
    if f < U32 {
      PlainLeavesIdle(cpu, f + 1, es);
    }
  }

  lemma {:induction false} PlainLapsIdle(cpu: Cpu, n: nat, es: seq<Entry>)
    requires |es| < MAX_ENTRIES && forall g: u32 :: Leaf(cpu, g) == ZERO
    ensures PlainLaps(cpu, n, es) == Some(es)
  {
    if n > 0 {
      PlainLapsIdle(cpu, n - 1, es);
    }
    PlainLeavesIdle(cpu, if n == 0 then EXTENDED else 0, es);
  }

  /** The second loop runs out of slots at the limit 2^32 - 1 exactly when it starts without one
      or some 32-bit leaf is not all zero; otherwise its counter goes round for ever.  Leaf
      0x80000000 is such a leaf when it reports the limit itself. */
  lemma PlainLapsExact(cpu: Cpu, es: seq<Entry>)
    requires |es| <= MAX_ENTRIES
    ensures (exists n :: PlainLaps(cpu, n, es) == None) <==>
            |es| == MAX_ENTRIES || exists f: u32 :: Leaf(cpu, f) != ZERO
  {
    if |es| == MAX_ENTRIES {
      assert PlainLaps(cpu, 0, es) == None;
    } else if exists f: u32 :: Leaf(cpu, f) != ZERO {
      var f: u32 :| Leaf(cpu, f) != ZERO;
      PlainLapsGrow(cpu, f, MAX_ENTRIES + 1, es);
      assert PlainLaps(cpu, MAX_ENTRIES + 1, es) == None;
    } else {
      forall n ensures PlainLaps(cpu, n, es) == Some(es) {
        PlainLapsIdle(cpu, n, es);
      }
    }
  }
}
