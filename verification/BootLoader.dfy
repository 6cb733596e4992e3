/** The boot loader's disk reads (asm/pre_run.S): sector numbers packed into BIOS registers, and
    the loop that loads the image in chunks. */
module BootLoader {
  import opened Basics
  import Numerals

  // ---------------------------------------------------------------- sector addresses

  /** header_maximum and sector_maximum. */
  datatype Geometry = Geometry(heads: int, sectors: int)

  predicate Sane(g: Geometry) { 1 <= g.heads <= 255 && 1 <= g.sectors <= 63 }

  /** Sectors that a cylinder holds, and that ten cylinder bits reach. */
  function PerCylinder(g: Geometry): int { g.heads * g.sectors }
  function Capacity(g: Geometry): int { 1024 * PerCylinder(g) }

  /** The registers of a BIOS read: low cylinder bits, sector with high cylinder bits, head. */
  datatype Chs = Chs(ch: int, cl: int, dh: int)

  // As the geometry reader takes them apart.
  function Cylinder(r: Chs): int { r.cl / 64 * 256 + r.ch }
  function Sector(r: Chs): int { r.cl % 64 }
  function Head(r: Chs): int { r.dh }

  /** A sector that exists. */
  predicate Addresses(g: Geometry, r: Chs) {
    Cylinder(r) < 1024 && Head(r) < g.heads && 1 <= Sector(r) <= g.sectors
  }

  /** The sector number that the registers stand for. */
  function Lba(g: Geometry, r: Chs): int {
    (Cylinder(r) * g.heads + Head(r)) * g.sectors + Sector(r) - 1
  }

  lemma ProductFits(g: Geometry)
    requires Sane(g)
    ensures 1 <= PerCylinder(g) <= 16065
  {
    MulMono(g.heads, 1, g.sectors);
    MulMono(g.heads, g.sectors, 63);
  }

  lemma MulMono(a: int, x: int, y: int)
    requires 0 <= a && x <= y
    ensures a * x <= a * y
  {
  }

  /** do_lba_to_chs: what the divisions leave in %ebx (cylinder), %eax (head) and %edx (sector),
      when the first one divides by `ecx`. */
  function Registers(g: Geometry, ecx: int, lba: int): Chs
    requires g.sectors > 0 && ecx > 0
  {
    var cylinder, rest := lba / ecx, lba % ecx;
    Chs(cylinder % 0x100, rest % g.sectors + 1 + cylinder % 0x10000 / 4 / 64 % 4 * 64, rest / g.sectors % 0x100)
  }

  /** The 16-bit multiplication leaves the upper half of %eax as it was, and the 32-bit division
      uses all of it. */
  function Divisor(g: Geometry, upper: int): int { upper * 0x10000 + PerCylinder(g) % 0x10000 }

  /** Neither division is by zero. */
  predicate Divides(g: Geometry, upper: int) { Divisor(g, upper) > 0 && g.sectors > 0 }

  /** `None` is the processor's divide error. */
  method DoLbaToChs(g: Geometry, eax0: int, startSector: int) returns (r: Option<Chs>, eax: int)
    requires 0 <= g.heads <= 255 && 0 <= g.sectors <= 63 && 0 <= eax0 && 0 <= startSector
    ensures r.Some? <==> Divides(g, eax0 / 0x10000)
    ensures r.Some? ==> r.value == Registers(g, Divisor(g, eax0 / 0x10000), startSector)
    ensures r.Some? ==> eax == startSector % Divisor(g, eax0 / 0x10000) / g.sectors
  {
    var cx, ax := g.sectors, g.heads;
    eax := eax0 / 0x10000 * 0x10000 + ax * cx % 0x10000;
    var ecx, edx := eax, 0;
    assert ecx == Divisor(g, eax0 / 0x10000) >= 0;
    if ecx == 0 {
      return None, eax;
    }
    eax := startSector;
    eax, edx := eax / ecx, eax % ecx;
    var ebx := eax;
    ecx := g.sectors;
    eax := edx;
    if ecx == 0 {
      return None, eax;
    }
    eax, edx := eax / ecx, eax % ecx;
    edx := edx + 1;
    var cl, ch := edx, ebx % 0x100;
    var bx := ebx % 0x10000 / 4;
    bx := bx / 64 % 4 * 64;
    cl := cl + bx;
    r := Some(Chs(ch, cl, eax % 0x100));
  }

  /** The packing of ten cylinder bits and six sector bits loses nothing. */
  lemma Unpacked(g: Geometry, ecx: int, lba: int)
    requires Sane(g) && ecx > 0 && 0 <= lba && lba / ecx < 1024
    ensures var r := Registers(g, ecx, lba);
            && Cylinder(r) == lba / ecx && Sector(r) == lba % ecx % g.sectors + 1
            && Head(r) == lba % ecx / g.sectors % 0x100
  {
    var cylinder := lba / ecx;
    assert 0 <= cylinder by {
      Numerals.QuotientNonNegative(lba, ecx);
    }
    PackedCylinder(cylinder, lba % ecx % g.sectors + 1);
  }

  lemma PackedCylinder(cylinder: int, sector: int)
    requires 0 <= cylinder < 1024 && 1 <= sector <= 63
    ensures var cl := sector + cylinder % 0x10000 / 4 / 64 % 4 * 64;
            cl / 64 * 256 + cylinder % 0x100 == cylinder && cl % 64 == sector
  {
    var q := cylinder / 256;
    assert cylinder % 0x10000 / 4 / 64 % 4 == q;
  }

  // Mixed-radix arithmetic.

  lemma Join(h: int, s: int, head: int, index: int)
    requires 0 <= head < h && 0 <= index < s
    ensures 0 <= head * s + index < h * s
  {
    MulMono(s, head, h - 1);
    MulMono(s, 0, head);
    assert s * (h - 1) == h * s - s;
  }

  lemma Flatten(h: int, s: int, c: int, head: int)
    ensures (c * h + head) * s == h * s * c + head * s
  {
  }

  lemma QuotientBelow(v: int, d: int, n: int)
    requires 0 <= v < n * d && 0 < d
    ensures 0 <= v / d < n && v == d * (v / d) + v % d && 0 <= v % d < d
  {
    Numerals.QuotientNonNegative(v, d);
    if v / d >= n {
      MulMono(d, n, v / d);
    }
  }

  /** The sector that a set of registers addresses determines its cylinder. */
  lemma CylinderOf(g: Geometry, r: Chs)
    requires Sane(g) && Addresses(g, r) && Cylinder(r) >= 0 && Head(r) >= 0
    ensures PerCylinder(g) > 0 && Lba(g, r) / PerCylinder(g) == Cylinder(r)
  {
    ProductFits(g);
    var p, c, rest := PerCylinder(g), Cylinder(r), Head(r) * g.sectors + (Sector(r) - 1);
    Join(g.heads, g.sectors, Head(r), Sector(r) - 1);
    Flatten(g.heads, g.sectors, c, Head(r));
    MulMono(p, 0, c);
    Numerals.QuotientUnique(p * c + rest, p, c, rest);
  }

  /** A cylinder and a rest, taken apart further, address the sector. */
  lemma PartsAddress(g: Geometry, ecx: int, lba: int)
    requires Sane(g) && ecx > 0 && 0 <= lba && 0 <= lba / ecx < 1024 && 0 <= lba % ecx < PerCylinder(g)
    ensures Addresses(g, Registers(g, ecx, lba))
    ensures Lba(g, Registers(g, ecx, lba)) == PerCylinder(g) * (lba / ecx) + lba % ecx
  {
    var r, c, rest := Registers(g, ecx, lba), lba / ecx, lba % ecx;
    Unpacked(g, ecx, lba);
    SplitRest(g, rest);
    Flatten(g.heads, g.sectors, c, rest / g.sectors);
    assert Lba(g, r) == (c * g.heads + rest / g.sectors) * g.sectors + rest % g.sectors;
  }

  lemma SplitRest(g: Geometry, rest: int)
    requires Sane(g) && 0 <= rest < PerCylinder(g)
    ensures 0 <= rest / g.sectors < g.heads && rest / g.sectors % 0x100 == rest / g.sectors
    ensures 0 <= rest % g.sectors < g.sectors && rest / g.sectors * g.sectors + rest % g.sectors == rest
  {
    QuotientBelow(rest, g.sectors, g.heads);
  }

  /** Dividing by the sectors of a cylinder gives the registers of the sector asked for. */
  lemma RightDivisor(g: Geometry, lba: int)
    requires Sane(g) && 0 <= lba < Capacity(g)
    ensures var p := PerCylinder(g); p > 0 && Addresses(g, Registers(g, p, lba)) && Lba(g, Registers(g, p, lba)) == lba
  {
    ProductFits(g);
    QuotientBelow(lba, PerCylinder(g), 1024);
    PartsAddress(g, PerCylinder(g), lba);
  }

  /** In the first cylinder a larger divisor does as well. */
  lemma FirstCylinder(g: Geometry, ecx: int, lba: int)
    requires Sane(g) && 0 <= lba < PerCylinder(g) <= ecx
    ensures Addresses(g, Registers(g, ecx, lba)) && Lba(g, Registers(g, ecx, lba)) == lba
  {
    assert lba / ecx == 0 && lba % ecx == lba by {
      Numerals.QuotientUnique(lba, ecx, 0, lba);
    }
    PartsAddress(g, ecx, lba);
    assert PerCylinder(g) * 0 == 0;
  }

  lemma BiggerDivisor(v: int, p: int, d: int)
    requires 1 <= p <= 16065 && d >= p + 0x10000 && p <= v < 1024 * p
    ensures 0 <= v / d < v / p < 1024
  {
    QuotientBelow(v, p, 1024);
    var c, q := v / p, v / d;
    Numerals.QuotientNonNegative(v, d);
    assert v == d * q + v % d;
    assert c >= 1;
    assert c * (p + 0x10000) == p * c + 0x10000 * c;
    MulMono(c, p + 0x10000, d);
    if q >= c {
      MulMono(d, c, q);
      assert false;
    }
  }

  /** With anything in the upper half of %eax the cylinder comes out too small. */
  lemma WrongDivisor(g: Geometry, upper: int, lba: int)
    requires Sane(g) && upper > 0 && PerCylinder(g) <= lba < Capacity(g)
    ensures Divisor(g, upper) > 0 && 0 <= lba / Divisor(g, upper) < lba / PerCylinder(g) < 1024
  {
    ProductFits(g);
    BiggerDivisor(lba, PerCylinder(g), Divisor(g, upper));
  }

  lemma Misaddressed(g: Geometry, upper: int, lba: int)
    requires Sane(g) && upper > 0 && PerCylinder(g) <= lba < Capacity(g) && Divisor(g, upper) > 0
    ensures var r := Registers(g, Divisor(g, upper), lba); !(Addresses(g, r) && Lba(g, r) == lba)
  {
    WrongDivisor(g, upper, lba);
    var d := Divisor(g, upper);
    Unpacked(g, d, lba);
    var r := Registers(g, d, lba);
    if Addresses(g, r) && Lba(g, r) == lba {
      CylinderOf(g, r);
      assert false;
    }
  }

  lemma DivisorSize(g: Geometry, upper: int)
    requires Sane(g) && 0 <= upper
    ensures Divisor(g, upper) >= PerCylinder(g) > 0 && (upper == 0 ==> Divisor(g, upper) == PerCylinder(g))
  {
    ProductFits(g);
  }

  /** Main result: the registers address the sector asked for exactly when the upper half of
      %eax was clear on entry, or the sector lies in the first cylinder anyway. */
  lemma ChsExact(g: Geometry, upper: int, lba: int)
    requires Sane(g) && 0 <= upper && 0 <= lba < Capacity(g)
    ensures Divisor(g, upper) > 0
    ensures var r := Registers(g, Divisor(g, upper), lba);
            Addresses(g, r) && Lba(g, r) == lba <==> upper == 0 || lba < PerCylinder(g)
  {
    DivisorSize(g, upper);
    if upper == 0 {
      RightDivisor(g, lba);
    } else if lba < PerCylinder(g) {
      FirstCylinder(g, Divisor(g, upper), lba);
    } else {
      Misaddressed(g, upper, lba);
    }
  }

  // ---------------------------------------------------------------- the drive's geometry

  /** How a BIOS reports the largest cylinder, head and sector numbers of a drive. */
  function Report(cylinders: int, heads: int, sectors: int): Chs {
    Chs((cylinders - 1) % 256, sectors + (cylinders - 1) / 256 * 64, heads - 1)
  }

  /** Rotating %cx by a byte swaps its halves. */
  lemma Rotated(ch: int, bits: int)
    requires 0 <= ch < 256 && 0 <= bits < 4
    ensures var cx := ch * 0x100 + bits; (cx % 0x100 * 0x100 + cx / 0x100) % 0x400 == bits * 256 + ch
  {
    var cx := ch * 0x100 + bits;
    assert cx / 0x100 == ch && cx % 0x100 == bits;
  }

  /** get_driver_parameters after its BIOS call. */
  method GetDriverParameters(r: Chs) returns (headerMaximum: int, sectorMaximum: int, cylinderMaximum: int)
    requires 0 <= r.ch < 256 && 0 <= r.cl < 256 && 0 <= r.dh < 256
    ensures headerMaximum == (r.dh + 1) % 256 && sectorMaximum == Sector(r) && cylinderMaximum == Cylinder(r) + 1
  {
    headerMaximum := (r.dh + 1) % 0x100;
    sectorMaximum := r.cl % 0x40;
    var cx := r.ch * 0x100 + r.cl / 64;
    Rotated(r.ch, r.cl / 64);
    cx := cx % 0x100 * 0x100 + cx / 0x100;
    cx := cx % 0x400;
    cylinderMaximum := cx + 1;
  }

  /** The geometry comes back as reported, except that 256 heads are read as none. */
  lemma GeometryExact(cylinders: int, heads: int, sectors: int)
    requires 1 <= cylinders <= 1024 && 1 <= heads <= 256 && 1 <= sectors <= 63
    ensures var r := Report(cylinders, heads, sectors);
            && 0 <= r.ch < 256 && 0 <= r.cl < 256 && Sector(r) == sectors && Cylinder(r) + 1 == cylinders
            && ((r.dh + 1) % 256 == heads <==> heads <= 255)
  {
    var q := (cylinders - 1) / 256;
    assert (sectors + q * 64) / 64 == q;
  }

  /** What follows: after that misreading, and after no other report, sector numbers are divided
      by zero, unless something is left in the upper half of %eax. */
  lemma DivisionExact(cylinders: int, heads: int, sectors: int, upper: int)
    requires 1 <= cylinders <= 1024 && 1 <= heads <= 256 && 1 <= sectors <= 63 && 0 <= upper
    ensures var r := Report(cylinders, heads, sectors);
            Divides(Geometry((r.dh + 1) % 256, Sector(r)), upper) <==> heads <= 255 || upper > 0
  {
    GeometryExact(cylinders, heads, sectors);
    var g := Geometry(heads % 256, sectors);
    if heads <= 255 {
      DivisorSize(g, upper);
    } else {
      assert PerCylinder(g) == 0;
    }
  }

  // ---------------------------------------------------------------- the load loop

  /** A BIOS read: first sector, number of sectors, physical address. */
  datatype Chunk = Chunk(lba: int, count: int, addr: int)

  /** The sector that is read when a sector is asked for. */
  type Disk = int -> int

  function Wrap16(x: int): int {
    if x < 0 then x + 0x10000 else if x >= 0x10000 then x - 0x10000 else x
  }

  /** The variables of the loop: the two halves of total_sectors (only the low one is ever
      written), start_sector (its high half is zero and never written) and buffer_selector. */
  datatype Load = Load(high: int, low: int, start: int, selector: int, log: seq<Chunk>)

  /** Up to the loop: one sector to 0:0x7e00. */
  function First(disk: Disk, high: int, low: int): Load {
    Load(high, Wrap16(low - 1), 2, 0x800, [Chunk(disk(1), 1, 0x7e00)])
  }

  /** One turn: 32 sectors to the current segment. */
  function Turn(disk: Disk, s: Load): Load {
    Load(s.high, Wrap16(s.low - 0x20), Wrap16(s.start + 0x20), Wrap16(s.selector + 0x400),
         s.log + [Chunk(disk(s.start), 0x20, 16 * s.selector)])
  }

  /** The test for zero is of the low half, the comparison with 0x20 of both. */
  predicate GoesOn(s: Load) {
    s.low != 0 && (s.high > 0 || s.low >= 0x20)
  }

  /** The reads of load_module if it ends within `turns` turns of its loop. */
  function Loop(disk: Disk, s: Load, turns: nat): Option<seq<Chunk>>
    decreases turns
  {
    if turns == 0 then None
    else
      var t := Turn(disk, s);
      if t.low == 0 then Some(t.log)
      else if GoesOn(t) then Loop(disk, t, turns - 1)
      else Some(t.log + [Chunk(disk(t.start), t.low, 16 * t.selector)])
  }

  // What ends up where.
  function Placed(c: Chunk): (r: seq<(int, int)>)
    ensures |r| == if c.count < 0 then 0 else c.count
  {
    seq(if c.count < 0 then 0 else c.count, i => (c.lba + i, c.addr + 512 * i))
  }

  function AllPlaced(log: seq<Chunk>): seq<(int, int)> {
    if log == [] then [] else AllPlaced(log[..|log| - 1]) + Placed(log[|log| - 1])
  }

  /** The image in memory: sector k at 0x7c00 + 512 * k, for k from 1 to n. */
  function Image(n: nat): (r: seq<(int, int)>)
    ensures |r| == n
  {
    seq(n, i => (i + 1, 0x7c00 + 512 * (i + 1)))
  }

  lemma ImageGrows(n: nat, count: nat)
    ensures Image(n) + Placed(Chunk(n + 1, count, 0x7c00 + 512 * (n + 1))) == Image(n + count)
  {
  }

  lemma PlacedLast(log: seq<Chunk>, c: Chunk)
    ensures AllPlaced(log + [c]) == AllPlaced(log) + Placed(c)
  {
    assert (log + [c])[..|log|] == log;
  }

  ghost predicate Faithful(disk: Disk, total: int) {
    forall k | 1 <= k <= total :: disk(k) == k
  }

  /** After `m` turns that went well. */
  ghost predicate OnTrack(s: Load, total: int, m: nat) {
    && s.start == 2 + 32 * m && s.selector == 0x800 + 0x400 * m && m <= 61
    && s.high == 0 && s.low == total - 1 - 32 * m >= 32 && AllPlaced(s.log) == Image(1 + 32 * m)
  }

  lemma TurnOnTrack(disk: Disk, s: Load, total: int, m: nat)
    requires OnTrack(s, total, m) && total <= 1985 && Faithful(disk, total)
    ensures var t := Turn(disk, s);
            && AllPlaced(t.log) == Image(33 + 32 * m) && t.high == 0 && t.low == total - 33 - 32 * m
            && t.start == 34 + 32 * m && (t.low > 0 ==> t.selector == 0xc00 + 0x400 * m)
  {
    PlacedLast(s.log, Chunk(s.start, 32, 16 * s.selector));
    ImageGrows(1 + 32 * m, 32);
  }

  lemma {:induction false} LoopLoads(disk: Disk, s: Load, total: int, m: nat) returns (turns: nat, log: seq<Chunk>)
    requires OnTrack(s, total, m) && total <= 1985 && Faithful(disk, total)
    ensures Loop(disk, s, turns) == Some(log) && AllPlaced(log) == Image(total)
    decreases total - 32 * m
  {
    TurnOnTrack(disk, s, total, m);
    var t := Turn(disk, s);
    if t.low >= 32 {
      turns, log := LoopLoads(disk, t, total, m + 1);
      turns := turns + 1;
    } else {
      turns := 1;
      log := t.log;
      if t.low > 0 {
        log := t.log + [Chunk(t.start, t.low, 16 * t.selector)];
        PlacedLast(t.log, Chunk(t.start, t.low, 16 * t.selector));
        ImageGrows(33 + 32 * m, t.low);
      }
    }
  }

  /** Whatever total is asked for: at least 33 sectors are read, all below 1 MB. */
  ghost predicate Low(log: seq<Chunk>) {
    forall i | 0 <= i < |AllPlaced(log)| :: AllPlaced(log)[i].1 < 0x100000
  }

  /** The selector is a multiple of 0x400, so no chunk crosses 1 MB. */
  ghost predicate Aligned(s: Load) {
    exists m: nat :: m < 64 && s.selector == 0x400 * m
  }

  lemma LowMore(log: seq<Chunk>, c: Chunk)
    requires Low(log) && c.addr <= 0xfc000 && c.count <= 32
    ensures Low(log + [c]) && |AllPlaced(log + [c])| >= |AllPlaced(log)|
    ensures c.count == 32 ==> |AllPlaced(log + [c])| >= 32 + |AllPlaced(log)|
  {
    PlacedLast(log, c);
  }

  lemma {:induction false} LoopLow(disk: Disk, s: Load, turns: nat)
    requires Aligned(s) && Low(s.log) && |AllPlaced(s.log)| >= 1
    ensures var r := Loop(disk, s, turns); r.Some? ==> Low(r.value) && |AllPlaced(r.value)| >= 33
    decreases turns
  {
    if turns > 0 {
      var t := Turn(disk, s);
      LowMore(s.log, Chunk(disk(s.start), 0x20, 16 * s.selector));
      var m: nat :| m < 64 && s.selector == 0x400 * m;
      assert t.selector == 0x400 * (if m == 63 then 0 else m + 1);
      if t.low == 0 {
      } else if t.high > 0 || t.low >= 0x20 {
        LoopLow(disk, t, turns - 1);
      } else {
        LowMore(t.log, Chunk(disk(t.start), t.low, 16 * t.selector));
      }
    }
  }

  /** Ends, and leaves exactly the image in memory, sector by sector. */
  ghost predicate LoadsImage(disk: Disk, high: int, low: int, total: nat) {
    exists turns: nat :: LoadsWithin(disk, high, low, total, turns)
  }

  ghost predicate LoadsWithin(disk: Disk, high: int, low: int, total: nat, turns: nat) {
    var r := Loop(disk, First(disk, high, low), turns);
    r.Some? && AllPlaced(r.value) == Image(total)
  }

  /** Main result: for every 32-bit total, load_module loads the image exactly when the total
      is between 33 and 1985. */
  lemma LoadExact(disk: Disk, high: int, low: int, total: nat)
    requires 0 <= high < 0x10000 && 0 <= low < 0x10000 && total == 0x10000 * high + low && Faithful(disk, total)
    ensures LoadsImage(disk, high, low, total) <==> 33 <= total <= 1985
  {
    var s := First(disk, high, low);
    assert s.log == [] + [Chunk(disk(1), 1, 0x7e00)];
    PlacedLast([], Chunk(disk(1), 1, 0x7e00));
    if 33 <= total <= 1985 {
      assert AllPlaced(s.log) == Image(1);
      var turns, log := LoopLoads(disk, s, total, 0);
      assert LoadsWithin(disk, high, low, total, turns);
    }
    if turns: nat :| LoadsWithin(disk, high, low, total, turns) {
      assert s.selector == 0x400 * 2;
      LoopLow(disk, s, turns);
      var log := Loop(disk, s, turns).value;
      assert AllPlaced(log)[total - 1].1 == 0x7c00 + 512 * total;
    }
  }

  lemma {:induction false} LoopStable(disk: Disk, s: Load, a: nat, b: nat)
    requires Loop(disk, s, a).Some? && Loop(disk, s, b).Some?
    ensures Loop(disk, s, a) == Loop(disk, s, b)
    decreases a
  {
    var t := Turn(disk, s);
    if GoesOn(t) {
      LoopStable(disk, t, a - 1, b - 1);
    }
  }

  /** What a run that ended has loaded. */
  lemma LoadedExact(disk: Disk, high: int, low: int, total: nat, turns: nat)
    requires 0 <= high < 0x10000 && 0 <= low < 0x10000 && total == 0x10000 * high + low && Faithful(disk, total)
    requires Loop(disk, First(disk, high, low), turns).Some?
    ensures AllPlaced(Loop(disk, First(disk, high, low), turns).value) == Image(total) <==> 33 <= total <= 1985
  {
    LoadExact(disk, high, low, total);
    if LoadsImage(disk, high, low, total) {
      var k: nat :| LoadsWithin(disk, high, low, total, k);
      LoopStable(disk, First(disk, high, low), turns, k);
    } else {
      assert !LoadsWithin(disk, high, low, total, turns);
    }
  }

  /** A larger total that is not right for the low half is never counted down to zero ... */
  lemma {:induction false} NeverEnds(disk: Disk, s: Load, turns: nat)
    requires s.high > 0 && 0 <= s.low < 0x10000 && s.low % 0x20 != 0
    ensures Loop(disk, s, turns) == None
    decreases turns
  {
    if turns > 0 {
      NeverEnds(disk, Turn(disk, s), turns - 1);
    }
  }

  /** The low half comes to zero, if it must. */
  predicate Even(s: Load) {
    0 <= s.low < 0x10000 && (s.high > 0 ==> s.low % 0x20 == 0)
  }

  /** How far the low half has to be counted down, once round if it is below a turn. */
  function Countdown(s: Load): int {
    if s.low >= 0x20 then s.low else s.low + 0x10000
  }

  lemma TurnCounts(disk: Disk, s: Load)
    requires Even(s)
    ensures var t := Turn(disk, s); Even(t) && (GoesOn(t) ==> 0 <= Countdown(t) < Countdown(s))
  {
  }

  /** ... and any other total is. */
  lemma {:induction false} Ends(disk: Disk, s: Load) returns (turns: nat)
    requires Even(s)
    ensures Loop(disk, s, turns).Some?
    decreases Countdown(s)
  {
    var t := Turn(disk, s);
    TurnCounts(disk, s);
    turns := 1;
    if GoesOn(t) {
      turns := Ends(disk, t);
      turns := turns + 1;
    }
  }

  /** The loop ends exactly when the total is below 65536 or its low half comes out even after
      the first sector. */
  lemma LoopEndsExact(disk: Disk, high: int, low: int)
    requires 0 <= high < 0x10000 && 0 <= low < 0x10000
    ensures (exists turns: nat :: Loop(disk, First(disk, high, low), turns).Some?) <==> high == 0 || low % 0x20 == 1
  {
    var s := First(disk, high, low);
    assert s.low % 0x20 == 0 <==> low % 0x20 == 1;
    if high == 0 || low % 0x20 == 1 {
      var turns := Ends(disk, s);
    } else {
      forall turns: nat ensures Loop(disk, s, turns) == None {
        NeverEnds(disk, s, turns);
      }
    }
  }

  // ---------------------------------------------------------------- the requests in order

  /** The variables after `n` turns, whether or not the loop goes on that long. */
  function After(disk: Disk, s: Load, n: nat): Load {
    if n == 0 then s else Turn(disk, After(disk, s, n - 1))
  }

  /** The request for what is left after the last full chunk. */
  function Rest(disk: Disk, t: Load): seq<Chunk> {
    if t.low == 0 then [] else [Chunk(disk(t.start), t.low, 16 * t.selector)]
  }

  /** The loop goes on after each of its first `n` turns. */
  ghost predicate Going(disk: Disk, s: Load, n: int) {
    forall k: nat | 1 <= k <= n :: GoesOn(After(disk, s, k))
  }

  lemma GoingOn(disk: Disk, first: Load, n: nat, s: Load)
    requires Going(disk, first, n) && s == After(disk, first, n)
    ensures Turn(disk, s) == After(disk, first, n + 1)
    ensures GoesOn(Turn(disk, s)) ==> Going(disk, first, n + 1)
  {
  }

  /** The checked reads after the first, up to number `n`, go well. */
  ghost predicate AllRead(bios: nat -> int, n: int) {
    forall k: nat | 1 <= k <= n :: bios(k) == 0
  }

  lemma {:induction false} AfterTurn(disk: Disk, s: Load, n: nat)
    ensures After(disk, Turn(disk, s), n) == After(disk, s, n + 1)
  {
    if n > 0 {
      AfterTurn(disk, s, n - 1);
    }
  }

  /** So its last turn and its requests are these. */
  lemma {:induction false} LoopStops(disk: Disk, s: Load, n: nat)
    requires n > 0 && Going(disk, s, n - 1) && !GoesOn(After(disk, s, n))
    ensures var t := After(disk, s, n); Loop(disk, s, n) == Some(t.log + Rest(disk, t))
    decreases n
  {
    AfterTurn(disk, s, 0);
    var t := Turn(disk, s);
    assert t == After(disk, s, 1);
    if n == 1 {
      assert t.log + [] == t.log;
    } else {
      forall k: nat | 1 <= k <= n - 1 ensures After(disk, t, k) == After(disk, s, k + 1) {
        AfterTurn(disk, s, k);
      }
      LoopStops(disk, t, n - 1);
    }
  }

  lemma WrapMod(y: int, d: int)
    requires -0x10000 <= d <= 0x10000
    ensures Wrap16(y % 0x10000 + d) == (y + d) % 0x10000
  {
    var q := y / 0x10000;
    assert y + d == 0x10000 * q + (y % 0x10000 + d);
  }

  /** Request number `k`, counted from 0. */
  function Request(disk: Disk, k: nat): Chunk {
    if k == 0 then Chunk(disk(1), 1, 0x7e00)
    else Chunk(disk((2 + 32 * (k - 1)) % 0x10000), 32, 16 * ((0x800 + 0x400 * (k - 1)) % 0x10000))
  }

  // Counting is modulo 2^16.

  lemma {:induction false} AfterLow(disk: Disk, high: int, low: int, n: nat)
    requires 0 <= low < 0x10000
    ensures var s := After(disk, First(disk, high, low), n); s.high == high && s.low == (low - 1 - 32 * n) % 0x10000
  {
    if n == 0 {
      WrapMod(low, -1);
    } else {
      AfterLow(disk, high, low, n - 1);
      WrapMod(low - 1 - 32 * (n - 1), -0x20);
    }
  }

  lemma {:induction false} AfterStart(disk: Disk, high: int, low: int, n: nat)
    ensures After(disk, First(disk, high, low), n).start == (2 + 32 * n) % 0x10000
  {
    if n > 0 {
      AfterStart(disk, high, low, n - 1);
      WrapMod(2 + 32 * (n - 1), 0x20);
    }
  }

  lemma {:induction false} AfterSelector(disk: Disk, high: int, low: int, n: nat)
    ensures After(disk, First(disk, high, low), n).selector == (0x800 + 0x400 * n) % 0x10000
  {
    if n > 0 {
      AfterSelector(disk, high, low, n - 1);
      WrapMod(0x800 + 0x400 * (n - 1), 0x400);
    }
  }

  /** The requests of the first `n` turns, one by one. */
  lemma {:induction false} RequestsInOrder(disk: Disk, high: int, low: int, n: nat)
    requires 0 <= low < 0x10000
    ensures var s := After(disk, First(disk, high, low), n);
            |s.log| == n + 1 && forall k: nat | k <= n :: s.log[k] == Request(disk, k)
  {
    if n > 0 {
      RequestsInOrder(disk, high, low, n - 1);
      AfterStart(disk, high, low, n - 1);
      AfterSelector(disk, high, low, n - 1);
    }
  }

  /** And the one after them: for what is left, at the next place. */
  lemma RestInPlace(disk: Disk, high: int, low: int, n: nat)
    requires 0 <= low < 0x10000
    ensures var left := (low - 1 - 32 * n) % 0x10000;
            Rest(disk, After(disk, First(disk, high, low), n)) ==
            if left == 0 then []
            else [Chunk(disk((2 + 32 * n) % 0x10000), left, 16 * ((0x800 + 0x400 * n) % 0x10000))]
  {
    AfterLow(disk, high, low, n);
    AfterStart(disk, high, low, n);
    AfterSelector(disk, high, low, n);
  }

  // ---------------------------------------------------------------- the code

  /** `disk` is what read requests deliver when %eax is clear in its upper half. */
  ghost predicate Serves(disk: Disk, g: Geometry) {
    && Sane(g) && PerCylinder(g) > 0
    && forall k {:trigger Registers(g, PerCylinder(g), k)} | 0 <= k ::
         Lba(g, Registers(g, PerCylinder(g), k)) == disk(k)
  }

  /** Such a disk delivers every sector below its capacity. */
  lemma ServesFaithfully(disk: Disk, g: Geometry, total: int)
    requires Serves(disk, g) && total < Capacity(g)
    ensures Faithful(disk, total)
  {
    forall k | 1 <= k <= total ensures disk(k) == k {
      RightDivisor(g, k);
    }
  }

  lemma UpperClear(eax: int)
    requires 0 <= eax < 0x10000
    ensures eax / 0x10000 == 0
  {
  }

  /** The disk address packet and %eax; `log` is what the BIOS is asked to read. */
  class Loader {
    const g: Geometry
    ghost const disk: Disk
    var readSectors: int
    var bufferOffset: int
    var bufferSelector: int
    var startSector: int
    var totalHigh: int
    var totalLow: int
    var eax: int
    var log: seq<Chunk>

    constructor (g: Geometry, totalHigh: int, totalLow: int, ghost disk: Disk)
      requires Serves(disk, g) && 0 <= totalHigh < 0x10000 && 0 <= totalLow < 0x10000
      ensures this.g == g && this.disk == disk && this.totalHigh == totalHigh && this.totalLow == totalLow
      ensures log == [] && Valid()
    {
      this.g, this.disk := g, disk;
      this.totalHigh, this.totalLow := totalHigh, totalLow;
      readSectors, bufferOffset, bufferSelector, startSector, eax, log := 0, 0, 0, 0, 0, [];
    }

    /** The halves stay 16-bit values and %eax stays clear in its upper half. */
    ghost predicate Valid()
      reads this
    {
      Serves(disk, g) && 0 <= eax < 0x10000 && 0 <= startSector < 0x10000 && 0 <= totalLow < 0x10000
    }

    /** The BIOS keeps the upper half of %eax; `status` is what it returns in %ah. */
    method ReadSectorWithChs(status: int) returns (ax: int)
      requires Valid() && 0 <= status < 0x100
      modifies this`eax, this`log
      ensures Valid() && ax == status
      ensures log == old(log) + [Chunk(disk(startSector), readSectors, 16 * bufferSelector + bufferOffset)]
    {
      UpperClear(eax);
      var r, eax' := DoLbaToChs(g, eax, startSector);
      DivisorSize(g, 0);
      SplitRest(g, startSector % PerCylinder(g));
      log := log + [Chunk(Lba(g, r.value), readSectors, 16 * bufferSelector + bufferOffset)];
      ax := status;
      UpperClear(eax');
      eax := eax' / 0x10000 * 0x10000 + ax;
    }

    ghost function State(): Load
      reads this
    {
      Load(totalHigh, totalLow, startSector, bufferSelector, log)
    }

    /** Everything before the loop. */
    method ReadFirst(status: int) returns (ax: int)
      requires Valid() && 0 <= status < 0x100 && log == []
      modifies this
      ensures Valid() && ax == status && totalHigh == old(totalHigh)
      ensures ax == 0 ==> bufferOffset == 0 && State() == First(disk, totalHigh, old(totalLow))
      ensures ax != 0 ==> log == First(disk, totalHigh, old(totalLow)).log
    {
      bufferOffset := 0x7e00;
      bufferSelector := 0;
      readSectors := 1;
      startSector := 1;
      ax := ReadSectorWithChs(status);
      if ax != 0 {
        return;
      }
      startSector := Wrap16(startSector + 1);
      totalLow := Wrap16(totalLow - 1);
      bufferSelector := 0x800;
      bufferOffset := 0;
    }

    /** The body of the loop up to its tests. */
    method ReadTurn(status: int) returns (ax: int)
      requires Valid() && 0 <= status < 0x100 && bufferOffset == 0
      modifies this
      ensures Valid() && ax == status && bufferOffset == 0
      ensures ax == 0 ==> State() == Turn(disk, old(State()))
      ensures ax != 0 ==> State() == old(State()).(log := Turn(disk, old(State())).log)
    {
      readSectors := 0x20;
      ax := ReadSectorWithChs(status);
      if ax != 0 {
        return;
      }
      startSector := Wrap16(startSector + 0x20);
      bufferSelector := Wrap16(bufferSelector + 0x400);
      totalLow := Wrap16(totalLow - 0x20);
    }

    /** What is left after the last full chunk. */
    method ReadTail(status: int)
      requires Valid() && 0 <= status < 0x100 && bufferOffset == 0
      modifies this
      ensures log == old(log) + [Chunk(disk(old(startSector)), old(totalLow), 16 * old(bufferSelector))]
    {
      readSectors := totalLow;
      var ax := ReadSectorWithChs(status);
    }

    /** A whole turn: the read, the tests, and what is left if the loop ends here. */
    method LoopTurn(status: int, lastStatus: int) returns (ax: int, again: bool)
      requires Valid() && 0 <= status < 0x100 && 0 <= lastStatus < 0x100 && bufferOffset == 0
      modifies this
      ensures ax == status && (again ==> ax == 0)
      ensures var t := Turn(disk, old(State()));
              && (ax == 0 ==> (again <==> GoesOn(t)))
              && (again ==> Valid() && bufferOffset == 0 && State() == t)
              && log == if ax == 0 && !again then t.log + Rest(disk, t) else t.log
    {
      ax := ReadTurn(status);
      if ax != 0 {
        return ax, false;
      }
      if totalLow == 0 {
        assert log + [] == log;
        return ax, false;
      }
      if totalHigh > 0 || totalLow >= 0x20 {
        return ax, true;
      }
      ReadTail(lastStatus);
      return ax, false;
    }

    /** The loop; `bios(n)` is the status of the n-th read.  The loop ends by itself, or at a read
        that fails, of which `failing` is one. */
    method ReadChunks(bios: nat -> int, ghost failing: nat) returns (ok: bool, ghost turns: nat)
      requires Valid() && bufferOffset == 0 && forall n :: 0 <= bios(n) < 0x100
      requires Even(State()) || (failing > 0 && bios(failing) != 0)
      modifies this
      ensures turns > 0 && Going(disk, old(State()), turns - 1)
      ensures AllRead(bios, turns - 1) && (ok <==> bios(turns) == 0)
      ensures ok ==> !GoesOn(After(disk, old(State()), turns))
      ensures var t := After(disk, old(State()), turns); log == if ok then t.log + Rest(disk, t) else t.log
    {
      ghost var first, even := State(), Even(State());
      var ax, again, calls: nat := 0, true, 0;
      while again
        invariant again ==> Valid() && bufferOffset == 0 && State() == After(disk, first, calls) && ax == 0
        invariant again ==> Going(disk, first, calls) && AllRead(bios, calls) && (even ==> Even(State()))
        invariant !again ==> calls > 0 && ax == bios(calls) && Going(disk, first, calls - 1) && AllRead(bios, calls - 1)
        invariant !again && ax == 0 ==> !GoesOn(After(disk, first, calls))
        invariant var t := After(disk, first, calls);
                  !again ==> log == if ax == 0 then t.log + Rest(disk, t) else t.log
        decreases again, if even then Countdown(State()) else failing - calls
      {
        GoingOn(disk, first, calls, State());
        if even {
          TurnCounts(disk, State());
        }
        calls := calls + 1;
        ax, again := LoopTurn(bios(calls), bios(calls + 1));
      }
      return ax == 0, calls;
    }

    ghost function Total(): int
      reads this
    {
      0x10000 * totalHigh + totalLow
    }

    /** The first read that fails, of those that are checked, is the last one; if none fails, the
        loop runs to its end.  It has one for exactly these totals (LoopEndsExact); for any other
        some read has to fail. */
    method LoadModule(bios: nat -> int, ghost failing: nat) returns (ok: bool, ghost turns: nat)
      requires Valid() && log == [] && forall n :: 0 <= bios(n) < 0x100
      requires 0 <= totalHigh < 0x10000 && (totalHigh == 0 || totalLow % 0x20 == 1 || bios(failing) != 0)
      modifies this
      ensures (forall n | 0 <= n < turns :: bios(n) == 0) && (ok <==> bios(turns) == 0)
      ensures turns > 0 || !ok
      ensures Going(disk, First(disk, old(totalHigh), old(totalLow)), turns - 1)
      ensures var t := After(disk, First(disk, old(totalHigh), old(totalLow)), turns);
              (ok ==> !GoesOn(t)) && log == if ok then t.log + Rest(disk, t) else t.log
      ensures ok && old(Total()) < Capacity(g) ==>
                (AllPlaced(log) == Image(old(Total())) <==> 33 <= old(Total()) <= 1985)
    {
      var ax := ReadFirst(bios(0));
      if ax != 0 {
        return false, 0;
      }
      ok, turns := ReadChunks(bios, failing);
      if ok && old(Total()) < Capacity(g) {
        ServesFaithfully(disk, g, old(Total()));
        LoopStops(disk, First(disk, old(totalHigh), old(totalLow)), turns);
        LoadedExact(disk, old(totalHigh), old(totalLow), old(Total()), turns);
      }
    }
  }
}
