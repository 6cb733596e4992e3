/** The text console across guest and host: asm/libs64.S moves a cursor over the text buffer,
    each store leaves the guest, and the exit loop of vm.c prints. */
module Console {
  import opened Basics
  import opened TextLayout
  import opened Numerals
  import PageTables

  datatype Exit = Video | TestPage | Fatal

  /** Remainder by the 160 bytes of a row, by repeated subtraction. */
  function Column(x: nat): (c: nat)
    ensures c < 160
  {
    if x < 160 then x else Column(x - 160)
  }

  lemma {:induction false} ColumnIsRemainder(x: nat)
    ensures Column(x) == x % 160
  {
    if x >= 160 {
      ColumnIsRemainder(x - 160);
    }
  }

  /** What the host prints for a character stored at physical address `a`. */
  function Shown(a: int, c: Byte): Bytes
    requires a >= 0xb8000
  {
    if Column(a - 0xb8000) == 0 then [NEWLINE, c] else [c]
  }

  /** The monitor's side; `transcript` is what its video branch prints. */
  class Host {
    var transcript: Bytes

    constructor ()
      ensures transcript == []
    {
      transcript := [];
    }

    /** case KVM_EXIT_MMIO.  The messages of the other two branches are not part of the video
        transcript. */
    method MmioExit(physAddr: int, data0: Byte) returns (e: Exit)
      modifies this
      ensures e == Video <==> 0xb8000 <= physAddr <= 0xba000
      ensures e == TestPage <==> physAddr == 0x8000000
      ensures transcript == if e == Video then old(transcript) + Shown(physAddr, data0) else old(transcript)
    {
      if 0xb8000 <= physAddr <= 0xba000 {
        ColumnIsRemainder(physAddr - 0xb8000);
        if (physAddr - 0xb8000) % (2 * 80) == 0 {
          transcript := transcript + [NEWLINE];
        }
        transcript := transcript + [data0];
        return Video;
      } else if physAddr == 0x8000000 {
        return TestPage;
      } else {
        return Fatal;
      }
    }
  }

  /** Number of the cell that the next character takes. */
  function Position(rows: seq<Bytes>): nat
    requires rows != []
  {
    80 * (|rows| - 1) + |rows[|rows| - 1]|
  }

  /** The cursor points at the next cell while that is in the buffer, and stays past it after. */
  predicate CursorAt(cursor: int, rows: seq<Bytes>)
    requires rows != []
  {
    && (Position(rows) <= 4089 ==> cursor == 0xb8000 + 2 * Position(rows))
    && (Position(rows) > 4089 ==> cursor > 0xb9ff0)
  }

  lemma {:induction false} ColumnOf(row: nat, x: nat)
    requires x < 160
    ensures Column(160 * row + x) == x
  {
    if row > 0 {
      ColumnOf(row - 1, x);
    }
  }

  /** A newline takes the cursor from anywhere in a row to the start of the next. */
  lemma CursorNewline(cursor: int, rows: seq<Bytes>)
    requires rows != [] && |rows[|rows| - 1]| < 80 && CursorAt(cursor, rows) && cursor + 160 < TWO64
    ensures cursor >= 0xb8000
    ensures var next := cursor + 160 - Column(cursor - 0xb8000);
            cursor < next <= cursor + 160 && CursorAt(next, rows + [[]])
  {
    if Position(rows) <= 4089 {
      ColumnOf(|rows| - 1, 2 * |rows[|rows| - 1]|);
    }
  }

  /** Any other character takes it one cell on, or leaves it past the buffer. */
  lemma CursorAdvance(cursor: int, rows: seq<Bytes>, c: Byte)
    requires rows != [] && |rows[|rows| - 1]| < 80 && CursorAt(cursor, rows) && c != NEWLINE
    ensures CursorAt(if cursor <= 0xb9ff0 then cursor + 2 else cursor, Extend(rows, c))
    ensures cursor <= 0xb9ff0 <==> Position(rows) < 4089
    ensures cursor <= 0xb9ff0 ==> (cursor >= 0xb8000 && (Column(cursor - 0xb8000) == 0 <==> rows[|rows| - 1] == []))
  {
    assert Position(Extend(rows, c)) == Position(rows) + 1;
    if Position(rows) <= 4089 {
      ColumnOf(|rows| - 1, 2 * |rows[|rows| - 1]|);
    }
  }

  /** Guest cursor and host transcript together. */
  datatype Screen = Screen(cursor: u64, out: Bytes)

  /** A 64-bit sum or difference of register values. */
  function Wrap64(x: int): (r: u64)
    requires -TWO64 <= x < 2 * TWO64
  {
    if x < 0 then x + TWO64 else if x >= TWO64 then x - TWO64 else x
  }

  /** What one character does, with the guest's 64-bit arithmetic. */
  function Put(s: Screen, c: Byte): Screen {
    if c == NEWLINE then
      s.(cursor := Wrap64(160 - Column(Wrap64(s.cursor - 0xb8000)) + s.cursor))
    else if s.cursor > 0xb9ff0 then s
    else if s.cursor < 0xb8000 then s.(cursor := s.cursor + 2)   // not the text buffer
    else Screen(s.cursor + 2, s.out + Shown(s.cursor, c))
  }

  function PutAll(s: Screen, text: Bytes): Screen
    decreases |text|
  {
    if text == [] then s else PutAll(Put(s, text[0]), text[1..])
  }

  /** Consecutive outputs are one output of the joined text. */
  lemma {:induction false} PutAllJoin(s: Screen, a: Bytes, b: Bytes)
    ensures PutAll(PutAll(s, a), b) == PutAll(s, a + b)
    decreases |a|
  {
    if a == [] {
      assert a + b == b;
    } else {
      PutAllJoin(Put(s, a[0]), a[1..], b);
      assert (a + b)[1..] == a[1..] + b;
    }
  }

  lemma PutAllOne(s: Screen, text: Bytes, c: Byte)
    ensures PutAll(s, text + [c]) == Put(PutAll(s, text), c)
  {
    PutAllJoin(s, text, [c]);
    assert PutAll(PutAll(s, text), [c]) == PutAll(Put(PutAll(s, text), c), []);
  }

  /** Below 2^64 the newline arithmetic does not wrap. */
  lemma NoWrap(cursor: int)
    requires 0xb8000 <= cursor && cursor + 160 < TWO64
    ensures Wrap64(160 - Column(Wrap64(cursor - 0xb8000)) + cursor) == cursor + 160 - Column(cursor - 0xb8000)
  {
  }

  /** The host's transcript and the guest's cursor are those of the given rows. */
  ghost predicate Shows(s: Screen, rows: seq<Bytes>) {
    && rows != [] && |rows[|rows| - 1]| < 80
    && s.out == Transcript(rows) && CursorAt(s.cursor, rows)
  }

  lemma PutBounds(s: Screen, c: Byte)
    requires 0xb8000 <= s.cursor && s.cursor + 160 < TWO64
    ensures s.cursor <= Put(s, c).cursor <= s.cursor + 160
  {
    NoWrap(s.cursor);
  }

  // One character on both sides.

  lemma PutNewline(s: Screen)
    requires s.cursor >= 0xb8000 && s.cursor + 160 < TWO64
    ensures Put(s, NEWLINE) == s.(cursor := s.cursor + 160 - Column(s.cursor - 0xb8000))
  {
    NoWrap(s.cursor);
  }

  lemma PutNewlineShows(s: Screen, rows: seq<Bytes>)
    requires Shows(s, rows) && s.cursor + 160 < TWO64
    ensures s.cursor >= 0xb8000 && Shows(Put(s, NEWLINE), Extend(rows, NEWLINE))
  {
    CursorNewline(s.cursor, rows);
    PutNewline(s);
    TranscriptExtend(rows, NEWLINE);
  }

  lemma PutCellShows(s: Screen, rows: seq<Bytes>, c: Byte)
    requires Shows(s, rows) && c != NEWLINE
    ensures s.cursor >= 0xb8000 && Shows(Put(s, c), Extend(rows, c))
  {
    CursorAdvance(s.cursor, rows, c);
    TranscriptExtend(rows, c);
  }

  lemma PutShows(s: Screen, rows: seq<Bytes>, c: Byte)
    requires Shows(s, rows) && s.cursor + 160 < TWO64
    ensures s.cursor >= 0xb8000 && Shows(Put(s, c), Extend(rows, c))
  {
    if c == NEWLINE {
      PutNewlineShows(s, rows);
    } else {
      PutCellShows(s, rows, c);
    }
  }

  lemma {:induction false} PutAllShows(s: Screen, rows: seq<Bytes>, text: Bytes)
    requires Shows(s, rows) && s.cursor + 160 * |text| < TWO64
    ensures Shows(PutAll(s, text), ExtendAll(rows, text))
    ensures s.cursor <= PutAll(s, text).cursor <= s.cursor + 160 * |text|
    decreases |text|
  {
    if text != [] {
      PutShows(s, rows, text[0]);
      PutBounds(s, text[0]);
      PutAllShows(Put(s, text[0]), Extend(rows, text[0]), text[1..]);
    }
  }

  const START := Screen(0xb8000, [])

  /** Main result: whatever is put out, the host shows the text laid out in rows, and the guest
      cursor is where the layout says.  (Below 2^64, which no text that fits a guest's address
      space reaches.) */
  lemma TextOnScreen(text: Bytes)
    requires 0xb8000 + 160 * |text| < TWO64
    ensures var s := PutAll(START, text);
            s.out == Transcript(Rows(text)) && CursorAt(s.cursor, Rows(text)) && s.cursor >= 0xb8000
  {
    assert Transcript([[]]) == Transcript([]) + Printed([], 0);
    PutAllShows(START, [[]], text);
    RowsAreExtendAll(text);
  }

  /** The cursor always is at a cell. */
  lemma {:induction false} CursorEven(s: Screen, text: Bytes)
    requires s.cursor % 2 == 0
    ensures PutAll(s, text).cursor % 2 == 0
    decreases |text|
  {
    if text != [] {
      PutEven(s, text[0]);
      CursorEven(Put(s, text[0]), text[1..]);
    }
  }

  lemma PutEven(s: Screen, c: Byte)
    requires s.cursor % 2 == 0
    ensures Put(s, c).cursor % 2 == 0
  {
    ColumnEven(Wrap64(s.cursor - 0xb8000));
  }

  lemma {:induction false} ColumnEven(x: nat)
    requires x % 2 == 0
    ensures Column(x) % 2 == 0
  {
    if x >= 160 {
      ColumnEven(x - 160);
    }
  }

  /** mov %dl,%cl; shl $2,%cl; and a 64-bit shift uses six bits of %cl. */
  function ShiftCount(rdx: nat): nat {
    rdx % 0x100 * 4 % 0x100 % 64
  }

  /** Remainder by the sixteen digits of a register, by repeated subtraction. */
  function Round(k: nat): (r: nat)
    ensures r < 16
  {
    if k < 16 then k else Round(k - 16)
  }

  lemma {:induction false} RoundIsRemainder(k: nat)
    ensures Round(k) == k % 16
  {
    if k >= 16 {
      RoundIsRemainder(k - 16);
    }
  }

  lemma ShiftWithin(x: nat)
    requires x < 0x100
    ensures x * 4 % 0x100 % 64 == 4 * (x % 16)
  {
    var b, r := x / 16, x % 16;
    var c, d := b / 4, b % 4;
    QuotientUnique(x * 4, 0x100, c, 64 * d + 4 * r);
    QuotientUnique(64 * d + 4 * r, 64, d, 4 * r);
  }

  /** So the shift count goes round every sixteen digits. */
  lemma ShiftRound(rdx: nat)
    ensures ShiftCount(rdx) == 4 * Round(rdx)
  {
    ShiftWithin(rdx % 0x100);
    var a, b := rdx / 0x100, rdx % 0x100 / 16;
    QuotientUnique(rdx, 16, 16 * a + b, rdx % 0x100 % 16);
    RoundIsRemainder(rdx);
  }

  /** The digit that is printed while `left` more are to come. */
  function DigitAt(v: nat, left: nat): (c: Byte)
    ensures c != NEWLINE
  {
    HexChar(DropDigits(v, Round(left)) % 16)
  }

  /** `n` digits as the hex loop prints them: after the sixteen digits that there are, they start
      over, so that each sixteen of them from the end are the whole value. */
  function Cycled(v: nat, n: nat): (t: Bytes)
    ensures |t| == n
  {
    if n <= 16 then HexDigits(v, n) else Cycled(v, n - 16) + HexDigits(v, 16)
  }

  lemma {:induction false} CycledAt(v: nat, n: nat, i: nat)
    requires i < n
    ensures Cycled(v, n)[i] == DigitAt(v, n - 1 - i)
  {
    if n > 16 && i < n - 16 {
      CycledAt(v, n - 16, i);
    } else if n > 16 {
      HexDigitsAt(v, 16, i - (n - 16));
    } else {
      HexDigitsAt(v, n, i);
    }
  }

  lemma CycledNext(s: Screen, v: nat, n: nat, m: nat)
    requires m < n
    ensures PutAll(s, Cycled(v, n)[..m + 1]) == Put(PutAll(s, Cycled(v, n)[..m]), DigitAt(v, n - 1 - m))
  {
    CycledAt(v, n, m);
    assert Cycled(v, n)[..m + 1] == Cycled(v, n)[..m] + [DigitAt(v, n - 1 - m)];
    PutAllOne(s, Cycled(v, n)[..m], DigitAt(v, n - 1 - m));
  }

  /** The shift and __hex_to_char: one turn's digit. */
  method HexDigit(rbx: u64, rdx: u64) returns (rax: Byte)
    ensures rax == DigitAt(rbx, rdx)
  {
    ShiftRound(rdx);
    ShrDrops(rbx, Round(rdx));
    rax := HexChar(Shr(rbx, ShiftCount(rdx)) % 16);
  }

  function FirstNul(s: Bytes): (n: nat)
    requires 0 in s
    ensures n < |s| && s[n] == 0 && forall i :: 0 <= i < n ==> s[i] != 0
  {
    if s[0] == 0 then 0
    else
      assert s == [s[0]] + s[1..];
      1 + FirstNul(s[1..])
  }

  /** The bytes before the terminator. */
  function CString(s: Bytes): Bytes
    requires 0 in s
  {
    s[..FirstNul(s)]
  }

  /** The guest's side. */
  class Guest {
    const host: Host
    var videoCurrent: u64

    constructor (host: Host)
      ensures this.host == host && videoCurrent == 0xb8000
    {
      this.host := host;
      videoCurrent := 0xb8000;
    }

    ghost function View(): Screen
      reads this, host
    {
      Screen(videoCurrent, host.transcript)
    }

    /** Bytes from the start of the row, with a 64-bit unsigned subtraction. */
    method GetCurrentColumn() returns (rax: int)
      ensures rax == Column(Wrap64(videoCurrent - 0xb8000))
    {
      ColumnIsRemainder(Wrap64(videoCurrent - 0xb8000));
      rax := Wrap64(videoCurrent - 0xb8000) % (80 * 2);
    }

    /** A 16-bit store to linear address `va`: through the page tables it reaches no memory
        slot, so it exits to the host with the low byte first. */
    method StoreWord(va: u64, w: nat) returns (e: Exit)
      requires PageTables.AddressMap(va).Mapped? && PageTables.DeviceWindow(PageTables.AddressMap(va).phys)
      modifies host
      ensures e == Video <==> 0xb8000 <= PageTables.AddressMap(va).phys <= 0xba000
      ensures e == Video ==> host.transcript == old(host.transcript) + Shown(PageTables.AddressMap(va).phys, w % 256)
    {
      e := host.MmioExit(PageTables.AddressMap(va).phys, w % 256);
    }

    /** __write_char, with the character in the low byte of %si and the rest of it clear.  The
        cursor starts at the buffer and never moves back; below it the store would not exit. */
    method WriteChar(c: Byte)
      requires videoCurrent >= 0xb8000
      modifies this, host
      ensures View() == Put(old(View()), c)
    {
      var si := 0x0f00 + c;
      var rax;
      if si == 0x0f0a {
        rax := GetCurrentColumn();
        rax := Wrap64(160 - rax + videoCurrent);
      } else {
        rax := videoCurrent;
        if rax <= 0xb9ff0 {
          var e := StoreWord(rax, si);
          assert e == Video;
          rax := rax + 2;
        }
      }
      videoCurrent := rax;
    }

    method Putc(rsi: nat)
      requires videoCurrent >= 0xb8000
      modifies this, host
      ensures View() == Put(old(View()), rsi % 0x100)
      ensures old(videoCurrent) + 160 < TWO64 ==> old(videoCurrent) <= videoCurrent <= old(videoCurrent) + 160
    {
      if videoCurrent + 160 < TWO64 {
        PutBounds(View(), rsi % 0x100);
      }
      WriteChar(rsi % 0x100);
    }

    /** __puts on the bytes at %rsi; `None` is the null pointer. */
    method Puts(rsi: Option<Bytes>)
      requires videoCurrent >= 0xb8000
      requires rsi.Some? ==> 0 in rsi.value && videoCurrent + 160 * |rsi.value| < TWO64
      modifies this, host
      ensures View() == PutAll(old(View()), if rsi.None? then [] else CString(rsi.value))
    {
      if rsi.None? {
        return;
      }
      var s := rsi.value;
      var rbx := 0;
      assert s[0..FirstNul(s)] == CString(s);
      while s[rbx] != 0
        invariant 0 <= rbx <= FirstNul(s)
        invariant 0xb8000 <= videoCurrent <= old(videoCurrent) + 160 * rbx
        invariant PutAll(old(View()), CString(s)) == PutAll(View(), s[rbx..FirstNul(s)])
        decreases |s| - rbx
      {
        assert s[rbx..FirstNul(s)][1..] == s[rbx + 1..FirstNul(s)];
        Putc(s[rbx]);
        rbx := rbx + 1;
      }
    }

    /** One turn of the hex loop after its decrement. */
    method PrintDigit(rbx: u64, rdx: u64)
      requires videoCurrent >= 0xb8000
      modifies this, host
      ensures videoCurrent >= 0xb8000 && View() == Put(old(View()), DigitAt(rbx, rdx))
    {
      var rax := HexDigit(rbx, rdx);
      Putc(rax);
    }

    /** __print_hex_by_byte: `rdx` digits of `rsi`, the most significant of them first.  A count
        of 0 is decremented before it is tested, and stands for 2^64. */
    method PrintHexByByte(rsi: u64, rdx: u64)
      requires videoCurrent >= 0xb8000
      modifies this, host
      ensures View() == PutAll(old(View()), Cycled(rsi, if rdx == 0 then TWO64 else rdx))
    {
      ghost var n: nat := if rdx == 0 then TWO64 else rdx;
      ghost var m: nat := 0;
      var left: int := rdx;
      while true
        invariant m < n <= TWO64 && left == Wrap64(n - m)
        invariant videoCurrent >= 0xb8000
        invariant View() == PutAll(old(View()), Cycled(rsi, n)[..m])
        decreases n - m
      {
        left := Wrap64(left - 1);
        CycledNext(old(View()), rsi, n, m);
        PrintDigit(rsi, left);
        m := m + 1;
        if left == 0 {
          break;
        }
      }
      assert Cycled(rsi, n)[..n] == Cycled(rsi, n);
    }

    method PrintByteValue(rsi: u64)
      requires videoCurrent >= 0xb8000
      modifies this, host
      ensures View() == PutAll(old(View()), HexDigits(rsi, 2))
    {
      PrintHexByByte(rsi, 2);
    }

    method PrintQwordValue(rsi: u64)
      requires videoCurrent >= 0xb8000
      modifies this, host
      ensures View() == PutAll(old(View()), HexDigits(rsi, 16))
    {
      PrintHexByByte(rsi, 16);
    }
  }

  /** __get_byte_hex_string: the same two digits as PrintByteValue, terminated. */
  method GetByteHexString(rsi: u64, buffer: array<Byte>)
    requires buffer.Length >= 3
    modifies buffer
    ensures buffer[..3] == HexDigits(rsi, 2) + [0]
    ensures buffer[3..] == old(buffer[3..])
  {
    var rdi := 0;
    buffer[rdi] := HexChar(rsi / 16 % 16);
    rdi := rdi + 1;
    buffer[rdi] := HexChar(rsi % 16);
    rdi := rdi + 1;
    buffer[rdi] := 0;
    assert HexDigits(rsi, 2) == HexDigits(rsi / 16, 1) + [HexChar(rsi % 16)];
    assert HexDigits(rsi / 16, 1) == HexDigits(rsi / 16 / 16, 0) + [HexChar(rsi / 16 % 16)];
  }
}
