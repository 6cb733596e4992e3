/** The -m option of vm.c: a memory size with a K, M or G suffix. */
module SizeOption {
  import opened Basics
  import opened TextLayout
  import opened Numerals

  predicate IsAlpha(c: Byte) {
    'A' as int <= c <= 'Z' as int || 'a' as int <= c <= 'z' as int
  }

  /** Character `i` of a C string; the terminator follows the last one. */
  function CharAt(s: Bytes, i: nat): Byte {
    if i < |s| then s[i] else 0
  }

  /** size_t arithmetic. */
  function Mod64(x: int): nat { x % TWO64 }

  /** What the digit branches leave in `val`: both comparisons with F are strict, so an F keeps
      the value of the digit before it. */
  function ReadDigit(c: Byte, val: int): int {
    if '0' as int <= c <= '9' as int then c - '0' as int
    else if 'A' as int <= c < 'F' as int then c - 'A' as int + 10
    else if 'a' as int <= c < 'f' as int then c - 'a' as int + 10
    else val
  }

  /** The digit loop from position `i`. */
  function Scan(s: Bytes, i: nat, base: int, size: nat, val: int): (nat, nat)
    decreases |s| - i
  {
    if i < |s| && IsHexDigit(s[i]) then
      var v := ReadDigit(s[i], val);
      Scan(s, i + 1, base, Mod64(size * base + v), v)
    else (size, i)
  }

  predicate HexPrefixed(s: Bytes) {
    CharAt(s, 0) == '0' as int && CharAt(s, 1) == 'x' as int
  }

  function Multiplier(c: Byte): Option<int> {
    if c == 'K' as int || c == 'k' as int then Some(0x400)
    else if c == 'M' as int || c == 'm' as int then Some(0x100000)
    else if c == 'G' as int || c == 'g' as int then Some(0x40000000)
    else None
  }

  /** The option's value, or `None` for the error return; `val0` is what the uninitialised
      local holds. */
  function Parse(s: Bytes, val0: int): Option<nat> {
    var (size, i) := if HexPrefixed(s) then Scan(s, 2, 16, 0, val0) else Scan(s, 0, 10, 0, val0);
    if !IsAlpha(CharAt(s, i)) || IsAlpha(CharAt(s, i + 1)) then None
    else
      match Multiplier(CharAt(s, i))
      case None => None
      case Some(k) => Some(Mod64(size * k))
  }

  method ParseSize(optarg: Bytes, val0: int) returns (r: Option<nat>)
    ensures r == Parse(optarg, val0)
  {
    var len := |optarg|;
    var base, i := 10, 0;
    if CharAt(optarg, 0) == '0' as int && CharAt(optarg, 1) == 'x' as int {
      base := 0x10;
      i := 2;
    }
    var size: nat, val := 0, val0;
    ghost var first := i;
    while i < len
      invariant 0 <= i && Scan(optarg, first, base, 0, val0) == Scan(optarg, i, base, size, val)
      decreases len - i
    {
      if !IsHexDigit(optarg[i]) {
        break;
      }
      if '0' as int <= optarg[i] <= '9' as int {
        val := optarg[i] - '0' as int;
      } else if 'A' as int <= optarg[i] < 'F' as int {
        val := optarg[i] - 'A' as int + 10;
      } else if 'a' as int <= optarg[i] < 'f' as int {
        val := optarg[i] - 'a' as int + 10;
      }
      size := Mod64(size * base + val);
      i := i + 1;
    }
    if !IsAlpha(CharAt(optarg, i)) || IsAlpha(CharAt(optarg, i + 1)) {
      return None;
    }
    match Multiplier(CharAt(optarg, i))
    case Some(k) => r := Some(Mod64(size * k));
    case None => r := None;
  }

  // ---------------------------------------------------------------- what a numeral is read as

  /** The digit values that the loop uses for a numeral. */
  function Effective(t: Bytes, val: int): (ds: seq<int>)
    ensures |ds| == |t|
  {
    if t == [] then [] else [ReadDigit(t[0], val)] + Effective(t[1..], ReadDigit(t[0], val))
  }

  lemma {:induction false} ModAbsorbs(x: int, b: int, c: int)
    ensures Mod64(Mod64(x) * b + c) == Mod64(x * b + c)
  {
    var q := x / TWO64;
    var y := Mod64(x) * b + c;
    assert x == TWO64 * q + Mod64(x);
    assert x * b + c == y + TWO64 * (q * b);
    ModShift(y, q * b);
  }

  lemma ModShift(x: int, k: int)
    ensures Mod64(x + TWO64 * k) == Mod64(x)
  {
    var q := x / TWO64;
    assert x + TWO64 * k == TWO64 * (q + k) + Mod64(x);
  }

  /** Value of `ds` appended to a number already read. */
  function Continue(x: int, ds: seq<int>, base: int): int
    decreases |ds|
  {
    if ds == [] then x else Continue(x * base + ds[0], ds[1..], base)
  }

  lemma {:induction false} ScanNumeral(s: Bytes, i: nat, t: Bytes, base: int, x: int, val: int)
    requires i + |t| <= |s| && s[i..i + |t|] == t && IsNumeral(t)
    requires i + |t| < |s| ==> !IsHexDigit(s[i + |t|])
    ensures Scan(s, i, base, Mod64(x), val) == (Mod64(Continue(x, Effective(t, val), base)), i + |t|)
    decreases |t|
  {
    if t != [] {
      var v := ReadDigit(t[0], val);
      assert s[i] == s[i..i + |t|][0] == t[0];
      ModAbsorbs(x, base, v);
      assert s[i + 1..i + 1 + |t[1..]|] == t[1..];
      ScanNumeral(s, i + 1, t[1..], base, x * base + v, v);
      assert Effective(t, val)[1..] == Effective(t[1..], v);
    }
  }

  lemma {:induction false} ContinueIsValue(done: seq<int>, ds: seq<int>, base: int)
    ensures Continue(Value(done, base), ds, base) == Value(done + ds, base)
    decreases |ds|
  {
    if ds == [] {
      assert done + ds == done;
    } else {
      ValueLast(done, ds[0], base);
      ContinueIsValue(done + [ds[0]], ds[1..], base);
      assert done + [ds[0]] + ds[1..] == done + ds;
    }
  }

  /** The option as it is written. */
  function Written(hex: bool, t: Bytes, suffix: Byte): Bytes {
    (if hex then ['0' as int, 'x' as int] else []) + t + [suffix]
  }

  function Base(hex: bool): int { if hex then 16 else 10 }

  /** What may follow the suffix: anything but a letter. */
  predicate Ends(rest: Bytes) { rest == [] || !IsAlpha(rest[0]) }

  lemma WrittenShape(hex: bool, t: Bytes, suffix: Byte, rest: Bytes)
    requires IsNumeral(t) && Multiplier(suffix).Some?
    ensures var s, i := Written(hex, t, suffix) + rest, if hex then 2 else 0;
            && (HexPrefixed(s) <==> hex) && |s| == i + |t| + 1 + |rest|
            && s[i..i + |t|] == t && s[i + |t|] == suffix && s[i + |t| + 1..] == rest
            && !IsHexDigit(suffix) && IsAlpha(suffix)
  {
    var s := Written(hex, t, suffix) + rest;
    if !hex && |t| >= 2 {
      assert s[1] == t[1];
    }
  }

  lemma ScanWritten(s: Bytes, i: nat, t: Bytes, base: int, val0: int)
    requires i + |t| < |s| && s[i..i + |t|] == t && IsNumeral(t) && !IsHexDigit(s[i + |t|])
    ensures Scan(s, i, base, 0, val0) == (Mod64(Value(Effective(t, val0), base)), i + |t|)
  {
    var ds := Effective(t, val0);
    ScanNumeral(s, i, t, base, 0, val0);
    ContinueIsValue([], ds, base);
    assert [] + ds == ds;
  }

  lemma Scaled(x: int, k: int)
    ensures Mod64(Mod64(x) * k) == Mod64(x * k)
  {
    ModAbsorbs(x, k, 0);
  }

  /** Every numeral with a suffix is accepted, whatever follows that is not a letter, and read
      with the loop's digit values. */
  lemma ParseWritten(hex: bool, t: Bytes, suffix: Byte, rest: Bytes, val0: int)
    requires IsNumeral(t) && Multiplier(suffix).Some? && Ends(rest)
    ensures Parse(Written(hex, t, suffix) + rest, val0) ==
            Some(Mod64(Value(Effective(t, val0), Base(hex)) * Multiplier(suffix).value))
  {
    var s, i := Written(hex, t, suffix) + rest, if hex then 2 else 0;
    WrittenShape(hex, t, suffix, rest);
    ScanWritten(s, i, t, Base(hex), val0);
    assert CharAt(s, i + |t| + 1) == CharAt(rest, 0);
    Scaled(Value(Effective(t, val0), Base(hex)), Multiplier(suffix).value);
  }

  lemma {:induction false} ScanStops(s: Bytes, i: nat, base: int, size: nat, val: int)
    requires i <= |s|
    ensures var k := Scan(s, i, base, size, val).1; i <= k <= |s| && IsNumeral(s[i..k])
    decreases |s| - i
  {
    if i < |s| && IsHexDigit(s[i]) {
      var v := ReadDigit(s[i], val);
      ScanStops(s, i + 1, base, Mod64(size * base + v), v);
      var k := Scan(s, i, base, size, val).1;
      assert s[i..k] == [s[i]] + s[i + 1..k];
    }
  }

  // What is accepted, by ASCII code.

  predicate AsciiDigits(t: Bytes) {
    forall i :: 0 <= i < |t| ==> 0x30 <= t[i] <= 0x39 || 0x41 <= t[i] <= 0x46 || 0x61 <= t[i] <= 0x66
  }

  predicate AsciiLetter(c: Byte) { 0x41 <= c <= 0x5a || 0x61 <= c <= 0x7a }

  /** The unit that a suffix letter stands for, 0 for any other. */
  function Unit(suffix: Byte): int {
    if suffix == 'K' as int || suffix == 'k' as int then 1024
    else if suffix == 'M' as int || suffix == 'm' as int then 1024 * 1024
    else if suffix == 'G' as int || suffix == 'g' as int then 1024 * 1024 * 1024
    else 0
  }

  /** Prefix or none, numeral, suffix, and anything that does not start with a letter. */
  predicate WellFormed(s: Bytes, hex: bool, t: Bytes, suffix: Byte, rest: Bytes) {
    && (hex <==> |s| >= 2 && s[0] == 0x30 && s[1] == 0x78)
    && s == (if hex then [0x30, 0x78] else []) + t + [suffix] + rest
    && AsciiDigits(t) && Unit(suffix) > 0 && (rest == [] || !AsciiLetter(rest[0]))
  }

  lemma Shape(s: Bytes, hex: bool, t: Bytes, suffix: Byte, rest: Bytes)
    ensures WellFormed(s, hex, t, suffix, rest) <==>
            && hex == HexPrefixed(s) && s == Written(hex, t, suffix) + rest
            && IsNumeral(t) && Multiplier(suffix).Some? && Ends(rest)
    ensures Multiplier(suffix) == if Unit(suffix) > 0 then Some(Unit(suffix)) else None
  {
  }

  /** The strings that are accepted, "5K9" among them ... */
  lemma ParseAccepts(s: Bytes, val0: int)
    ensures Parse(s, val0).Some? <==> exists hex, t, suffix, rest :: WellFormed(s, hex, t, suffix, rest)
  {
    if Parse(s, val0).Some? {
      var i := if HexPrefixed(s) then 2 else 0;
      ScanStops(s, i, Base(HexPrefixed(s)), 0, val0);
      var k := Scan(s, i, Base(HexPrefixed(s)), 0, val0).1;
      assert s == s[..i] + s[i..k] + [s[k]] + s[k + 1..];
      Shape(s, HexPrefixed(s), s[i..k], s[k], s[k + 1..]);
    } else if exists hex, t, suffix, rest :: WellFormed(s, hex, t, suffix, rest) {
      var hex, t, suffix, rest :| WellFormed(s, hex, t, suffix, rest);
      ParseMeans(s, hex, t, suffix, rest, val0);
    }
  }

  /** ... and what is read: the digits as the loop takes them, times the unit, modulo 2^64. */
  lemma ParseMeans(s: Bytes, hex: bool, t: Bytes, suffix: Byte, rest: Bytes, val0: int)
    requires WellFormed(s, hex, t, suffix, rest)
    ensures Parse(s, val0) ==
            Some(Value(Effective(t, val0), if hex then 16 else 10) * Unit(suffix) % 0x1_0000_0000_0000_0000)
  {
    Shape(s, hex, t, suffix, rest);
    ParseWritten(hex, t, suffix, rest, val0);
  }

  predicate IsF(c: Byte) { c == 'F' as int || c == 'f' as int }

  predicate HasF(t: Bytes) { exists i :: 0 <= i < |t| && IsF(t[i]) }

  /** The loop takes every digit for what it is, except that an F repeats the digit before it, and
      at the start whatever `val` holds. */
  lemma {:induction false} EffectiveAt(t: Bytes, val: int, i: nat)
    requires IsNumeral(t) && i < |t|
    ensures Effective(t, val)[i] ==
            if !IsF(t[i]) then DigitValue(t[i]) else if i == 0 then val else Effective(t, val)[i - 1]
  {
    if i > 0 {
      EffectiveAt(t[1..], ReadDigit(t[0], val), i - 1);
    }
  }

  lemma {:induction false} EffectiveDigits(t: Bytes, val: int)
    requires IsNumeral(t) && (0 <= val < 15 || (t != [] && !IsF(t[0])))
    ensures forall i :: 0 <= i < |t| ==>
              Effective(t, val)[i] <= Digits(t)[i] && (Effective(t, val)[i] < Digits(t)[i] <==> IsF(t[i]))
  {
    if t != [] {
      var v := ReadDigit(t[0], val);
      assert 0 <= v < 15;
      EffectiveDigits(t[1..], v);
      forall i | 0 <= i < |t|
        ensures Effective(t, val)[i] <= Digits(t)[i] && (Effective(t, val)[i] < Digits(t)[i] <==> IsF(t[i]))
      {
        if i > 0 {
          assert t[i] == t[1..][i - 1];
          assert Effective(t, val)[i] == Effective(t[1..], v)[i - 1] && Digits(t)[i] == Digits(t[1..])[i - 1];
        }
      }
    }
  }

  lemma ModEqual(a: int, b: int, k: int)
    requires 0 <= a <= b && k >= 1 && b * k < TWO64
    ensures Mod64(a * k) == b * k <==> a == b
  {
    ScaleMonotone(a, b, k);
    ScaleMonotone(0, a, k);
  }

  lemma {:induction false} EffectiveNonNegative(t: Bytes, val: int)
    requires IsNumeral(t) && (0 <= val || (t != [] && !IsF(t[0])))
    ensures forall i :: 0 <= i < |t| ==> Effective(t, val)[i] >= 0
  {
    if t != [] {
      EffectiveNonNegative(t[1..], ReadDigit(t[0], val));
    }
  }

  lemma {:induction false} ValueNonNegative(ds: seq<int>, base: int)
    requires base >= 0 && forall i :: 0 <= i < |ds| ==> ds[i] >= 0
    ensures Value(ds, base) >= 0
  {
    if ds != [] {
      ValueNonNegative(ds[..|ds| - 1], base);
    }
  }

  lemma NonNegative(t: Bytes, val: int, base: int)
    requires IsNumeral(t) && base >= 0 && (0 <= val || (t != [] && !IsF(t[0])))
    ensures Value(Effective(t, val), base) >= 0
  {
    EffectiveNonNegative(t, val);
    ValueNonNegative(Effective(t, val), base);
  }

  /** Without an F, whatever the size, the numeral's value is taken modulo 2^64. */
  lemma ParseWithoutF(hex: bool, t: Bytes, suffix: Byte, rest: Bytes, val0: int)
    requires IsNumeral(t) && Multiplier(suffix).Some? && !HasF(t) && Ends(rest)
    ensures Parse(Written(hex, t, suffix) + rest, val0) ==
            Some(Mod64(Value(Digits(t), Base(hex)) * Multiplier(suffix).value))
  {
    ParseWritten(hex, t, suffix, rest, val0);
    if t == [] {
      assert Effective(t, val0) == Digits(t);
    } else {
      EffectiveDigits(t, val0);
      assert Effective(t, val0) == Digits(t);
    }
  }

  /** The same in the characters themselves, and with the unit that the suffix stands for. */
  lemma ParsePlain(s: Bytes, hex: bool, t: Bytes, suffix: Byte, rest: Bytes, val0: int)
    requires WellFormed(s, hex, t, suffix, rest) && forall i :: 0 <= i < |t| ==> t[i] != 0x46 && t[i] != 0x66
    ensures IsNumeral(t)
    ensures Parse(s, val0) ==
            Some(Value(Digits(t), if hex then 16 else 10) * Unit(suffix) % 0x1_0000_0000_0000_0000)
  {
    Shape(s, hex, t, suffix, rest);
    ParseWithoutF(hex, t, suffix, rest, val0);
  }

  /** "1G" is 2^30. */
  lemma GExample(val0: int)
    ensures Parse(['1' as int, 'G' as int], val0) == Some(0x4000_0000)
  {
    var t: Bytes := ['1' as int];
    assert ['1' as int, 'G' as int] == [] + t + ['G' as int] + [];
    ParsePlain(['1' as int, 'G' as int], false, t, 'G' as int, [], val0);
    assert Digits(t) == [] + [1];
    ValueLast([], 1, 10);
  }

  /** The size that the option stands for. */
  function Meant(hex: bool, t: Bytes, suffix: Byte): int
    requires IsNumeral(t) && Multiplier(suffix).Some?
  {
    Value(Digits(t), Base(hex)) * Multiplier(suffix).value
  }

  lemma ReadTooSmall(t: Bytes, val0: int, base: int)
    requires IsNumeral(t) && HasF(t) && base >= 1 && (0 <= val0 < 15 || !IsF(t[0]))
    ensures 0 <= Value(Effective(t, val0), base) < Value(Digits(t), base)
  {
    EffectiveDigits(t, val0);
    ValueMonotone(Effective(t, val0), Digits(t), base);
    NonNegative(t, val0, base);
    var i :| 0 <= i < |t| && IsF(t[i]);
    assert Effective(t, val0)[i] < Digits(t)[i];
  }

  /** With a known start value, or none that matters, a digit F makes the value too small. */
  lemma ParseWithF(hex: bool, t: Bytes, suffix: Byte, rest: Bytes, val0: int)
    requires IsNumeral(t) && Multiplier(suffix).Some? && Ends(rest) && HasF(t)
    requires 0 <= val0 < 15 || !IsF(t[0])
    requires Meant(hex, t, suffix) < TWO64
    ensures Parse(Written(hex, t, suffix) + rest, val0) != Some(Meant(hex, t, suffix))
  {
    ParseWritten(hex, t, suffix, rest, val0);
    ReadTooSmall(t, val0, Base(hex));
    ModEqual(Value(Effective(t, val0), Base(hex)), Value(Digits(t), Base(hex)), Multiplier(suffix).value);
  }

  lemma MeantFits(hex: bool, t: Bytes, suffix: Byte)
    requires IsNumeral(t) && Multiplier(suffix).Some? && Meant(hex, t, suffix) < TWO64
    ensures Mod64(Meant(hex, t, suffix)) == Meant(hex, t, suffix)
  {
    ValueNonNegative(Digits(t), Base(hex));
    ModEqual(Value(Digits(t), Base(hex)), Value(Digits(t), Base(hex)), Multiplier(suffix).value);
  }

  lemma ParseFitting(hex: bool, t: Bytes, suffix: Byte, rest: Bytes, val0: int)
    requires IsNumeral(t) && Multiplier(suffix).Some? && Ends(rest) && Meant(hex, t, suffix) < TWO64 && !HasF(t)
    ensures Parse(Written(hex, t, suffix) + rest, val0) == Some(Meant(hex, t, suffix))
  {
    MeantFits(hex, t, suffix);
    ParseWithoutF(hex, t, suffix, rest, val0);
  }

  /** Main result: a numeral whose size fits in 64 bits is sure to be read as the size it stands
      for, whatever the uninitialised local holds, exactly when it has no digit F. */
  lemma ParseExact(hex: bool, t: Bytes, suffix: Byte, rest: Bytes)
    requires IsNumeral(t) && Multiplier(suffix).Some? && Ends(rest) && Meant(hex, t, suffix) < TWO64
    ensures (forall val0: int :: Parse(Written(hex, t, suffix) + rest, val0) == Some(Meant(hex, t, suffix))) <==>
            !HasF(t)
  {
    if HasF(t) {
      ParseWithF(hex, t, suffix, rest, 0);
    } else {
      forall val0: int ensures Parse(Written(hex, t, suffix) + rest, val0) == Some(Meant(hex, t, suffix)) {
        ParseFitting(hex, t, suffix, rest, val0);
      }
    }
  }

  /** Reading back what the hex printer prints, when it prints no F. */
  lemma ParsePrinted(v: nat, n: nat, suffix: Byte, rest: Bytes, val0: int)
    requires Multiplier(suffix).Some? && !HasF(HexDigits(v, n)) && Ends(rest)
    ensures Parse(Written(true, HexDigits(v, n), suffix) + rest, val0) ==
            Some(Mod64(v % Pow16(n) * Multiplier(suffix).value))
  {
    HexRoundTrip(v, n);
    ParseWithoutF(true, HexDigits(v, n), suffix, rest, val0);
  }

  /** "0x1FK" is read as 0x11 K. */
  lemma FExample(val0: int)
    ensures Parse(Written(true, ['1' as int, 'F' as int], 'K' as int), val0) == Some(0x11 * 0x400)
  {
    var t: Bytes := ['1' as int, 'F' as int];
    var s := Written(true, t, 'K' as int);
    ParseWritten(true, t, 'K' as int, [], val0);
    assert s + [] == s;
    assert t[1..] == ['F' as int];
    assert Effective(t[1..], 1) == [1] + Effective([], 1);
    assert Effective(t, val0) == [1, 1];
    assert Value([1, 1], 16) == 0x11 by {
      ValueLast([1], 1, 16);
      ValueLast([], 1, 16);
      assert [] + [1] == [1] && [1] + [1] == [1, 1];
    }
  }
}
