/** Positional numerals: what the hex printer prints and the size option reads. */
module Numerals {
  import opened Basics
  import opened TextLayout

  function Pow16(n: nat): (p: nat)
    ensures p > 0
  {
    if n == 0 then 1 else 16 * Pow16(n - 1)
  }

  /** A right shift, one bit at a time. */
  function Shr(v: nat, bits: nat): nat {
    if bits == 0 then v else Shr(v, bits - 1) / 2
  }

  /** `v` without its last `k` hexadecimal digits. */
  function DropDigits(v: nat, k: nat): nat {
    if k == 0 then v else DropDigits(v, k - 1) / 16
  }

  /** The table number_character. */
  function HexChar(d: nat): Byte
    requires d < 16
  {
    if d < 10 then '0' as int + d else 'A' as int + d - 10
  }

  /** The last `n` hexadecimal digits of `v`, most significant first. */
  function HexDigits(v: nat, n: nat): (t: Bytes)
    ensures |t| == n
  {
    if n == 0 then [] else HexDigits(v / 16, n - 1) + [HexChar(v % 16)]
  }

  predicate IsHexDigit(c: Byte) {
    '0' as int <= c <= '9' as int || 'A' as int <= c <= 'F' as int || 'a' as int <= c <= 'f' as int
  }

  /** The value that a digit is meant to have. */
  function DigitValue(c: Byte): (d: nat)
    requires IsHexDigit(c)
    ensures d < 16
  {
    if c <= '9' as int then c - '0' as int
    else if c <= 'F' as int then c - 'A' as int + 10
    else c - 'a' as int + 10
  }

  predicate IsNumeral(t: Bytes) {
    forall i :: 0 <= i < |t| ==> IsHexDigit(t[i])
  }

  /** The number that a row of digit values stands for. */
  function Value(ds: seq<int>, base: int): int {
    if ds == [] then 0 else Value(ds[..|ds| - 1], base) * base + ds[|ds| - 1]
  }

  function Digits(t: Bytes): (ds: seq<int>)
    requires IsNumeral(t)
    ensures |ds| == |t|
  {
    seq(|t|, i requires 0 <= i < |t| => DigitValue(t[i]))
  }

  lemma MulAtLeast(d: nat, e: int)
    ensures e >= 1 ==> d * e >= d
    ensures e <= -1 ==> d * e <= 0 - d
  {
  }

  lemma QuotientUnique(v: nat, d: nat, q: nat, r: nat)
    requires d > 0 && v == d * q + r && r < d
    ensures v / d == q && v % d == r
  {
    var e := v / d - q;
    assert v == d * (v / d) + v % d;
    assert d * e == d * (v / d) - d * q;
    assert 0 - d < d * e < d;
    MulAtLeast(d, e);
    assert e == 0;
  }

  lemma QuotientNonNegative(v: nat, d: nat)
    requires d > 0
    ensures v / d >= 0
  {
  }

  lemma {:induction false} ShrDrops(v: nat, k: nat)
    ensures Shr(v, 4 * k) == DropDigits(v, k)
  {
    if k > 0 {
      ShrDrops(v, k - 1);
      var w := Shr(v, 4 * k - 4);
      assert Shr(v, 4 * k - 3) == w / 2;
      assert Shr(v, 4 * k - 2) == w / 2 / 2;
      assert Shr(v, 4 * k - 1) == w / 2 / 2 / 2;
      assert w / 2 / 2 / 2 / 2 == w / 16;
    }
  }

  lemma {:induction false} DropOne(v: nat, k: nat)
    ensures DropDigits(v / 16, k) == DropDigits(v, k + 1)
  {
    if k > 0 {
      DropOne(v, k - 1);
    }
  }

  lemma {:induction false} HexDigitsAt(v: nat, n: nat, i: nat)
    requires i < n
    ensures HexDigits(v, n)[i] == HexChar(DropDigits(v, n - 1 - i) % 16)
  {
    if i < n - 1 {
      HexDigitsAt(v / 16, n - 1, i);
      DropOne(v, n - 2 - i);
    }
  }

  lemma {:induction false} HexDigitsNumeral(v: nat, n: nat)
    ensures IsNumeral(HexDigits(v, n))
    ensures forall i :: 0 <= i < n ==> !('a' as int <= HexDigits(v, n)[i])
  {
    if n > 0 {
      HexDigitsNumeral(v / 16, n - 1);
    }
  }

  /** Printing and reading are inverse: the printed digits stand for the value modulo 16^n. */
  lemma {:induction false} HexRoundTrip(v: nat, n: nat)
    ensures IsNumeral(HexDigits(v, n)) && Value(Digits(HexDigits(v, n)), 16) == v % Pow16(n)
  {
    HexDigitsNumeral(v, n);
    if n > 0 {
      HexRoundTrip(v / 16, n - 1);
      var t := HexDigits(v, n);
      assert t[..n - 1] == HexDigits(v / 16, n - 1);
      assert Digits(t)[..n - 1] == Digits(t[..n - 1]);
      assert DigitValue(t[n - 1]) == v % 16;
      ModPow16(v, n);
    }
  }

  lemma ModPow16(v: nat, n: nat)
    requires n > 0
    ensures v % Pow16(n) == v / 16 % Pow16(n - 1) * 16 + v % 16
  {
    var p := Pow16(n - 1);
    var q, r := v / 16 / p, v / 16 % p;
    assert v == 16 * (p * q + r) + v % 16;
    assert 16 * (p * q + r) == (16 * p) * q + 16 * r;
    QuotientUnique(v, 16 * p, q, 16 * r + v % 16);
  }

  lemma ValueLast(ds: seq<int>, d: int, base: int)
    ensures Value(ds + [d], base) == Value(ds, base) * base + d
  {
    assert (ds + [d])[..|ds|] == ds;
  }

  /** Smaller digits make a smaller number, strictly if one digit is strictly smaller. */
  lemma {:induction false} ValueMonotone(ds: seq<int>, es: seq<int>, base: int)
    requires |ds| == |es| && base >= 1 && forall i :: 0 <= i < |ds| ==> ds[i] <= es[i]
    ensures Value(ds, base) <= Value(es, base)
    ensures ds != es ==> Value(ds, base) < Value(es, base)
  {
    if ds != [] {
      var n := |ds| - 1;
      ValueMonotone(ds[..n], es[..n], base);
      var a, b := Value(ds[..n], base), Value(es[..n], base);
      ScaleMonotone(a, b, base);
      if ds[..n] == es[..n] && ds[n] == es[n] {
        assert ds == ds[..n] + [ds[n]] == es;
      }
    }
  }

  lemma ScaleMonotone(a: int, b: int, k: int)
    requires k >= 1 && a <= b
    ensures a * k <= b * k && (a < b ==> a * k < b * k)
  {
  }
}
