/** The RGB-to-hexadecimal encoder of ErnestUtils: hexColor and formatHex.

    Java `int` masks are written out arithmetically: `value & 0xFF0000`,
    `value & 0x00FF00` and `value & 0x0000FF` keep one byte of the 32-bit
    two's-complement representation of `value`, and for every integer that
    byte, shifted down, is `(value / 256^k) % 256` with Dafny's floor division. */
module Hex {

  const Two24: int := 0x100_0000

  predicate IsHexDigit(c: char) {
    '0' <= c <= '9' || 'A' <= c <= 'F'
  }

  /** The digit that `Integer.toString(d, 16).toUpperCase()` writes for 0 <= d < 16. */
  function Digit(d: int): (c: char)
    requires 0 <= d < 16
    ensures IsHexDigit(c)
    ensures d < 10 <==> '0' <= c <= '9'
  {
    if d < 10 then ('0' as int + d) as char else ('A' as int + d - 10) as char
  }

  /** The value of one upper-case hexadecimal digit (0 for any other character). */
  function DigitValue(c: char): (d: int)
    ensures 0 <= d < 16
    ensures IsHexDigit(c) ==> Digit(d) == c
  {
    if '0' <= c <= '9' then c as int - '0' as int
    else if 'A' <= c <= 'F' then c as int - 'A' as int + 10
    else 0
  }

  lemma DigitRoundTrip(d: int)
    requires 0 <= d < 16
    ensures DigitValue(Digit(d)) == d
  {
  }

  /** `Integer.toString(n, 16).toUpperCase()` for n >= 0: the digits of n, most
      significant first, with no leading zero. */
  function NatToHex(n: nat): (s: string)
    ensures |s| >= 1
    ensures forall k :: 0 <= k < |s| ==> IsHexDigit(s[k])
    ensures n < 16 <==> |s| == 1
    decreases n
  {
    if n < 16 then [Digit(n)] else NatToHex(n / 16) + [Digit(n % 16)]
  }

  /** `Integer.toString(i, 16).toUpperCase()`: a minus sign before the digits of |i|. */
  function ToHex(i: int): string {
    if i < 0 then "-" + NatToHex(-i) else NatToHex(i)
  }

  /** ErnestUtils.formatHex: at least two digits for a channel value. */
  function FormatHex(i: int): string {
    if i == 0 then "00"
    else if i < 16 then "0" + ToHex(i)
    else ToHex(i)
  }

  /** `(value & 0xFF0000) / 65536`: bits 16..23 of the two's-complement value. */
  function Red(value: int): (c: int)
    ensures 0 <= c < 256
  {
    (value / 65536) % 256
  }

  /** `(value & 0x00FF00) / 256`: bits 8..15. */
  function Green(value: int): (c: int)
    ensures 0 <= c < 256
  {
    (value / 256) % 256
  }

  /** `value & 0x0000FF`: bits 0..7. */
  function Blue(value: int): (c: int)
    ensures 0 <= c < 256
  {
    value % 256
  }

  /** ErnestUtils.hexColor: the red, green and blue channels, each formatted by
      FormatHex; always six upper-case hexadecimal digits. */
  function HexColor(value: int): (s: string)
    ensures |s| == 6
    ensures forall k :: 0 <= k < 6 ==> IsHexDigit(s[k])
  {
    TwoDigits(Red(value));
    TwoDigits(Green(value));
    TwoDigits(Blue(value));
    FormatHex(Red(value)) + FormatHex(Green(value)) + FormatHex(Blue(value))
  }

  /** Base-16 reading of a string of upper-case digits, most significant first. */
  function HexValue(s: string): (v: nat)
    decreases |s|
  {
    if s == [] then 0 else HexValue(s[..|s| - 1]) * 16 + DigitValue(s[|s| - 1])
  }

  function Pow16(n: nat): (p: nat)
    ensures p >= 1
  {
    if n == 0 then 1 else 16 * Pow16(n - 1)
  }

  // ---------------------------------------------------------------------------
  // formatHex

  /** formatHex writes every channel value 0..255 as exactly two digits, pads
      1..15 with a leading zero, writes wider values with more digits and puts
      "0" before the minus sign of a negative value. */
  lemma FormatHexCases(i: int)
    ensures i == 0 ==> FormatHex(i) == "00"
    ensures 1 <= i < 16 ==> FormatHex(i) == ['0', Digit(i)]
    ensures 16 <= i < 256 ==> FormatHex(i) == [Digit(i / 16), Digit(i % 16)]
    ensures 0 <= i < 256 ==> FormatHex(i) == [Digit(i / 16), Digit(i % 16)]
    ensures i >= 16 ==> FormatHex(i) == NatToHex(i)
    ensures i >= 256 ==> |FormatHex(i)| > 2
    ensures i < 0 ==> FormatHex(i) == "0-" + NatToHex(-i)
  {
    if 16 <= i < 256 {
      assert NatToHex(i / 16) == [Digit(i / 16)];
    }
  }

  /** The digits of n read back to n: NatToHex is the base-16 numeral of n. */
  lemma {:induction false} NatToHexDecodes(n: nat)
    ensures HexValue(NatToHex(n)) == n
    decreases n
  {
    var s := NatToHex(n);
    if n < 16 {
      assert s[..0] == [];
      DigitRoundTrip(n);
    } else {
      NatToHexDecodes(n / 16);
      assert s[..|s| - 1] == NatToHex(n / 16);
      DigitRoundTrip(n % 16);
    }
  }

  lemma TwoDigits(i: int)
    requires 0 <= i < 256
    ensures FormatHex(i) == [Digit(i / 16), Digit(i % 16)]
  {
    FormatHexCases(i);
  }

  /** Reading a concatenation: the digits of `a` are worth 16^|b| times more. */
  lemma {:induction false} HexValueAppend(a: string, b: string)
    ensures HexValue(a + b) == HexValue(a) * Pow16(|b|) + HexValue(b)
    decreases |b|
  {
    if b == [] {
      assert a + b == a;
    } else {
      var b' := b[..|b| - 1];
      var last := b[|b| - 1];
      assert (a + b)[..|a + b| - 1] == a + b';
      assert (a + b)[|a + b| - 1] == last;
      HexValueAppend(a, b');
      var x, p, y, d := HexValue(a), Pow16(|b'|), HexValue(b'), DigitValue(last);
      assert HexValue(a + b) == HexValue(a + b') * 16 + d;
      assert HexValue(b) == y * 16 + d;
      assert Pow16(|b|) == p * 16;
      ShiftDigit(x, p, y, d);
    }
  }

  lemma ShiftDigit(x: int, p: int, y: int, d: int)
    ensures (x * p + y) * 16 + d == x * (p * 16) + (y * 16 + d)
  {
  }

  /** Every channel value reads back from its two digits. */
  lemma FormatHexDecodes(i: int)
    requires 0 <= i < 256
    ensures |FormatHex(i)| == 2
    ensures HexValue(FormatHex(i)) == i
  {
    FormatHexCases(i);
    var s := FormatHex(i);
    DigitRoundTrip(i / 16);
    DigitRoundTrip(i % 16);
    assert s[..1] == [Digit(i / 16)];
    assert s[..1][..0] == [];
    assert HexValue(s[..1]) == i / 16;
    assert HexValue(s) == HexValue(s[..1]) * 16 + DigitValue(s[1]);
  }

  // ---------------------------------------------------------------------------
  // hexColor

  /** The three channels are the base-256 digits of the low 24 bits. */
  lemma ChannelsOfLow24(v: int)
    ensures v % Two24 == Red(v) * 65536 + Green(v) * 256 + Blue(v)
    ensures Red(v % Two24) == Red(v)
    ensures Green(v % Two24) == Green(v)
    ensures Blue(v % Two24) == Blue(v)
  {
    var b, q := v % 256, v / 256;
    var g, q2 := q % 256, q / 256;
    var r, q3 := q2 % 256, q2 / 256;
    assert v == q2 * 65536 + (g * 256 + b);
    DivUnique(v, q2, g * 256 + b, 65536);
    var w := r * 65536 + g * 256 + b;
    assert v == q3 * Two24 + w;
    DivUnique(v, q3, w, Two24);
    DivUnique(w, r, g * 256 + b, 65536);
    DivUnique(w, r * 256 + g, b, 256);
    DivUnique(r * 256 + g, r, g, 256);
    DivUnique(w, w / 256, b, 256);
  }

  /** hexColor ignores every bit above the low 24. */
  lemma HexColorLow24(v: int)
    ensures HexColor(v) == HexColor(v % Two24)
  {
    ChannelsOfLow24(v);
  }

  /** Reading the six digits of hexColor(v) in base 16 gives back the low 24
      bits of v, so distinct colours get distinct strings. */
  lemma HexColorDecodes(v: int)
    ensures HexValue(HexColor(v)) == v % Two24
  {
    var r, g, b := FormatHex(Red(v)), FormatHex(Green(v)), FormatHex(Blue(v));
    assert HexColor(v) == r + g + b;
    FormatHexDecodes(Red(v));
    FormatHexDecodes(Green(v));
    FormatHexDecodes(Blue(v));
    assert Pow16(2) == 256;
    HexValueAppend(r, g);
    assert HexValue(r + g) == Red(v) * 256 + Green(v);
    HexValueAppend(r + g, b);
    assert HexValue(r + g + b) == HexValue(r + g) * 256 + Blue(v);
    Horner(Red(v), Green(v), Blue(v));
    ChannelsOfLow24(v);
  }

  lemma Horner(x: int, y: int, z: int)
    ensures (x * 256 + y) * 256 + z == x * 65536 + y * 256 + z
  {
  }

  /** Two colours give the same string exactly when their low 24 bits agree. */
  lemma HexColorInjective(v: int, w: int)
    ensures HexColor(v) == HexColor(w) <==> v % Two24 == w % Two24
  {
    HexColorDecodes(v);
    HexColorDecodes(w);
    HexColorLow24(v);
    HexColorLow24(w);
  }

  // ---------------------------------------------------------------------------
  // Arithmetic helpers

  /** A non-zero multiple of d is at least d away from zero. */
  lemma {:induction false} MulBounds(k: int, d: int)
    requires d > 0
    ensures k >= 1 ==> k * d >= d
    ensures k <= -1 ==> k * d <= -d
    decreases if k < 0 then -k else k
  {
    if k > 1 {
      MulBounds(k - 1, d);
      assert k * d == (k - 1) * d + d;
    } else if k < -1 {
      MulBounds(k + 1, d);
      assert k * d == (k + 1) * d - d;
    }
  }

  /** Euclidean division is unique. */
  lemma DivUnique(a: int, b: int, r: int, d: int)
    requires d > 0 && 0 <= r < d && a == b * d + r
    ensures a / d == b && a % d == r
  {
    var q, s := a / d, a % d;
    assert a == q * d + s;
    MulBounds(q - b, d);
    assert (q - b) * d == q * d - b * d;
  }
}
