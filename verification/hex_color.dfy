/**
 Decoding of a hex colour literal (`#RGB`, `#RRGGBB`, `#AARRGGBB`) into its
 alpha, red, green and blue bytes. The literal is trimmed, scanned as one hex
 number, and split by the length of the trimmed text; any other length gives
 opaque black. Decoding is total: no input is rejected.

 Shifts and masks of the scanned (non-negative) value are written as division
 and remainder by powers of two: `v >> k` is `v / 2^k` and `v & (2^w - 1)` is
 `v % 2^w`.
 */
module HexColor {
  import opened Trimming
  import opened HexScan

  /** The four bytes of a colour, in the order the literal lists them. */
  datatype Argb = Argb(alpha: nat, red: nat, green: nat, blue: nat)

  const OpaqueBlack := Argb(255, 0, 0, 0)

  predicate IsByte(n: nat) {
    n < 256
  }

  predicate ValidArgb(c: Argb) {
    IsByte(c.alpha) && IsByte(c.red) && IsByte(c.green) && IsByte(c.blue)
  }

  /** The `#RGB` case: each 4-bit nibble `n` becomes the byte `n * 17`. */
  function Rgb12(v: nat): (c: Argb)
    requires v < 0x1000
    ensures ValidArgb(c) && c.alpha == 255
    ensures c.red % 17 == 0 && c.green % 17 == 0 && c.blue % 17 == 0
    ensures (c.red / 17) * 0x100 + (c.green / 17) * 0x10 + c.blue / 17 == v
  {
    var r := v / 0x100;             // int >> 8
    var g := v / 0x10 % 0x10;      // int >> 4 & 0xF
    var b := v % 0x10;             // int & 0xF
    assert r < 16 && g < 16 && b < 16;
    assert r * 0x100 + g * 0x10 + b == v;
    Argb(255, r * 17, g * 17, b * 17)
  }

  /** The `#RRGGBB` case: three bytes, red the most significant. */
  function Rgb24(v: nat): (c: Argb)
    requires v < 0x100_0000
    ensures ValidArgb(c) && c.alpha == 255
    ensures c.red * 0x1_0000 + c.green * 0x100 + c.blue == v
  {
    var r := v / 0x1_0000;          // int >> 16
    var g := v / 0x100 % 0x100;    // int >> 8 & 0xFF
    var b := v % 0x100;            // int & 0xFF
    assert v / 0x100 == r * 0x100 + g;
    Argb(255, r, g, b)
  }

  /** The `#AARRGGBB` case: four bytes, alpha the most significant. */
  function Argb32(v: nat): (c: Argb)
    requires v < 0x1_0000_0000
    ensures ValidArgb(c)
    ensures c.alpha * 0x100_0000 + c.red * 0x1_0000 + c.green * 0x100 + c.blue == v
  {
    var a := v / 0x100_0000;        // int >> 24
    var r := v / 0x1_0000 % 0x100; // int >> 16 & 0xFF
    var g := v / 0x100 % 0x100;    // int >> 8 & 0xFF
    var b := v % 0x100;            // int & 0xFF
    assert v / 0x1_0000 == a * 0x100 + r;
    assert v / 0x100 == (a * 0x100 + r) * 0x100 + g;
    Argb(a, r, g, b)
  }

  /** The colour a literal denotes: its trimmed text, decoded. */
  function Decode(hex: string): (c: Argb)
    ensures ValidArgb(c)
    ensures |Trim(hex)| == 3 ==>
      && c.alpha == 255
      && c.red % 17 == 0 && c.green % 17 == 0 && c.blue % 17 == 0
      && (c.red / 17) * 0x100 + (c.green / 17) * 0x10 + c.blue / 17 == ScanHex(Trim(hex))
    ensures |Trim(hex)| == 6 ==>
      && c.alpha == 255
      && c.red * 0x1_0000 + c.green * 0x100 + c.blue == ScanHex(Trim(hex))
    ensures |Trim(hex)| == 8 ==>
      c.alpha * 0x100_0000 + c.red * 0x1_0000 + c.green * 0x100 + c.blue == ScanHex(Trim(hex))
    ensures |Trim(hex)| !in {3, 6, 8} ==> c == OpaqueBlack
  {
    DecodeTrimmed(Trim(hex))
  }

  /** The colour a trimmed literal denotes. The bytes are always in range; a
      shorthand literal gives each channel as a nibble times 17; a six-digit
      literal packs red, green and blue into the scanned value and an
      eight-digit one packs alpha above them; every other length, the empty
      one included, is opaque black. */
  function DecodeTrimmed(t: string): (c: Argb)
    ensures ValidArgb(c)
    ensures |t| == 3 ==>
      && c.alpha == 255
      && c.red % 17 == 0 && c.green % 17 == 0 && c.blue % 17 == 0
      && (c.red / 17) * 0x100 + (c.green / 17) * 0x10 + c.blue / 17 == ScanHex(t)
    ensures |t| == 6 ==>
      && c.alpha == 255
      && c.red * 0x1_0000 + c.green * 0x100 + c.blue == ScanHex(t)
    ensures |t| == 8 ==>
      c.alpha * 0x100_0000 + c.red * 0x1_0000 + c.green * 0x100 + c.blue == ScanHex(t)
    ensures |t| !in {3, 6, 8} ==> c == OpaqueBlack
  {
    var v := ScanHex(t);
    Pow16Values();
    if |t| == 3 then Rgb12(v)
    else if |t| == 6 then Rgb24(v)
    else if |t| == 8 then Argb32(v)
    else OpaqueBlack
  }

  lemma Pow16Values()
    ensures Pow16(3) == 0x1000 && Pow16(6) == 0x100_0000 && Pow16(8) == 0x1_0000_0000
  {
    assert Pow16(3) == 0x1000;
    assert Pow16(6) == 0x100_0000;
  }

  /** Four bytes are determined by their base-256 packing. */
  lemma PackingIsUnique(c: Argb, d: Argb)
    requires ValidArgb(c) && ValidArgb(d)
    requires c.alpha * 0x100_0000 + c.red * 0x1_0000 + c.green * 0x100 + c.blue
          == d.alpha * 0x100_0000 + d.red * 0x1_0000 + d.green * 0x100 + d.blue
    ensures c == d
  {
    var hc := c.alpha * 0x1_0000 + c.red * 0x100 + c.green;
    var hd := d.alpha * 0x1_0000 + d.red * 0x100 + d.green;
    LowByteUnique(hc, c.blue, hd, d.blue);
    LowByteUnique(c.alpha * 0x100 + c.red, c.green, d.alpha * 0x100 + d.red, d.green);
    LowByteUnique(c.alpha, c.red, d.alpha, d.red);
  }

  lemma LowByteUnique(h1: nat, l1: nat, h2: nat, l2: nat)
    requires l1 < 0x100 && l2 < 0x100
    requires h1 * 0x100 + l1 == h2 * 0x100 + l2
    ensures h1 == h2 && l1 == l2
  {
  }

  /** A '#' in front of a string of letters and digits is what trimming cuts. */
  lemma TrimHashPrefix(d: string)
    requires d != [] && forall i :: 0 <= i < |d| ==> IsAlphanumeric(d[i])
    ensures Trim("#" + d) == d
    ensures Decode("#" + d) == DecodeTrimmed(d)
  {
    TrimOfPadded("#", d, "");
    assert "#" + d + "" == "#" + d;
  }

  /** What the decoder sees of a '#' followed by `n` formatted digits. */
  lemma ScanFormatted(v: nat, n: nat)
    requires 0 < n && v < Pow16(n)
    ensures Decode("#" + ToHex(v, n)) == DecodeTrimmed(ToHex(v, n))
    ensures ScanHex(ToHex(v, n)) == v
  {
    TrimHashPrefix(ToHex(v, n));
    ScanToHex(v, n);
  }

  /** `#AARRGGBB` for a colour, in lower-case digits. */
  function FormatArgb(c: Argb): string
    requires ValidArgb(c)
  {
    Pow16Values();
    "#" + ToHex(c.alpha * 0x100_0000 + c.red * 0x1_0000 + c.green * 0x100 + c.blue, 8)
  }

  /** `#RRGGBB` for an opaque colour. */
  function FormatRgb(c: Argb): string
    requires ValidArgb(c) && c.alpha == 255
  {
    Pow16Values();
    "#" + ToHex(c.red * 0x1_0000 + c.green * 0x100 + c.blue, 6)
  }

  /** The channels an `#RGB` literal can express: opaque, each a nibble
      times 17. */
  predicate IsShorthand(c: Argb) {
    ValidArgb(c) && c.alpha == 255 && c.red % 17 == 0 && c.green % 17 == 0 && c.blue % 17 == 0
  }

  /** `#RGB` for a colour whose channels are nibbles times 17. */
  function FormatShorthand(c: Argb): string
    requires IsShorthand(c)
  {
    Pow16Values();
    "#" + ToHex((c.red / 17) * 0x100 + (c.green / 17) * 0x10 + c.blue / 17, 3)
  }

  /** Round trip through the eight-digit form: every colour survives it. */
  lemma DecodeFormatArgb(c: Argb)
    requires ValidArgb(c)
    ensures Decode(FormatArgb(c)) == c
  {
    Pow16Values();
    var v := c.alpha * 0x100_0000 + c.red * 0x1_0000 + c.green * 0x100 + c.blue;
    var d := ToHex(v, 8);
    assert FormatArgb(c) == "#" + d;
    ScanFormatted(v, 8);
    var e := DecodeTrimmed(d);
    PackingIsUnique(e, c);
  }

  /** Round trip through the six-digit form: every opaque colour survives it. */
  lemma DecodeFormatRgb(c: Argb)
    requires ValidArgb(c) && c.alpha == 255
    ensures Decode(FormatRgb(c)) == c
  {
    Pow16Values();
    var v := c.red * 0x1_0000 + c.green * 0x100 + c.blue;
    var d := ToHex(v, 6);
    assert FormatRgb(c) == "#" + d;
    ScanFormatted(v, 6);
    var e := DecodeTrimmed(d);
    PackingIsUnique(e, c);
  }

  /** Round trip through the three-digit form: every colour it can express
      survives it. */
  lemma DecodeFormatShorthand(c: Argb)
    requires IsShorthand(c)
    ensures Decode(FormatShorthand(c)) == c
  {
    Pow16Values();
    var v := (c.red / 17) * 0x100 + (c.green / 17) * 0x10 + c.blue / 17;
    var d := ToHex(v, 3);
    assert FormatShorthand(c) == "#" + d;
    ScanFormatted(v, 3);
    ShorthandPackingIsUnique(DecodeTrimmed(d), c);
  }

  /** A colour `#RGB` can express is determined by its three nibbles. */
  lemma ShorthandPackingIsUnique(c: Argb, d: Argb)
    requires IsShorthand(c) && IsShorthand(d)
    requires (c.red / 17) * 0x100 + (c.green / 17) * 0x10 + c.blue / 17
          == (d.red / 17) * 0x100 + (d.green / 17) * 0x10 + d.blue / 17
    ensures c == d
  {
    LowNibbleUnique((c.red / 17) * 0x10 + c.green / 17, c.blue / 17,
                    (d.red / 17) * 0x10 + d.green / 17, d.blue / 17);
    LowNibbleUnique(c.red / 17, c.green / 17, d.red / 17, d.green / 17);
    TimesSeventeen(c.red, d.red);
    TimesSeventeen(c.green, d.green);
    TimesSeventeen(c.blue, d.blue);
  }

  lemma LowNibbleUnique(h1: nat, l1: nat, h2: nat, l2: nat)
    requires l1 < 0x10 && l2 < 0x10
    requires h1 * 0x10 + l1 == h2 * 0x10 + l2
    ensures h1 == h2 && l1 == l2
  {
  }

  lemma TimesSeventeen(x: nat, y: nat)
    requires x % 17 == 0 && y % 17 == 0 && x / 17 == y / 17
    ensures x == y
  {
  }

  /** Three hex digits, one nibble each. */
  lemma ThreeDigits(t: string)
    requires |t| == 3 && AllHexDigits(t)
    ensures ScanHex(t) == DigitValue(t[0]) * 0x100 + DigitValue(t[1]) * 0x10 + DigitValue(t[2])
  {
    var t2 := t[..2];
    var t1 := t2[..1];
    assert HexValue(t) == HexValue(t2) * 0x10 + DigitValue(t[2]);
    assert HexValue(t2) == HexValue(t1) * 0x10 + DigitValue(t[1]);
    assert HexValue(t1) == DigitValue(t[0]);
  }

  /** The last two digits of a run are its low byte. */
  lemma LastTwoDigits(t: string)
    requires |t| >= 2 && AllHexDigits(t)
    ensures AllHexDigits(t[..|t| - 2]) && AllHexDigits(t[|t| - 2..])
    ensures HexValue(t) == HexValue(t[..|t| - 2]) * 0x100 + HexValue(t[|t| - 2..])
  {
    HexValueSplit(t, |t| - 2);
    assert Pow16(2) == 0x100;
  }

  /** Six hex digits, two per byte. */
  lemma SixDigits(t: string)
    requires |t| == 6 && AllHexDigits(t)
    ensures ScanHex(t) == HexValue(t[0..2]) * 0x1_0000 + HexValue(t[2..4]) * 0x100 + HexValue(t[4..6])
  {
    var t4 := t[..4];
    LastTwoDigits(t);
    LastTwoDigits(t4);
    assert t4[..2] == t[0..2] && t4[2..] == t[2..4];
  }

  /** Eight hex digits, two per byte. */
  lemma EightDigits(t: string)
    requires |t| == 8 && AllHexDigits(t)
    ensures ScanHex(t) == HexValue(t[0..2]) * 0x100_0000 + HexValue(t[2..4]) * 0x1_0000
                        + HexValue(t[4..6]) * 0x100 + HexValue(t[6..8])
  {
    var t6 := t[..6];
    var t4 := t[..4];
    LastTwoDigits(t);
    LastTwoDigits(t6);
    LastTwoDigits(t4);
    assert t6[..4] == t4 && t6[4..] == t[4..6];
    assert t4[..2] == t[0..2] && t4[2..] == t[2..4];
  }

  /** An `#RGB` literal of hex digits: each channel is its own digit
      times 17. */
  lemma DecodeShorthandDigits(t: string)
    requires |t| == 3 && AllHexDigits(t)
    ensures DecodeTrimmed(t) == Argb(255, 17 * DigitValue(t[0]), 17 * DigitValue(t[1]), 17 * DigitValue(t[2]))
  {
    ThreeDigits(t);
    var c := DecodeTrimmed(t);
    assert c.red / 17 == DigitValue(t[0]) && c.green / 17 == DigitValue(t[1]) && c.blue / 17 == DigitValue(t[2]);
  }

  /** An `#RRGGBB` literal of hex digits: each channel is the value of its
      own two digits. */
  lemma DecodeRgbDigits(t: string)
    requires |t| == 6 && AllHexDigits(t)
    ensures DecodeTrimmed(t) == Argb(255, HexValue(t[0..2]), HexValue(t[2..4]), HexValue(t[4..6]))
  {
    SixDigits(t);
    PackingIsUnique(DecodeTrimmed(t), Argb(255, HexValue(t[0..2]), HexValue(t[2..4]), HexValue(t[4..6])));
  }

  /** An `#AARRGGBB` literal of hex digits: each channel is the value of
      its own two digits. */
  lemma DecodeArgbDigits(t: string)
    requires |t| == 8 && AllHexDigits(t)
    ensures DecodeTrimmed(t) == Argb(HexValue(t[0..2]), HexValue(t[2..4]), HexValue(t[4..6]), HexValue(t[6..8]))
  {
    EightDigits(t);
    PackingIsUnique(DecodeTrimmed(t), Argb(HexValue(t[0..2]), HexValue(t[2..4]), HexValue(t[4..6]), HexValue(t[6..8])));
  }
}
