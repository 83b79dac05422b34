/**
 The decoder on particular literals: the app's brand colour, the short white,
 an eight-digit colour with half alpha, the fallbacks, and a literal whose
 interior punctuation survives trimming.
 */
module ColorExamples {
  import opened Trimming
  import opened HexScan
  import opened HexColor

  /** The brand purple used for titles, icons and the splash background. */
  lemma BrandPurple()
    ensures Decode("#4B0082") == Argb(255, 0x4B, 0x00, 0x82)
  {
    var t := "4B0082";
    assert "#4B0082" == "#" + t;
    BrandPurpleBytes();
    TrimHashPrefix(t);
    DecodeRgbDigits(t);
  }

  lemma BrandPurpleBytes()
    ensures AllHexDigits("4B0082")
    ensures var t := "4B0082";
      HexValue(t[0..2]) == 0x4B && HexValue(t[2..4]) == 0x00 && HexValue(t[4..6]) == 0x82
  {
    var t := "4B0082";
    assert t[0] == '4' && t[1] == 'B' && t[2] == '0' && t[3] == '0' && t[4] == '8' && t[5] == '2';
    ByteValue(t[0..2]);
    ByteValue(t[2..4]);
    ByteValue(t[4..6]);
  }

  lemma WhiteShorthand()
    ensures Decode("#fff") == Argb(255, 255, 255, 255)
  {
    var t := "fff";
    assert "#fff" == "#" + t;
    assert t[0] == 'f' && t[1] == 'f' && t[2] == 'f';
    assert AllHexDigits(t);
    TrimHashPrefix(t);
    DecodeShorthandDigits(t);
  }

  lemma HalfAlphaWhite()
    ensures Decode("#80FFFFFF") == Argb(128, 255, 255, 255)
  {
    var t := "80FFFFFF";
    assert "#80FFFFFF" == "#" + t;
    HalfAlphaWhiteBytes();
    TrimHashPrefix(t);
    DecodeArgbDigits(t);
  }

  lemma HalfAlphaWhiteBytes()
    ensures AllHexDigits("80FFFFFF")
    ensures var t := "80FFFFFF";
      HexValue(t[0..2]) == 0x80 && HexValue(t[2..4]) == 0xFF
      && HexValue(t[4..6]) == 0xFF && HexValue(t[6..8]) == 0xFF
  {
    var t := "80FFFFFF";
    assert t[0] == '8' && t[1] == '0' && t[2] == 'F' && t[3] == 'F';
    assert t[4] == 'F' && t[5] == 'F' && t[6] == 'F' && t[7] == 'F';
    ByteValue(t[0..2]);
    ByteValue(t[2..4]);
    ByteValue(t[4..6]);
    ByteValue(t[6..8]);
  }

  lemma EmptyIsBlack()
    ensures Decode("") == OpaqueBlack
  {
  }

  /** Only the ends are trimmed: the interior dashes stay, eleven
      characters remain, and the literal falls back to black. */
  lemma WordsAreBlack()
    ensures Trim("not-a-color!!") == "not-a-color"
    ensures Decode("not-a-color!!") == OpaqueBlack
  {
    TrimOfPadded("", "not-a-color", "!!");
    assert "" + "not-a-color" + "!!" == "not-a-color!!";
  }

  /** Trimming keeps the interior dash, so three characters remain and the
      literal takes the shorthand branch; scanning stops at the dash and
      reads the value 1. */
  lemma InteriorDashKept()
    ensures Trim("#1-2") == "1-2"
    ensures Decode("#1-2") == Argb(255, 0, 0, 17)
  {
    TrimOfPadded("#", "1-2", "");
    assert "#" + "1-2" + "" == "#1-2";
    DashStopsScan();
    ShorthandPackingIsUnique(Decode("#1-2"), Argb(255, 0, 0, 17));
  }

  lemma DashStopsScan()
    ensures ScanHex("1-2") == 1
  {
    ScanHexStopsAtNonDigit("1", '-', "2");
    assert "1" + ['-'] + "2" == "1-2";
    assert HexValue("1") == 1;
  }

  lemma ByteValue(s: string)
    requires |s| == 2 && AllHexDigits(s)
    ensures HexValue(s) == 16 * DigitValue(s[0]) + DigitValue(s[1])
  {
    assert s[..1][..0] == [];
  }
}
