/**
 Hexadecimal scanning of a trimmed colour literal: the value of the longest
 leading run of hex digits, or 0 when the string does not start with one.
 A formatter that writes a value as a fixed number of hex digits is the
 scanner's partner: scanning what it writes gives the value back.
 */
module HexScan {
  import opened Trimming

  predicate IsHexDigit(c: char) {
    ('0' <= c <= '9') || ('a' <= c <= 'f') || ('A' <= c <= 'F')
  }

  predicate AllHexDigits(s: string) {
    forall i :: 0 <= i < |s| ==> IsHexDigit(s[i])
  }

  /** The value of one hex digit; upper and lower case letters agree. */
  function DigitValue(c: char): (d: nat)
    requires IsHexDigit(c)
    ensures d < 16
    ensures d < 10 <==> '0' <= c <= '9'
  {
    if '0' <= c <= '9' then c as int - '0' as int
    else if 'a' <= c <= 'f' then c as int - 'a' as int + 10
    else c as int - 'A' as int + 10
  }

  /** The lower-case digit for a value below 16. */
  function DigitChar(d: nat): (c: char)
    requires d < 16
    ensures IsHexDigit(c) && DigitValue(c) == d
    ensures IsAlphanumeric(c)
  {
    if d < 10 then ('0' as int + d) as char else ('a' as int + d - 10) as char
  }

  function Pow16(n: nat): (p: nat)
    ensures p >= 1
  {
    if n == 0 then 1 else 16 * Pow16(n - 1)
  }

  lemma {:induction false} Pow16Monotonic(m: nat, n: nat)
    requires m <= n
    ensures Pow16(m) <= Pow16(n)
  {
    if m < n {
      Pow16Monotonic(m, n - 1);
    }
  }

  /** The value of a run of hex digits, most significant digit first. */
  function HexValue(ds: string): (v: nat)
    requires AllHexDigits(ds)
    ensures v < Pow16(|ds|)
  {
    if ds == [] then 0
    else
      var high := HexValue(ds[..|ds| - 1]);
      assert high <= Pow16(|ds| - 1) - 1;
      16 * high + DigitValue(ds[|ds| - 1])
  }

  /** How many hex digits `s` starts with. */
  function HexPrefixLength(s: string): (n: nat)
    ensures n <= |s|
    ensures AllHexDigits(s[..n])
    ensures n < |s| ==> !IsHexDigit(s[n])
  {
    if s != [] && IsHexDigit(s[0]) then
      var n := 1 + HexPrefixLength(s[1..]);
      assert s[..n] == [s[0]] + s[1..][..n - 1];
      n
    else 0
  }

  /** The scanned value: that of the longest leading run of hex digits, 0 if
      there is none. It has fewer digits than the string has characters. */
  function ScanHex(s: string): (v: nat)
    ensures v < Pow16(|s|)
    ensures AllHexDigits(s) ==> v == HexValue(s)
    ensures s == [] || !IsHexDigit(s[0]) ==> v == 0
  {
    var n := HexPrefixLength(s);
    Pow16Monotonic(n, |s|);
    assert AllHexDigits(s) ==> s[..n] == s;
    HexValue(s[..n])
  }

  /** The prefix length is the only one that fits its description. */
  lemma {:induction false} HexPrefixLengthIs(s: string, n: nat)
    requires n <= |s| && AllHexDigits(s[..n]) && (n < |s| ==> !IsHexDigit(s[n]))
    ensures HexPrefixLength(s) == n
  {
    if n > 0 {
      assert s[..n][0] == s[0];
      assert s[1..][..n - 1] == s[..n][1..];
      HexPrefixLengthIs(s[1..], n - 1);
    }
  }

  /** Scanning stops at the first character that is not a hex digit. */
  lemma ScanHexStopsAtNonDigit(ds: string, c: char, rest: string)
    requires AllHexDigits(ds) && !IsHexDigit(c)
    ensures ScanHex(ds + [c] + rest) == HexValue(ds)
  {
    var s := ds + [c] + rest;
    assert s[..|ds|] == ds;
    assert s[|ds|] == c;
    HexPrefixLengthIs(s, |ds|);
  }

  /** `v` written with exactly `width` lower-case hex digits, zero padded. */
  function ToHex(v: nat, width: nat): (s: string)
    requires v < Pow16(width)
    ensures |s| == width
    ensures AllHexDigits(s) && HexValue(s) == v
    ensures forall i :: 0 <= i < |s| ==> IsAlphanumeric(s[i])
  {
    if width == 0 then []
    else
      assert v / 16 < Pow16(width - 1);
      var high := ToHex(v / 16, width - 1);
      var s := high + [DigitChar(v % 16)];
      assert s[..|s| - 1] == high;
      assert forall i :: 0 <= i < |high| ==> s[i] == high[i];
      s
  }

  /** Round trip: scanning what the formatter writes gives the value back. */
  lemma ScanToHex(v: nat, width: nat)
    requires v < Pow16(width)
    ensures ScanHex(ToHex(v, width)) == v
  {
  }

  /** Digits split anywhere: the high part is shifted left by the width of
      the low part. */
  lemma {:induction false} HexValueConcat(x: string, y: string)
    requires AllHexDigits(x) && AllHexDigits(y)
    ensures AllHexDigits(x + y)
    ensures HexValue(x + y) == HexValue(x) * Pow16(|y|) + HexValue(y)
  {
    assert AllHexDigits(x + y) by {
      forall i | 0 <= i < |x + y|
        ensures IsHexDigit((x + y)[i])
      {
        if i >= |x| {
          assert (x + y)[i] == y[i - |x|];
        }
      }
    }
    if y == [] {
      assert x + y == x;
    } else {
      var y' := y[..|y| - 1];
      var last := y[|y| - 1];
      assert (x + y)[..|x + y| - 1] == x + y';
      HexValueConcat(x, y');
      var hx, hy', p := HexValue(x), HexValue(y'), Pow16(|y'|);
      assert HexValue(x + y) == 16 * (hx * p + hy') + DigitValue(last);
      assert HexValue(y) == 16 * hy' + DigitValue(last);
      assert Pow16(|y|) == 16 * p;
      ShiftDigit(hx, p);
    }
  }

  /** Splitting a run of digits at any point. */
  lemma HexValueSplit(t: string, k: nat)
    requires AllHexDigits(t) && k <= |t|
    ensures AllHexDigits(t[..k]) && AllHexDigits(t[k..])
    ensures HexValue(t) == HexValue(t[..k]) * Pow16(|t| - k) + HexValue(t[k..])
  {
    assert t[..k] + t[k..] == t;
    HexValueConcat(t[..k], t[k..]);
  }

  lemma ShiftDigit(h: nat, p: nat)
    ensures 16 * (h * p) == h * (16 * p)
  {
  }
}
