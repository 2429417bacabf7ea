/**
 * Python's integer formatting as the programs use it: `{:02x}` for colour
 * fields and `{:02d}` for clock fields, plus the `HH:MM:SS` clock string.
 * The digit values (`HexValue`, `DecValue`) are the reading side against
 * which the formatting is proved.
 */
module Format {

  /** A lowercase hexadecimal digit for 0..15, as `format` writes it. */
  function HexDigit(d: int): (c: char)
    requires 0 <= d < 16
    ensures IsLowerHex(c) && HexCharValue(c) == d
  {
    if d < 10 then ('0' as int + d) as char else ('a' as int + d - 10) as char
  }

  predicate IsLowerHex(c: char) {
    '0' <= c <= '9' || 'a' <= c <= 'f'
  }

  /** The characters `int(..., 16)` reads as digits: both letter cases. */
  predicate IsHexChar(c: char) {
    '0' <= c <= '9' || 'a' <= c <= 'f' || 'A' <= c <= 'F'
  }

  predicate AllHex(s: string) {
    forall i :: 0 <= i < |s| ==> IsHexChar(s[i])
  }

  function HexCharValue(c: char): (v: nat)
    requires IsHexChar(c)
    ensures v < 16
  {
    if '0' <= c <= '9' then c as int - '0' as int
    else if 'a' <= c <= 'f' then c as int - 'a' as int + 10
    else c as int - 'A' as int + 10
  }

  /** The value of a string of hexadecimal digits, most significant first. */
  function HexValue(s: string): nat
    requires AllHex(s)
  {
    if s == [] then 0 else HexValue(s[..|s| - 1]) * 16 + HexCharValue(s[|s| - 1])
  }

  /** The shortest lowercase hexadecimal spelling of `n`, as `format(n, 'x')`. */
  function HexDigits(n: nat): (s: string)
    ensures |s| >= 1
  {
    if n < 16 then [HexDigit(n)] else HexDigits(n / 16) + [HexDigit(n % 16)]
  }

  /** Zero padding on the left up to `width` characters; a longer string is kept whole. */
  function PadLeft(s: string, width: nat): (r: string)
    ensures |r| == if |s| >= width then |s| else width
    decreases width - |s|
  {
    if |s| >= width then s else PadLeft("0" + s, width)
  }

  /**
   * `'{:02x}'.format(n)`: at least two digits, zero-filled; the `0` flag pads
   * after the sign, so a negative number takes the sign and its digits unpadded.
   */
  function Format02x(n: int): string {
    if n < 0 then "-" + HexDigits(-n) else PadLeft(HexDigits(n), 2)
  }

  /** Two lowercase hexadecimal digits of a byte value. */
  function HexByte(k: int): (s: string)
    requires 0 <= k < 256
    ensures |s| == 2 && IsLowerHex(s[0]) && IsLowerHex(s[1])
  {
    [HexDigit(k / 16), HexDigit(k % 16)]
  }

  /** Formatting in hexadecimal and reading back gives the number, for every `n`. */
  lemma {:induction false} HexDigitsValue(n: nat)
    ensures AllHex(HexDigits(n)) && HexValue(HexDigits(n)) == n
  {
    var s := HexDigits(n);
    if n >= 16 {
      HexDigitsValue(n / 16);
      assert s[..|s| - 1] == HexDigits(n / 16);
    }
  }

  /** A leading zero does not change the value of a hexadecimal string. */
  lemma {:induction false} HexValueLeadingZero(s: string)
    requires AllHex(s)
    ensures AllHex("0" + s) && HexValue("0" + s) == HexValue(s)
    decreases |s|
  {
    var p := "0" + s;
    if s != [] {
      assert p[..|p| - 1] == "0" + s[..|s| - 1];
      HexValueLeadingZero(s[..|s| - 1]);
    } else {
      assert p[..0] == [];
    }
  }

  /** Zero padding does not change the value of a hexadecimal string. */
  lemma {:induction false} HexValuePadLeft(s: string, width: nat)
    requires AllHex(s)
    ensures AllHex(PadLeft(s, width)) && HexValue(PadLeft(s, width)) == HexValue(s)
    decreases width - |s|
  {
    if |s| < width {
      HexValueLeadingZero(s);
      HexValuePadLeft("0" + s, width);
    }
  }

  /** For a non-negative `n`, `{:02x}` reads back as `n` and has at least two digits. */
  lemma Format02xValue(n: nat)
    ensures |Format02x(n)| >= 2 && AllHex(Format02x(n)) && HexValue(Format02x(n)) == n
  {
    HexDigitsValue(n);
    HexValuePadLeft(HexDigits(n), 2);
  }

  /** For a byte, `{:02x}` is exactly two lowercase digits: the high and the low nibble. */
  lemma Format02xByte(k: int)
    requires 0 <= k < 256
    ensures Format02x(k) == HexByte(k)
  {
    if k >= 16 {
      assert HexDigits(k / 16) == [HexDigit(k / 16)];
    } else {
      assert PadLeft("0" + [HexDigit(k)], 2) == "0" + [HexDigit(k)];
    }
  }

  /** Two hexadecimal characters denote a byte; the lowercase ones are the spelling `HexByte` writes. */
  lemma HexByteValue(s: string)
    requires |s| == 2 && AllHex(s)
    ensures HexValue(s) < 256
    ensures IsLowerHex(s[0]) && IsLowerHex(s[1]) ==> HexByte(HexValue(s)) == s
  {
    TwoHexDigits(s);
    var hi, lo := HexCharValue(s[0]), HexCharValue(s[1]);
    assert (hi * 16 + lo) / 16 == hi && (hi * 16 + lo) % 16 == lo;
    if IsLowerHex(s[0]) && IsLowerHex(s[1]) {
      LowerHexDigitValue(s[0]);
      LowerHexDigitValue(s[1]);
    }
  }

  /** A lowercase digit is the one `HexDigit` writes for its value. */
  lemma LowerHexDigitValue(c: char)
    requires IsLowerHex(c)
    ensures HexDigit(HexCharValue(c)) == c
  {
  }

  /** The value of two hexadecimal characters: high digit times 16 plus low digit. */
  lemma TwoHexDigits(s: string)
    requires |s| == 2 && AllHex(s)
    ensures HexValue(s) == HexCharValue(s[0]) * 16 + HexCharValue(s[1])
  {
    assert s[..1][..0] == [];
    assert HexValue(s[..1]) == HexCharValue(s[0]);
  }

  /** Reading the two digits written for a byte gives the byte. */
  lemma HexByteRoundTrip(k: int)
    requires 0 <= k < 256
    ensures AllHex(HexByte(k)) && HexValue(HexByte(k)) == k
  {
    TwoHexDigits(HexByte(k));
  }

  // ---------------------------------------------------------------- decimal

  function DecDigit(d: int): (c: char)
    requires 0 <= d < 10
    ensures IsDigit(c) && c as int - '0' as int == d
  {
    ('0' as int + d) as char
  }

  predicate IsDigit(c: char) {
    '0' <= c <= '9'
  }

  predicate AllDigits(s: string) {
    forall i :: 0 <= i < |s| ==> IsDigit(s[i])
  }

  /** The value of a string of decimal digits, most significant first. */
  function DecValue(s: string): nat
    requires AllDigits(s)
  {
    if s == [] then 0 else DecValue(s[..|s| - 1]) * 10 + (s[|s| - 1] as int - '0' as int)
  }

  /** The shortest decimal spelling of `n`, as `format(n, 'd')`. */
  function DecDigits(n: nat): (s: string)
    ensures |s| >= 1 && AllDigits(s)
  {
    if n < 10 then [DecDigit(n)] else DecDigits(n / 10) + [DecDigit(n % 10)]
  }

  /** `'{:02d}'.format(n)` for the non-negative fields of a clock time. */
  function Format02d(n: nat): string {
    PadLeft(DecDigits(n), 2)
  }

  /** Formatting in decimal and reading back gives the number, for every `n`. */
  lemma {:induction false} DecDigitsValue(n: nat)
    ensures DecValue(DecDigits(n)) == n
  {
    var s := DecDigits(n);
    if n >= 10 {
      DecDigitsValue(n / 10);
      assert s[..|s| - 1] == DecDigits(n / 10);
    }
  }

  /** Below 100, `{:02d}` is exactly two digits that read back as the number. */
  lemma Format02dField(n: nat)
    requires n < 100
    ensures |Format02d(n)| == 2 && AllDigits(Format02d(n)) && DecValue(Format02d(n)) == n
  {
    var f := Format02d(n);
    if n >= 10 {
      assert DecDigits(n / 10) == [DecDigit(n / 10)];
      assert f == [DecDigit(n / 10), DecDigit(n % 10)];
    } else {
      assert PadLeft("0" + [DecDigit(n)], 2) == "0" + [DecDigit(n)];
      assert f == [DecDigit(0), DecDigit(n % 10)];
    }
    assert f[..1][..0] == [];
    assert DecValue(f[..1]) == f[0] as int - '0' as int;
  }

  /** The clock text `f"{hours:02d}:{minutes:02d}:{seconds:02d}"`. */
  function TimeString(hours: nat, minutes: nat, seconds: nat): string {
    Format02d(hours) + ":" + Format02d(minutes) + ":" + Format02d(seconds)
  }

  /**
   * For a wall-clock time the text is eight characters `HH:MM:SS`: colons at
   * 2 and 5, digits elsewhere, and each field reads back as its number.
   */
  lemma TimeStringFields(hours: nat, minutes: nat, seconds: nat)
    requires hours < 24 && minutes < 60 && seconds < 60
    ensures var t := TimeString(hours, minutes, seconds);
      && |t| == 8 && t[2] == ':' && t[5] == ':'
      && AllDigits(t[0..2]) && AllDigits(t[3..5]) && AllDigits(t[6..8])
      && DecValue(t[0..2]) == hours && DecValue(t[3..5]) == minutes && DecValue(t[6..8]) == seconds
  {
    var t := TimeString(hours, minutes, seconds);
    Format02dField(hours);
    Format02dField(minutes);
    Format02dField(seconds);
    assert t[0..2] == Format02d(hours);
    assert t[3..5] == Format02d(minutes);
    assert t[6..8] == Format02d(seconds);
  }
}
