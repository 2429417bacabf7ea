/**
 * The colour codec of the clocks: `rgb_to_hex` writes three channels in
 * [0, 1] as `#rrggbb` through `int(c * 255)` and `{:02x}`; `rgb_from_hex`
 * strips leading `#` and reads three two-character hexadecimal fields as
 * `k / 255`. Channels are exact reals here.
 */
module ColorCodec {
  import opened Wrappers
  import opened Format

  /** An RGB triple as the programs pass it around (a tuple or list of three floats). */
  datatype Rgb = Rgb(red: real, green: real, blue: real)

  /** Python's `int(x)` on a float: truncation toward zero. */
  function Trunc(x: real): int {
    if x >= 0.0 then x.Floor else -((-x).Floor)
  }

  /** `int(x)` drops the fraction: it is the integer next to `x` on the side of zero. */
  lemma TruncTowardZero(x: real)
    ensures 0.0 <= x ==> Trunc(x) as real <= x < Trunc(x) as real + 1.0
    ensures x < 0.0 ==> Trunc(x) as real - 1.0 < x <= Trunc(x) as real
    ensures Trunc(-x) == -Trunc(x)
  {
  }

  predicate InUnit(x: real) {
    0.0 <= x <= 1.0
  }

  /** All three channels lie in [0, 1], as `colorsys` and the tween produce them. */
  predicate RgbInUnit(c: Rgb) {
    InUnit(c.red) && InUnit(c.green) && InUnit(c.blue)
  }

  /** A channel of the form `k / 255` for a byte `k`: what the decoder returns. */
  predicate OnGrid(x: real) {
    InUnit(x) && (x * 255.0).Floor as real == x * 255.0
  }

  predicate RgbOnGrid(c: Rgb) {
    OnGrid(c.red) && OnGrid(c.green) && OnGrid(c.blue)
  }

  /** The byte `int(x * 255)` that the encoder writes for a channel. */
  function ChannelByte(x: real): int {
    Trunc(x * 255.0)
  }

  /** `rgb_to_hex`. */
  function RgbToHex(c: Rgb): string {
    "#" + Format02x(ChannelByte(c.red)) + Format02x(ChannelByte(c.green)) + Format02x(ChannelByte(c.blue))
  }

  /** A string of the shape the encoder writes for channels in [0, 1]: `#` and six lowercase hex digits. */
  predicate IsHexColor(s: string) {
    && |s| == 7 && s[0] == '#'
    && IsLowerHex(s[1]) && IsLowerHex(s[2]) && IsLowerHex(s[3])
    && IsLowerHex(s[4]) && IsLowerHex(s[5]) && IsLowerHex(s[6])
  }

  /** `s.lstrip('#')`: every leading `#` is removed, nothing else. */
  function LStripHash(s: string): string {
    if s != [] && s[0] == '#' then LStripHash(s[1..]) else s
  }

  /** The strip leaves a suffix that does not start with `#`, and everything it removed was `#`. */
  lemma {:induction false} LStripHashSuffix(s: string)
    ensures var r := LStripHash(s);
      && |r| <= |s| && r == s[|s| - |r|..]
      && (forall i :: 0 <= i < |s| - |r| ==> s[i] == '#')
      && (r == [] || r[0] != '#')
  {
    if s != [] && s[0] == '#' {
      var t := s[1..];
      LStripHashSuffix(t);
      var r := LStripHash(t);
      assert LStripHash(s) == r;
      assert s[|s| - |r|..] == t[|t| - |r|..];
      forall i | 0 <= i < |s| - |r|
        ensures s[i] == '#'
      {
        if i > 0 {
          assert s[i] == t[i - 1];
        }
      }
    }
  }

  /** Python's slice `s[i:j]` for non-negative bounds: the bounds are clamped to the length. */
  function Slice(s: string, i: nat, j: nat): string {
    var lo := if i <= |s| then i else |s|;
    var hi := if j <= |s| then j else |s|;
    if lo <= hi then s[lo..hi] else []
  }

  /** `int(field, 16)` on a field of hex digits; `None` stands for the `ValueError` it raises otherwise. */
  function ParseHexField(f: string): Option<nat> {
    if f != [] && AllHex(f) then Some(HexValue(f)) else None
  }

  /** The field at offset `i` is present and made of hex digits, so `int(field, 16)` succeeds. */
  predicate FieldParses(s: string, i: nat) {
    Slice(s, i, i + 2) != [] && AllHex(Slice(s, i, i + 2))
  }

  /** The channel `int(field, 16) / 255`. */
  function FieldChannel(s: string, i: nat): Option<real> {
    match ParseHexField(Slice(s, i, i + 2))
    case None => None
    case Some(k) => Some(k as real / 255.0)
  }

  /**
   * `rgb_from_hex`: strip leading `#`, read the fields at offsets 0, 2 and 4.
   * It fails when a field is empty or holds a character that is not a hex
   * digit; characters after the sixth are ignored.
   */
  function RgbFromHex(hex: string): Option<Rgb> {
    var h := LStripHash(hex);
    var red := FieldChannel(h, 0);
    var green := FieldChannel(h, 2);
    var blue := FieldChannel(h, 4);
    if red.Some? && green.Some? && blue.Some? then
      Some(Rgb(red.value, green.value, blue.value))
    else None
  }

  /** A decoded field, at most two digits, is a byte over 255. */
  lemma FieldOnGrid(s: string, i: nat)
    requires FieldChannel(s, i).Some?
    ensures OnGrid(FieldChannel(s, i).value)
  {
    var f := Slice(s, i, i + 2);
    assert |f| <= 2;
    assert ParseHexField(f).Some?;
    var k := HexValue(f);
    assert FieldChannel(s, i).value == k as real / 255.0;
    if |f| == 1 {
      assert f[..|f| - 1] == [];
      assert HexValue(f) == HexValue(f[..|f| - 1]) * 16 + HexCharValue(f[0]);
    } else {
      HexByteValue(f);
    }
    assert k as real / 255.0 * 255.0 == k as real;
  }

  /**
   * `rgb_from_hex` succeeds exactly when the three fields after the
   * stripped `#` are present and made of hex digits, and then every channel
   * is some `k / 255` with `k` a byte, hence in [0, 1].
   */
  lemma RgbFromHexResult(hex: string)
    ensures var h := LStripHash(hex);
      RgbFromHex(hex).Some? <==> FieldParses(h, 0) && FieldParses(h, 2) && FieldParses(h, 4)
    ensures RgbFromHex(hex).Some? ==> RgbOnGrid(RgbFromHex(hex).value)
  {
    var h := LStripHash(hex);
    if RgbFromHex(hex).Some? {
      FieldOnGrid(h, 0);
      FieldOnGrid(h, 2);
      FieldOnGrid(h, 4);
    }
  }

  /** A channel in [0, 1] is written as the byte `int(x * 255)`, which lies in 0..255. */
  lemma ChannelByteRange(x: real)
    requires InUnit(x)
    ensures 0 <= ChannelByte(x) < 256
  {
  }

  /** The spelling `#rrggbb` of three bytes. */
  function HexBytes(r: int, g: int, b: int): string
    requires 0 <= r < 256 && 0 <= g < 256 && 0 <= b < 256
  {
    "#" + HexByte(r) + HexByte(g) + HexByte(b)
  }

  /** The spelling of three bytes has encoder shape, and its fields read back as the bytes. */
  lemma HexBytesFields(r: int, g: int, b: int)
    requires 0 <= r < 256 && 0 <= g < 256 && 0 <= b < 256
    ensures var s := HexBytes(r, g, b);
      && IsHexColor(s)
      && AllHex(s[1..3]) && HexValue(s[1..3]) == r
      && AllHex(s[3..5]) && HexValue(s[3..5]) == g
      && AllHex(s[5..7]) && HexValue(s[5..7]) == b
  {
    HexByteRoundTrip(r);
    HexByteRoundTrip(g);
    HexByteRoundTrip(b);
    HexColorParts(HexByte(r), HexByte(g), HexByte(b));
  }

  /** For channels in [0, 1] the encoder writes each channel as the two-digit byte `int(channel * 255)`. */
  lemma RgbToHexBytes(c: Rgb)
    requires RgbInUnit(c)
    ensures 0 <= ChannelByte(c.red) < 256 && 0 <= ChannelByte(c.green) < 256 && 0 <= ChannelByte(c.blue) < 256
    ensures RgbToHex(c) == HexBytes(ChannelByte(c.red), ChannelByte(c.green), ChannelByte(c.blue))
  {
    var r, g, b := ChannelByte(c.red), ChannelByte(c.green), ChannelByte(c.blue);
    ChannelByteRange(c.red);
    ChannelByteRange(c.green);
    ChannelByteRange(c.blue);
    Format02xByte(r);
    Format02xByte(g);
    Format02xByte(b);
  }

  /**
   * For channels in [0, 1] the encoder writes `#` and three two-digit
   * lowercase fields, and each field reads back as `int(channel * 255)`.
   */
  lemma RgbToHexFields(c: Rgb)
    requires RgbInUnit(c)
    ensures var s := RgbToHex(c);
      && IsHexColor(s)
      && AllHex(s[1..3]) && HexValue(s[1..3]) == ChannelByte(c.red)
      && AllHex(s[3..5]) && HexValue(s[3..5]) == ChannelByte(c.green)
      && AllHex(s[5..7]) && HexValue(s[5..7]) == ChannelByte(c.blue)
  {
    RgbToHexBytes(c);
    HexBytesFields(ChannelByte(c.red), ChannelByte(c.green), ChannelByte(c.blue));
  }

  /** `#` followed by three two-digit lowercase fields has encoder shape, and its fields are those three. */
  lemma HexColorParts(a: string, b: string, c: string)
    requires |a| == 2 && |b| == 2 && |c| == 2
    requires IsLowerHex(a[0]) && IsLowerHex(a[1]) && IsLowerHex(b[0]) && IsLowerHex(b[1])
    requires IsLowerHex(c[0]) && IsLowerHex(c[1])
    ensures var s := "#" + a + b + c;
      IsHexColor(s) && s[1..3] == a && s[3..5] == b && s[5..7] == c
  {
  }

  /** On a string of encoder shape the strip removes exactly the one `#`. */
  lemma StripHexColor(s: string)
    requires IsHexColor(s)
    ensures LStripHash(s) == s[1..]
  {
  }

  /** Decoding a string of encoder shape succeeds and gives each field's value over 255. */
  lemma RgbFromHexColor(s: string)
    requires IsHexColor(s)
    ensures AllHex(s[1..3]) && AllHex(s[3..5]) && AllHex(s[5..7])
    ensures RgbFromHex(s) == Some(Rgb(HexValue(s[1..3]) as real / 255.0,
                                      HexValue(s[3..5]) as real / 255.0,
                                      HexValue(s[5..7]) as real / 255.0))
  {
    StripHexColor(s);
    var h := s[1..];
    assert Slice(h, 0, 2) == s[1..3];
    assert Slice(h, 2, 4) == s[3..5];
    assert Slice(h, 4, 6) == s[5..7];
  }

  /** A channel `k / 255` is written as the byte `k`. */
  lemma ChannelByteOnGrid(x: real)
    requires OnGrid(x)
    ensures ChannelByte(x) as real / 255.0 == x
  {
  }

  /** Decoding the spelling of three bytes gives those bytes over 255. */
  lemma RgbFromHexBytes(r: int, g: int, b: int)
    requires 0 <= r < 256 && 0 <= g < 256 && 0 <= b < 256
    ensures RgbFromHex(HexBytes(r, g, b)) == Some(Rgb(r as real / 255.0, g as real / 255.0, b as real / 255.0))
  {
    var s := HexBytes(r, g, b);
    HexBytesFields(r, g, b);
    RgbFromHexColor(s);
    assert HexValue(s[1..3]) == r && HexValue(s[3..5]) == g && HexValue(s[5..7]) == b;
  }

  /** Round trip: channels of the form `k / 255` survive encoding and decoding unchanged. */
  lemma HexRoundTrip(c: Rgb)
    requires RgbOnGrid(c)
    ensures RgbFromHex(RgbToHex(c)) == Some(c)
  {
    var r, g, b := ChannelByte(c.red), ChannelByte(c.green), ChannelByte(c.blue);
    RgbToHexBytes(c);
    assert RgbFromHex(RgbToHex(c)) == RgbFromHex(HexBytes(r, g, b));
    RgbFromHexBytes(r, g, b);
    assert Rgb(r as real / 255.0, g as real / 255.0, b as real / 255.0) == c by {
      ChannelByteOnGrid(c.red);
      ChannelByteOnGrid(c.green);
      ChannelByteOnGrid(c.blue);
    }
  }

  /** A string of encoder shape is the spelling of its three fields. */
  lemma HexColorIsHexBytes(s: string)
    requires IsHexColor(s)
    ensures AllHex(s[1..3]) && AllHex(s[3..5]) && AllHex(s[5..7])
    ensures HexValue(s[1..3]) < 256 && HexValue(s[3..5]) < 256 && HexValue(s[5..7]) < 256
    ensures s == HexBytes(HexValue(s[1..3]), HexValue(s[3..5]), HexValue(s[5..7]))
  {
    HexByteValue(s[1..3]);
    HexByteValue(s[3..5]);
    HexByteValue(s[5..7]);
    assert s == "#" + s[1..3] + s[3..5] + s[5..7];
  }

  /**
   * The three fields of a string of encoder shape are hex digits with values
   * below 256: the part of `HexColorIsHexBytes` that `FieldByte` needs, kept
   * small because it is unfolded with every use of `FieldByte`.
   */
  lemma HexColorFieldsHex(s: string)
    requires IsHexColor(s)
    ensures AllHex(s[1..3]) && AllHex(s[3..5]) && AllHex(s[5..7])
    ensures HexValue(s[1..3]) < 256 && HexValue(s[3..5]) < 256 && HexValue(s[5..7]) < 256
  {
    HexByteValue(s[1..3]);
    HexByteValue(s[3..5]);
    HexByteValue(s[5..7]);
  }

  /** Field `i` (0 red, 1 green, 2 blue) of a string of encoder shape, as a byte. */
  function FieldByte(s: string, i: nat): (k: int)
    requires IsHexColor(s) && i < 3
    ensures 0 <= k < 256
  {
    HexColorFieldsHex(s);
    if i == 0 then HexValue(s[1..3]) else if i == 1 then HexValue(s[3..5]) else HexValue(s[5..7])
  }

  /** The colour whose channels are the byte fields of `s` over 255. */
  function FieldsRgb(s: string): Rgb
    requires IsHexColor(s)
  {
    Rgb(FieldByte(s, 0) as real / 255.0, FieldByte(s, 1) as real / 255.0, FieldByte(s, 2) as real / 255.0)
  }

  /**
   * `RgbFromHexColor` with the fields read through `FieldByte`, the form the
   * colour-tick lemmas reason in.
   */
  lemma DecodeHexFields(s: string)
    requires IsHexColor(s)
    ensures RgbFromHex(s) == Some(FieldsRgb(s))
  {
    RgbFromHexColor(s);
  }

  /** Round trip the other way: a string of encoder shape is decoded and re-encoded to itself. */
  lemma HexStringRoundTrip(s: string)
    requires IsHexColor(s)
    ensures RgbFromHex(s).Some? && RgbOnGrid(RgbFromHex(s).value)
    ensures RgbToHex(RgbFromHex(s).value) == s
  {
    HexColorIsHexBytes(s);
    var r, g, b := HexValue(s[1..3]), HexValue(s[3..5]), HexValue(s[5..7]);
    RgbFromHexBytes(r, g, b);
    var c := Rgb(r as real / 255.0, g as real / 255.0, b as real / 255.0);
    RgbToHexBytes(c);
    assert ChannelByte(c.red) == r && ChannelByte(c.green) == g && ChannelByte(c.blue) == b;
    assert RgbOnGrid(c);
  }

  /** Channels in [0, 1] are encoded in the shape `#rrggbb`. */
  lemma RgbToHexShape(c: Rgb)
    requires RgbInUnit(c)
    ensures IsHexColor(RgbToHex(c))
  {
    RgbToHexFields(c);
  }

  /**
   * `hsl_to_rgb`'s output step (both programs define it alike), applied to
   * the channels `colorsys.hls_to_rgb` returned: for channels in [0, 1],
   * `#` and three two-digit lowercase fields, each `int(x * 255)`.
   */
  function HslToRgb(rgb: Rgb): (hex: string)
    ensures RgbInUnit(rgb) ==> IsHexColor(hex)
    ensures RgbInUnit(rgb) ==>
      && AllHex(hex[1..3]) && HexValue(hex[1..3]) == ChannelByte(rgb.red)
      && AllHex(hex[3..5]) && HexValue(hex[3..5]) == ChannelByte(rgb.green)
      && AllHex(hex[5..7]) && HexValue(hex[5..7]) == ChannelByte(rgb.blue)
  {
    if RgbInUnit(rgb) then RgbToHexFields(rgb); RgbToHex(rgb) else RgbToHex(rgb)
  }
}
