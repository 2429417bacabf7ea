/**
 * The second program: the circuit's hue only sets a target colour, and a
 * faster tick moves the displayed colour toward it one step at a time,
 * re-encoding it through hex and copying it into every zone.
 */
module InterpolatedClock {
  import opened Zones
  import opened Format
  import opened ColorCodec
  import opened Tween
  import opened ZoneColors
  import opened ClockFace

  /**
   * The colour of `update_color`: decode the current and the target colour,
   * step every channel toward its target, and encode the result again.
   */
  function NextColor(current: string, target: string): (next: string)
    requires IsHexColor(current) && IsHexColor(target)
    ensures IsHexColor(next)
  {
    HexStringRoundTrip(current);
    HexStringRoundTrip(target);
    var stepped := TweenRgb(RgbFromHex(current).value, RgbFromHex(target).value);
    RgbToHexShape(stepped);
    RgbToHex(stepped)
  }

  /** `update_color` steps from the byte fields of both colours over 255. */
  lemma NextColorDecoded(current: string, target: string)
    requires IsHexColor(current) && IsHexColor(target)
    ensures NextColor(current, target) == RgbToHex(TweenRgb(FieldsRgb(current), FieldsRgb(target)))
  {
    DecodeHexFields(current);
    DecodeHexFields(target);
  }

  /**
   * Each displayed field moves as `ByteStep`: up by two or down by three
   * units of 1/255, never past the target's field.
   */
  lemma NextColorBytes(current: string, target: string)
    requires IsHexColor(current) && IsHexColor(target)
    ensures NextColor(current, target) == HexBytes(ByteStep(FieldByte(current, 0), FieldByte(target, 0)),
                                                   ByteStep(FieldByte(current, 1), FieldByte(target, 1)),
                                                   ByteStep(FieldByte(current, 2), FieldByte(target, 2)))
  {
    var k0, k1, k2 := FieldByte(current, 0), FieldByte(current, 1), FieldByte(current, 2);
    var j0, j1, j2 := FieldByte(target, 0), FieldByte(target, 1), FieldByte(target, 2);
    var c := Rgb(k0 as real / 255.0, k1 as real / 255.0, k2 as real / 255.0);
    var t := Rgb(j0 as real / 255.0, j1 as real / 255.0, j2 as real / 255.0);
    assert FieldsRgb(current) == c;
    assert FieldsRgb(target) == t;
    NextColorDecoded(current, target);
    assert NextColor(current, target) == RgbToHex(TweenRgb(c, t));
    TweenBytes(k0, k1, k2, j0, j1, j2);
    assert RgbToHex(TweenRgb(c, t)) == HexBytes(ByteStep(k0, j0), ByteStep(k1, j1), ByteStep(k2, j2));
  }

  /** One tween step from byte channels, written out again, moves every field as `ByteStep`. */
  lemma TweenBytes(k0: int, k1: int, k2: int, j0: int, j1: int, j2: int)
    requires 0 <= k0 < 256 && 0 <= k1 < 256 && 0 <= k2 < 256
    requires 0 <= j0 < 256 && 0 <= j1 < 256 && 0 <= j2 < 256
    ensures var stepped := TweenRgb(Rgb(k0 as real / 255.0, k1 as real / 255.0, k2 as real / 255.0),
                                    Rgb(j0 as real / 255.0, j1 as real / 255.0, j2 as real / 255.0));
      RgbToHex(stepped) == HexBytes(ByteStep(k0, j0), ByteStep(k1, j1), ByteStep(k2, j2))
  {
    var stepped := TweenRgb(Rgb(k0 as real / 255.0, k1 as real / 255.0, k2 as real / 255.0),
                            Rgb(j0 as real / 255.0, j1 as real / 255.0, j2 as real / 255.0));
    assert stepped.red == UpdateChannel(k0 as real / 255.0, j0 as real / 255.0);
    assert stepped.green == UpdateChannel(k1 as real / 255.0, j1 as real / 255.0);
    assert stepped.blue == UpdateChannel(k2 as real / 255.0, j2 as real / 255.0);
    assert ChannelByte(stepped.red) == ByteStep(k0, j0) by { QuantizedStep(k0, j0); }
    assert ChannelByte(stepped.green) == ByteStep(k1, j1) by { QuantizedStep(k1, j1); }
    assert ChannelByte(stepped.blue) == ByteStep(k2, j2) by { QuantizedStep(k2, j2); }
    RgbToHexBytes(stepped);
  }

  /** Once the displayed colour equals the target, `update_color` leaves it unchanged. */
  lemma NextColorFixedPoint(color: string)
    requires IsHexColor(color)
    ensures NextColor(color, color) == color
  {
    HexStringRoundTrip(color);
  }

  /** `n` colour ticks toward a fixed target: the colour `update_color` shows after `n` calls. */
  function ColorTicks(current: string, target: string, n: nat): (c: string)
    requires IsHexColor(current) && IsHexColor(target)
    ensures IsHexColor(c)
    decreases n
  {
    if n == 0 then current else ColorTicks(NextColor(current, target), target, n - 1)
  }

  /** One colour tick moves every field of the displayed colour by one byte step toward the target's. */
  lemma NextColorFields(current: string, target: string)
    requires IsHexColor(current) && IsHexColor(target)
    ensures FieldByte(NextColor(current, target), 0) == ByteStep(FieldByte(current, 0), FieldByte(target, 0))
    ensures FieldByte(NextColor(current, target), 1) == ByteStep(FieldByte(current, 1), FieldByte(target, 1))
    ensures FieldByte(NextColor(current, target), 2) == ByteStep(FieldByte(current, 2), FieldByte(target, 2))
  {
    var b0 := ByteStep(FieldByte(current, 0), FieldByte(target, 0));
    var b1 := ByteStep(FieldByte(current, 1), FieldByte(target, 1));
    var b2 := ByteStep(FieldByte(current, 2), FieldByte(target, 2));
    NextColorBytes(current, target);
    HexBytesFields(b0, b1, b2);
  }

  /** After `n` colour ticks every displayed field has taken `n` byte steps toward the target's field. */
  lemma {:induction false} ColorTicksFields(current: string, target: string, n: nat)
    requires IsHexColor(current) && IsHexColor(target)
    ensures FieldByte(ColorTicks(current, target, n), 0) == ByteSteps(FieldByte(current, 0), FieldByte(target, 0), n)
    ensures FieldByte(ColorTicks(current, target, n), 1) == ByteSteps(FieldByte(current, 1), FieldByte(target, 1), n)
    ensures FieldByte(ColorTicks(current, target, n), 2) == ByteSteps(FieldByte(current, 2), FieldByte(target, 2), n)
    decreases n, 1
  {
    if n > 0 {
      ColorTicksFieldsStep(current, target, n - 1);
    }
  }

  /** The inductive step of `ColorTicksFields`: the first tick, then `m` more from the colour it shows. */
  lemma {:induction false} ColorTicksFieldsStep(current: string, target: string, m: nat)
    requires IsHexColor(current) && IsHexColor(target)
    ensures FieldByte(ColorTicks(current, target, m + 1), 0) == ByteSteps(FieldByte(current, 0), FieldByte(target, 0), m + 1)
    ensures FieldByte(ColorTicks(current, target, m + 1), 1) == ByteSteps(FieldByte(current, 1), FieldByte(target, 1), m + 1)
    ensures FieldByte(ColorTicks(current, target, m + 1), 2) == ByteSteps(FieldByte(current, 2), FieldByte(target, 2), m + 1)
    decreases m + 1, 0
  {
    var next := NextColor(current, target);
    var after := ColorTicks(next, target, m);
    assert ColorTicks(current, target, m + 1) == after;
    NextColorFields(current, target);
    ColorTicksFields(next, target, m);
    ByteStepsFirst(FieldByte(current, 0), FieldByte(target, 0), FieldByte(next, 0), FieldByte(after, 0), m);
    ByteStepsFirst(FieldByte(current, 1), FieldByte(target, 1), FieldByte(next, 1), FieldByte(after, 1), m);
    ByteStepsFirst(FieldByte(current, 2), FieldByte(target, 2), FieldByte(next, 2), FieldByte(after, 2), m);
  }

  /** A byte that takes one step and then `m` more has taken `m + 1` steps. */
  lemma ByteStepsFirst(k: int, j: int, stepped: int, reached: int, m: nat)
    requires stepped == ByteStep(k, j) && reached == ByteSteps(stepped, j, m)
    ensures reached == ByteSteps(k, j, m + 1)
  {
  }

  /**
   * A worked example of the colour tick's arithmetic: `current_color`
   * stepping from black toward a fixed white target is, after `n` ticks,
   * the grey whose bytes are `2n`, capped at 255, so it is white from tick
   * 128 on and not before.
   */
  lemma DisplayedColorBlackToWhite(n: nat)
    ensures IsHexColor("#000000") && IsHexColor("#ffffff")
    ensures ColorTicks("#000000", "#ffffff", n) == HexBytes(Min(2 * n, 255), Min(2 * n, 255), Min(2 * n, 255))
    ensures ColorTicks("#000000", "#ffffff", n) == "#ffffff" <==> n >= 128
  {
    BlackAndWhiteFields();
    var b := Min(2 * n, 255);
    ByteStepsClosedForm(0, 255, n);
    TicksFromBlack(n, b, HexBytes(b, b, b));
    HexBytesFields(b, b, b);
  }

  /** A hundred colour ticks from black toward a fixed white target leave `current_color` at `#c8c8c8`. */
  lemma DisplayedColorAfterHundredTicks()
    ensures IsHexColor("#000000") && IsHexColor("#ffffff")
    ensures ColorTicks("#000000", "#ffffff", 100) == "#c8c8c8"
  {
    BlackAndWhiteFields();
    DisplayedBlackToWhite();
    TicksFromBlack(100, 200, "#c8c8c8");
  }

  /** The fields of black and of white. */
  lemma BlackAndWhiteFields()
    ensures HexBytes(0, 0, 0) == "#000000" && HexBytes(255, 255, 255) == "#ffffff"
    ensures IsHexColor("#000000") && IsHexColor("#ffffff")
    ensures FieldByte("#000000", 0) == 0 && FieldByte("#000000", 1) == 0 && FieldByte("#000000", 2) == 0
    ensures FieldByte("#ffffff", 0) == 255 && FieldByte("#ffffff", 1) == 255 && FieldByte("#ffffff", 2) == 255
  {
    HexBytesFields(0, 0, 0);
    HexBytesFields(255, 255, 255);
  }

  /** From black toward white, a tick count whose byte steps reach `b` displays the grey spelled `grey`. */
  lemma TicksFromBlack(n: nat, b: int, grey: string)
    requires IsHexColor("#000000") && IsHexColor("#ffffff")
    requires 0 <= b < 256 && ByteSteps(0, 255, n) == b && grey == HexBytes(b, b, b)
    requires FieldByte("#000000", 0) == 0 && FieldByte("#000000", 1) == 0 && FieldByte("#000000", 2) == 0
    requires FieldByte("#ffffff", 0) == 255 && FieldByte("#ffffff", 1) == 255 && FieldByte("#ffffff", 2) == 255
    ensures ColorTicks("#000000", "#ffffff", n) == grey
  {
    var s := ColorTicks("#000000", "#ffffff", n);
    ColorTicksFields("#000000", "#ffffff", n);
    HexColorIsHexBytes(s);
    assert s == HexBytes(FieldByte(s, 0), FieldByte(s, 1), FieldByte(s, 2));
  }

  class ColorClock {
    var zoneColors: map<Zone, string>
    var currentColor: string
    var targetColor: string

    /**
     * `zone_colors` has one key per zone, and both colours are strings of
     * the shape `rgb_to_hex` writes, so `rgb_from_hex` can read them.
     */
    ghost predicate Valid()
      reads this
    {
      zoneColors.Keys == ZoneNames && IsHexColor(currentColor) && IsHexColor(targetColor)
    }

    /**
     * The state set up by `__init__`: a random colour per zone (`initial`
     * gives the `colorsys` channels of each), the current colour taken from
     * Morning, and the target equal to it.
     */
    constructor (initial: Zone -> Rgb)
      requires RgbInUnit(initial(Morning))
      ensures Valid()
      ensures zoneColors == InitialZoneColors(initial)
      ensures currentColor == HslToRgb(initial(Morning)) && targetColor == currentColor
    {
      var colors := InitialZoneColors(initial);
      zoneColors := colors;
      currentColor := colors[Morning];
      targetColor := colors[Morning];
    }

    /** The target update of `update_quantum_state`, from the `colorsys` channels of the circuit's hue. */
    method UpdateQuantumState(rgb: Rgb)
      requires Valid() && RgbInUnit(rgb)
      modifies this
      ensures Valid()
      ensures targetColor == HslToRgb(rgb)
      ensures currentColor == old(currentColor) && zoneColors == old(zoneColors)
    {
      targetColor := HslToRgb(rgb);
    }

    /**
     * One colour tick, `update_color`: the current colour takes one step
     * toward the target, and every zone is then set to it; no key is added
     * or removed and the target is untouched.
     */
    method UpdateColor()
      requires Valid()
      modifies this
      ensures Valid()
      ensures currentColor == NextColor(old(currentColor), old(targetColor))
      ensures targetColor == old(targetColor)
      ensures zoneColors == Recolor(old(zoneColors), currentColor)
    {
      var next := NextColor(currentColor, targetColor);
      var colors := RecolorZones(zoneColors, next);
      currentColor, zoneColors := next, colors;
    }

    /**
     * `update_clock` for the wall-clock time `hours:minutes:seconds`: the
     * label shows the time, the zone (or `None`) and the current colour,
     * and then the target is recomputed.
     */
    method UpdateClock(hours: nat, minutes: nat, seconds: nat, rgb: Rgb) returns (d: Display)
      requires Valid() && RgbInUnit(rgb)
      modifies this
      ensures Valid()
      ensures d == Display(TimeString(hours, minutes, seconds), Caption(GetZone(hours)), old(currentColor))
      ensures targetColor == HslToRgb(rgb)
      ensures currentColor == old(currentColor) && zoneColors == old(zoneColors)
    {
      d := Display(TimeString(hours, minutes, seconds), Caption(GetZone(hours)), currentColor);
      UpdateQuantumState(rgb);
    }
  }
}
