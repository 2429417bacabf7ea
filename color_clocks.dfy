/**
 * The first program: each zone has its own colour in `zone_colors`, the
 * zone label takes the colour of the current zone, and every clock tick
 * recolours all zones with the one hue the circuit produced.
 */
module ColorClocks {
  import opened Wrappers
  import opened Zones
  import opened Format
  import opened ColorCodec
  import opened ZoneColors
  import opened ClockFace

  /** The exception of `zone_colors[zone]` when the zone is missing. */
  datatype LookupError = KeyError(key: Option<Zone>)

  /** `zone_colors[get_zone(hour)]`: the label colour, or the `KeyError` the lookup raises. */
  function ZoneForeground(colors: map<Zone, string>, hour: int): (r: Result<string, LookupError>)
    ensures r.Ok? <==> GetZone(hour).Some? && GetZone(hour).value in colors
    ensures r.Ok? ==> r.value in colors.Values
    ensures r.Err? ==> r.error == KeyError(GetZone(hour))
  {
    var zone := GetZone(hour);
    if zone.Some? && zone.value in colors then Ok(colors[zone.value]) else Err(KeyError(zone))
  }

  /**
   * With one colour per zone, the lookup succeeds exactly from hour 6 on,
   * giving that zone's colour; for hours 0 to 5 it raises `KeyError: None`.
   */
  lemma ForegroundDefinedFromSix(colors: map<Zone, string>, hour: int)
    requires colors.Keys == ZoneNames
    ensures ZoneForeground(colors, hour).Ok? <==> hour >= 6
    ensures hour >= 6 ==> ZoneForeground(colors, hour) == Ok(colors[GetZone(hour).value])
    ensures hour < 6 ==> ZoneForeground(colors, hour) == Err(KeyError(None))
  {
    NoZoneBeforeSix(hour);
  }

  class ZonesClock {
    var zoneColors: map<Zone, string>

    /** `zone_colors` has exactly one key per zone of the table. */
    ghost predicate Valid()
      reads this
    {
      zoneColors.Keys == ZoneNames
    }

    /** `__init__`'s colour table; `initial` gives the `colorsys` channels of each zone's random hue. */
    constructor (initial: Zone -> Rgb)
      ensures Valid()
      ensures zoneColors == InitialZoneColors(initial)
    {
      zoneColors := InitialZoneColors(initial);
    }

    /**
     * The colour update of `update_quantum_state`: every zone gets the one
     * new colour, written from the `colorsys` channels of the circuit's hue;
     * no key is added or removed.
     */
    method UpdateQuantumState(rgb: Rgb)
      requires Valid()
      modifies this
      ensures Valid()
      ensures zoneColors == Recolor(old(zoneColors), HslToRgb(rgb))
    {
      var newColor := HslToRgb(rgb);
      zoneColors := RecolorZones(zoneColors, newColor);
    }

    /**
     * `update_clock` for the wall-clock time `hours:minutes:seconds`. The
     * label colour is looked up for the current zone before the recolouring;
     * when the hour has no zone the lookup raises and nothing changes.
     */
    method UpdateClock(hours: nat, minutes: nat, seconds: nat, rgb: Rgb)
      returns (r: Result<Display, LookupError>)
      requires Valid()
      modifies this
      ensures Valid()
      ensures r.Ok? <==> hours >= 6
      ensures r.Err? ==> r.error == KeyError(None) && zoneColors == old(zoneColors)
      ensures r.Ok? ==>
        && r.value.time == TimeString(hours, minutes, seconds)
        && r.value.caption == Caption(GetZone(hours))
        && ZoneForeground(old(zoneColors), hours) == Ok(r.value.foreground)
        && zoneColors == Recolor(old(zoneColors), HslToRgb(rgb))
    {
      var timeString := TimeString(hours, minutes, seconds);
      var zone := GetZone(hours);
      ForegroundDefinedFromSix(zoneColors, hours);
      var foreground := ZoneForeground(zoneColors, hours);
      if foreground.Err? {
        return Err(foreground.error);
      }
      r := Ok(Display(timeString, Caption(zone), foreground.value));
      UpdateQuantumState(rgb);
    }
  }
}
