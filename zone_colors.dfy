/** The `zone_colors` dictionary both programs keep: one colour string per zone. */
module ZoneColors {
  import opened Zones
  import opened ColorCodec

  /**
   * The comprehension of `__init__`: one key per zone of the table, each
   * with the `hsl_to_rgb` colour of that zone's random hue (`initial` gives
   * the `colorsys` channels for it).
   */
  function InitialZoneColors(initial: Zone -> Rgb): (m: map<Zone, string>)
    ensures m.Keys == ZoneNames
    ensures forall z :: z in m ==> m[z] == HslToRgb(initial(z))
  {
    map z | z in ZoneNames :: HslToRgb(initial(z))
  }

  /** The dictionary after every zone is set to `color`: no key added or removed, all values `color`. */
  function Recolor(colors: map<Zone, string>, color: string): (m: map<Zone, string>)
    ensures m.Keys == colors.Keys
    ensures forall z :: z in m ==> m[z] == color
  {
    map z | z in colors :: color
  }

  /**
   * The loop `for zone in self.zones: self.zone_colors[zone] = color` on a
   * dictionary keyed by the table's zones, as a value: it ends in `Recolor`.
   */
  method RecolorZones(colors: map<Zone, string>, color: string) returns (m: map<Zone, string>)
    requires colors.Keys == ZoneNames
    ensures m == Recolor(colors, color)
  {
    m := colors;
    for i := 0 to |ZoneTable|
      invariant m.Keys == colors.Keys
      invariant forall j :: 0 <= j < i ==> m[ZoneTable[j].zone] == color
    {
      m := m[ZoneTable[i].zone := color];
    }
    forall z | z in m ensures m[z] == color {
      ZoneIndexOf(z);
    }
  }
}
