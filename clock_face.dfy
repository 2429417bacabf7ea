/** What one clock tick shows: the time text, the zone caption and its colour. */
module ClockFace {
  import opened Wrappers
  import opened Zones

  /** The texts and colour written into the two labels. */
  datatype Display = Display(time: string, caption: string, foreground: string)

  /** `f"Current Zone: {zone}"`; a missing zone prints as `None`. */
  function Caption(zone: Option<Zone>): (s: string)
    ensures |s| > 14 && s[..14] == "Current Zone: "
  {
    "Current Zone: " + (match zone case Some(z) => z.Name() case None => "None")
  }
}
