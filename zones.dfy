/**
 * The time-of-day zone table and the resolver `get_zone`, which both clock
 * programs define identically: a first-match scan over four named half-open
 * hour intervals, taken in the dictionary's insertion order.
 */
module Zones {
  import opened Wrappers

  datatype Zone = Morning | Afternoon | Evening | Night {
    /** The dictionary key the programs use for the zone. */
    function Name(): string {
      match this
      case Morning => "Morning"
      case Afternoon => "Afternoon"
      case Evening => "Evening"
      case Night => "Night"
    }
  }

  /** One entry of the table: the hours `start <= h < end`, with no upper bound when `end` is absent. */
  datatype ZoneEntry = ZoneEntry(zone: Zone, start: int, end: Option<int>)

  /** The table, in insertion order (the order `dict.items()` yields it). */
  const ZoneTable: seq<ZoneEntry> := [
    ZoneEntry(Morning, 6, Some(12)),
    ZoneEntry(Afternoon, 12, Some(18)),
    ZoneEntry(Evening, 18, Some(21)),
    ZoneEntry(Night, 21, None)
  ]

  /** The match test of the scan: `hour >= start` and (`end` is absent or `hour < end`). */
  predicate Matches(e: ZoneEntry, hour: int) {
    hour >= e.start && (e.end.None? || hour < e.end.value)
  }

  /**
   * The scan itself: the zone of the first entry that matches, or `None`
   * when the loop runs to its end without returning.
   */
  function FirstMatch(table: seq<ZoneEntry>, hour: int): (r: Option<Zone>)
    ensures r.None? <==> forall i :: 0 <= i < |table| ==> !Matches(table[i], hour)
    ensures r.Some? ==>
      exists i :: 0 <= i < |table| && Matches(table[i], hour) && table[i].zone == r.value &&
        forall j :: 0 <= j < i ==> !Matches(table[j], hour)
  {
    if table == [] then None
    else if Matches(table[0], hour) then Some(table[0].zone)
    else
      var rest := FirstMatch(table[1..], hour);
      assert forall i :: 1 <= i < |table| ==> table[i] == table[1..][i - 1];
      rest
  }

  /** `get_zone(hour)`. */
  function GetZone(hour: int): Option<Zone> {
    FirstMatch(ZoneTable, hour)
  }

  /** The keys of the table, which are also the keys of `zone_colors`. */
  const ZoneNames: set<Zone> := {Morning, Afternoon, Evening, Night}

  /** `ZoneNames` is exactly the key set of the table. */
  lemma ZoneNamesAreTableKeys()
    ensures ZoneNames == set e | e in ZoneTable :: e.zone
  {
  }

  /** Every zone has its entry in the table. */
  lemma ZoneIndexOf(z: Zone)
    ensures exists j :: 0 <= j < |ZoneTable| && ZoneTable[j].zone == z
  {
    var j := match z case Morning => 0 case Afternoon => 1 case Evening => 2 case Night => 3;
    assert ZoneTable[j].zone == z;
  }

  /** No two entries of the table share a name, so the table has one entry per key. */
  lemma ZoneTableKeysDistinct()
    ensures forall i, j :: 0 <= i < j < |ZoneTable| ==> ZoneTable[i].zone != ZoneTable[j].zone
  {
  }

  /** For every hour at most one entry matches: the intervals are pairwise disjoint. */
  lemma ZoneTableDisjoint(hour: int)
    ensures forall i, j ::
      0 <= i < |ZoneTable| && 0 <= j < |ZoneTable| && Matches(ZoneTable[i], hour) && Matches(ZoneTable[j], hour)
      ==> i == j
  {
  }

  /** `get_zone` returns the zone of the entry whose interval contains the hour, and only such a zone. */
  lemma GetZoneContaining(hour: int, z: Zone)
    ensures GetZone(hour) == Some(z) <==> exists e :: e in ZoneTable && e.zone == z && Matches(e, hour)
  {
  }

  /** The answer hour by hour: nothing before 6, then Morning, Afternoon, Evening, and Night from 21 on. */
  lemma GetZoneByHour(hour: int)
    ensures GetZone(hour) ==
      if hour < 6 then None
      else if hour < 12 then Some(Morning)
      else if hour < 18 then Some(Afternoon)
      else if hour < 21 then Some(Evening)
      else Some(Night)
  {
    assert ZoneTable[1..] == [ZoneTable[1], ZoneTable[2], ZoneTable[3]];
    assert ZoneTable[1..][1..] == [ZoneTable[2], ZoneTable[3]];
    assert ZoneTable[1..][1..][1..] == [ZoneTable[3]];
    assert ZoneTable[1..][1..][1..][1..] == [];
  }

  /** The table is not total: the scan falls off the loop exactly for the hours before 6. */
  lemma NoZoneBeforeSix(hour: int)
    ensures GetZone(hour).None? <==> hour < 6
  {
    GetZoneByHour(hour);
  }

  /**
   * First match wins does not depend on the order of the entries: any table
   * holding exactly the same entries, in any order, gives the same answer.
   */
  lemma FirstMatchOrderFree(table: seq<ZoneEntry>, hour: int)
    requires forall e :: e in table <==> e in ZoneTable
    ensures FirstMatch(table, hour) == GetZone(hour)
  {
    var r := FirstMatch(table, hour);
    if r.Some? {
      var i :| 0 <= i < |table| && Matches(table[i], hour) && table[i].zone == r.value;
      assert table[i] in ZoneTable;
      GetZoneContaining(hour, r.value);
    } else {
      forall e | e in ZoneTable ensures !Matches(e, hour) {
        assert e in table;
      }
      if GetZone(hour).Some? {
        GetZoneContaining(hour, GetZone(hour).value);
      }
    }
  }
}
