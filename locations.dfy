// The location registry: every named place of the town and its fixed
// coordinates, read-only for the whole run.
module Locations {
  import opened Common

  /** The 23 named locations: the ten original ones and the thirteen added later. */
  const LOCATIONS: map<string, Point> := map[
    "park" := Point(100.0, 100.0),
    "office" := Point(700.0, 150.0),
    "cafe" := Point(250.0, 450.0),
    "animal_shelter" := Point(50.0, 500.0),
    "library" := Point(400.0, 50.0),
    "plaza" := Point(400.0, 300.0),
    "bakery" := Point(550.0, 450.0),
    "fountain" := Point(400.0, 250.0),
    "power_plant" := Point(700.0, 500.0),
    "bar" := Point(150.0, 300.0),
    "town_hall" := Point(50.0, 50.0),
    "market" := Point(750.0, 50.0),
    "school" := Point(50.0, 250.0),
    "hospital" := Point(750.0, 250.0),
    "church" := Point(200.0, 50.0),
    "gym" := Point(600.0, 50.0),
    "museum" := Point(50.0, 350.0),
    "theater" := Point(750.0, 350.0),
    "beach" := Point(200.0, 550.0),
    "dock" := Point(600.0, 550.0),
    "forest" := Point(100.0, 400.0),
    "hills" := Point(500.0, 150.0),
    "windmill" := Point(650.0, 350.0)
  ]

  /** The seven places exploration tasks are drawn from, in the order they are listed. */
  const EXPLORATION_LOCATIONS: seq<string> :=
    ["forest", "hills", "windmill", "beach", "dock", "museum", "theater"]

  /** `locations[name]`: the coordinates of a known location, `None` for an unknown key. */
  function LocationOf(name: string): (r: Option<Point>)
    ensures r.Some? <==> name in LOCATIONS
    ensures r.Some? ==> r.value == LOCATIONS[name]
  {
    if name in LOCATIONS then Some(LOCATIONS[name]) else None
  }

  /**
   * Every exploration location is registered, so a generated exploration task
   * never takes the unknown-location path of the scheduler.
   */
  lemma ExplorationLocationsRegistered()
    ensures forall l :: l in EXPLORATION_LOCATIONS ==> LocationOf(l).Some?
  {
  }

  /** The exploration locations are pairwise distinct and contain no underscore. */
  lemma ExplorationLocationsWellFormed()
    ensures |EXPLORATION_LOCATIONS| == 7
    ensures forall i, j :: 0 <= i < j < |EXPLORATION_LOCATIONS| ==> EXPLORATION_LOCATIONS[i] != EXPLORATION_LOCATIONS[j]
    ensures forall l :: l in EXPLORATION_LOCATIONS ==> '_' !in l
  {
  }
}
