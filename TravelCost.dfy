/** The travel-cost model: distance and road name to an estimated travel time in minutes. */
module TravelCost {
  import opened Text

  /** Extra cost of a road whose name marks it as narrow. */
  const WeightNarrow: real := 0.3
  /** Extra cost of a road whose name marks it as an alley or side street. */
  const WeightAlley: real := 0.5
  /** The assumed average speed, 45 km/h, in metres per minute (45000 / 60). */
  const MetresPerMinute: real := 750.0

  /** Alley, side-street and small-road markers. */
  const AlleyMarkers: seq<string> := ["골목", "이면", "소로"]
  /** The narrow-road marker. */
  const NarrowMarker: string := "좁"

  /** Which penalty rule a road name triggers; the first matching rule wins. */
  datatype RoadClass = Alley | Narrow | Plain

  function Classify(roadName: string): (c: RoadClass)
    ensures c == Alley <==> Contains(roadName, "골목") || Contains(roadName, "이면") || Contains(roadName, "소로")
    ensures c == Narrow <==> c != Alley && Contains(roadName, "좁")
  {
    var alley := ContainsAny(roadName, AlleyMarkers);
    assert !alley ==> !Contains(roadName, AlleyMarkers[0]) && !Contains(roadName, AlleyMarkers[1])
                      && !Contains(roadName, AlleyMarkers[2]);
    if alley then Alley
    else if Contains(roadName, NarrowMarker) then Narrow
    else Plain
  }

  function Penalty(c: RoadClass): real {
    match c
    case Alley => WeightAlley
    case Narrow => WeightNarrow
    case Plain => 0.0
  }

  /** compute_weighted_time: base time at 750 m/min, scaled by one plus the road penalty. */
  function WeightedTime(distanceM: real, roadName: string): (t: real)
    ensures distanceM >= 0.0 ==> distanceM / MetresPerMinute <= t <= distanceM / MetresPerMinute * 1.5
    ensures distanceM == 0.0 ==> t == 0.0
  {
    distanceM / MetresPerMinute * (1.0 + Penalty(Classify(roadName)))
  }

  /** The three formulas, one per road class. */
  lemma WeightedTimeByRoad(distanceM: real, roadName: string)
    ensures Classify(roadName) == Alley ==> WeightedTime(distanceM, roadName) == distanceM / 750.0 * 1.5
    ensures Classify(roadName) == Narrow ==> WeightedTime(distanceM, roadName) == distanceM / 750.0 * 1.3
    ensures Classify(roadName) == Plain ==> WeightedTime(distanceM, roadName) == distanceM / 750.0
  {
  }

  /** For the same positive distance, alley roads cost strictly more than narrow ones, and narrow ones more than unmarked ones. */
  lemma PenaltyOrdering(distanceM: real, alley: string, narrow: string, plain: string)
    requires distanceM > 0.0
    requires Classify(alley) == Alley && Classify(narrow) == Narrow && Classify(plain) == Plain
    ensures WeightedTime(distanceM, alley) > WeightedTime(distanceM, narrow) > WeightedTime(distanceM, plain)
  {
  }
}
