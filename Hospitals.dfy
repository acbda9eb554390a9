/** The hospital record the update handler builds per search result and annotates step by step. */
module Hospitals {
  import opened Wrappers

  /** The `weighted_time` key: not yet set, set to None (unavailable), or a number of minutes. */
  datatype TimeField = Unset | NoneTime | Minutes(value: real)

  /** A `final_score`: a finite real or `math.inf`. */
  datatype Score = Finite(value: real) | Infinite

  /** One hospital dict. `available` and `finalScore` are None until their key is written. */
  datatype Hospital = Hospital(
    name: string,
    address: string,
    distanceM: real,
    roadName: string,
    available: Option<bool>,
    weightedTime: TimeField,
    finalScore: Option<Score>)

  /** `h.get("available", True)`: a record without the key counts as available. */
  predicate IsAvailable(h: Hospital) {
    h.available != Some(false)
  }
}
