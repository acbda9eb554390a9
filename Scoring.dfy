/** The hybrid scoring block of the update handler: travel times for available records, a blended
    final score with a bonus for the optimizer's pick, and the choice of the best available record. */
module Scoring {
  import opened Wrappers
  import opened Hospitals
  import opened TravelCost
  import opened Revisions

  const AStarWeight: real := 0.5
  const GAWeight: real := 0.5
  /** The multiplier on the A* share for the optimizer's pick. */
  const GABonus: real := 0.8

  // ---------- travel times (lines 200-204) ----------

  /** Every record carries an `available` key. */
  predicate AvailabilitySet(hospitals: seq<Hospital>) {
    forall i :: 0 <= i < |hospitals| ==> hospitals[i].available.Some?
  }

  /** Unavailable records get None; available ones their weighted travel time. */
  function WithWeightedTimes(hospitals: seq<Hospital>): (r: seq<Hospital>)
    requires AvailabilitySet(hospitals)
    ensures |r| == |hospitals|
    ensures forall i :: 0 <= i < |r| ==> r[i].(weightedTime := hospitals[i].weightedTime) == hospitals[i]
    ensures forall i :: 0 <= i < |r| && !IsAvailable(hospitals[i]) ==> r[i].weightedTime == NoneTime
    ensures forall i :: 0 <= i < |r| && IsAvailable(hospitals[i]) ==>
      r[i].weightedTime == Minutes(WeightedTime(hospitals[i].distanceM, hospitals[i].roadName))
  {
    seq(|hospitals|, i requires 0 <= i < |hospitals| =>
      var h := hospitals[i];
      if !h.available.value then h.(weightedTime := NoneTime)
      else h.(weightedTime := Minutes(WeightedTime(h.distanceM, h.roadName))))
  }

  /** The loop at lines 200-204, updating each record in place. */
  method AnnotateWeightedTimes(a: array<Hospital>)
    requires AvailabilitySet(a[..])
    modifies a
    ensures a[..] == WithWeightedTimes(old(a[..]))
  {
    ghost var before := a[..];
    for i := 0 to a.Length
      invariant forall k :: i <= k < a.Length ==> a[k] == before[k]
      invariant a[..i] == WithWeightedTimes(before)[..i]
    {
      var h := a[i];
      assert h.available == before[i].available;
      if !h.available.value {
        a[i] := h.(weightedTime := NoneTime);
      } else {
        a[i] := h.(weightedTime := Minutes(WeightedTime(h.distanceM, h.roadName)));
      }
      assert a[..i + 1] == a[..i] + [a[i]];
    }
    assert a[..] == a[..a.Length];
  }

  // ---------- final scores (lines 206-209) ----------

  /** `h["weighted_time"] or math.inf` as written: None and 0.0 are both falsy, so both become infinite.
      The intended reading sends only None to infinity. */
  function Base(rev: Revision, t: TimeField): Score
    requires t != Unset
  {
    match t
    case NoneTime => Infinite
    case Minutes(v) => if rev == AsWritten && v == 0.0 then Infinite else Finite(v)
  }

  /** 0.8 for a record named like the optimizer's pick, 1.0 otherwise. */
  function GAFactor(h: Hospital, gaPick: Option<Hospital>): real {
    if gaPick.Some? && h.name == gaPick.value.name then GABonus else 1.0
  }

  /** `base * (A_STAR_WEIGHT * ga_factor + GA_WEIGHT)`; infinity times a positive weight stays infinite. */
  function ScoreOf(rev: Revision, h: Hospital, gaPick: Option<Hospital>): Score
    requires h.weightedTime != Unset
  {
    match Base(rev, h.weightedTime)
    case Infinite => Infinite
    case Finite(b) => Finite(b * (AStarWeight * GAFactor(h, gaPick) + GAWeight))
  }

  /** With the weights 0.5/0.5 the score is the time times 0.9 for the pick and times 1.0 for the rest;
      unavailable records, and as written also records with time 0, score infinite. */
  lemma FinalScoreCases(rev: Revision, h: Hospital, gaPick: Option<Hospital>)
    requires h.weightedTime != Unset
    ensures h.weightedTime == NoneTime ==> ScoreOf(rev, h, gaPick) == Infinite
    ensures rev == AsWritten && h.weightedTime == Minutes(0.0) ==> ScoreOf(rev, h, gaPick) == Infinite
    ensures h.weightedTime.Minutes? && (rev == Intended || h.weightedTime.value != 0.0) ==>
      ScoreOf(rev, h, gaPick) == Finite(h.weightedTime.value * (if gaPick.Some? && h.name == gaPick.value.name then 0.9 else 1.0))
  {
  }

  /** Every record carries a `weighted_time` key. */
  predicate TimesSet(hospitals: seq<Hospital>) {
    forall i :: 0 <= i < |hospitals| ==> hospitals[i].weightedTime != Unset
  }

  /** Every record's `final_score` written from its time and the optimizer's pick. */
  function Scored(rev: Revision, hospitals: seq<Hospital>, gaPick: Option<Hospital>): (r: seq<Hospital>)
    requires TimesSet(hospitals)
    ensures |r| == |hospitals|
    ensures forall i :: 0 <= i < |r| ==> r[i].(finalScore := hospitals[i].finalScore) == hospitals[i]
    ensures forall i :: 0 <= i < |r| ==> r[i].finalScore == Some(ScoreOf(rev, hospitals[i], gaPick))
  {
    seq(|hospitals|, i requires 0 <= i < |hospitals| =>
      hospitals[i].(finalScore := Some(ScoreOf(rev, hospitals[i], gaPick))))
  }

  /** The loop at lines 206-209, updating each record in place. */
  method AssignFinalScores(a: array<Hospital>, rev: Revision, gaPick: Option<Hospital>)
    requires TimesSet(a[..])
    modifies a
    ensures a[..] == Scored(rev, old(a[..]), gaPick)
  {
    ghost var before := a[..];
    for i := 0 to a.Length
      invariant forall k :: i <= k < a.Length ==> a[k] == before[k]
      invariant a[..i] == Scored(rev, before, gaPick)[..i]
    {
      var h := a[i];
      a[i] := h.(finalScore := Some(ScoreOf(rev, h, gaPick)));
      assert a[..i + 1] == a[..i] + [a[i]];
    }
    assert a[..] == a[..a.Length];
  }

  // ---------- best (lines 210-211) ----------

  /** Python's `<` on final scores, with `math.inf` above every finite score and not below itself. */
  predicate Less(x: Score, y: Score) {
    match (x, y)
    case (Finite(a), Finite(b)) => a < b
    case (Finite(_), Infinite) => true
    case (Infinite, _) => false
  }

  /** Every record carries `available` and `final_score` keys. */
  predicate ScoresSet(hospitals: seq<Hospital>) {
    forall i :: 0 <= i < |hospitals| ==> hospitals[i].available.Some? && hospitals[i].finalScore.Some?
  }

  function ScoreAt(hospitals: seq<Hospital>, i: nat): Score
    requires ScoresSet(hospitals) && i < |hospitals|
  {
    hospitals[i].finalScore.value
  }

  /** `min` over the available records among the first `n`: the first one no other beats. */
  function BestIndexUpTo(hospitals: seq<Hospital>, n: nat): (r: Option<nat>)
    requires ScoresSet(hospitals) && n <= |hospitals|
    ensures r.None? <==> forall j :: 0 <= j < n ==> !IsAvailable(hospitals[j])
    ensures r.Some? ==> r.value < n && IsAvailable(hospitals[r.value])
    ensures r.Some? ==> forall j :: 0 <= j < n && IsAvailable(hospitals[j]) ==>
      !Less(ScoreAt(hospitals, j), ScoreAt(hospitals, r.value))
    ensures r.Some? ==> forall j :: 0 <= j < r.value && IsAvailable(hospitals[j]) ==>
      Less(ScoreAt(hospitals, r.value), ScoreAt(hospitals, j))
  {
    if n == 0 then None
    else
      var prev := BestIndexUpTo(hospitals, n - 1);
      if !IsAvailable(hospitals[n - 1]) then prev
      else if prev.None? then Some(n - 1)
      else if Less(ScoreAt(hospitals, n - 1), ScoreAt(hospitals, prev.value)) then Some(n - 1)
      else prev
  }

  /** `best = min(avail, key=final_score) if avail else None`: None exactly when nothing is available;
      otherwise an available record with the least score, the first such in list order. */
  function BestOf(hospitals: seq<Hospital>): (best: Option<Hospital>)
    requires ScoresSet(hospitals)
    ensures best.None? <==> forall j :: 0 <= j < |hospitals| ==> !IsAvailable(hospitals[j])
    ensures best.Some? ==> exists k :: (
      && 0 <= k < |hospitals| && hospitals[k] == best.value && IsAvailable(hospitals[k])
      && (forall j :: 0 <= j < |hospitals| && IsAvailable(hospitals[j]) ==> !Less(ScoreAt(hospitals, j), ScoreAt(hospitals, k)))
      && (forall j :: 0 <= j < k && IsAvailable(hospitals[j]) ==> Less(ScoreAt(hospitals, k), ScoreAt(hospitals, j))))
  {
    match BestIndexUpTo(hospitals, |hospitals|)
    case None => None
    case Some(k) => Some(hospitals[k])
  }
}
