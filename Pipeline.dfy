/** The decision part of the update handler (lines 183-211): filter the search results, pin and apply
    availability, compute travel times, run the optimizer, score and pick the best available record. */
module Pipeline {
  import opened Wrappers
  import opened Text
  import opened Hospitals
  import opened TravelCost
  import opened KeywordFilter
  import opened Availability
  import opened GA
  import opened Scoring
  import opened Revisions

  /** `assign_fixed_availability(hospitals, 0.5)`. */
  const MaxUnavailFrac: real := 0.5
  /** `select_best_GA`'s defaults: population size, generations, mutation rate. */
  const PopSize: nat := 10
  const Generations: nat := 5
  const MutationRate: real := 0.2

  /** The `hospitals`, `best` and `unavailable_list` the handler returns (before display rounding). */
  datatype Response = Response(hospitals: seq<Hospital>, best: Option<Hospital>, unavailableList: seq<string>)

  /** All random draws of one request: the availability fraction and sample, and the optimizer's draws. */
  datatype Draws = Draws(frac: real, picks: seq<nat>, ga: GADraws)

  /** The session's pinned list after the availability call: the existing one, or the names drawn now. */
  function PinnedAfter(session: Option<seq<string>>, hospitals: seq<Hospital>, picks: seq<nat>): seq<string>
    requires session.None? ==> forall j :: 0 <= j < |picks| ==> picks[j] < |hospitals|
  {
    if session.Some? then session.value else SampleNames(hospitals, picks)
  }

  /** The records after lines 198-204: availability from the pinned list, then travel times. */
  function Annotated(hospitals: seq<Hospital>, pinned: seq<string>): (r: seq<Hospital>)
    ensures |r| == |hospitals| && AvailabilitySet(r) && TimesSet(r)
    ensures forall i :: 0 <= i < |r| ==> (IsAvailable(r[i]) <==> hospitals[i].name !in pinned)
  {
    WithWeightedTimes(WithAvailability(hospitals, pinned))
  }

  /** Travel times from non-negative distances are non-negative, so the optimizer never divides by zero. */
  lemma AnnotatedIsGAReady(hospitals: seq<Hospital>, pinned: seq<string>)
    requires forall i :: 0 <= i < |hospitals| ==> hospitals[i].distanceM >= 0.0
    ensures GAReady(Annotated(hospitals, pinned))
  {
    var r := Annotated(hospitals, pinned);
    var withAvail := WithAvailability(hospitals, pinned);
    forall i | 0 <= i < |r| && IsAvailable(r[i]) ensures FitnessDefined(r[i]) {
      assert withAvail[i].distanceM == hospitals[i].distanceM;
    }
  }

  /** Lines 205-211 once the optimizer has run. If it raised, the handler's catch-all skips the rest of
      the block: no final scores and no best. Otherwise every record is scored and the best is chosen. */
  function Select(rev: Revision, annotated: seq<Hospital>, ga: Outcome<Option<Hospital>>): (r: (seq<Hospital>, Option<Hospital>))
    requires AvailabilitySet(annotated) && TimesSet(annotated)
    ensures ga.ValueError? ==> r == (annotated, None)
    ensures ga.Ok? ==> (r.1.None? <==> forall i :: 0 <= i < |annotated| ==> !IsAvailable(annotated[i]))
    ensures r.1.Some? ==> r.1.value in r.0 && r.1.value.available == Some(true)
  {
    if ga.ValueError? then (annotated, None)
    else
      var scored := Scored(rev, annotated, ga.value);
      var best := BestOf(scored);
      assert forall i :: 0 <= i < |scored| ==> (IsAvailable(scored[i]) <==> IsAvailable(annotated[i]));
      assert best.Some? ==> best.value in scored && best.value.available == Some(true) by {
        if best.Some? {
          var k :| 0 <= k < |scored| && scored[k] == best.value && IsAvailable(scored[k]);
          assert scored[k].(finalScore := annotated[k].finalScore) == annotated[k];
          assert scored[k].available == annotated[k].available;
          assert annotated[k].available.Some?;
          assert scored[k].available == Some(scored[k].available.value);
          assert scored[k].available.value;
        }
      }
      (scored, best)
  }

  /** Lines 198-204: pin availability on a fresh copy of the records and annotate their travel times. */
  method Prepare(session: Session, hospitals: seq<Hospital>, draws: Draws)
    returns (a: array<Hospital>, unavailableList: seq<string>)
    requires session.unavailableHospitals.None? ==>
      ValidSample(|hospitals|, MaxUnavailFrac, draws.frac, draws.picks)
    modifies session
    ensures fresh(a)
    ensures unavailableList == PinnedAfter(old(session.unavailableHospitals), hospitals, draws.picks)
    ensures session.unavailableHospitals == Some(unavailableList)
    ensures a[..] == Annotated(hospitals, unavailableList)
  {
    a := new Hospital[|hospitals|](i requires 0 <= i < |hospitals| => hospitals[i]);
    assert a[..] == hospitals;
    unavailableList := session.AssignFixedAvailability(a, MaxUnavailFrac, draws.frac, draws.picks);
    AnnotateWeightedTimes(a);
  }

  /** Lines 197-211 for a non-empty list of filtered records. */
  method Decide(session: Session, hospitals: seq<Hospital>, rev: Revision, draws: Draws)
    returns (resp: Response, ghost gaResult: Outcome<Option<Hospital>>)
    requires hospitals != []
    requires forall i :: 0 <= i < |hospitals| ==> hospitals[i].distanceM >= 0.0
    requires session.unavailableHospitals.None? ==>
      ValidSample(|hospitals|, MaxUnavailFrac, draws.frac, draws.picks)
    requires ValidGADraws(
      Annotated(hospitals, PinnedAfter(session.unavailableHospitals, hospitals, draws.picks)),
      PopSize, Generations, rev, draws.ga)
    modifies session
    ensures session.unavailableHospitals == Some(PinnedAfter(old(session.unavailableHospitals), hospitals, draws.picks))
    ensures resp.unavailableList == session.unavailableHospitals.value
    ensures gaResult.ValueError? <==> GARaises(Annotated(hospitals, resp.unavailableList), PopSize, Generations, rev)
    ensures gaResult.Ok? ==> (gaResult.value.None? <==>
      forall i :: 0 <= i < |hospitals| ==> !IsAvailable(Annotated(hospitals, resp.unavailableList)[i]))
    ensures gaResult.Ok? && gaResult.value.Some? ==> exists i :: (
      && 0 <= i < |hospitals|
      && IsAvailable(Annotated(hospitals, resp.unavailableList)[i])
      && Annotated(hospitals, resp.unavailableList)[i] == gaResult.value.value)
    ensures (resp.hospitals, resp.best) == Select(rev, Annotated(hospitals, resp.unavailableList), gaResult)
  {
    var a, unavailableList := Prepare(session, hospitals, draws);
    AnnotatedIsGAReady(hospitals, unavailableList);
    var ga := SelectBestGA(a[..], PopSize, Generations, MutationRate, rev, draws.ga);
    gaResult := ga;
    var scored, best := Conclude(a, rev, ga);
    resp := Response(scored, best, unavailableList);
  }

  /** Lines 205-211 after the optimizer: skipped when it raised, otherwise score in place and pick the best. */
  method Conclude(a: array<Hospital>, rev: Revision, ga: Outcome<Option<Hospital>>)
    returns (hospitals: seq<Hospital>, best: Option<Hospital>)
    requires AvailabilitySet(a[..]) && TimesSet(a[..])
    modifies a
    ensures (hospitals, best) == Select(rev, old(a[..]), ga)
  {
    if ga.ValueError? {
      return a[..], None;
    }
    AssignFinalScores(a, rev, ga.value);
    hospitals := a[..];
    best := BestOf(hospitals);
  }

  /** The update handler's decision logic for one request, from the search results to the response. */
  method Update(session: Session, docs: seq<PlaceDoc>, rev: Revision, draws: Draws)
    returns (resp: Response, ghost gaResult: Outcome<Option<Hospital>>)
    requires forall k :: 0 <= k < |docs| ==> docs[k].distance >= 0.0
    requires session.unavailableHospitals.None? ==>
      ValidSample(|Filtered(docs)|, MaxUnavailFrac, draws.frac, draws.picks)
    requires ValidGADraws(
      Annotated(Filtered(docs), PinnedAfter(session.unavailableHospitals, Filtered(docs), draws.picks)),
      PopSize, Generations, rev, draws.ga)
    modifies session
    ensures Filtered(docs) == [] ==>
      resp == Response([], None, []) && session.unavailableHospitals == old(session.unavailableHospitals)
    ensures Filtered(docs) != [] ==>
      && session.unavailableHospitals == Some(PinnedAfter(old(session.unavailableHospitals), Filtered(docs), draws.picks))
      && resp.unavailableList == session.unavailableHospitals.value
      && (gaResult.ValueError? <==> GARaises(Annotated(Filtered(docs), resp.unavailableList), PopSize, Generations, rev))
      && (gaResult.Ok? ==> (gaResult.value.None? <==>
            forall i :: 0 <= i < |Filtered(docs)| ==> !IsAvailable(Annotated(Filtered(docs), resp.unavailableList)[i])))
      && (gaResult.Ok? && gaResult.value.Some? ==> exists i :: (
            && 0 <= i < |Filtered(docs)|
            && IsAvailable(Annotated(Filtered(docs), resp.unavailableList)[i])
            && Annotated(Filtered(docs), resp.unavailableList)[i] == gaResult.value.value))
      && (resp.hospitals, resp.best) == Select(rev, Annotated(Filtered(docs), resp.unavailableList), gaResult)
  {
    var hospitals := CollectHospitals(docs);
    if hospitals == [] {
      return Response([], None, []), Ok(None);
    }
    forall i | 0 <= i < |hospitals| ensures hospitals[i].distanceM >= 0.0 {
      assert hospitals[i] in Filtered(docs);
    }
    resp, gaResult := Decide(session, hospitals, rev, draws);
  }

  // ---------- scenarios ----------

  /** A freshly built record for a place with the given name, distance and road address. */
  function Place(name: string, distanceM: real, road: string): Hospital {
    Hospital(name, road, distanceM, road, None, Unset, None)
  }

  /** A string none of whose characters starts `k` does not contain `k`. */
  lemma AbsentFirstChar(s: string, k: string)
    requires |k| > 0 && forall i :: 0 <= i < |s| ==> s[i] != k[0]
    ensures !Contains(s, k)
  {
    forall i | 0 <= i && i + |k| <= |s| ensures !OccursAt(s, k, i) {
      assert s[i..i + |k|][0] == s[i];
    }
  }

  /** Of two available records, the one with the strictly lower score is the best. */
  lemma BestOfTwo(rev: Revision, annotated: seq<Hospital>, gaPick: Option<Hospital>, w: nat)
    requires |annotated| == 2 && AvailabilitySet(annotated) && TimesSet(annotated) && w < 2
    requires IsAvailable(annotated[0]) && IsAvailable(annotated[1])
    requires Less(ScoreOf(rev, annotated[w], gaPick), ScoreOf(rev, annotated[1 - w], gaPick))
    ensures var best := Select(rev, annotated, Ok(gaPick)).1; best.Some? && best.value.name == annotated[w].name
  {
    var scored := Scored(rev, annotated, gaPick);
    assert ScoreAt(scored, w) == ScoreOf(rev, annotated[w], gaPick);
    assert ScoreAt(scored, 1 - w) == ScoreOf(rev, annotated[1 - w], gaPick);
    assert IsAvailable(scored[0]) && IsAvailable(scored[1]);
    assert BestIndexUpTo(scored, 2) == Some(w);
  }

  /** Two places at 1000 m, one on an ordinary road and one on a side street, both available: whichever
      record the optimizer favours, the ordinary-road one is best (at most 4/3 min against at least 1.8). */
  lemma {:induction false} PlainRoadBeatsSideStreet(rev: Revision, gaPick: Option<Hospital>)
    ensures var best := Select(rev, Annotated([Place("A", 1000.0, "일반도로"), Place("B", 1000.0, "이면도로")], []), Ok(gaPick)).1;
      best.Some? && best.value.name == "A"
  {
    var plain, side := "일반도로", "이면도로";
    assert OccursAt(side, "이면", 0);
    AbsentFirstChar(plain, "골목");
    AbsentFirstChar(plain, "이면");
    AbsentFirstChar(plain, "소로");
    AbsentFirstChar(plain, "좁");
    var annotated := Annotated([Place("A", 1000.0, plain), Place("B", 1000.0, side)], []);
    assert annotated[0].weightedTime == Minutes(1000.0 / 750.0);
    assert annotated[1].weightedTime == Minutes(1000.0 / 750.0 * 1.5);
    BestOfTwo(rev, annotated, gaPick, 0);
  }

  // ---------- findings ----------

  /** As written, a request in which exactly one record is available gets no best: the optimizer draws a
      cut from `randint(1, 0)`, raises, and the handler's catch-all skips the scoring. */
  lemma SoleAvailableGetsNoBest(annotated: seq<Hospital>, ga: Outcome<Option<Hospital>>)
    requires AvailabilitySet(annotated) && TimesSet(annotated)
    requires |AvailableIndices(annotated)| == 1
    requires ga.ValueError? <==> GARaises(annotated, PopSize, Generations, AsWritten)
    ensures exists i :: 0 <= i < |annotated| && IsAvailable(annotated[i])
    ensures Select(AsWritten, annotated, ga).1 == None
  {
    var i := AvailableIndices(annotated)[0];
    assert i in AvailableIndices(annotated);
  }

  /** Corrected, the optimizer never raises with the handler's settings, so a best exists exactly when
      some record is available. */
  lemma IntendedBestIffAvailable(annotated: seq<Hospital>, ga: Outcome<Option<Hospital>>)
    requires AvailabilitySet(annotated) && TimesSet(annotated)
    requires ga.ValueError? <==> GARaises(annotated, PopSize, Generations, Intended)
    ensures ga.Ok?
    ensures Select(Intended, annotated, ga).1.Some? <==> exists i :: 0 <= i < |annotated| && IsAvailable(annotated[i])
  {
  }

  /** As written, a place at 0 m scores infinity (`0.0 or inf`), so a place 750 m away beats it. */
  lemma {:induction false} ZeroDistanceLoses(gaPick: Option<Hospital>)
    ensures var best := Select(AsWritten, Annotated([Place("A", 0.0, "대로"), Place("B", 750.0, "대로")], []), Ok(gaPick)).1;
      best.Some? && best.value.name == "B"
  {
    var road := "대로";
    AbsentFirstChar(road, "골목");
    AbsentFirstChar(road, "이면");
    AbsentFirstChar(road, "소로");
    AbsentFirstChar(road, "좁");
    var annotated := Annotated([Place("A", 0.0, road), Place("B", 750.0, road)], []);
    assert annotated[0].weightedTime == Minutes(0.0);
    assert annotated[1].weightedTime == Minutes(1.0);
    BestOfTwo(AsWritten, annotated, gaPick, 1);
  }

  /** Corrected, the place at 0 m has score 0 and is the best. */
  lemma {:induction false} ZeroDistanceWins(gaPick: Option<Hospital>)
    ensures var best := Select(Intended, Annotated([Place("A", 0.0, "대로"), Place("B", 750.0, "대로")], []), Ok(gaPick)).1;
      best.Some? && best.value.name == "A"
  {
    var road := "대로";
    AbsentFirstChar(road, "골목");
    AbsentFirstChar(road, "이면");
    AbsentFirstChar(road, "소로");
    AbsentFirstChar(road, "좁");
    var annotated := Annotated([Place("A", 0.0, road), Place("B", 750.0, road)], []);
    assert annotated[0].weightedTime == Minutes(0.0);
    assert annotated[1].weightedTime == Minutes(1.0);
    BestOfTwo(Intended, annotated, gaPick, 0);
  }
}
