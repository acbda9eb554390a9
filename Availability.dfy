/** Session-pinned availability: the first call of a session draws the unavailable hospitals,
    later calls reuse that list until the session is reset. */
module Availability {
  import opened Wrappers
  import opened Hospitals

  /** `int(n * frac)`; for non-negative operands truncation toward zero is the floor. */
  function NumUnavailable(n: nat, frac: real): (k: int)
    requires frac >= 0.0
    ensures 0 <= k && k as real <= n as real * frac < k as real + 1.0
  {
    (n as real * frac).Floor
  }

  /** What `random.uniform(0, maxUnavailFrac)` and `random.sample(hospitals, k)` may return, given as
      the fraction and the positions of the sampled hospitals (distinct, since sampling is without replacement). */
  predicate ValidSample(n: nat, maxUnavailFrac: real, frac: real, picks: seq<nat>) {
    && 0.0 <= frac <= maxUnavailFrac
    && |picks| == NumUnavailable(n, frac)
    && (forall j :: 0 <= j < |picks| ==> picks[j] < n)
    && (forall j, k :: 0 <= j < k < |picks| ==> picks[j] != picks[k])
  }

  /** The names of the sampled hospitals, in sample order. */
  function SampleNames(hospitals: seq<Hospital>, picks: seq<nat>): (names: seq<string>)
    requires forall j :: 0 <= j < |picks| ==> picks[j] < |hospitals|
    ensures |names| == |picks|
    ensures forall j :: 0 <= j < |picks| ==> names[j] == hospitals[picks[j]].name
  {
    if picks == [] then [] else [hospitals[picks[0]].name] + SampleNames(hospitals, picks[1..])
  }

  /** Every record's `available` key set to whether its name is absent from the pinned list. */
  function WithAvailability(hospitals: seq<Hospital>, pinned: seq<string>): (r: seq<Hospital>)
    ensures |r| == |hospitals|
    ensures forall i :: 0 <= i < |r| ==> r[i].available == Some(hospitals[i].name !in pinned)
    ensures forall i :: 0 <= i < |r| ==> r[i].(available := hospitals[i].available) == hospitals[i]
  {
    seq(|hospitals|, i requires 0 <= i < |hospitals| => hospitals[i].(available := Some(hospitals[i].name !in pinned)))
  }

  /** The process-wide session memory `UNAVAILABLE_HOSPITALS`: None until the first draw, then the pinned list. */
  class Session {
    var unavailableHospitals: Option<seq<string>>

    constructor ()
      ensures unavailableHospitals == None
    {
      unavailableHospitals := None;
    }

    /** `reset_session`: forget the pinned list, so the next assignment draws again. The new state does
        not depend on the old one, so resetting twice leaves the same state as resetting once. */
    method Reset()
      modifies this
      ensures unavailableHospitals == None
    {
      unavailableHospitals := None;
    }

    /** `assign_fixed_availability`: draw the pinned list if the session has none, then mark every record. */
    method AssignFixedAvailability(hospitals: array<Hospital>, maxUnavailFrac: real, frac: real, picks: seq<nat>)
      returns (unavail: seq<string>)
      requires 0.0 <= maxUnavailFrac <= 1.0
      requires unavailableHospitals == None ==> ValidSample(hospitals.Length, maxUnavailFrac, frac, picks)
      modifies this, hospitals
      ensures old(unavailableHospitals).Some? ==> unavail == old(unavailableHospitals).value
      ensures old(unavailableHospitals).None? ==> unavail == SampleNames(old(hospitals[..]), picks)
      ensures unavailableHospitals == Some(unavail)
      ensures hospitals[..] == WithAvailability(old(hospitals[..]), unavail)
    {
      if unavailableHospitals == None {
        var numUnavail := NumUnavailable(hospitals.Length, frac);
        var sampled := if numUnavail != 0 then SampleNames(hospitals[..], picks) else [];
        unavailableHospitals := Some(sampled);
      }
      var pinned := unavailableHospitals.value;
      for i := 0 to hospitals.Length
        invariant unavailableHospitals == Some(pinned)
        invariant forall k :: 0 <= k < i ==>
          hospitals[k] == old(hospitals[k]).(available := Some(old(hospitals[k]).name !in pinned))
        invariant forall k :: i <= k < hospitals.Length ==> hospitals[k] == old(hospitals[k])
      {
        hospitals[i] := hospitals[i].(available := Some(hospitals[i].name !in pinned));
      }
      unavail := pinned;
    }
  }

  lemma ScaleMonotone(n: real, a: real, b: real)
    requires n >= 0.0 && a <= b
    ensures n * a <= n * b
  {
    assert n * b - n * a == n * (b - a);
  }

  /** The first draw pins at most `n * maxUnavailFrac` names, each the name of one of the given hospitals;
      an empty list pins nothing. */
  lemma {:induction false} FirstDrawBounds(hospitals: seq<Hospital>, maxUnavailFrac: real, frac: real, picks: seq<nat>)
    requires ValidSample(|hospitals|, maxUnavailFrac, frac, picks)
    ensures |SampleNames(hospitals, picks)| as real <= |hospitals| as real * maxUnavailFrac
    ensures forall name :: name in SampleNames(hospitals, picks) ==> exists i :: 0 <= i < |hospitals| && hospitals[i].name == name
    ensures hospitals == [] ==> SampleNames(hospitals, picks) == []
  {
    ScaleMonotone(|hospitals| as real, frac, maxUnavailFrac);
    var names := SampleNames(hospitals, picks);
    forall name | name in names
      ensures exists i :: 0 <= i < |hospitals| && hospitals[i].name == name
    {
      var j :| 0 <= j < |names| && names[j] == name;
      assert hospitals[picks[j]].name == name;
    }
  }

  /** `s` with every occurrence of `x` removed. */
  function Without(s: seq<nat>, x: nat): (r: seq<nat>)
    ensures forall y :: y in r <==> y in s && y != x
    ensures x in s ==> |r| < |s|
    ensures |r| <= |s|
  {
    if s == [] then [] else (if s[0] == x then [] else [s[0]]) + Without(s[1..], x)
  }

  /** Fewer than `n` positions below `n` leave some position below `n` unpicked. */
  lemma {:induction false} SomeIndexUnpicked(picks: seq<nat>, n: nat)
    requires |picks| < n
    requires forall j :: 0 <= j < |picks| ==> picks[j] < n
    ensures exists m :: 0 <= m < n && m !in picks
    decreases n
  {
    if n - 1 !in picks {
      assert 0 <= n - 1 < n;
    } else {
      var rest := Without(picks, n - 1);
      forall j | 0 <= j < |rest| ensures rest[j] < n - 1 {
        assert rest[j] in rest;
      }
      SomeIndexUnpicked(rest, n - 1);
      var m :| 0 <= m < n - 1 && m !in rest;
      assert m !in picks;
    }
  }

  lemma DrawBelowCount(n: nat, maxUnavailFrac: real, frac: real, picks: seq<nat>)
    requires n > 0 && maxUnavailFrac < 1.0
    requires ValidSample(n, maxUnavailFrac, frac, picks)
    ensures |picks| < n
  {
    var x := n as real;
    var drawn, bound := x * frac, x * maxUnavailFrac;
    assert |picks| as real <= drawn;
    ScaleMonotone(x, frac, maxUnavailFrac);
    assert bound < x by {
      assert x - bound == x * (1.0 - maxUnavailFrac);
      assert x * (1.0 - maxUnavailFrac) > 0.0;
    }
  }

  /** When names are unique and the fraction bound is below one, the first draw of a session leaves at
      least one of a non-empty list of hospitals available. */
  lemma FirstDrawLeavesOneAvailable(hospitals: seq<Hospital>, maxUnavailFrac: real, frac: real, picks: seq<nat>)
    requires |hospitals| > 0 && maxUnavailFrac < 1.0
    requires ValidSample(|hospitals|, maxUnavailFrac, frac, picks)
    requires forall i, j :: 0 <= i < j < |hospitals| ==> hospitals[i].name != hospitals[j].name
    ensures exists i :: 0 <= i < |hospitals| && hospitals[i].name !in SampleNames(hospitals, picks)
  {
    var n := |hospitals|;
    DrawBelowCount(n, maxUnavailFrac, frac, picks);
    SomeIndexUnpicked(picks, n);
    var m :| 0 <= m < n && m !in picks;
    var names := SampleNames(hospitals, picks);
    forall j | 0 <= j < |names| ensures names[j] != hospitals[m].name {
      var p := picks[j];
      assert p != m;
      if p < m {
        assert hospitals[p].name != hospitals[m].name;
      } else {
        assert hospitals[m].name != hospitals[p].name;
      }
    }
    assert hospitals[m].name !in names;
  }
}
