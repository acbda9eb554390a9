/** The name-based cleaning of place-search results into hospital records. */
module KeywordFilter {
  import opened Wrappers
  import opened Text
  import opened Hospitals
  import opened Positions

  const ExcludeKeywords: seq<string> :=
    ["동물", "치과", "한의원", "약국", "떡볶이", "카페", "편의점", "이송", "은행", "의원"]
  const IncludeKeywords: seq<string> :=
    ["응급", "응급실", "응급의료", "의료센터", "병원", "대학병원", "응급센터", "응급의료센터"]

  /** One entry of the search response's `documents`; a key the response omits holds its `.get` default. */
  datatype PlaceDoc = PlaceDoc(placeName: string, roadAddressName: string, addressName: string, distance: real)

  /** The two tests of lines 188-189 on a place name. */
  predicate Keep(name: string) {
    !ContainsAny(name, ExcludeKeywords) && ContainsAny(name, IncludeKeywords)
  }

  /** A place is kept iff no exclude keyword occurs in its name and some include keyword does. */
  lemma KeepMeaning(name: string)
    ensures Keep(name) <==> (forall j :: 0 <= j < |ExcludeKeywords| ==> !Contains(name, ExcludeKeywords[j]))
                            && (exists j :: 0 <= j < |IncludeKeywords| && Contains(name, IncludeKeywords[j]))
  {
  }

  /** The record appended for a kept place; the address falls back to `address_name` when the road
      address is empty or missing, and no key beyond the four written here is set yet. */
  function ToHospital(d: PlaceDoc): (h: Hospital)
    ensures h.name == d.placeName && h.distanceM == d.distance && h.roadName == d.roadAddressName
    ensures d.roadAddressName != "" ==> h.address == d.roadAddressName
    ensures d.roadAddressName == "" ==> h.address == d.addressName
    ensures h.available == None && h.weightedTime == Unset && h.finalScore == None
  {
    Hospital(d.placeName,
             if d.roadAddressName != "" then d.roadAddressName else d.addressName,
             d.distance, d.roadAddressName, None, Unset, None)
  }

  /** Whether each place is kept. */
  function KeepMask(docs: seq<PlaceDoc>): (mask: seq<bool>)
    ensures |mask| == |docs|
    ensures forall i :: 0 <= i < |docs| ==> mask[i] == Keep(docs[i].placeName)
  {
    seq(|docs|, i requires 0 <= i < |docs| => Keep(docs[i].placeName))
  }

  /** The positions of the kept places, in increasing order. */
  function KeptPositions(docs: seq<PlaceDoc>): (idx: seq<nat>)
    ensures |idx| <= |docs|
    ensures forall k :: 0 <= k < |idx| ==> idx[k] < |docs|
    ensures forall j, k :: 0 <= j < k < |idx| ==> idx[j] < idx[k]
    ensures forall i :: 0 <= i < |docs| ==> (i in idx <==> Keep(docs[i].placeName))
  {
    SetUpTo(KeepMask(docs), |docs|)
  }

  /** The records of the flagged places among the first `n`, in search order. */
  function FilteredUpTo(docs: seq<PlaceDoc>, mask: seq<bool>, n: nat): seq<Hospital>
    requires |mask| == |docs| && n <= |docs|
  {
    if n == 0 then [] else FilteredUpTo(docs, mask, n - 1) + (if mask[n - 1] then [ToHospital(docs[n - 1])] else [])
  }

  /** The `k`-th record is the record of the `k`-th flagged place. */
  lemma {:induction false} FilteredUpToPositions(docs: seq<PlaceDoc>, mask: seq<bool>, n: nat)
    requires |mask| == |docs| && n <= |docs|
    ensures |FilteredUpTo(docs, mask, n)| == |SetUpTo(mask, n)|
    ensures forall k :: 0 <= k < |SetUpTo(mask, n)| ==>
      FilteredUpTo(docs, mask, n)[k] == ToHospital(docs[SetUpTo(mask, n)[k]])
  {
    if n > 0 {
      FilteredUpToPositions(docs, mask, n - 1);
    }
  }

  /** The records of the kept places, one per kept place, in search order. */
  function Filtered(docs: seq<PlaceDoc>): (r: seq<Hospital>)
    ensures |r| == |KeptPositions(docs)| <= |docs|
    ensures forall k :: 0 <= k < |r| ==> r[k] == ToHospital(docs[KeptPositions(docs)[k]])
    ensures forall h :: h in r ==> Keep(h.name) && exists d :: d in docs && ToHospital(d) == h
    ensures forall d :: d in docs && Keep(d.placeName) ==> ToHospital(d) in r
  {
    var r := FilteredUpTo(docs, KeepMask(docs), |docs|);
    var idx := KeptPositions(docs);
    FilteredUpToPositions(docs, KeepMask(docs), |docs|);
    forall h | h in r ensures Keep(h.name) && exists d :: d in docs && ToHospital(d) == h {
      var k :| 0 <= k < |r| && r[k] == h;
      assert idx[k] in idx;
      assert docs[idx[k]] in docs;
    }
    forall d | d in docs && Keep(d.placeName) ensures ToHospital(d) in r {
      var i :| 0 <= i < |docs| && docs[i] == d;
      assert i in idx;
      var k :| 0 <= k < |idx| && idx[k] == i;
      assert r[k] == ToHospital(d);
    }
    r
  }

  /** The loop at the start of the update handler that builds the hospital list. */
  method CollectHospitals(docs: seq<PlaceDoc>) returns (hospitals: seq<Hospital>)
    ensures hospitals == Filtered(docs)
  {
    hospitals := [];
    for i := 0 to |docs|
      invariant hospitals == FilteredUpTo(docs, KeepMask(docs), i)
    {
      var d := docs[i];
      FilteredStep(docs, i);
      if ContainsAny(d.placeName, ExcludeKeywords) { continue; }
      if !ContainsAny(d.placeName, IncludeKeywords) { continue; }
      hospitals := hospitals + [ToHospital(d)];
    }
  }

  /** One more place: its record is appended iff it is kept. */
  lemma FilteredStep(docs: seq<PlaceDoc>, i: nat)
    requires i < |docs|
    ensures FilteredUpTo(docs, KeepMask(docs), i + 1) ==
      FilteredUpTo(docs, KeepMask(docs), i) + (if Keep(docs[i].placeName) then [ToHospital(docs[i])] else [])
  {
  }


  /** Exclusion wins: any name containing the clinic marker is dropped, whatever else it contains. */
  lemma ClinicDropped(name: string)
    requires Contains(name, "의원")
    ensures !Keep(name)
  {
    assert ExcludeKeywords[9] == "의원";
    KeepMeaning(name);
  }

  /** A hospital name that contains "병원" and no exclude keyword is kept. */
  lemma HospitalKept(name: string)
    requires Contains(name, "병원")
    requires forall j :: 0 <= j < |ExcludeKeywords| ==> !Contains(name, ExcludeKeywords[j])
    ensures Keep(name)
  {
    assert IncludeKeywords[4] == "병원";
    KeepMeaning(name);
  }
}
