/** Python's substring test `k in s` and `any(k in s for k in keys)` on strings. */
module Text {

  /** `k` occurs in `s` starting at position `i`. */
  predicate OccursAt(s: string, k: string, i: int) {
    0 <= i && i + |k| <= |s| && s[i..i + |k|] == k
  }

  /** `k in s`: `k` occurs in `s` as a contiguous substring (the empty string occurs everywhere). */
  function Contains(s: string, k: string): (b: bool)
    ensures b <==> exists i :: OccursAt(s, k, i)
    decreases |s|
  {
    if |k| <= |s| && s[..|k|] == k then
      assert OccursAt(s, k, 0);
      true
    else if |s| <= |k| then
      false
    else
      var r := Contains(s[1..], k);
      forall i | OccursAt(s, k, i) ensures i >= 1 && OccursAt(s[1..], k, i - 1) {
        assert i != 0;
        ShiftOccurrence(s, k, i - 1);
      }
      forall i | OccursAt(s[1..], k, i) ensures OccursAt(s, k, i + 1) {
        ShiftOccurrence(s, k, i);
      }
      r
  }

  /** An occurrence in the tail is an occurrence one position later in the whole string. */
  lemma ShiftOccurrence(s: string, k: string, i: int)
    requires |s| > 0 && i >= 0
    ensures OccursAt(s[1..], k, i) <==> OccursAt(s, k, i + 1)
  {
    if i + |k| <= |s| - 1 {
      assert s[1..][i..i + |k|] == s[i + 1..i + 1 + |k|];
    }
  }

  /** `any(k in s for k in keys)`. */
  function ContainsAny(s: string, keys: seq<string>): (b: bool)
    ensures b <==> exists j :: 0 <= j < |keys| && Contains(s, keys[j])
  {
    if keys == [] then false
    else Contains(s, keys[0]) || ContainsAny(s, keys[1..])
  }
}
