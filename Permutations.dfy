/** Orderings of candidate indices, and the two operators the optimizer applies to them:
    one-point crossover and a swap of two positions. */
module Permutations {
  import opened Positions

  /** No index occurs twice. */
  predicate Distinct(s: seq<nat>) {
    forall i, j :: 0 <= i < j < |s| ==> s[i] != s[j]
  }

  /** `ch` is a reordering of `a`. */
  predicate IsPermutationOf(ch: seq<nat>, a: seq<nat>) {
    multiset(ch) == multiset(a)
  }

  /** In a sequence without repeats every element occurs exactly once. */
  lemma {:induction false} DistinctMultiplicity(s: seq<nat>)
    requires Distinct(s)
    ensures forall x :: multiset(s)[x] == if x in s then 1 else 0
  {
    if s != [] {
      assert s == [s[0]] + s[1..];
      assert Distinct(s[1..]) by {
        forall i, j | 0 <= i < j < |s[1..]| ensures s[1..][i] != s[1..][j] {
          assert s[1..][i] == s[i + 1] && s[1..][j] == s[j + 1];
        }
      }
      DistinctMultiplicity(s[1..]);
      assert s[0] !in s[1..] by {
        forall k | 0 <= k < |s[1..]| ensures s[1..][k] != s[0] {
          assert s[1..][k] == s[k + 1];
        }
      }
    }
  }

  /** An element at two positions occurs at least twice. */
  lemma RepeatCounted(s: seq<nat>, i: nat, j: nat)
    requires i < j < |s| && s[i] == s[j]
    ensures multiset(s)[s[i]] >= 2
  {
    assert s == s[..j] + s[j..];
    assert s[i] in s[..j];
    assert s[j] in s[j..];
  }

  /** A reordering of a sequence without repeats has no repeats and the same elements. */
  lemma PermutationOfDistinct(ch: seq<nat>, a: seq<nat>)
    requires Distinct(a) && IsPermutationOf(ch, a)
    ensures Distinct(ch)
    ensures forall x :: x in ch <==> x in a
  {
    DistinctMultiplicity(a);
    forall i, j | 0 <= i < j < |ch| ensures ch[i] != ch[j] {
      if ch[i] == ch[j] {
        RepeatCounted(ch, i, j);
        assert false;
      }
    }
    assert forall x :: x in ch <==> multiset(ch)[x] > 0;
  }

  /** Two sequences without repeats and with the same elements are reorderings of each other. */
  lemma SameElementsArePermutations(s: seq<nat>, t: seq<nat>)
    requires Distinct(s) && Distinct(t)
    requires forall x :: x in s <==> x in t
    ensures IsPermutationOf(s, t)
  {
    DistinctMultiplicity(s);
    DistinctMultiplicity(t);
    assert forall x :: multiset(s)[x] == multiset(t)[x];
  }

  /** Whether each gene of `p2` is still unused after `prefix`. */
  function UnusedMask(p2: seq<nat>, prefix: seq<nat>): (mask: seq<bool>)
    ensures |mask| == |p2|
    ensures forall i :: 0 <= i < |p2| ==> mask[i] == (p2[i] !in prefix)
  {
    seq(|p2|, i requires 0 <= i < |p2| => p2[i] !in prefix)
  }

  /** The positions of `p2` whose gene is not in `prefix`, in increasing order. */
  function UnusedPositions(p2: seq<nat>, prefix: seq<nat>): (idx: seq<nat>)
    ensures |idx| <= |p2|
    ensures forall k :: 0 <= k < |idx| ==> idx[k] < |p2|
    ensures forall j, k :: 0 <= j < k < |idx| ==> idx[j] < idx[k]
    ensures forall i :: 0 <= i < |p2| ==> (i in idx <==> p2[i] !in prefix)
  {
    SetUpTo(UnusedMask(p2, prefix), |p2|)
  }

  /** The flagged genes among the first `n` of `p2`, in `p2`'s order. */
  function RemainingUpTo(p2: seq<nat>, mask: seq<bool>, n: nat): seq<nat>
    requires |mask| == |p2| && n <= |p2|
  {
    if n == 0 then [] else RemainingUpTo(p2, mask, n - 1) + (if mask[n - 1] then [p2[n - 1]] else [])
  }

  /** The `k`-th kept gene is the gene at the `k`-th flagged position. */
  lemma {:induction false} RemainingUpToPositions(p2: seq<nat>, mask: seq<bool>, n: nat)
    requires |mask| == |p2| && n <= |p2|
    ensures |RemainingUpTo(p2, mask, n)| == |SetUpTo(mask, n)|
    ensures forall k :: 0 <= k < |SetUpTo(mask, n)| ==> RemainingUpTo(p2, mask, n)[k] == p2[SetUpTo(mask, n)[k]]
  {
    if n > 0 {
      RemainingUpToPositions(p2, mask, n - 1);
    }
  }

  /** `[c for c in p2 if c not in prefix]`: the unused genes of `p2`, one per position, in `p2`'s order. */
  function Remaining(p2: seq<nat>, prefix: seq<nat>): (r: seq<nat>)
    ensures |r| == |UnusedPositions(p2, prefix)|
    ensures forall k :: 0 <= k < |r| ==> r[k] == p2[UnusedPositions(p2, prefix)[k]]
    ensures forall x :: x in r <==> x in p2 && x !in prefix
    ensures Distinct(p2) ==> Distinct(r)
  {
    var r := RemainingUpTo(p2, UnusedMask(p2, prefix), |p2|);
    var idx := UnusedPositions(p2, prefix);
    RemainingUpToPositions(p2, UnusedMask(p2, prefix), |p2|);
    forall x | x in r ensures x in p2 && x !in prefix {
      var k :| 0 <= k < |r| && r[k] == x;
      assert idx[k] in idx;
    }
    forall x | x in p2 && x !in prefix ensures x in r {
      var i :| 0 <= i < |p2| && p2[i] == x;
      assert i in idx;
      var k :| 0 <= k < |idx| && idx[k] == i;
      assert r[k] == x;
    }
    r
  }

  /** One-point crossover: the first `cut` genes of `p1`, then the genes of `p2` not yet used, in `p2`'s order. */
  function Crossover(p1: seq<nat>, p2: seq<nat>, cut: nat): (child: seq<nat>)
    requires cut <= |p1|
    ensures child == p1[..cut] + Remaining(p2, p1[..cut])
    ensures |child| >= cut && child[..cut] == p1[..cut]
    ensures forall x :: x in child <==> x in p1[..cut] || x in p2
  {
    var prefix := p1[..cut];
    var child := prefix + Remaining(p2, prefix);
    assert child[..cut] == prefix;
    child
  }

  /** Crossover of two reorderings of `a` is a reordering of `a`. */
  lemma CrossoverPreservesPermutation(p1: seq<nat>, p2: seq<nat>, cut: nat, a: seq<nat>)
    requires Distinct(a) && IsPermutationOf(p1, a) && IsPermutationOf(p2, a)
    requires cut <= |p1|
    ensures IsPermutationOf(Crossover(p1, p2, cut), a)
  {
    PermutationOfDistinct(p1, a);
    PermutationOfDistinct(p2, a);
    var prefix := p1[..cut];
    var rest := Remaining(p2, prefix);
    var child := Crossover(p1, p2, cut);
    assert child == prefix + rest;
    forall i, j | 0 <= i < j < |child| ensures child[i] != child[j] {
      if j < cut {
        assert child[i] == p1[i] && child[j] == p1[j];
      } else if i < cut {
        assert child[i] in prefix;
        assert child[j] == rest[j - cut] && rest[j - cut] in rest;
      } else {
        assert child[i] == rest[i - cut] && child[j] == rest[j - cut];
      }
    }
    forall x ensures x in child <==> x in a {
      if x in prefix {
        assert x in p1;
      }
    }
    SameElementsArePermutations(child, a);
  }

  /** `child[i], child[j] = child[j], child[i]`. */
  function Swap(s: seq<nat>, i: nat, j: nat): (r: seq<nat>)
    requires i < |s| && j < |s|
    ensures |r| == |s| && r[i] == s[j] && r[j] == s[i]
    ensures forall k :: 0 <= k < |s| && k != i && k != j ==> r[k] == s[k]
    ensures multiset(r) == multiset(s)
  {
    s[i := s[j]][j := s[i]]
  }
}
