/**
 * The orderings that GraphData.permute enumerates: at depth `i` it swaps
 * each of positions i, i+1, ... into position i in turn, recurses on
 * depth i+1, and swaps back.
 */
module Orderings {

  /** The list after `Collections.swap(list, i, j)`. */
  function Swap(s: seq<nat>, i: nat, j: nat): (r: seq<nat>)
    requires i < |s| && j < |s|
    ensures |r| == |s| && r[i] == s[j] && r[j] == s[i]
    ensures forall k :: 0 <= k < |s| && k != i && k != j ==> r[k] == s[k]
  {
    s[i := s[j]][j := s[i]]
  }

  /**
   * The lists that `permute(list, i, result)` appends to `result`, in the
   * order it appends them.
   */
  function Permutations(s: seq<nat>, i: nat): (r: seq<seq<nat>>)
    requires i <= |s|
    ensures r != []
    decreases |s| - i, 1, 0
  {
    if i == |s| then [s] else Branches(s, i, |s|)
  }

  /** What the loop at depth `i` has appended once it has tried positions i .. j-1. */
  function Branches(s: seq<nat>, i: nat, j: nat): (r: seq<seq<nat>>)
    requires i < |s| && i <= j <= |s|
    ensures r == [] <==> j == i
    decreases |s| - i, 0, j
  {
    if j == i then [] else Branches(s, i, j - 1) + Permutations(Swap(s, i, j - 1), i + 1)
  }

  function Factorial(n: nat): (r: nat)
    ensures r >= 1
  {
    if n == 0 then 1 else n * Factorial(n - 1)
  }

  /** permute(list, i, ...) appends exactly (n - i)! lists. */
  lemma {:induction false} PermutationsCount(s: seq<nat>, i: nat)
    requires i <= |s|
    ensures |Permutations(s, i)| == Factorial(|s| - i)
    decreases |s| - i, 1, 0
  {
    if i < |s| {
      BranchesCount(s, i, |s|);
    }
  }

  lemma {:induction false} BranchesCount(s: seq<nat>, i: nat, j: nat)
    requires i < |s| && i <= j <= |s|
    ensures |Branches(s, i, j)| == (j - i) * Factorial(|s| - i - 1)
    decreases |s| - i, 0, j
  {
    if j > i {
      var f := Factorial(|s| - i - 1);
      BranchesCount(s, i, j - 1);
      PermutationsCount(Swap(s, i, j - 1), i + 1);
      assert |Branches(s, i, j)| == |Branches(s, i, j - 1)| + f;
      MulSucc(j - 1 - i, f);
    }
  }

  /** One more group of `f` lists. */
  lemma MulSucc(a: int, f: int)
    ensures a * f + f == (a + 1) * f
  {
  }

  /** A list that rearranges `s` and leaves its first `i` positions in place. */
  predicate Rearranges(p: seq<nat>, s: seq<nat>, i: nat)
    requires i <= |s|
  {
    |p| == |s| && multiset(p) == multiset(s) && p[..i] == s[..i]
  }

  lemma SwapRearranges(s: seq<nat>, i: nat, j: nat)
    requires i <= j < |s|
    ensures Rearranges(Swap(s, i, j), s, i)
  {
    var r := Swap(s, i, j);
    if i != j {
      assert r == s[i := s[j]][j := s[i]];
      assert multiset(s[i := s[j]]) == multiset(s) - multiset{s[i]} + multiset{s[j]};
    } else {
      assert r == s;
    }
  }

  /**
   * Every list that permute(list, i, ...) appends is a rearrangement of
   * `list` that keeps positions 0 .. i-1 unchanged.
   */
  lemma {:induction false} PermutationsRearrange(s: seq<nat>, i: nat)
    requires i <= |s|
    ensures forall p :: p in Permutations(s, i) ==> Rearranges(p, s, i)
    decreases |s| - i, 1, 0
  {
    if i < |s| {
      BranchesRearrange(s, i, |s|);
    }
  }

  lemma {:induction false} BranchesRearrange(s: seq<nat>, i: nat, j: nat)
    requires i < |s| && i <= j <= |s|
    ensures forall p :: p in Branches(s, i, j) ==> Rearranges(p, s, i)
    decreases |s| - i, 0, j
  {
    if j > i {
      BranchesRearrange(s, i, j - 1);
      PermutationsRearrange(Swap(s, i, j - 1), i + 1);
      SwappedBranchRearranges(s, i, j - 1, Swap(s, i, j - 1), Permutations(Swap(s, i, j - 1), i + 1));
      var left := Branches(s, i, j - 1);
      var right := Permutations(Swap(s, i, j - 1), i + 1);
      assert Branches(s, i, j) == left + right;
      forall p | p in Branches(s, i, j) ensures Rearranges(p, s, i) {
        assert p in left || p in right;
      }
    }
  }

  /** The lists appended after swapping position `k` into position `i` rearrange the list before the swap. */
  lemma SwappedBranchRearranges(s: seq<nat>, i: nat, k: nat, t: seq<nat>, ps: seq<seq<nat>>)
    requires i <= k < |s| && t == Swap(s, i, k)
    requires forall p :: p in ps ==> Rearranges(p, t, i + 1)
    ensures forall p :: p in ps ==> Rearranges(p, s, i)
  {
    SwapRearranges(s, i, k);
    forall p | p in ps ensures Rearranges(p, s, i) {
      RearrangesTrans(p, t, s, i);
    }
  }

  lemma RearrangesTrans(p: seq<nat>, t: seq<nat>, s: seq<nat>, i: nat)
    requires i < |s| && |t| == |s|
    requires Rearranges(p, t, i + 1) && Rearranges(t, s, i)
    ensures Rearranges(p, s, i)
  {
    assert p[..i] == p[..i + 1][..i];
    assert t[..i] == t[..i + 1][..i];
  }

  /**
   * Every rearrangement of `s` that keeps its first `i` positions is among
   * the lists permute(s, i, ...) appends: no ordering is missed.
   */
  lemma {:induction false} PermutationsComplete(s: seq<nat>, i: nat, p: seq<nat>)
    requires i <= |s| && Rearranges(p, s, i)
    ensures p in Permutations(s, i)
    decreases |s| - i
  {
    if i == |s| {
      assert p == p[..i] == s[..i] == s;
    } else {
      var j := SourceOf(p, s, i);
      var t := Swap(s, i, j);
      SwapMatches(p, s, i, j);
      PermutationsComplete(t, i + 1, p);
      BranchesContain(s, i, |s|, j);
    }
  }

  /** The element that a rearrangement puts at position `i` comes from position i or later. */
  lemma SourceOf(p: seq<nat>, s: seq<nat>, i: nat) returns (j: nat)
    requires i < |s| && Rearranges(p, s, i)
    ensures i <= j < |s| && s[j] == p[i]
  {
    assert p == p[..i] + p[i..] && s == s[..i] + s[i..];
    assert multiset(p) == multiset(p[..i]) + multiset(p[i..]);
    assert multiset(s) == multiset(s[..i]) + multiset(s[i..]);
    assert multiset(p[..i]) == multiset(s[..i]);
    assert multiset(p[i..]) == multiset(p) - multiset(p[..i]);
    assert multiset(s[i..]) == multiset(s) - multiset(s[..i]);
    assert p[i] in multiset(p[i..]) by { assert p[i..][0] == p[i]; }
    assert p[i] in s[i..];
    var m :| 0 <= m < |s[i..]| && s[i..][m] == p[i];
    j := i + m;
  }

  /** Swapping that source into position `i` agrees with the rearrangement up to position i. */
  lemma SwapMatches(p: seq<nat>, s: seq<nat>, i: nat, j: nat)
    requires i <= j < |s| && Rearranges(p, s, i) && s[j] == p[i]
    ensures Rearranges(p, Swap(s, i, j), i + 1)
  {
    var t := Swap(s, i, j);
    SwapRearranges(s, i, j);
    assert p[..i + 1] == p[..i] + [p[i]];
    assert t[..i + 1] == t[..i] + [t[i]];
  }

  lemma {:induction false} BranchesContain(s: seq<nat>, i: nat, j: nat, m: nat)
    requires i <= m < j <= |s|
    ensures forall p :: p in Permutations(Swap(s, i, m), i + 1) ==> p in Branches(s, i, j)
    decreases j
  {
    if m < j - 1 {
      BranchesContain(s, i, j - 1, m);
    }
  }
}
