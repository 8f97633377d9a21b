// Index sequences without repetition: the pigeonhole principle, permutations
// of 0..n-1 and their inverses.
module Permutations {

  ghost predicate Distinct(s: seq<nat>)
  {
    forall i, j :: 0 <= i < j < |s| ==> s[i] != s[j]
  }

  ghost predicate Below(s: seq<nat>, n: nat)
  {
    forall i :: 0 <= i < |s| ==> s[i] < n
  }

  ghost predicate IsPermutation(s: seq<nat>)
  {
    Distinct(s) && Below(s, |s|)
  }

  lemma Apart(s: seq<nat>, i: nat, j: nat)
    requires Distinct(s) && i < |s| && j < |s| && i != j
    ensures s[i] != s[j]
  {
  }

  lemma DistinctAppend(s: seq<nat>, x: nat)
    requires Distinct(s) && x !in s
    ensures Distinct(s + [x])
  {
    forall i, j | 0 <= i < j < |s + [x]| ensures (s + [x])[i] != (s + [x])[j] {
      assert s[i] in s;
    }
  }

  lemma {:induction false} Pigeonhole(s: seq<nat>, n: nat)
    requires Distinct(s) && Below(s, n)
    ensures |s| <= n
    decreases n
  {
    if s == [] {
    } else if k :| 0 <= k < |s| && s[k] == n - 1 {
      var t := s[..k] + s[k + 1..];
      forall i | 0 <= i < |t| ensures t[i] < n - 1 {
        var i' := if i < k then i else i + 1;
        assert t[i] == s[i'] && s[i'] != s[k];
      }
      forall i, j | 0 <= i < j < |t| ensures t[i] != t[j] {
        assert t[i] == s[if i < k then i else i + 1] && t[j] == s[if j < k then j else j + 1];
      }
      Pigeonhole(t, n - 1);
    } else {
      assert s[0] < n;
      Pigeonhole(s, n - 1);
    }
  }

  lemma PermutationHits(s: seq<nat>, j: nat)
    requires IsPermutation(s) && j < |s|
    ensures j in s
  {
    if j !in s {
      var n := |s|;
      var t := seq(n, i requires 0 <= i < n => if s[i] == n - 1 then j else s[i]);
      forall i | 0 <= i < n ensures t[i] < n - 1 {
        if s[i] == j { assert false; }
      }
      forall i, i' | 0 <= i < i' < n ensures t[i] != t[i'] {
        assert s[i] != s[i'] && s[i] in s && s[i'] in s;
      }
      Pigeonhole(t, n - 1);
      assert false;
    }
  }

  // The place of j in s.
  ghost function IndexOf(s: seq<nat>, j: nat): (i: nat)
    requires j in s
    ensures i < |s| && s[i] == j
  {
    var i :| 0 <= i < |s| && s[i] == j; i
  }

  ghost function Inverse(s: seq<nat>): (t: seq<nat>)
    requires IsPermutation(s)
    ensures |t| == |s| && IsPermutation(t)
    ensures forall j :: 0 <= j < |s| ==> t[j] < |s| && s[t[j]] == j
    ensures forall i :: 0 <= i < |s| ==> s[i] < |s| && t[s[i]] == i
  {
    var t := seq(|s|, j requires 0 <= j < |s| => PermutationHits(s, j); IndexOf(s, j));
    assert forall j, j' :: 0 <= j < j' < |s| ==> t[j] != t[j'] by {
      forall j, j' | 0 <= j < j' < |s| ensures t[j] != t[j'] {
        assert s[t[j]] == j && s[t[j']] == j';
      }
    }
    t
  }
}
