// Stable sorting by counting: how many entries of a byte table are equal to or
// below a value, and the place each entry takes. The inverse Burrows-Wheeler
// transform and the canonical Huffman tables both rest on it.
module CountingRank {
  import opened Bits
  import opened Permutations

  // Occurrences of c before position i.
  function Occ(l: seq<byte>, c: int, i: nat): (n: nat)
    requires i <= |l|
    ensures n <= i
  {
    if i == 0 then 0 else Occ(l, c, i - 1) + (if l[i - 1] == c then 1 else 0)
  }

  lemma OccStep(l: seq<byte>, c: int, i: nat)
    requires i < |l|
    ensures Occ(l, c, i + 1) == Occ(l, c, i) + (if l[i] == c then 1 else 0)
  {
  }

  // Entries smaller than c before position i: the cumulative table.
  function Less(l: seq<byte>, c: nat, i: nat): nat
    requires i <= |l|
  {
    if c == 0 then 0 else Less(l, c - 1, i) + Occ(l, c - 1, i)
  }

  lemma {:induction false} LessStep(l: seq<byte>, c: nat, i: nat)
    requires i < |l|
    ensures Less(l, c, i + 1) == Less(l, c, i) + (if l[i] < c then 1 else 0)
  {
    if c > 0 {
      LessStep(l, c - 1, i);
    }
  }

  lemma {:induction false} LessAll(l: seq<byte>, i: nat)
    requires i <= |l|
    ensures Less(l, 256, i) == i
  {
    if i == 0 {
      LessNone(l, 256);
    } else {
      LessAll(l, i - 1);
      LessStep(l, 256, i - 1);
    }
  }

  lemma LessZero(l: seq<byte>, i: nat)
    requires i <= |l|
    ensures Less(l, 0, i) == 0
  {
  }

  lemma {:induction false} LessNone(l: seq<byte>, c: nat)
    ensures Less(l, c, 0) == 0
  {
    if c > 0 { LessNone(l, c - 1); }
  }

  lemma {:induction false} LessMono(l: seq<byte>, c: nat, d: nat, i: nat)
    requires c <= d && i <= |l|
    ensures Less(l, c, i) <= Less(l, d, i)
  {
    if c < d { LessMono(l, c, d - 1, i); }
  }

  lemma {:induction false} OccMono(l: seq<byte>, c: int, i: nat, j: nat)
    requires i <= j <= |l|
    ensures Occ(l, c, i) <= Occ(l, c, j)
  {
    if i < j { OccMono(l, c, i, j - 1); }
  }

  // Where a stable sort puts entry i.
  function Rank(l: seq<byte>, i: nat): nat
    requires i < |l|
  {
    Less(l, l[i], |l|) + Occ(l, l[i], i)
  }

  ghost function Ranks(l: seq<byte>): seq<nat>
  {
    seq(|l|, i requires 0 <= i < |l| => Rank(l, i))
  }

  lemma RankIs(l: seq<byte>, i: nat)
    requires i < |l|
    ensures Rank(l, i) == Less(l, l[i], |l|) + Occ(l, l[i], i)
  {
  }

  lemma RankInBucket(l: seq<byte>, i: nat)
    requires i < |l|
    ensures Less(l, l[i], |l|) <= Rank(l, i) < Less(l, l[i] as int + 1, |l|) <= |l|
  {
    OccMono(l, l[i], i + 1, |l|);
    LessMono(l, l[i] as int + 1, 256, |l|);
    LessAll(l, |l|);
  }

  lemma RankOrder(l: seq<byte>, i: nat, j: nat)
    requires i < |l| && j < |l|
    requires l[i] < l[j] || (l[i] == l[j] && i < j)
    ensures Rank(l, i) < Rank(l, j)
  {
    if l[i] < l[j] {
      RankInBucket(l, i);
      LessMono(l, l[i] as int + 1, l[j], |l|);
    } else {
      OccMono(l, l[i], i + 1, j);
    }
  }

  lemma RanksArePermutation(l: seq<byte>)
    ensures IsPermutation(Ranks(l)) && |Ranks(l)| == |l|
  {
    var t := Ranks(l);
    forall i | 0 <= i < |l| ensures t[i] < |l| { RankInBucket(l, i); }
    forall i, j | 0 <= i < j < |l| ensures t[i] != t[j] {
      if l[i] <= l[j] { RankOrder(l, i, j); } else { RankOrder(l, j, i); }
    }
  }

  // Which entry a stable sort puts at position j. For the last column of a
  // Burrows-Wheeler matrix this is the map T^-1.
  ghost function Back(l: seq<byte>): (p: seq<nat>)
    ensures |p| == |l| && Below(p, |l|)
  {
    RanksArePermutation(l);
    Inverse(Ranks(l))
  }

  lemma BackProperties(l: seq<byte>)
    ensures IsPermutation(Back(l)) && IsPermutation(Ranks(l)) && |Ranks(l)| == |l| && Back(l) == Inverse(Ranks(l))
    ensures forall j :: 0 <= j < |l| ==> Rank(l, Back(l)[j]) == j
    ensures forall i :: 0 <= i < |l| ==> Rank(l, i) < |l| && Back(l)[Rank(l, i)] == i
  {
    RanksArePermutation(l);
    var t, p := Ranks(l), Back(l);
    assert forall j :: 0 <= j < |l| ==> t[p[j]] == j;
    assert forall i :: 0 <= i < |l| ==> t[i] == Rank(l, i) && p[t[i]] == i;
  }

  // Sorted position order is value order, then entry order.
  lemma BackOrder(l: seq<byte>, j: nat, k: nat)
    requires j < k < |l|
    ensures var p := Back(l); l[p[j]] < l[p[k]] || (l[p[j]] == l[p[k]] && p[j] < p[k])
  {
    var p := Back(l);
    BackProperties(l);
    if l[p[j]] > l[p[k]] || (l[p[j]] == l[p[k]] && p[j] > p[k]) {
      RankOrder(l, p[k], p[j]);
      assert false;
    }
  }
}
