// The two inverse-transform tables of bzip2's decompress.c: the packed chain
// tt (fast mode) and the 20-bit nibble-packed vector ll16/ll4 reversed in
// place along one cycle (small mode), and the binary search that reads the
// first column back from cftab.
module InverseTransform {
  import opened Bits
  import opened Permutations
  import opened CountingRank

  // ---------------------------------------------------------------------
  // cftab
  // ---------------------------------------------------------------------
  ghost function PrefixSum(a: seq<int>, c: nat): int
    requires c <= |a|
  {
    if c == 0 then 0 else PrefixSum(a, c - 1) + a[c - 1]
  }

  // The range checks on unzftab and cftab, as one condition.
  ghost predicate CountsFit(a: seq<int>, nblock: nat)
  {
    |a| == 256 && (forall c :: 0 <= c < 256 ==> 0 <= a[c] <= nblock) && PrefixSum(a, 256) <= nblock
  }

  lemma {:induction false} PrefixSumMono(a: seq<int>, c: nat, d: nat)
    requires c <= d <= |a| && forall k :: 0 <= k < |a| ==> 0 <= a[k]
    ensures PrefixSum(a, c) <= PrefixSum(a, d)
  {
    if c < d { PrefixSumMono(a, c, d - 1); }
  }

  // False is the BZ_DATA_ERROR return.
  method MakeCftab(unzftab: array<int>, nblock: nat, cftab: array<int>) returns (ok: bool)
    requires unzftab.Length == 256 && cftab.Length == 257 && unzftab != cftab
    modifies cftab
    ensures ok <==> CountsFit(unzftab[..], nblock)
    ensures ok ==> forall c :: 0 <= c <= 256 ==> cftab[c] == PrefixSum(unzftab[..], c)
  {
    var i := 0;
    while i <= 255
      invariant 0 <= i <= 256 && forall c :: 0 <= c < i ==> 0 <= unzftab[c] <= nblock
    {
      if unzftab[i] < 0 || unzftab[i] > nblock { return false; }
      i := i + 1;
    }
    Accumulate(unzftab, cftab);
    ok := CheckCftab(cftab, nblock, unzftab[..]);
  }

  method Accumulate(unzftab: array<int>, cftab: array<int>)
    requires unzftab.Length == 256 && cftab.Length == 257 && unzftab != cftab
    modifies cftab
    ensures forall c :: 0 <= c <= 256 ==> cftab[c] == PrefixSum(unzftab[..], c)
  {
    ghost var u := unzftab[..];
    cftab[0] := 0;
    var i := 1;
    while i <= 256
      invariant 1 <= i <= 257 && unzftab[..] == u && cftab[0] == 0
      invariant forall c :: 1 <= c < i ==> cftab[c] == u[c - 1]
    {
      cftab[i] := unzftab[i - 1];
      i := i + 1;
    }
    i := 1;
    while i <= 256
      invariant 1 <= i <= 257 && unzftab[..] == u
      invariant forall c :: 0 <= c < i ==> cftab[c] == PrefixSum(u, c)
      invariant forall c :: i <= c <= 256 ==> cftab[c] == u[c - 1]
    {
      cftab[i] := cftab[i] + cftab[i - 1];
      i := i + 1;
    }
  }

  method CheckCftab(cftab: array<int>, nblock: nat, ghost u: seq<int>) returns (ok: bool)
    requires cftab.Length == 257 && |u| == 256 && forall c :: 0 <= c < 256 ==> 0 <= u[c]
    requires forall c :: 0 <= c <= 256 ==> cftab[c] == PrefixSum(u, c)
    ensures ok <==> PrefixSum(u, 256) <= nblock
  {
    var i := 0;
    while i <= 256
      invariant 0 <= i <= 257 && forall c :: 0 <= c < i ==> 0 <= cftab[c] <= nblock
    {
      PrefixSumMono(u, 0, i);
      PrefixSumMono(u, i, 256);
      if cftab[i] < 0 || cftab[i] > nblock { return false; }
      i := i + 1;
    }
    i := 1;
    while i <= 256
      invariant 1 <= i <= 257
    {
      PrefixSumMono(u, i - 1, i);
      if cftab[i - 1] > cftab[i] { return false; }
      i := i + 1;
    }
    return true;
  }

  // The symbol counts of a column.
  ghost predicate Counts(u: seq<int>, l: seq<byte>)
  {
    |u| == 256 && forall c :: 0 <= c < 256 ==> u[c] == Occ(l, c, |l|)
  }

  // True counts always pass the checks, and their sums are the bucket starts.
  lemma CountsPass(u: seq<int>, l: seq<byte>)
    requires Counts(u, l)
    ensures CountsFit(u, |l|)
    ensures forall c :: 0 <= c <= 256 ==> PrefixSum(u, c) == Less(l, c, |l|)
  {
    forall c | 0 <= c <= 256 ensures PrefixSum(u, c) == Less(l, c, |l|) {
      SumIsLess(u, l, c);
    }
    LessAll(l, |l|);
  }

  lemma {:induction false} SumIsLess(u: seq<int>, l: seq<byte>, c: nat)
    requires Counts(u, l) && c <= 256
    ensures PrefixSum(u, c) == Less(l, c, |l|)
  {
    if c > 0 { SumIsLess(u, l, c - 1); }
  }

  // ---------------------------------------------------------------------
  // Fast: tt[j] ends as (T^-1[j] << 8) | l[j].
  // ---------------------------------------------------------------------
  ghost predicate IsPackedChain(tt: seq<nat>, l: seq<byte>)
  {
    |l| <= |tt| && forall j :: 0 <= j < |l| ==> tt[j] == l[j] + 256 * Back(l)[j]
  }

  lemma ChainWord(tt: seq<nat>, l: seq<byte>, j: nat)
    requires IsPackedChain(tt, l) && j < |l|
    ensures |l| <= |tt|
    ensures tt[j] % 256 == l[j] && tt[j] / 256 == Back(l)[j] < |l|
  {
    hide Back;
  }

  method BuildFast(tt: array<nat>, nblock: nat, cftab: array<int>, ghost l: seq<byte>)
    requires cftab.Length == 257 && |l| == nblock <= tt.Length
    requires forall k :: 0 <= k < nblock ==> tt[k] == l[k]
    requires forall c :: 0 <= c <= 256 ==> cftab[c] == Less(l, c, nblock)
    modifies tt, cftab
    ensures IsPackedChain(tt[..], l)
  {
    hide Less, Occ, Rank, Fields, Back, Pow2;
    ghost var p := Back(l);
    OccZero(l);
    var i := 0;
    while i < nblock
      invariant 0 <= i <= nblock
      invariant forall k :: 0 <= k < nblock ==> tt[k] == Partial(l[k], p[k], i)
      invariant forall c :: 0 <= c <= 255 ==> cftab[c] == Less(l, c, nblock) + Occ(l, c, i)
    {
      var uc := tt[i] % 256;
      assert uc == l[i];
      RankIs(l, i);
      assert cftab[uc] == Rank(l, i);
      PartialNext(l, i, tt[..]);
      PackByte(i, tt[cftab[uc]]);
      tt[cftab[uc]] := Fields(i, 8, tt[cftab[uc]]);       // |= i << 8
      cftab[uc] := cftab[uc] + 1;
      OccNext(l, i);
      i := i + 1;
    }
    AllSeen(tt[..], l);
  }

  lemma OccNext(l: seq<byte>, i: nat)
    requires i < |l|
    ensures forall c: int :: Occ(l, c, i + 1) == Occ(l, c, i) + (if l[i] == c then 1 else 0)
  {
  }

  lemma AllSeen(tt: seq<nat>, l: seq<byte>)
    requires |l| <= |tt| && forall k :: 0 <= k < |l| ==> tt[k] == Partial(l[k], Back(l)[k], |l|)
    ensures IsPackedChain(tt, l)
  {
    hide Back;
  }

  // A chain word before and after its row has been seen.
  function Partial(symbol: byte, row: nat, i: nat): nat
  {
    if row < i then symbol + 256 * row else symbol
  }

  // Seeing row i completes the word at its rank and no other.
  lemma PartialNext(l: seq<byte>, i: nat, w: seq<nat>)
    requires i < |l| <= |w| && |Back(l)| == |l| && forall k :: 0 <= k < |l| ==> w[k] == Partial(l[k], Back(l)[k], i)
    ensures Rank(l, i) < |l| && w[Rank(l, i)] < 256
    ensures forall k :: 0 <= k < |l|
              ==> w[Rank(l, i) := w[Rank(l, i)] + 256 * i][k] == Partial(l[k], Back(l)[k], i + 1)
  {
    hide Less, Occ, Rank, Back, IsPermutation;
    BackProperties(l);
    forall k | 0 <= k < |l| && k != Rank(l, i) ensures Back(l)[k] != i { assert Rank(l, Back(l)[k]) == k; }
  }

  lemma PackByte(i: nat, x: nat)
    requires x < 256
    ensures x < Pow2(8) && Fields(i, 8, x) == x + 256 * i
  {
    Pow2Values();
  }

  lemma OccZero(l: seq<byte>)
    ensures forall c :: Occ(l, c, 0) == 0
  {
  }

  // ---------------------------------------------------------------------
  // Small: 20-bit entries, low halves in ll16, high nibbles in ll4.
  // ---------------------------------------------------------------------
  function GetLL4(ll4: array<byte>, i: nat): nat
    requires i / 2 < ll4.Length
    reads ll4
  {
    if i % 2 == 0 then ll4[i / 2] % 16 else ll4[i / 2] / 16
  }

  function GetLL(ll16: array<nat>, ll4: array<byte>, i: nat): nat
    requires i < ll16.Length && i / 2 < ll4.Length && ll16[i] < 0x1_0000
    reads ll16, ll4
  {
    Pow2Values();
    Fields(GetLL4(ll4, i), 16, ll16[i])
  }

  ghost predicate Room(ll16: array<nat>, ll4: array<byte>, n: nat)
    reads ll16
  {
    && n <= ll16.Length && n <= 2 * ll4.Length
    && forall k :: 0 <= k < n ==> ll16[k] < 0x1_0000
  }

  // The vector the two arrays hold.
  ghost function Packed(ll16: array<nat>, ll4: array<byte>, n: nat): (s: seq<nat>)
    requires Room(ll16, ll4, n)
    reads ll16, ll4
    ensures |s| == n
  {
    seq(n, k requires 0 <= k < n && Room(ll16, ll4, n) reads ll16, ll4 => GetLL(ll16, ll4, k))
  }

  lemma PackedAt(ll16: array<nat>, ll4: array<byte>, n: nat, k: nat)
    requires Room(ll16, ll4, n) && k < n
    ensures Packed(ll16, ll4, n)[k] == GetLL(ll16, ll4, k)
  {
  }

  method SetLL4(ll4: array<byte>, i: nat, n: nat)
    requires i / 2 < ll4.Length && n < 16
    modifies ll4
    ensures GetLL4(ll4, i) == n
    ensures forall k: nat :: k / 2 < ll4.Length && k != i ==> GetLL4(ll4, k) == old(GetLL4(ll4, k))
  {
    hide Fields, Pow2;
    Pow2Values();
    if i % 2 == 0 {
      ll4[i / 2] := Fields(ll4[i / 2] / 16, 4, n);         // (& 0xf0) | n
    } else {
      ll4[i / 2] := Fields(n, 4, ll4[i / 2] % 16);         // (& 0x0f) | (n << 4)
    }
  }

  method SetLL(ll16: array<nat>, ll4: array<byte>, i: nat, v: nat, ghost n: nat)
    requires i < n && Room(ll16, ll4, n) && v < 0x10_0000
    modifies ll16, ll4
    ensures Room(ll16, ll4, n) && Packed(ll16, ll4, n) == old(Packed(ll16, ll4, n))[i := v]
    ensures forall k :: 0 <= k < ll16.Length && k != i ==> ll16[k] == old(ll16[k])
  {
    hide GetLL4, Fields, Pow2;
    ll16[i] := v % 0x1_0000;
    SetLL4(ll4, i, v / 0x1_0000);
    Pow2Values();
    assert GetLL(ll16, ll4, i) == v;
    assert forall k :: 0 <= k < n && k != i ==> GetLL4(ll4, k) == old(GetLL4(ll4, k));
  }

  method CopyCftab(cftab: array<int>, cftabCopy: array<int>)
    requires cftab.Length == cftabCopy.Length == 257 && cftab != cftabCopy
    modifies cftabCopy
    ensures forall c :: 0 <= c <= 256 ==> cftabCopy[c] == cftab[c]
  {
    var i := 0;
    while i <= 256
      invariant 0 <= i <= 257 && forall c :: 0 <= c < i ==> cftabCopy[c] == cftab[c]
      invariant cftab[..] == old(cftab[..])
    {
      cftabCopy[i] := cftab[i];
      i := i + 1;
    }
  }

  // The T vector: entry i is the sorted position of row i.
  method BuildSmall(ll16: array<nat>, ll4: array<byte>, nblock: nat, cftab: array<int>, cftabCopy: array<int>,
                    ghost l: seq<byte>)
    requires cftab.Length == cftabCopy.Length == 257 && cftab != cftabCopy
    requires |l| == nblock <= ll16.Length && nblock <= 2 * ll4.Length && nblock <= 0x10_0000
    requires forall k :: 0 <= k < nblock ==> ll16[k] == l[k]
    requires forall c :: 0 <= c <= 256 ==> cftab[c] == Less(l, c, nblock)
    modifies ll16, ll4, cftabCopy
    ensures Room(ll16, ll4, nblock) && Packed(ll16, ll4, nblock) == Ranks(l)
  {
    hide Less, Occ, Rank, Packed, GetLL;
    OccZero(l);
    CopyCftab(cftab, cftabCopy);
    var i := 0;
    while i < nblock
      invariant 0 <= i <= nblock && Room(ll16, ll4, nblock)
      invariant forall k :: i <= k < nblock ==> ll16[k] == l[k]
      invariant Packed(ll16, ll4, nblock)[..i] == Ranks(l)[..i]
      invariant forall c :: 0 <= c <= 255 ==> cftabCopy[c] == Less(l, c, nblock) + Occ(l, c, i)
    {
      var uc := ll16[i] % 256;
      RankIs(l, i);
      assert uc == l[i] && cftabCopy[uc] == Rank(l, i);
      RankInBucket(l, i);
      SetLL(ll16, ll4, i, cftabCopy[uc], nblock);
      assert Ranks(l)[..i + 1] == Ranks(l)[..i] + [Rank(l, i)];
      cftabCopy[uc] := cftabCopy[uc] + 1;
      OccNext(l, i);
      i := i + 1;
    }
  }

  // ---------------------------------------------------------------------
  // T^-1 by pointer reversal along the cycle of origPtr.
  // ---------------------------------------------------------------------

  // v follows p on the set xs, which p does not leave.
  ghost predicate AgreesOn(v: seq<nat>, p: seq<nat>, xs: set<nat>)
  {
    |v| == |p| && forall x: nat {:trigger AgreesAt(v, p, xs, x)} :: x in xs ==> AgreesAt(v, p, xs, x)
  }

  ghost predicate AgreesAt(v: seq<nat>, p: seq<nat>, xs: set<nat>, x: nat)
  {
    x < |v| && x < |p| && v[x] == p[x] && p[x] in xs
  }

  method ReverseCycle(ll16: array<nat>, ll4: array<byte>, n: nat, origPtr: nat, ghost t: seq<nat>)
    returns (ghost cycle: set<nat>)
    requires Room(ll16, ll4, n) && n <= 0x10_0000 && origPtr < n
    requires |t| == n && Packed(ll16, ll4, n) == t && IsPermutation(t)
    modifies ll16, ll4
    ensures Room(ll16, ll4, n)
    ensures origPtr in cycle && AgreesOn(Packed(ll16, ll4, n), Inverse(t), cycle)
    ensures forall y :: 0 <= y < n && y !in cycle ==> Packed(ll16, ll4, n)[y] == t[y]
  {
    hide Packed, GetLL, Inverse, OnPath, Reversed;
    ghost var xs: seq<nat> := [origPtr];   // the cycle so far, in the order of t
    PathStart(t, origPtr);
    PackedAt(ll16, ll4, n, origPtr);
    var i: nat, j: nat := origPtr, GetLL(ll16, ll4, origPtr);
    while true
      invariant Room(ll16, ll4, n) && i < n && j == t[i] < n
      invariant xs != [] && |xs| <= n && OnPath(xs, t, origPtr, i)
      invariant Reversed(Packed(ll16, ll4, n), t, xs)
      decreases n - |xs|
    {
      ghost var v := Packed(ll16, ll4, n);
      PackedAt(ll16, ll4, n, j);
      var tmp := GetLL(ll16, ll4, j);
      SetLL(ll16, ll4, j, i, n);
      if j == origPtr {
        cycle := set x | x in xs;
        CycleClosed(v, t, xs, origPtr, i);
        ClosedElsewhere(v, t, xs, origPtr, i);
      } else {
        PathGrows(v, t, xs, origPtr, i);
        xs := xs + [j];
      }
      i, j := j, tmp;
      if i == origPtr { break; }
    }
  }

  lemma PathStart(t: seq<nat>, o: nat)
    requires IsPermutation(t) && o < |t|
    ensures OnPath([o], t, o, o) && Reversed(t, t, [o]) && t[o] < |t|
  {
  }

  // xs is the path from o to i along t, without repetition.
  ghost predicate OnPath(xs: seq<nat>, t: seq<nat>, o: nat, i: nat)
  {
    && Distinct(xs) && Below(xs, |t|) && xs != [] && xs[0] == o && xs[|xs| - 1] == i
    && forall k :: 0 <= k < |xs| - 1 ==> xs[k + 1] == t[xs[k]]
  }

  // Every place after the first on the path points back, the others still forward.
  ghost predicate Reversed(v: seq<nat>, t: seq<nat>, xs: seq<nat>)
    requires IsPermutation(t) && xs != []
  {
    |v| == |t| && forall y :: 0 <= y < |t| ==> v[y] == if y in xs[1..] then Inverse(t)[y] else t[y]
  }

  lemma PathGrows(v: seq<nat>, t: seq<nat>, xs: seq<nat>, o: nat, i: nat)
    requires IsPermutation(t) && OnPath(xs, t, o, i) && Reversed(v, t, xs) && t[i] != o
    requires t[i] < |t|
    ensures OnPath(xs + [t[i]], t, o, t[i]) && t[t[i]] < |t| && |v| == |t| && v[t[i]] == t[t[i]]
    ensures Reversed(v[t[i] := i], t, xs + [t[i]]) && |xs| < |t|
  {
    hide Distinct, Inverse, Reversed;
    var j := t[i];
    NotYetSeen(t, xs, o, i);
    DistinctAppend(xs, j);
    Pigeonhole(xs + [j], |t|);
    ReversedMore(v, t, xs, i);
  }

  lemma ReversedMore(v: seq<nat>, t: seq<nat>, xs: seq<nat>, i: nat)
    requires IsPermutation(t) && xs != [] && Reversed(v, t, xs) && i < |t| && t[i] < |t| && t[i] !in xs
    ensures |v| == |t| && v[t[i]] == t[t[i]] && Reversed(v[t[i] := i], t, xs + [t[i]])
  {
    hide IsPermutation, Inverse;
    var j := t[i];
    assert (xs + [j])[1..] == xs[1..] + [j];
    assert Inverse(t)[j] == i;
    assert forall y :: y in xs[1..] ==> y in xs;
  }

  lemma NotYetSeen(t: seq<nat>, xs: seq<nat>, o: nat, i: nat)
    requires IsPermutation(t) && OnPath(xs, t, o, i) && t[i] != o
    ensures t[i] !in xs
  {
    hide Distinct;
    forall k | 0 <= k < |xs| ensures xs[k] != t[i] {
      if k > 0 {
        Apart(xs, k - 1, |xs| - 1);
        Apart(t, xs[k - 1], i);
      }
    }
  }

  // Backwards from a place on the closed path is another one; only o's way back has still to be noted.
  lemma PathBack(t: seq<nat>, xs: seq<nat>, o: nat, i: nat, x: nat)
    requires IsPermutation(t) && OnPath(xs, t, o, i) && t[i] == o && o < |t| && x in xs
    ensures x < |t| && Inverse(t)[x] in xs && (if x == o then Inverse(t)[x] == i else x in xs[1..])
  {
    hide Distinct, Inverse, IsPermutation;
    var k := IndexOf(xs, x);
    if k == 0 {
      assert Inverse(t)[t[i]] == i;
    } else {
      Apart(xs, 0, k);
      assert t[xs[k - 1]] == x && xs[1..][k - 1] == x;
      assert Inverse(t)[t[xs[k - 1]]] == xs[k - 1];
    }
  }

  lemma ClosedAt(v: seq<nat>, t: seq<nat>, xs: seq<nat>, o: nat, i: nat, x: nat)
    requires IsPermutation(t) && OnPath(xs, t, o, i) && Reversed(v, t, xs) && t[i] == o && o < |t| && x in xs
    ensures |v| == |t| && AgreesAt(v[o := i], Inverse(t), (set y | y in xs), x)
  {
    hide Distinct, Inverse, IsPermutation, OnPath;
    PathBack(t, xs, o, i, x);
  }

  lemma ClosedElsewhere(v: seq<nat>, t: seq<nat>, xs: seq<nat>, o: nat, i: nat)
    requires IsPermutation(t) && OnPath(xs, t, o, i) && Reversed(v, t, xs) && o < |t| && |v| == |t|
    ensures forall y :: 0 <= y < |t| && y !in xs ==> v[o := i][y] == t[y]
    ensures o in xs
  {
    hide Distinct, Inverse, IsPermutation;
    assert xs[0] == o;
  }

  lemma CycleClosed(v: seq<nat>, t: seq<nat>, xs: seq<nat>, o: nat, i: nat)
    requires IsPermutation(t) && OnPath(xs, t, o, i) && Reversed(v, t, xs) && t[i] == o
    requires o < |t| && |v| == |t|
    ensures AgreesOn(v[o := i], Inverse(t), set x | x in xs)
  {
    hide Distinct, Inverse, IsPermutation, OnPath, Reversed, AgreesAt;
    var s := set x | x in xs;
    forall x: nat | x in s ensures AgreesAt(v[o := i], Inverse(t), s, x) { ClosedAt(v, t, xs, o, i, x); }
  }

  // ---------------------------------------------------------------------
  // Reading the first column: the bucket of cftab that holds indx.
  // ---------------------------------------------------------------------
  method IndexIntoF(indx: int, cftab: array<int>) returns (nb: nat)
    requires cftab.Length == 257 && cftab[0] <= indx < cftab[256]
    ensures nb < 256 && cftab[nb] <= indx < cftab[nb + 1]
  {
    var na: nat := 256;
    nb := 0;
    while na - nb != 1
      invariant nb < na <= 256 && cftab[nb] <= indx < cftab[na]
      decreases na - nb
    {
      var mid := (nb + na) / 2;
      if indx >= cftab[mid] { nb := mid; } else { na := mid; }
    }
  }

  // The first column is the last column taken through T^-1.
  lemma FirstColumn(l: seq<byte>, indx: nat, nb: nat)
    requires indx < |l| && nb < 256 && Less(l, nb, |l|) <= indx < Less(l, nb + 1, |l|)
    ensures nb == l[Back(l)[indx]]
  {
    var i := Back(l)[indx];
    BackProperties(l);
    RankInBucket(l, i);
    if l[i] < nb {
      LessMono(l, l[i] as int + 1, nb, |l|);
    } else if l[i] > nb {
      LessMono(l, nb + 1, l[i], |l|);
    }
  }
}
