// From code lengths by symbol to code lengths in canonical order: the sort in
// zlib's inflate_table, its length counts, and the codes of section 3.2.2 of
// RFC 1951.
module SortedCodes {
  import opened Bits
  import opened CountingRank
  import opened CodeSpace

  ghost predicate Bounded(lens: seq<byte>)
  {
    forall i :: 0 <= i < |lens| ==> lens[i] <= MAXBITS
  }

  // Symbols that do not occur have length 0 and sort first.
  function Zeros(lens: seq<byte>): (z: nat)
    ensures z <= |lens|
  {
    Occ(lens, 0, |lens|)
  }

  // The symbols that occur, by length and then by symbol.
  ghost function Order(lens: seq<byte>): (order: seq<nat>)
    ensures |order| == |lens| - Zeros(lens)
  {
    Back(lens)[Zeros(lens)..]
  }

  ghost function Sorted(lens: seq<byte>): (ls: seq<nat>)
    ensures |ls| == |lens| - Zeros(lens)
  {
    seq(|Order(lens)|, s requires 0 <= s < |Order(lens)| => OrderIn(lens, s); lens[Order(lens)[s]] as nat)
  }

  lemma OrderIn(lens: seq<byte>, s: nat)
    requires s < |Order(lens)|
    ensures Order(lens)[s] < |lens| && Rank(lens, Order(lens)[s]) == s + Zeros(lens)
  {
    BackProperties(lens);
  }

  // Order lists exactly the symbols that occur, each at its rank.
  lemma OrderAt(lens: seq<byte>, i: nat)
    requires i < |lens| && lens[i] != 0
    ensures Zeros(lens) <= Rank(lens, i) < |lens|
    ensures Order(lens)[Rank(lens, i) - Zeros(lens)] == i
    ensures Sorted(lens)[Rank(lens, i) - Zeros(lens)] == lens[i]
  {
    BackProperties(lens);
    RankInBucket(lens, i);
    LessMono(lens, 1, lens[i], |lens|);
    LessOne(lens);
  }

  lemma LessOne(lens: seq<byte>)
    ensures Less(lens, 1, |lens|) == Zeros(lens)
  {
    assert Less(lens, 0, |lens|) == 0;
  }

  // Positions of length l are those between the counts of shorter and of no longer lengths.
  lemma InBucket(lens: seq<byte>, s: nat, l: nat)
    requires s < |Sorted(lens)|
    ensures Sorted(lens)[s] == l <==> Less(lens, l, |lens|) <= s + Zeros(lens) < Less(lens, l + 1, |lens|)
    ensures Sorted(lens)[s] >= 1
  {
    hide Less, Occ;
    OrderIn(lens, s);
    var i := Order(lens)[s];
    RankInBucket(lens, i);
    LessOne(lens);
    if lens[i] < l { LessMono(lens, lens[i] as int + 1, l, |lens|); }
    if lens[i] > l { LessMono(lens, l + 1, lens[i], |lens|); }
  }

  lemma SortedAscends(lens: seq<byte>)
    requires Bounded(lens)
    ensures Ascending(Sorted(lens))
  {
    hide Less, Occ;
    var ls := Sorted(lens);
    forall s | 0 <= s < |ls| ensures 1 <= ls[s] <= MAXBITS {
      InBucket(lens, s, 0);
      OrderIn(lens, s);
    }
    forall s, t | 0 <= s <= t < |ls| ensures ls[s] <= ls[t] {
      InBucket(lens, s, ls[s]);
      InBucket(lens, t, ls[t]);
      if ls[t] < ls[s] { LessMono(lens, ls[t] + 1, ls[s], |lens|); }
    }
  }

  // How many codes of length l are left from position s on: inflate_table's count.
  function Rem(ls: seq<nat>, s: nat, l: nat): nat
    requires s <= |ls|
    decreases |ls| - s
  {
    if s == |ls| then 0 else (if ls[s] == l then 1 else 0) + Rem(ls, s + 1, l)
  }

  lemma {:induction false} RemInBucket(lens: seq<byte>, s: nat, l: nat)
    requires s <= |Sorted(lens)| && 1 <= l <= MAXBITS
    ensures Rem(Sorted(lens), s, l) ==
            var lo, hi := Less(lens, l, |lens|), Less(lens, l + 1, |lens|); var at := s + Zeros(lens);
            if at >= hi then 0 else if at < lo then hi - lo else hi - at
    decreases |lens| - s
  {
    hide Less, Occ;
    LessMono(lens, l, l + 1, |lens|);
    LessMono(lens, l + 1, 256, |lens|);
    LessAll(lens, |lens|);
    if s < |Sorted(lens)| {
      RemInBucket(lens, s + 1, l);
      InBucket(lens, s, l);
    }
  }

  lemma RemIsCount(lens: seq<byte>, l: nat)
    requires 1 <= l <= MAXBITS
    ensures Rem(Sorted(lens), 0, l) == Occ(lens, l, |lens|)
  {
    RemInBucket(lens, 0, l);
    LessMono(lens, 1, l, |lens|);
    LessOne(lens);
    assert Less(lens, l + 1, |lens|) == Less(lens, l, |lens|) + Occ(lens, l, |lens|);
  }

  // ---------------------------------------------------------------------
  // The space taken by all codes up to a length
  // ---------------------------------------------------------------------

  // The space that the codes shorter than d take from position s on.
  function Taken(ls: seq<nat>, s: nat, d: nat): nat
    requires s <= |ls| && forall i :: 0 <= i < |ls| ==> ls[i] <= MAXBITS
    decreases |ls| - s
  {
    if s == |ls| then 0 else (if ls[s] < d then Width(ls[s]) else 0) + Taken(ls, s + 1, d)
  }

  lemma {:induction false} TakenStep(ls: seq<nat>, s: nat, d: nat)
    requires Ascending(ls) && s <= |ls| && d <= MAXBITS
    ensures Taken(ls, s, d + 1) == Taken(ls, s, d) + Rem(ls, s, d) * Width(d)
    decreases |ls| - s
  {
    if s < |ls| {
      hide Width;
      TakenStep(ls, s + 1, d);
      MulDist(1, Rem(ls, s + 1, d), Width(d));
    }
  }

  lemma {:induction false} TakenNone(ls: seq<nat>, s: nat, d: nat)
    requires Ascending(ls) && s <= |ls| && (forall i :: s <= i < |ls| ==> ls[i] >= d)
    ensures Taken(ls, s, d) == 0
    decreases |ls| - s
  {
    if s < |ls| { TakenNone(ls, s + 1, d); }
  }

  // All shorter codes come first.
  lemma {:induction false} TakenBefore(ls: seq<nat>, s: nat, d: nat, t: nat)
    requires Ascending(ls) && s <= t < |ls| && d <= ls[t]
    ensures Start(ls, s) + Taken(ls, s, d) <= Start(ls, t)
    decreases t - s
  {
    hide Width;
    if s == t {
      TakenNone(ls, s, d);
    } else {
      TakenBefore(ls, s + 1, d, t);
      StartStep(ls, s);
    }
  }

  lemma {:induction false} TakenAll(ls: seq<nat>, s: nat, d: nat)
    requires Ascending(ls) && s <= |ls| && d > MAXBITS
    ensures Start(ls, s) + Taken(ls, s, d) == Start(ls, |ls|)
    decreases |ls| - s
  {
    hide Width;
    if s < |ls| {
      TakenAll(ls, s + 1, d);
      StartStep(ls, s);
    }
  }

  lemma {:induction false} TakenMono(ls: seq<nat>, s: nat, d: nat, e: nat)
    requires Ascending(ls) && s <= |ls| && d <= e
    ensures Taken(ls, s, d) <= Taken(ls, s, e)
    decreases |ls| - s
  {
    hide Width;
    if s < |ls| { TakenMono(ls, s + 1, d, e); }
  }

  // ---------------------------------------------------------------------
  // The codes of RFC 1951
  // ---------------------------------------------------------------------

  // The smallest code of length n (next_code, with the count of length 0 set to 0).
  function FirstCode(lens: seq<byte>, n: nat): nat
  {
    if n <= 1 then 0 else 2 * (FirstCode(lens, n - 1) + Occ(lens, n - 1, |lens|))
  }

  lemma {:induction false} FirstCodeIsTaken(lens: seq<byte>, n: nat)
    requires Bounded(lens) && 1 <= n <= MAXBITS
    ensures Taken(Sorted(lens), 0, n) == FirstCode(lens, n) * Width(n)
  {
    hide Width, Occ;
    var ls := Sorted(lens);
    SortedAscends(lens);
    if n == 1 {
      TakenNone(ls, 0, 1);
    } else {
      FirstCodeIsTaken(lens, n - 1);
      TakenStep(ls, 0, n - 1);
      RemIsCount(lens, n - 1);
      WidthSplit(n - 1, n);
      assert Pow2(1) == 2;
      var a, b, w := FirstCode(lens, n - 1), Occ(lens, n - 1, |lens|), Width(n);
      MulDist(a, b, 2 * w);
      MulAssoc(a + b, 2, w);
      MulAssoc(2, a + b, w);
    }
  }

  // The interval of a symbol starts at its code of RFC 1951.
  lemma CanonicalCode(lens: seq<byte>, i: nat)
    requires Bounded(lens) && i < |lens| && lens[i] != 0
    ensures Rank(lens, i) - Zeros(lens) < |Sorted(lens)| && Rank(lens, i) >= Zeros(lens)
    ensures Ascending(Sorted(lens))
    ensures Start(Sorted(lens),
      Rank(lens, i) - Zeros(lens)) == (FirstCode(lens, lens[i]) + Occ(lens, lens[i], i)) * Width(lens[i])
  {
    hide Width, Less, Occ, Start, Sorted, Taken, FirstCode, Rank, Zeros, Order;
    var ls, l, z := Sorted(lens), lens[i] as nat, Zeros(lens);
    SortedAscends(lens);
    OrderAt(lens, i);
    LessOne(lens);
    LessMono(lens, 1, l, |lens|);
    RankInBucket(lens, i);
    RankIs(lens, i);
    FirstCodeIsTaken(lens, l);
    StartInBucket(lens, l, Less(lens, l, |lens|) - z, Rank(lens, i) - z);
    FirstOfBucket(lens, l);
    MulDist(FirstCode(lens, l), Occ(lens, l, i), Width(l));
  }

  lemma OneMore(k: int, w: int)
    ensures (k + 1) * w == k * w + w
  {
  }

  lemma {:induction false} StartInBucket(lens: seq<byte>, l: nat, s: nat, t: nat)
    requires Bounded(lens) && 1 <= l <= MAXBITS && s <= t && t + Zeros(lens) < Less(lens, l + 1, |lens|) <= |lens|
    requires s + Zeros(lens) == Less(lens, l, |lens|)
    ensures Ascending(Sorted(lens)) && t <= |Sorted(lens)|
    ensures Start(Sorted(lens), t) == Start(Sorted(lens), s) + (t - s) * Width(l)
  {
    hide Width, Less, Occ, Start, Sorted;
    SortedAscends(lens);
    if s < t {
      StartInBucket(lens, l, s, t - 1);
      StartStep(Sorted(lens), t - 1);
      InBucket(lens, t - 1, l);
      OneMore(t - 1 - s, Width(l));
    }
  }

  lemma FirstOfBucket(lens: seq<byte>, l: nat)
    requires Bounded(lens) && 1 <= l <= MAXBITS && Zeros(lens) <= Less(lens, l, |lens|) < |lens|
    requires Less(lens, l, |lens|) < Less(lens, l + 1, |lens|)
    ensures Ascending(Sorted(lens))
      && Start(Sorted(lens), Less(lens, l, |lens|) - Zeros(lens)) == Taken(Sorted(lens), 0, l)
  {
    hide Width, Less, Occ;
    SortedAscends(lens);
    TakenUpTo(lens, l, 0);
  }

  lemma {:induction false} TakenUpTo(lens: seq<byte>, l: nat, s: nat)
    requires Bounded(lens) && 1 <= l <= MAXBITS && s + Zeros(lens) <= Less(lens, l, |lens|) < |lens|
    requires Less(lens, l, |lens|) < Less(lens, l + 1, |lens|)
    ensures Ascending(Sorted(lens)) && s <= |Sorted(lens)|
    ensures Start(Sorted(lens), Less(lens, l, |lens|) - Zeros(lens)) == Start(Sorted(lens), s) + Taken(Sorted(lens), s,
      l)
    decreases |lens| - s
  {
    hide Width, Less, Occ, Start, Sorted;
    var ls := Sorted(lens);
    SortedAscends(lens);
    InBucket(lens, s, l);
    if s + Zeros(lens) == Less(lens, l, |lens|) {
      TakenNone(ls, s, l);
    } else {
      StartStep(ls, s);
      InBucket(lens, s, ls[s]);
      if ls[s] >= l { LessMono(lens, l, ls[s], |lens|); }
      TakenUpTo(lens, l, s + 1);
    }
  }
}
