// The hash chains of zlib's deflate.c: head[] holds the latest string of each
// hash, prev[] the string before it. A slot of prev[] is reused every w_size
// positions, and all positions move when the window slides; links are trusted
// only above a limit, where they lead to older strings of equal hash and pass
// over none of them.
module HashChains {
  import opened Bits
  import opened RollingHash

  // owner names the string whose link a slot of prev[] holds, and top the
  // latest string inserted; both move with the window and may be negative.
  datatype Chains = Chains(head: seq<nat>, prev: seq<nat>, owner: seq<int>, top: int)

  ghost function HashAt(w: seq<byte>, bits: nat, p: nat): nat
    requires p + 2 < |w|
  {
    Hash3(bits, w[p], w[p + 1], w[p + 2])
  }

  // p was inserted, and if it is recent its slot is still its own.
  ghost predicate Inserted(c: Chains, p: nat)
    requires c.owner != []
  {
    p <= c.top && (p > c.top - |c.owner| ==> c.owner[p % |c.owner|] == p)
  }

  ghost predicate HeadOk(w: seq<byte>, c: Chains, bits: nat, h: nat)
    requires h < |c.head| && c.owner != [] && c.top + 2 < |w|
  {
    c.head[h] == 0 || (Inserted(c, c.head[h]) && HashAt(w, bits, c.head[h]) == h)
  }

  ghost predicate PrevOk(w: seq<byte>, c: Chains, bits: nat, slot: nat)
    requires slot < |c.prev| == |c.owner| && c.top + 2 < |w|
  {
    c.owner[slot] > 0 ==>
      && c.owner[slot] <= c.top && c.owner[slot] % |c.owner| == slot
      && (c.prev[slot] == 0 ||
          (c.prev[slot] < c.owner[slot] && Inserted(c, c.prev[slot])
            && HashAt(w, bits, c.prev[slot]) == HashAt(w, bits, c.owner[slot])))
  }

  // A recent inserted string, whose link can be followed.
  ghost predicate Recent(c: Chains, p: nat)
    requires c.owner != []
  {
    0 < p <= c.top && p > c.top - |c.owner| && c.owner[p % |c.owner|] == p
  }

  // The link of the younger string q of the same hash leads to p.
  ghost predicate Successor(w: seq<byte>, c: Chains, bits: nat, p: nat, q: nat)
    requires |c.prev| == |c.owner| > 0 && c.top + 2 < |w| && p <= c.top
  {
    p < q && Recent(c, q) && HashAt(w, bits, q) == HashAt(w, bits, p) && c.prev[q % |c.owner|] == p
  }

  // A chain leads to p: it is the latest string of its hash, or some string's link leads to it.
  ghost predicate Pointed(w: seq<byte>, c: Chains, bits: nat, p: nat)
    requires |c.prev| == |c.owner| > 0 && c.top + 2 < |w| && p <= c.top
  {
    || (HashAt(w, bits, p) < |c.head| && c.head[HashAt(w, bits, p)] == p)
    || exists q: nat :: Successor(w, c, bits, p, q)
  }

  ghost predicate Chained(w: seq<byte>, c: Chains, bits: nat)
  {
    && |c.prev| == |c.owner| > 0 && c.top + 2 < |w|
    && (forall h: nat :: h < |c.head| ==> HeadOk(w, c, bits, h))
    && (forall slot: nat :: slot < |c.prev| ==> PrevOk(w, c, bits, slot))
    && (forall p: nat :: Recent(c, p) ==> Pointed(w, c, bits, p))
  }

  // Nothing inserted yet; prev[] may hold anything.
  lemma EmptyChains(w: seq<byte>, c: Chains, bits: nat)
    requires |c.prev| == |c.owner| > 0 && c.top < 0 && |w| >= 2
    requires (forall h: nat :: h < |c.head| ==> c.head[h] == 0) && (forall i :: 0 <= i < |c.owner| ==> c.owner[i] < 0)
    ensures Chained(w, c, bits)
  {
  }

  // Only bytes of inserted strings matter.
  lemma ChainedFrame(w: seq<byte>, w': seq<byte>, c: Chains, bits: nat)
    requires Chained(w, c, bits) && c.top + 2 < |w'| && forall i :: 0 <= i <= c.top + 2 ==> w'[i] == w[i]
    ensures Chained(w', c, bits)
  {
    hide Hash3;
    forall h: nat | h < |c.head| ensures HeadOk(w', c, bits, h) { assert HeadOk(w, c, bits, h); }
    forall slot: nat | slot < |c.prev| ensures PrevOk(w', c, bits, slot) { assert PrevOk(w, c, bits, slot); }
    forall p: nat | Recent(c, p) ensures Pointed(w', c, bits, p) { PointedFrame(w, w', c, bits, p); }
  }

  lemma PointedFrame(w: seq<byte>, w': seq<byte>, c: Chains, bits: nat, p: nat)
    requires |c.prev| == |c.owner| > 0 && c.top + 2 < |w| && p <= c.top && Pointed(w, c, bits, p)
    requires c.top + 2 < |w'| && forall i :: 0 <= i <= c.top + 2 ==> w'[i] == w[i]
    ensures Pointed(w', c, bits, p)
  {
    hide Hash3;
    if q: nat :| Successor(w, c, bits, p, q) { assert Successor(w', c, bits, p, q); }
  }

  // INSERT_STRING on the chains.
  function WithString(c: Chains, str: nat, h: nat): Chains
    requires c.owner != [] && |c.prev| == |c.owner| && h < |c.head|
  {
    Chains(c.head[h := str], c.prev[str % |c.owner| := c.head[h]], c.owner[str % |c.owner| := str], str)
  }

  lemma StillInserted(c: Chains, str: nat, h: nat, p: nat)
    requires c.owner != [] && |c.prev| == |c.owner| && h < |c.head| && Inserted(c, p) && c.top < str
    ensures Inserted(WithString(c, str, h), p)
  {
    if p > str - |c.owner| { DifferentSlots(p, str, |c.owner|); }
  }

  lemma DifferentSlots(p: nat, str: nat, n: nat)
    requires n > 0 && str - n < p < str
    ensures p % n != str % n
  {
    if p % n == str % n {
      var a, b := p / n, str / n;
      assert p == n * a + p % n && str == n * b + str % n;
      if a < b { MulStep(n, a, b); } else { MulMono(n, b, a); }
      assert false;
    }
  }

  lemma InsertKeeps(w: seq<byte>, c: Chains, bits: nat, str: nat, h: nat)
    requires Chained(w, c, bits) && c.top < str && str + 2 < |w| && h < |c.head| && h == HashAt(w, bits, str)
    ensures Chained(w, WithString(c, str, h), bits)
  {
    hide Hash3;
    var d := WithString(c, str, h);
    forall k: nat | k < |d.head| ensures HeadOk(w, d, bits, k) {
      assert HeadOk(w, c, bits, k);
      if k != h && c.head[k] != 0 { StillInserted(c, str, h, c.head[k]); }
    }
    forall slot: nat | slot < |d.prev| ensures PrevOk(w, d, bits, slot) {
      assert PrevOk(w, c, bits, slot) && HeadOk(w, c, bits, h);
      if slot != str % |c.owner| {
        if c.owner[slot] > 0 && c.prev[slot] != 0 { StillInserted(c, str, h, c.prev[slot]); }
      } else if c.head[h] != 0 {
        StillInserted(c, str, h, c.head[h]);
      }
    }
    forall p: nat | Recent(d, p) ensures Pointed(w, d, bits, p) { InsertPoints(w, c, bits, str, h, p); }
  }

  // A string that stays recent does not lose the link that leads to it.
  lemma InsertPoints(w: seq<byte>, c: Chains, bits: nat, str: nat, h: nat, p: nat)
    requires Chained(w, c, bits) && c.top < str && str + 2 < |w| && h < |c.head| && h == HashAt(w, bits, str)
    requires Recent(WithString(c, str, h), p)
    ensures Pointed(w, WithString(c, str, h), bits, p)
  {
    hide Hash3;
    var d := WithString(c, str, h);
    if p != str {
      DifferentSlots(p, str, |c.owner|);
      assert PrevOk(w, c, bits, p % |c.owner|);
      assert Recent(c, p) && Pointed(w, c, bits, p);
      if q: nat :| Successor(w, c, bits, p, q) {
        DifferentSlots(q, str, |c.owner|);
        assert Successor(w, d, bits, p, q);
      } else if h == HashAt(w, bits, p) {
        assert Successor(w, d, bits, p, str);
      }
    }
  }

  // One entry of head[] or prev[] when the window slides by n.
  function SlidEntry(m: nat, n: nat): nat
  {
    if m >= n then m - n else 0
  }

  ghost function Slid(c: Chains): (d: Chains)
    requires c.owner != []
  {
    var n := |c.owner|;
    Chains(seq(|c.head|, i requires 0 <= i < |c.head| => SlidEntry(c.head[i], n)),
           seq(|c.prev|, i requires 0 <= i < |c.prev| => SlidEntry(c.prev[i], n)),
           seq(|c.owner|, i requires 0 <= i < |c.owner| => c.owner[i] - n),
           c.top - n)
  }

  lemma SlideKeeps(w: seq<byte>, w': seq<byte>, c: Chains, bits: nat)
    requires Chained(w, c, bits) && |w'| == |w|
    requires forall i :: 0 <= i && i + |c.owner| <= c.top + 2 ==> w'[i] == w[i + |c.owner|]
    ensures Chained(w', Slid(c), bits)
  {
    hide Hash3;
    var d, n := Slid(c), |c.owner|;
    forall h: nat | h < |d.head| ensures HeadOk(w', d, bits, h) {
      assert HeadOk(w, c, bits, h);
      if c.head[h] > n { SlidInserted(w, w', c, bits, c.head[h]); }
    }
    forall slot: nat | slot < |d.prev| ensures PrevOk(w', d, bits, slot) {
      assert PrevOk(w, c, bits, slot);
      if c.owner[slot] > n {
        SameSlot(c.owner[slot], n);
        SlidHash(w, w', c, bits, c.owner[slot]);
        if c.prev[slot] > n { SlidInserted(w, w', c, bits, c.prev[slot]); }
      }
    }
    forall p: nat | Recent(d, p) ensures Pointed(w', d, bits, p) { SlidePoints(w, w', c, bits, p); }
  }

  lemma SlidePoints(w: seq<byte>, w': seq<byte>, c: Chains, bits: nat, p: nat)
    requires Chained(w, c, bits) && |w'| == |w|
    requires forall i :: 0 <= i && i + |c.owner| <= c.top + 2 ==> w'[i] == w[i + |c.owner|]
    requires Recent(Slid(c), p)
    ensures Pointed(w', Slid(c), bits, p)
  {
    hide HashAt;
    var n: nat := |c.owner|;
    var p1: nat := p + n;
    SameSlot(p1, n);
    assert Recent(c, p1) && Pointed(w, c, bits, p1);
    SlidHash(w, w', c, bits, p1);
    if q: nat :| Successor(w, c, bits, p1, q) {
      SameSlot(q, n);
      SlidHash(w, w', c, bits, q);
      assert Successor(w', Slid(c), bits, p, q - n);
    }
  }

  lemma SameSlot(p: nat, n: nat)
    requires n > 0 && p >= n
    ensures (p - n) % n == p % n
  {
    var a := p / n;
    assert p == n * a + p % n;
    assert p - n == n * (a - 1) + p % n;
    ModUnique(p - n, n, a - 1, p % n);
  }

  lemma SlidHash(w: seq<byte>, w': seq<byte>, c: Chains, bits: nat, p: nat)
    requires c.owner != [] && |c.owner| < p <= c.top && c.top + 2 < |w| && |w'| == |w|
    requires forall i :: 0 <= i && i + |c.owner| <= c.top + 2 ==> w'[i] == w[i + |c.owner|]
    ensures HashAt(w', bits, p - |c.owner|) == HashAt(w, bits, p)
  {
  }

  lemma SlidInserted(w: seq<byte>, w': seq<byte>, c: Chains, bits: nat, p: nat)
    requires c.owner != [] && Inserted(c, p) && p > |c.owner| && c.top + 2 < |w| && |w'| == |w|
    requires forall i :: 0 <= i && i + |c.owner| <= c.top + 2 ==> w'[i] == w[i + |c.owner|]
    ensures Inserted(Slid(c), p - |c.owner|) && HashAt(w', bits, p - |c.owner|) == HashAt(w, bits, p)
  {
    SameSlot(p, |c.owner|);
    SlidHash(w, w', c, bits, p);
  }

  // The k-th string of the chain that starts at p.
  ghost function Walk(prev: seq<nat>, p: nat, k: nat): nat
    requires prev != []
  {
    if k == 0 then p
    else
      var q := Walk(prev, p, k - 1);
      prev[q % |prev|]
  }

  // From the latest string of a hash, every recent string of that hash is
  // reached, and no string before it on the way is older.
  lemma {:induction false} Reached(w: seq<byte>, c: Chains, bits: nat, first: nat, p: nat) returns (k: nat)
    requires Chained(w, c, bits) && Recent(c, first) && Recent(c, p) && p != first
    requires HashAt(w, bits, first) < |c.head| && c.head[HashAt(w, bits, first)] == first
    requires HashAt(w, bits, p) == HashAt(w, bits, first)
    ensures Walk(c.prev, c.prev[first % |c.owner|], k) == p
    ensures forall j :: 0 <= j <= k ==> Walk(c.prev, c.prev[first % |c.owner|], j) >= p
    decreases c.top - p
  {
    hide Hash3;
    assert Pointed(w, c, bits, p);
    var q: nat :| Successor(w, c, bits, p, q);
    if q == first {
      k := 0;
    } else {
      k := Reached(w, c, bits, first, q);
      k := k + 1;
    }
  }

  // A link leads nowhere or to an older string of equal hash, which is itself recent or out of reach.
  lemma Follow(w: seq<byte>, c: Chains, bits: nat, p: nat)
    requires Chained(w, c, bits) && Recent(c, p)
    ensures var q := c.prev[p % |c.owner|];
            q == 0 || (q < p && HashAt(w, bits, q) == HashAt(w, bits, p) && (q > c.top - |c.owner| ==> Recent(c, q)))
  {
    hide Hash3;
    assert PrevOk(w, c, bits, p % |c.owner|);
  }
}
