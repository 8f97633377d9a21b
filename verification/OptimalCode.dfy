// Huffman's theorem, one merge at a time: whatever lengths a complete or
// incomplete prefix code gives to the roots of a forest, merging the two
// lightest roots leaves lengths for the remaining ones that cost no more.
module OptimalCode {
  import opened Bits

  // The sum of v over the members of s below i.
  ghost function Over(s: set<nat>, v: seq<nat>, i: nat): nat
    requires i <= |v|
  {
    if i == 0 then 0 else Over(s, v, i - 1) + (if i - 1 in s then v[i - 1] else 0)
  }

  lemma {:induction false} OverChanged(s: set<nat>, v: seq<nat>, k: nat, y: nat, i: nat)
    requires i <= |v| && k < |v|
    ensures Over(s, v[k := y], i) == Over(s, v, i) + if k in s && k < i then y - v[k] else 0
  {
    if i > 0 { OverChanged(s, v, k, y, i - 1); }
  }

  lemma {:induction false} OverRemoved(s: set<nat>, v: seq<nat>, k: nat, i: nat)
    requires i <= |v| && k < |v| && k in s
    ensures Over(s, v, i) == Over(s - {k}, v, i) + if k < i then v[k] else 0
  {
    if i > 0 { OverRemoved(s, v, k, i - 1); }
  }

  lemma {:induction false} OverSame(s: set<nat>, v: seq<nat>, u: seq<nat>, c: nat, i: nat)
    requires i <= |v| == |u| && forall k :: 0 <= k < i && k in s ==> v[k] == c * u[k]
    ensures Over(s, v, i) == c * Over(s, u, i)
  {
    if i > 0 {
      OverSame(s, v, u, c, i - 1);
      MulDist(Over(s, u, i - 1), u[i - 1], c);
    }
  }

  // What a code of length m holds of the code space, in units of 2^-d.
  ghost function Units(m: seq<nat>, d: nat): (v: seq<nat>)
    ensures |v| == |m| && forall k :: 0 <= k < |m| && m[k] <= d ==> v[k] == Pow2(d - m[k])
  {
    seq(|m|, k requires 0 <= k < |m| => if m[k] <= d then Pow2(d - m[k]) else 0)
  }

  ghost function Costs(w: seq<nat>, m: seq<nat>): (v: seq<nat>)
    requires |w| == |m|
    ensures |v| == |m| && forall k :: 0 <= k < |m| ==> v[k] == w[k] * m[k]
  {
    seq(|m|, k requires 0 <= k < |m| => w[k] * m[k])
  }

  // The members of s have prefix-free codes of the lengths m, none above d.
  ghost predicate Fits(s: set<nat>, m: seq<nat>, d: nat)
  {
    (forall k :: k in s ==> k < |m| && m[k] <= d) && Over(s, Units(m, d), |m|) <= Pow2(d)
  }

  ghost function Cost(s: set<nat>, w: seq<nat>, m: seq<nat>): nat
    requires |w| == |m|
  {
    Over(s, Costs(w, m), |m|)
  }

  // a and b are the two lightest members.
  ghost predicate TwoLeast(s: set<nat>, w: seq<nat>, a: nat, b: nat)
  {
    && a in s && b in s && a != b && (forall k :: k in s ==> k < |w|)
    && w[a] <= w[b] && forall k :: k in s && k != a ==> w[b] <= w[k]
  }

  lemma Changed(s: set<nat>, w: seq<nat>, m: seq<nat>, d: nat, k: nat, y: nat)
    requires |w| == |m| && k < |m| && k in s && m[k] <= d && y <= d
    ensures Over(s, Units(m[k := y], d), |m|) == Over(s, Units(m, d), |m|) - Pow2(d - m[k]) + Pow2(d - y)
    ensures Cost(s, w, m[k := y]) == Cost(s, w, m) - w[k] * m[k] + w[k] * y
  {
    assert Units(m[k := y], d) == Units(m, d)[k := Pow2(d - y)];
    assert Costs(w, m[k := y]) == Costs(w, m)[k := w[k] * y];
    OverChanged(s, Units(m, d), k, Pow2(d - y), |m|);
    OverChanged(s, Costs(w, m), k, w[k] * y, |m|);
  }

  // A light member in exchange for a heavier one with a longer code costs no more.
  lemma Exchange(s: set<nat>, w: seq<nat>, m: seq<nat>, d: nat, a: nat, x: nat)
    requires |w| == |m| && Fits(s, m, d) && a in s && x in s && w[a] <= w[x] && m[a] <= m[x]
    ensures Fits(s, m[a := m[x]][x := m[a]], d) && Cost(s, w, m[a := m[x]][x := m[a]]) <= Cost(s, w, m)
  {
    if a == x {
      assert m[a := m[x]][x := m[a]] == m;
    } else {
      hide Pow2, Over;
      var m1 := m[a := m[x]];
      Changed(s, w, m, d, a, m[x]);
      Changed(s, w, m1, d, x, m[a]);
      Gain(w[a], w[x], m[a], m[x]);
    }
  }

  lemma Gain(wa: nat, wx: nat, la: nat, lx: nat)
    requires wa <= wx && la <= lx
    ensures wa * lx + wx * la <= wa * la + wx * lx
  {
    MulMono(lx - la, wa, wx);
    assert wa * lx == wa * la + wa * (lx - la) && wx * lx == wx * la + wx * (lx - la);
  }

  // With no code of length d the space can be counted in units twice as large.
  lemma Coarser(s: set<nat>, m: seq<nat>, d: nat)
    requires d > 0 && forall k :: k in s ==> k < |m| && m[k] < d
    ensures Over(s, Units(m, d), |m|) == 2 * Over(s, Units(m, d - 1), |m|)
  {
    forall k | 0 <= k < |m| && k in s ensures Units(m, d)[k] == 2 * Units(m, d - 1)[k] {
      Pow2Step(d - m[k]);
    }
    OverSame(s, Units(m, d), Units(m, d - 1), 2, |m|);
  }

  // A single longest code can be shortened.
  lemma Shorten(s: set<nat>, w: seq<nat>, m: seq<nat>, d: nat, x: nat)
    requires |w| == |m| && Fits(s, m, d) && d > 0 && x in s && m[x] == d
    requires forall k :: k in s && k != x ==> m[k] < d
    ensures Fits(s, m[x := d - 1], d - 1) && Cost(s, w, m[x := d - 1]) <= Cost(s, w, m)
  {
    hide Over;
    var m' := m[x := d - 1];
    Changed(s, w, m, d, x, d - 1);
    Coarser(s, m', d);
    Pow2Step(d);
    assert Pow2(0) == 1 && Pow2(1) == 2;
    MulMono(w[x], d - 1, d);
  }

  // Two members of length d at least.
  lemma {:induction false} Deepest(s: set<nat>, w: seq<nat>, m: seq<nat>, d: nat, a: nat, b: nat)
    returns (m': seq<nat>, d': nat, x: nat, y: nat)
    requires |w| == |m| && Fits(s, m, d) && a in s && b in s && a != b
    ensures |m'| == |m| && Fits(s, m', d') && Cost(s, w, m') <= Cost(s, w, m)
    ensures d' > 0 && x in s && y in s && x != y && m'[x] == m'[y] == d'
    decreases d
  {
    hide Over;
    if d == 0 { NoRoom(s, m, a, b); }
    if x0 :| x0 in s && m[x0] == d {
      if y0 :| y0 in s && m[y0] == d && y0 != x0 {
        m', d', x, y := m, d, x0, y0;
      } else {
        Shorten(s, w, m, d, x0);
        m', d', x, y := Deepest(s, w, m[x0 := d - 1], d - 1, a, b);
      }
    } else {
      Coarser(s, m, d);
      Pow2Step(d);
      m', d', x, y := Deepest(s, w, m, d - 1, a, b);
    }
  }

  lemma NoRoom(s: set<nat>, m: seq<nat>, a: nat, b: nat)
    requires a in s && b in s && a != b
    ensures !Fits(s, m, 0)
  {
    PowOnes();
    if Fits(s, m, 0) {
      OverRemoved(s, Units(m, 0), a, |m|);
      OverRemoved(s - {a}, Units(m, 0), b, |m|);
    }
  }

  // The two lightest members can have codes of the same, greatest length.
  lemma Siblings(s: set<nat>, w: seq<nat>, m: seq<nat>, d: nat, a: nat, b: nat) returns (m': seq<nat>, d': nat)
    requires |w| == |m| && Fits(s, m, d) && TwoLeast(s, w, a, b)
    ensures |m'| == |m| && Fits(s, m', d') && Cost(s, w, m') <= Cost(s, w, m)
    ensures d' > 0 && m'[a] == m'[b] == d'
  {
    hide Over, Pow2;
    var m1, d1, x, y := Deepest(s, w, m, d, a, b);
    var z := if x == a || y != a then x else y;
    // z is a if a has the greatest length, and the other one is left for b
    var u := if z == x then y else x;
    if m1[a] != d1 {
      Exchange(s, w, m1, d1, a, z);
      m1 := m1[a := m1[z]][z := m1[a]];
    }
    d' := d1;
    if m1[b] == d1 {
      m' := m1;
    } else {
      Exchange(s, w, m1, d1, b, u);
      m' := m1[b := m1[u]][u := m1[b]];
    }
  }

  // Two members become one, p, of their weights' sum: any code for them costs at
  // least that sum more than some code for what is then left.
  lemma MergeCosts(s: set<nat>, w: seq<nat>, m: seq<nat>, d: nat, a: nat, b: nat, p: nat)
    returns (m': seq<nat>, d': nat)
    requires |w| == |m| && Fits(s, m, d) && TwoLeast(s, w, a, b) && p !in s && p < |w|
    ensures |m'| == |m| && Fits(s - {a} - {b} + {p}, m', d')
    ensures Cost(s - {a} - {b} + {p}, w[p := w[a] + w[b]], m') + w[a] + w[b] <= Cost(s, w, m)
  {
    hide Over, Pow2;
    var m1;
    m1, d' := Siblings(s, w, m, d, a, b);
    m' := m1[p := d' - 1];
    var t, w' := s - {a} - {b}, w[p := w[a] + w[b]];
    TakeTwo(s, Units(m1, d'), a, b);
    TakeTwo(s, Costs(w, m1), a, b);
    PutOne(t, Units(m1, d'), p, Units(m', d'));
    PutOne(t, Costs(w, m1), p, Costs(w', m'));
    PowOnes();
    MulDist(w[a], w[b], d');
    assert (w[a] + w[b]) * (d' - 1) == (w[a] + w[b]) * d' - (w[a] + w[b]);
  }

  lemma PowOnes()
    ensures Pow2(0) == 1 && Pow2(1) == 2
  {
  }

  lemma TakeTwo(s: set<nat>, v: seq<nat>, a: nat, b: nat)
    requires a in s && b in s && a != b && a < |v| && b < |v|
    ensures Over(s, v, |v|) == Over(s - {a} - {b}, v, |v|) + v[a] + v[b]
  {
    OverRemoved(s, v, a, |v|);
    OverRemoved(s - {a}, v, b, |v|);
  }

  lemma PutOne(t: set<nat>, v: seq<nat>, p: nat, v': seq<nat>)
    requires p !in t && p < |v| == |v'| && forall k :: 0 <= k < |v| && k != p ==> v'[k] == v[k]
    ensures Over(t + {p}, v', |v'|) == Over(t, v, |v|) + v'[p]
  {
    OverRemoved(t + {p}, v', p, |v'|);
    assert t + {p} - {p} == t;
    assert v' == v[p := v'[p]];
    OverChanged(t, v, p, v'[p], |v|);
  }
}
