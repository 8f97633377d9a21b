// The Burrows-Wheeler transform as mathematics: the last column of the sorted
// rotations of a block, and the counting argument that undoes it.
module BurrowsWheeler {
  import opened Bits
  import opened Permutations
  import opened CountingRank

  // ---------------------------------------------------------------------
  // Lexicographic order
  // ---------------------------------------------------------------------
  ghost predicate Leq(a: seq<byte>, b: seq<byte>)
  {
    a == [] || (b != [] && (a[0] < b[0] || (a[0] == b[0] && Leq(a[1..], b[1..]))))
  }

  lemma {:induction false} LeqTotal(a: seq<byte>, b: seq<byte>)
    ensures Leq(a, b) || Leq(b, a)
  {
    if a != [] && b != [] && a[0] == b[0] {
      LeqTotal(a[1..], b[1..]);
    }
  }

  lemma {:induction false} LeqAntisymmetric(a: seq<byte>, b: seq<byte>)
    requires Leq(a, b) && Leq(b, a)
    ensures a == b
  {
    if a != [] && b != [] {
      LeqAntisymmetric(a[1..], b[1..]);
      assert a == [a[0]] + a[1..] && b == [b[0]] + b[1..];
    }
  }

  lemma {:induction false} LeqTransitive(a: seq<byte>, b: seq<byte>, c: seq<byte>)
    requires Leq(a, b) && Leq(b, c)
    ensures Leq(a, c)
  {
    if a != [] && b != [] && c != [] && a[0] == b[0] == c[0] {
      LeqTransitive(a[1..], b[1..], c[1..]);
    }
  }

  // Cutting both sides to the same length keeps the order.
  lemma {:induction false} LeqPrefix(a: seq<byte>, b: seq<byte>, k: nat)
    requires Leq(a, b) && k <= |a| && k <= |b|
    ensures Leq(a[..k], b[..k])
  {
    if k > 0 && a[0] == b[0] {
      LeqPrefix(a[1..], b[1..], k - 1);
      assert a[..k][1..] == a[1..][..k - 1] && b[..k][1..] == b[1..][..k - 1];
    }
  }

  // ---------------------------------------------------------------------
  // The transform
  // ---------------------------------------------------------------------
  ghost function Rotation(b: seq<byte>, i: nat): (r: seq<byte>)
    requires i <= |b|
    ensures |r| == |b|
  {
    b[i..] + b[..i]
  }

  ghost function Rotations(b: seq<byte>): seq<seq<byte>>
  {
    seq(|b|, i requires 0 <= i < |b| => Rotation(b, i))
  }

  // The rows of f taken in the order p.
  ghost function Rows(f: seq<seq<byte>>, p: seq<nat>): (m: seq<seq<byte>>)
    requires Below(p, |f|)
  {
    seq(|p|, r requires 0 <= r < |p| => f[p[r]])
  }

  ghost predicate Sorted(m: seq<seq<byte>>)
  {
    forall i, j :: 0 <= i < j < |m| ==> Leq(m[i], m[j])
  }

  // order is a suffix-array style ordering of the rotations of b.
  ghost predicate SortsRotations(b: seq<byte>, order: seq<nat>)
  {
    |order| == |b| && IsPermutation(order) && Sorted(Rows(Rotations(b), order))
  }

  ghost predicate IsLastColumn(b: seq<byte>, order: seq<nat>, l: seq<byte>)
    requires |order| == |b| && Below(order, |b|)
  {
    |l| == |b| && forall r :: 0 <= r < |b| ==> l[r] == Rotation(b, order[r])[|b| - 1]
  }

  // (l, origPtr) is a Burrows-Wheeler transform of b.
  ghost predicate IsTransform(b: seq<byte>, l: seq<byte>, origPtr: nat)
  {
    exists order :: TransformVia(b, order, l, origPtr)
  }

  ghost predicate TransformVia(b: seq<byte>, order: seq<nat>, l: seq<byte>, origPtr: nat)
  {
    && SortsRotations(b, order) && IsLastColumn(b, order, l)
    && origPtr < |b| && Rotation(b, order[origPtr]) == b
  }

  // ---------------------------------------------------------------------
  // Two sorted orders of the same rows give the same rows.
  // ---------------------------------------------------------------------
  lemma SortedRowsAgree(f: seq<seq<byte>>, p: seq<nat>, q: seq<nat>, i: nat)
    requires IsPermutation(p) && IsPermutation(q) && |p| == |q| == |f| && i < |f|
    requires Sorted(Rows(f, p)) && Sorted(Rows(f, q))
    ensures f[p[i]] == f[q[i]]
  {
    SortedRowsBelow(f, p, q, i);
    SortedRowsBelow(f, q, p, i);
    LeqAntisymmetric(f[p[i]], f[q[i]]);
  }

  // Otherwise the i+1 rows of q up to i would all fall among the first i rows of p.
  lemma SortedRowsBelow(f: seq<seq<byte>>, p: seq<nat>, q: seq<nat>, i: nat)
    requires IsPermutation(p) && IsPermutation(q) && |p| == |q| == |f| && i < |f|
    requires Sorted(Rows(f, p)) && Sorted(Rows(f, q))
    ensures Leq(f[p[i]], f[q[i]])
  {
    if !Leq(f[p[i]], f[q[i]]) {
      var m, m' := Rows(f, p), Rows(f, q);
      var inv := Inverse(p);
      var pos := seq(i + 1, k requires 0 <= k <= i => inv[q[k]]);
      forall k | 0 <= k <= i ensures pos[k] < i {
        assert m[pos[k]] == f[q[k]] == m'[k];
        if pos[k] >= i {
          if k < i { assert Leq(m'[k], m'[i]); }
          LeqTotal(m'[k], m'[i]);
          if pos[k] > i { assert Leq(m[i], m[pos[k]]); }
          LeqTotal(m[i], m[i]);
          LeqTransitive(m[i], m[pos[k]], m'[i]);
          assert false;
        }
      }
      forall k, k' | 0 <= k < k' <= i ensures pos[k] != pos[k'] {
        assert p[pos[k]] == q[k] && p[pos[k']] == q[k'];
      }
      Pigeonhole(pos, i);
      assert false;
    }
  }

  // ---------------------------------------------------------------------
  // One step back through the matrix is one rotation to the left.
  // ---------------------------------------------------------------------
  ghost function Shifted(order: seq<nat>, n: nat): (s: seq<nat>)
    requires Below(order, n)
    ensures |s| == |order| && Below(s, n)
  {
    seq(|order|, r requires 0 <= r < |order| => if order[r] == 0 then n - 1 else order[r] - 1)
  }

  // The rows rotated right by one, taken in the order T^-1, are sorted.
  lemma RotatedRowsSorted(b: seq<byte>, order: seq<nat>, l: seq<byte>) returns (q: seq<nat>)
    requires b != [] && SortsRotations(b, order) && IsLastColumn(b, order, l)
    ensures |q| == |b| && IsPermutation(q) && Sorted(Rows(Rotations(b), q))
    ensures forall j :: 0 <= j < |b| ==> q[j] == Shifted(order, |b|)[Back(l)[j]]
  {
    hide Rotation, Back, Leq;
    var n := |b|;
    var p, s := Back(l), Shifted(order, n);
    BackProperties(l);
    q := seq(n, j requires 0 <= j < n => s[p[j]]);
    forall i, j | 0 <= i < j < n ensures q[i] != q[j] {
      assert p[i] != p[j] && order[p[i]] != order[p[j]];
    }
    var m' := Rows(Rotations(b), q);
    forall i, j | 0 <= i < j < n ensures Leq(m'[i], m'[j]) { RotatedInOrder(b, order, l, i, j); }
  }

  lemma RotatedInOrder(b: seq<byte>, order: seq<nat>, l: seq<byte>, i: nat, j: nat)
    requires b != [] && SortsRotations(b, order) && IsLastColumn(b, order, l) && i < j < |b|
    ensures var s := Shifted(order, |b|);
            Leq(Rotation(b, s[Back(l)[i]]), Rotation(b, s[Back(l)[j]]))
  {
    hide Rotation, Back, Leq, IsPermutation;
    OrderBelow(b, order);
    var p, m := Back(l), Rows(Rotations(b), order);
    BackOrder(l, i, j);
    assert p[i] < p[j] ==> Leq(m[p[i]], m[p[j]]);
    RotatedPair(b, order[p[i]], order[p[j]]);
  }

  // Two rotations in order stay so when their last bytes move to the front.
  lemma RotatedPair(b: seq<byte>, i: nat, j: nat)
    requires i < |b| && j < |b|
    requires var x, y := Rotation(b, i), Rotation(b, j);
             x[|b| - 1] < y[|b| - 1] || (x[|b| - 1] == y[|b| - 1] && Leq(x, y))
    ensures Leq(Rotation(b, if i == 0 then |b| - 1 else i - 1), Rotation(b, if j == 0 then |b| - 1 else j - 1))
  {
    hide Rotation;
    var n, x, y := |b|, Rotation(b, i), Rotation(b, j);
    RotateRight(b, i);
    RotateRight(b, j);
    if x[n - 1] == y[n - 1] {
      LeqPrefix(x, y, n - 1);
      assert ([x[n - 1]] + x[..n - 1])[1..] == x[..n - 1];
      assert ([y[n - 1]] + y[..n - 1])[1..] == y[..n - 1];
    }
  }

  lemma RotateRight(b: seq<byte>, i: nat)
    requires i < |b|
    ensures var r := Rotation(b, i);
            Rotation(b, if i == 0 then |b| - 1 else i - 1) == [r[|b| - 1]] + r[..|b| - 1]
  {
    var n, r := |b|, Rotation(b, i);
    if i == 0 {
      assert r == b && b[n - 1..] == [b[n - 1]];
    } else {
      assert b[i - 1..] == [b[i - 1]] + b[i..] && b[..i] == b[..i - 1] + [b[i - 1]];
      assert r[..n - 1] == b[i..] + b[..i - 1];
    }
  }

  lemma StepBack(b: seq<byte>, order: seq<nat>, l: seq<byte>, j: nat)
    requires b != [] && j < |b| && SortsRotations(b, order) && IsLastColumn(b, order, l)
    ensures var i, r := Back(l)[j], Rotation(b, order[j]);
            l[i] == r[0] && Rotation(b, order[i]) == r[1..] + [r[0]]
  {
    var n := |b|;
    var q := RotatedRowsSorted(b, order, l);
    SortedRowsAgree(Rotations(b), order, q, j);
    var i, r := Back(l)[j], Rotation(b, order[j]);
    var r' := Rotation(b, order[i]);
    RotateRight(b, order[i]);
    assert Rotations(b)[q[j]] == Rotation(b, q[j]);
    assert r == [l[i]] + r'[..n - 1];
    assert r' == r'[..n - 1] + [r'[n - 1]];
  }

  // ---------------------------------------------------------------------
  // Walking the chain
  // ---------------------------------------------------------------------

  // k symbols read off the chain next, starting at row p.
  ghost function Chain(l: seq<byte>, next: seq<nat>, p: nat, k: nat): (s: seq<byte>)
    requires |next| == |l| && Below(next, |l|) && p < |l|
    ensures |s| == k
    decreases k
  {
    if k == 0 then [] else [l[p]] + Chain(l, next, next[p], k - 1)
  }

  // Inverse transform: the chain through T^-1 from origPtr spells b.
  lemma ChainSpellsBlock(b: seq<byte>, l: seq<byte>, origPtr: nat)
    requires IsTransform(b, l, origPtr)
    ensures |l| == |b| > origPtr
    ensures Chain(l, Back(l), Back(l)[origPtr], |b|) == b
  {
    hide TransformVia, Chain;
    var order :| TransformVia(b, order, l, origPtr);
    InverseVia(b, order, l, origPtr);
  }

  lemma InverseVia(b: seq<byte>, order: seq<nat>, l: seq<byte>, origPtr: nat)
    requires TransformVia(b, order, l, origPtr)
    ensures |l| == |b| > origPtr
    ensures Chain(l, Back(l), Back(l)[origPtr], |b|) == b
  {
    hide Chain, Sorted;
    assert Rotation(b, 0) == b[0..] == b;
    assert |order| == |b| && Below(order, |b|);
    ChainSpells(b, order, l, origPtr, 0);
  }

  lemma {:induction false} ChainSpells(b: seq<byte>, order: seq<nat>, l: seq<byte>, p: nat, k: nat)
    requires |order| == |b| && Below(order, |b|) && |l| == |b|
    requires k <= |b| && p < |b| && SortsRotations(b, order) && IsLastColumn(b, order, l)
    requires Rotation(b, order[p]) == Rotation(b, k)
    ensures Chain(l, Back(l), Back(l)[p], |b| - k) == b[k..]
    decreases |b| - k
  {
    hide Rotation, SortsRotations, IsLastColumn, Chain;
    if k < |b| {
      StepBack(b, order, l, p);
      RotateLeft(b, k);
      var i := Back(l)[p];
      ChainSpells(b, order, l, i, k + 1);
      ChainUnfold(l, Back(l), i, |b| - k);
      assert b[k..] == [b[k]] + b[k + 1..];
    }
  }

  lemma ChainUnfold(l: seq<byte>, next: seq<nat>, p: nat, k: nat)
    requires |next| == |l| && Below(next, |l|) && p < |l| && k > 0
    ensures Chain(l, next, p, k) == [l[p]] + Chain(l, next, next[p], k - 1)
  {
  }

  lemma RotateLeft(b: seq<byte>, k: nat)
    requires k < |b|
    ensures var r := Rotation(b, k); r[0] == b[k] && r[1..] + [r[0]] == Rotation(b, k + 1)
  {
    assert b[k..] == [b[k]] + b[k + 1..] && b[..k + 1] == b[..k] + [b[k]];
  }

  lemma {:induction false} ChainSplit(l: seq<byte>, next: seq<nat>, p: nat, k: nat, j: nat)
    requires |next| == |l| && Below(next, |l|) && p < |l|
    ensures Chain(l, next, p, k + j)[..k] == Chain(l, next, p, k)
    decreases k
  {
    hide Chain;
    if k > 0 {
      ChainUnfold(l, next, p, k);
      ChainUnfold(l, next, p, k + j);
      ChainSplit(l, next, next[p], k - 1, j);
      assert Chain(l, next, p, k + j)[..k] == [l[p]] + Chain(l, next, next[p], k - 1 + j)[..k - 1];
    }
  }

  // The last column holds only bytes of the block.
  lemma ColumnBytes(b: seq<byte>, l: seq<byte>, origPtr: nat, k: nat)
    requires IsTransform(b, l, origPtr) && k < |l|
    ensures l[k] in b
  {
    hide SortsRotations;
    var order :| TransformVia(b, order, l, origPtr);
    assert SortsRotations(b, order) && |l| == |b|;
    OrderBelow(b, order);
    assert l[k] == Rotation(b, order[k])[|b| - 1];
  }

  lemma OrderBelow(b: seq<byte>, order: seq<nat>)
    requires SortsRotations(b, order)
    ensures |order| == |b| && Below(order, |b|)
  {
  }

  // ---------------------------------------------------------------------
  // Every block has a transform.
  // ---------------------------------------------------------------------
  lemma TransformExists(b: seq<byte>) returns (l: seq<byte>, origPtr: nat)
    requires b != []
    ensures IsTransform(b, l, origPtr)
  {
    var order := SortedOrder(Rotations(b), |b|);
    l := seq(|b|, r requires 0 <= r < |b| => Rotation(b, order[r])[|b| - 1]);
    PermutationHits(order, 0);
    origPtr := IndexOf(order, 0);
    assert Rotation(b, 0) == b;
    assert TransformVia(b, order, l, origPtr);
  }

  lemma SortedOrder(f: seq<seq<byte>>, k: nat) returns (p: seq<nat>)
    requires k <= |f|
    ensures |p| == k && Distinct(p) && Below(p, k) && Sorted(Rows(f, p))
    decreases k
  {
    if k == 0 {
      p := [];
    } else {
      var q := SortedOrder(f, k - 1);
      var at := Place(f, q, k - 1);
      p := q[..at] + [k - 1] + q[at..];
      assert forall i :: 0 <= i < k ==> p[i] == if i < at then q[i] else if i == at then k - 1 else q[i - 1];
      InsertSorted(f, q, k - 1, at, p);
    }
  }

  // Where row x goes among the sorted rows q.
  lemma Place(f: seq<seq<byte>>, q: seq<nat>, x: nat) returns (at: nat)
    requires x < |f| && Below(q, |f|) && Sorted(Rows(f, q))
    ensures at <= |q|
    ensures forall i :: 0 <= i < at ==> Leq(f[q[i]], f[x])
    ensures forall i :: at <= i < |q| ==> Leq(f[x], f[q[i]])
  {
    at := 0;
    while at < |q| && Leq(f[q[at]], f[x])
      invariant at <= |q| && forall i :: 0 <= i < at ==> Leq(f[q[i]], f[x])
    {
      at := at + 1;
    }
    var m := Rows(f, q);
    forall i | at <= i < |q| ensures Leq(f[x], f[q[i]]) {
      LeqTotal(f[x], f[q[at]]);
      if at < i {
        assert Leq(m[at], m[i]);
        LeqTransitive(f[x], f[q[at]], f[q[i]]);
      }
    }
  }

  lemma InsertSorted(f: seq<seq<byte>>, q: seq<nat>, x: nat, at: nat, p: seq<nat>)
    requires x < |f| && Below(q, |f|) && Sorted(Rows(f, q)) && at <= |q|
    requires p == q[..at] + [x] + q[at..]
    requires forall i :: 0 <= i < at ==> Leq(f[q[i]], f[x])
    requires forall i :: at <= i < |q| ==> Leq(f[x], f[q[i]])
    ensures Below(p, |f|) && Sorted(Rows(f, p))
  {
    var m, m' := Rows(f, q), Rows(f, p);
    forall i, j | 0 <= i < j < |p| ensures Leq(m'[i], m'[j]) {
      if i < at && j < at {
        assert Leq(m[i], m[j]);
      } else if i < at && j == at {
        assert Leq(f[q[i]], f[x]);
      } else if i < at {
        assert Leq(m[i], m[j - 1]);
      } else if i == at {
        assert Leq(f[x], f[q[j - 1]]);
      } else {
        assert Leq(m[i - 1], m[j - 1]);
      }
    }
  }
}
