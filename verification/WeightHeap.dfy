// The array heap inside bzip2's BZ2_hbMakeCodeLengths (UPHEAP, DOWNHEAP):
// entries 1..n of heap are node numbers ordered by weight, entry 0 is a
// sentinel of weight 0.
module WeightHeap {

  // The entry at k is no lighter than its parent.
  ghost predicate Edge(h: seq<nat>, w: seq<nat>, k: nat)
  {
    k < |h| && h[k] < |w| && h[k / 2] < |w| && w[h[k / 2]] <= w[h[k]]
  }

  ghost predicate Ordered(h: seq<nat>, n: nat, w: seq<nat>)
  {
    forall k: nat :: 2 <= k <= n ==> Edge(h, w, k)
  }

  // Entries 0..n are exactly the members of s.
  ghost predicate Holds(h: seq<nat>, n: nat, s: set<nat>)
  {
    n < |h| && multiset(h[..n + 1]) == multiset(s)
  }

  ghost predicate Named(h: seq<nat>, w: seq<nat>)
  {
    (forall k :: 0 <= k < |h| ==> h[k] < |w|) && |h| > 0 && h[0] == 0 && |w| > 0 && w[0] == 0
  }

  lemma HoldsAt(h: seq<nat>, n: nat, s: set<nat>, k: nat)
    requires Holds(h, n, s) && k <= n
    ensures h[k] in s
    ensures |s| == n + 1
  {
    assert h[..n + 1][k] in multiset(h[..n + 1]);
    assert |multiset(s)| == |s|;
  }

  lemma HoldsAll(h: seq<nat>, n: nat, s: set<nat>, x: nat) returns (k: nat)
    requires Holds(h, n, s) && x in s
    ensures k <= n && h[k] == x
  {
    assert x in multiset(h[..n + 1]);
    k :| 0 <= k < |h[..n + 1]| && h[..n + 1][k] == x;
  }

  // The first entry is the lightest.
  lemma {:induction false} TopLeast(h: seq<nat>, n: nat, w: seq<nat>, k: nat)
    requires Named(h, w) && Ordered(h, n, w) && 1 <= k <= n < |h|
    ensures w[h[1]] <= w[h[k]]
  {
    if k > 1 {
      assert Edge(h, w, k);
      TopLeast(h, n, w, k / 2);
    }
  }

  function Swapped(h: seq<nat>, i: nat, j: nat): (h': seq<nat>)
    requires i < |h| && j < |h|
  {
    h[i := h[j]][j := h[i]]
  }

  lemma SwapHolds(h: seq<nat>, n: nat, s: set<nat>, i: nat, j: nat)
    requires Holds(h, n, s) && i <= n && j <= n
    ensures Holds(Swapped(h, i, j), n, s)
  {
    var a := h[..n + 1];
    assert Swapped(h, i, j)[..n + 1] == a[i := a[j]][j := a[i]];
  }

  // All edges but the one above z are in order, and z's children are in order with its parent.
  ghost predicate UpAt(h: seq<nat>, n: nat, w: seq<nat>, z: nat)
  {
    && (forall k: nat :: 2 <= k <= n && k != z ==> Edge(h, w, k))
    && (forall k: nat :: 2 <= k <= n && k / 2 == z && z >= 2
          ==> k < |h| && h[z / 2] < |w| && h[k] < |w| && w[h[z / 2]] <= w[h[k]])
  }

  lemma UpStep(h: seq<nat>, n: nat, w: seq<nat>, z: nat)
    requires Named(h, w) && 2 <= z <= n < |h| && UpAt(h, n, w, z) && w[h[z]] < w[h[z / 2]]
    ensures UpAt(Swapped(h, z, z / 2), n, w, z / 2)
  {
    var v := Swapped(h, z, z / 2);
    forall k: nat | 2 <= k <= n && k != z / 2 ensures Edge(v, w, k) {
      if k != z { assert Edge(h, w, k); }
    }
    forall k: nat | 2 <= k <= n && k / 2 == z / 2 && z / 2 >= 2 ensures w[v[z / 2 / 2]] <= w[v[k]] {
      assert Edge(h, w, z / 2);
      if k != z { assert Edge(h, w, k); }
    }
  }

  method UpHeap(heap: array<nat>, weight: array<nat>, z: nat, ghost s: set<nat>)
    requires heap.Length > z >= 1 && Named(heap[..], weight[..]) && Holds(heap[..], z, s)
      && UpAt(heap[..], z, weight[..], z)
    requires heap != weight
    modifies heap
    ensures Named(heap[..], weight[..]) && Holds(heap[..], z, s) && Ordered(heap[..], z, weight[..])
  {
    hide Holds, UpAt, Edge;
    ghost var w := weight[..];
    var zz, tmp := z, heap[z];
    ghost var v := heap[..];              // the heap with tmp in the hole
    while weight[tmp] < weight[heap[zz / 2]]
      invariant 1 <= zz <= z && Named(v, w) && Holds(v, z, s) && UpAt(v, z, w, zz)
      invariant |v| == heap.Length && v[zz] == tmp && heap[..] == v[zz := heap[zz]] && weight[..] == w
      decreases zz
    {
      SwapHolds(v, z, s, zz, zz / 2);
      UpStep(v, z, w, zz);
      v := Swapped(v, zz, zz / 2);
      heap[zz] := heap[zz / 2];
      zz := zz / 2;
    }
    heap[zz] := tmp;
    assert heap[..] == v;
    UpDone(v, z, w, zz);
  }

  lemma UpDone(h: seq<nat>, n: nat, w: seq<nat>, z: nat)
    requires Named(h, w) && 1 <= z <= n < |h| && UpAt(h, n, w, z) && w[h[z / 2]] <= w[h[z]]
    ensures Ordered(h, n, w)
  {
  }

  // All edges but those below z are in order, and z's children are in order with its parent.
  ghost predicate DownAt(h: seq<nat>, n: nat, w: seq<nat>, z: nat)
  {
    && (forall k: nat :: 2 <= k <= n && k / 2 != z ==> Edge(h, w, k))
    && (forall k: nat :: 2 <= k <= n && k / 2 == z && z >= 2
          ==> k < |h| && h[z / 2] < |w| && h[k] < |w| && w[h[z / 2]] <= w[h[k]])
  }

  lemma DownStep(h: seq<nat>, n: nat, w: seq<nat>, z: nat, y: nat)
    requires Named(h, w) && 1 <= z && y / 2 == z && 2 <= y <= n < |h| && DownAt(h, n, w, z)
    requires w[h[y]] <= w[h[z]] && forall k: nat :: 2 <= k <= n && k / 2 == z ==> w[h[y]] <= w[h[k]]
    ensures DownAt(Swapped(h, z, y), n, w, y)
  {
    var v := Swapped(h, z, y);
    forall k: nat | 2 <= k <= n && k / 2 != y ensures Edge(v, w, k) {
      if k / 2 != z { assert Edge(h, w, k); }
    }
    forall k: nat | 2 <= k <= n && k / 2 == y ensures w[v[y / 2]] <= w[v[k]] {
      assert Edge(h, w, k);
    }
  }

  method DownHeap(heap: array<nat>, weight: array<nat>, nHeap: nat, ghost s: set<nat>)
    requires nHeap < heap.Length && heap.Length >= 2 && Named(heap[..], weight[..]) && Holds(heap[..], nHeap, s)
    requires DownAt(heap[..], nHeap, weight[..], 1) && heap != weight
    modifies heap
    ensures Named(heap[..], weight[..]) && Holds(heap[..], nHeap, s) && Ordered(heap[..], nHeap, weight[..])
  {
    hide Holds, DownAt, Edge;
    ghost var w := weight[..];
    var zz, tmp := 1, heap[1];
    ghost var v := heap[..];
    while true
      invariant 1 <= zz && (zz <= nHeap || (zz == 1 && nHeap == 0)) && Named(v, w) && Holds(v, nHeap, s)
        && DownAt(v, nHeap, w, zz)
      invariant |v| == heap.Length && v[zz] == tmp && heap[..] == v[zz := heap[zz]] && weight[..] == w
      decreases nHeap - zz
    {
      var yy := 2 * zz;
      if yy > nHeap { break; }
      if yy < nHeap && weight[heap[yy + 1]] < weight[heap[yy]] {
        yy := yy + 1;
      }
      if weight[tmp] < weight[heap[yy]] {
        break;
      }
      SwapHolds(v, nHeap, s, zz, yy);
      DownStep(v, nHeap, w, zz, yy);
      v := Swapped(v, zz, yy);
      heap[zz] := heap[yy];
      zz := yy;
    }
    heap[zz] := tmp;
    assert heap[..] == v;
    DownDone(v, nHeap, w, zz);
  }

  lemma DownDone(h: seq<nat>, n: nat, w: seq<nat>, z: nat)
    requires Named(h, w) && 1 <= z && n < |h| && z < |h| && DownAt(h, n, w, z)
    requires forall k: nat :: 2 <= k <= n && k / 2 == z ==> w[h[z]] <= w[h[k]]
    ensures Ordered(h, n, w)
  {
  }

  lemma DropFirst(a: seq<nat>, n: nat)
    requires 1 <= n && |a| == n + 1
    ensures multiset(a[1 := a[n]][..n]) == multiset(a) - multiset{a[1]}
  {
    var b := a[1 := a[n]];
    assert b == b[..n] + [a[n]];
    assert multiset(b) == multiset(a) - multiset{a[1]} + multiset{a[n]};
    Cancel(multiset(b[..n]), multiset(a) - multiset{a[1]}, a[n]);
  }

  lemma TwicePresent(a: seq<nat>)
    requires |a| >= 2
    ensures a[0] == a[1] ==> multiset(a)[a[0]] >= 2
  {
    assert a == [a[0]] + [a[1]] + a[2..];
  }

  lemma Cancel(x: multiset<nat>, y: multiset<nat>, c: nat)
    requires x + multiset{c} == y + multiset{c}
    ensures x == y
  {
    forall e ensures x[e] == y[e] {
      assert (x + multiset{c})[e] == x[e] + multiset{c}[e];
    }
  }

  lemma WithoutFirst(h: seq<nat>, n: nat, w: seq<nat>, s: set<nat>)
    requires Named(h, w) && Ordered(h, n, w) && Holds(h, n, s) && 1 <= n
    ensures Named(h[1 := h[n]], w) && Holds(h[1 := h[n]], n - 1, s - {h[1]}) && DownAt(h[1 := h[n]], n - 1, w, 1)
    ensures h[1] in s && h[1] != 0
  {
    var h' := h[1 := h[n]];
    var a := h[..n + 1];
    assert a[1] in multiset(s) && multiset(s)[a[1]] == 1;
    assert h'[..n] == a[1 := a[n]][..n];
    DropFirst(a, n);
    assert multiset(s - {h[1]}) == multiset(s) - multiset{h[1]};
    TwicePresent(a);
    forall k: nat | 2 <= k <= n - 1 && k / 2 != 1 ensures Edge(h', w, k) { assert Edge(h, w, k); }
  }

  // n1 = heap[1]; heap[1] = heap[nHeap]; nHeap--; DOWNHEAP(1)
  method TakeLeast(heap: array<nat>, weight: array<nat>, n: nat, ghost s: set<nat>) returns (least: nat)
    requires 1 <= n < heap.Length && heap != weight
    requires Named(heap[..], weight[..]) && Holds(heap[..], n, s) && Ordered(heap[..], n, weight[..])
    modifies heap
    ensures Named(heap[..], weight[..]) && Holds(heap[..], n - 1, s - {least}) && Ordered(heap[..], n - 1, weight[..])
    ensures least in s && 0 < least < weight.Length
    ensures forall x :: x in s && x != 0 ==> x < weight.Length && weight[least] <= weight[x]
  {
    hide Holds, DownAt, Ordered, Edge;
    ghost var h, w := heap[..], weight[..];
    least := heap[1];
    WithoutFirst(h, n, w, s);
    forall x | x in s && x != 0 ensures x < |w| && w[least] <= w[x] {
      var k := HoldsAll(h, n, s, x);
      TopLeast(h, n, w, k);
    }
    heap[1] := heap[n];
    assert heap[..] == h[1 := h[n]];
    DownHeap(heap, weight, n - 1, s - {least});
  }

  lemma WithLast(h: seq<nat>, n: nat, w: seq<nat>, s: set<nat>, x: nat)
    requires Named(h, w) && Ordered(h, n, w) && Holds(h, n, s) && n + 1 < |h| && x !in s && x < |w|
    ensures Named(h[n + 1 := x], w) && Holds(h[n + 1 := x], n + 1, s + {x}) && UpAt(h[n + 1 := x], n + 1, w, n + 1)
  {
    var h' := h[n + 1 := x];
    assert h'[..n + 2] == h[..n + 1] + [x];
    forall k: nat | 2 <= k <= n + 1 && k != n + 1 ensures Edge(h', w, k) { assert Edge(h, w, k); }
  }

  // nHeap++; heap[nHeap] = x; UPHEAP(nHeap)
  method Push(heap: array<nat>, weight: array<nat>, n: nat, x: nat, ghost s: set<nat>)
    requires n + 1 < heap.Length && heap != weight && x !in s && x < weight.Length
    requires Named(heap[..], weight[..]) && Holds(heap[..], n, s) && Ordered(heap[..], n, weight[..])
    modifies heap
    ensures Named(heap[..], weight[..]) && Holds(heap[..], n + 1, s + {x}) && Ordered(heap[..], n + 1, weight[..])
  {
    hide Holds, UpAt, Ordered, Edge;
    WithLast(heap[..], n, weight[..], s, x);
    ghost var h := heap[..];
    heap[n + 1] := x;
    assert heap[..] == h[n + 1 := x];
    UpHeap(heap, weight, n + 1, s + {x});
  }
}
