// BZ2_hbMakeCodeLengths of bzip2's huffman.c: Huffman's algorithm on packed
// weight-and-depth words, repeated with halved weights until no code is too
// long. Every result is a complete code and the cheapest there is for the last
// round's weights, and the repetition ends because the weight of a tree grows
// like the Fibonacci numbers with its depth.
module CodeLengths {
  import opened Bits
  import opened HuffmanTables
  import opened OptimalCode
  import opened WeightHeap

  const DEEP: nat := 64           // above every depth that can occur

  // ---------------------------------------------------------------------
  // Fibonacci numbers
  // ---------------------------------------------------------------------
  function Fib(k: nat): nat
  {
    if k < 2 then k else Fib(k - 1) + Fib(k - 2)
  }

  lemma {:induction false} FibMono(a: nat, b: nat)
    requires a <= b
    ensures Fib(a) <= Fib(b)
  {
    if a < b { FibMono(a, b - 1); }
  }

  lemma FibValues()
    ensures Fib(15) == 610 && Fib(20) == 6765 && Fib(35) == 9227465
  {
    assert Fib(10) == 55 && Fib(11) == 89;
    assert Fib(20) == 6765 && Fib(21) == 10946;
    assert Fib(30) == 832040 && Fib(31) == 1346269;
  }

  // ---------------------------------------------------------------------
  // Packed words: weight in the upper bits, depth in the low byte
  // ---------------------------------------------------------------------
  function WeightOf(z: nat): nat
  {
    z / 0x100
  }

  function DepthOf(z: nat): nat
  {
    z % 0x100
  }

  function AddWeights(a: nat, b: nat): nat
    requires DepthOf(a) < 0xff && DepthOf(b) < 0xff
  {
    (WeightOf(a) + WeightOf(b)) * 0x100 + (1 + if DepthOf(a) > DepthOf(b) then DepthOf(a) else DepthOf(b))
  }

  // ---------------------------------------------------------------------
  // Sums over the leaves under a root
  // ---------------------------------------------------------------------
  function Sum(v: seq<nat>, i: nat): nat
    requires i <= |v|
  {
    if i == 0 then 0 else Sum(v, i - 1) + v[i - 1]
  }

  function Gather(rootOf: seq<nat>, v: seq<nat>, x: nat, i: nat): nat
    requires i <= |rootOf| == |v|
  {
    if i == 0 then 0 else Gather(rootOf, v, x, i - 1) + (if rootOf[i - 1] == x then v[i - 1] else 0)
  }

  lemma {:induction false} GatherBelow(rootOf: seq<nat>, v: seq<nat>, x: nat, i: nat)
    requires i <= |rootOf| == |v|
    ensures Gather(rootOf, v, x, i) <= Sum(v, i)
    ensures (forall k :: 0 <= k < i ==> rootOf[k] == x) ==> Gather(rootOf, v, x, i) == Sum(v, i)
  {
    if i > 0 { GatherBelow(rootOf, v, x, i - 1); }
  }

  // A leaf at distance d holds 2^-d of its tree, in units of 2^-64.
  function Share(d: nat): nat
  {
    if d <= DEEP then Pow2(DEEP - d) else 0
  }

  function Shares(dist: seq<nat>): (s: seq<nat>)
    ensures |s| == |dist|
  {
    seq(|dist|, i requires 0 <= i < |dist| => Share(dist[i]))
  }

  // ---------------------------------------------------------------------
  // The forest of trees built so far
  // ---------------------------------------------------------------------
  datatype Forest = Forest(
    w: seq<nat>, par: seq<int>,   // packed weights and parents of all nodes
    base: seq<nat>,               // the weights of the leaves
    roots: set<nat>,              // the roots, and the sentinel 0
    rootOf: seq<nat>,             // each leaf's root and its distance from it
    dist: seq<nat>,
    last: nat,                    // the packed weight of the last node merged
    nodes: nat)

  // From node k, d steps to parents lead to r.
  ghost predicate Climb(par: seq<int>, k: nat, r: nat, d: nat)
    decreases d
  {
    if d == 0 then k == r else k < |par| && k < par[k] < |par| && Climb(par, par[k], r, d - 1)
  }

  ghost predicate RootOk(f: Forest, x: nat)
    requires |f.rootOf| == |f.dist| == |f.base| && |f.par| == |f.w|
  {
    && 1 <= x <= f.nodes < |f.w| && f.par[x] == -1 && f.last <= f.w[x]
    && Fib(DepthOf(f.w[x]) + 2) <= WeightOf(f.w[x])
    && (DepthOf(f.w[x]) >= 1 ==> Fib(DepthOf(f.w[x]) + 1) <= WeightOf(f.last))
    && Gather(f.rootOf, f.base, x, |f.base|) == WeightOf(f.w[x])
    && Gather(f.rootOf, Shares(f.dist), x, |f.base|) == Pow2(DEEP)
  }

  ghost predicate LeafOk(f: Forest, i: nat)
    requires i < |f.rootOf| == |f.dist| && |f.par| == |f.w|
  {
    && f.rootOf[i] in f.roots && 0 < f.rootOf[i] < |f.w| && f.dist[i] <= DepthOf(f.w[f.rootOf[i]])
    && Climb(f.par, i + 1, f.rootOf[i], f.dist[i])
  }

  ghost predicate Grown(f: Forest)
  {
    && |f.rootOf| == |f.dist| == |f.base| && |f.par| == |f.w| && Sum(f.base, |f.base|) < 0x80_0000
    && f.nodes < |f.w| && 0 in f.roots
    && (forall x :: x in f.roots && x != 0 ==> RootOk(f, x))
    && (forall i :: 0 <= i < |f.base| ==> LeafOk(f, i))
  }

  ghost function Merge(f: Forest, n1: nat, n2: nat): Forest
    requires Grown(f) && n1 in f.roots && n2 in f.roots && n1 != 0 && n2 != 0 && f.nodes + 1 < |f.w|
    requires DepthOf(f.w[n1]) < 0xff && DepthOf(f.w[n2]) < 0xff
  {
    var p := f.nodes + 1;
    Forest(f.w[p := AddWeights(f.w[n1], f.w[n2])],
           f.par[n1 := p][n2 := p][p := -1],
           f.base,
           f.roots - {n1} - {n2} + {p},
           Moved(f.rootOf, n1, n2, p),
           Deeper(f.rootOf, f.dist, n1, n2),
           f.w[n2],
           p)
  }

  ghost function Moved(rootOf: seq<nat>, n1: nat, n2: nat, p: nat): (r: seq<nat>)
    ensures |r| == |rootOf|
  {
    seq(|rootOf|, i requires 0 <= i < |rootOf| => if rootOf[i] == n1 || rootOf[i] == n2 then p else rootOf[i])
  }

  ghost function Deeper(rootOf: seq<nat>, dist: seq<nat>, n1: nat, n2: nat): (d: seq<nat>)
    requires |rootOf| == |dist|
    ensures |d| == |dist|
  {
    seq(|dist|, i requires 0 <= i < |dist| => if rootOf[i] == n1 || rootOf[i] == n2 then dist[i] + 1 else dist[i])
  }

  // A root's depth is bounded by the logarithm of the total weight.
  lemma ShallowRoot(f: Forest, x: nat)
    requires Grown(f) && x in f.roots && x != 0
    ensures DepthOf(f.w[x]) <= 32 && WeightOf(f.w[x]) <= Sum(f.base, |f.base|)
  {
    hide Fib;
    assert RootOk(f, x);
    GatherBelow(f.rootOf, f.base, x, |f.base|);
    FibValues();
    if DepthOf(f.w[x]) + 2 >= 35 { FibMono(35, DepthOf(f.w[x]) + 2); }
  }

  // The Fibonacci step: the deeper subtree has depth d, and the node merged
  // before it weighs at most as much as the other subtree.
  lemma MergeWeighs(f: Forest, n1: nat, n2: nat)
    requires Grown(f) && n1 in f.roots && n2 in f.roots && n1 != 0 && n2 != 0 && f.w[n1] <= f.w[n2]
    ensures DepthOf(f.w[n1]) <= 32 && DepthOf(f.w[n2]) <= 32
    ensures DepthOf(AddWeights(f.w[n1], f.w[n2])) == 1 + if DepthOf(f.w[n1]) > DepthOf(f.w[n2])
      then DepthOf(f.w[n1]) else DepthOf(f.w[n2])
    ensures WeightOf(AddWeights(f.w[n1], f.w[n2])) == WeightOf(f.w[n1]) + WeightOf(f.w[n2])
    ensures f.w[n2] <= AddWeights(f.w[n1], f.w[n2])
    ensures Fib(DepthOf(AddWeights(f.w[n1], f.w[n2])) + 2) <= WeightOf(AddWeights(f.w[n1], f.w[n2]))
    ensures Fib(DepthOf(AddWeights(f.w[n1], f.w[n2])) + 1) <= WeightOf(f.w[n2])
  {
    hide Gather, Climb, Fib, Pow2;
    ShallowRoot(f, n1);
    ShallowRoot(f, n2);
    assert RootOk(f, n1) && RootOk(f, n2);
    var d1, d2 := DepthOf(f.w[n1]), DepthOf(f.w[n2]);
    assert WeightOf(f.w[n1]) <= WeightOf(f.w[n2]) && WeightOf(f.last) <= WeightOf(f.w[n1]);
    var d := if d1 > d2 then d1 else d2;
    FibStep(d);
    FibMono(2, d1 + 2);
    FibMono(2, d2 + 2);
    FibSmall();
  }

  lemma FibStep(d: nat)
    ensures Fib(d + 3) == Fib(d + 2) + Fib(d + 1)
  {
  }

  lemma FibSmall()
    ensures Fib(1) == 1 && Fib(2) == 1 && Fib(3) == 2
  {
  }

  // ---------------------------------------------------------------------
  // Merging keeps the forest in order
  // ---------------------------------------------------------------------
  lemma {:induction false} GatherMerged(rootOf: seq<nat>, v: seq<nat>, n1: nat, n2: nat, p: nat, x: nat, i: nat)
    requires i <= |rootOf| == |v| && n1 != n2 && forall k :: 0 <= k < i ==> rootOf[k] != p
    ensures Gather(Moved(rootOf, n1, n2, p), v, p, i) == Gather(rootOf, v, n1, i) + Gather(rootOf, v, n2, i)
    ensures x != n1 && x != n2 && x != p ==> Gather(Moved(rootOf, n1, n2, p), v, x, i) == Gather(rootOf, v, x, i)
  {
    if i > 0 { GatherMerged(rootOf, v, n1, n2, p, x, i - 1); }
  }

  lemma {:induction false} SharesMerged(rootOf: seq<nat>, dist: seq<nat>, n1: nat, n2: nat, p: nat, x: nat, i: nat)
    requires i <= |rootOf| == |dist| && n1 != n2 && forall k :: 0 <= k < i ==> rootOf[k] != p && dist[k] < DEEP
    ensures 2 * Gather(Moved(rootOf, n1, n2, p), Shares(Deeper(rootOf, dist, n1, n2)), p, i)
         == Gather(rootOf, Shares(dist), n1, i) + Gather(rootOf, Shares(dist), n2, i)
    ensures x != n1 && x != n2 && x != p ==>
      Gather(Moved(rootOf, n1, n2, p), Shares(Deeper(rootOf, dist, n1, n2)), x, i) == Gather(rootOf, Shares(dist), x, i)
  {
    if i > 0 { SharesMerged(rootOf, dist, n1, n2, p, x, i - 1); }
  }

  lemma {:induction false} ClimbKept(par: seq<int>, par': seq<int>, k: nat, r: nat, d: nat)
    requires Climb(par, k, r, d) && |par| == |par'| && r < |par| && forall j :: 0 <= j < r && par[j] > j
                                                                      ==> par'[j] == par[j]
    ensures Climb(par', k, r, d) && k <= r
    decreases d
  {
    if d > 0 { ClimbKept(par, par', par[k], r, d - 1); }
  }

  lemma {:induction false} ClimbOne(par: seq<int>, k: nat, r: nat, d: nat)
    requires Climb(par, k, r, d) && r < |par| && r < par[r] < |par|
    ensures Climb(par, k, par[r], d + 1)
    decreases d
  {
    if d > 0 { ClimbOne(par, par[k], r, d - 1); }
  }

  lemma MergeRoots(f: Forest, n1: nat, n2: nat, x: nat)
    requires Grown(f) && n1 in f.roots && n2 in f.roots && n1 != 0 && n2 != 0 && n1 != n2 && f.nodes + 1 < |f.w|
    requires DepthOf(f.w[n1]) <= 32 && DepthOf(f.w[n2]) <= 32
    requires f.w[n1] <= f.w[n2] && forall y :: y in f.roots && y != 0 && y != n1 ==> f.w[n2] <= f.w[y]
    requires x in Merge(f, n1, n2).roots && x != 0
    ensures RootOk(Merge(f, n1, n2), x)
  {
    hide Gather, Climb, Fib, Pow2, AddWeights, Moved, Deeper, Shares, LeafOk;
    var n, p := |f.base|, f.nodes + 1;
    LeavesBelow(f, p);
    assert RootOk(f, n1) && RootOk(f, n2);
    GatherMerged(f.rootOf, f.base, n1, n2, p, x, n);
    SharesMerged(f.rootOf, f.dist, n1, n2, p, x, n);
    if x == p {
      MergeWeighs(f, n1, n2);
    } else {
      assert RootOk(f, x);
      assert WeightOf(f.last) <= WeightOf(f.w[n2]);
    }
  }

  lemma LeavesBelow(f: Forest, p: nat)
    requires Grown(f) && p > f.nodes
    ensures forall i :: 0 <= i < |f.base| ==> f.rootOf[i] != p && f.dist[i] < DEEP
  {
    forall i | 0 <= i < |f.base| ensures f.rootOf[i] != p && f.dist[i] < DEEP {
      assert LeafOk(f, i);
      assert RootOk(f, f.rootOf[i]);
      ShallowRoot(f, f.rootOf[i]);
    }
  }

  lemma MergeLeaves(f: Forest, n1: nat, n2: nat, i: nat)
    requires Grown(f) && n1 in f.roots && n2 in f.roots && n1 != 0 && n2 != 0 && n1 != n2 && f.nodes + 1 < |f.w|
    requires DepthOf(f.w[n1]) <= 32 && DepthOf(f.w[n2]) <= 32 && f.w[n1] <= f.w[n2]
    requires i < |f.base|
    ensures LeafOk(Merge(f, n1, n2), i)
  {
    hide Gather, Climb, Fib, Pow2, AddWeights, Shares;
    var g, p := Merge(f, n1, n2), f.nodes + 1;
    assert RootOk(f, n1) && RootOk(f, n2) && LeafOk(f, i) && RootOk(f, f.rootOf[i]);
    MergeWeighs(f, n1, n2);
    ClimbKept(f.par, g.par, i + 1, f.rootOf[i], f.dist[i]);
    if f.rootOf[i] == n1 || f.rootOf[i] == n2 { ClimbOne(g.par, i + 1, f.rootOf[i], f.dist[i]); }
  }

  lemma MergeKeeps(f: Forest, n1: nat, n2: nat)
    requires Grown(f) && n1 in f.roots && n2 in f.roots && n1 != 0 && n2 != 0 && n1 != n2 && f.nodes + 1 < |f.w|
    requires f.w[n1] <= f.w[n2] && forall y :: y in f.roots && y != 0 && y != n1 ==> f.w[n2] <= f.w[y]
    ensures DepthOf(f.w[n1]) <= 32 && DepthOf(f.w[n2]) <= 32 && Grown(Merge(f, n1, n2))
  {
    hide Gather, Climb, Fib, Pow2, AddWeights, RootOk, LeafOk;
    ShallowRoot(f, n1);
    ShallowRoot(f, n2);
    InRange(f, n1);
    InRange(f, n2);
    forall x | x in Merge(f, n1, n2).roots && x != 0 ensures RootOk(Merge(f, n1, n2), x) { MergeRoots(f, n1, n2, x); }
    forall i | 0 <= i < |f.base| ensures LeafOk(Merge(f, n1, n2), i) { MergeLeaves(f, n1, n2, i); }
  }

  lemma InRange(f: Forest, x: nat)
    requires Grown(f) && x in f.roots && x != 0
    ensures 1 <= x <= f.nodes
  {
    assert RootOk(f, x);
  }

  // ---------------------------------------------------------------------
  // Heavier leaves are never deeper
  // ---------------------------------------------------------------------

  // A merged node's parent weighs at most its own weight plus the last one merged.
  ghost predicate InnerOk(f: Forest, u: nat)
    requires Grown(f)
  {
    1 <= u <= f.nodes && u !in f.roots ==>
      u < f.par[u] <= f.nodes && WeightOf(f.w[f.par[u]]) <= WeightOf(f.w[u]) + WeightOf(f.last)
  }

  // As many steps up from leaf i as leaf j is deep, there is a node u no heavier than j's root.
  ghost predicate Above(f: Forest, i: nat, j: nat, u: nat)
    requires Grown(f) && i < |f.base| && j < |f.base|
  {
    assert LeafOk(f, j);
    && u <= f.nodes && Climb(f.par, i + 1, u, f.dist[j])
    && (u == f.rootOf[j] || WeightOf(f.w[u]) < WeightOf(f.w[f.rootOf[j]]))
  }

  ghost predicate Paired(f: Forest, i: nat, j: nat)
    requires Grown(f) && i < |f.base| && j < |f.base|
  {
    exists u: nat :: Above(f, i, j, u)
  }

  ghost predicate Layered(f: Forest)
    requires Grown(f)
  {
    && (forall u: nat :: InnerOk(f, u))
    && (forall i: nat, j: nat :: i < |f.base| && j < |f.base| && f.base[i] < f.base[j] ==> Paired(f, i, j))
  }

  // n1 and n2 are the two lightest roots.
  ghost predicate Lightest(f: Forest, n1: nat, n2: nat)
    requires Grown(f)
  {
    && n1 in f.roots && n2 in f.roots && n1 != 0 && n2 != 0 && n1 != n2 && f.nodes + 1 < |f.w|
    && n1 < |f.w| && n2 < |f.w|
    && f.w[n1] <= f.w[n2] && forall y :: y in f.roots && y != 0 && y != n1 ==> y < |f.w| && f.w[n2] <= f.w[y]
  }

  lemma MergeInner(f: Forest, n1: nat, n2: nat, u: nat)
    requires Grown(f) && Layered(f) && Lightest(f, n1, n2)
    requires DepthOf(f.w[n1]) <= 32 && DepthOf(f.w[n2]) <= 32 && Grown(Merge(f, n1, n2))
    ensures InnerOk(Merge(f, n1, n2), u)
  {
    hide Gather, Climb, Fib, Pow2, AddWeights, LeafOk, Moved, Deeper, Shares, Sum;
    MergeWeighs(f, n1, n2);
    GrownFacts(f, n1);
    GrownFacts(f, n2);
    assert InnerOk(f, u);
    assert RootOk(f, n1) && RootOk(f, n2);
    assert WeightOf(f.last) <= WeightOf(f.w[n2]) && WeightOf(f.w[n1]) <= WeightOf(f.w[n2]);
  }

  lemma MergePaired(f: Forest, n1: nat, n2: nat, i: nat, j: nat)
    requires Grown(f) && Layered(f) && Lightest(f, n1, n2) && i < |f.base| && j < |f.base| && f.base[i] < f.base[j]
    requires DepthOf(f.w[n1]) <= 32 && DepthOf(f.w[n2]) <= 32 && Grown(Merge(f, n1, n2))
    ensures Paired(Merge(f, n1, n2), i, j)
  {
    hide Grown, Merge, InnerOk, Above, Lightest;
    assert Paired(f, i, j);
    var u: nat :| Above(f, i, j, u);
    GrownLeaf(f, j);
    if f.rootOf[j] != n1 && f.rootOf[j] != n2 {
      PairElsewhere(f, n1, n2, i, j, u);
    } else if u == n1 || u == n2 {
      PairAtTop(f, n1, n2, i, j, u);
    } else {
      assert InnerOk(f, u);
      PairInside(f, n1, n2, i, j, u);
    }
  }

  // The merge does not reach j's tree.
  lemma PairElsewhere(f: Forest, n1: nat, n2: nat, i: nat, j: nat, u: nat)
    requires Grown(f) && Lightest(f, n1, n2) && i < |f.base| && j < |f.base| && Above(f, i, j, u)
    requires DepthOf(f.w[n1]) <= 32 && DepthOf(f.w[n2]) <= 32 && Grown(Merge(f, n1, n2))
    requires |f.rootOf| == |f.base| && f.rootOf[j] != n1 && f.rootOf[j] != n2
    ensures Paired(Merge(f, n1, n2), i, j)
  {
    hide Gather, Climb, AddWeights, Grown;
    GrownLeaf(f, j);
    GrownRoot(f, n1);
    GrownRoot(f, n2);
    ClimbKept(f.par, Merge(f, n1, n2).par, i + 1, u, f.dist[j]);
    assert Above(Merge(f, n1, n2), i, j, u);
  }

  // j's tree is merged, and so is the tree whose root is u.
  lemma PairAtTop(f: Forest, n1: nat, n2: nat, i: nat, j: nat, u: nat)
    requires Grown(f) && Lightest(f, n1, n2) && i < |f.base| && j < |f.base| && Above(f, i, j, u)
    requires DepthOf(f.w[n1]) <= 32 && DepthOf(f.w[n2]) <= 32 && Grown(Merge(f, n1, n2))
    requires |f.rootOf| == |f.base| && (f.rootOf[j] == n1 || f.rootOf[j] == n2) && (u == n1 || u == n2)
    ensures Paired(Merge(f, n1, n2), i, j)
  {
    hide Gather, Climb, AddWeights, Grown;
    var g := Merge(f, n1, n2);
    GrownLeaf(f, j);
    GrownRoot(f, n1);
    GrownRoot(f, n2);
    ClimbKept(f.par, g.par, i + 1, u, f.dist[j]);
    ClimbOne(g.par, i + 1, u, f.dist[j]);
    assert Above(g, i, j, f.nodes + 1);
  }

  // j's tree is merged, and u is a node that was merged before.
  lemma PairInside(f: Forest, n1: nat, n2: nat, i: nat, j: nat, u: nat)
    requires Grown(f) && Lightest(f, n1, n2) && i < |f.base| && j < |f.base| && Above(f, i, j, u) && InnerOk(f, u)
    requires DepthOf(f.w[n1]) <= 32 && DepthOf(f.w[n2]) <= 32 && Grown(Merge(f, n1, n2))
    requires |f.rootOf| == |f.base| && (f.rootOf[j] == n1 || f.rootOf[j] == n2) && u != n1 && u != n2
    ensures Paired(Merge(f, n1, n2), i, j)
  {
    hide Gather, Climb, AddWeights, Grown, Lightest, InnerOk, WeightOf, DepthOf;
    LightestRoots(f, n1, n2);
    var g := Merge(f, n1, n2);
    GrownLeaf(f, j);
    ClimbUp(f.par, i + 1, u, f.dist[j]);
    ParentLight(f, n1, n2, u, f.rootOf[j]);
    ClimbOne(f.par, i + 1, u, f.dist[j]);
    var v: nat := f.par[u];
    ClimbKept(f.par, g.par, i + 1, v, f.dist[j] + 1);
    assert Above(g, i, j, v);
  }

  lemma LightestRoots(f: Forest, n1: nat, n2: nat)
    requires Grown(f) && Lightest(f, n1, n2)
    ensures |f.w| == |f.par| && 1 <= n1 <= f.nodes && 1 <= n2 <= f.nodes < |f.w| - 1 && n1 != n2
    ensures f.par[n1] == f.par[n2] == -1 && n1 in f.roots && n2 in f.roots
  {
    hide Grown;
    GrownFacts(f, n1);
    GrownRoot(f, n1);
    GrownRoot(f, n2);
  }

  // The parent of a node lighter than one being merged is lighter than the merged one.
  lemma ParentLight(f: Forest, n1: nat, n2: nat, u: nat, y: nat)
    requires Grown(f) && Lightest(f, n1, n2) && InnerOk(f, u)
    requires (y == n1 || y == n2) && u != n1 && u != n2 && 0 < u <= f.nodes && WeightOf(f.w[u]) < WeightOf(f.w[y])
    requires DepthOf(f.w[n1]) <= 32 && DepthOf(f.w[n2]) <= 32
    ensures u < f.par[u] <= f.nodes && WeightOf(f.w[f.par[u]]) < WeightOf(AddWeights(f.w[n1], f.w[n2]))
  {
    hide AddWeights, Grown;
    GrownRoot(f, n1);
    GrownRoot(f, n2);
    MergeWeighs(f, n1, n2);
    LighterMerged(f, n1, n2, u, y);
  }

  // A node lighter than one being merged has been merged before.
  lemma LighterMerged(f: Forest, n1: nat, n2: nat, u: nat, y: nat)
    requires Grown(f) && Lightest(f, n1, n2) && (y == n1 || y == n2) && u != n1 && u != n2 && 0 < u < |f.w|
    requires WeightOf(f.w[u]) < WeightOf(f.w[y])
    ensures u !in f.roots
  {
    assert WeightOf(f.w[n1]) <= WeightOf(f.w[n2]);
  }

  lemma MergeLayers(f: Forest, n1: nat, n2: nat)
    requires Grown(f) && Layered(f) && Lightest(f, n1, n2)
    requires DepthOf(f.w[n1]) <= 32 && DepthOf(f.w[n2]) <= 32 && Grown(Merge(f, n1, n2))
    ensures Layered(Merge(f, n1, n2))
  {
    hide Grown, InnerOk, Paired;
    var g := Merge(f, n1, n2);
    forall u: nat ensures InnerOk(g, u) { MergeInner(f, n1, n2, u); }
    forall i: nat, j: nat | i < |g.base| && j < |g.base| && g.base[i] < g.base[j] ensures Paired(g, i, j) {
      MergePaired(f, n1, n2, i, j);
    }
  }

  lemma LeavesLayered(w: seq<nat>, par: seq<int>, base: seq<nat>)
    requires LeafWeights(w, base) && Grown(Leaves(w, par, base))
    ensures Layered(Leaves(w, par, base))
  {
    hide Gather, Sum, Pow2, Fib;
    var f := Leaves(w, par, base);
    forall i: nat, j: nat | i < |base| && j < |base| && base[i] < base[j] ensures Paired(f, i, j) {
      assert w[i + 1] == 0x100 * base[i] && w[j + 1] == 0x100 * base[j];
      assert Above(f, i, j, i + 1);
    }
  }

  lemma GrownRoot(f: Forest, x: nat)
    requires Grown(f) && x in f.roots && x != 0
    ensures RootOk(f, x) && WeightOf(f.last) <= WeightOf(f.w[x])
  {
    assert RootOk(f, x);
  }

  lemma GrownLeaf(f: Forest, i: nat)
    requires Grown(f) && i < |f.base|
    ensures |f.rootOf| == |f.dist| == |f.base| && |f.par| == |f.w|
    ensures LeafOk(f, i) && RootOk(f, f.rootOf[i])
  {
    assert LeafOk(f, i);
  }

  lemma {:induction false} ClimbUp(par: seq<int>, k: nat, r: nat, d: nat)
    requires Climb(par, k, r, d)
    ensures k <= r
    decreases d
  {
    if d > 0 { ClimbUp(par, par[k], r, d - 1); }
  }

  // From a root there is no further way up, so the longer of two climbs is the one to the root.
  lemma {:induction false} ClimbToRoot(par: seq<int>, k: nat, u: nat, d: nat, root: nat, e: nat)
    requires Climb(par, k, u, d) && Climb(par, k, root, e) && root < |par| && par[root] == -1
    ensures d <= e
    decreases d
  {
    if d > 0 && e > 0 { ClimbToRoot(par, par[k], u, d - 1, root, e - 1); }
  }

  // ---------------------------------------------------------------------
  // No code is cheaper
  // ---------------------------------------------------------------------

  // There is a prefix-free code of these lengths, none above d.
  ghost predicate SpaceFor(l: seq<nat>, d: nat)
  {
    (forall i :: 0 <= i < |l| ==> l[i] <= d) && Sum(Units(l, d), |l|) <= Pow2(d)
  }

  ghost function LeafCost(base: seq<nat>, l: seq<nat>): nat
    requires |base| == |l|
  {
    Sum(Costs(base, l), |l|)
  }

  ghost predicate Optimal(base: seq<nat>, dist: seq<nat>)
  {
    |dist| == |base|
      && forall l: seq<nat>, d: nat :: |l| == |base| && SpaceFor(l, d) ==> LeafCost(base, dist) <= LeafCost(base, l)
  }

  ghost function Weights(w: seq<nat>): (v: seq<nat>)
    ensures |v| == |w| && forall k :: 0 <= k < |w| ==> v[k] == WeightOf(w[k])
  {
    seq(|w|, k requires 0 <= k < |w| => WeightOf(w[k]))
  }

  // What is still to be paid with lengths m for the roots, and what has been
  // paid in the forest, is no more than the leaves cost with lengths l.
  ghost predicate Affords(f: Forest, l: seq<nat>, m: seq<nat>, d: nat)
    requires |f.dist| == |f.base| == |l|
  {
    && |m| == |f.w| && Fits(f.roots - {0}, m, d)
    && Cost(f.roots - {0}, Weights(f.w), m) + LeafCost(f.base, f.dist) <= LeafCost(f.base, l)
  }

  ghost predicate Affordable(f: Forest, l: seq<nat>)
    requires |f.dist| == |f.base| == |l|
  {
    exists m: seq<nat>, d: nat :: Affords(f, l, m, d)
  }

  ghost predicate Cheapest(f: Forest)
    requires |f.dist| == |f.base|
  {
    forall l: seq<nat>, d: nat :: |l| == |f.base| && SpaceFor(l, d) ==> Affordable(f, l)
  }

  // Each leaf below the merged roots is one step deeper.
  lemma {:induction false} DeeperCosts(base: seq<nat>, rootOf: seq<nat>, dist: seq<nat>, n1: nat, n2: nat, i: nat)
    requires i <= |base| == |rootOf| == |dist| && n1 != n2
    ensures Sum(Costs(base, Deeper(rootOf, dist, n1, n2)), i)
         == Sum(Costs(base, dist), i) + Gather(rootOf, base, n1, i) + Gather(rootOf, base, n2, i)
  {
    if i > 0 {
      DeeperCosts(base, rootOf, dist, n1, n2, i - 1);
      assert base[i - 1] * (dist[i - 1] + 1) == base[i - 1] * dist[i - 1] + base[i - 1];
    }
  }

  lemma MergeAffords(f: Forest, n1: nat, n2: nat, l: seq<nat>, m: seq<nat>, d: nat)
    requires Grown(f) && Lightest(f, n1, n2) && |l| == |f.base| && Affords(f, l, m, d)
    requires DepthOf(f.w[n1]) <= 32 && DepthOf(f.w[n2]) <= 32 && Grown(Merge(f, n1, n2))
    ensures Affordable(Merge(f, n1, n2), l)
  {
    hide Gather, Climb, Fib, Pow2, Shares, Sum, Over, Grown, Moved, Deeper, AddWeights;
    var g, p, s := Merge(f, n1, n2), f.nodes + 1, f.roots - {0};
    RootWeights(f, n1);
    RootWeights(f, n2);
    GrownFacts(f, n1);
    MergeWeighs(f, n1, n2);
    DeeperCosts(f.base, f.rootOf, f.dist, n1, n2, |f.base|);
    assert TwoLeast(s, Weights(f.w), n1, n2) by { LightestMeans(f, n1, n2); }
    var m', d' := MergeCosts(s, Weights(f.w), m, d, n1, n2, p);
    assert s - {n1} - {n2} + {p} == g.roots - {0};
    assert Weights(g.w) == Weights(f.w)[p := WeightOf(f.w[n1]) + WeightOf(f.w[n2])];
    assert Affords(g, l, m', d');
  }

  lemma LightestMeans(f: Forest, n1: nat, n2: nat)
    requires Grown(f) && Lightest(f, n1, n2)
    ensures WeightOf(f.w[n1]) <= WeightOf(f.w[n2])
    ensures forall k :: k in f.roots && k != 0 ==> k < |f.w| && (k != n1 ==> WeightOf(f.w[n2]) <= WeightOf(f.w[k]))
  {
    hide Grown;
    GrownFacts(f, n1);
  }

  lemma RootWeights(f: Forest, x: nat)
    requires Grown(f) && x in f.roots && x != 0
    ensures |f.rootOf| == |f.dist| == |f.base| && Gather(f.rootOf, f.base, x, |f.base|) == WeightOf(f.w[x])
  {
    assert RootOk(f, x);
  }

  lemma MergeCheapest(f: Forest, n1: nat, n2: nat)
    requires Grown(f) && Cheapest(f) && Lightest(f, n1, n2)
    requires DepthOf(f.w[n1]) <= 32 && DepthOf(f.w[n2]) <= 32 && Grown(Merge(f, n1, n2))
    ensures Cheapest(Merge(f, n1, n2))
  {
    hide RootOk, LeafOk, Affords, SpaceFor, AddWeights, Moved, Deeper;
    forall l: seq<nat>, d: nat | |l| == |f.base| && SpaceFor(l, d) ensures Affordable(Merge(f, n1, n2), l) {
      assert Affordable(f, l);
      var m: seq<nat>, d': nat :| Affords(f, l, m, d');
      MergeAffords(f, n1, n2, l, m, d');
    }
  }

  // Counting over all leaves, as nodes 1 to n.
  lemma {:induction false} OverLeaves(s: set<nat>, n: nat, v: seq<nat>, u: seq<nat>, i: nat)
    requires i < |v| && |u| == n < |v| && (forall k :: k in s <==> 1 <= k <= n)
    requires forall k :: 1 <= k <= n ==> v[k] == u[k - 1]
    ensures Over(s, v, i + 1) == Sum(u, if i <= n then i else n)
  {
    if i > 0 { OverLeaves(s, n, v, u, i - 1); } else { assert Over(s, v, 0) == 0; }
  }

  lemma {:induction false} NoCost(base: seq<nat>, i: nat)
    requires i <= |base|
    ensures Sum(Costs(base, seq(|base|, k => 0)), i) == 0
  {
    if i > 0 { NoCost(base, i - 1); }
  }

  lemma LeavesCheapest(w: seq<nat>, par: seq<int>, base: seq<nat>)
    requires LeafWeights(w, base)
    ensures Cheapest(Leaves(w, par, base))
  {
    hide Sum, Over, Pow2;
    var f, n, s := Leaves(w, par, base), |base|, UpTo(|base|) - {0};
    forall l: seq<nat>, d: nat | |l| == n && SpaceFor(l, d) ensures Affordable(f, l) {
      var m: seq<nat> := seq(|w|, k requires 0 <= k < |w| => if 1 <= k <= n then l[k - 1] else 0);
      LeavesFit(w, l, m, d, s);
      LeavesCost(w, base, l, m, s);
      NoCost(base, n);
      assert Affords(f, l, m, d);
    }
  }

  lemma LeavesFit(w: seq<nat>, l: seq<nat>, m: seq<nat>, d: nat, s: set<nat>)
    requires |m| == |w| > |l| && (forall k :: k in s <==> 1 <= k <= |l|)
    requires forall k :: 1 <= k <= |l| ==> m[k] == l[k - 1]
    requires SpaceFor(l, d)
    ensures Fits(s, m, d)
  {
    hide Sum, Over, Pow2;
    OverLeaves(s, |l|, Units(m, d), Units(l, d), |w| - 1);
  }

  lemma LeavesCost(w: seq<nat>, base: seq<nat>, l: seq<nat>, m: seq<nat>, s: set<nat>)
    requires LeafWeights(w, base) && |m| == |w| > |l| == |base|
    requires (forall k :: k in s <==> 1 <= k <= |l|) && forall k :: 1 <= k <= |l| ==> m[k] == l[k - 1]
    ensures Cost(s, Weights(w), m) == LeafCost(base, l)
  {
    hide Sum, Over;
    WeightsOfLeaves(w, base);
    OverLeaves(s, |l|, Costs(Weights(w), m), Costs(base, l), |w| - 1);
  }

  lemma WeightsOfLeaves(w: seq<nat>, base: seq<nat>)
    requires LeafWeights(w, base)
    ensures forall k :: 1 <= k <= |base| ==> Weights(w)[k] == base[k - 1]
  {
    hide Sum;
    forall k | 1 <= k <= |base| ensures Weights(w)[k] == base[k - 1] { assert w[k - 1 + 1] == 0x100 * base[k - 1]; }
  }

  lemma CheapestIsOptimal(f: Forest)
    requires Grown(f) && Cheapest(f)
    ensures Optimal(f.base, f.dist)
  {
    hide RootOk, LeafOk, SpaceFor, LeafCost;
    forall l: seq<nat>, d: nat | |l| == |f.base| && SpaceFor(l, d)
      ensures LeafCost(f.base, f.dist) <= LeafCost(f.base, l)
    {
      assert Affordable(f, l);
    }
  }

  // ---------------------------------------------------------------------
  // One tree
  // ---------------------------------------------------------------------

  ghost function UpTo(n: nat): (s: set<nat>)
    ensures forall x :: x in s <==> 0 <= x <= n
  {
    if n == 0 then {0} else UpTo(n - 1) + {n}
  }

  // The leaves alone, each its own tree.
  ghost function Leaves(w: seq<nat>, par: seq<int>, base: seq<nat>): Forest
  {
    Forest(w, par, base, UpTo(|base|), seq(|base|, i => i + 1), seq(|base|, i => 0), 0, |base|)
  }

  ghost predicate LeafWeights(w: seq<nat>, base: seq<nat>)
  {
    && |base| < |w| && w[0] == 0 && Sum(base, |base|) < 0x80_0000
    && forall i :: 0 <= i < |base| ==> base[i] >= 1 && w[i + 1] == 0x100 * base[i]
  }

  lemma {:induction false} GatherOne(v: seq<nat>, x: nat, i: nat)
    requires i <= |v|
    ensures Gather(seq(|v|, k => k + 1), v, x, i) == if 1 <= x <= i then v[x - 1] else 0
  {
    if i > 0 { GatherOne(v, x, i - 1); }
  }

  lemma LeavesGrown(w: seq<nat>, par: seq<int>, base: seq<nat>)
    requires LeafWeights(w, base) && |par| == |w| && forall i :: 1 <= i <= |base| ==> par[i] == -1
    ensures Grown(Leaves(w, par, base))
  {
    hide Gather, Sum, Pow2, Fib;
    var f := Leaves(w, par, base);
    FibSmall();
    forall x | x in f.roots && x != 0 ensures RootOk(f, x) {
      GatherOne(base, x, |base|);
      GatherOne(Shares(f.dist), x, |base|);
      assert w[x - 1 + 1] == 0x100 * base[x - 1];
    }
  }

  lemma OrderedFrame(h: seq<nat>, n: nat, w: seq<nat>, s: set<nat>, p: nat, v: nat)
    requires Ordered(h, n, w) && Holds(h, n, s) && p !in s && p < |w|
    ensures Ordered(h, n, w[p := v])
  {
    var w' := w[p := v];
    forall k: nat | 2 <= k <= n ensures Edge(h, w', k) {
      assert Edge(h, w, k);
      HoldsAt(h, n, s, k);
      HoldsAt(h, n, s, k / 2);
    }
  }

  // The heap holds the forest's roots, and the arrays its nodes.
  ghost predicate Together(heap: seq<nat>, n: nat, f: Forest)
  {
    && Grown(f) && Layered(f) && Cheapest(f)
    && Named(heap, f.w) && Holds(heap, n, f.roots) && Ordered(heap, n, f.w)
    && f.nodes in f.roots && f.nodes + n == 2 * |f.base| && |f.w| == 2 * MAX_ALPHA_SIZE && |f.base| <= MAX_ALPHA_SIZE
  }

  method MergeTwo(heap: array<nat>, weight: array<nat>, parent: array<int>, nHeap: nat, nNodes0: nat,
    ghost f: Forest) returns (ghost g: Forest)
    requires nNodes0 == f.nodes && heap != weight && Together(heap[..], nHeap, f) && 1 < nHeap < heap.Length
      && f.w == weight[..] && f.par == parent[..]
    modifies heap, weight, parent
    ensures Together(heap[..], nHeap - 1, g) && g.w == weight[..] && g.par == parent[..]
    ensures g.base == f.base && g.nodes == f.nodes + 1 && forall k :: 0 <= k <= f.nodes ==> g.w[k] == f.w[k]
  {
    hide Grown, Holds, Ordered, RootOk, Layered, Cheapest;
    var n1 := TakeLeast(heap, weight, nHeap, f.roots);
    var n2 := TakeLeast(heap, weight, nHeap - 1, f.roots - {n1});
    var nNodes := nNodes0 + 1;
    GrownFacts(f, n1);
    GrownFacts(f, n2);
    MergeKeeps(f, n1, n2);
    MergeLayers(f, n1, n2);
    MergeCheapest(f, n1, n2);
    g := Merge(f, n1, n2);
    ghost var s := f.roots - {n1} - {n2};
    OrderedFrame(heap[..], nHeap - 2, f.w, s, nNodes, AddWeights(f.w[n1], f.w[n2]));
    parent[n1], parent[n2] := nNodes, nNodes;
    weight[nNodes] := AddWeights(weight[n1], weight[n2]);
    parent[nNodes] := -1;
    assert parent[..] == g.par && weight[..] == g.w;
    Push(heap, weight, nHeap - 2, nNodes, s);
  }

  lemma GrownFacts(f: Forest, x: nat)
    requires Grown(f) && x in f.roots && x != 0
    ensures 1 <= x <= f.nodes < |f.w| == |f.par| && f.nodes + 1 !in f.roots
  {
    forall y | y in f.roots && y != 0 ensures y <= f.nodes { assert RootOk(f, y); }
    assert RootOk(f, x);
  }

  // What a finished tree says of its leaves' depths.
  ghost predicate Tree(base: seq<nat>, par: seq<int>, root: nat, dist: seq<nat>)
  {
    && |dist| == |base| && root < |par| && par[root] == -1
    && (forall i :: 0 <= i < |base| ==> 1 <= dist[i] <= 32 && Climb(par, i + 1, root, dist[i]))
    && (forall i :: 0 <= i < |base| ==> Fib(dist[i] + 2) <= Sum(base, |base|))
    && Sum(Shares(dist), |dist|) == Pow2(DEEP)
    && HeavierNotLonger(base, dist) && Optimal(base, dist)
  }

  ghost predicate HeavierNotLonger(base: seq<nat>, dist: seq<nat>)
  {
    |dist| == |base| && forall i, j :: 0 <= i < |base| && 0 <= j < |base| && base[i] < base[j] ==> dist[j] <= dist[i]
  }

  lemma OneRoot(f: Forest, heap: seq<nat>) returns (root: nat)
    requires Together(heap, 1, f) && |f.base| >= 2
    ensures Tree(f.base, f.par, root, f.dist)
  {
    hide Gather, Climb, Fib, Pow2, Shares, Sum, Layered, Cheapest, Optimal;
    HoldsAt(heap, 1, f.roots, 0);
    HoldsAt(heap, 1, f.roots, 1);
    root := heap[1];
    OnlyOne(heap, f.roots);
    GrownFacts(f, root);
    assert RootOk(f, root);
    ShallowRoot(f, root);
    forall i | 0 <= i < |f.base|
      ensures f.rootOf[i] == root && 1 <= f.dist[i] <= 32 && Fib(f.dist[i] + 2) <= Sum(f.base, |f.base|)
      ensures Climb(f.par, i + 1, root, f.dist[i])
    {
      assert LeafOk(f, i);
      assert root == f.nodes > |f.base|;
      ClimbNone(f.par, i + 1, root);
      FibMono(f.dist[i] + 2, DepthOf(f.w[root]) + 2);
    }
    GatherBelow(f.rootOf, Shares(f.dist), root, |f.base|);
    LayersOrder(f, root);
    CheapestIsOptimal(f);
  }

  lemma LayersOrder(f: Forest, root: nat)
    requires Grown(f) && Layered(f) && root < |f.par| && f.par[root] == -1
    requires forall i :: 0 <= i < |f.base| ==> Climb(f.par, i + 1, root, f.dist[i])
    ensures HeavierNotLonger(f.base, f.dist)
  {
    hide Climb, Gather, Fib, Pow2, Sum;
    forall i: nat, j: nat | i < |f.base| && j < |f.base| && f.base[i] < f.base[j] ensures f.dist[j] <= f.dist[i] {
      assert Paired(f, i, j);
      var u: nat :| Above(f, i, j, u);
      ClimbToRoot(f.par, i + 1, u, f.dist[j], root, f.dist[i]);
    }
  }

  lemma ClimbNone(par: seq<int>, k: nat, r: nat)
    requires k != r
    ensures !Climb(par, k, r, 0)
  {
  }

  lemma OnlyOne(heap: seq<nat>, s: set<nat>)
    requires Holds(heap, 1, s) && 0 in s && |heap| > 1 && heap[0] == 0
    ensures heap[1] in s && heap[1] != 0 && forall x :: x in s && x != 0 ==> x == heap[1]
  {
    var a := heap[..2];
    assert a == [heap[0], heap[1]];
    assert multiset(a) == multiset{0, heap[1]};
    assert heap[1] in multiset(s) && multiset(s)[heap[1]] == 1;
    forall x | x in s && x != 0 ensures x == heap[1] { assert x in multiset(a); }
  }

  method FillHeap(heap: array<nat>, weight: array<nat>, parent: array<int>, alphaSize: nat) returns (nHeap: nat)
    requires heap != weight && alphaSize < heap.Length && alphaSize < weight.Length && alphaSize < parent.Length
    requires Named(heap[..], weight[..])
    modifies heap, parent
    ensures nHeap == alphaSize && Named(heap[..], weight[..]) && Ordered(heap[..], alphaSize, weight[..])
    ensures Holds(heap[..], alphaSize, UpTo(alphaSize)) && forall i :: 1 <= i <= alphaSize ==> parent[i] == -1
  {
    hide Ordered, Holds;
    nHeap := 0;
    FirstHolds(heap[..], weight[..]);
    var i := 1;
    while i <= alphaSize
      invariant 1 <= i <= alphaSize + 1 && nHeap == i - 1
      invariant Named(heap[..], weight[..]) && Ordered(heap[..], nHeap, weight[..])
        && Holds(heap[..], nHeap, UpTo(nHeap))
      invariant forall k :: 1 <= k < i ==> parent[k] == -1
    {
      parent[i] := -1;
      Push(heap, weight, nHeap, i, UpTo(nHeap));
      assert UpTo(nHeap) + {i} == UpTo(i);
      nHeap := nHeap + 1;
      i := i + 1;
    }
  }

  lemma FirstHolds(h: seq<nat>, w: seq<nat>)
    requires Named(h, w)
    ensures Holds(h, 0, UpTo(0)) && Ordered(h, 0, w)
  {
    assert h[..1] == [0];
    assert UpTo(0) == {0};
  }

  lemma TogetherMeans(heap: seq<nat>, n: nat, f: Forest)
    ensures Together(heap, n, f) <==>
      && Grown(f) && Layered(f) && Cheapest(f)
      && Named(heap, f.w) && Holds(heap, n, f.roots) && Ordered(heap, n, f.w)
      && f.nodes in f.roots && f.nodes + n == 2 * |f.base| && |f.w| == 2 * MAX_ALPHA_SIZE && |f.base| <= MAX_ALPHA_SIZE
  {
  }

  method BuildTree(heap: array<nat>, weight: array<nat>, parent: array<int>, alphaSize: nat, ghost base: seq<nat>)
    returns (ghost root: nat, ghost dist: seq<nat>)
    requires heap != weight && heap.Length == MAX_ALPHA_SIZE + 2 && weight.Length == parent.Length == 2 * MAX_ALPHA_SIZE
    requires 2 <= alphaSize == |base| <= MAX_ALPHA_SIZE && LeafWeights(weight[..], base)
    requires forall k :: 0 <= k < heap.Length ==> heap[k] < weight.Length
    modifies heap, weight, parent
    ensures Tree(base, parent[..], root, dist) && LeafWeights(weight[..], base)
    ensures forall k :: 0 <= k < heap.Length ==> heap[k] < weight.Length
  {
    hide Tree, Together, Grown, Layered, Cheapest;
    heap[0] := 0;
    weight[0] := 0;
    parent[0] := -2;
    assert LeafWeights(weight[..], base);
    var nHeap := FillHeap(heap, weight, parent, alphaSize);
    ghost var f := Leaves(weight[..], parent[..], base);
    LeavesGrown(weight[..], parent[..], base);
    LeavesLayered(weight[..], parent[..], base);
    LeavesCheapest(weight[..], parent[..], base);
    var nNodes := alphaSize;
    TogetherMeans(heap[..], nHeap, f);
    while nHeap > 1
      invariant 1 <= nHeap <= alphaSize && nNodes == f.nodes == 2 * alphaSize - nHeap
      invariant Together(heap[..], nHeap, f) && f.w == weight[..] && f.par == parent[..] && f.base == base
      invariant LeafWeights(weight[..], base)
    {
      f := MergeTwo(heap, weight, parent, nHeap, nNodes, f);
      nHeap := nHeap - 1;
      nNodes := nNodes + 1;
      TogetherMeans(heap[..], nHeap, f);
    }
    root := OneRoot(f, heap[..]);
    dist := f.dist;
    TogetherMeans(heap[..], nHeap, f);
  }

  // ---------------------------------------------------------------------
  // Lengths
  // ---------------------------------------------------------------------

  // The lengths use up the whole code space, in units of 2^-64.
  ghost predicate CompleteCode(lens: seq<nat>)
  {
    Sum(Shares(lens), |lens|) == Pow2(DEEP)
  }

  // len[i - 1] is the number of steps from leaf i to the root.
  method Measure(len: array<byte>, parent: array<int>, alphaSize: nat, maxLen: nat, ghost base: seq<nat>,
    ghost root: nat, ghost dist: seq<nat>)
    returns (tooLong: bool)
    requires len.Length >= alphaSize == |base| && Tree(base, parent[..], root, dist)
    modifies len
    ensures len[..alphaSize] == dist
    ensures tooLong <==> exists i :: 0 <= i < alphaSize && dist[i] > maxLen
  {
    hide Climb, Fib, Sum, HeavierNotLonger, Optimal, Pow2, Shares;
    ghost var par := parent[..];
    tooLong := false;
    var i := 1;
    while i <= alphaSize
      invariant 1 <= i <= alphaSize + 1
      invariant forall k :: 0 <= k < i - 1 ==> len[k] == dist[k]
      invariant tooLong <==> exists k :: 0 <= k < i - 1 && dist[k] > maxLen
    {
      var j := StepsUp(parent, alphaSize, i, base, root, dist);
      len[i - 1] := j;
      if j > maxLen { tooLong := true; }
      i := i + 1;
    }
  }

  // The steps from leaf i to the root.
  method StepsUp(parent: array<int>, alphaSize: nat, i: nat, ghost base: seq<nat>, ghost root: nat,
    ghost dist: seq<nat>)
    returns (j: nat)
    requires alphaSize == |base| && Tree(base, parent[..], root, dist) && 1 <= i <= alphaSize
    ensures i <= |dist| && j == dist[i - 1]
  {
    ghost var par := parent[..];
    assert Climb(par, i - 1 + 1, root, dist[i - 1]);
    j := 0;
    var k := i;
    while parent[k] >= 0
      invariant 0 <= j <= dist[i - 1] && k < parent.Length && Climb(par, k, root, dist[i - 1] - j)
      decreases parent.Length - k
    {
      k := parent[k];
      j := j + 1;
    }
  }

  // Halve the weights, keeping them positive.
  ghost function Halved(base: seq<nat>): (h: seq<nat>)
    ensures |h| == |base|
  {
    seq(|base|, i requires 0 <= i < |base| => 1 + base[i] / 2)
  }

  // Halving lowers the total until every weight is 1 or 2.
  lemma {:induction false} HalvedSum(base: seq<nat>, i: nat)
    requires i <= |base| && forall k :: 0 <= k < i ==> base[k] >= 1
    ensures Sum(Halved(base), i) <= Sum(base, i)
    ensures Sum(base, i) > 2 * i ==> Sum(Halved(base), i) < Sum(base, i)
  {
    if i > 0 { HalvedSum(base, i - 1); }
  }

  method Halve(weight: array<nat>, alphaSize: nat, ghost base: seq<nat>)
    requires alphaSize == |base| && LeafWeights(weight[..], base)
    modifies weight
    ensures LeafWeights(weight[..], Halved(base))
  {
    hide Sum;
    ghost var w := weight[..];
    HalvedSum(base, |base|);
    var i := 1;
    while i <= alphaSize
      invariant 1 <= i <= alphaSize + 1 && weight[0] == 0
      invariant forall k :: 0 <= k < i - 1 ==> weight[k + 1] == 0x100 * Halved(base)[k]
      invariant forall k :: i <= k <= alphaSize ==> weight[k] == w[k]
    {
      assert w[i - 1 + 1] == 0x100 * base[i - 1];
      var j := weight[i] / 0x100;
      j := 1 + j / 2;
      weight[i] := j * 0x100;
      i := i + 1;
    }
  }

  // The leaf weights the frequencies start from.
  ghost function FromFrequencies(freq: seq<nat>): (base: seq<nat>)
    ensures |base| == |freq|
  {
    seq(|freq|, i requires 0 <= i < |freq| => if freq[i] == 0 then 1 else freq[i])
  }

  ghost function Scaled(base: seq<nat>, h: nat): (b: seq<nat>)
    ensures |b| == |base|
  {
    if h == 0 then base else Halved(Scaled(base, h - 1))
  }

  // The lengths found for these weights had one above the bound.
  ghost predicate TooLong(base: seq<nat>, maxLen: nat)
  {
    exists dist: seq<nat> :: Optimal(base, dist) && CompleteCode(dist) && Exceeds(dist, maxLen)
  }

  ghost predicate Exceeds(dist: seq<nat>, maxLen: nat)
  {
    exists i :: 0 <= i < |dist| && dist[i] > maxLen
  }

  // The repetition ends after some number h of halvings, each made because the
  // lengths before it had one above maxLen, provided no tree over weights 1 and 2
  // can be deeper than maxLen. The lengths form a complete code within maxLen; for
  // the weights halved h times, no prefix-free code is cheaper, and a heavier
  // symbol never has the longer code.
  method MakeCodeLengths(len: array<byte>, freq: array<nat>, alphaSize: nat, maxLen: nat) returns (ghost h: nat)
    requires 2 <= alphaSize <= MAX_ALPHA_SIZE && alphaSize <= len.Length && alphaSize <= freq.Length
    requires Sum(FromFrequencies(freq[..alphaSize]), alphaSize) < 0x80_0000
    requires Fib(maxLen + 3) > 2 * alphaSize
    modifies len
    ensures forall i :: 0 <= i < alphaSize ==> 1 <= len[i] <= maxLen && len[i] <= 32
    ensures CompleteCode(len[..alphaSize])
    ensures Optimal(Scaled(FromFrequencies(freq[..alphaSize]), h), len[..alphaSize])
    ensures HeavierNotLonger(Scaled(FromFrequencies(freq[..alphaSize]), h), len[..alphaSize])
    ensures forall k :: 0 <= k < h ==> TooLong(Scaled(FromFrequencies(freq[..alphaSize]), k), maxLen)
  {
    hide Sum, Tree, Fib, Pow2, LeafWeights, Optimal, CompleteCode, TooLong;
    var heap := new nat[MAX_ALPHA_SIZE + 2](_ => 0);
    var weight := new nat[2 * MAX_ALPHA_SIZE](_ => 0);
    var parent := new int[2 * MAX_ALPHA_SIZE](_ => 0);
    StartWeights(weight, freq, alphaSize);
    ghost var start: seq<nat> := FromFrequencies(freq[..alphaSize]);
    ghost var base := start;
    h := 0;
    while true
      invariant FromFrequencies(freq[..alphaSize]) == start && base == Scaled(start, h)
      invariant |base| == alphaSize && LeafWeights(weight[..], base)
      invariant forall k :: 0 <= k < h ==> TooLong(Scaled(start, k), maxLen)
      invariant forall k :: 0 <= k < heap.Length ==> heap[k] < weight.Length
      decreases Sum(base, |base|)
    {
      ghost var root, dist := BuildTree(heap, weight, parent, alphaSize, base);
      var tooLong := Measure(len, parent, alphaSize, maxLen, base, root, dist);
      TreeMeans(base, parent[..], root, dist, maxLen);
      if !tooLong { break; }
      StillHeavy(weight[..], base);
      Halve(weight, alphaSize, base);
      base, h := Halved(base), h + 1;
    }
  }

  method StartWeights(weight: array<nat>, freq: array<nat>, alphaSize: nat)
    requires weight.Length == 2 * MAX_ALPHA_SIZE && alphaSize <= MAX_ALPHA_SIZE && alphaSize <= freq.Length
      && weight != freq
    requires Sum(FromFrequencies(freq[..alphaSize]), alphaSize) < 0x80_0000 && weight[0] == 0
    modifies weight
    ensures LeafWeights(weight[..], FromFrequencies(freq[..alphaSize]))
  {
    hide Sum;
    ghost var base := FromFrequencies(freq[..alphaSize]);
    var i := 0;
    while i < alphaSize
      invariant 0 <= i <= alphaSize && weight[0] == 0
      invariant forall k :: 0 <= k < i ==> weight[k + 1] == 0x100 * base[k]
    {
      weight[i + 1] := (if freq[i] == 0 then 1 else freq[i]) * 0x100;
      i := i + 1;
    }
  }

  lemma TreeMeans(base: seq<nat>, par: seq<int>, root: nat, dist: seq<nat>, maxLen: nat)
    requires Tree(base, par, root, dist)
    ensures HeavierNotLonger(base, dist) && Optimal(base, dist) && CompleteCode(dist)
    ensures forall i :: 0 <= i < |dist| ==> 1 <= dist[i] <= 32
    ensures (exists i :: 0 <= i < |dist| && dist[i] > maxLen) ==> TooLong(base, maxLen)
    ensures (exists i :: 0 <= i < |dist| && dist[i] > maxLen) ==> Sum(base, |base|) >= Fib(maxLen + 3)
  {
    hide Fib, Climb, Sum, Shares, Pow2, Optimal;
    if i :| 0 <= i < |dist| && dist[i] > maxLen { FibMono(maxLen + 3, dist[i] + 2); }
  }

  lemma StillHeavy(w: seq<nat>, base: seq<nat>)
    requires LeafWeights(w, base)
    ensures Sum(base, |base|) > 2 * |base| ==> Sum(Halved(base), |base|) < Sum(base, |base|)
  {
    HalvedSum(base, |base|);
  }

  // The bound bzip2 passes, 17, meets the condition with room to spare for every alphabet.
  lemma SeventeenIsEnough(maxLen: nat, alphaSize: nat)
    requires maxLen >= 12 && alphaSize <= MAX_ALPHA_SIZE
    ensures Fib(maxLen + 3) > 2 * alphaSize
  {
    FibValues();
    FibMono(15, maxLen + 3);
  }

  // Lengths of at most 20 that are complete here satisfy Kraft's inequality with equality.
  lemma CompleteIsKraft(lens: seq<byte>)
    requires Lengths(lens) && CompleteCode(lens)
    ensures KraftSum(lens, |lens|) == Pow2(LONGEST)
  {
    hide Pow2;
    SharesAreKraft(lens, |lens|);
    Pow2Add(DEEP - LONGEST, LONGEST);
    var p: int := Pow2(DEEP - LONGEST);
    CancelLeft(p, KraftSum(lens, |lens|), Pow2(LONGEST));
    CancelLeft(p, Pow2(LONGEST), KraftSum(lens, |lens|));
  }

  lemma {:induction false} SharesAreKraft(lens: seq<byte>, i: nat)
    requires Lengths(lens) && i <= |lens|
    ensures Sum(Shares(lens), i) == Pow2(DEEP - LONGEST) * KraftSum(lens, i)
  {
    hide Pow2, Sum, KraftSum, Share;
    if i == 0 {
      NothingSummed(lens);
    } else {
      var p, k, t := Pow2(DEEP - LONGEST), KraftSum(lens, i - 1), Pow2(LONGEST - lens[i - 1]);
      SharesAreKraft(lens, i - 1);
      ShareSplit(lens[i - 1]);
      SumStep(Shares(lens), i);
      KraftStep(lens, i);
      Distribute(p, k, t);
    }
  }

  lemma Distribute(p: int, k: int, t: int)
    ensures p * (k + t) == p * k + p * t
  {
  }

  lemma ShareSplit(d: nat)
    requires d <= LONGEST
    ensures Share(d) == Pow2(DEEP - LONGEST) * Pow2(LONGEST - d)
  {
    Pow2Add(DEEP - LONGEST, LONGEST - d);
  }

  lemma NothingSummed(lens: seq<byte>)
    ensures Sum(Shares(lens), 0) == KraftSum(lens, 0) == 0
  {
  }

  lemma SumStep(v: seq<nat>, i: nat)
    requires 0 < i <= |v|
    ensures Sum(v, i) == Sum(v, i - 1) + v[i - 1]
  {
  }

  lemma KraftStep(lens: seq<byte>, i: nat)
    requires Lengths(lens) && 0 < i <= |lens|
    ensures KraftSum(lens, i) == KraftSum(lens, i - 1) + Pow2(LONGEST - lens[i - 1])
  {
  }
}
