/** The tree that BZ2_hbMakeCodeLengths builds, through its parent links: how deep the leaves can be,
    and that their depths make a complete code. */
module CodeTree {
  import opened Powers
  import opened Sequences
  import opened Sums
  import Bits

  /** The least weight of a tree of height h, when no weight is below 1: a Fibonacci number. */
  function LeastWeight(h: nat): (w: nat)
    ensures w >= 1
  {
    if h == 0 then 1 else if h == 1 then 2 else LeastWeight(h - 1) + LeastWeight(h - 2)
  }

  lemma {:induction false} LeastWeightGrows(h: nat, k: nat)
    requires h <= k
    ensures LeastWeight(h) <= LeastWeight(k)
    decreases k
  {
    if h < k { LeastWeightGrows(h, k - 1); }
  }

  lemma LeastWeightValues()
    ensures LeastWeight(18) == 6765 && LeastWeight(33) == 9227465
  {
    assert LeastWeight(8) == 55 && LeastWeight(9) == 89;
    assert LeastWeight(18) == 6765 && LeastWeight(19) == 10946;
    assert LeastWeight(26) == 317811 && LeastWeight(27) == 514229;
  }

  /** A weight word holds the weight in its upper bits and the height of the tree in its low byte. */
  function WeightOf(z: nat): nat { z - z % 256 }
  function DepthOf(z: nat): nat { z % 256 }
  function Max(a: nat, b: nat): nat { if a > b then a else b }

  /** ADDWEIGHTS: the low byte has room for the height, which is or-ed into it. */
  function AddWeights(x: nat, y: nat): (z: nat)
    requires 1 + Max(DepthOf(x), DepthOf(y)) < 256 && x / 256 + y / 256 < 0x100_0000
    ensures z > 0 && z / 256 == x / 256 + y / 256 && DepthOf(z) == 1 + Max(DepthOf(x), DepthOf(y))
  {
    Bits.OrIsSum(x / 256 + y / 256, 1 + Max(DepthOf(x), DepthOf(y)));
    Bits.OrOf(WeightOf(x) + WeightOf(y), 1 + Max(DepthOf(x), DepthOf(y)))
  }

  /** Node t has exactly two children. */
  ghost predicate HasKids(par: seq<int>, kids: seq<(nat, nat)>, nodes: nat, t: nat)
    requires nodes < |par| && nodes < |kids| && t <= nodes
  {
    var (a, b) := kids[t];
    && 1 <= a < t && 1 <= b < t && a != b && par[a] == t && par[b] == t
    && forall k :: 1 <= k <= nodes && par[k] == t ==> k == a || k == b
  }

  /** Nodes 1 to alpha are leaves, the others have two children each, and roots have no parent. */
  ghost predicate Forest(par: seq<int>, kids: seq<(nat, nat)>, roots: set<nat>, alpha: nat, nodes: nat) {
    && alpha <= nodes < |par| && nodes < |kids|
    && (forall k :: k in roots ==> 1 <= k <= nodes)
    && (forall k :: 1 <= k <= nodes ==> if k in roots then par[k] == -1 else k < par[k] <= nodes && par[k] > alpha)
    && forall t :: alpha < t <= nodes ==> HasKids(par, kids, nodes, t)
  }

  function RootWeights(par: seq<int>, wt: seq<nat>, nodes: nat): seq<int>
    requires nodes < |par| && nodes < |wt|
  {
    seq(nodes + 1, k requires 0 <= k < nodes + 1 => if k > 0 && par[k] < 0 then wt[k] / 256 else 0)
  }

  /** The weights are at least those of Fibonacci trees, and the roots share the total weight. */
  ghost predicate Weighed(par: seq<int>, wt: seq<nat>, roots: set<nat>, nodes: nat, total: int, deepest: nat) {
    && nodes < |par| && nodes < |wt|
    && (forall k :: k in roots ==> 1 <= k <= nodes)
    && (forall k :: 1 <= k <= nodes ==> wt[k] / 256 >= LeastWeight(DepthOf(wt[k])))
    && (forall k :: 1 <= k <= nodes && 0 < par[k] <= nodes ==> DepthOf(wt[k]) < DepthOf(wt[par[k]]))
    && (forall k :: k in roots ==> DepthOf(wt[k]) <= deepest)
    && (forall k :: k in roots && deepest > 0 ==> wt[k] / 256 >= LeastWeight(deepest - 1))
    && Sum(RootWeights(par, wt, nodes)) == total
  }

  /** n1 and n2 are the two lightest roots. */
  ghost predicate Lightest(wt: seq<nat>, roots: set<nat>, n1: nat, n2: nat) {
    && n1 in roots && n2 in roots && n1 != n2
    && (forall k :: k in roots ==> k < |wt|)
    && wt[n1] <= wt[n2] && forall k :: k in roots && k != n1 ==> wt[n2] <= wt[k]
  }

  lemma MergeForest(par: seq<int>, kids: seq<(nat, nat)>, roots: set<nat>, alpha: nat, nodes: nat, n1: nat, n2: nat)
    requires Forest(par, kids, roots, alpha, nodes) && n1 in roots && n2 in roots && n1 != n2
    requires nodes + 1 < |par| && nodes + 1 < |kids|
    ensures var x := nodes + 1;
            Forest(par[n1 := x][n2 := x][x := -1], kids[x := (n1, n2)], roots - {n1, n2} + {x}, alpha, x)
  {
    var x := nodes + 1;
    var par', kids' := par[n1 := x][n2 := x][x := -1], kids[x := (n1, n2)];
    forall t | alpha < t <= x ensures HasKids(par', kids', x, t) {
      if t < x { assert HasKids(par, kids, nodes, t); }
    }
  }

  /** Two light trees make a tree that is not too light for its height. */
  lemma MergedWeight(w1: nat, h1: nat, w2: nat, h2: nat, deepest: nat)
    requires w1 >= LeastWeight(h1) && w2 >= LeastWeight(h2) && h1 <= deepest && h2 <= deepest
    requires deepest > 0 ==> w1 >= LeastWeight(deepest - 1) && w2 >= LeastWeight(deepest - 1)
    ensures w1 + w2 >= LeastWeight(1 + Max(h1, h2))
  {
    var m := Max(h1, h2);
    if m > 0 {
      LeastWeightGrows(m - 1, deepest - 1);
    }
  }

  lemma MergeRootWeights(par: seq<int>, wt: seq<nat>, nodes: nat, n1: nat, n2: nat, z: nat)
    requires nodes + 1 < |par| && nodes + 1 < |wt| && 1 <= n1 <= nodes && 1 <= n2 <= nodes && n1 != n2
    requires par[n1] < 0 && par[n2] < 0 && z / 256 == wt[n1] / 256 + wt[n2] / 256
    ensures wt[n1] / 256 + wt[n2] / 256 <= Sum(RootWeights(par, wt, nodes))
    ensures var x := nodes + 1;
            Sum(RootWeights(par[n1 := x][n2 := x][x := -1], wt[x := z], x)) == Sum(RootWeights(par, wt, nodes))
  {
    var x := nodes + 1;
    var s, s' := RootWeights(par, wt, nodes), RootWeights(par[n1 := x][n2 := x][x := -1], wt[x := z], x);
    TwoTerms(s, n1, n2);
    SumUpdate(s, n1, 0);
    SumUpdate(s[n1 := 0], n2, 0);
    assert s'[..x] == s[n1 := 0][n2 := 0];
  }

  /** The depth byte never overflows when the total weight is below 2^23. */
  lemma HeightFits(wt: seq<nat>, k: nat, total: int)
    requires k < |wt| && wt[k] / 256 >= LeastWeight(DepthOf(wt[k])) && wt[k] / 256 <= total < 0x80_0000
    ensures DepthOf(wt[k]) < 33
  {
    if DepthOf(wt[k]) >= 33 {
      LeastWeightGrows(33, DepthOf(wt[k]));
      LeastWeightValues();
    }
  }

  lemma MergeHeights(par: seq<int>, wt: seq<nat>, roots: set<nat>, nodes: nat, total: int, deepest: nat, n1: nat, n2: nat)
    requires Weighed(par, wt, roots, nodes, total, deepest) && Lightest(wt, roots, n1, n2) && total < 0x80_0000
    requires par[n1] < 0 && par[n2] < 0 && nodes + 1 < |par| && nodes + 1 < |wt|
    ensures DepthOf(wt[n1]) < 33 && DepthOf(wt[n2]) < 33
    ensures wt[n1] / 256 + wt[n2] / 256 <= total
  {
    MergeRootWeights(par, wt, nodes, n1, n2, (wt[n1] / 256 + wt[n2] / 256) * 256);
    HeightFits(wt, n1, total);
    HeightFits(wt, n2, total);
  }

  /** Merging the two lightest roots keeps every tree at least as heavy as a Fibonacci tree. */
  lemma MergeWeighed(par: seq<int>, wt: seq<nat>, roots: set<nat>, nodes: nat, total: int, deepest: nat, n1: nat, n2: nat)
    requires Weighed(par, wt, roots, nodes, total, deepest) && Lightest(wt, roots, n1, n2) && total < 0x80_0000
    requires par[n1] < 0 && par[n2] < 0 && nodes + 1 < |par| && nodes + 1 < |wt|
    requires DepthOf(wt[n1]) < 33 && DepthOf(wt[n2]) < 33 && wt[n1] / 256 + wt[n2] / 256 <= total
    requires forall k :: 1 <= k <= nodes ==> par[k] <= nodes
    ensures var x := nodes + 1;
            Weighed(par[n1 := x][n2 := x][x := -1], wt[x := AddWeights(wt[n1], wt[n2])], roots - {n1, n2} + {x}, x, total,
                    Max(deepest, 1 + Max(DepthOf(wt[n1]), DepthOf(wt[n2]))))
  {
    hide AddWeights, LeastWeight, RootWeights, DepthOf, Sum;
    var x := nodes + 1;
    var z := AddWeights(wt[n1], wt[n2]);
    MergeRootWeights(par, wt, nodes, n1, n2, z);
    MergedWeight(wt[n1] / 256, DepthOf(wt[n1]), wt[n2] / 256, DepthOf(wt[n2]), deepest);
    var par', wt' := par[n1 := x][n2 := x][x := -1], wt[x := z];
    var deepest' := Max(deepest, DepthOf(z));
    if deepest' > deepest {
      forall k | k in roots - {n1, n2} + {x} ensures wt'[k] / 256 >= LeastWeight(deepest) {
        assert wt[n1] / 256 >= LeastWeight(deepest) || wt[n2] / 256 >= LeastWeight(deepest);
        if k != x { assert wt[n1] <= wt[k] && wt[n2] <= wt[k]; }
      }
    }
  }

  /** The number of links from k up to its root: the length of its code. */
  function Depth(par: seq<int>, nodes: nat, k: nat): (d: nat)
    requires 1 <= k <= nodes < |par| && forall i :: 1 <= i <= nodes && par[i] >= 0 ==> i < par[i] <= nodes
    decreases nodes - k
  {
    if par[k] < 0 then 0 else 1 + Depth(par, nodes, par[k])
  }

  ghost predicate Upward(par: seq<int>, nodes: nat) {
    nodes < |par| && forall i :: 1 <= i <= nodes && par[i] >= 0 ==> i < par[i] <= nodes
  }

  lemma {:induction false} DepthWithinHeight(par: seq<int>, wt: seq<nat>, nodes: nat, k: nat, h: nat)
    requires 1 <= k <= nodes < |wt| && Upward(par, nodes)
    requires forall i :: 1 <= i <= nodes && par[i] >= 0 ==> DepthOf(wt[i]) < DepthOf(wt[par[i]])
    requires forall i :: 1 <= i <= nodes && par[i] < 0 ==> DepthOf(wt[i]) <= h
    ensures Depth(par, nodes, k) + DepthOf(wt[k]) <= h
    decreases nodes - k
  {
    if par[k] >= 0 { DepthWithinHeight(par, wt, nodes, par[k], h); }
  }

  /** The share of the code space that the nodes up to t with a parent above t take up, in units of 2^-m. */
  function Shares(par: seq<int>, nodes: nat, t: nat, m: nat): (s: seq<int>)
    requires t <= nodes && Upward(par, nodes) && forall k :: 1 <= k <= nodes ==> Depth(par, nodes, k) <= m
    ensures |s| == nodes + 1
  {
    seq(nodes + 1, k requires 0 <= k < nodes + 1 =>
      if 1 <= k <= t && (par[k] < 0 || par[k] > t) then Pow2(m - Depth(par, nodes, k)) else 0)
  }

  lemma SharesOfKids(par: seq<int>, kids: seq<(nat, nat)>, alpha: nat, nodes: nat, t: nat, m: nat)
    requires Forest(par, kids, {nodes}, alpha, nodes) && Upward(par, nodes) && alpha < t <= nodes
    requires forall k :: 1 <= k <= nodes ==> Depth(par, nodes, k) <= m
    ensures var (a, b) := kids[t];
            && 1 <= a < t && 1 <= b < t && a != b
            && Depth(par, nodes, a) == Depth(par, nodes, b) == 1 + Depth(par, nodes, t) <= m
            && Shares(par, nodes, t, m)[a] == Shares(par, nodes, t, m)[b] == 0
            && Shares(par, nodes, t - 1, m) ==
               Shares(par, nodes, t, m)[t := 0][a := Pow2(m - Depth(par, nodes, a))][b := Pow2(m - Depth(par, nodes, b))]
  {
    hide Pow2;
    assert HasKids(par, kids, nodes, t);
    var (a, b) := kids[t];
    assert Depth(par, nodes, a) == Depth(par, nodes, b) == 1 + Depth(par, nodes, t);
    hide Depth;
  }

  /** Replacing a node by its two children does not change the share. */
  lemma SharesSplit(par: seq<int>, kids: seq<(nat, nat)>, alpha: nat, nodes: nat, t: nat, m: nat)
    requires Forest(par, kids, {nodes}, alpha, nodes) && Upward(par, nodes) && alpha < t <= nodes
    requires forall k :: 1 <= k <= nodes ==> Depth(par, nodes, k) <= m
    ensures Sum(Shares(par, nodes, t, m)) == Sum(Shares(par, nodes, t - 1, m))
  {
    hide Depth, HasKids;
    SharesOfKids(par, kids, alpha, nodes, t, m);
    var (a, b) := kids[t];
    var s := Shares(par, nodes, t, m);
    var half := Pow2(m - Depth(par, nodes, a));
    assert s[t] == 2 * half && s[a] == s[b] == 0;
    SumUpdate(s, t, 0);
    SumUpdate(s[t := 0], a, half);
    SumUpdate(s[t := 0][a := half], b, half);
  }

  lemma {:induction false} SharesAll(par: seq<int>, kids: seq<(nat, nat)>, alpha: nat, nodes: nat, t: nat, m: nat)
    requires Forest(par, kids, {nodes}, alpha, nodes) && Upward(par, nodes) && alpha <= t <= nodes && 1 <= nodes
    requires forall k :: 1 <= k <= nodes ==> Depth(par, nodes, k) <= m
    ensures Sum(Shares(par, nodes, t, m)) == Pow2(m)
    decreases nodes - t
  {
    if t == nodes {
      var zeros := seq(nodes + 1, _ => 0);
      assert Shares(par, nodes, t, m) == zeros[nodes := Pow2(m)];
      SumUpdate(zeros, nodes, Pow2(m));
      SumConstantBound(zeros, 0);
      SumNotNegative(zeros);
    } else {
      SharesAll(par, kids, alpha, nodes, t + 1, m);
      SharesSplit(par, kids, alpha, nodes, t + 1, m);
    }
  }
}
