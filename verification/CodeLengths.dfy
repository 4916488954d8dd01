/** BZ2_hbMakeCodeLengths: Huffman code lengths of at most maxLen bits. */
module CodeLengths {
  import opened Powers
  import opened Sequences
  import opened Sums
  import opened CodeHeap
  import opened CodeTree
  import opened OptimalCodes

  const MAX_ALPHA_SIZE := 258

  ghost function UpTo(n: nat): (s: set<nat>)
    ensures forall k: nat :: k in s <==> 1 <= k <= n
  {
    Below(n + 1) - {0}
  }

  /** The weights of the leaves. */
  function LeafWeights(wt: seq<nat>, alpha: nat): (s: seq<int>)
    requires alpha < |wt|
    ensures |s| == alpha + 1
  {
    seq(alpha + 1, k requires 0 <= k < alpha + 1 => if k > 0 then wt[k] / 256 else 0)
  }

  /** Leaves weigh at least 1 and have no depth yet. */
  ghost predicate PlainLeaves(wt: seq<nat>, alpha: nat) {
    alpha < |wt| && forall k :: 1 <= k <= alpha ==> DepthOf(wt[k]) == 0 && wt[k] >= 256
  }

  /** The state while trees are merged: the heap holds the roots. */
  ghost predicate Building(par: seq<int>, wt: seq<nat>, kids: seq<(nat, nat)>, roots: set<nat>, hp: seq<nat>, nHeap: nat,
                           alpha: nat, nodes: nat, total: int, deepest: nat)
  {
    && Forest(par, kids, roots, alpha, nodes)
    && Weighed(par, wt, roots, nodes, total, deepest) && Greedy(par, wt, kids, alpha, nodes)
    && Nodes(hp, wt, nHeap) && Heap(hp, wt, nHeap) && Members(hp, nHeap) == multiset(roots)
    && nodes in roots && nHeap + nodes == 2 * alpha
  }

  /** Put the leaves into the heap. */
  method FillHeap(heap: array<nat>, weight: array<nat>, parent: array<int>, alphaSize: nat)
    requires heap != weight && parent as object != heap && parent as object != weight
    requires 0 < alphaSize && heap.Length > alphaSize && weight.Length > alphaSize && parent.Length > alphaSize
    requires PlainLeaves(weight[..], alphaSize)
    modifies heap, weight, parent
    ensures weight[0] == 0 && forall k :: 1 <= k < weight.Length ==> weight[k] == old(weight[k])
    ensures forall k :: 1 <= k <= alphaSize ==> parent[k] == -1
    ensures Nodes(heap[..], weight[..], alphaSize) && Heap(heap[..], weight[..], alphaSize)
    ensures Members(heap[..], alphaSize) == multiset(UpTo(alphaSize))
  {
    hide Heap, Members, UpTo;
    heap[0], weight[0], parent[0] := 0, 0, -2;
    ghost var wt := weight[..];
    EmptyHeap(heap[..], wt);
    for i := 1 to alphaSize + 1
      invariant weight[..] == wt
      invariant forall k :: 1 <= k < i ==> parent[k] == -1
      invariant Nodes(heap[..], wt, i - 1) && Heap(heap[..], wt, i - 1) && Members(heap[..], i - 1) == multiset(UpTo(i - 1))
    {
      parent[i] := -1;
      Insert(heap, weight, i - 1, i);
      assert UpTo(i) == UpTo(i - 1) + {i};
    }
  }

  lemma EmptyHeap(hp: seq<nat>, wt: seq<nat>)
    requires |hp| > 0 && hp[0] == 0 && |wt| > 0 && wt[0] == 0
    ensures Nodes(hp, wt, 0) && Heap(hp, wt, 0) && Members(hp, 0) == multiset(UpTo(0))
  {
    assert UpTo(0) == {};
  }

  lemma BuildingStarts(par: seq<int>, wt: seq<nat>, kids: seq<(nat, nat)>, hp: seq<nat>, alpha: nat)
    requires 0 < alpha < |par| && alpha < |kids| && PlainLeaves(wt, alpha) && forall k :: 1 <= k <= alpha ==> par[k] == -1
    requires Nodes(hp, wt, alpha) && Heap(hp, wt, alpha) && Members(hp, alpha) == multiset(UpTo(alpha))
    ensures Building(par, wt, kids, UpTo(alpha), hp, alpha, alpha, alpha, Sum(LeafWeights(wt, alpha)), 0)
  {
    hide Heap, Members;
    assert RootWeights(par, wt, alpha) == LeafWeights(wt, alpha);
  }

  lemma ExtractedAreLightest(wt: seq<nat>, roots: set<nat>, n1: nat, n2: nat)
    requires n1 in multiset(roots) && n1 < |wt| && forall m :: m in multiset(roots) ==> m < |wt| && wt[n1] <= wt[m]
    requires var rest := multiset(roots) - multiset{n1};
             n2 in rest && n2 < |wt| && forall m :: m in rest ==> m < |wt| && wt[n2] <= wt[m]
    ensures Lightest(wt, roots, n1, n2)
    ensures multiset(roots) - multiset{n1} - multiset{n2} == multiset(roots - {n1, n2})
  {
    assert n1 !in multiset(roots) - multiset{n1};
    forall k | k in roots && k != n1 ensures k < |wt| && wt[n2] <= wt[k] {
      assert k in multiset(roots) - multiset{n1};
    }
  }

  /** Forest and weights after a merge. */
  lemma Merge(par: seq<int>, wt: seq<nat>, kids: seq<(nat, nat)>, roots: set<nat>, alpha: nat, nodes: nat,
              total: int, deepest: nat, n1: nat, n2: nat)
    requires Forest(par, kids, roots, alpha, nodes) && Weighed(par, wt, roots, nodes, total, deepest) && Greedy(par, wt, kids, alpha, nodes)
    requires Lightest(wt, roots, n1, n2) && total < 0x80_0000 && nodes + 1 < |par| && nodes + 1 < |kids| && nodes + 1 < |wt|
    ensures 1 <= n1 <= nodes && 1 <= n2 <= nodes && n1 != n2 && DepthOf(wt[n1]) < 33 && DepthOf(wt[n2]) < 33
    ensures wt[n1] / 256 + wt[n2] / 256 <= total
    ensures var x := nodes + 1;
            && Forest(par[n1 := x][n2 := x][x := -1], kids[x := (n1, n2)], roots - {n1, n2} + {x}, alpha, x)
            && Weighed(par[n1 := x][n2 := x][x := -1], wt[x := AddWeights(wt[n1], wt[n2])], roots - {n1, n2} + {x}, x, total,
                       Max(deepest, 1 + Max(DepthOf(wt[n1]), DepthOf(wt[n2]))))
            && Greedy(par[n1 := x][n2 := x][x := -1], wt[x := AddWeights(wt[n1], wt[n2])], kids[x := (n1, n2)], alpha, x)
  {
    hide Weighed, AddWeights, Greedy;
    MergeForest(par, kids, roots, alpha, nodes, n1, n2);
    MergeHeights(par, wt, roots, nodes, total, deepest, n1, n2);
    MergeWeighed(par, wt, roots, nodes, total, deepest, n1, n2);
    MergeGreedy(par, wt, kids, roots, alpha, nodes, n1, n2, AddWeights(wt[n1], wt[n2]));
  }

  lemma RootsInRange(par: seq<int>, kids: seq<(nat, nat)>, roots: set<nat>, alpha: nat, nodes: nat)
    requires Forest(par, kids, roots, alpha, nodes)
    ensures nodes + 1 !in roots && 0 !in roots
  {
  }

  /** Take the two lightest roots out of the heap. */
  method TakeTwo(heap: array<nat>, weight: array<nat>, nHeap: nat, ghost roots: set<nat>) returns (n1: nat, n2: nat)
    requires heap != weight && 1 < nHeap && Nodes(heap[..], weight[..], nHeap) && Heap(heap[..], weight[..], nHeap)
    requires Members(heap[..], nHeap) == multiset(roots)
    modifies heap
    ensures Nodes(heap[..], weight[..], nHeap - 2) && Heap(heap[..], weight[..], nHeap - 2)
    ensures Lightest(weight[..], roots, n1, n2) && n1 < weight.Length && n2 < weight.Length
    ensures Members(heap[..], nHeap - 2) == multiset(roots - {n1, n2})
  {
    hide Heap, Members, Nodes;
    ghost var wt := weight[..];
    n1 := ExtractTop(heap, weight, nHeap);
    n2 := ExtractTop(heap, weight, nHeap - 1);
    ExtractedAreLightest(wt, roots, n1, n2);
  }

  /** Merge the two lightest trees. */
  method MergeTwo(heap: array<nat>, weight: array<nat>, parent: array<int>, nHeap: nat, nNodes: nat, ghost alpha: nat,
                  ghost total: int, ghost kids: seq<(nat, nat)>, ghost roots: set<nat>, ghost deepest: nat)
    returns (ghost kids': seq<(nat, nat)>, ghost roots': set<nat>, ghost deepest': nat)
    requires heap != weight && parent as object != heap && parent as object != weight
    requires nHeap > 1 && nHeap < heap.Length && nNodes + 1 < weight.Length == parent.Length == |kids| && total < 0x80_0000
    requires Building(parent[..], weight[..], kids, roots, heap[..], nHeap, alpha, nNodes, total, deepest)
    modifies heap, weight, parent
    ensures |kids'| == |kids|
    ensures Building(parent[..], weight[..], kids', roots', heap[..], nHeap - 1, alpha, nNodes + 1, total, deepest')
    ensures forall k :: 1 <= k <= nNodes ==> weight[k] == old(weight[k])
  {
    hide Heap, Members, Forest, Weighed, Lightest, AddWeights, DepthOf, Nodes, Greedy;
    ghost var par, wt := parent[..], weight[..];
    var n1, n2 := TakeTwo(heap, weight, nHeap, roots);
    var x := nNodes + 1;
    RootsInRange(par, kids, roots, alpha, nNodes);
    Merge(par, wt, kids, roots, alpha, nNodes, total, deepest, n1, n2);
    kids', roots' := kids[x := (n1, n2)], roots - {n1, n2} + {x};
    deepest' := Max(deepest, 1 + Max(DepthOf(wt[n1]), DepthOf(wt[n2])));
    parent[n1], parent[n2] := x, x;
    ghost var z := AddWeights(wt[n1], wt[n2]);
    WeighOutside(heap[..], wt, nHeap - 2, x, z);
    weight[x] := AddWeights(weight[n1], weight[n2]);
    parent[x] := -1;
    assert weight[..] == wt[x := z] && parent[..] == par[n1 := x][n2 := x][x := -1];
    Insert(heap, weight, nHeap - 2, x);
    assert multiset(roots') == multiset(roots - {n1, n2}) + multiset{x};
  }

  /** One tree over all leaves. */
  ghost predicate Tree(par: seq<int>, wt: seq<nat>, kids: seq<(nat, nat)>, alpha: nat, total: int, deepest: nat) {
    var nodes := 2 * alpha - 1;
    && 0 < alpha && Forest(par, kids, {nodes}, alpha, nodes) && Weighed(par, wt, {nodes}, nodes, total, deepest)
    && Greedy(par, wt, kids, alpha, nodes)
  }

  lemma OneRootLeft(par: seq<int>, wt: seq<nat>, kids: seq<(nat, nat)>, roots: set<nat>, hp: seq<nat>,
                    alpha: nat, nodes: nat, total: int, deepest: nat)
    requires 0 < alpha && Building(par, wt, kids, roots, hp, 1, alpha, nodes, total, deepest)
    ensures nodes == 2 * alpha - 1 && Tree(par, wt, kids, alpha, total, deepest)
  {
    hide Forest, Weighed, Heap, Greedy;
    assert |multiset(roots)| == |roots|;
    assert |Members(hp, 1)| == 1;
    SubsetCardinality({nodes}, roots);
  }

  /** Build the tree: nodes 1 to alphaSize are the leaves, and the last node is the root. */
  method BuildTree(heap: array<nat>, weight: array<nat>, parent: array<int>, alphaSize: nat)
    returns (ghost kids: seq<(nat, nat)>, ghost deepest: nat)
    requires heap != weight && parent as object != heap && parent as object != weight
    requires 2 <= alphaSize <= MAX_ALPHA_SIZE && heap.Length == MAX_ALPHA_SIZE + 2
    requires weight.Length == parent.Length == MAX_ALPHA_SIZE * 2
    requires PlainLeaves(weight[..], alphaSize) && Sum(LeafWeights(weight[..], alphaSize)) < 0x80_0000
    modifies heap, weight, parent
    ensures forall k :: 1 <= k <= alphaSize ==> weight[k] == old(weight[k])
    ensures Tree(parent[..], weight[..], kids, alphaSize, Sum(LeafWeights(old(weight[..]), alphaSize)), deepest)
  {
    hide Building, Heap, Nodes, UpTo, PlainLeaves, Tree;
    ghost var total := Sum(LeafWeights(weight[..], alphaSize));
    ghost var wt := weight[..];
    FillHeap(heap, weight, parent, alphaSize);
    var nNodes, nHeap := alphaSize, alphaSize;
    kids := seq(parent.Length, _ => (0, 0));
    ghost var roots := UpTo(alphaSize);
    LeavesStay(wt, weight[..], alphaSize);
    BuildingStarts(parent[..], weight[..], kids, heap[..], alphaSize);
    deepest := 0;
    while nHeap > 1
      invariant 1 <= nHeap <= alphaSize && nHeap + nNodes == 2 * alphaSize && |kids| == parent.Length
      invariant forall k :: 1 <= k <= alphaSize ==> weight[k] == wt[k]
      invariant Building(parent[..], weight[..], kids, roots, heap[..], nHeap, alphaSize, nNodes, total, deepest)
    {
      kids, roots, deepest := MergeTwo(heap, weight, parent, nHeap, nNodes, alphaSize, total, kids, roots, deepest);
      nHeap, nNodes := nHeap - 1, nNodes + 1;
    }
    assert nNodes < MAX_ALPHA_SIZE * 2;
    OneRootLeft(parent[..], weight[..], kids, roots, heap[..], alphaSize, nNodes, total, deepest);
  }

  lemma LeavesStay(wt: seq<nat>, wt': seq<nat>, alpha: nat)
    requires alpha < |wt| == |wt'| && forall k :: 1 <= k <= alpha ==> wt'[k] == wt[k]
    ensures LeafWeights(wt', alpha) == LeafWeights(wt, alpha) && PlainLeaves(wt, alpha) == PlainLeaves(wt', alpha)
  {
  }

  lemma TreeGoesUp(par: seq<int>, wt: seq<nat>, kids: seq<(nat, nat)>, alpha: nat, total: int, deepest: nat)
    requires Tree(par, wt, kids, alpha, total, deepest)
    ensures Upward(par, 2 * alpha - 1) && par[2 * alpha - 1] == -1
    ensures forall k :: 1 <= k < 2 * alpha - 1 ==> par[k] > alpha
  {
  }

  lemma RootHasAll(par: seq<int>, wt: seq<nat>, nodes: nat, total: int)
    requires 0 < nodes < |par| && nodes < |wt| && par[nodes] < 0 && Sum(RootWeights(par, wt, nodes)) == total
    ensures wt[nodes] / 256 <= total
  {
    hide Sum;
    TwoTerms(RootWeights(par, wt, nodes), nodes, 0);
  }

  lemma RootOfTree(par: seq<int>, wt: seq<nat>, kids: seq<(nat, nat)>, alpha: nat, total: int, deepest: nat)
    requires Tree(par, wt, kids, alpha, total, deepest) && Upward(par, 2 * alpha - 1)
    ensures 0 < 2 * alpha - 1 < |par| && 2 * alpha - 1 < |wt| && par[2 * alpha - 1] < 0
    ensures LeastWeight(DepthOf(wt[2 * alpha - 1])) <= total
    ensures forall i :: 1 <= i <= 2 * alpha - 1 && par[i] >= 0 ==> DepthOf(wt[i]) < DepthOf(wt[par[i]])
    ensures forall i :: 1 <= i <= 2 * alpha - 1 && par[i] < 0 ==> i == 2 * alpha - 1
  {
    hide LeastWeight, Sum, RootWeights, DepthOf;
    RootHasAll(par, wt, 2 * alpha - 1, total);
  }

  lemma TreeHeight(par: seq<int>, wt: seq<nat>, kids: seq<(nat, nat)>, alpha: nat, total: int, deepest: nat, k: nat)
    requires Tree(par, wt, kids, alpha, total, deepest) && 1 <= k <= 2 * alpha - 1 && Upward(par, 2 * alpha - 1)
    ensures LeastWeight(Depth(par, 2 * alpha - 1, k)) <= total
  {
    hide LeastWeight, Tree, Depth, DepthOf;
    var root := 2 * alpha - 1;
    RootOfTree(par, wt, kids, alpha, total, deepest);
    DepthWithinHeight(par, wt, root, k, DepthOf(wt[root]));
    LeastWeightGrows(Depth(par, root, k), DepthOf(wt[root]));
  }

  lemma CompleteInFinerUnits(len: seq<nat>, m: nat, h: nat)
    requires Complete(len, h + m) && forall i :: 0 <= i < |len| ==> len[i] <= m
    ensures Complete(len, m)
  {
    hide Pow2;
    forall i | 0 <= i < |len| ensures CodeShares(len, h + m)[i] == Pow2(h) * CodeShares(len, m)[i] {
      Pow2Sum(h, m - len[i]);
    }
    SumScale(CodeShares(len, m), CodeShares(len, h + m), Pow2(h));
    Pow2Sum(h, m);
    Cancel(Pow2(h), Sum(CodeShares(len, m)), Pow2(m));
  }

  lemma LeafShares(par: seq<int>, alpha: nat, nodes: nat, len: seq<nat>, m: nat)
    requires alpha <= nodes && Upward(par, nodes) && forall k :: 1 <= k <= nodes ==> Depth(par, nodes, k) <= m
    requires |len| == alpha && forall i :: 0 <= i < alpha ==> len[i] == Depth(par, nodes, i + 1)
    requires forall k :: 1 <= k <= alpha ==> par[k] > alpha
    ensures Sum(Shares(par, nodes, alpha, m)) == Sum(CodeShares(len, m))
  {
    hide Pow2;
    var t, s := CodeShares(len, m), Shares(par, nodes, alpha, m);
    forall k | 0 <= k < |t| ensures s[k + 1] == t[k] {
      assert len[k] == Depth(par, nodes, k + 1);
    }
    SumPadded(t, s);
  }

  lemma TreeDepths(par: seq<int>, wt: seq<nat>, kids: seq<(nat, nat)>, alpha: nat, root: nat, total: int, deepest: nat) returns (h: nat)
    requires Tree(par, wt, kids, alpha, total, deepest) && root == 2 * alpha - 1 && Upward(par, root)
    ensures forall k :: 1 <= k <= root ==> Depth(par, root, k) <= h
  {
    h := DepthOf(wt[root]);
    forall k | 1 <= k <= root ensures Depth(par, root, k) <= h {
      DepthWithinHeight(par, wt, root, k, h);
    }
  }

  /** The depths of the leaves make a complete code. */
  lemma TreeIsComplete(par: seq<int>, wt: seq<nat>, kids: seq<(nat, nat)>, alpha: nat, total: int, deepest: nat, len: seq<nat>, m: nat)
    requires Tree(par, wt, kids, alpha, total, deepest) && Upward(par, 2 * alpha - 1) && 2 <= alpha
    requires Counted(len, par, alpha) && forall i :: 0 <= i < alpha ==> len[i] <= m
    ensures Complete(len, m)
  {
    hide Depth, Forest, Weighed, Pow2, Shares, CodeShares;
    var h := TreeDepths(par, wt, kids, alpha, 2 * alpha - 1, total, deepest);
    TreeGoesUp(par, wt, kids, alpha, total, deepest);
    SharesAll(par, kids, alpha, 2 * alpha - 1, alpha, h + m);
    LeafShares(par, alpha, 2 * alpha - 1, len, h + m);
    CompleteInFinerUnits(len, m, h);
  }

  lemma Cancel(c: int, x: int, y: int)
    requires c >= 1 && c * x == c * y
    ensures x == y
  {
    if x < y { TimesLess(c, x, y); }
    if x > y { TimesLess(c, y, x); }
  }

  lemma TimesLess(c: int, x: int, y: int)
    requires c >= 1 && x < y
    ensures c * x < c * y
  {
  }

  /** The code lengths are the depths of the leaves. */
  ghost predicate Counted(len: seq<nat>, par: seq<int>, alpha: nat) {
    && 1 <= alpha == |len| && Upward(par, 2 * alpha - 1)
    && forall i :: 0 <= i < alpha ==> len[i] == Depth(par, 2 * alpha - 1, i + 1)
  }

  /** The length of every leaf's code, counted along the parent links. */
  method CountLengths(len: array<nat>, parent: array<int>, alphaSize: nat, maxLen: nat) returns (tooLong: bool)
    requires 1 <= alphaSize <= len.Length && 2 * alphaSize - 1 < parent.Length && len as object != parent
    requires Upward(parent[..], 2 * alphaSize - 1)
    modifies len
    ensures Counted(len[..alphaSize], parent[..], alphaSize)
    ensures !tooLong ==> forall i :: 0 <= i < alphaSize ==> len[..alphaSize][i] <= maxLen
    ensures tooLong ==> exists i :: 0 <= i < alphaSize && len[..alphaSize][i] > maxLen
  {
    ghost var par, nodes, long := parent[..], 2 * alphaSize - 1, 0;
    tooLong := false;
    for i := 1 to alphaSize + 1
      invariant parent[..] == par
      invariant forall m :: 0 <= m < i - 1 ==> len[m] == Depth(par, nodes, m + 1)
      invariant if tooLong then 0 <= long < i - 1 && len[long] > maxLen else forall m :: 0 <= m < i - 1 ==> len[m] <= maxLen
    {
      var j: nat, k: nat := 0, i;
      while parent[k] >= 0
        invariant 1 <= k <= nodes && parent[..] == par
        invariant j + Depth(par, nodes, k) == Depth(par, nodes, i)
        decreases nodes - k
      {
        k := parent[k];
        j := j + 1;
      }
      len[i - 1] := j;
      if j > maxLen {
        tooLong := true;
        long := i - 1;
      }
    }
    if tooLong { assert len[..alphaSize][long] > maxLen; }
  }

  /** Halve every leaf's weight, but not below 1. */
  method ScaleWeights(weight: array<nat>, alphaSize: nat)
    requires alphaSize < weight.Length && PlainLeaves(weight[..], alphaSize)
    modifies weight
    ensures forall k :: 1 <= k <= alphaSize ==> weight[k] == (1 + old(weight[k]) / 256 / 2) * 256
  {
    for i := 1 to alphaSize + 1
      invariant forall k :: 1 <= k < i ==> weight[k] == (1 + old(weight[k]) / 256 / 2) * 256
      invariant forall k :: i <= k <= alphaSize ==> weight[k] == old(weight[k])
    {
      var j := weight[i] / 256;
      j := 1 + j / 2;
      weight[i] := j * 256;
    }
  }

  /** A scaled vector is still plain, and lighter unless every weight was 1 or 2 already. */
  lemma ScalingLightens(wt: seq<nat>, wt': seq<nat>, alpha: nat)
    requires alpha < |wt| == |wt'| && PlainLeaves(wt, alpha)
    requires forall k :: 1 <= k <= alpha ==> wt'[k] == (1 + wt[k] / 256 / 2) * 256
    requires Sum(LeafWeights(wt, alpha)) > 2 * alpha
    ensures PlainLeaves(wt', alpha) && 0 <= Sum(LeafWeights(wt', alpha)) < Sum(LeafWeights(wt, alpha))
  {
    hide Sum;
    var s, t := LeafWeights(wt, alpha), LeafWeights(wt', alpha);
    forall k | 1 <= k <= alpha ensures t[k] == 1 + s[k] / 2 {
      Unscaled(1 + wt[k] / 256 / 2);
    }
    if forall k :: 0 <= k <= alpha ==> t[k] >= s[k] {
      assert forall k :: 0 <= k <= alpha ==> s[k] <= 2;
      SumUpdate(s, 0, 2);
      SumConstantBound(s[0 := 2], 2);
    }
    SumMonotone(t, s);
    SumNotNegative(t);
  }

  lemma Unscaled(x: nat)
    ensures x * 256 / 256 == x
  {
  }

  /** The weight of each symbol: its frequency, but at least 1. */
  function Frequencies(freq: seq<int>): (s: seq<int>)
    ensures |s| == |freq|
  {
    seq(|freq|, i requires 0 <= i < |freq| => if freq[i] == 0 then 1 else freq[i])
  }

  /** The weights after the given number of halvings, none of which leaves a weight below 1. */
  function Scaled(w: seq<int>, rounds: nat): (s: seq<int>)
    ensures |s| == |w|
  {
    if rounds == 0 then w
    else
      var s := Scaled(w, rounds - 1);
      seq(|s|, i requires 0 <= i < |s| => 1 + s[i] / 2)
  }

  /** An optimal code for the weights has a code longer than maxLen. */
  ghost predicate TooDeep(w: seq<int>, maxLen: nat) {
    exists len: seq<nat> :: Optimal(w, len) && LongerThan(len, maxLen)
  }

  ghost predicate LongerThan(len: seq<nat>, maxLen: nat) {
    exists i :: 0 <= i < |len| && len[i] > maxLen
  }

  /** The leaves have the weights w. */
  ghost predicate LeavesWeigh(wt: seq<nat>, w: seq<int>) {
    |w| < |wt| && forall i :: 0 <= i < |w| ==> wt[i + 1] == w[i] * 256
  }

  lemma LeavesScaled(wt: seq<nat>, wt': seq<nat>, f: seq<int>, rounds: nat)
    requires LeavesWeigh(wt, Scaled(f, rounds)) && |wt'| == |wt| && |f| < |wt|
    requires forall k :: 1 <= k <= |f| ==> wt'[k] == (1 + wt[k] / 256 / 2) * 256
    ensures LeavesWeigh(wt', Scaled(f, rounds + 1))
  {
    hide Scaled;
    ScaledNext(f, rounds);
    var w, w' := Scaled(f, rounds), Scaled(f, rounds + 1);
    forall i | 0 <= i < |w| ensures wt'[i + 1] == w'[i] * 256 {
      assert wt[i + 1] == w[i] * 256;
    }
  }

  lemma ScaledNext(f: seq<int>, rounds: nat)
    ensures |Scaled(f, rounds + 1)| == |Scaled(f, rounds)| == |f|
    ensures forall i :: 0 <= i < |f| ==> Scaled(f, rounds + 1)[i] == 1 + Scaled(f, rounds)[i] / 2
  {
  }

  lemma LengthsAreOptimal(par: seq<int>, wt: seq<nat>, kids: seq<(nat, nat)>, total: int, deepest: nat, w: seq<int>, len: seq<nat>)
    requires 1 <= |w| && Tree(par, wt, kids, |w|, total, deepest) && Counted(len, par, |w|) && LeavesWeigh(wt, w)
    ensures Optimal(w, len)
  {
    hide Forest, Weighed, Greedy, Depth, Optimal;
    forall i | 0 <= i < |w| ensures w[i] == wt[i + 1] / 256 && len[i] == Depth(par, 2 * |w| - 1, i + 1) {
      assert wt[i + 1] == w[i] * 256;
    }
    TreeIsOptimal(par, wt, kids, |w|, 2 * |w| - 1, w, len);
  }

  lemma TooLongIsHeavy(par: seq<int>, wt: seq<nat>, kids: seq<(nat, nat)>, alpha: nat, total: int, deepest: nat,
                       len: seq<nat>, i: nat, maxLen: nat)
    requires Tree(par, wt, kids, alpha, total, deepest) && Counted(len, par, alpha)
    requires i < alpha && len[i] > maxLen
    ensures total >= LeastWeight(maxLen + 1)
  {
    hide Tree;
    TreeHeight(par, wt, kids, alpha, total, deepest, i + 1);
    LeastWeightGrows(maxLen + 1, len[i]);
  }

  /** Code lengths for the given frequencies, none above maxLen. It ends, because a tree too deep for maxLen
      is heavier than one of weights 1 and 2 can be, and halving lowers every other weight. The lengths are optimal for
      the weights after the rescales that were needed. */
  method HbMakeCodeLengths(len: array<nat>, freq: array<int>, alphaSize: nat, maxLen: nat) returns (ghost rounds: nat)
    requires 2 <= alphaSize <= MAX_ALPHA_SIZE && len.Length >= alphaSize && freq.Length >= alphaSize && len as object != freq
    requires forall i :: 0 <= i < alphaSize ==> freq[i] >= 0
    requires Sum(Frequencies(freq[..alphaSize])) < 0x80_0000
    requires LeastWeight(maxLen + 1) > 2 * alphaSize
    modifies len
    ensures forall i :: 0 <= i < alphaSize ==> 1 <= len[i] <= maxLen
    ensures Complete(len[..alphaSize], maxLen)
    ensures Optimal(Scaled(Frequencies(freq[..alphaSize]), rounds), len[..alphaSize])
    ensures forall r: nat :: r < rounds ==> TooDeep(Scaled(Frequencies(freq[..alphaSize]), r), maxLen)
  {
    hide Tree, Depth, LeastWeight, Sum, LeafWeights, Counted, Complete, Optimal, Scaled, LeavesWeigh, TooDeep;
    ghost var f := Frequencies(freq[..alphaSize]);
    var heap := new nat[MAX_ALPHA_SIZE + 2];
    var weight := new nat[MAX_ALPHA_SIZE * 2];
    var parent := new int[MAX_ALPHA_SIZE * 2];
    for i := 0 to alphaSize
      invariant forall k :: 1 <= k <= i ==> weight[k] == (if freq[k - 1] == 0 then 1 else freq[k - 1]) * 256
    {
      weight[i + 1] := (if freq[i] == 0 then 1 else freq[i]) * 256;
    }
    FirstWeights(freq[..alphaSize], weight[..], alphaSize);
    rounds := 0;
    while true
      invariant PlainLeaves(weight[..], alphaSize) && 0 <= Sum(LeafWeights(weight[..], alphaSize)) < 0x80_0000
      invariant LeavesWeigh(weight[..], Scaled(f, rounds)) && forall r: nat :: r < rounds ==> TooDeep(Scaled(f, r), maxLen)
      decreases Sum(LeafWeights(weight[..], alphaSize))
    {
      ghost var wt := weight[..];
      ghost var total := Sum(LeafWeights(wt, alphaSize));
      ghost var kids, deepest := BuildTree(heap, weight, parent, alphaSize);
      ghost var par := parent[..];
      TreeGoesUp(par, weight[..], kids, alphaSize, total, deepest);
      var tooLong := CountLengths(len, parent, alphaSize, maxLen);
      SameLeaves(wt, weight[..], Scaled(f, rounds));
      LengthsAreOptimal(par, weight[..], kids, total, deepest, Scaled(f, rounds), len[..alphaSize]);
      if !tooLong {
        TreeIsComplete(par, weight[..], kids, alphaSize, total, deepest, len[..alphaSize], maxLen);
        LeavesHaveParents(par, alphaSize, len[..alphaSize]);
        assert forall i :: 0 <= i < alphaSize ==> len[i] == len[..alphaSize][i];
        return;
      }
      ghost var i :| 0 <= i < alphaSize && len[..alphaSize][i] > maxLen;
      TooLongIsHeavy(par, weight[..], kids, alphaSize, total, deepest, len[..alphaSize], i, maxLen);
      IsTooDeep(Scaled(f, rounds), len[..alphaSize], i, maxLen);
      LeavesStay(wt, weight[..], alphaSize);
      ghost var wt1 := weight[..];
      ScaleWeights(weight, alphaSize);
      ScalingLightens(wt1, weight[..], alphaSize);
      LeavesScaled(wt1, weight[..], f, rounds);
      rounds := rounds + 1;
    }
  }

  lemma IsTooDeep(w: seq<int>, len: seq<nat>, i: nat, maxLen: nat)
    requires Optimal(w, len) && i < |len| && len[i] > maxLen
    ensures TooDeep(w, maxLen)
  {
    hide Optimal;
  }

  lemma SameLeaves(wt: seq<nat>, wt': seq<nat>, w: seq<int>)
    requires LeavesWeigh(wt, w) && |wt'| == |wt| && forall k :: 1 <= k <= |w| ==> wt'[k] == wt[k]
    ensures LeavesWeigh(wt', w)
  {
  }

  lemma LeavesHaveParents(par: seq<int>, alpha: nat, len: seq<nat>)
    requires Counted(len, par, alpha) && forall k :: 1 <= k <= alpha ==> par[k] > alpha
    ensures forall i :: 0 <= i < alpha ==> len[i] >= 1
  {
  }

  lemma FirstWeights(freq: seq<int>, wt: seq<nat>, alpha: nat)
    requires |freq| == alpha < |wt| && forall i :: 0 <= i < alpha ==> freq[i] >= 0
    requires forall k :: 1 <= k <= alpha ==> wt[k] == (if freq[k - 1] == 0 then 1 else freq[k - 1]) * 256
    ensures PlainLeaves(wt, alpha) && 0 <= Sum(LeafWeights(wt, alpha)) == Sum(Frequencies(freq))
    ensures LeavesWeigh(wt, Scaled(Frequencies(freq), 0))
  {
    SumPadded(Frequencies(freq), LeafWeights(wt, alpha));
    SumNotNegative(LeafWeights(wt, alpha));
  }

  /** The limit that the compressor uses is wide enough for every alphabet it can have. */
  lemma SeventeenBitsSuffice(alphaSize: nat)
    requires alphaSize <= MAX_ALPHA_SIZE
    ensures LeastWeight(17 + 1) > 2 * alphaSize
  {
    LeastWeightValues();
  }
}
