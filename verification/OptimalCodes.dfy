/** Why merging the two lightest trees gives the shortest code: no lengths of codes for the same weights cost less. */
module OptimalCodes {
  import opened Powers
  import opened Sequences
  import opened Sums
  import opened CodeTree

  /** The share of the code space of each code length, in units of 2^-m. */
  function CodeShares(len: seq<nat>, m: nat): (s: seq<int>)
    requires forall i :: 0 <= i < |len| ==> len[i] <= m
    ensures |s| == |len|
  {
    seq(|len|, i requires 0 <= i < |len| => Pow2(m - len[i]))
  }

  /** The lengths leave no part of the code space unused, and use none twice. */
  ghost predicate Complete(len: seq<nat>, m: nat) {
    (forall i :: 0 <= i < |len| ==> len[i] <= m) && Sum(CodeShares(len, m)) == Pow2(m)
  }

  /** The code space is large enough for the lengths. */
  ghost predicate Roomy(len: seq<nat>, m: nat) {
    (forall i :: 0 <= i < |len| ==> len[i] <= m) && Sum(CodeShares(len, m)) <= Pow2(m)
  }

  /** The number of bits that the symbols take up which occur as often as they weigh. */
  function Cost(w: seq<int>, len: seq<nat>): int
    requires |w| == |len|
  {
    Sum(seq(|w|, i requires 0 <= i < |w| => w[i] * len[i]))
  }

  /** No lengths that there is room for cost less. */
  ghost predicate Optimal(w: seq<int>, len: seq<nat>) {
    |len| == |w| && forall other: seq<nat>, m: nat :: |other| == |w| && Roomy(other, m) ==> Cost(w, len) <= Cost(w, other)
  }

  // ----- Codes for the roots of a forest -----

  /** The shares of the nodes that are live. */
  function Shared(live: seq<bool>, c: seq<nat>, m: nat): (s: seq<int>)
    requires |live| == |c| && forall k :: 0 <= k < |c| ==> c[k] <= m
    ensures |s| == |c|
  {
    seq(|c|, k requires 0 <= k < |c| => if live[k] then Pow2(m - c[k]) else 0)
  }

  ghost predicate Code(live: seq<bool>, c: seq<nat>, m: nat) {
    |live| == |c| && (forall k :: 0 <= k < |c| ==> c[k] <= m) && Sum(Shared(live, c, m)) == Pow2(m)
  }

  function Costs(live: seq<bool>, w: seq<nat>, c: seq<nat>): (s: seq<int>)
    requires |live| == |c| == |w|
    ensures |s| == |c|
  {
    seq(|c|, k requires 0 <= k < |c| => if live[k] then w[k] * c[k] else 0)
  }

  lemma {:induction false} DeepestOf(live: seq<bool>, c: seq<nat>, n: nat) returns (x: nat)
    requires n <= |live| == |c| && exists k :: 0 <= k < n && live[k]
    ensures x < n && live[x] && forall k :: 0 <= k < n && live[k] ==> c[k] <= c[x]
    decreases n
  {
    if exists k :: 0 <= k < n - 1 && live[k] {
      x := DeepestOf(live, c, n - 1);
      if live[n - 1] && c[n - 1] > c[x] { x := n - 1; }
    } else {
      x := n - 1;
    }
  }

  /** A node that is alone at the greatest depth would leave an odd share of the code space. */
  lemma NotAlone(live: seq<bool>, c: seq<nat>, m: nat, x: nat)
    requires Code(live, c, m) && x < |c| && live[x] && c[x] >= 1
    ensures exists k :: 0 <= k < |c| && live[k] && k != x && c[k] >= c[x]
  {
    hide Pow2, Sum;
    if forall k :: 0 <= k < |c| && live[k] && k != x ==> c[k] < c[x] {
      var s, u, q := Shared(live, c, m), Pow2(m - c[x]), Pow2(c[x] - 1);
      var t := seq(|c|, k requires 0 <= k < |c| => if live[k] && k != x then Pow2(c[x] - 1 - c[k]) else 0);
      NextPower(m - c[x]);
      forall k | 0 <= k < |c| ensures s[x := 0][k] == (2 * u) * t[k] {
        if live[k] && k != x { Pow2Sum(m - c[x] + 1, c[x] - 1 - c[k]); }
      }
      SumScale(t, s[x := 0], 2 * u);
      SumUpdate(s, x, 0);
      Pow2Sum(m - c[x] + 1, c[x] - 1);
      OddOne(u, q, Sum(t));
    }
  }

  lemma NextPower(n: nat)
    ensures Pow2(n + 1) == 2 * Pow2(n)
  {
  }

  lemma OddOne(u: int, q: int, z: int)
    requires u >= 1
    ensures 2 * u * q - u != 2 * u * z
  {
    NoZero(u, 2 * q - 1 - 2 * z);
    assert u * (2 * q - 1 - 2 * z) == 2 * u * q - u - 2 * u * z;
  }

  lemma NoZero(u: int, v: int)
    requires u >= 1 && v != 0
    ensures u * v != 0
  {
  }

  lemma SomeDepth(live: seq<bool>, c: seq<nat>, m: nat, x: nat, y: nat)
    requires Code(live, c, m) && x < |c| && y < |c| && x != y && live[x] && live[y]
    ensures c[x] >= 1
  {
    hide Sum;
    TwoTerms(Shared(live, c, m), x, y);
  }

  /** With two nodes there are two at the greatest depth. */
  lemma Sibling(live: seq<bool>, c: seq<nat>, m: nat, x: nat, other: nat) returns (y: nat)
    requires Code(live, c, m) && x < |c| && other < |c| && x != other && live[x] && live[other]
    requires forall k :: 0 <= k < |c| && live[k] ==> c[k] <= c[x]
    ensures y < |c| && live[y] && y != x && c[y] == c[x] >= 1
  {
    hide Code;
    LengthsOf(live, c, m);
    SomeDepth(live, c, m, x, other);
    NotAlone(live, c, m, x);
    y :| 0 <= y < |c| && live[y] && y != x && c[y] >= c[x];
  }

  /** Giving the longer code to the lighter node. */
  lemma Exchange(live: seq<bool>, w: seq<nat>, c: seq<nat>, m: nat, a: nat, x: nat)
    requires Code(live, c, m) && |w| == |c| && a < |c| && x < |c| && live[a] && live[x]
    requires a != x ==> w[a] <= w[x] && c[a] <= c[x]
    ensures var c' := c[a := c[x]][x := c[a]];
            Code(live, c', m) && Sum(Costs(live, w, c')) <= Sum(Costs(live, w, c))
  {
    hide Pow2, Sum;
    var c' := c[a := c[x]][x := c[a]];
    var s, t := Shared(live, c, m), Costs(live, w, c);
    if a == x {
      assert c' == c;
    } else {
      SumUpdate(s, a, s[x]);
      SumUpdate(s[a := s[x]], x, s[a]);
      assert Shared(live, c', m) == s[a := s[x]][x := s[a]];
      SumUpdate(t, a, w[a] * c[x]);
      SumUpdate(t[a := w[a] * c[x]], x, w[x] * c[a]);
      assert Costs(live, w, c') == t[a := w[a] * c[x]][x := w[x] * c[a]];
      Rearranged(w[a], w[x], c[a], c[x]);
    }
  }

  lemma Rearranged(wa: int, wx: int, ca: int, cx: int)
    requires wa <= wx && ca <= cx
    ensures wa * cx + wx * ca <= wa * ca + wx * cx
  {
    assert (wx - wa) * (cx - ca) >= 0;
    assert (wx - wa) * (cx - ca) == wx * cx - wx * ca - wa * cx + wa * ca;
  }

  /** The two lightest nodes can have the longest codes, at no cost. */
  lemma BringDown(live: seq<bool>, w: seq<nat>, c: seq<nat>, m: nat, a: nat, b: nat) returns (c': seq<nat>)
    requires Code(live, c, m) && |w| == |c| && a < |c| && b < |c| && a != b && live[a] && live[b]
    requires forall k :: 0 <= k < |c| && live[k] && k != a && k != b ==> w[a] <= w[k] && w[b] <= w[k]
    ensures Code(live, c', m) && Sum(Costs(live, w, c')) <= Sum(Costs(live, w, c))
    ensures |c'| == |c| && c'[a] == c'[b] >= 1
  {
    hide Code, Costs, Sum;
    LengthsOf(live, c, m);
    var x := DeepestOf(live, c, |c|);
    if x == b { x := Sibling(live, c, m, b, a); }
    Exchange(live, w, c, m, a, x);
    var c1 := c[a := c[x]][x := c[a]];
    var y := Sibling(live, c1, m, a, b);
    Exchange(live, w, c1, m, b, y);
    c' := c1[b := c1[y]][y := c1[b]];
  }

  lemma LengthsOf(live: seq<bool>, c: seq<nat>, m: nat)
    requires Code(live, c, m)
    ensures |live| == |c|
  {
  }

  /** Two nodes side by side become one above them. */
  lemma CostAbove(live: seq<bool>, w: seq<nat>, c: seq<nat>, a: nat, b: nat, t: nat, d: nat)
    requires |live| == |c| == |w| && a < |c| && b < |c| && t < |c| && a != b && live[a] && live[b] && !live[t]
    requires c[a] == c[b] == d + 1 && w[t] == w[a] + w[b]
    ensures Sum(Costs(live[a := false][b := false][t := true], w, c[t := d])) + w[t] == Sum(Costs(live, w, c))
  {
    hide Sum;
    var s := Costs(live, w, c);
    SumUpdate(s, a, 0);
    SumUpdate(s[a := 0], b, 0);
    SumUpdate(s[a := 0][b := 0], t, w[t] * d);
    assert Costs(live[a := false][b := false][t := true], w, c[t := d]) == s[a := 0][b := 0][t := w[t] * d];
    OneMoreEach(w[a], w[b], d);
  }

  lemma OneMoreEach(x: int, y: int, d: int)
    ensures x * (d + 1) + y * (d + 1) == (x + y) * d + (x + y)
  {
  }

  lemma CodeAbove(live: seq<bool>, c: seq<nat>, m: nat, a: nat, b: nat, t: nat, d: nat)
    requires Code(live, c, m) && a < |c| && b < |c| && t < |c| && a != b && live[a] && live[b] && !live[t]
    requires c[a] == c[b] == d + 1
    ensures Code(live[a := false][b := false][t := true], c[t := d], m)
  {
    hide Sum, Pow2;
    var s, p := Shared(live, c, m), Pow2(m - d);
    SumUpdate(s, a, 0);
    SumUpdate(s[a := 0], b, 0);
    SumUpdate(s[a := 0][b := 0], t, p);
    assert Shared(live[a := false][b := false][t := true], c[t := d], m) == s[a := 0][b := 0][t := p];
    NextPower(m - d - 1);
  }

  // ----- The tree -----

  /** Node t was made of the two lightest nodes that had no parent then. */
  ghost predicate Chosen(par: seq<int>, wt: seq<nat>, kids: seq<(nat, nat)>, t: nat)
    requires t < |par| && t < |wt| && t < |kids|
  {
    var (a, b) := kids[t];
    && a < t && b < t && wt[t] / 256 == wt[a] / 256 + wt[b] / 256
    && forall k :: 1 <= k < t && k != a && k != b && (par[k] < 0 || par[k] > t) ==> wt[a] / 256 <= wt[k] / 256 && wt[b] / 256 <= wt[k] / 256
  }

  ghost predicate Greedy(par: seq<int>, wt: seq<nat>, kids: seq<(nat, nat)>, alpha: nat, nodes: nat) {
    && nodes < |par| && nodes < |wt| && nodes < |kids|
    && forall t :: alpha < t <= nodes ==> Chosen(par, wt, kids, t)
  }

  lemma ParentsInRange(par: seq<int>, kids: seq<(nat, nat)>, roots: set<nat>, alpha: nat, nodes: nat)
    requires Forest(par, kids, roots, alpha, nodes)
    ensures (forall k :: k in roots ==> 1 <= k <= nodes) && forall k :: 1 <= k <= nodes && k !in roots ==> 0 < par[k] <= nodes
    ensures forall k :: k in roots ==> par[k] == -1
  {
  }

  lemma StillChosen(par: seq<int>, wt: seq<nat>, kids: seq<(nat, nat)>, t: nat, n1: nat, n2: nat, x: nat, z: nat)
    requires t < x < |par| && x < |wt| && x < |kids| && Chosen(par, wt, kids, t) && n1 < x && n2 < x && par[n1] == par[n2] == -1
    ensures Chosen(par[n1 := x][n2 := x][x := -1], wt[x := z], kids[x := (n1, n2)], t)
  {
    var par' := par[n1 := x][n2 := x][x := -1];
    var (a, b) := kids[t];
    forall k | 1 <= k < t && k != a && k != b && (par'[k] < 0 || par'[k] > t) ensures wt[a] / 256 <= wt[k] / 256 && wt[b] / 256 <= wt[k] / 256 {
      assert par[k] < 0 || par[k] > t;
    }
  }

  lemma MergeGreedy(par: seq<int>, wt: seq<nat>, kids: seq<(nat, nat)>, roots: set<nat>, alpha: nat, nodes: nat, n1: nat, n2: nat, z: nat)
    requires Forest(par, kids, roots, alpha, nodes) && Greedy(par, wt, kids, alpha, nodes) && Lightest(wt, roots, n1, n2)
    requires nodes + 1 < |par| && nodes + 1 < |wt| && nodes + 1 < |kids| && z / 256 == wt[n1] / 256 + wt[n2] / 256
    ensures var x := nodes + 1; Greedy(par[n1 := x][n2 := x][x := -1], wt[x := z], kids[x := (n1, n2)], alpha, x)
  {
    hide HasKids;
    ParentsInRange(par, kids, roots, alpha, nodes);
    var x := nodes + 1;
    var par', wt', kids' := par[n1 := x][n2 := x][x := -1], wt[x := z], kids[x := (n1, n2)];
    forall t | alpha < t <= x ensures Chosen(par', wt', kids', t) {
      if t < x {
        StillChosen(par, wt, kids, t, n1, n2, x, z);
      } else {
        forall k | 1 <= k < x && k != n1 && k != n2 && (par'[k] < 0 || par'[k] > x) ensures wt'[n1] / 256 <= wt'[k] / 256 && wt'[n2] / 256 <= wt'[k] / 256 {
          assert k in roots && wt[n1] <= wt[n2] <= wt[k];
        }
        assert kids'[x] == (n1, n2);
      }
    }
  }

  /** The nodes that have no parent when node t has been made. */
  function LiveAt(par: seq<int>, nodes: nat, t: nat): (live: seq<bool>)
    requires t <= nodes < |par|
    ensures |live| == nodes + 1
  {
    seq(nodes + 1, k requires 0 <= k < nodes + 1 => 1 <= k <= t && (par[k] < 0 || par[k] > t))
  }

  lemma LiveNext(par: seq<int>, kids: seq<(nat, nat)>, alpha: nat, nodes: nat, t: nat)
    requires Forest(par, kids, {nodes}, alpha, nodes) && alpha < t <= nodes
    ensures var (a, b) := kids[t]; var live := LiveAt(par, nodes, t - 1);
            && 1 <= a < t && 1 <= b < t && a != b && live[a] && live[b] && !live[t]
            && LiveAt(par, nodes, t) == live[a := false][b := false][t := true]
  {
    assert HasKids(par, kids, nodes, t);
  }

  function Weights(wt: seq<nat>, nodes: nat): (w: seq<nat>)
    requires nodes < |wt|
    ensures |w| == nodes + 1
  {
    seq(nodes + 1, k requires 0 <= k < nodes + 1 => wt[k] / 256)
  }

  /** The weights of the nodes that were made, up to t. */
  function Inner(wt: seq<nat>, alpha: nat, t: nat): nat
    requires alpha <= t < |wt|
  {
    if t == alpha then 0 else Inner(wt, alpha, t - 1) + wt[t] / 256
  }

  /** Every code for the leaves costs as much as the nodes made so far weigh, and a code for the nodes without parents. */
  lemma {:induction false} CodeForRoots(par: seq<int>, wt: seq<nat>, kids: seq<(nat, nat)>, alpha: nat, nodes: nat, t: nat, c: seq<nat>, m: nat)
    returns (c': seq<nat>)
    requires Forest(par, kids, {nodes}, alpha, nodes) && Greedy(par, wt, kids, alpha, nodes) && alpha <= t <= nodes
    requires Code(LiveAt(par, nodes, alpha), c, m)
    ensures Code(LiveAt(par, nodes, t), c', m) && |c| == |c'| == nodes + 1
    ensures Sum(Costs(LiveAt(par, nodes, t), Weights(wt, nodes), c')) + Inner(wt, alpha, t)
         <= Sum(Costs(LiveAt(par, nodes, alpha), Weights(wt, nodes), c))
    decreases t
  {
    hide Forest, Costs, Sum, Code;
    LengthsOf(LiveAt(par, nodes, alpha), c, m);
    if t == alpha {
      c' := c;
    } else {
      c' := CodeForRoots(par, wt, kids, alpha, nodes, t - 1, c, m);
      LiveNext(par, kids, alpha, nodes, t);
      c' := CodeForNext(par, wt, kids, nodes, t, c', m);
    }
  }

  lemma CodeForNext(par: seq<int>, wt: seq<nat>, kids: seq<(nat, nat)>, nodes: nat, t: nat, c: seq<nat>, m: nat) returns (c': seq<nat>)
    requires 1 <= t <= nodes < |par| && nodes < |wt| && nodes < |kids| && Chosen(par, wt, kids, t)
    requires Code(LiveAt(par, nodes, t - 1), c, m) && |c| == nodes + 1
    requires var (a, b) := kids[t]; var live := LiveAt(par, nodes, t - 1);
             && 1 <= a < t && 1 <= b < t && a != b && live[a] && live[b] && !live[t]
             && LiveAt(par, nodes, t) == live[a := false][b := false][t := true]
    ensures Code(LiveAt(par, nodes, t), c', m) && |c'| == nodes + 1
    ensures Sum(Costs(LiveAt(par, nodes, t), Weights(wt, nodes), c')) + wt[t] / 256 <= Sum(Costs(LiveAt(par, nodes, t - 1), Weights(wt, nodes), c))
  {
    hide Costs, Sum, Code;
    var (a, b) := kids[t];
    var live, w := LiveAt(par, nodes, t - 1), Weights(wt, nodes);
    forall k | 0 <= k < |c| && live[k] && k != a && k != b ensures w[a] <= w[k] && w[b] <= w[k] {
      assert LiveAt(par, nodes, t)[k];
    }
    var c1 := BringDown(live, w, c, m, a, b);
    var d := c1[a] - 1;
    CodeAbove(live, c1, m, a, b, t, d);
    CostAbove(live, w, c1, a, b, t, d);
    c' := c1[t := d];
  }

  // ----- What the tree costs -----

  function Depths(par: seq<int>, nodes: nat): (d: seq<nat>)
    requires Upward(par, nodes)
    ensures |d| == nodes + 1
  {
    seq(nodes + 1, k requires 0 <= k < nodes + 1 => if k == 0 then 0 else Depth(par, nodes, k))
  }

  lemma KidsDepth(par: seq<int>, kids: seq<(nat, nat)>, alpha: nat, nodes: nat, t: nat)
    requires Forest(par, kids, {nodes}, alpha, nodes) && Upward(par, nodes) && alpha < t <= nodes
    ensures var (a, b) := kids[t];
            && 1 <= a < t && 1 <= b < t && Depths(par, nodes)[a] == Depths(par, nodes)[b] == Depths(par, nodes)[t] + 1
  {
    assert HasKids(par, kids, nodes, t);
  }

  lemma RootCostsNothing(par: seq<int>, wt: seq<nat>, nodes: nat)
    requires 1 <= nodes < |par| && nodes < |wt| && Upward(par, nodes) && par[nodes] == -1
    requires forall k :: 1 <= k < nodes ==> 0 <= par[k] <= nodes
    ensures Sum(Costs(LiveAt(par, nodes, nodes), Weights(wt, nodes), Depths(par, nodes))) == 0
  {
    hide Sum;
    var s := Costs(LiveAt(par, nodes, nodes), Weights(wt, nodes), Depths(par, nodes));
    assert Depth(par, nodes, nodes) == 0;
    SumConstantBound(s, 0);
    SumNotNegative(s);
  }

  /** The depths of the nodes without parents, and the nodes made so far, cost as much as all nodes made. */
  lemma {:induction false} DepthsCost(par: seq<int>, wt: seq<nat>, kids: seq<(nat, nat)>, alpha: nat, nodes: nat, t: nat)
    requires Forest(par, kids, {nodes}, alpha, nodes) && Upward(par, nodes) && Greedy(par, wt, kids, alpha, nodes) && alpha <= t <= nodes && 1 <= nodes
    ensures Sum(Costs(LiveAt(par, nodes, t), Weights(wt, nodes), Depths(par, nodes))) + Inner(wt, alpha, t) == Inner(wt, alpha, nodes)
    decreases nodes - t
  {
    hide Forest, Costs, Sum, Depths, LiveAt, Weights;
    if t == nodes {
      ParentsInRange(par, kids, {nodes}, alpha, nodes);
      RootCostsNothing(par, wt, nodes);
    } else {
      DepthsCost(par, wt, kids, alpha, nodes, t + 1);
      LiveNext(par, kids, alpha, nodes, t + 1);
      KidsDepth(par, kids, alpha, nodes, t + 1);
      var d := Depths(par, nodes);
      var (a, b) := kids[t + 1];
      assert Chosen(par, wt, kids, t + 1);
      WeightsOf(wt, nodes, a, b, t + 1);
      CostAbove(LiveAt(par, nodes, t), Weights(wt, nodes), d, a, b, t + 1, d[t + 1]);
      assert d[t + 1 := d[t + 1]] == d;
    }
  }

  lemma WeightsOf(wt: seq<nat>, nodes: nat, a: nat, b: nat, t: nat)
    requires a <= nodes && b <= nodes && t <= nodes < |wt|
    ensures var w := Weights(wt, nodes); w[a] == wt[a] / 256 && w[b] == wt[b] / 256 && w[t] == wt[t] / 256
  {
  }

  // ----- The leaves -----

  /** The lengths at the places of the leaves. */
  function AtLeaves(len: seq<nat>, nodes: nat): (c: seq<nat>)
    requires |len| <= nodes
    ensures |c| == nodes + 1
  {
    seq(nodes + 1, k requires 0 <= k < nodes + 1 => if 1 <= k <= |len| then len[k - 1] else 0)
  }

  lemma LeavesAreLive(par: seq<int>, kids: seq<(nat, nat)>, alpha: nat, nodes: nat)
    requires Forest(par, kids, {nodes}, alpha, nodes)
    ensures forall k :: 0 <= k <= nodes ==> (LiveAt(par, nodes, alpha)[k] <==> 1 <= k <= alpha)
  {
  }

  lemma CodeAtLeaves(par: seq<int>, kids: seq<(nat, nat)>, alpha: nat, nodes: nat, len: seq<nat>, m: nat)
    requires Forest(par, kids, {nodes}, alpha, nodes) && |len| == alpha && Complete(len, m)
    ensures Code(LiveAt(par, nodes, alpha), AtLeaves(len, nodes), m)
  {
    hide Forest, LiveAt, Sum, Pow2;
    AboveLeaves(par, kids, alpha, nodes);
    LeavesAreLive(par, kids, alpha, nodes);
    SumPadded(CodeShares(len, m), Shared(LiveAt(par, nodes, alpha), AtLeaves(len, nodes), m));
  }

  lemma CostAtLeaves(par: seq<int>, wt: seq<nat>, kids: seq<(nat, nat)>, alpha: nat, nodes: nat, w: seq<int>, len: seq<nat>, c: seq<nat>)
    requires Forest(par, kids, {nodes}, alpha, nodes) && nodes < |wt| && |w| == |len| == alpha && |c| == nodes + 1
    requires forall i :: 0 <= i < alpha ==> w[i] == wt[i + 1] / 256 && len[i] == c[i + 1]
    ensures Sum(Costs(LiveAt(par, nodes, alpha), Weights(wt, nodes), c)) == Cost(w, len)
  {
    hide Forest, LiveAt, Sum;
    AboveLeaves(par, kids, alpha, nodes);
    LeavesAreLive(par, kids, alpha, nodes);
    var t, s := seq(|w|, i requires 0 <= i < |w| => w[i] * len[i]), Costs(LiveAt(par, nodes, alpha), Weights(wt, nodes), c);
    forall k | 0 <= k < |t| ensures s[k + 1] == t[k] {
    }
    SumPadded(t, s);
  }

  // ----- Code space that is left over -----

  /** The shares are multiples of the least one, and so is the code space. */
  lemma Multiples(len: seq<nat>, m: nat, x: nat)
    requires x < |len| && len[x] <= m && forall k :: 0 <= k < |len| ==> len[k] <= len[x]
    ensures var t := seq(|len|, k requires 0 <= k < |len| => Pow2(len[x] - len[k]));
            Sum(CodeShares(len, m)) == Pow2(m - len[x]) * Sum(t) && Pow2(m) == Pow2(m - len[x]) * Pow2(len[x]) && Sum(t) >= 1
  {
    hide Pow2, Sum;
    var s, u := CodeShares(len, m), Pow2(m - len[x]);
    var t := seq(|len|, k requires 0 <= k < |len| => Pow2(len[x] - len[k]));
    forall k | 0 <= k < |len| ensures s[k] == u * t[k] {
      Pow2Sum(m - len[x], len[x] - len[k]);
    }
    SumScale(t, s, u);
    Pow2Sum(m - len[x], len[x]);
    PowerOfNone();
    SumNotNegative(t[x := 0]);
    SumUpdate(t, x, 0);
  }

  /** The longest code can be made shorter by a bit as long as there is code space left. */
  lemma Shorter(len: seq<nat>, m: nat, x: nat)
    requires Roomy(len, m) && Sum(CodeShares(len, m)) < Pow2(m) && x < |len| && forall k :: 0 <= k < |len| ==> len[k] <= len[x]
    ensures len[x] > 0 && Roomy(len[x := len[x] - 1], m)
  {
    hide Pow2, Sum;
    var s, u := CodeShares(len, m), Pow2(m - len[x]);
    Multiples(len, m, x);
    OneUnitMore(u, Sum(seq(|len|, k requires 0 <= k < |len| => Pow2(len[x] - len[k]))), Pow2(len[x]));
    PowerOfNone();
    var l := len[x := len[x] - 1];
    NextPower(m - len[x]);
    SumUpdate(s, x, 2 * u);
    assert CodeShares(l, m) == s[x := 2 * u];
  }

  lemma PowerOfNone()
    ensures Pow2(0) == 1
  {
  }

  lemma OneUnitMore(u: int, a: int, b: int)
    requires u >= 1 && u * a < u * b
    ensures a < b && u * a + u <= u * b
  {
    if a >= b { Times(u, b, a); } else { Times(u, a + 1, b); }
    assert u * (a + 1) == u * a + u;
  }

  lemma Times(u: int, a: int, b: int)
    requires u >= 1 && a <= b
    ensures u * a <= u * b
  {
  }

  lemma {:induction false} Longest(len: seq<nat>) returns (x: nat)
    requires len != []
    ensures x < |len| && forall k :: 0 <= k < |len| ==> len[k] <= len[x]
  {
    var n := |len| - 1;
    x := n;
    if n > 0 {
      var y := Longest(len[..n]);
      assert forall k :: 0 <= k < n ==> len[k] == len[..n][k];
      if len[y] > len[n] { x := y; }
    }
  }

  /** No lengths are too short for a complete code to be as short. */
  lemma {:induction false} Fill(len: seq<nat>, m: nat, w: seq<int>) returns (full: seq<nat>)
    requires Roomy(len, m) && len != [] && |w| == |len| && forall i :: 0 <= i < |w| ==> w[i] >= 0
    ensures |full| == |len| && Complete(full, m) && Cost(w, full) <= Cost(w, len)
    decreases Sum(len)
  {
    hide Pow2, Sum, Cost;
    SumNotNegative(len);
    if Sum(CodeShares(len, m)) == Pow2(m) {
      full := len;
    } else {
      var x := Longest(len);
      Shorter(len, m, x);
      var l := len[x := len[x] - 1];
      SumUpdate(len, x, len[x] - 1);
      SumNotNegative(l);
      full := Fill(l, m, w);
      CostsLess(w, len, l);
    }
  }

  lemma CostsLess(w: seq<int>, len: seq<nat>, l: seq<nat>)
    requires |w| == |len| == |l| && forall i :: 0 <= i < |w| ==> w[i] >= 0 && l[i] <= len[i]
    ensures Cost(w, l) <= Cost(w, len)
  {
    hide Sum;
    var s, t := seq(|w|, i requires 0 <= i < |w| => w[i] * l[i]), seq(|w|, i requires 0 <= i < |w| => w[i] * len[i]);
    forall i | 0 <= i < |w| ensures s[i] <= t[i] { Product(w[i], l[i], len[i]); }
    SumMonotone(s, t);
  }

  lemma Product(w: int, a: int, b: int)
    requires w >= 0 && a <= b
    ensures w * a <= w * b
  {
  }

  /** The depths of the leaves are the lengths of an optimal code. */
  lemma TreeIsOptimal(par: seq<int>, wt: seq<nat>, kids: seq<(nat, nat)>, alpha: nat, nodes: nat, w: seq<int>, len: seq<nat>)
    requires Forest(par, kids, {nodes}, alpha, nodes) && Upward(par, nodes) && Greedy(par, wt, kids, alpha, nodes) && 1 <= alpha
    requires |w| == |len| == alpha && forall i :: 0 <= i < alpha ==> w[i] == wt[i + 1] / 256 && len[i] == Depth(par, nodes, i + 1)
    ensures Optimal(w, len)
  {
    hide Forest, Greedy, Depth, Cost, Roomy, Costs, LiveAt, Sum;
    AboveLeaves(par, kids, alpha, nodes);
    assert nodes < |wt| by { InRange(par, wt, kids, alpha, nodes); }
    DepthsCost(par, wt, kids, alpha, nodes, alpha);
    CostAtLeaves(par, wt, kids, alpha, nodes, w, len, Depths(par, nodes));
    forall other: seq<nat>, m: nat | |other| == |w| && Roomy(other, m) ensures Cost(w, len) <= Cost(w, other) {
      CostsAtLeast(par, wt, kids, alpha, nodes, w, other, m);
    }
  }

  lemma InRange(par: seq<int>, wt: seq<nat>, kids: seq<(nat, nat)>, alpha: nat, nodes: nat)
    requires Greedy(par, wt, kids, alpha, nodes)
    ensures nodes < |wt|
  {
  }

  lemma AboveLeaves(par: seq<int>, kids: seq<(nat, nat)>, alpha: nat, nodes: nat)
    requires Forest(par, kids, {nodes}, alpha, nodes)
    ensures alpha <= nodes < |par|
  {
  }

  lemma CostsAtLeast(par: seq<int>, wt: seq<nat>, kids: seq<(nat, nat)>, alpha: nat, nodes: nat, w: seq<int>, other: seq<nat>, m: nat)
    requires Forest(par, kids, {nodes}, alpha, nodes) && Greedy(par, wt, kids, alpha, nodes) && 1 <= alpha <= nodes
    requires |w| == |other| == alpha && Roomy(other, m) && nodes < |wt| && forall i :: 0 <= i < alpha ==> w[i] == wt[i + 1] / 256
    ensures Inner(wt, alpha, nodes) <= Cost(w, other)
  {
    hide Forest, Greedy, Cost, Roomy, LiveAt, Sum, Code, Complete, Inner;
    AboveLeaves(par, kids, alpha, nodes);
    var full := Fill(other, m, w);
    var c := AtLeaves(full, nodes);
    CodeAtLeaves(par, kids, alpha, nodes, full, m);
    CostAtLeaves(par, wt, kids, alpha, nodes, w, full, c);
    var c' := CodeForRoots(par, wt, kids, alpha, nodes, nodes, c, m);
    SumNotNegative(Costs(LiveAt(par, nodes, nodes), Weights(wt, nodes), c'));
  }

  /** In an optimal code no symbol has a longer code than a lighter one. */
  lemma HeavierIsNoLonger(w: seq<int>, len: seq<nat>, m: nat, i: nat, j: nat)
    requires Optimal(w, len) && Roomy(len, m) && i < |w| && j < |w| && w[i] > w[j]
    ensures len[i] <= len[j]
  {
    hide Sum, Pow2;
    var other := len[i := len[j]][j := len[i]];
    var s, t := CodeShares(len, m), seq(|w|, k requires 0 <= k < |w| => w[k] * len[k]);
    SumUpdate(s, i, s[j]);
    SumUpdate(s[i := s[j]], j, s[i]);
    assert CodeShares(other, m) == s[i := s[j]][j := s[i]];
    SumUpdate(t, i, w[i] * len[j]);
    SumUpdate(t[i := w[i] * len[j]], j, w[j] * len[i]);
    assert seq(|w|, k requires 0 <= k < |w| => w[k] * other[k]) == t[i := w[i] * len[j]][j := w[j] * len[i]];
    assert Roomy(other, m);
    Gains(w[i], w[j], len[i], len[j]);
  }

  lemma Gains(wi: int, wj: int, li: int, lj: int)
    requires wi > wj && wi * li + wj * lj <= wi * lj + wj * li
    ensures li <= lj
  {
    assert (wi - wj) * (li - lj) <= 0;
    if li > lj { NoZero(wi - wj, li - lj); }
  }
}
