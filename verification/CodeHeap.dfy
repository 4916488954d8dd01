/** The heap of BZ2_hbMakeCodeLengths: node numbers in heap[1..nHeap], the least weight on top.
    Entry 0 is a sentinel of weight 0. */
module CodeHeap {
  import opened Sequences

  /** Entries 1 to n, and the sentinel, are node numbers. */
  ghost predicate Nodes(hp: seq<nat>, wt: seq<nat>, n: nat) {
    && n < |hp| && hp[0] == 0 && |wt| > 0 && wt[0] == 0
    && forall i :: 0 < i <= n ==> hp[i] < |wt| && wt[hp[i]] > 0
  }

  ghost predicate Heap(hp: seq<nat>, wt: seq<nat>, n: nat) {
    Nodes(hp, wt, n) && forall i :: 2 <= i <= n ==> wt[hp[i / 2]] <= wt[hp[i]]
  }

  /** A heap but for entry z, which may be too light for its parent. */
  ghost predicate Rising(hp: seq<nat>, wt: seq<nat>, n: nat, z: nat) {
    && Nodes(hp, wt, n) && 1 <= z <= n
    && (forall i :: 2 <= i <= n && i != z ==> wt[hp[i / 2]] <= wt[hp[i]])
    && (forall i :: 2 <= i <= n && i / 2 == z && z > 1 ==> wt[hp[z / 2]] <= wt[hp[i]])
  }

  /** A heap but for entry z, which may be too heavy for its children. */
  ghost predicate Sinking(hp: seq<nat>, wt: seq<nat>, n: nat, z: nat) {
    && Nodes(hp, wt, n) && 1 <= z
    && (forall i :: 2 <= i <= n && i / 2 != z ==> wt[hp[i / 2]] <= wt[hp[i]])
    && (forall i :: 2 <= i <= n && i / 2 == z && z > 1 ==> wt[hp[z / 2]] <= wt[hp[i]])
  }

  /** The node numbers in the heap. */
  ghost function Members(hp: seq<nat>, n: nat): multiset<nat>
    requires n < |hp|
  {
    multiset(hp[1..n + 1])
  }

  lemma {:induction false} TopIsLeast(hp: seq<nat>, wt: seq<nat>, n: nat, i: nat)
    requires Heap(hp, wt, n) && 1 <= i <= n
    ensures wt[hp[1]] <= wt[hp[i]]
    decreases i
  {
    if i > 1 { TopIsLeast(hp, wt, n, i / 2); }
  }

  lemma SwapKeepsMembers(hp: seq<nat>, n: nat, i: nat, j: nat)
    requires n < |hp| && 1 <= i <= n && 1 <= j <= n
    ensures Members(hp[i := hp[j]][j := hp[i]], n) == Members(hp, n)
  {
    var s := hp[1..n + 1];
    assert hp[i := hp[j]][j := hp[i]][1..n + 1] == s[i - 1 := s[j - 1]][j - 1 := s[i - 1]];
    SwapKeepsMultiset(s, i - 1, j - 1);
  }

  lemma RiseOne(hp: seq<nat>, wt: seq<nat>, n: nat, z: nat)
    requires Rising(hp, wt, n, z) && z > 1 && wt[hp[z]] < wt[hp[z / 2]]
    ensures Rising(hp[z := hp[z / 2]][z / 2 := hp[z]], wt, n, z / 2)
  {
  }

  lemma RisingEnds(hp: seq<nat>, wt: seq<nat>, n: nat, z: nat)
    requires Rising(hp, wt, n, z) && (z > 1 ==> wt[hp[z]] >= wt[hp[z / 2]])
    ensures Heap(hp, wt, n)
  {
  }

  lemma SinkOne(hp: seq<nat>, wt: seq<nat>, n: nat, z: nat, y: nat)
    requires Sinking(hp, wt, n, z) && y <= n && y / 2 == z && y >= 2
    requires wt[hp[y]] <= wt[hp[z]] && forall i :: 2 <= i <= n && i / 2 == z ==> wt[hp[y]] <= wt[hp[i]]
    ensures Sinking(hp[z := hp[y]][y := hp[z]], wt, n, y)
  {
  }

  lemma SinkingEnds(hp: seq<nat>, wt: seq<nat>, n: nat, z: nat)
    requires Sinking(hp, wt, n, z) && forall i :: 2 <= i <= n && i / 2 == z ==> wt[hp[z]] <= wt[hp[i]]
    ensures Heap(hp, wt, n)
  {
  }

  /** UPHEAP: move entry z up to where no parent is heavier. */
  method UpHeap(heap: array<nat>, weight: array<nat>, nHeap: nat, z: nat)
    requires heap != weight && Nodes(heap[..], weight[..], nHeap) && 1 <= z <= nHeap
    requires Rising(heap[..], weight[..], nHeap, z)
    modifies heap
    ensures Nodes(heap[..], weight[..], nHeap) && Heap(heap[..], weight[..], nHeap)
    ensures Members(heap[..], nHeap) == old(Members(heap[..], nHeap))
  {
    hide Rising, Heap, Members;
    ghost var hp, wt := heap[..], weight[..];
    var zz, tmp := z, heap[z];
    while weight[tmp] < weight[heap[zz / 2]]
      invariant 1 <= zz <= z <= nHeap < heap.Length && tmp < weight.Length && Nodes(hp, wt, nHeap)
      invariant weight[..] == wt && |hp| == heap.Length && hp[zz] == tmp && heap[..] == hp[zz := heap[zz]]
      invariant Rising(hp, wt, nHeap, zz) && Members(hp, nHeap) == old(Members(heap[..], nHeap))
      decreases zz
    {
      RiseOne(hp, wt, nHeap, zz);
      SiftKeepsNodes(hp, wt, nHeap, zz, zz / 2);
      SwapKeepsMembers(hp, nHeap, zz, zz / 2);
      hp := hp[zz := hp[zz / 2]][zz / 2 := hp[zz]];
      heap[zz] := heap[zz / 2];
      zz := zz / 2;
    }
    RisingEnds(hp, wt, nHeap, zz);
    heap[zz] := tmp;
    assert heap[..] == hp;
  }

  /** The children of zz that are in the heap are yy and yy + 1. */
  lemma LighterChild(hp: seq<nat>, wt: seq<nat>, n: nat, z: nat, y: nat)
    requires Nodes(hp, wt, n) && 1 <= z && 2 * z <= n
    requires y == if 2 * z < n && wt[hp[2 * z + 1]] < wt[hp[2 * z]] then 2 * z + 1 else 2 * z
    ensures 2 <= y <= n && y / 2 == z && forall i :: 2 <= i <= n && i / 2 == z ==> wt[hp[y]] <= wt[hp[i]]
  {
    forall i | 2 <= i <= n && i / 2 == z ensures wt[hp[y]] <= wt[hp[i]] {
      assert i == 2 * z || i == 2 * z + 1;
    }
  }

  lemma SiftKeepsNodes(hp: seq<nat>, wt: seq<nat>, n: nat, i: nat, j: nat)
    requires Nodes(hp, wt, n) && 1 <= i <= n && 1 <= j <= n
    ensures Nodes(hp[i := hp[j]][j := hp[i]], wt, n)
  {
  }

  /** DOWNHEAP(1): move the top entry down to where no child is lighter. */
  method DownHeap(heap: array<nat>, weight: array<nat>, nHeap: nat)
    requires heap != weight && Nodes(heap[..], weight[..], nHeap) && heap.Length > 1
    requires heap[1] < weight.Length && Sinking(heap[..], weight[..], nHeap, 1)
    modifies heap
    ensures Nodes(heap[..], weight[..], nHeap) && Heap(heap[..], weight[..], nHeap)
    ensures Members(heap[..], nHeap) == old(Members(heap[..], nHeap))
  {
    hide Sinking, Heap, Members;
    ghost var hp, wt := heap[..], weight[..];
    var zz, tmp := 1, heap[1];
    while true
      invariant 1 <= zz < heap.Length && tmp < weight.Length && Nodes(hp, wt, nHeap)
      invariant weight[..] == wt && |hp| == heap.Length && hp[zz] == tmp && heap[..] == hp[zz := heap[zz]]
      invariant Sinking(hp, wt, nHeap, zz) && Members(hp, nHeap) == old(Members(heap[..], nHeap))
      decreases heap.Length - zz
    {
      var yy := 2 * zz;
      if yy > nHeap { break; }
      if yy < nHeap && weight[heap[yy + 1]] < weight[heap[yy]] { yy := yy + 1; }
      LighterChild(hp, wt, nHeap, zz, yy);
      if weight[tmp] < weight[heap[yy]] { break; }
      SinkOne(hp, wt, nHeap, zz, yy);
      SwapKeepsMembers(hp, nHeap, zz, yy);
      SiftKeepsNodes(hp, wt, nHeap, zz, yy);
      hp := hp[zz := hp[yy]][yy := hp[zz]];
      heap[zz] := heap[yy];
      zz := yy;
    }
    SinkingEnds(hp, wt, nHeap, zz);
    heap[zz] := tmp;
    assert heap[..] == hp;
  }

  lemma MemberAt(hp: seq<nat>, n: nat, m: nat) returns (i: nat)
    requires n < |hp| && m in Members(hp, n)
    ensures 1 <= i <= n && hp[i] == m
  {
    var s := hp[1..n + 1];
    assert m in s;
    var k :| 0 <= k < |s| && s[k] == m;
    i := k + 1;
  }

  lemma MembersShrink(hp: seq<nat>, n: nat)
    requires 1 <= n < |hp|
    ensures hp[1] in Members(hp, n)
    ensures Members(hp[1 := hp[n]], n - 1) == Members(hp, n) - multiset{hp[1]}
  {
    var s := hp[1..n + 1];
    assert s == [hp[1]] + hp[2..n + 1];
    var t := hp[1 := hp[n]][1..n];
    if n == 1 {
      assert t == [];
      assert s == [hp[1]];
    } else {
      assert t == [hp[n]] + hp[2..n];
      assert hp[2..n + 1] == hp[2..n] + [hp[n]];
    }
  }

  lemma DroppingTopSinks(hp: seq<nat>, wt: seq<nat>, n: nat)
    requires Heap(hp, wt, n) && 1 <= n
    ensures var hp' := hp[1 := hp[n]]; Nodes(hp', wt, n - 1) && Sinking(hp', wt, n - 1, 1)
  {
  }

  /** Take the lightest node out of the heap. */
  method ExtractTop(heap: array<nat>, weight: array<nat>, nHeap: nat) returns (top: nat)
    requires heap != weight && 1 <= nHeap && Nodes(heap[..], weight[..], nHeap) && Heap(heap[..], weight[..], nHeap)
    modifies heap
    ensures Nodes(heap[..], weight[..], nHeap - 1) && Heap(heap[..], weight[..], nHeap - 1)
    ensures top in old(Members(heap[..], nHeap)) && top < weight.Length
    ensures Members(heap[..], nHeap - 1) == old(Members(heap[..], nHeap)) - multiset{top}
    ensures forall m :: m in old(Members(heap[..], nHeap)) ==> m < weight.Length && weight[top] <= weight[m]
  {
    hide Heap, Sinking, Members;
    ghost var hp, wt := heap[..], weight[..];
    top := heap[1];
    MembersShrink(hp, nHeap);
    DroppingTopSinks(hp, wt, nHeap);
    heap[1] := heap[nHeap];
    DownHeap(heap, weight, nHeap - 1);
    forall m | m in Members(hp, nHeap) ensures m < weight.Length && weight[top] <= weight[m] {
      var i := MemberAt(hp, nHeap, m);
      TopIsLeast(hp, wt, nHeap, i);
    }
  }

  lemma MembersGrow(hp: seq<nat>, n: nat, x: nat)
    requires n + 1 < |hp|
    ensures Members(hp[n + 1 := x], n + 1) == Members(hp, n) + multiset{x}
  {
    assert hp[n + 1 := x][1..n + 2] == hp[1..n + 1] + [x];
  }

  lemma AddingRises(hp: seq<nat>, wt: seq<nat>, n: nat, x: nat)
    requires Heap(hp, wt, n) && n + 1 < |hp| && x < |wt| && wt[x] > 0
    ensures var hp' := hp[n + 1 := x]; Nodes(hp', wt, n + 1) && Rising(hp', wt, n + 1, n + 1)
  {
  }

  /** Put node x into the heap. */
  method Insert(heap: array<nat>, weight: array<nat>, nHeap: nat, x: nat)
    requires heap != weight && Nodes(heap[..], weight[..], nHeap) && Heap(heap[..], weight[..], nHeap)
    requires nHeap + 1 < heap.Length && x < weight.Length && weight[x] > 0
    modifies heap
    ensures Nodes(heap[..], weight[..], nHeap + 1) && Heap(heap[..], weight[..], nHeap + 1)
    ensures Members(heap[..], nHeap + 1) == old(Members(heap[..], nHeap)) + multiset{x}
  {
    hide Heap, Rising, Members;
    MembersGrow(heap[..], nHeap, x);
    AddingRises(heap[..], weight[..], nHeap, x);
    heap[nHeap + 1] := x;
    UpHeap(heap, weight, nHeap + 1, nHeap + 1);
  }

  /** Giving a weight to a node outside the heap does not disturb it. */
  lemma WeighOutside(hp: seq<nat>, wt: seq<nat>, n: nat, x: nat, w: nat)
    requires Nodes(hp, wt, n) && Heap(hp, wt, n) && 0 < x < |wt| && x !in Members(hp, n)
    ensures Nodes(hp, wt[x := w], n) && Heap(hp, wt[x := w], n)
  {
    forall i | 1 <= i <= n ensures hp[i] != x {
      assert hp[1..n + 1][i - 1] == hp[i];
    }
  }
}
