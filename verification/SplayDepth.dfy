/** What splaying does to depths: nodes on the way to the key come about twice as close to the root, and none sinks by more than two. */
module SplayDepths {
  import opened Splaying

  /** How many nodes a search for k passes before it meets k. */
  function Depth<V>(s: Shape<V>, k: Key): nat {
    if s.Leaf? || k == s.node.key then 0 else 1 + Depth(if k < s.node.key then s.left else s.right, k)
  }

  /** How many nodes the searches for a and b pass together, going the same way from each. */
  function Together<V>(s: Shape<V>, a: Key, b: Key): nat {
    if s.Leaf? then 0
    else if a < s.node.key && b < s.node.key then 1 + Together(s.left, a, b)
    else if a > s.node.key && b > s.node.key then 1 + Together(s.right, a, b)
    else 0
  }

  /** The search for key meets n. */
  predicate OnPath<V>(s: Shape<V>, key: Key, n: Node<V>) {
    s.Tree? && (s.node == n || (key < s.node.key && OnPath(s.left, key, n)) || (key > s.node.key && OnPath(s.right, key, n)))
  }

  // ----- Where the nodes of a side tree are -----

  /** The search for k goes on to the next piece of the side tree. */
  predicate GoesOn(k: Key, at: Key, side: Side) {
    if side.Lesser? then k > at else k < at
  }

  lemma {:induction false} DepthBelowSpine<V>(pieces: seq<Piece<V>>, t: Shape<V>, side: Side, k: Key)
    requires forall j :: 0 <= j < |pieces| ==> GoesOn(k, pieces[j].node.key, side)
    ensures Depth(Assemble(pieces, t, side), k) == |pieces| + Depth(t, k)
    decreases |pieces|
  {
    if pieces != [] {
      var n := |pieces| - 1;
      DepthBelowSpine(pieces[..n], Join(pieces[n], t, side), side, k);
    }
  }

  lemma {:induction false} DepthInSpine<V>(pieces: seq<Piece<V>>, i: nat, t: Shape<V>, side: Side, k: Key)
    requires i < |pieces| && !GoesOn(k, pieces[i].node.key, side)
    requires forall j :: 0 <= j < i ==> GoesOn(k, pieces[j].node.key, side)
    ensures Depth(Assemble(pieces, t, side), k) == i + if k == pieces[i].node.key then 0 else 1 + Depth(pieces[i].sub, k)
    decreases |pieces|
  {
    var n := |pieces| - 1;
    if i < n {
      DepthInSpine(pieces[..n], i, Join(pieces[n], t, side), side, k);
    } else {
      DepthBelowSpine(pieces[..n], Join(pieces[n], t, side), side, k);
    }
  }

  lemma {:induction false} InFlat<V>(pieces: seq<Piece<V>>, i: nat, side: Side, n: Node<V>)
    requires i < |pieces| && (n == pieces[i].node || n in Inorder(pieces[i].sub))
    ensures n in Flat(pieces, side)
    decreases |pieces|
  {
    hide Inorder;
    if i < |pieces| - 1 { InFlat(pieces[..|pieces| - 1], i, side, n); }
  }

  /** The nodes of the current tree lie between those of the side trees. */
  lemma Between<V>(st: State<V>, n: Node<V>)
    requires Ascending(Flatten(st)) && n in Inorder(st.current)
    ensures forall m :: m in Flat(st.lesser, Lesser) ==> m.key < n.key
    ensures forall m :: m in Flat(st.greater, Greater) ==> n.key < m.key
  {
    hide Ascending, Flat, Inorder;
    AscendingParts(Flat(st.lesser, Lesser) + Inorder(st.current), Flat(st.greater, Greater));
    AscendingParts(Flat(st.lesser, Lesser), Inorder(st.current));
    var ab := Flat(st.lesser, Lesser) + Inorder(st.current);
    assert n in ab;
  }

  lemma BeyondSpines<V>(st: State<V>, n: Node<V>)
    requires Ascending(Flatten(st)) && n in Inorder(st.current)
    ensures forall j :: 0 <= j < |st.lesser| ==> GoesOn(n.key, st.lesser[j].node.key, Lesser)
    ensures forall j :: 0 <= j < |st.greater| ==> GoesOn(n.key, st.greater[j].node.key, Greater)
  {
    hide Ascending, Flat, Inorder, Flatten;
    Between(st, n);
    forall j | 0 <= j < |st.lesser| ensures GoesOn(n.key, st.lesser[j].node.key, Lesser) { InFlat(st.lesser, j, Lesser, st.lesser[j].node); }
    forall j | 0 <= j < |st.greater| ensures GoesOn(n.key, st.greater[j].node.key, Greater) { InFlat(st.greater, j, Greater, st.greater[j].node); }
  }

  /** In which part of a search tree a node is. */
  lemma WhichPart<V>(s: Shape<V>, n: Node<V>)
    requires Ascending(Inorder(s)) && n in Inorder(s)
    ensures s.Tree? && (n.key < s.node.key ==> n in Inorder(s.left)) && (n.key > s.node.key ==> n in Inorder(s.right))
    ensures n.key == s.node.key ==> n == s.node
  {
    TreeParts(s);
  }

  /** Where the nodes of the current tree come to be when the descent ends here. */
  lemma DepthAtEnd<V>(st: State<V>, n: Node<V>)
    requires Ascending(Flatten(st)) && n in Inorder(st.current)
    ensures st.current.Tree?
    ensures Depth(Whole(st), n.key) == if n.key == st.current.node.key then 0
                                       else Depth(st.current, n.key) + if n.key < st.current.node.key then |st.lesser| else |st.greater|
  {
    hide Ascending, Inorder, Flatten, Assemble;
    CurrentAscends(st);
    WhichPart(st.current, n);
    BeyondSpines(st, n);
    if n.key < st.current.node.key {
      DepthBelowSpine(st.lesser, st.current.left, Lesser, n.key);
    } else if n.key > st.current.node.key {
      DepthBelowSpine(st.greater, st.current.right, Greater, n.key);
    }
  }

  /** The descent only adds to the side trees. */
  lemma {:induction false} SpinesGrow<V>(st: State<V>, key: Key)
    ensures st.lesser <= Descend(st, key).lesser && st.greater <= Descend(st, key).greater
    decreases st.current
  {
    var s := st.current;
    if s.Tree? && key < s.node.key && s.left.Tree? {
      var t := if key < s.left.node.key then RotatedRight(s) else s;
      if t.left.Tree? { SpinesGrow(State(st.lesser, t.left, st.greater + [Piece(t.node, t.right)]), key); }
    } else if s.Tree? && key > s.node.key && s.right.Tree? {
      var t := if key > s.right.node.key then RotatedLeft(s) else s;
      if t.right.Tree? { SpinesGrow(State(st.lesser + [Piece(t.node, t.left)], t.right, st.greater), key); }
    }
  }

  /** The state after the current node has been linked to the side of greater keys. */
  function LinkedGreater<V>(st: State<V>): State<V>
    requires st.current.Tree?
  {
    State(st.lesser, st.current.left, st.greater + [Piece(st.current.node, st.current.right)])
  }

  function LinkedLesser<V>(st: State<V>): State<V>
    requires st.current.Tree?
  {
    State(st.lesser + [Piece(st.current.node, st.current.left)], st.current.right, st.greater)
  }

  /** Where the node that is linked to the side of greater keys and those on its right come to be. */
  lemma DepthOfGreater<V>(st: State<V>, key: Key, n: Node<V>)
    requires Bounded(st, key) && st.current.Tree? && st.current.left.Tree? && key < st.current.node.key
    requires n in Inorder(st.current) && n.key >= st.current.node.key
    ensures var end := Descend(LinkedGreater(st), key);
            end.current.Tree? && Depth(Whole(end), n.key) == 1 + |st.greater| + Depth(st.current, n.key)
  {
    hide Ascending, Inorder, Flatten, Flat, Assemble, Descend;
    var i, mid := |st.greater|, LinkedGreater(st);
    LinkRight(st, key);
    SpinesGrow(mid, key);
    DescendEnds(mid, key);
    var end := Descend(mid, key);
    assert end.greater[..i + 1] == mid.greater && end.greater[i] == mid.greater[i];
    FlatAscends(st, key);
    CurrentAscends(st);
    WhichPart(st.current, n);
    BeyondSpines(st, n);
    forall j | 0 <= j < i ensures GoesOn(n.key, end.greater[j].node.key, Greater) { assert end.greater[j] == mid.greater[j] == st.greater[j]; }
    DepthInSpine(end.greater, i, end.current.right, Greater, n.key);
    InFlat(end.greater, i, Greater, n);
    FlatAscends(end, key);
    RootIn(end.current);
    Between(end, end.current.node);
  }

  lemma RootIn<V>(s: Shape<V>)
    requires s.Tree?
    ensures s.node in Inorder(s)
  {
  }

  lemma FlatAscends<V>(st: State<V>, key: Key)
    requires Bounded(st, key) || Ended(st, key)
    ensures Ascending(Flatten(st))
  {
  }

  lemma DepthOfLesser<V>(st: State<V>, key: Key, n: Node<V>)
    requires Bounded(st, key) && st.current.Tree? && st.current.right.Tree? && key > st.current.node.key
    requires n in Inorder(st.current) && n.key <= st.current.node.key
    ensures var end := Descend(LinkedLesser(st), key);
            end.current.Tree? && Depth(Whole(end), n.key) == 1 + |st.lesser| + Depth(st.current, n.key)
  {
    hide Ascending, Inorder, Flatten, Flat, Assemble, Descend;
    var i, mid := |st.lesser|, LinkedLesser(st);
    LinkLeft(st, key);
    SpinesGrow(mid, key);
    DescendEnds(mid, key);
    var end := Descend(mid, key);
    assert end.lesser[..i + 1] == mid.lesser && end.lesser[i] == mid.lesser[i];
    FlatAscends(st, key);
    CurrentAscends(st);
    WhichPart(st.current, n);
    BeyondSpines(st, n);
    forall j | 0 <= j < i ensures GoesOn(n.key, end.lesser[j].node.key, Lesser) { assert end.lesser[j] == mid.lesser[j] == st.lesser[j]; }
    DepthInSpine(end.lesser, i, end.current.left, Lesser, n.key);
    InFlat(end.lesser, i, Lesser, n);
    FlatAscends(end, key);
    RootIn(end.current);
    Between(end, end.current.node);
  }

  // ----- The descent -----

  /** How deep the nodes of the current tree may come to be: two levels for every piece linked so far on their side, and up to two more,
      depending on which way the descent goes next. */
  function Allowance<V>(st: State<V>, key: Key, k: Key): int
    requires st.current.Tree?
  {
    if k > key then 2 * |st.greater| + (if key < st.current.node.key then 4 else 3)
    else if k < key then 2 * |st.lesser| + (if key > st.current.node.key then 4 else 3)
    else 0
  }

  ghost predicate Halved<V>(st: State<V>, key: Key, k: Key)
    requires st.current.Tree?
  {
    var end := Descend(st, key);
    2 * Depth(Whole(end), k) + Together(st.current, key, k) <= 2 * Depth(st.current, k) + Allowance(st, key, k)
  }

  /** The tree that is linked in the first turn towards smaller keys: what has come of the depths in it. */
  lemma TurnedRight<V>(s: Shape<V>, key: Key, k: Key)
    requires s.Tree? && s.left.Tree? && s.left.node.key < s.node.key && key < s.node.key
    ensures var t := if key < s.left.node.key then RotatedRight(s) else s;
            && key < t.node.key && (t != s || key >= t.left.node.key)
            && (k < t.node.key ==> var d := (if t == s then 1 else 2);
                 Depth(s, k) == d + Depth(t.left, k) && Together(s, key, k) == d + Together(t.left, key, k))
            && (k >= t.node.key ==> 2 * Depth(t, k) + Together(s, key, k) <= 2 * Depth(s, k) + 2)
            && (k == t.node.key ==> Depth(t, k) == 0 && Together(s, key, k) <= Depth(s, k))
  {
    if key < s.left.node.key { RotatedRightDepth(s, key, k); }
  }

  lemma RotatedRightDepth<V>(s: Shape<V>, key: Key, k: Key)
    requires s.Tree? && s.left.Tree? && key < s.left.node.key < s.node.key
    ensures var t := RotatedRight(s);
            && (k < t.node.key ==> Depth(s, k) == 2 + Depth(t.left, k) && Together(s, key, k) == 2 + Together(t.left, key, k))
            && (k > t.node.key ==> 2 * Depth(t, k) + Together(s, key, k) <= 2 * Depth(s, k) + 2)
            && (k == t.node.key ==> Depth(t, k) == 0 && Together(s, key, k) <= Depth(s, k))
  {
    var t := RotatedRight(s);
    if k < s.node.key {
      assert Depth(s, k) == 1 + Depth(s.left, k) && Together(s, key, k) == 1 + Together(s.left, key, k);
      if k > t.node.key { assert Depth(t, k) == 1 + Depth(t.right, k) && Depth(t.right, k) == 1 + Depth(s.left.right, k); }
    } else {
      assert Depth(t, k) == 1 + Depth(t.right, k) && Together(s, key, k) == 0;
      if k > s.node.key { assert Depth(t.right, k) == 1 + Depth(s.right, k) && Depth(s, k) == 1 + Depth(s.right, k); }
    }
  }

  lemma TurnedLeft<V>(s: Shape<V>, key: Key, k: Key)
    requires s.Tree? && s.right.Tree? && s.right.node.key > s.node.key && key > s.node.key
    ensures var t := if key > s.right.node.key then RotatedLeft(s) else s;
            && key > t.node.key && (t != s || key <= t.right.node.key)
            && (k > t.node.key ==> var d := (if t == s then 1 else 2);
                 Depth(s, k) == d + Depth(t.right, k) && Together(s, key, k) == d + Together(t.right, key, k))
            && (k <= t.node.key ==> 2 * Depth(t, k) + Together(s, key, k) <= 2 * Depth(s, k) + 2)
            && (k == t.node.key ==> Depth(t, k) == 0 && Together(s, key, k) <= Depth(s, k))
  {
    if key > s.right.node.key { RotatedLeftDepth(s, key, k); }
  }

  lemma RotatedLeftDepth<V>(s: Shape<V>, key: Key, k: Key)
    requires s.Tree? && s.right.Tree? && key > s.right.node.key > s.node.key
    ensures var t := RotatedLeft(s);
            && (k > t.node.key ==> Depth(s, k) == 2 + Depth(t.right, k) && Together(s, key, k) == 2 + Together(t.right, key, k))
            && (k < t.node.key ==> 2 * Depth(t, k) + Together(s, key, k) <= 2 * Depth(s, k) + 2)
            && (k == t.node.key ==> Depth(t, k) == 0 && Together(s, key, k) <= Depth(s, k))
  {
    var t := RotatedLeft(s);
    if k > s.node.key {
      assert Depth(s, k) == 1 + Depth(s.right, k) && Together(s, key, k) == 1 + Together(s.right, key, k);
      if k < t.node.key { assert Depth(t, k) == 1 + Depth(t.left, k) && Depth(t.left, k) == 1 + Depth(s.right.left, k); }
    } else {
      assert Depth(t, k) == 1 + Depth(t.left, k) && Together(s, key, k) == 0;
      if k < s.node.key { assert Depth(t.left, k) == 1 + Depth(s.left, k) && Depth(s, k) == 1 + Depth(s.left, k); }
    }
  }

  lemma ChildKeys<V>(st: State<V>, key: Key)
    requires Bounded(st, key) && st.current.Tree?
    ensures st.current.left.Tree? ==> st.current.left.node.key < st.current.node.key
    ensures st.current.right.Tree? ==> st.current.right.node.key > st.current.node.key
  {
    hide Ascending, Inorder;
    CurrentAscends(st);
    TreeParts(st.current);
    if st.current.left.Tree? { RootIn(st.current.left); }
    if st.current.right.Tree? { RootIn(st.current.right); }
  }

  lemma NotInLeaf<V>(n: Node<V>)
    ensures n !in Inorder<V>(Leaf)
  {
  }

  /** A turn towards smaller keys, of which the rest of the descent is known to halve depths. */
  lemma HalvedRight<V>(st: State<V>, t: Shape<V>, key: Key, n: Node<V>)
    requires Bounded(st, key) && st.current.Tree? && st.current.left.Tree? && n in Inorder(st.current) && key < st.current.node.key
    requires t == (if key < st.current.left.node.key then RotatedRight(st.current) else st.current)
    requires Bounded(st.(current := t), key) && n in Inorder(t)
    requires t.left.Tree? && n.key < t.node.key ==> Halved(LinkedGreater(st.(current := t)), key, n.key)
    ensures Halved(st, key, n.key)
  {
    hide Ascending, Inorder, Flatten, Flat, Assemble, Bounded, Whole, Depth, Together;
    var at := st.(current := t);
    NotInLeaf(n);
    ChildKeys(st, key);
    TurnedRight(st.current, key, n.key);
    FlatAscends(at, key);
    CurrentAscends(at);
    WhichPart(t, n);
    if t.left.Leaf? {
      DepthAtEnd(at, n);
    } else if n.key >= t.node.key {
      DepthOfGreater(at, key, n);
    }
  }

  lemma HalvedLeft<V>(st: State<V>, t: Shape<V>, key: Key, n: Node<V>)
    requires Bounded(st, key) && st.current.Tree? && st.current.right.Tree? && n in Inorder(st.current) && key > st.current.node.key
    requires t == (if key > st.current.right.node.key then RotatedLeft(st.current) else st.current)
    requires Bounded(st.(current := t), key) && n in Inorder(t)
    requires t.right.Tree? && n.key > t.node.key ==> Halved(LinkedLesser(st.(current := t)), key, n.key)
    ensures Halved(st, key, n.key)
  {
    hide Ascending, Inorder, Flatten, Flat, Assemble, Bounded, Whole, Depth, Together;
    var at := st.(current := t);
    NotInLeaf(n);
    ChildKeys(st, key);
    TurnedLeft(st.current, key, n.key);
    FlatAscends(at, key);
    CurrentAscends(at);
    WhichPart(t, n);
    if t.right.Leaf? {
      DepthAtEnd(at, n);
    } else if n.key <= t.node.key {
      DepthOfLesser(at, key, n);
    }
  }

  lemma HalvedAtEnd<V>(st: State<V>, key: Key, n: Node<V>)
    requires Bounded(st, key) && st.current.Tree? && n in Inorder(st.current)
    requires var s := st.current; key == s.node.key || (key < s.node.key && s.left.Leaf?) || (key > s.node.key && s.right.Leaf?)
    ensures Halved(st, key, n.key)
  {
    hide Ascending, Inorder, Flatten, Flat, Assemble, Bounded, Whole, Depth, Together;
    NotInLeaf(n);
    FlatAscends(st, key);
    CurrentAscends(st);
    WhichPart(st.current, n);
    DepthAtEnd(st, n);
    NothingTogether(st.current, key, n.key);
  }

  /** Two steps in the same direction bring everything below them up by one; a single step is followed by one in the other direction. */
  lemma {:induction false} DescendHalves<V>(st: State<V>, key: Key, n: Node<V>)
    requires Bounded(st, key) && st.current.Tree? && n in Inorder(st.current)
    ensures Halved(st, key, n.key)
    decreases st.current
  {
    hide Ascending, Inorder, Flatten, Bounded, Halved;
    var s := st.current;
    if key < s.node.key && s.left.Tree? {
      RotationKeepsOrder(s);
      var t := if key < s.left.node.key then RotatedRight(s) else s;
      Rotate(st, t, key);
      if t.left.Tree? && n.key < t.node.key {
        InLeft(st.(current := t), key, n);
        DescendHalves(LinkedGreater(st.(current := t)), key, n);
      }
      HalvedRight(st, t, key, n);
    } else if key > s.node.key && s.right.Tree? {
      RotationKeepsOrder(s);
      var t := if key > s.right.node.key then RotatedLeft(s) else s;
      Rotate(st, t, key);
      if t.right.Tree? && n.key > t.node.key {
        InRight(st.(current := t), key, n);
        DescendHalves(LinkedLesser(st.(current := t)), key, n);
      }
      HalvedLeft(st, t, key, n);
    } else {
      HalvedAtEnd(st, key, n);
    }
  }

  lemma InLeft<V>(st: State<V>, key: Key, n: Node<V>)
    requires Bounded(st, key) && st.current.Tree? && n in Inorder(st.current) && n.key < st.current.node.key && key < st.current.node.key
    ensures n in Inorder(st.current.left) && Bounded(LinkedGreater(st), key)
  {
    hide Ascending, Inorder, Flatten;
    FlatAscends(st, key);
    CurrentAscends(st);
    WhichPart(st.current, n);
    LinkRight(st, key);
  }

  lemma InRight<V>(st: State<V>, key: Key, n: Node<V>)
    requires Bounded(st, key) && st.current.Tree? && n in Inorder(st.current) && n.key > st.current.node.key && key > st.current.node.key
    ensures n in Inorder(st.current.right) && Bounded(LinkedLesser(st), key)
  {
    hide Ascending, Inorder, Flatten;
    FlatAscends(st, key);
    CurrentAscends(st);
    WhichPart(st.current, n);
    LinkLeft(st, key);
  }

  lemma NothingTogether<V>(s: Shape<V>, a: Key, b: Key)
    requires s.Tree? && (a == s.node.key || (a < s.node.key && s.left.Leaf?) || (a > s.node.key && s.right.Leaf?))
    ensures Together(s, a, b) <= 1 && (a == s.node.key ==> Together(s, a, b) == 0)
  {
  }

  // ----- Splaying -----

  /** Of the nodes that the searches for a node and for the key pass together, every other one is gone from above it afterwards. */
  lemma SplayHalves<V>(s: Shape<V>, key: Key, n: Node<V>)
    requires Ascending(Inorder(s)) && n in Inorder(s)
    ensures 2 * Depth(Splay(s, key), n.key) + Together(s, key, n.key) <= 2 * Depth(s, n.key) + 4
  {
    hide Ascending, Inorder, Descend, Whole;
    NotInLeaf(n);
    StartsWhole(s, key);
    DescendHalves(State([], s, []), key, n);
  }

  lemma StartsWhole<V>(s: Shape<V>, key: Key)
    requires Ascending(Inorder(s))
    ensures Bounded(State([], s, []), key)
  {
    NothingFlat<V>();
    assert Flatten(State([], s, [])) == Inorder(s);
  }

  lemma {:induction false} OnPathTogether<V>(s: Shape<V>, key: Key, n: Node<V>)
    requires Ascending(Inorder(s)) && OnPath(s, key, n)
    ensures n in Inorder(s) && Together(s, key, n.key) == Depth(s, n.key)
  {
    hide Ascending;
    TreeParts(s);
    if s.node != n {
      if key < s.node.key { OnPathTogether(s.left, key, n); } else { OnPathTogether(s.right, key, n); }
    }
  }

  /** Splaying halves the depth of every node on the way to the key, up to two levels, and no node sinks by more than two. */
  lemma PathIsHalved<V>(s: Shape<V>, key: Key, n: Node<V>)
    requires Ascending(Inorder(s)) && n in Inorder(s)
    ensures OnPath(s, key, n) ==> Depth(Splay(s, key), n.key) <= Depth(s, n.key) / 2 + 2
    ensures Depth(Splay(s, key), n.key) <= Depth(s, n.key) + 2
  {
    hide Ascending, Inorder, Splay, Depth;
    SplayHalves(s, key, n);
    if OnPath(s, key, n) { OnPathTogether(s, key, n); }
  }
}
