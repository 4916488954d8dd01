/** The splay tree in the heap: every operation splays first, and together they are a sorted map. */
module SplayTrees {
  import opened Splaying

  ghost function Nodes<V>(s: seq<Node<V>>): set<Node<V>> {
    set n | n in s
  }

  /** The nodes of s are linked in the heap as s says. */
  ghost predicate Linked<V>(s: Shape<V>)
    reads Nodes(Inorder(s))
  {
    s.Tree? ==> s.node.left == Root(s.left) && s.node.right == Root(s.right) && Linked(s.left) && Linked(s.right)
  }

  /** The child that leads to the finished part of a piece, and the child that leads on. */
  function Inner<V>(n: Node<V>, side: Side): Node?<V>
    reads n
  {
    if side.Lesser? then n.left else n.right
  }

  function Outer<V>(n: Node<V>, side: Side): Node?<V>
    reads n
  {
    if side.Lesser? then n.right else n.left
  }

  /** The pieces of a side tree are linked, up to the open place at their end. */
  ghost predicate Spine<V>(pieces: seq<Piece<V>>, side: Side)
    reads Nodes(Flat(pieces, side))
  {
    pieces != [] ==>
      var others, p := pieces[..|pieces| - 1], pieces[|pieces| - 1];
      && Spine(others, side) && Inner(p.node, side) == Root(p.sub) && Linked(p.sub)
      && (others == [] || (LastIn(others, side); Outer(others[|others| - 1].node, side) == p.node))
  }

  lemma LastIn<V>(pieces: seq<Piece<V>>, side: Side)
    requires pieces != []
    ensures pieces[|pieces| - 1].node in Flat(pieces, side)
  {
  }

  /** The dummy's child on the other side is the first piece. */
  ghost predicate Starts<V>(dummy: Node<V>, pieces: seq<Piece<V>>, side: Side)
    reads dummy
  {
    pieces != [] ==> Outer(dummy, side) == pieces[0].node
  }

  function Last<V>(dummy: Node<V>, pieces: seq<Piece<V>>): Node<V> {
    if pieces == [] then dummy else pieces[|pieces| - 1].node
  }

  /** With a tree in the open place the side tree is complete. */
  lemma {:induction false} SpineAssembles<V>(pieces: seq<Piece<V>>, t: Shape<V>, side: Side)
    requires Spine(pieces, side) && Linked(t)
    requires pieces != [] ==> Outer(pieces[|pieces| - 1].node, side) == Root(t)
    ensures Linked(Assemble(pieces, t, side))
    ensures Root(Assemble(pieces, t, side)) == if pieces == [] then Root(t) else pieces[0].node
    decreases |pieces|
  {
    if pieces != [] {
      var others, p := pieces[..|pieces| - 1], pieces[|pieces| - 1];
      SpineAssembles(others, Join(p, t, side), side);
    }
  }

  lemma Apart<V>(a: seq<Node<V>>, b: seq<Node<V>>)
    requires Ascending(a + b)
    ensures Ascending(a) && Ascending(b)
    ensures Nodes(a) !! Nodes(b) && Nodes(a + b) == Nodes(a) + Nodes(b)
  {
    hide Ascending;
    AscendingParts(a, b);
  }

  lemma NodesOf<V>(a: seq<Node<V>>, b: seq<Node<V>>, n: Node<V>)
    ensures Nodes(a + b) == Nodes(a) + Nodes(b) && Nodes([n]) == {n}
  {
  }

  /** A side tree on its own: no node occurs twice. */
  lemma PieceApart<V>(pieces: seq<Piece<V>>, side: Side)
    requires pieces != [] && Ascending(Flat(pieces, side))
    ensures var others, p := pieces[..|pieces| - 1], pieces[|pieces| - 1];
            && p.node !in Nodes(Flat(others, side)) && p.node !in Nodes(Inorder(p.sub)) && Ascending(Flat(others, side))
            && Nodes(Flat(others, side)) !! Nodes(Inorder(p.sub))
            && Nodes(Flat(pieces, side)) == Nodes(Flat(others, side)) + Nodes(Inorder(p.sub)) + {p.node}
  {
    hide Ascending, Inorder, Nodes;
    var others, p := Flat(pieces[..|pieces| - 1], side), pieces[|pieces| - 1];
    NodesOf([], [], p.node);
    if side.Lesser? {
      Apart(others, Inorder(p.sub) + [p.node]);
      Apart(Inorder(p.sub), [p.node]);
    } else {
      Apart([p.node] + Inorder(p.sub), others);
      Apart([p.node], Inorder(p.sub));
    }
  }

  /** The same for a tree. */
  lemma TreeApart<V>(s: Shape<V>)
    requires s.Tree? && Ascending(Inorder(s))
    ensures s.node !in Nodes(Inorder(s.left)) && s.node !in Nodes(Inorder(s.right))
    ensures Nodes(Inorder(s.left)) !! Nodes(Inorder(s.right)) && Ascending(Inorder(s.left)) && Ascending(Inorder(s.right))
    ensures Nodes(Inorder(s)) == Nodes(Inorder(s.left)) + {s.node} + Nodes(Inorder(s.right))
  {
    hide Ascending, Nodes;
    NodesOf([], [], s.node);
    Apart(Inorder(s.left) + [s.node], Inorder(s.right));
    Apart(Inorder(s.left), [s.node]);
  }

  /** The same for the whole state. */
  lemma StateApart<V>(st: State<V>)
    requires Ascending(Flatten(st))
    ensures var l, c, g := Nodes(Flat(st.lesser, Lesser)), Nodes(Inorder(st.current)), Nodes(Flat(st.greater, Greater));
            && l !! c && l !! g && c !! g && Nodes(Flatten(st)) == l + c + g
            && Ascending(Flat(st.lesser, Lesser)) && Ascending(Inorder(st.current)) && Ascending(Flat(st.greater, Greater))
  {
    hide Ascending, Nodes, Flat, Inorder;
    Apart(Flat(st.lesser, Lesser) + Inorder(st.current), Flat(st.greater, Greater));
    Apart(Flat(st.lesser, Lesser), Inorder(st.current));
  }

  // ----- Steps in the heap -----

  /** Rotate right. */
  method RotateRight<V>(current: Node<V>, ghost s: Shape<V>) returns (tmp: Node<V>)
    requires Linked(s) && Ascending(Inorder(s)) && s.Tree? && s.node == current && s.left.Tree?
    modifies current, current.left
    ensures tmp == RotatedRight(s).node && Linked(RotatedRight(s))
  {
    hide Ascending, Nodes;
    TreeApart(s);
    TreeApart(s.left);
    tmp := current.left;
    current.left := tmp.right;
    tmp.right := current;
  }

  /** Rotate left. */
  method RotateLeft<V>(current: Node<V>, ghost s: Shape<V>) returns (tmp: Node<V>)
    requires Linked(s) && Ascending(Inorder(s)) && s.Tree? && s.node == current && s.right.Tree?
    modifies current, current.right
    ensures tmp == RotatedLeft(s).node && Linked(RotatedLeft(s))
  {
    hide Ascending, Nodes;
    TreeApart(s);
    TreeApart(s.right);
    tmp := current.right;
    current.right := tmp.left;
    tmp.left := current;
  }

  /** Put a child into the open place of a side tree. */
  method SetOuter<V>(last: Node<V>, child: Node?<V>, side: Side, ghost dummy: Node<V>, ghost pieces: seq<Piece<V>>)
    requires Spine(pieces, side) && Starts(dummy, pieces, side) && last == Last(dummy, pieces)
    requires Ascending(Flat(pieces, side)) && dummy !in Nodes(Flat(pieces, side))
    modifies last
    ensures Outer(last, side) == child && Inner(last, side) == old(Inner(last, side))
    ensures Spine(pieces, side) && Starts(dummy, pieces, side)
  {
    hide Ascending, Nodes, Inorder;
    if pieces != [] {
      PieceApart(pieces, side);
      if |pieces| > 1 { PieceApart(pieces[..|pieces| - 1], side); }
    }
    if side.Lesser? { last.right := child; } else { last.left := child; }
  }

  /** The whole state of the descent is in the heap. */
  ghost predicate InHeap<V>(dummy: Node<V>, st: State<V>)
    reads dummy, Nodes(Flatten(st))
  {
    && Spine(st.lesser, Lesser) && Starts(dummy, st.lesser, Lesser)
    && Spine(st.greater, Greater) && Starts(dummy, st.greater, Greater)
    && Linked(st.current) && st.current.Tree?
    && Ascending(Flatten(st)) && dummy !in Nodes(Flatten(st))
  }

  lemma SpineGrows<V>(dummy: Node<V>, pieces: seq<Piece<V>>, p: Piece<V>, side: Side)
    requires Spine(pieces, side) && Starts(dummy, pieces, side) && Outer(Last(dummy, pieces), side) == p.node
    requires Inner(p.node, side) == Root(p.sub) && Linked(p.sub)
    ensures Spine(pieces + [p], side) && Starts(dummy, pieces + [p], side)
  {
    hide Linked;
    assert (pieces + [p])[..|pieces|] == pieces;
  }

  function Linking<V>(st: State<V>, side: Side): State<V>
    requires st.current.Tree?
  {
    if side.Lesser? then State(st.lesser + [Piece(st.current.node, st.current.left)], st.current.right, st.greater)
    else State(st.lesser, st.current.left, st.greater + [Piece(st.current.node, st.current.right)])
  }

  lemma LinkingKeepsOrder<V>(st: State<V>, side: Side)
    requires st.current.Tree?
    ensures Flatten(Linking(st, side)) == Flatten(st)
  {
    FlattenLeft(st);
    FlattenRight(st);
  }

  lemma LastIsThere<V>(dummy: Node<V>, pieces: seq<Piece<V>>, side: Side)
    ensures Last(dummy, pieces) == dummy || Last(dummy, pieces) in Nodes(Flat(pieces, side))
  {
    if pieces != [] { LastIn(pieces, side); }
  }

  /** Link the current node to a side tree. */
  method LinkTo<V>(last: Node<V>, current: Node<V>, side: Side, ghost dummy: Node<V>, ghost st: State<V>)
    requires InHeap(dummy, st) && current == st.current.node && Linking(st, side).current.Tree?
    requires last == Last(dummy, if side.Lesser? then st.lesser else st.greater)
    modifies last
    ensures InHeap(dummy, Linking(st, side)) && Outer(current, side) == Linking(st, side).current.node
  {
    hide Ascending, Nodes, Inorder, Flatten, Flat;
    StateApart(st);
    LinkingKeepsOrder(st, side);
    TreeApart(st.current);
    LastIsThere(dummy, if side.Lesser? then st.lesser else st.greater, side);
    assert allocated(Nodes(Inorder(st.current.left))) && allocated(Nodes(Inorder(st.current.right)));
    assert allocated(Nodes(Flat(st.lesser, Lesser))) && allocated(Nodes(Flat(st.greater, Greater)));
    if side.Lesser? {
      SetOuter(last, current, Lesser, dummy, st.lesser);
      SpineGrows(dummy, st.lesser, Piece(current, st.current.left), Lesser);
    } else {
      SetOuter(last, current, Greater, dummy, st.greater);
      SpineGrows(dummy, st.greater, Piece(current, st.current.right), Greater);
    }
  }

  function Rotating<V>(st: State<V>, side: Side): State<V>
    requires st.current.Tree? && (if side.Lesser? then st.current.right.Tree? else st.current.left.Tree?)
  {
    st.(current := if side.Lesser? then RotatedLeft(st.current) else RotatedRight(st.current))
  }

  /** Rotate the current node down on its way to a side tree. */
  method RotateTo<V>(current: Node<V>, side: Side, ghost dummy: Node<V>, ghost st: State<V>) returns (tmp: Node<V>)
    requires InHeap(dummy, st) && current == st.current.node
    requires if side.Lesser? then st.current.right.Tree? else st.current.left.Tree?
    modifies Nodes(Inorder(st.current))
    ensures InHeap(dummy, Rotating(st, side)) && tmp == Rotating(st, side).current.node
    ensures Flatten(Rotating(st, side)) == Flatten(st)
  {
    hide Ascending, Nodes, Flatten, Flat;
    StateApart(st);
    RotationKeepsOrder(st.current);
    Rotated(st, side);
    TreeApart(st.current);
    if side.Lesser? { TreeApart(st.current.right); } else { TreeApart(st.current.left); }
    assert allocated(Nodes(Flat(st.lesser, Lesser))) && allocated(Nodes(Flat(st.greater, Greater)));
    if side.Lesser? { tmp := RotateLeft(current, st.current); } else { tmp := RotateRight(current, st.current); }
  }

  lemma Rotated<V>(st: State<V>, side: Side)
    requires st.current.Tree? && (if side.Lesser? then st.current.right.Tree? else st.current.left.Tree?)
    ensures Flatten(Rotating(st, side)) == Flatten(st)
  {
    RotationKeepsOrder(st.current);
  }

  lemma LinkedParts<V>(s: Shape<V>)
    requires s.Tree?
    ensures Linked(s) <==> s.node.left == Root(s.left) && s.node.right == Root(s.right) && Linked(s.left) && Linked(s.right)
  {
  }

  /** Put the side trees together under the current node. */
  method Finish<V>(left: Node<V>, right: Node<V>, current: Node<V>, dummy: Node<V>, ghost st: State<V>)
    requires InHeap(dummy, st) && current == st.current.node && left == Last(dummy, st.lesser) && right == Last(dummy, st.greater)
    modifies left, right, current, dummy
    ensures Linked(Whole(st))
  {
    hide Ascending, Nodes, Flatten, Flat, Inorder, Linked, Spine, Assemble;
    StateApart(st);
    TreeApart(st.current);
    LinkedParts(st.current);
    LastIsThere(dummy, st.lesser, Lesser);
    LastIsThere(dummy, st.greater, Greater);
    assert allocated(Nodes(Inorder(st.current.left))) && allocated(Nodes(Inorder(st.current.right)));
    assert allocated(Nodes(Flat(st.lesser, Lesser))) && allocated(Nodes(Flat(st.greater, Greater)));
    SetOuter(left, current.left, Lesser, dummy, st.lesser);
    SetOuter(right, current.right, Greater, dummy, st.greater);
    SpineAssembles(st.lesser, st.current.left, Lesser);
    SpineAssembles(st.greater, st.current.right, Greater);
    NoPieces(st);
    InorderOfWhole(st);
    TreeApart(Whole(st));
    current.left := dummy.right;
    current.right := dummy.left;
    LinkedParts(Whole(st));
  }

  lemma NoPieces<V>(st: State<V>)
    requires st.current.Tree?
    ensures st.lesser == [] ==> Assemble(st.lesser, st.current.left, Lesser) == st.current.left
    ensures st.greater == [] ==> Assemble(st.greater, st.current.right, Greater) == st.current.right
  {
  }

  // ----- The sorted map -----

  ghost predicate OneEach<V>(nodes: set<Node<V>>) {
    forall m, n :: m in nodes && n in nodes && m.key == n.key ==> m == n
  }

  ghost function EntriesOf<V>(nodes: set<Node<V>>): map<Key, V>
    requires OneEach(nodes)
  {
    map n | n in nodes :: n.key := n.value
  }

  lemma OneMoreEntry<V>(nodes: set<Node<V>>, n: Node<V>)
    requires OneEach(nodes) && forall m :: m in nodes ==> m.key != n.key
    ensures OneEach(nodes + {n}) && n.key !in EntriesOf(nodes)
    ensures EntriesOf(nodes + {n}) == EntriesOf(nodes)[n.key := n.value]
    ensures EntriesOf(nodes) == EntriesOf(nodes + {n}) - {n.key}
  {
    var before, after := EntriesOf(nodes), EntriesOf(nodes + {n});
    forall k | k in before ensures k in after && before[k] == after[k] {
      var m :| m in nodes && m.key == k;
      assert m in nodes + {n};
    }
    assert n in nodes + {n};
  }

  lemma AscendingOneEach<V>(order: seq<Node<V>>)
    requires Ascending(order)
    ensures OneEach(Nodes(order))
  {
  }

  /** The map that the nodes stand for. */
  ghost function Entries<V>(order: seq<Node<V>>): map<Key, V>
    requires Ascending(order)
  {
    AscendingOneEach(order);
    EntriesOf(Nodes(order))
  }

  /** A node between those with smaller keys and those with greater keys. */
  lemma EntryBetween<V>(a: seq<Node<V>>, n: Node<V>, b: seq<Node<V>>)
    requires Ascending(a + b) && AllLess(a, n.key) && AllGreater(b, n.key)
    ensures Ascending(a + [n] + b) && n.key !in Entries(a + b)
    ensures Entries(a + [n] + b) == Entries(a + b)[n.key := n.value]
    ensures Entries(a + b) == Entries(a + [n] + b) - {n.key}
  {
    hide Ascending, EntriesOf, OneEach;
    StaysAscending(a, n, b);
    assert Nodes(a + [n] + b) == Nodes(a + b) + {n};
    AscendingOneEach(a + b);
    OneMoreEntry(Nodes(a + b), n);
  }

  lemma StaysAscending<V>(a: seq<Node<V>>, n: Node<V>, b: seq<Node<V>>)
    requires Ascending(a + b) && AllLess(a, n.key) && AllGreater(b, n.key)
    ensures Ascending(a + [n] + b)
  {
    AscendingParts(a, b);
  }

  class SplayTree<V> {
    var root: Node?<V>
    ghost var shape: Shape<V>

    ghost function Order(): seq<Node<V>>
      reads this
    {
      Inorder(shape)
    }

    /** A search tree in the heap. */
    ghost predicate Valid()
      reads this, Nodes(Order())
    {
      root == Root(shape) && Linked(shape) && Ascending(Order())
    }

    constructor ()
      ensures Valid() && Order() == []
    {
      root, shape := null, Leaf;
    }

    /** splay_: the tree becomes exactly what splaying makes of it. */
    method SplayOn(key: Key)
      requires Valid()
      modifies this, Nodes(Order())
      ensures Valid() && shape == Splay(old(shape), key) && Order() == old(Order())
      ensures shape.Tree? == old(shape.Tree?)
      ensures shape.Tree? ==> AllLess(Inorder(shape.left), key) && AllGreater(Inorder(shape.right), key)
    {
      hide Ascending, Nodes, Flat, Linked, Inorder, InHeap, Flatten, Descend;
      ghost var s := shape;
      assert Order() == Inorder(s) && allocated(Nodes(Inorder(s)));
      if root == null { return; }
      SplayIsRight(s, key);
      // The dummy's key and value are never looked at.
      var dummy := new Node(root.key, root.value);
      DescentStarts(dummy, s);
      var left, right, current;
      ghost var st;
      left, right, current, st := DescendTo(root, key, dummy, s);
      CurrentIs(dummy, st);
      Finish(left, right, current, dummy, st);
      shape := Whole(st);
      root := current;
    }

    ghost function Map(): map<Key, V>
      reads this, Nodes(Order())
      requires Valid()
    {
      Entries(Order())
    }

    /** insert: a new key gets a node, which becomes the root. A key that is there keeps its value. */
    method Insert(key: Key, value: V)
      requires Valid()
      modifies this, Nodes(Order())
      ensures Valid() && fresh(Nodes(Order()) - old(Nodes(Order())))
      ensures Map() == if key in old(Map()) then old(Map()) else old(Map())[key := value]
      ensures key !in old(Map()) ==> root != null && root.key == key && root.value == value && fresh(root)
    {
      hide Ascending, Linked, Inorder, Splay, Entries, Nodes;
      if root == null {
        root := new Node(key, value);
        shape := Tree(root, Leaf, Leaf);
        OneNode(root);
        LinkedParts(shape);
        return;
      }
      SplayOn(key);
      ghost var t := shape;
      RootOrAbsent(t, key);
      if root.key == key { return; }
      TreeApart(t);
      LinkedParts(t);
      assert allocated(Nodes(Inorder(t.left))) && allocated(Nodes(Inorder(t.right)));
      var node := new Node(key, value);
      InsertAt(t, node);
      if key > root.key {
        node.left := root;
        node.right := root.right;
        root.right := null;
      } else {
        node.right := root;
        node.left := root.left;
        root.left := null;
      }
      root := node;
      shape := Inserted(t, node);
      LinkedInserted(t, node);
    }

    /** remove. Null stands for the exception that the source throws for a missing key. */
    method Remove(key: Key) returns (removed: Node?<V>)
      requires Valid()
      modifies this, Nodes(Order())
      ensures Valid() && Nodes(Order()) <= old(Nodes(Order()))
      ensures removed == null <==> key !in old(Map())
      ensures removed != null ==> removed.key == key && removed.value == old(Map())[key]
      ensures Map() == old(Map()) - {key}
    {
      hide Ascending, Linked, Inorder, Splay, Entries, Nodes;
      if root == null {
        OneNodeLess<V>();
        return null;
      }
      SplayOn(key);
      ghost var t := shape;
      RootOrAbsent(t, key);
      if root.key != key { return null; }
      removed := root;
      TreeApart(t);
      LinkedParts(t);
      RemoveAt(t, key);
      assert allocated(Nodes(Inorder(t.left))) && allocated(Nodes(Inorder(t.right)));
      if root.left == null {
        root, shape := root.right, t.right;
        NothingBefore(t);
      } else {
        var right := root.right;
        root, shape := root.left, t.left;
        SplayOn(key);
        ghost var l := shape;
        NoneGreater(l, key);
        LinkedParts(l);
        TreeApart(l);
        assert allocated(Nodes(Inorder(l.left)));
        root.right := right;
        shape := Tree(l.node, l.left, t.right);
        LinkedParts(shape);
        JoinedOrder(l, t.right);
      }
    }

    /** find. */
    method Find(key: Key) returns (found: Node?<V>)
      requires Valid()
      modifies this, Nodes(Order())
      ensures Valid() && Order() == old(Order()) && Map() == old(Map())
      ensures found == null <==> key !in Map()
      ensures found != null ==> found == root && found.key == key && found.value == Map()[key]
    {
      hide Ascending, Linked, Inorder, Splay, Entries, Nodes;
      OneNodeLess<V>();
      if root == null { return null; }
      SplayOn(key);
      RootOrAbsent(shape, key);
      found := if root.key == key then root else null;
    }

    /** findMax, of the whole tree or of the subtree sub that starts at a node. */
    method FindMax(startNode: Node?<V>, ghost sub: Shape<V>) returns (max: Node?<V>)
      requires Valid() && (if startNode == null then sub == shape else Linked(sub) && startNode == Root(sub))
      ensures root == null ==> max == null
      ensures root != null ==> Inorder(sub) != [] && max == Inorder(sub)[|Inorder(sub)| - 1]
    {
      if root == null { return null; }
      var current: Node<V> := if startNode != null then startNode else root;
      ghost var s := sub;
      while current.right != null
        invariant Linked(s) && current == Root(s)
        invariant Inorder(sub)[|Inorder(sub)| - 1] == Inorder(s)[|Inorder(s)| - 1]
        decreases s
      {
        s := s.right;
        current := current.right;
      }
      max := current;
    }

    /** findGreatestLessThan. */
    method FindGreatestLessThan(key: Key) returns (greatest: Node?<V>)
      requires Valid()
      modifies this, Nodes(Order())
      ensures Valid() && Order() == old(Order()) && Map() == old(Map())
      ensures greatest == null <==> forall k :: k in Map() ==> k >= key
      ensures greatest != null ==> greatest.key in Map() && greatest.key < key && greatest.value == Map()[greatest.key]
                                   && forall k :: k in Map() && k < key ==> k <= greatest.key
    {
      hide Ascending, Linked, Inorder, Splay, Entries, Nodes;
      OneNodeLess<V>();
      if root == null { return null; }
      SplayOn(key);
      ghost var i := GreatestAt(shape, key);
      GreatestIs(Order(), i, key);
      LinkedParts(shape);
      if root.key < key {
        greatest := root;
      } else if root.left != null {
        assert allocated(Nodes(Order()));
        greatest := FindMax(root.left, shape.left);
      } else {
        greatest := null;
      }
      assert Map() == Entries(Order());
      assert greatest != null ==> greatest == Order()[i];
    }

    /** exportKeys: all keys in ascending order. */
    method ExportKeys() returns (keys: seq<Key>)
      requires Valid()
      ensures keys == KeysOf(Order())
    {
      keys := [];
      if root != null { keys := Traverse(root, shape, keys); }
    }
  }

  function KeysOf<V>(order: seq<Node<V>>): (keys: seq<Key>)
    ensures |keys| == |order|
  {
    seq(|order|, i requires 0 <= i < |order| => order[i].key)
  }

  /** The exported keys pass the checks of SplayTearDown: they ascend, and there are as many as the map has. */
  lemma KeysAreSorted<V>(order: seq<Node<V>>)
    requires Ascending(order)
    ensures forall i :: 0 <= i < |order| - 1 ==> KeysOf(order)[i] < KeysOf(order)[i + 1]
    ensures forall k :: k in KeysOf(order) <==> k in Entries(order)
    ensures |KeysOf(order)| == |Entries(order)|
  {
    hide Ascending, Entries;
    EntriesCounted(order);
    AscendingNeighbours(order);
    KeysAreThere(order);
  }

  lemma AscendingNeighbours<V>(order: seq<Node<V>>)
    requires Ascending(order)
    ensures forall i :: 0 <= i < |order| - 1 ==> order[i].key < order[i + 1].key
  {
  }

  lemma KeysAreThere<V>(order: seq<Node<V>>)
    requires Ascending(order)
    ensures forall k :: k in KeysOf(order) <==> k in Entries(order)
  {
    forall k | k in Entries(order) ensures k in KeysOf(order) {
      var n :| n in Nodes(order) && n.key == k;
      var i :| 0 <= i < |order| && order[i] == n;
      assert KeysOf(order)[i] == k;
    }
    forall k | k in KeysOf(order) ensures k in Entries(order) {
      var i :| 0 <= i < |order| && order[i].key == k;
      assert order[i] in Nodes(order);
    }
  }

  lemma {:induction false} EntriesCounted<V>(order: seq<Node<V>>)
    requires Ascending(order)
    ensures |Entries(order)| == |order|
  {
    hide Ascending, Entries;
    if order == [] {
      OneNodeLess<V>();
    } else {
      var front, n := order[..|order| - 1], order[|order| - 1];
      assert order == front + [n] && front == front + [];
      AscendingParts(front, [n]);
      EntriesCounted(front);
      EntryBetween(front, n, []);
      assert front + [n] + [] == order;
      assert |Entries(front)[n.key := n.value]| == |Entries(front)| + 1;
    }
  }

  /** traverse_, with the function that appends a node's key. */
  method Traverse<V>(start: Node<V>, ghost s: Shape<V>, result: seq<Key>) returns (keys: seq<Key>)
    requires Linked(s) && start == Root(s)
    ensures keys == result + KeysOf(Inorder(s))
    decreases |Inorder(s)|
  {
    hide KeysOf;
    keys := result;
    var current: Node?<V> := start;
    ghost var rest := s;
    while current != null
      invariant Linked(rest) && current == Root(rest) && |Inorder(rest)| <= |Inorder(s)|
      invariant keys + KeysOf(Inorder(rest)) == result + KeysOf(Inorder(s))
      decreases |Inorder(rest)|
    {
      TraverseOne(keys, rest);
      assert allocated(Nodes(Inorder(rest.right)));
      var left := current.left;
      if left != null { keys := Traverse(left, rest.left, keys); }
      keys := keys + [current.key];
      current := current.right;
      rest := rest.right;
    }
  }

  lemma TraverseOne<V>(keys: seq<Key>, s: Shape<V>)
    requires s.Tree?
    ensures keys + KeysOf(Inorder(s)) == keys + KeysOf(Inorder(s.left)) + [s.node.key] + KeysOf(Inorder(s.right))
    ensures s.left.Leaf? ==> KeysOf(Inorder(s.left)) == []
  {
    hide KeysOf, Inorder;
    var l, r := Inorder(s.left), Inorder(s.right);
    InorderOf(s);
    KeysOfSum(l + [s.node], r);
    KeysOfSum(l, [s.node]);
    KeysOfNode(s.node);
    assert keys + (KeysOf(l) + [s.node.key] + KeysOf(r)) == keys + KeysOf(l) + [s.node.key] + KeysOf(r);
  }

  lemma InorderOf<V>(s: Shape<V>)
    requires s.Tree?
    ensures Inorder(s) == Inorder(s.left) + [s.node] + Inorder(s.right) && (s.left.Leaf? ==> Inorder(s.left) == [])
  {
  }

  lemma KeysOfSum<V>(a: seq<Node<V>>, b: seq<Node<V>>)
    ensures KeysOf(a + b) == KeysOf(a) + KeysOf(b)
  {
  }

  lemma KeysOfNode<V>(n: Node<V>)
    ensures KeysOf([n]) == [n.key] && KeysOf<V>([]) == []
  {
  }

  lemma OneNodeLess<V>()
    ensures Inorder<V>(Leaf) == [] && Ascending<V>([]) && Entries<V>([]) == map[]
  {
  }

  lemma NothingBefore<V>(t: Shape<V>)
    requires t.Tree? && t.left.Leaf?
    ensures Inorder(t.left) + Inorder(t.right) == Inorder(t.right)
  {
  }

  /** Nothing is right of the root when the key is greater than all. */
  lemma NoneGreater<V>(l: Shape<V>, key: Key)
    requires l.Tree? && AllLess(Inorder(l), key) && AllGreater(Inorder(l.right), key)
    ensures l.right.Leaf?
  {
    if l.right.Tree? { MembersOf(l, key); }
  }

  lemma MembersOf<V>(l: Shape<V>, key: Key)
    requires l.Tree? && l.right.Tree? && AllLess(Inorder(l), key)
    ensures l.right.node in Inorder(l.right) && l.right.node.key < key
  {
    assert l.right.node in Inorder(l.right);
    assert l.right.node in Inorder(l);
  }

  lemma JoinedOrder<V>(l: Shape<V>, right: Shape<V>)
    requires l.Tree? && l.right.Leaf?
    ensures Inorder(Tree(l.node, l.left, right)) == Inorder(l) + Inorder(right)
  {
  }

  /** Without the root the order, and so the map, has lost the key. */
  lemma RemoveAt<V>(t: Shape<V>, key: Key)
    requires t.Tree? && Ascending(Inorder(t)) && t.node.key == key
    ensures AllLess(Inorder(t.left), key)
    ensures Ascending(Inorder(t.left) + Inorder(t.right))
    ensures Entries(Inorder(t.left) + Inorder(t.right)) == Entries(Inorder(t)) - {key}
    ensures Nodes(Inorder(t.left) + Inorder(t.right)) == Nodes(Inorder(t)) - {t.node}
  {
    hide Ascending, Entries, Nodes;
    TreeParts(t);
    TreeApart(t);
    WithoutRoot(t);
    EntryBetween(Inorder(t.left), t.node, Inorder(t.right));
    NodesOf(Inorder(t.left), Inorder(t.right), t.node);
  }

  lemma WithoutRoot<V>(t: Shape<V>)
    requires t.Tree? && Ascending(Inorder(t))
    ensures Ascending(Inorder(t.left) + Inorder(t.right))
  {
    TreeParts(t);
  }

  /** The greatest of the smaller keys is the last one in front of the greater keys. */
  lemma GreatestIs<V>(order: seq<Node<V>>, i: int, key: Key)
    requires Ascending(order) && -1 <= i < |order|
    requires i >= 0 ==> order[i].key < key
    requires i + 1 < |order| ==> order[i + 1].key >= key
    ensures i < 0 ==> forall k :: k in Entries(order) ==> k >= key
    ensures i >= 0 ==> order[i].key in Entries(order) && Entries(order)[order[i].key] == order[i].value
    ensures i >= 0 ==> forall k :: k in Entries(order) && k < key ==> k <= order[i].key
  {
    forall k | k in Entries(order) ensures k >= key || (i >= 0 && k <= order[i].key) {
      var n :| n in Nodes(order) && n.key == k;
      var j :| 0 <= j < |order| && order[j] == n;
    }
    if i >= 0 { assert order[i] in Nodes(order); }
  }

  /** How far the smaller keys reach after splaying. */
  lemma GreatestAt<V>(t: Shape<V>, key: Key) returns (i: int)
    requires t.Tree? && Ascending(Inorder(t)) && AllLess(Inorder(t.left), key) && AllGreater(Inorder(t.right), key)
    ensures -1 <= i < |Inorder(t)|
    ensures i >= 0 ==> Inorder(t)[i].key < key
    ensures i + 1 < |Inorder(t)| ==> Inorder(t)[i + 1].key >= key
    ensures t.node.key < key ==> i >= 0 && Inorder(t)[i] == t.node
    ensures t.node.key >= key && t.left.Tree? ==> i >= 0 && Inorder(t)[i] == Inorder(t.left)[|Inorder(t.left)| - 1]
    ensures t.node.key >= key && t.left.Leaf? ==> i == -1
  {
    var n := |Inorder(t.left)|;
    assert Inorder(t) == Inorder(t.left) + ([t.node] + Inorder(t.right));
    i := if t.node.key < key then n else n - 1;
  }

  function Inserted<V>(t: Shape<V>, node: Node<V>): Shape<V>
    requires t.Tree?
  {
    if node.key > t.node.key then Tree(node, Tree(t.node, t.left, Leaf), t.right) else Tree(node, t.left, Tree(t.node, Leaf, t.right))
  }

  lemma LinkedInserted<V>(t: Shape<V>, node: Node<V>)
    requires t.Tree? && Linked(t.left) && Linked(t.right)
    requires if node.key > t.node.key
             then node.left == t.node && t.node.left == Root(t.left) && t.node.right == null && node.right == Root(t.right)
             else node.right == t.node && t.node.left == null && t.node.right == Root(t.right) && node.left == Root(t.left)
    ensures Linked(Inserted(t, node))
  {
  }

  lemma OneNode<V>(n: Node<V>)
    ensures Inorder(Tree(n, Leaf, Leaf)) == [n] && Nodes([n]) == {n} && Ascending([n]) && Ascending<V>([])
    ensures Entries<V>([]) == map[] && Entries([n]) == map[n.key := n.value] && Inorder<V>(Leaf) == []
    ensures Linked<V>(Leaf)
  {
  }

  /** After splaying, the key is at the root or nowhere. */
  lemma RootOrAbsent<V>(t: Shape<V>, key: Key)
    requires t.Tree? && Ascending(Inorder(t)) && AllLess(Inorder(t.left), key) && AllGreater(Inorder(t.right), key)
    ensures key in Entries(Inorder(t)) <==> t.node.key == key
    ensures t.node.key == key ==> Entries(Inorder(t))[key] == t.node.value
  {
    hide Ascending;
    assert t.node in Nodes(Inorder(t));
  }

  lemma OrderOfInserted<V>(t: Shape<V>, node: Node<V>)
    requires t.Tree?
    ensures var l, m, g := Inorder(t.left), t.node, Inorder(t.right);
            var a, b := if node.key > m.key then l + [m] else l, if node.key > m.key then g else [m] + g;
            Inorder(t) == a + b && Inorder(Inserted(t, node)) == a + [node] + b
  {
    var l, m, g := Inorder(t.left), [t.node], Inorder(t.right);
    OneNodeLess<V>();
    NothingAdded(l + m);
    NothingAdded(m + g);
    Sum(l, m, g);
    Sum([], m, g);
  }

  lemma NothingAdded<T>(a: seq<T>)
    ensures a + [] == a && [] + a == a
  {
  }

  lemma Sum<T>(a: seq<T>, b: seq<T>, c: seq<T>)
    ensures (a + b) + c == a + (b + c)
  {
  }

  /** Where the new node comes in the order, and so in the map. */
  lemma InsertAt<V>(t: Shape<V>, node: Node<V>)
    requires t.Tree? && Ascending(Inorder(t)) && AllLess(Inorder(t.left), node.key) && AllGreater(Inorder(t.right), node.key)
    requires t.node.key != node.key
    ensures Ascending(Inorder(Inserted(t, node)))
    ensures Entries(Inorder(Inserted(t, node))) == Entries(Inorder(t))[node.key := node.value]
    ensures Nodes(Inorder(Inserted(t, node))) == Nodes(Inorder(t)) + {node}
  {
    hide Ascending, Entries, Nodes;
    var l, m, g := Inorder(t.left), t.node, Inorder(t.right);
    TreeParts(t);
    var a, b := if node.key > m.key then l + [m] else l, if node.key > m.key then g else [m] + g;
    OrderOfInserted(t, node);
    EntryBetween(a, node, b);
    NodesOf(a, b, node);
    NodesOf(a, [node], node);
    NodesOf(a + [node], b, node);
  }

  /** The loop of splay_. */
  method DescendTo<V>(root: Node<V>, key: Key, dummy: Node<V>, ghost s: Shape<V>)
    returns (left: Node<V>, right: Node<V>, current: Node<V>, ghost st: State<V>)
    requires s.Tree? && root == s.node && InHeap(dummy, State([], s, []))
    modifies dummy, Nodes(Flatten(State([], s, [])))
    ensures st == Descend(State([], s, []), key) && Flatten(st) == Flatten(State([], s, []))
    ensures InHeap(dummy, st) && current == st.current.node && left == Last(dummy, st.lesser) && right == Last(dummy, st.greater)
  {
    hide Ascending, Nodes, Flat, Linked, Inorder, InHeap, Flatten, Descend;
    left, right, current, st := dummy, dummy, root, State([], s, []);
    while true
      invariant InHeap(dummy, st) && st.current.Tree? && current == st.current.node
      invariant left == Last(dummy, st.lesser) && right == Last(dummy, st.greater)
      invariant Flatten(st) == Flatten(State([], s, [])) && Descend(st, key) == Descend(State([], s, []), key)
      decreases st.current
    {
      CurrentIs(dummy, st);
      DescendStep(st, key);
      if key < current.key {
        if current.left == null { break; }
        if key < current.left.key {
          current := RotateTo(current, Greater, dummy, st);
          st := Rotating(st, Greater);
          CurrentIs(dummy, st);
          if current.left == null { break; }
        }
        LinkingKeepsOrder(st, Greater);
        LinkTo(right, current, Greater, dummy, st);
        st := Linking(st, Greater);
        right := current;
        current := current.left;
      } else if key > current.key {
        if current.right == null { break; }
        if key > current.right.key {
          current := RotateTo(current, Lesser, dummy, st);
          st := Rotating(st, Lesser);
          CurrentIs(dummy, st);
          if current.right == null { break; }
        }
        LinkingKeepsOrder(st, Lesser);
        LinkTo(left, current, Lesser, dummy, st);
        st := Linking(st, Lesser);
        left := current;
        current := current.right;
      } else {
        break;
      }
    }
  }

  /** One turn of the loop. */
  lemma DescendStep<V>(st: State<V>, key: Key)
    requires st.current.Tree?
    ensures var s := st.current;
            if key < s.node.key && s.left.Tree? then
              var r := if key < s.left.node.key then Rotating(st, Greater) else st;
              Descend(st, key) == if r.current.left.Leaf? then r else Descend(Linking(r, Greater), key)
            else if key > s.node.key && s.right.Tree? then
              var r := if key > s.right.node.key then Rotating(st, Lesser) else st;
              Descend(st, key) == if r.current.right.Leaf? then r else Descend(Linking(r, Lesser), key)
            else Descend(st, key) == st
  {
  }

  lemma DescentStarts<V>(dummy: Node<V>, s: Shape<V>)
    requires s.Tree? && Linked(s) && Ascending(Inorder(s)) && dummy !in Nodes(Inorder(s))
    ensures InHeap(dummy, State([], s, [])) && Flatten(State([], s, [])) == Inorder(s)
  {
    assert Flatten(State([], s, [])) == Inorder(s);
  }

  lemma CurrentIs<V>(dummy: Node<V>, st: State<V>)
    requires InHeap(dummy, st)
    ensures st.current.node.left == Root(st.current.left) && st.current.node.right == Root(st.current.right)
    ensures Nodes(Inorder(st.current)) <= Nodes(Flatten(st)) && st.current.node in Nodes(Flatten(st))
    ensures Last(dummy, st.lesser) == dummy || Last(dummy, st.lesser) in Nodes(Flatten(st))
    ensures Last(dummy, st.greater) == dummy || Last(dummy, st.greater) in Nodes(Flatten(st))
  {
    hide Flat, Flatten, Nodes;
    StateApart(st);
    TreeApart(st.current);
    LastIsThere(dummy, st.lesser, Lesser);
    LastIsThere(dummy, st.greater, Greater);
  }
}
