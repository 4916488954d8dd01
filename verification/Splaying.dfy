/** Top-down splaying on trees as values, and how such a tree lies in the heap. */
module Splaying {

  type Key = real

  class Node<V> {
    const key: Key
    const value: V
    var left: Node?<V>
    var right: Node?<V>

    constructor (key: Key, value: V)
      ensures this.key == key && this.value == value && left == null && right == null
    {
      this.key, this.value, left, right := key, value, null, null;
    }
  }

  datatype Shape<!V> = Leaf | Tree(node: Node<V>, left: Shape<V>, right: Shape<V>)

  function Root<V>(s: Shape<V>): Node?<V> {
    if s.Leaf? then null else s.node
  }

  function Inorder<V>(s: Shape<V>): seq<Node<V>> {
    if s.Leaf? then [] else Inorder(s.left) + [s.node] + Inorder(s.right)
  }

  ghost predicate Ascending<V>(order: seq<Node<V>>) {
    forall i, j :: 0 <= i < j < |order| ==> order[i].key < order[j].key
  }

  ghost predicate AllLess<V>(order: seq<Node<V>>, key: Key) {
    forall i :: 0 <= i < |order| ==> order[i].key < key
  }

  ghost predicate AllGreater<V>(order: seq<Node<V>>, key: Key) {
    forall i :: 0 <= i < |order| ==> order[i].key > key
  }

  // ----- The two side trees -----

  datatype Side = Lesser | Greater

  /** A node of a side tree with its finished subtree. Its other child is the next piece. */
  datatype Piece<!V> = Piece(node: Node<V>, sub: Shape<V>)

  function Join<V>(p: Piece<V>, t: Shape<V>, side: Side): Shape<V> {
    if side.Lesser? then Tree(p.node, p.sub, t) else Tree(p.node, t, p.sub)
  }

  /** A side tree with t in the open place at its end. */
  function Assemble<V>(pieces: seq<Piece<V>>, t: Shape<V>, side: Side): Shape<V> {
    if pieces == [] then t
    else Assemble(pieces[..|pieces| - 1], Join(pieces[|pieces| - 1], t, side), side)
  }

  function Flat<V>(pieces: seq<Piece<V>>, side: Side): seq<Node<V>> {
    if pieces == [] then []
    else
      var others, p := Flat(pieces[..|pieces| - 1], side), pieces[|pieces| - 1];
      if side.Lesser? then others + (Inorder(p.sub) + [p.node]) else ([p.node] + Inorder(p.sub)) + others
  }

  lemma {:induction false} InorderOfAssemble<V>(pieces: seq<Piece<V>>, t: Shape<V>, side: Side)
    ensures Inorder(Assemble(pieces, t, side)) == if side.Lesser? then Flat(pieces, side) + Inorder(t) else Inorder(t) + Flat(pieces, side)
    decreases |pieces|
  {
    hide Inorder;
    if pieces != [] {
      var others, p := pieces[..|pieces| - 1], pieces[|pieces| - 1];
      InorderOfAssemble(others, Join(p, t, side), side);
      InorderOfJoin(p, t, side, Flat(others, side));
    }
  }

  lemma InorderOfJoin<V>(p: Piece<V>, t: Shape<V>, side: Side, others: seq<Node<V>>)
    ensures side.Lesser? ==> others + Inorder(Join(p, t, side)) == others + (Inorder(p.sub) + [p.node]) + Inorder(t)
    ensures side.Greater? ==> Inorder(Join(p, t, side)) + others == Inorder(t) + (([p.node] + Inorder(p.sub)) + others)
  {
  }

  // ----- Splaying -----

  datatype State<!V> = State(lesser: seq<Piece<V>>, current: Shape<V>, greater: seq<Piece<V>>)

  function Flatten<V>(st: State<V>): seq<Node<V>> {
    Flat(st.lesser, Lesser) + Inorder(st.current) + Flat(st.greater, Greater)
  }

  function RotatedRight<V>(s: Shape<V>): Shape<V>
    requires s.Tree? && s.left.Tree?
  {
    Tree(s.left.node, s.left.left, Tree(s.node, s.left.right, s.right))
  }

  function RotatedLeft<V>(s: Shape<V>): Shape<V>
    requires s.Tree? && s.right.Tree?
  {
    Tree(s.right.node, Tree(s.node, s.left, s.right.left), s.right.right)
  }

  /** Two steps in the same direction rotate first. Then the current node is linked to a side tree. */
  function Descend<V>(st: State<V>, key: Key): (end: State<V>)
    ensures st.current.Tree? ==> end.current.Tree?
    decreases st.current
  {
    var s := st.current;
    if s.Leaf? then st
    else if key < s.node.key then
      if s.left.Leaf? then st
      else
        var t := if key < s.left.node.key then RotatedRight(s) else s;
        if t.left.Leaf? then st.(current := t)
        else Descend(State(st.lesser, t.left, st.greater + [Piece(t.node, t.right)]), key)
    else if key > s.node.key then
      if s.right.Leaf? then st
      else
        var t := if key > s.right.node.key then RotatedLeft(s) else s;
        if t.right.Leaf? then st.(current := t)
        else Descend(State(st.lesser + [Piece(t.node, t.left)], t.right, st.greater), key)
    else st
  }

  function Whole<V>(st: State<V>): Shape<V>
    requires st.current.Tree?
  {
    Tree(st.current.node, Assemble(st.lesser, st.current.left, Lesser), Assemble(st.greater, st.current.right, Greater))
  }

  function Splay<V>(s: Shape<V>, key: Key): Shape<V> {
    if s.Leaf? then s else Whole(Descend(State([], s, []), key))
  }

  lemma FlattenRight<V>(st: State<V>)
    requires st.current.Tree?
    ensures Flatten(State(st.lesser, st.current.left, st.greater + [Piece(st.current.node, st.current.right)])) == Flatten(st)
  {
    var s := st.current;
    var pieces := st.greater + [Piece(s.node, s.right)];
    assert pieces[..|pieces| - 1] == st.greater;
    assert Flat(pieces, Greater) == [s.node] + Inorder(s.right) + Flat(st.greater, Greater);
  }

  lemma FlattenLeft<V>(st: State<V>)
    requires st.current.Tree?
    ensures Flatten(State(st.lesser + [Piece(st.current.node, st.current.left)], st.current.right, st.greater)) == Flatten(st)
  {
    var s := st.current;
    var pieces := st.lesser + [Piece(s.node, s.left)];
    assert pieces[..|pieces| - 1] == st.lesser;
    assert Flat(pieces, Lesser) == Flat(st.lesser, Lesser) + (Inorder(s.left) + [s.node]);
  }

  /** What stands on the two sides of the way down. */
  ghost predicate Bounded<V>(st: State<V>, key: Key) {
    Ascending(Flatten(st)) && AllLess(Flat(st.lesser, Lesser), key) && AllGreater(Flat(st.greater, Greater), key)
  }

  /** Where the descent ends, the key itself is at the root or there is nothing between it and the root. */
  ghost predicate Ended<V>(st: State<V>, key: Key) {
    && Bounded(st, key) && st.current.Tree?
    && AllLess(Inorder(st.current.left), key) && AllGreater(Inorder(st.current.right), key)
  }

  lemma AscendingParts<V>(a: seq<Node<V>>, b: seq<Node<V>>)
    requires Ascending(a + b)
    ensures Ascending(a) && Ascending(b)
    ensures forall i, j :: 0 <= i < |a| && 0 <= j < |b| ==> a[i].key < b[j].key
  {
    var ab := a + b;
    forall i, j | 0 <= i < j < |a| ensures a[i].key < a[j].key { assert ab[i] == a[i] && ab[j] == a[j]; }
    forall i, j | 0 <= i < j < |b| ensures b[i].key < b[j].key { assert ab[|a| + i] == b[i] && ab[|a| + j] == b[j]; }
    forall i, j | 0 <= i < |a| && 0 <= j < |b| ensures a[i].key < b[j].key { assert ab[i] == a[i] && ab[|a| + j] == b[j]; }
  }

  /** The keys of a tree: smaller on the left, greater on the right. */
  lemma TreeParts<V>(s: Shape<V>)
    requires s.Tree? && Ascending(Inorder(s))
    ensures AllLess(Inorder(s.left), s.node.key) && AllGreater(Inorder(s.right), s.node.key)
    ensures Ascending(Inorder(s.left)) && Ascending(Inorder(s.right))
  {
    AscendingParts(Inorder(s.left) + [s.node], Inorder(s.right));
    AscendingParts(Inorder(s.left), [s.node]);
    assert (Inorder(s.left) + [s.node])[|Inorder(s.left)|] == s.node;
  }

  lemma CurrentAscends<V>(st: State<V>)
    requires Ascending(Flatten(st))
    ensures Ascending(Inorder(st.current))
  {
    AscendingParts(Flat(st.lesser, Lesser) + Inorder(st.current), Flat(st.greater, Greater));
    AscendingParts(Flat(st.lesser, Lesser), Inorder(st.current));
  }

  lemma RotationKeepsOrder<V>(s: Shape<V>)
    requires s.Tree?
    ensures s.left.Tree? ==> Inorder(RotatedRight(s)) == Inorder(s)
    ensures s.right.Tree? ==> Inorder(RotatedLeft(s)) == Inorder(s)
  {
    if s.left.Tree? { Regroup(Inorder(s.left.left), s.left.node, Inorder(s.left.right), s.node, Inorder(s.right)); }
    if s.right.Tree? { Regroup(Inorder(s.left), s.node, Inorder(s.right.left), s.right.node, Inorder(s.right.right)); }
  }

  lemma Regroup<T>(a: seq<T>, x: T, b: seq<T>, y: T, c: seq<T>)
    ensures (a + [x] + b) + [y] + c == a + [x] + (b + [y] + c)
  {
  }

  lemma LinkRight<V>(st: State<V>, key: Key)
    requires Bounded(st, key) && st.current.Tree? && key < st.current.node.key
    ensures Bounded(State(st.lesser, st.current.left, st.greater + [Piece(st.current.node, st.current.right)]), key)
  {
    hide Ascending, Inorder;
    var s := st.current;
    FlattenRight(st);
    CurrentAscends(st);
    TreeParts(s);
    var pieces := st.greater + [Piece(s.node, s.right)];
    assert pieces[..|pieces| - 1] == st.greater;
    assert Flat(pieces, Greater) == [s.node] + Inorder(s.right) + Flat(st.greater, Greater);
  }

  lemma LinkLeft<V>(st: State<V>, key: Key)
    requires Bounded(st, key) && st.current.Tree? && key > st.current.node.key
    ensures Bounded(State(st.lesser + [Piece(st.current.node, st.current.left)], st.current.right, st.greater), key)
  {
    hide Ascending, Inorder;
    var s := st.current;
    FlattenLeft(st);
    CurrentAscends(st);
    TreeParts(s);
    var pieces := st.lesser + [Piece(s.node, s.left)];
    assert pieces[..|pieces| - 1] == st.lesser;
    assert Flat(pieces, Lesser) == Flat(st.lesser, Lesser) + (Inorder(s.left) + [s.node]);
  }

  lemma Rotate<V>(st: State<V>, t: Shape<V>, key: Key)
    requires Bounded(st, key) && Inorder(t) == Inorder(st.current)
    ensures Bounded(st.(current := t), key) && Flatten(st.(current := t)) == Flatten(st)
  {
  }

  lemma EndsHere<V>(st: State<V>, key: Key)
    requires Bounded(st, key) && st.current.Tree?
    requires st.current.node.key == key || (key < st.current.node.key && st.current.left.Leaf?)
             || (key > st.current.node.key && st.current.right.Leaf?)
    ensures Ended(st, key)
  {
    CurrentAscends(st);
    TreeParts(st.current);
  }

  lemma {:induction false} DescendEnds<V>(st: State<V>, key: Key)
    requires Bounded(st, key) && st.current.Tree?
    ensures Ended(Descend(st, key), key) && Flatten(Descend(st, key)) == Flatten(st)
    decreases st.current
  {
    hide Bounded, Ended, Inorder, Flatten;
    var s := st.current;
    if key < s.node.key && s.left.Tree? {
      RotationKeepsOrder(s);
      var t := if key < s.left.node.key then RotatedRight(s) else s;
      Rotate(st, t, key);
      if t.left.Leaf? {
        EndsHere(st.(current := t), key);
      } else {
        LinkRight(st.(current := t), key);
        FlattenRight(st.(current := t));
        DescendEnds(State(st.lesser, t.left, st.greater + [Piece(t.node, t.right)]), key);
      }
    } else if key > s.node.key && s.right.Tree? {
      RotationKeepsOrder(s);
      var t := if key > s.right.node.key then RotatedLeft(s) else s;
      Rotate(st, t, key);
      if t.right.Leaf? {
        EndsHere(st.(current := t), key);
      } else {
        LinkLeft(st.(current := t), key);
        FlattenLeft(st.(current := t));
        DescendEnds(State(st.lesser + [Piece(t.node, t.left)], t.right, st.greater), key);
      }
    } else {
      EndsHere(st, key);
    }
  }

  /** Splaying keeps the nodes in order and brings the key, or a neighbour of it, to the root. */
  lemma SplayIsRight<V>(s: Shape<V>, key: Key)
    requires Ascending(Inorder(s))
    ensures Inorder(Splay(s, key)) == Inorder(s)
    ensures s.Tree? ==> Splay(s, key).Tree?
                        && AllLess(Inorder(Splay(s, key).left), key) && AllGreater(Inorder(Splay(s, key).right), key)
  {
    hide Descend, Ascending, Flat;
    if s.Tree? {
      NothingFlat<V>();
      var st := State([], s, []);
      assert Flatten(st) == Inorder(s);
      DescendEnds(st, key);
      InorderOfWhole(Descend(st, key));
    }
  }

  lemma NothingFlat<V>()
    ensures Flat<V>([], Lesser) == [] && Flat<V>([], Greater) == []
  {
  }

  lemma InorderOfWhole<V>(st: State<V>)
    requires st.current.Tree?
    ensures Inorder(Whole(st)) == Flatten(st)
    ensures Inorder(Whole(st).left) == Flat(st.lesser, Lesser) + Inorder(st.current.left)
    ensures Inorder(Whole(st).right) == Inorder(st.current.right) + Flat(st.greater, Greater)
  {
    hide Assemble, Flat;
    InorderOfAssemble(st.lesser, st.current.left, Lesser);
    InorderOfAssemble(st.greater, st.current.right, Greater);
    Reassociate(Flat(st.lesser, Lesser), Inorder(st.current.left), [st.current.node], Inorder(st.current.right), Flat(st.greater, Greater));
  }

  lemma Reassociate<T>(a: seq<T>, b: seq<T>, c: seq<T>, d: seq<T>, e: seq<T>)
    ensures (a + b) + c + (d + e) == a + (b + c + d) + e
  {
  }

  /** The root has the key if any node has, and otherwise no key lies between the two. */
  lemma RootIsNearest<V>(s: Shape<V>, key: Key, n: Node<V>)
    requires Ascending(Inorder(s)) && n in Inorder(s)
    ensures Splay(s, key).Tree?
    ensures n.key == key ==> Splay(s, key).node == n
    ensures Splay(s, key).node.key < key ==> n.key <= Splay(s, key).node.key || n.key > key
    ensures Splay(s, key).node.key > key ==> n.key >= Splay(s, key).node.key || n.key < key
  {
    hide Splay;
    SplayIsRight(s, key);
    var t := Splay(s, key);
    TreeParts(t);
    assert n in Inorder(t.left) || n == t.node || n in Inorder(t.right);
  }
}
