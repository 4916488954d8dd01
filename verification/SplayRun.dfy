/** One run of the splay benchmark: nodes with random new keys come in, and a neighbour goes out for each of them. */
module SplayBenchmark {
  import opened Sequences
  import opened Splaying
  import opened SplayTrees

  const MODIFICATIONS := 80

  /** InsertNewNode. The random numbers to come are a sequence, and the search for a new key fails when it is used up. */
  method InsertNewNode<V>(tree: SplayTree<V>, random: seq<Key>, start: nat, payload: V) returns (found: bool, next: nat)
    requires tree.Valid() && start <= |random|
    modifies tree, Nodes(tree.Order())
    ensures tree.Valid() && fresh(Nodes(tree.Order()) - old(Nodes(tree.Order()))) && start <= next <= |random|
    ensures found ==> next > start && random[next - 1] !in old(tree.Map()) && tree.Map() == old(tree.Map())[random[next - 1] := payload]
    ensures !found ==> next == |random| && tree.Map() == old(tree.Map())
    ensures forall i :: start <= i < (if found then next - 1 else next) ==> random[i] in old(tree.Map())
  {
    hide Ascending, Linked, Inorder, Splay, Entries, SplayTree.Valid, SplayTree.Map, SplayTree.Order, MakesRoom;
    next := start;
    while next < |random|
      invariant tree.Valid() && start <= next <= |random| && tree.Order() == old(tree.Order()) && tree.Map() == old(tree.Map())
      invariant forall i :: start <= i < next ==> random[i] in old(tree.Map())
    {
      var key := random[next];
      next := next + 1;
      var node := tree.Find(key);
      if node == null {
        ghost var were := Nodes(tree.Order());
        label Inserting:
        tree.Insert(key, payload);
        assert forall n :: n in Nodes(tree.Order()) - were ==> fresh@Inserting(n);
        assert forall n :: n in Nodes(tree.Order()) - were ==> fresh(n);
        return true, next;
      }
    }
    found := false;
  }

  /** The key that makes room for a new one: the greatest smaller key, or else the new key itself. */
  ghost predicate MakesRoom<V>(entries: map<Key, V>, key: Key, victim: Key) {
    if exists k :: k in entries && k < key then
      victim in entries && victim < key && forall k :: k in entries && k < key ==> k <= victim
    else victim == key
  }

  /** One turn of SplayRun. */
  method Replace<V>(tree: SplayTree<V>, random: seq<Key>, start: nat, payload: V) returns (found: bool, next: nat, ghost victim: Key)
    requires tree.Valid() && start <= |random|
    modifies tree, Nodes(tree.Order())
    ensures tree.Valid() && fresh(Nodes(tree.Order()) - old(Nodes(tree.Order()))) && start <= next <= |random|
    ensures found ==> next > start && random[next - 1] !in old(tree.Map()) && MakesRoom(old(tree.Map()), random[next - 1], victim)
                      && tree.Map() == old(tree.Map())[random[next - 1] := payload] - {victim}
    ensures !found ==> tree.Map() == old(tree.Map())
    ensures |tree.Map()| == |old(tree.Map())|
  {
    hide Ascending, Linked, Inorder, Splay, Entries, SplayTree.Valid, SplayTree.Map, SplayTree.Order;
    ghost var before := tree.Map();
    victim := 0.0;
    found, next := InsertNewNode(tree, random, start, payload);
    if !found { return; }
    var key := random[next - 1];
    var greatest := tree.FindGreatestLessThan(key);
    victim := if greatest == null then key else greatest.key;
    SizeKept(before, key, payload, victim);
    RoomIsMade(before, before[key := payload], key, if greatest == null then None else Some(greatest.key));
    if greatest == null {
      var _ := tree.Remove(key);
    } else {
      var _ := tree.Remove(greatest.key);
    }
  }

  lemma RoomIsMade<V>(before: map<Key, V>, grown: map<Key, V>, key: Key, greatest: Option<Key>)
    requires grown.Keys == before.Keys + {key}
    requires greatest.None? ==> forall k :: k in grown ==> k >= key
    requires greatest.Some? ==> greatest.value in grown && greatest.value < key && forall k :: k in grown && k < key ==> k <= greatest.value
    ensures MakesRoom(before, key, if greatest.None? then key else greatest.value)
  {
    assert forall k :: k in before ==> k in grown;
  }

  lemma SizeKept<V>(before: map<Key, V>, key: Key, payload: V, victim: Key)
    requires key !in before && victim in before[key := payload]
    ensures |before[key := payload] - {victim}| == |before|
  {
    var grown := before[key := payload];
    assert grown.Keys == before.Keys + {key};
    assert |grown.Keys| == |grown| && |before.Keys| == |before|;
    assert (grown - {victim}).Keys == grown.Keys - {victim};
    assert |(grown - {victim}).Keys| == |grown - {victim}|;
  }

  /** One key has taken the place of another. */
  ghost predicate Replaced<V>(before: map<Key, V>, after: map<Key, V>, payload: V) {
    exists key: Key, victim: Key :: key !in before && MakesRoom(before, key, victim) && after == before[key := payload] - {victim}
  }

  /** From one map to another by replacements. */
  ghost predicate Leads<V>(trace: seq<map<Key, V>>, first: map<Key, V>, last: map<Key, V>, payload: V) {
    && |trace| > 0 && trace[0] == first && trace[|trace| - 1] == last
    && forall i :: 0 <= i < |trace| - 1 ==> Replaced(trace[i], trace[i + 1], payload)
  }

  lemma StartsHere<V>(m: map<Key, V>, payload: V)
    ensures Leads([m], m, m, payload)
  {
  }

  lemma OneMore<V>(trace: seq<map<Key, V>>, first: map<Key, V>, before: map<Key, V>, after: map<Key, V>, payload: V, key: Key, victim: Key)
    requires Leads(trace, first, before, payload)
    requires key !in before && MakesRoom(before, key, victim) && after == before[key := payload] - {victim}
    ensures Leads(trace + [after], first, after, payload)
  {
    hide MakesRoom;
    assert Replaced(before, after, payload);
  }

  /** SplayRun: eighty replacements, each of which keeps the number of keys. It is cut short when the random numbers are used up. */
  method SplayRun<V>(tree: SplayTree<V>, random: seq<Key>, payload: V) returns (done: bool, ghost trace: seq<map<Key, V>>)
    requires tree.Valid()
    modifies tree, Nodes(tree.Order())
    ensures tree.Valid() && |tree.Map()| == |old(tree.Map())|
    ensures fresh(Nodes(tree.Order()) - old(Nodes(tree.Order())))
    ensures Leads(trace, old(tree.Map()), tree.Map(), payload) && (done ==> |trace| == MODIFICATIONS + 1)
  {
    hide Ascending, Linked, Inorder, Splay, Entries, SplayTree.Valid, SplayTree.Map, SplayTree.Order, MakesRoom, Leads;
    StartsHere(tree.Map(), payload);
    var next := 0;
    done, trace := true, [tree.Map()];
    for i := 0 to MODIFICATIONS
      invariant tree.Valid() && next <= |random| && |tree.Map()| == |old(tree.Map())|
      invariant fresh(Nodes(tree.Order()) - old(Nodes(tree.Order())))
      invariant done && |trace| == i + 1 && Leads(trace, old(tree.Map()), tree.Map(), payload)
    {
      ghost var victim, were, before := 0.0, Nodes(tree.Order()), tree.Map();
      label Replacing:
      done, next, victim := Replace(tree, random, next, payload);
      assert forall n :: n in Nodes(tree.Order()) - were ==> fresh@Replacing(n);
      assert forall n :: n in Nodes(tree.Order()) - were ==> fresh(n);
      if !done { return; }
      OneMore(trace, old(tree.Map()), before, tree.Map(), payload, random[next - 1], victim);
      trace := trace + [tree.Map()];
    }
  }
}
