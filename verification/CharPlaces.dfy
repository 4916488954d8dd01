/** Where each character of a string occurs, and the stable sort that this gives. */
module CharPlaces {
  import opened Sequences

  /** The places where c occurs in l, in increasing order. */
  function Places(l: seq<Byte>, c: Byte): (p: seq<nat>)
    ensures forall k :: 0 <= k < |p| ==> p[k] < |l| && l[p[k]] == c
    ensures forall j, k :: 0 <= j < k < |p| ==> p[j] < p[k]
    ensures forall i :: 0 <= i < |l| && l[i] == c ==> i in p
  {
    if l == [] then [] else
    var front, last := l[..|l| - 1], l[|l| - 1];
    if last == c then Places(front, c) + [|l| - 1] else Places(front, c)
  }

  /** The places of all characters below c, smallest character first. */
  function PlacesBelow(l: seq<Byte>, c: nat): (p: seq<nat>)
    requires c <= 256
    ensures forall k :: 0 <= k < |p| ==> p[k] < |l| && l[p[k]] < c
    ensures forall j, k :: 0 <= j < k < |p| ==> l[p[j]] < l[p[k]] || (l[p[j]] == l[p[k]] && p[j] < p[k])
    ensures forall i :: 0 <= i < |l| && l[i] < c ==> i in p
  {
    if c == 0 then [] else PlacesBelow(l, c - 1) + Places(l, c - 1)
  }

  /** Where the first occurrence of c goes when l is sorted. */
  function Start(l: seq<Byte>, c: nat): nat
    requires c <= 256
  {
    |PlacesBelow(l, c)|
  }

  /** One past where the last occurrence of c goes. */
  function End(l: seq<Byte>, c: Byte): nat {
    Start(l, c as int + 1)
  }

  /** The stable sorting permutation of l. */
  function Order(l: seq<Byte>): (t: seq<nat>)
    ensures |t| == |l| && IsPermutation(t)
    ensures forall j, k :: 0 <= j < k < |t| ==> l[t[j]] < l[t[k]] || (l[t[j]] == l[t[k]] && t[j] < t[k])
  {
    var t := PlacesBelow(l, 256);
    assert |t| == |l| by {
      DistinctCardinality(t);
      assert Elements(t) == Below(|l|);
    }
    t
  }

  /** The places in a shorter prefix come first. */
  lemma {:induction false} PlacesInPrefix(l: seq<Byte>, i: nat, c: Byte)
    requires i <= |l|
    ensures |Places(l[..i], c)| <= |Places(l, c)|
    ensures Places(l[..i], c) == Places(l, c)[..|Places(l[..i], c)|]
    ensures i < |l| && l[i] == c ==>
              |Places(l[..i], c)| < |Places(l, c)| && Places(l, c)[|Places(l[..i], c)|] == i
  {
    if i < |l| {
      var front := l[..|l| - 1];
      if i < |front| {
        assert front[..i] == l[..i];
        PlacesInPrefix(front, i, c);
      }
    } else {
      assert l[..i] == l;
    }
  }

  lemma PlacesOneMore(l: seq<Byte>, i: nat, c: Byte)
    requires i < |l|
    ensures |Places(l[..i + 1], c)| == |Places(l[..i], c)| + (if l[i] == c then 1 else 0)
  {
    assert l[..i + 1][..i] == l[..i];
  }

  lemma StartNext(l: seq<Byte>, c: Byte)
    ensures End(l, c) == Start(l, c) + |Places(l, c)|
  {
  }

  lemma {:induction false} StartGrows(l: seq<Byte>, c: nat, d: nat)
    requires c <= d <= 256
    ensures Start(l, c) <= Start(l, d)
    decreases d
  {
    if c < d { StartGrows(l, c, d - 1); }
  }

  lemma StartOfAll(l: seq<Byte>)
    ensures Start(l, 0) == 0 && Start(l, 256) == |l|
  {
    assert |Order(l)| == |l|;
  }

  lemma PlacesBelowDistinct(l: seq<Byte>, c: nat)
    requires c <= 256
    ensures |Elements(PlacesBelow(l, c))| == Start(l, c)
  {
    hide PlacesBelow;
    DistinctCardinality(PlacesBelow(l, c));
  }

  ghost predicate SortedByChar(l: seq<Byte>, f: seq<nat>) {
    && |f| == |l| && IsPermutation(f)
    && forall i, j :: 0 <= i < j < |f| ==> l[f[i]] <= l[f[j]]
  }

  lemma NotBelowStart(l: seq<Byte>, f: seq<nat>, p: nat)
    requires SortedByChar(l, f) && p < |f|
    ensures Start(l, l[f[p]]) <= p
  {
    hide PlacesBelow;
    var c: nat := l[f[p]];
    var below := PlacesBelow(l, c);
    PlacesBelowDistinct(l, c);
    DistinctCardinality(f[..p]);
    forall x | x in below ensures x in f[..p] {
      PermutationCovers(f, x);
      var i :| 0 <= i < |f| && f[i] == x;
      assert i < p;
    }
    assert Elements(below) <= Elements(f[..p]);
    SubsetCardinality(Elements(below), Elements(f[..p]));
  }

  lemma BelowEnd(l: seq<Byte>, f: seq<nat>, p: nat)
    requires SortedByChar(l, f) && p < |f|
    ensures p < End(l, l[f[p]])
  {
    hide PlacesBelow;
    var c: nat := l[f[p]];
    var upto := PlacesBelow(l, c + 1);
    PlacesBelowDistinct(l, c + 1);
    DistinctCardinality(f[..p + 1]);
    forall x | x in f[..p + 1] ensures x in upto {
      var i :| 0 <= i <= p && f[i] == x;
      assert l[f[i]] < c + 1;
    }
    assert Elements(f[..p + 1]) <= Elements(upto);
    SubsetCardinality(Elements(f[..p + 1]), Elements(upto));
  }

  /** In a permutation sorted by character, the places from Start(c) up to End(c) show c. */
  lemma SortedByCharacter(l: seq<Byte>, f: seq<nat>, p: nat)
    requires SortedByChar(l, f) && p < |f|
    ensures Start(l, l[f[p]]) <= p < End(l, l[f[p]])
  {
    hide PlacesBelow, SortedByChar;
    NotBelowStart(l, f, p);
    BelowEnd(l, f, p);
  }
}
