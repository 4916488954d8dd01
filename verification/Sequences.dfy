/** Bytes, permutations and multisets: the vocabulary the block-sorting modules share. */
module Sequences {

  type Byte = x: int | 0 <= x < 256

  /** A 32-bit word as its bits. */
  type Word = w: seq<bool> | |w| == 32 witness seq(32, _ => false)

  datatype Option<+T> = None | Some(value: T)

  ghost predicate Distinct<T>(s: seq<T>) {
    forall i, j :: 0 <= i < j < |s| ==> s[i] != s[j]
  }

  /** s lists every number below |s| exactly once. */
  ghost predicate IsPermutation(s: seq<nat>) {
    && (forall i :: 0 <= i < |s| ==> s[i] < |s|)
    && Distinct(s)
  }

  ghost function Elements<T(!new)>(s: seq<T>): set<T> {
    set x | x in s
  }

  lemma {:induction false} DistinctCardinality<T(!new)>(s: seq<T>)
    requires Distinct(s)
    ensures |Elements(s)| == |s|
  {
    if s != [] {
      var front, last := s[..|s| - 1], s[|s| - 1];
      DistinctCardinality(front);
      assert Elements(s) == Elements(front) + {last};
      assert last !in Elements(front);
    }
  }

  ghost function Below(n: nat): (below: set<nat>)
    ensures |below| == n
    ensures forall k: nat :: k in below <==> k < n
  {
    if n == 0 then {} else Below(n - 1) + {n - 1}
  }

  /** A permutation has every number below its length somewhere. */
  lemma PermutationCovers(s: seq<nat>, x: nat)
    requires IsPermutation(s) && x < |s|
    ensures x in s
  {
    DistinctCardinality(s);
    assert Elements(s) <= Below(|s|);
    SubsetCardinality(Elements(s), Below(|s|));
    assert x in Elements(s);
  }

  lemma {:induction false} SubsetCardinality<T>(a: set<T>, b: set<T>)
    requires a <= b
    ensures |a| <= |b|
    ensures |a| == |b| ==> a == b
  {
    if a != {} {
      var x :| x in a;
      SubsetCardinality(a - {x}, b - {x});
    }
  }

  lemma {:induction false} DistinctMeansOnce<T>(s: seq<T>, x: T)
    requires Distinct(s)
    ensures multiset(s)[x] <= 1
  {
    if s != [] {
      var front, last := s[..|s| - 1], s[|s| - 1];
      assert s == front + [last];
      DistinctMeansOnce(front, x);
      assert last !in front;
    }
  }

  lemma RepeatMeansTwice<T>(s: seq<T>, i: nat, j: nat)
    requires i < j < |s| && s[i] == s[j]
    ensures multiset(s)[s[i]] >= 2
  {
    assert s == s[..i] + [s[i]] + s[i + 1..j] + [s[j]] + s[j + 1..];
  }

  lemma MultisetKeepsDistinct<T>(s: seq<T>, t: seq<T>)
    requires Distinct(s) && multiset(s) == multiset(t)
    ensures Distinct(t)
  {
    forall i, j | 0 <= i < j < |t| ensures t[i] != t[j] {
      DistinctMeansOnce(s, t[i]);
      if t[i] == t[j] { RepeatMeansTwice(t, i, j); }
    }
  }

  /** A rearrangement of a permutation is a permutation. */
  lemma MultisetKeepsPermutation(s: seq<nat>, t: seq<nat>)
    requires IsPermutation(s) && multiset(s) == multiset(t)
    ensures IsPermutation(t)
  {
    MultisetKeepsDistinct(s, t);
    assert |multiset(s)| == |s| && |multiset(t)| == |t|;
    forall i | 0 <= i < |t| ensures t[i] < |t| {
      assert t[i] in multiset(s);
    }
  }

  lemma SwapKeepsMultiset<T>(s: seq<T>, i: nat, j: nat)
    requires i < |s| && j < |s|
    ensures multiset(s[i := s[j]][j := s[i]]) == multiset(s)
  {
  }

  lemma MiddleKeepsMultiset<T>(a: seq<T>, b: seq<T>, b': seq<T>, c: seq<T>)
    requires multiset(a + b + c) == multiset(a + b' + c)
    ensures multiset(b) == multiset(b')
  {
    assert multiset(a + b + c) == multiset(a) + multiset(b) + multiset(c);
    assert multiset(a + b' + c) == multiset(a) + multiset(b') + multiset(c);
    assert multiset(b) == multiset(a) + multiset(b) + multiset(c) - multiset(a) - multiset(c);
  }
}
