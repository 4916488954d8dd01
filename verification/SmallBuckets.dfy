/** Small buckets: the rotations that begin with the same two characters, and the order that pointer scanning synthesises among them. */
module SmallBuckets {
  import opened Sequences
  import opened Rotations

  const RADIX: nat := 256
  const BUCKETS: nat := 0x1_0000

  /** The first two characters of a rotation as one number. */
  function Code(b: seq<Byte>, p: nat): (s: nat)
    requires p < |b|
    ensures s < BUCKETS && s / RADIX == b[p] && s % RADIX == b[Next(|b|, p)]
  {
    RADIX * b[p] + b[Next(|b|, p)]
  }

  /** The slots of bucket s are those from starts[s] up to starts[s + 1]. */
  ghost predicate Starting(n: nat, starts: seq<nat>) {
    && |starts| == BUCKETS + 1 && starts[0] == 0 && starts[BUCKETS] == n
    && forall i, j :: 0 <= i <= j <= BUCKETS ==> starts[i] <= starts[j]
  }

  ghost predicate Bucketed(b: seq<Byte>, ptr: seq<nat>, starts: seq<nat>) {
    && |ptr| == |b| && IsPermutation(ptr) && Starting(|b|, starts)
    && forall i :: 0 <= i < |b| ==> starts[Code(b, ptr[i])] <= i < starts[Code(b, ptr[i]) + 1]
  }

  ghost predicate InBlock(b: seq<Byte>, q: seq<nat>) {
    forall i :: 0 <= i < |q| ==> q[i] < |b|
  }

  /** Weakly increasing by whole rotations. */
  ghost predicate InOrder(b: seq<Byte>, q: seq<nat>) {
    && InBlock(b, q)
    && forall i, j :: 0 <= i < j < |q| ==> !Less(b, q[j], q[i], |b|)
  }

  /** Bucket s is sorted. */
  ghost predicate SortedBucket(b: seq<Byte>, ptr: seq<nat>, starts: seq<nat>, s: nat) {
    && |starts| == BUCKETS + 1 && s < BUCKETS && starts[s] <= starts[s + 1] <= |ptr|
    && InOrder(b, ptr[starts[s]..starts[s + 1]])
  }

  lemma CodeOfSlot(b: seq<Byte>, ptr: seq<nat>, starts: seq<nat>, i: nat, s: nat)
    requires Bucketed(b, ptr, starts) && s < BUCKETS && starts[s] <= i < starts[s + 1]
    ensures i < |b| && Code(b, ptr[i]) == s
  {
    assert starts[s + 1] <= starts[BUCKETS];
  }

  /** Distinct rotations of one bucket are no more than its slots, and if they are as many, they are all there are. */
  lemma BucketHolds(b: seq<Byte>, ptr: seq<nat>, starts: seq<nat>, s: nat, d: seq<nat>)
    requires Bucketed(b, ptr, starts) && s < BUCKETS
    requires Distinct(d) && forall i :: 0 <= i < |d| ==> d[i] < |b| && Code(b, d[i]) == s
    ensures |d| <= starts[s + 1] - starts[s]
    ensures |d| == starts[s + 1] - starts[s] ==> forall p :: 0 <= p < |b| && Code(b, p) == s ==> p in d
  {
    hide Code;
    var lo, hi := starts[s], starts[s + 1];
    assert lo <= hi <= starts[BUCKETS];
    var slice := ptr[lo..hi];
    forall p: nat | p < |b| && Code(b, p) == s ensures p in slice {
      PermutationCovers(ptr, p);
      var i :| 0 <= i < |ptr| && ptr[i] == p;
      assert slice[i - lo] == p;
    }
    DistinctCardinality(d);
    DistinctCardinality(slice);
    assert Elements(d) <= Elements(slice);
    SubsetCardinality(Elements(d), Elements(slice));
    if |d| == hi - lo {
      forall p: nat | p < |b| && Code(b, p) == s ensures p in d { assert p in Elements(slice); }
    }
  }

  /** The rotations one character in front of those in q, as far as that character is t. */
  ghost function Preds(b: seq<Byte>, q: seq<nat>, t: Byte): (d: seq<nat>)
    requires InBlock(b, q)
    ensures InBlock(b, d)
    ensures forall i :: 0 <= i < |d| ==> d[i] < |b| && b[d[i]] == t && Next(|b|, d[i]) in q
    ensures forall i :: 0 <= i < |q| && b[Prev(|b|, q[i])] == t ==> Prev(|b|, q[i]) in d
  {
    if q == [] then []
    else
      var front, p := Preds(b, q[..|q| - 1], t), Prev(|b|, q[|q| - 1]);
      if b[p] == t then front + [p] else front
  }

  lemma {:induction false} PredsOfSum(b: seq<Byte>, q: seq<nat>, r: seq<nat>, t: Byte)
    requires InBlock(b, q + r)
    ensures InBlock(b, q) && InBlock(b, r)
    ensures Preds(b, q + r, t) == Preds(b, q, t) + Preds(b, r, t)
    decreases |r|
  {
    assert forall i :: 0 <= i < |q| ==> (q + r)[i] == q[i];
    assert forall i :: 0 <= i < |r| ==> (q + r)[|q| + i] == r[i];
    if r == [] {
      assert q + r == q;
    } else {
      var front := r[..|r| - 1];
      assert (q + r)[..|q + r| - 1] == q + front;
      PredsOfSum(b, q, front, t);
    }
  }

  lemma {:induction false} PredsDistinct(b: seq<Byte>, q: seq<nat>, t: Byte)
    requires InBlock(b, q) && Distinct(q)
    ensures Distinct(Preds(b, q, t))
  {
    if q != [] {
      var front, last := q[..|q| - 1], q[|q| - 1];
      PredsDistinct(b, front, t);
      var d, p := Preds(b, front, t), Prev(|b|, last);
      assert last !in front;
      assert p !in d;
    }
  }
}
