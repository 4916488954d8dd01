/** The Burrows-Wheeler last column and its inversion by the pointer vector of the decoder. */
module InverseBwt {
  import opened Sequences
  import opened Rotations
  import opened CharPlaces

  /** Entry i is the character before the i-th sorted rotation. */
  function LastColumn(b: seq<Byte>, ptr: seq<nat>): (l: seq<Byte>)
    requires |ptr| == |b| && forall i :: 0 <= i < |ptr| ==> ptr[i] < |b|
    ensures |l| == |b|
  {
    seq(|ptr|, i requires 0 <= i < |ptr| => b[Prev(|b|, ptr[i])])
  }

  /** Follow the pointers t from pos, emitting one character of l a step. */
  function Walk(l: seq<Byte>, t: seq<nat>, pos: nat, steps: nat): (out: seq<Byte>)
    requires |t| == |l| && (forall i :: 0 <= i < |t| ==> t[i] < |l|) && pos < |l|
    ensures |out| == steps
    decreases steps
  {
    if steps == 0 then [] else [l[pos]] + Walk(l, t, t[pos], steps - 1)
  }

  function Invert(l: seq<Byte>, origPtr: nat): (out: seq<Byte>)
    requires origPtr < |l|
    ensures |out| == |l|
  {
    Walk(l, Order(l), Order(l)[origPtr], |l|)
  }

  /** Stepping every entry of the sorted list one back and putting them in Order sorts them again. */
  lemma SteppedBackIsSorted(b: seq<Byte>, ptr: seq<nat>)
    requires SortedRotations(b, ptr)
    ensures var t := Order(LastColumn(b, ptr));
            SortedRotations(b, seq(|b|, i requires 0 <= i < |b| => Prev(|b|, ptr[t[i]])))
  {
    hide Order;
    var n, l := |b|, LastColumn(b, ptr);
    var t := Order(l);
    var y := seq(n, i requires 0 <= i < n => Prev(n, ptr[t[i]]));
    forall i, j | 0 <= i < j < n ensures y[i] != y[j] && !Less(b, y[j], y[i], n) {
      assert b[y[i]] == l[t[i]] && b[y[j]] == l[t[j]];
      BeyondWholeRotation(b, y[j], y[i], n + 1);
      assert t[i] != t[j];
      if t[i] < t[j] {
        assert ptr[t[i]] != ptr[t[j]];
      } else {
        assert ptr[t[j]] != ptr[t[i]];
      }
    }
  }

  /** One step of Order moves to a rotation equal to the one that starts one character later. */
  lemma OrderStepsForward(b: seq<Byte>, ptr: seq<nat>, i: nat)
    requires SortedRotations(b, ptr) && i < |b|
    ensures Same(b, ptr[Order(LastColumn(b, ptr))[i]], Next(|b|, ptr[i]), |b|)
  {
    hide Order, Same, Less;
    var n, t := |b|, Order(LastColumn(b, ptr));
    var y := seq(n, i requires 0 <= i < n => Prev(n, ptr[t[i]]));
    SteppedBackIsSorted(b, ptr);
    SortedListingsAgree(b, y, ptr, i);
    AgreementIsPeriodic(b, y[i], ptr[i], n + 1);
  }

  /** Wherever t steps one character forward, walking along t reads the block in order. */
  lemma {:induction false} WalkReads(b: seq<Byte>, ptr: seq<nat>, t: seq<nat>, pos: nat, p: nat, steps: nat, k: nat)
    requires SortedRotations(b, ptr) && pos < |b| && p < |b| && k < steps
    requires |ptr| == |t| == |b| && forall i :: 0 <= i < |t| ==> ptr[i] < |b| && t[i] < |b|
    requires forall i :: 0 <= i < |t| ==> Same(b, ptr[t[i]], Next(|b|, ptr[i]), |b|)
    requires Same(b, ptr[pos], Next(|b|, p), |b|)
    ensures Walk(LastColumn(b, ptr), t, pos, steps)[k] == b[Skip(|b|, p, k)]
    decreases steps
  {
    hide Same, Less, SortedRotations;
    var n := |b|;
    LastCharacterAgrees(b, ptr[pos], Next(n, p));
    if k > 0 {
      SameAfterNext(b, ptr[pos], Next(n, p));
      SameTransitive(b, ptr[t[pos]], Next(n, ptr[pos]), Next(n, Next(n, p)), n);
      WalkReads(b, ptr, t, t[pos], Next(n, p), steps - 1, k - 1);
    }
  }

  lemma SameAfterNext(b: seq<Byte>, p: nat, q: nat)
    requires p < |b| && q < |b| && Same(b, p, q, |b|)
    ensures Same(b, Next(|b|, p), Next(|b|, q), |b|)
  {
    AgreementIsPeriodic(b, p, q, |b| + 1);
  }

  lemma {:induction false} SameTransitive(b: seq<Byte>, p: nat, q: nat, r: nat, h: nat)
    requires p < |b| && q < |b| && r < |b| && Same(b, p, q, h) && Same(b, q, r, h)
    ensures Same(b, p, r, h)
    decreases h
  {
    if h > 0 { SameTransitive(b, Next(|b|, p), Next(|b|, q), Next(|b|, r), h - 1); }
  }

  lemma LastCharacterAgrees(b: seq<Byte>, p: nat, q: nat)
    requires p < |b| && q < |b| && Same(b, p, q, |b|)
    ensures b[Prev(|b|, p)] == b[Prev(|b|, q)]
  {
    var n := |b|;
    SkipByAtMostN(n, p, n - 1);
    SkipByAtMostN(n, q, n - 1);
    Split(b, p, q, n - 1, 1);
  }

  /** Inverting the last column of any weakly sorted list of rotations gives the block back. */
  lemma InvertLastColumn(b: seq<Byte>, ptr: seq<nat>, origPtr: nat)
    requires SortedRotations(b, ptr) && origPtr < |b| && ptr[origPtr] == 0
    ensures Invert(LastColumn(b, ptr), origPtr) == b
  {
    hide Order, Same, Less;
    var n, l := |b|, LastColumn(b, ptr);
    var t := Order(l);
    forall i | 0 <= i < n ensures Same(b, ptr[t[i]], Next(n, ptr[i]), n) {
      OrderStepsForward(b, ptr, i);
    }
    forall k | 0 <= k < n ensures Invert(l, origPtr)[k] == b[k] {
      WalkReads(b, ptr, t, t[origPtr], 0, n, k);
      SkipByAtMostN(n, 0, k);
    }
  }
}
