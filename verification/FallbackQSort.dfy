/** fallbackSimpleSort and fallbackQSort3: sorting a stretch of fmap by the class of its entries. */
module FallbackQSort {
  import opened Powers
  import opened Sequences

  const SMALL_THRESH := 10
  const STACK_SIZE := 100

  /** fmap[lo..hi], both ends included, holds indices into eclass. */
  ghost predicate Indexes(fmap: seq<nat>, eclass: seq<nat>, lo: int, hi: int) {
    && 0 <= lo <= hi + 1 <= |fmap|
    && forall k :: lo <= k <= hi ==> fmap[k] < |eclass|
  }

  ghost predicate Ordered(fmap: seq<nat>, eclass: seq<nat>, lo: int, hi: int)
    requires Indexes(fmap, eclass, lo, hi)
  {
    forall i, j :: lo <= i < j <= hi ==> eclass[fmap[i]] <= eclass[fmap[j]]
  }

  /** Only [lo..hi] changed, and there entries were only moved around. */
  ghost predicate Rearranged(before: seq<nat>, after: seq<nat>, lo: int, hi: int) {
    && 0 <= lo <= hi + 1 <= |before| == |after|
    && multiset(after) == multiset(before)
    && forall k :: 0 <= k < lo || hi < k < |before| ==> after[k] == before[k]
  }

  lemma NothingMoved(s: seq<nat>, lo: int, hi: int)
    requires 0 <= lo <= hi + 1 <= |s|
    ensures Rearranged(s, s, lo, hi)
  {
  }

  /** Moving s[j] into the hole h, and x into the hole this leaves, is a rearrangement still. */
  lemma HoleMoves(s0: seq<nat>, s: seq<nat>, lo: int, hi: int, h: nat, j: nat, x: nat)
    requires lo <= h < |s| && lo <= j <= hi && h <= hi && h != j && j < |s|
    requires Rearranged(s0, s[h := x], lo, hi)
    ensures Rearranged(s0, s[h := s[j]][j := x], lo, hi)
  {
    var t := s[h := x];
    assert s[h := s[j]][j := x] == t[h := t[j]][j := t[h]];
    SwapKeepsMultiset(t, h, j);
  }

  lemma HoleMovesFour(s0: seq<nat>, s: seq<nat>, e: seq<nat>, lo: int, hi: int, j: int, x: nat)
    requires Indexes(s, e, lo, hi) && lo <= j - 4 && j <= hi && Rearranged(s0, s[j - 4 := x], lo, hi)
    ensures Indexes(s[j - 4 := s[j]], e, lo, hi) && Rearranged(s0, s[j - 4 := s[j]][j := x], lo, hi)
    ensures s[j] < |e|
  {
    hide Rearranged;
    HoleMoves(s0, s, lo, hi, j - 4, j, x);
  }

  /** One insertion of the pass that compares entries four apart. */
  method InsertFourApart(fmap: array<nat>, eclass: array<nat>, lo: int, hi: int, i: int)
    requires fmap != eclass && Indexes(fmap[..], eclass[..], lo, hi) && 0 <= lo <= i <= hi < fmap.Length
    requires fmap[i] < eclass.Length
    modifies fmap
    ensures Indexes(fmap[..], eclass[..], lo, hi) && Rearranged(old(fmap[..]), fmap[..], lo, hi)
  {
    hide Rearranged;
    ghost var s0, e, s := fmap[..], eclass[..], fmap[..];
    var tmp := fmap[i];
    var ecTmp := eclass[tmp];
    var j := i + 4;
    assert s0[i := tmp] == s0;
    NothingMoved(s0, lo, hi);
    while j <= hi && ecTmp > eclass[fmap[j]]
      invariant i + 4 <= j <= hi + 4 && fmap[..] == s
      invariant Indexes(s, e, lo, hi) && Rearranged(s0, s[j - 4 := tmp], lo, hi)
      decreases hi - j
    {
      HoleMovesFour(s0, s, e, lo, hi, j, tmp);
      fmap[j - 4] := fmap[j];
      s := s[j - 4 := s[j]];
      j := j + 4;
    }
    fmap[j - 4] := tmp;
    assert fmap[..] == s[j - 4 := tmp];
  }

  /** s[i..hi] is sorted but for a hole before j, which x can fill if it is not above s[j]. */
  ghost predicate OrderedAround(s: seq<nat>, e: seq<nat>, i: int, hi: int, j: int, x: nat)
    requires Indexes(s, e, i, hi) && i < j <= hi + 1 && x < |e|
  {
    && (forall k :: i <= k < j - 1 ==> e[s[k]] < e[x])
    && (forall k, m :: i <= k < m <= hi && k != j - 1 && m != j - 1 ==> e[s[k]] <= e[s[m]])
  }

  /** The state of an insertion that started from s0, with the hole before j and x in hand. */
  ghost predicate Inserting(s0: seq<nat>, s: seq<nat>, e: seq<nat>, lo: int, i: int, hi: int, j: int, x: nat) {
    && lo <= i < j <= hi + 1
    && x < |e|
    && Indexes(s, e, lo, hi)
    && OrderedAround(s, e, i, hi, j, x)
    && Rearranged(s0, s[j - 1 := x], lo, hi)
  }

  lemma HoleMovesRight(s0: seq<nat>, s: seq<nat>, e: seq<nat>, lo: int, i: int, hi: int, j: int, x: nat)
    requires Inserting(s0, s, e, lo, i, hi, j, x) && j <= hi && e[x] > e[s[j]]
    ensures Inserting(s0, s[j - 1 := s[j]], e, lo, i, hi, j + 1, x)
  {
    hide Rearranged;
    HoleMoves(s0, s, lo, hi, j - 1, j, x);
  }

  lemma HoleIsFilled(s0: seq<nat>, s: seq<nat>, e: seq<nat>, lo: int, i: int, hi: int, j: int, x: nat)
    requires Inserting(s0, s, e, lo, i, hi, j, x) && (j <= hi ==> e[x] <= e[s[j]])
    ensures var t := s[j - 1 := x];
            Indexes(t, e, lo, hi) && Ordered(t, e, i, hi) && Rearranged(s0, t, lo, hi)
  {
    assert forall m :: j <= m <= hi ==> e[x] <= e[s[m]];
  }

  /** One insertion of the final pass: fmap[i] goes to its place in the sorted rest. */
  method InsertAdjacent(fmap: array<nat>, eclass: array<nat>, lo: int, hi: int, i: int)
    requires fmap != eclass && Indexes(fmap[..], eclass[..], lo, hi) && lo <= i <= hi
    requires Ordered(fmap[..], eclass[..], i + 1, hi)
    modifies fmap
    ensures Indexes(fmap[..], eclass[..], lo, hi) && Rearranged(old(fmap[..]), fmap[..], lo, hi)
    ensures Ordered(fmap[..], eclass[..], i, hi)
  {
    var tmp := fmap[i];
    var ecTmp := eclass[tmp];
    var j := i + 1;
    ghost var s0, e, s := fmap[..], eclass[..], fmap[..];
    assert s0[i := tmp] == s0;
    while j <= hi && ecTmp > eclass[fmap[j]]
      invariant fmap[..] == s && Inserting(s0, s, e, lo, i, hi, j, tmp)
      decreases hi - j
    {
      HoleMovesRight(s0, s, e, lo, i, hi, j, tmp);
      fmap[j - 1] := fmap[j];
      s := s[j - 1 := s[j]];
      j := j + 1;
    }
    HoleIsFilled(s0, s, e, lo, i, hi, j, tmp);
    fmap[j - 1] := tmp;
    assert fmap[..] == s[j - 1 := tmp];
  }

  method FallbackSimpleSort(fmap: array<nat>, eclass: array<nat>, lo: int, hi: int)
    requires fmap != eclass && Indexes(fmap[..], eclass[..], lo, hi)
    modifies fmap
    ensures Rearranged(old(fmap[..]), fmap[..], lo, hi)
    ensures Indexes(fmap[..], eclass[..], lo, hi) && Ordered(fmap[..], eclass[..], lo, hi)
  {
    if lo == hi { return; }
    if hi - lo > 3 {
      var i := hi - 4;
      while i >= lo
        invariant lo - 1 <= i <= hi - 4
        invariant Indexes(fmap[..], eclass[..], lo, hi) && Rearranged(old(fmap[..]), fmap[..], lo, hi)
      {
        InsertFourApart(fmap, eclass, lo, hi, i);
        i := i - 1;
      }
    }
    var i := hi - 1;
    while i >= lo
      invariant lo - 1 <= i <= hi - 1 || (lo == hi + 1 && i == hi - 1)
      invariant Indexes(fmap[..], eclass[..], lo, hi) && Rearranged(old(fmap[..]), fmap[..], lo, hi)
      invariant lo <= hi ==> Ordered(fmap[..], eclass[..], i + 1, hi)
    {
      InsertAdjacent(fmap, eclass, lo, hi, i);
      i := i - 1;
    }
  }

  lemma SwapRearranges(s0: seq<nat>, s: seq<nat>, lo: int, hi: int, i: int, j: int)
    requires Rearranged(s0, s, lo, hi) && lo <= i <= hi && lo <= j <= hi
    ensures Rearranged(s0, s[i := s[j]][j := s[i]], lo, hi)
  {
    SwapKeepsMultiset(s, i, j);
  }

  method Swap(fmap: array<nat>, i: int, j: int)
    requires 0 <= i < fmap.Length && 0 <= j < fmap.Length
    modifies fmap
    ensures fmap[..] == old(fmap[..])[i := old(fmap[j])][j := old(fmap[i])]
  {
    fmap[i], fmap[j] := fmap[j], fmap[i];
  }

  ghost predicate Exchanged(before: seq<nat>, after: seq<nat>, p1: int, p2: int, n: int) {
    && |after| == |before|
    && 0 <= p1 && 0 <= n && p1 + n <= p2 && p2 + n <= |before|
    && (forall k :: p1 <= k < p1 + n ==> after[k] == before[p2 + (k - p1)])
    && (forall k :: p2 <= k < p2 + n ==> after[k] == before[p1 + (k - p2)])
    && (forall k :: 0 <= k < |before| && !(p1 <= k < p1 + n) && !(p2 <= k < p2 + n) ==> after[k] == before[k])
  }

  lemma ExchangeOneMore(before: seq<nat>, s: seq<nat>, p1: int, p2: int, n: int)
    requires Exchanged(before, s, p1, p2, n) && p1 + n < p2 && p2 + n < |s|
    ensures Exchanged(before, s[p1 + n := s[p2 + n]][p2 + n := s[p1 + n]], p1, p2, n + 1)
  {
  }

  lemma {:induction false} ExchangeRearranges(before: seq<nat>, after: seq<nat>, p1: int, p2: int, n: int, lo: int, hi: int)
    requires Exchanged(before, after, p1, p2, n) && 0 <= lo <= p1 && p2 + n <= hi + 1 <= |before|
    ensures Rearranged(before, after, lo, hi)
    decreases n
  {
    if n == 0 {
      assert after == before;
    } else {
      var i, j := p1 + n - 1, p2 + n - 1;
      var s := after[i := after[j]][j := after[i]];
      ExchangeRearranges(before, s, p1, p2, n - 1, lo, hi);
      SwapRearranges(before, s, lo, hi, i, j);
      assert s[i := s[j]][j := s[i]] == after;
    }
  }

  /** Exchange the n entries at p1 with the n entries at p2. */
  method VSwap(fmap: array<nat>, p1: int, p2: int, n: int)
    requires 0 <= p1 && 0 <= n && p1 + n <= p2 && p2 + n <= fmap.Length
    modifies fmap
    ensures Exchanged(old(fmap[..]), fmap[..], p1, p2, n)
  {
    var yy1, yy2, yyn := p1, p2, n;
    while yyn > 0
      invariant 0 <= yyn <= n && yy1 == p1 + (n - yyn) && yy2 == p2 + (n - yyn)
      invariant Exchanged(old(fmap[..]), fmap[..], p1, p2, n - yyn)
    {
      ExchangeOneMore(old(fmap[..]), fmap[..], p1, p2, n - yyn);
      Swap(fmap, yy1, yy2);
      yy1, yy2, yyn := yy1 + 1, yy2 + 1, yyn - 1;
    }
  }

  /** The layout while partitioning s[lo..hi]: equal to med, below, unseen, above, equal. */
  ghost predicate Parted(s: seq<nat>, e: seq<nat>, lo: int, ltLo: int, unLo: int, unHi: int, gtHi: int, hi: int, med: nat) {
    && Indexes(s, e, lo, hi)
    && lo <= ltLo <= unLo <= unHi + 1 <= gtHi + 1 <= hi + 1
    && (forall k :: lo <= k < ltLo ==> e[s[k]] == med)
    && (forall k :: ltLo <= k < unLo ==> e[s[k]] < med)
    && (forall k :: unHi < k <= gtHi ==> e[s[k]] > med)
    && (forall k :: gtHi < k <= hi ==> e[s[k]] == med)
  }

  /** The layout once the equal entries are between the others. */
  ghost predicate ThreeWay(s: seq<nat>, e: seq<nat>, lo: int, n: int, m: int, hi: int, med: nat) {
    && Indexes(s, e, lo, hi)
    && lo - 1 <= n && n + 1 < m <= hi + 1
    && (forall k :: lo <= k <= n ==> e[s[k]] < med)
    && (forall k :: n < k < m ==> e[s[k]] == med)
    && (forall k :: m <= k <= hi ==> e[s[k]] > med)
  }

  function FMin(a: int, b: int): int { if a < b then a else b }

  /** Swapping the left runs moves the entries equal to med next to the middle. */
  lemma GatherLeft(s: seq<nat>, t: seq<nat>, e: seq<nat>, lo: int, ltLo: int, unLo: int, gtHi: int, hi: int, med: nat)
    requires Parted(s, e, lo, ltLo, unLo, unLo - 1, gtHi, hi, med)
    requires var n := FMin(ltLo - lo, unLo - ltLo); Exchanged(s, t, lo, unLo - n, n)
    ensures var n := lo + unLo - ltLo - 1;
            && Parted(t, e, lo, lo, n + 1, n, n, n, med)
            && Parted(t, e, n + 1, unLo, unLo, unLo - 1, gtHi, hi, med)
  {
  }

  lemma GatherRight(s: seq<nat>, t: seq<nat>, e: seq<nat>, lo: int, n: int, unLo: int, gtHi: int, hi: int, med: nat)
    requires lo <= n + 1 && (n + 1 < unLo || gtHi < hi)
    requires Parted(s, e, lo, lo, n + 1, n, n, n, med)
    requires Parted(s, e, n + 1, unLo, unLo, unLo - 1, gtHi, hi, med)
    requires var m := FMin(hi - gtHi, gtHi - (unLo - 1)); Exchanged(s, t, unLo, hi - m + 1, m)
    ensures ThreeWay(t, e, lo, n, hi - (gtHi - (unLo - 1)) + 1, hi, med)
  {
  }

  lemma GatherBoth(s: seq<nat>, t: seq<nat>, u: seq<nat>, e: seq<nat>, lo: int, ltLo: int, unLo: int, gtHi: int, hi: int, med: nat)
    requires Parted(s, e, lo, ltLo, unLo, unLo - 1, gtHi, hi, med) && (lo < ltLo || gtHi < hi)
    requires 0 <= lo <= ltLo <= unLo <= gtHi + 1 <= hi + 1 <= |s| == |t|
    requires var n := FMin(ltLo - lo, unLo - ltLo); Exchanged(s, t, lo, unLo - n, n)
    requires var m := FMin(hi - gtHi, gtHi - (unLo - 1)); Exchanged(t, u, unLo, hi - m + 1, m)
    ensures ThreeWay(u, e, lo, lo + unLo - ltLo - 1, hi - (gtHi - (unLo - 1)) + 1, hi, med)
    ensures Rearranged(s, u, lo, hi)
  {
    hide Parted, Exchanged, ThreeWay;
    var n, m := FMin(ltLo - lo, unLo - ltLo), FMin(hi - gtHi, gtHi - (unLo - 1));
    GatherLeft(s, t, e, lo, ltLo, unLo, gtHi, hi, med);
    GatherRight(t, u, e, lo, lo + unLo - ltLo - 1, unLo, gtHi, hi, med);
    ExchangeRearranges(s, t, lo, unLo - n, n, lo, hi);
    ExchangeRearranges(t, u, unLo, hi - m + 1, m, lo, hi);
  }

  /** The state of a partition that started from s0: the layout, and an entry equal to med somewhere. */
  ghost predicate Parting(s0: seq<nat>, s: seq<nat>, e: seq<nat>, lo: int, ltLo: int, unLo: int, unHi: int, gtHi: int, hi: int, med: nat) {
    && Parted(s, e, lo, ltLo, unLo, unHi, gtHi, hi, med)
    && Rearranged(s0, s, lo, hi)
    && (lo < ltLo || gtHi < hi || exists k :: unLo <= k <= unHi && e[s[k]] == med)
  }

  lemma TakeEqualLeft(s0: seq<nat>, s: seq<nat>, e: seq<nat>, lo: int, ltLo: int, unLo: int, unHi: int, gtHi: int, hi: int, med: nat)
    requires Parting(s0, s, e, lo, ltLo, unLo, unHi, gtHi, hi, med) && unLo <= unHi && e[s[unLo]] == med
    ensures Parting(s0, s[unLo := s[ltLo]][ltLo := s[unLo]], e, lo, ltLo + 1, unLo + 1, unHi, gtHi, hi, med)
  {
    var t := s[unLo := s[ltLo]][ltLo := s[unLo]];
    assert Parted(t, e, lo, ltLo + 1, unLo + 1, unHi, gtHi, hi, med);
    SwapRearranges(s0, s, lo, hi, unLo, ltLo);
  }

  lemma TakeEqualRight(s0: seq<nat>, s: seq<nat>, e: seq<nat>, lo: int, ltLo: int, unLo: int, unHi: int, gtHi: int, hi: int, med: nat)
    requires Parting(s0, s, e, lo, ltLo, unLo, unHi, gtHi, hi, med) && unLo <= unHi && e[s[unHi]] == med
    ensures Parting(s0, s[unHi := s[gtHi]][gtHi := s[unHi]], e, lo, ltLo, unLo, unHi - 1, gtHi - 1, hi, med)
  {
    var t := s[unHi := s[gtHi]][gtHi := s[unHi]];
    assert Parted(t, e, lo, ltLo, unLo, unHi - 1, gtHi - 1, hi, med);
    SwapRearranges(s0, s, lo, hi, unHi, gtHi);
  }

  lemma SwapEnds(s0: seq<nat>, s: seq<nat>, e: seq<nat>, lo: int, ltLo: int, unLo: int, unHi: int, gtHi: int, hi: int, med: nat)
    requires Parting(s0, s, e, lo, ltLo, unLo, unHi, gtHi, hi, med) && unLo <= unHi
    requires e[s[unLo]] > med && e[s[unHi]] < med
    ensures Parting(s0, s[unLo := s[unHi]][unHi := s[unLo]], e, lo, ltLo, unLo + 1, unHi - 1, gtHi, hi, med)
  {
    var t := s[unLo := s[unHi]][unHi := s[unLo]];
    assert Parted(t, e, lo, ltLo, unLo + 1, unHi - 1, gtHi, hi, med);
    SwapRearranges(s0, s, lo, hi, unLo, unHi);
    if !(lo < ltLo || gtHi < hi) {
      var k :| unLo <= k <= unHi && e[s[k]] == med;
      assert e[t[k]] == med;
    }
  }

  /** Scan upwards over entries not above med, taking the equal ones to the far left. */
  method ScanUp(fmap: array<nat>, eclass: array<nat>, ghost s0: seq<nat>, ghost lo: int, lt: int, un: int, unHi: int, ghost gtHi: int, ghost hi: int, med: nat)
    returns (ltLo: int, unLo: int)
    requires fmap != eclass && Parting(s0, fmap[..], eclass[..], lo, lt, un, unHi, gtHi, hi, med)
    modifies fmap
    ensures Parting(s0, fmap[..], eclass[..], lo, ltLo, unLo, unHi, gtHi, hi, med) && un <= unLo
    ensures unLo <= unHi ==> eclass[fmap[unLo]] > med
  {
    ltLo, unLo := lt, un;
    while unLo <= unHi
      invariant un <= unLo && Parting(s0, fmap[..], eclass[..], lo, ltLo, unLo, unHi, gtHi, hi, med)
    {
      var d := eclass[fmap[unLo]] - med;
      if d == 0 {
        TakeEqualLeft(s0, fmap[..], eclass[..], lo, ltLo, unLo, unHi, gtHi, hi, med);
        Swap(fmap, unLo, ltLo);
        ltLo := ltLo + 1;
      } else if d > 0 {
        return;
      }
      unLo := unLo + 1;
    }
  }

  /** Scan downwards over entries not below med, taking the equal ones to the far right. */
  method ScanDown(fmap: array<nat>, eclass: array<nat>, ghost s0: seq<nat>, ghost lo: int, ghost ltLo: int, unLo: int, un: int, gt: int, ghost hi: int, med: nat)
    returns (unHi: int, gtHi: int)
    requires fmap != eclass && Parting(s0, fmap[..], eclass[..], lo, ltLo, unLo, un, gt, hi, med)
    requires unLo <= un ==> eclass[fmap[unLo]] > med
    modifies fmap
    ensures Parting(s0, fmap[..], eclass[..], lo, ltLo, unLo, unHi, gtHi, hi, med) && unHi <= un
    ensures unLo <= unHi ==> eclass[fmap[unLo]] > med && eclass[fmap[unHi]] < med
  {
    unHi, gtHi := un, gt;
    while unLo <= unHi
      invariant unHi <= un && Parting(s0, fmap[..], eclass[..], lo, ltLo, unLo, unHi, gtHi, hi, med)
      invariant unLo <= unHi ==> eclass[fmap[unLo]] > med
    {
      var d := eclass[fmap[unHi]] - med;
      if d == 0 {
        TakeEqualRight(s0, fmap[..], eclass[..], lo, ltLo, unLo, unHi, gtHi, hi, med);
        Swap(fmap, unHi, gtHi);
        gtHi := gtHi - 1;
      } else if d < 0 {
        return;
      }
      unHi := unHi - 1;
    }
  }

  /** Move the two runs of entries equal to med into the middle. */
  method Gather(fmap: array<nat>, eclass: array<nat>, lo: int, ltLo: int, unLo: int, unHi: int, gtHi: int, hi: int, ghost med: nat)
    returns (n: int, m: int)
    requires fmap != eclass && unHi == unLo - 1 && ltLo <= gtHi
    requires Parted(fmap[..], eclass[..], lo, ltLo, unLo, unHi, gtHi, hi, med) && (lo < ltLo || gtHi < hi)
    modifies fmap
    ensures Rearranged(old(fmap[..]), fmap[..], lo, hi)
    ensures ThreeWay(fmap[..], eclass[..], lo, n, m, hi, med)
  {
    hide Exchanged, Rearranged, ThreeWay;
    ghost var s, e := fmap[..], eclass[..];
    n := FMin(ltLo - lo, unLo - ltLo);
    VSwap(fmap, lo, unLo - n, n);
    ghost var t := fmap[..];
    m := FMin(hi - gtHi, gtHi - unHi);
    VSwap(fmap, unLo, hi - m + 1, m);
    GatherBoth(s, t, fmap[..], e, lo, ltLo, unLo, gtHi, hi, med);
    n := lo + unLo - ltLo - 1;
    m := hi - (gtHi - unHi) + 1;
  }

  /** Partition fmap[lo..hi] around the class med of one of its entries.
      Either every entry has that class, or the three parts end up in order. */
  method Partition(fmap: array<nat>, eclass: array<nat>, lo: int, hi: int, med: nat, ghost at: int)
    returns (allEqual: bool, n: int, m: int)
    requires fmap != eclass && Indexes(fmap[..], eclass[..], lo, hi)
    requires lo <= at <= hi && eclass[fmap[at]] == med
    modifies fmap
    ensures Rearranged(old(fmap[..]), fmap[..], lo, hi)
    ensures allEqual ==> Indexes(fmap[..], eclass[..], lo, hi) && Ordered(fmap[..], eclass[..], lo, hi)
    ensures !allEqual ==> lo - 1 <= n && n + 1 < m <= hi + 1 && ThreeWay(fmap[..], eclass[..], lo, n, m, hi, med)
  {
    ghost var s0, e := fmap[..], eclass[..];
    var unLo, ltLo, unHi, gtHi := lo, lo, hi, hi;
    assert e[s0[at]] == med;
    while true
      invariant Parting(s0, fmap[..], e, lo, ltLo, unLo, unHi, gtHi, hi, med)
      decreases unHi - unLo
    {
      ltLo, unLo := ScanUp(fmap, eclass, s0, lo, ltLo, unLo, unHi, gtHi, hi, med);
      unHi, gtHi := ScanDown(fmap, eclass, s0, lo, ltLo, unLo, unHi, gtHi, hi, med);
      if unLo > unHi { break; }
      SwapEnds(s0, fmap[..], e, lo, ltLo, unLo, unHi, gtHi, hi, med);
      Swap(fmap, unLo, unHi);
      unLo, unHi := unLo + 1, unHi - 1;
    }
    if gtHi < ltLo { return true, lo, hi; }
    n, m := Gather(fmap, eclass, lo, ltLo, unLo, unHi, gtHi, hi, med);
    allEqual := false;
  }

  /** Some pending stretch holds both places. */
  ghost predicate Pending(los: seq<int>, his: seq<int>, sp: int, i: int, j: int)
    requires 0 <= sp <= |los| == |his|
  {
    exists t :: 0 <= t < sp && los[t] <= i && j <= his[t]
  }

  /** Every pair of places is in order or is still in one pending stretch. */
  ghost predicate Settled(s: seq<nat>, e: seq<nat>, los: seq<int>, his: seq<int>, sp: int, loSt: int, hiSt: int)
    requires Indexes(s, e, loSt, hiSt) && 0 <= sp <= |los| == |his|
  {
    forall i, j :: loSt <= i < j <= hiSt ==> e[s[i]] <= e[s[j]] || Pending(los, his, sp, i, j)
  }

  /** The pending stretches lie within [loSt..hiSt] and do not meet. */
  ghost predicate Apart(los: seq<int>, his: seq<int>, sp: int, loSt: int, hiSt: int)
    requires 0 <= sp <= |los| == |his|
  {
    && (forall t :: 0 <= t < sp ==> loSt <= los[t] <= his[t] + 1 <= hiSt + 1)
    && (forall t, u :: 0 <= t < u < sp ==> his[t] < los[u] || his[u] < los[t])
  }

  /** Stretch t is at most the total divided by 2^t, and only a stretch of more than SMALL_THRESH is split. */
  ghost predicate Halving(los: seq<int>, his: seq<int>, sp: int, total: int)
    requires 0 <= sp <= |los| == |his|
  {
    && (forall t :: 0 <= t < sp ==> (his[t] - los[t] + 1) * Pow2(t) <= total)
    && (sp >= 2 ==> (SMALL_THRESH + 1) * Pow2(sp - 2) <= total)
  }

  ghost function Work(los: seq<int>, his: seq<int>, sp: int): int
    requires 0 <= sp <= |los| == |his|
  {
    if sp == 0 then 0 else Work(los, his, sp - 1) + 2 * (his[sp - 1] - los[sp - 1] + 1) + 1
  }

  ghost predicate SameBelow(los: seq<int>, his: seq<int>, los': seq<int>, his': seq<int>, sp: int) {
    && 0 <= sp <= |los| == |his| && sp <= |los'| == |his'|
    && forall t :: 0 <= t < sp ==> los'[t] == los[t] && his'[t] == his[t]
  }

  lemma {:induction false} WorkBelow(los: seq<int>, his: seq<int>, los': seq<int>, his': seq<int>, sp: int, loSt: int, hiSt: int)
    requires SameBelow(los, his, los', his', sp) && Apart(los, his, sp, loSt, hiSt)
    ensures Work(los, his, sp) == Work(los', his', sp) >= 0
    decreases sp
  {
    if sp > 0 { WorkBelow(los, his, los', his', sp - 1, loSt, hiSt); }
  }

  /** Entries of a rearranged stretch come from that stretch. */
  lemma StretchKeepsValues(before: seq<nat>, after: seq<nat>, lo: int, hi: int, j: int) returns (i: int)
    requires Rearranged(before, after, lo, hi) && lo <= j <= hi
    ensures lo <= i <= hi && before[i] == after[j]
  {
    var b, b' := before[lo..hi + 1], after[lo..hi + 1];
    assert before == before[..lo] + b + before[hi + 1..];
    assert after == before[..lo] + b' + before[hi + 1..];
    MiddleKeepsMultiset(before[..lo], b, b', before[hi + 1..]);
    assert b'[j - lo] in multiset(b);
    var k :| 0 <= k < |b| && b[k] == b'[j - lo];
    i := k + lo;
  }

  /** Rearranging the top stretch keeps every pair that it does not hold settled. */
  lemma PairOutside(s: seq<nat>, s': seq<nat>, e: seq<nat>, los: seq<int>, his: seq<int>, sp: int, loSt: int, hiSt: int, i: int, j: int)
    requires 0 < sp <= |los| == |his| && Apart(los, his, sp, loSt, hiSt)
    requires Indexes(s, e, loSt, hiSt) && Indexes(s', e, loSt, hiSt) && Settled(s, e, los, his, sp, loSt, hiSt)
    requires Rearranged(s, s', los[sp - 1], his[sp - 1])
    requires loSt <= i < j <= hiSt && !(los[sp - 1] <= i && j <= his[sp - 1])
    ensures e[s'[i]] <= e[s'[j]] || Pending(los, his, sp - 1, i, j)
  {
    var lo, hi := los[sp - 1], his[sp - 1];
    var i0, j0 := i, j;
    if lo <= i <= hi { i0 := StretchKeepsValues(s, s', lo, hi, i); }
    if lo <= j <= hi { j0 := StretchKeepsValues(s, s', lo, hi, j); }
    assert s'[i] == s[i0] && s'[j] == s[j0];
    if e[s[i0]] > e[s[j0]] {
      assert Pending(los, his, sp, i0, j0);
      var t :| 0 <= t < sp && los[t] <= i0 && j0 <= his[t];
      assert t < sp - 1;
    }
  }

  /** The top stretch may be replaced by stretches that hold all its pairs still out of order. */
  lemma Resettle(s: seq<nat>, s': seq<nat>, e: seq<nat>, los: seq<int>, his: seq<int>, sp: int,
                 los': seq<int>, his': seq<int>, sp': int, loSt: int, hiSt: int)
    requires 0 < sp <= |los| == |his| && Apart(los, his, sp, loSt, hiSt)
    requires sp - 1 <= sp' <= |los'| == |his'|
    requires SameBelow(los, his, los', his', sp - 1)
    requires Indexes(s, e, loSt, hiSt) && Indexes(s', e, loSt, hiSt) && Settled(s, e, los, his, sp, loSt, hiSt)
    requires Rearranged(s, s', los[sp - 1], his[sp - 1])
    requires forall i, j :: los[sp - 1] <= i < j <= his[sp - 1] ==> e[s'[i]] <= e[s'[j]] || Pending(los', his', sp', i, j)
    ensures Settled(s', e, los', his', sp', loSt, hiSt)
  {
    hide Rearranged, Apart;
    forall i, j | loSt <= i < j <= hiSt ensures e[s'[i]] <= e[s'[j]] || Pending(los', his', sp', i, j) {
      if !(los[sp - 1] <= i && j <= his[sp - 1]) {
        PairOutside(s, s', e, los, his, sp, loSt, hiSt, i, j);
        if Pending(los, his, sp - 1, i, j) {
          var t :| 0 <= t < sp - 1 && los[t] <= i && j <= his[t];
          assert los'[t] <= i && j <= his'[t];
        }
      }
    }
  }

  /** The top stretch of the first stack is two in the second, the larger part below. */
  ghost predicate SplitInTwo(los: seq<int>, his: seq<int>, los': seq<int>, his': seq<int>, sp: int, n: int, m: int) {
    && 0 < sp < |los| == |his| && |los'| == |his'| == |los|
    && SameBelow(los, his, los', his', sp - 1)
    && var lo, hi := los[sp - 1], his[sp - 1];
    && hi - lo >= SMALL_THRESH
    && lo - 1 <= n && n + 1 < m <= hi + 1
    && if n - lo > hi - m
       then los'[sp - 1] == lo && his'[sp - 1] == n && los'[sp] == m && his'[sp] == hi
       else los'[sp - 1] == m && his'[sp - 1] == hi && los'[sp] == lo && his'[sp] == n
  }

  lemma SplitStaysApart(los: seq<int>, his: seq<int>, los': seq<int>, his': seq<int>, sp: int, n: int, m: int, loSt: int, hiSt: int)
    requires SplitInTwo(los, his, los', his', sp, n, m) && Apart(los, his, sp, loSt, hiSt)
    ensures Apart(los', his', sp + 1, loSt, hiSt)
  {
  }

  lemma SplitStaysHalving(los: seq<int>, his: seq<int>, los': seq<int>, his': seq<int>, sp: int, n: int, m: int, total: int)
    requires SplitInTwo(los, his, los', his', sp, n, m) && Halving(los, his, sp, total)
    ensures Halving(los', his', sp + 1, total)
  {
    var z := his[sp - 1] - los[sp - 1] + 1;
    var a, b := his'[sp - 1] - los'[sp - 1] + 1, his'[sp] - los'[sp] + 1;
    Halve(a, b, z, Pow2(sp - 1), total);
    forall t | 0 <= t < sp + 1 ensures (his'[t] - los'[t] + 1) * Pow2(t) <= total {
      if t < sp - 1 {
        assert (his'[t] - los'[t] + 1) * Pow2(t) == (his[t] - los[t] + 1) * Pow2(t);
      }
    }
  }

  lemma Halve(a: int, b: int, z: int, p: int, total: int)
    requires a <= z && 2 * b <= z && SMALL_THRESH + 1 <= z && p >= 1 && z * p <= total
    ensures a * p <= total && b * (2 * p) <= total && (SMALL_THRESH + 1) * p <= total
  {
    Scale(a, z, p);
    Scale(2 * b, z, p);
    Scale(SMALL_THRESH + 1, z, p);
    assert b * (2 * p) == (2 * b) * p;
  }

  lemma SplitIsLessWork(los: seq<int>, his: seq<int>, los': seq<int>, his': seq<int>, sp: int, n: int, m: int, loSt: int, hiSt: int)
    requires SplitInTwo(los, his, los', his', sp, n, m) && Apart(los, his, sp, loSt, hiSt)
    ensures Work(los', his', sp + 1) < Work(los, his, sp)
  {
    WorkBelow(los, his, los', his', sp - 1, loSt, hiSt);
    assert Work(los', his', sp + 1) == Work(los', his', sp) + 2 * (his'[sp] - los'[sp] + 1) + 1;
  }

  lemma Scale(x: int, y: int, k: int)
    requires x <= y && k >= 0
    ensures x * k <= y * k
  {
  }

  /** The state of fallbackQSort3: what is on the stack is all that is left to sort. */
  ghost predicate Sorting(s0: seq<nat>, s: seq<nat>, e: seq<nat>, los: seq<int>, his: seq<int>, sp: int, loSt: int, hiSt: int) {
    && 0 <= sp <= |los| == |his|
    && Indexes(s, e, loSt, hiSt)
    && Rearranged(s0, s, loSt, hiSt)
    && Apart(los, his, sp, loSt, hiSt)
    && Halving(los, his, sp, hiSt - loSt + 1)
    && Settled(s, e, los, his, sp, loSt, hiSt)
  }

  /** A stack this deep would need a range of more than 2^31 entries. */
  lemma StackStaysShallow(s0: seq<nat>, s: seq<nat>, e: seq<nat>, los: seq<int>, his: seq<int>, sp: int, loSt: int, hiSt: int)
    requires Sorting(s0, s, e, los, his, sp, loSt, hiSt) && hiSt - loSt + 1 < 0x8000_0000
    ensures sp <= 30
  {
    hide Settled, Apart, Rearranged;
    if sp > 30 {
      Pow2Grows(29, sp - 2);
      Pow2Values();
    }
  }

  lemma SortingStarts(s: seq<nat>, e: seq<nat>, los: seq<int>, his: seq<int>, loSt: int, hiSt: int)
    requires 0 < |los| == |his| && los[0] == loSt && his[0] == hiSt && Indexes(s, e, loSt, hiSt)
    ensures Sorting(s, s, e, los, his, 1, loSt, hiSt)
  {
    forall i, j | loSt <= i < j <= hiSt ensures Pending(los, his, 1, i, j) {
      assert los[0] <= i && j <= his[0];
    }
  }

  lemma NothingPending(s0: seq<nat>, s: seq<nat>, e: seq<nat>, los: seq<int>, his: seq<int>, loSt: int, hiSt: int)
    requires Sorting(s0, s, e, los, his, 0, loSt, hiSt)
    ensures Rearranged(s0, s, loSt, hiSt) && Indexes(s, e, loSt, hiSt) && Ordered(s, e, loSt, hiSt)
  {
  }

  /** A stretch whose entries have all been put in order, or into two stretches on the stack. */
  lemma StretchStaysWithin(s0: seq<nat>, s: seq<nat>, s': seq<nat>, e: seq<nat>, lo: int, hi: int, loSt: int, hiSt: int)
    requires Indexes(s, e, loSt, hiSt) && Rearranged(s0, s, loSt, hiSt)
    requires loSt <= lo <= hi + 1 <= hiSt + 1 && Rearranged(s, s', lo, hi) && Indexes(s', e, lo, hi)
    ensures Indexes(s', e, loSt, hiSt) && Rearranged(s0, s', loSt, hiSt)
  {
  }

  /** Once the top stretch is in order it can go. */
  lemma Pop(s0: seq<nat>, s: seq<nat>, s': seq<nat>, e: seq<nat>, los: seq<int>, his: seq<int>, sp: int, loSt: int, hiSt: int)
    requires sp > 0 && Sorting(s0, s, e, los, his, sp, loSt, hiSt)
    requires Rearranged(s, s', los[sp - 1], his[sp - 1])
    requires Indexes(s', e, los[sp - 1], his[sp - 1]) && Ordered(s', e, los[sp - 1], his[sp - 1])
    ensures Sorting(s0, s', e, los, his, sp - 1, loSt, hiSt)
    ensures 0 <= Work(los, his, sp - 1) < Work(los, his, sp)
  {
    hide Rearranged, Settled;
    StretchStaysWithin(s0, s, s', e, los[sp - 1], his[sp - 1], loSt, hiSt);
    Resettle(s, s', e, los, his, sp, los, his, sp - 1, loSt, hiSt);
    WorkBelow(los, his, los, his, sp - 1, loSt, hiSt);
  }

  /** Once the top stretch is parted three ways its outer parts replace it. */
  lemma Push(s0: seq<nat>, s: seq<nat>, s': seq<nat>, e: seq<nat>, los: seq<int>, his: seq<int>, los': seq<int>, his': seq<int>,
             sp: int, n: int, m: int, med: nat, loSt: int, hiSt: int)
    requires sp > 0 && Sorting(s0, s, e, los, his, sp, loSt, hiSt)
    requires SplitInTwo(los, his, los', his', sp, n, m)
    requires Rearranged(s, s', los[sp - 1], his[sp - 1])
    requires ThreeWay(s', e, los[sp - 1], n, m, his[sp - 1], med)
    ensures Sorting(s0, s', e, los', his', sp + 1, loSt, hiSt)
    ensures 0 <= Work(los', his', sp + 1) < Work(los, his, sp)
  {
    hide Rearranged, Settled;
    SplitStaysApart(los, his, los', his', sp, n, m, loSt, hiSt);
    SplitStaysHalving(los, his, los', his', sp, n, m, hiSt - loSt + 1);
    SplitIsLessWork(los, his, los', his', sp, n, m, loSt, hiSt);
    WorkBelow(los', his', los', his', sp + 1, loSt, hiSt);
    StretchStaysWithin(s0, s, s', e, los[sp - 1], his[sp - 1], loSt, hiSt);
    forall i, j | los[sp - 1] <= i < j <= his[sp - 1]
      ensures e[s'[i]] <= e[s'[j]] || Pending(los', his', sp + 1, i, j)
    {
      ThreeWayPair(s', e, los[sp - 1], n, m, his[sp - 1], med, i, j);
      if j <= n || m <= i {
        var t := if (los'[sp] == m) == (m <= i) then sp else sp - 1;
        assert los'[t] <= i && j <= his'[t];
      }
    }
    Resettle(s, s', e, los, his, sp, los', his', sp + 1, loSt, hiSt);
  }

  lemma ThreeWayPair(s: seq<nat>, e: seq<nat>, lo: int, n: int, m: int, hi: int, med: nat, i: int, j: int)
    requires ThreeWay(s, e, lo, n, m, hi, med) && lo <= i < j <= hi
    ensures e[s[i]] <= e[s[j]] || j <= n || m <= i
  {
  }

  /** Sort fmap[loSt..hiSt] by class. The explicit stack of STACK_SIZE entries never fills up. */
  method FallbackQSort3(fmap: array<nat>, eclass: array<nat>, loSt: int, hiSt: int)
    requires fmap != eclass && Indexes(fmap[..], eclass[..], loSt, hiSt) && hiSt - loSt + 1 < 0x8000_0000
    modifies fmap
    ensures Rearranged(old(fmap[..]), fmap[..], loSt, hiSt)
    ensures Indexes(fmap[..], eclass[..], loSt, hiSt) && Ordered(fmap[..], eclass[..], loSt, hiSt)
  {
    hide Sorting, Rearranged, Indexes, Halving;
    ghost var s0, e := fmap[..], eclass[..];
    var r := 0;
    var sp := 0;
    var stackLo, stackHi := new int[STACK_SIZE], new int[STACK_SIZE];
    stackLo[sp], stackHi[sp] := loSt, hiSt;
    sp := sp + 1;
    SortingStarts(s0, e, stackLo[..], stackHi[..], loSt, hiSt);
    while sp > 0
      invariant 0 <= sp <= stackLo.Length && Sorting(s0, fmap[..], e, stackLo[..], stackHi[..], sp, loSt, hiSt)
      decreases Work(stackLo[..], stackHi[..], sp)
    {
      StackStaysShallow(s0, fmap[..], e, stackLo[..], stackHi[..], sp, loSt, hiSt);
      assert sp < STACK_SIZE;
      sp, r := SortTop(fmap, eclass, stackLo, stackHi, sp, r, s0, loSt, hiSt);
    }
    NothingPending(s0, fmap[..], e, stackLo[..], stackHi[..], loSt, hiSt);
  }

  /** One turn of the sorting loop: settle the top stretch, or replace it by its two outer parts. */
  method SortTop(fmap: array<nat>, eclass: array<nat>, stackLo: array<int>, stackHi: array<int>, sp: int, r: nat,
                 ghost s0: seq<nat>, ghost loSt: int, ghost hiSt: int)
    returns (sp': int, r': nat)
    requires fmap != eclass && stackLo != stackHi && 0 < sp < stackLo.Length == stackHi.Length
    requires Sorting(s0, fmap[..], eclass[..], stackLo[..], stackHi[..], sp, loSt, hiSt)
    modifies fmap, stackLo, stackHi
    ensures 0 <= sp' <= stackLo.Length
    ensures Sorting(s0, fmap[..], eclass[..], stackLo[..], stackHi[..], sp', loSt, hiSt)
    ensures 0 <= Work(stackLo[..], stackHi[..], sp') < old(Work(stackLo[..], stackHi[..], sp))
  {
    hide Rearranged, Settled, Halving, ThreeWay, Ordered, Work;
    r' := r;
    sp' := sp - 1;
    var lo, hi := stackLo[sp'], stackHi[sp'];
    ghost var s, e, los, his := fmap[..], eclass[..], stackLo[..], stackHi[..];
    if hi - lo < SMALL_THRESH {
      FallbackSimpleSort(fmap, eclass, lo, hi);
      Pop(s0, s, fmap[..], e, los, his, sp, loSt, hiSt);
      return;
    }
    r' := (r * 7621 + 1) % 32768;
    var r3 := r' % 3;
    var at := if r3 == 0 then lo else if r3 == 1 then (lo + hi) / 2 else hi;
    var med := eclass[fmap[at]];
    var allEqual, n, m := Partition(fmap, eclass, lo, hi, med, at);
    if allEqual {
      Pop(s0, s, fmap[..], e, los, his, sp, loSt, hiSt);
      return;
    }
    if n - lo > hi - m {
      stackLo[sp'], stackHi[sp'] := lo, n;
      sp' := sp' + 1;
      stackLo[sp'], stackHi[sp'] := m, hi;
      sp' := sp' + 1;
    } else {
      stackLo[sp'], stackHi[sp'] := m, hi;
      sp' := sp' + 1;
      stackLo[sp'], stackHi[sp'] := lo, n;
      sp' := sp' + 1;
    }
    Push(s0, s, fmap[..], e, los, his, stackLo[..], stackHi[..], sp, n, m, med, loSt, hiSt);
  }
}
