/** What a pointer scan has achieved when both of its cursors have come to the end. */
module ScanOrder {
  import opened Sequences
  import opened Rotations
  import opened SmallBuckets
  import opened PointerScans

  /** Everything known has been scanned. */
  ghost predicate Finished(c: Scene, p: seq<nat>, cs: seq<nat>, ce: seq<nat>)
  {
    c.Ok() && Placed(c, p, cs, ce) && Scanned(c, p, cs, ce, cs[c.ss], ce[c.ss])
  }

  /** The parts of a finished scan. */
  lemma FinishedParts(c: Scene, p: seq<nat>, cs: seq<nat>, ce: seq<nat>)
    requires Finished(c, p, cs, ce)
    ensures |p| == |c.b| && |cs| == |ce| == RADIX && |c.starts| == BUCKETS + 1
    ensures c.First() <= c.From(c.ss) <= cs[c.ss] <= ce[c.ss] <= c.Past(c.ss) <= c.End() <= |p|
    ensures Heads(c, p[c.First()..cs[c.ss]]) && Heads(c, p[ce[c.ss]..c.End()])
    ensures Filled(c, p, cs, ce, p[c.First()..cs[c.ss]], p[ce[c.ss]..c.End()])
  {
    hide Placed, Scene.Ok, Code, Filled, Distinct;
    BigBucket(c);
    Cursors(c, p, cs, ce);
    HeadsInner(c, p[c.First()..cs[c.ss]], p[ce[c.ss]..c.End()], 0, 0);
  }

  lemma NextUndoesPrev(n: nat, x: nat)
    requires x < n
    ensures Prev(n, Next(n, x)) == x
  {
  }

  /** Where a rotation of the big bucket stood. */
  lemma SlotOfHead(c: Scene, x: nat) returns (i: nat)
    requires c.Ok() && x < |c.b| && c.b[x] == c.ss
    ensures |c.starts| == BUCKETS + 1 && c.First() <= i < c.End() && i < |c.was| && c.was[i] == x
    ensures c.From(c.ss) <= i < c.Past(c.ss) <==> c.b[Next(|c.b|, x)] == c.ss
  {
    PermutationCovers(c.was, x);
    i :| 0 <= i < |c.was| && c.was[i] == x;
    var s := Code(c.b, x);
    assert c.starts[s] <= i < c.starts[s + 1];
    assert c.starts[RADIX * c.ss] <= c.starts[s] && c.starts[s + 1] <= c.starts[RADIX * (c.ss + 1)];
    BigSlot(c, i);
  }

  /** A head is known if it is followed by another character, or by a head that is known. */
  lemma HeadIsKnown(c: Scene, p: seq<nat>, cs: seq<nat>, ce: seq<nat>, x: nat)
    requires Finished(c, p, cs, ce) && x < |c.b| && c.b[x] == c.ss
    requires c.b[Next(|c.b|, x)] == c.ss ==> Next(|c.b|, x) in Known(c, p, cs, ce)
    ensures x in Known(c, p, cs, ce)
  {
    hide Placed, Scene.Ok, Code, Distinct, Heads;
    FinishedParts(c, p, cs, ce);
    BigBucket(c);
    var ql, qr := p[c.First()..cs[c.ss]], p[ce[c.ss]..c.End()];
    if c.b[Next(|c.b|, x)] == c.ss {
      NextUndoesPrev(|c.b|, x);
      FilledAt(c, p, cs, ce, ql, qr, c.ss);
      InPreds(c.b, ql, qr, c.ss, x);
      InSlices(p, c.First(), c.From(c.ss), cs[c.ss], ce[c.ss], c.Past(c.ss), c.End(), x);
    } else {
      var i := SlotOfHead(c, x);
      OthersAreAsTheyWere(c, p, cs, ce, i);
      assert if i < c.From(c.ss) then ql[i - c.First()] == x else qr[i - ce[c.ss]] == x;
    }
  }

  lemma InPreds(b: seq<Byte>, ql: seq<nat>, qr: seq<nat>, t: Byte, x: nat)
    requires InBlock(b, ql) && InBlock(b, qr) && x < |b| && b[x] == t && Next(|b|, x) in ql + qr
    ensures x in Preds(b, ql, t) + Preds(b, qr, t)
  {
    NextUndoesPrev(|b|, x);
    if Next(|b|, x) in ql {
      var i :| 0 <= i < |ql| && ql[i] == Next(|b|, x);
    } else {
      var i :| 0 <= i < |qr| && qr[i] == Next(|b|, x);
    }
  }

  lemma InSlices(p: seq<nat>, first: nat, from: nat, cs: nat, ce: nat, past: nat, end: nat, x: nat)
    requires first <= from <= cs <= ce <= past <= end <= |p|
    requires x in p[from..cs] + p[ce..past]
    ensures x in p[first..cs] + p[ce..end]
  {
    var y := p[first..cs] + p[ce..end];
    if x in p[from..cs] {
      var i :| 0 <= i < cs - from && p[from..cs][i] == x;
      assert y[from - first + i] == x;
    } else {
      var i :| 0 <= i < past - ce && p[ce..past][i] == x;
      assert y[cs - first + i] == x;
    }
  }

  /** Unless the whole block is one character repeated, all heads are known. */
  lemma {:induction false} AllHeadsKnown(c: Scene, p: seq<nat>, cs: seq<nat>, ce: seq<nat>, x: nat, m: nat)
    requires Finished(c, p, cs, ce) && x < |c.b| && c.b[x] == c.ss && c.b[Skip(|c.b|, x, m)] != c.ss
    ensures x in Known(c, p, cs, ce)
    decreases m
  {
    hide Finished, Known;
    var y := Next(|c.b|, x);
    if c.b[y] == c.ss { AllHeadsKnown(c, p, cs, ce, y, m - 1); }
    HeadIsKnown(c, p, cs, ce, x);
  }

  lemma Reach(n: nat, x: nat, z: nat) returns (m: nat)
    requires x < n && z < n
    ensures Skip(n, x, m) == z
  {
    m := if z >= x then z - x else n - x + z;
    SkipByAtMostN(n, x, m);
  }

  /** The cursors meet in every small bucket. */
  lemma CursorsMeet(c: Scene, p: seq<nat>, cs: seq<nat>, ce: seq<nat>, z: nat, t: Byte)
    requires Finished(c, p, cs, ce) && z < |c.b| && c.b[z] != c.ss && !c.done[t]
    ensures cs[t] == ce[t]
  {
    hide Finished, Known, Preds, Placed, Scene.Ok, Code, Distinct, Heads, Scanned;
    FinishedParts(c, p, cs, ce);
    FinishedOk(c, p, cs, ce);
    var ql, qr := p[c.First()..cs[c.ss]], p[ce[c.ss]..c.End()];
    var d := Preds(c.b, ql, t) + Preds(c.b, qr, t);
    FilledAt(c, p, cs, ce, ql, qr, t);
    forall x | 0 <= x < |c.b| && Code(c.b, x) == RADIX * t + c.ss ensures x in d {
      var m := Reach(|c.b|, Next(|c.b|, x), z);
      AllHeadsKnown(c, p, cs, ce, Next(|c.b|, x), m);
      KnownIs(c, p, cs, ce);
      InPreds(c.b, ql, qr, t, x);
    }
    BucketCovered(c, d, t);
  }

  lemma FinishedOk(c: Scene, p: seq<nat>, cs: seq<nat>, ce: seq<nat>)
    requires Finished(c, p, cs, ce)
    ensures c.Ok() && Placed(c, p, cs, ce) && Distinct(Known(c, p, cs, ce)) && Heads(c, Known(c, p, cs, ce))
  {
  }

  lemma KnownIs(c: Scene, p: seq<nat>, cs: seq<nat>, ce: seq<nat>)
    requires c.Ok() && Placed(c, p, cs, ce)
    ensures |c.starts| == BUCKETS + 1 && |cs| == |ce| == RADIX && c.First() <= cs[c.ss] <= |p| && ce[c.ss] <= c.End() <= |p|
    ensures Known(c, p, cs, ce) == p[c.First()..cs[c.ss]] + p[ce[c.ss]..c.End()]
  {
    BigBucket(c);
  }

  /** A list of all rotations of a small bucket is no shorter than the bucket. */
  lemma BucketCovered(c: Scene, d: seq<nat>, t: Byte)
    requires c.Ok() && forall x :: 0 <= x < |c.b| && Code(c.b, x) == RADIX * t + c.ss ==> x in d
    ensures |d| >= c.Past(t) - c.From(t)
  {
    hide Code;
    BigBucket(c);
    var slice := c.was[c.From(t)..c.Past(t)];
    forall x | x in Elements(slice) ensures x in Elements(d) {
      var i :| 0 <= i < |slice| && slice[i] == x;
      SmallSlot(c, t, c.From(t) + i);
    }
    DistinctCardinality(slice);
    SubsetCardinality(Elements(slice), Elements(d));
    ElementsAtMost(d);
  }

  lemma {:induction false} ElementsAtMost(d: seq<nat>)
    ensures |Elements(d)| <= |d|
  {
    if d != [] {
      var front := d[..|d| - 1];
      ElementsAtMost(front);
      assert Elements(d) == Elements(front) + {d[|d| - 1]};
    }
  }

  // ----- After the cursors have met -----

  /** The big bucket is known, and each small bucket that leads into it holds what leads into it. */
  ghost predicate Met(c: Scene, p: seq<nat>) {
    && c.Ok() && |p| == |c.b| && InBlock(c.b, p)
    && c.First() <= c.End() <= |p| && Distinct(p[c.First()..c.End()]) && Heads(c, p[c.First()..c.End()])
    && (forall t :: 0 <= t < RADIX && !c.done[t] ==>
          c.From(t) <= c.Past(t) <= |p| && p[c.From(t)..c.Past(t)] == Preds(c.b, p[c.First()..c.End()], t))
    && (forall i :: 0 <= i < |p| ==> var s := Code(c.b, c.was[i]); s % RADIX != c.ss || c.done[s / RADIX] ==> p[i] == c.was[i])
  }

  lemma FinishedMeet(c: Scene, p: seq<nat>, cs: seq<nat>, ce: seq<nat>, z: nat)
    requires Finished(c, p, cs, ce) && z < |c.b| && c.b[z] != c.ss
    ensures Met(c, p)
  {
    hide Finished, Known, Preds, Placed, Scene.Ok, Code, Distinct, Scanned, Filled, Met;
    FinishedParts(c, p, cs, ce);
    FinishedOk(c, p, cs, ce);
    BigBucket(c);
    Cursors(c, p, cs, ce);
    KnownIs(c, p, cs, ce);
    CursorsMeet(c, p, cs, ce, z, c.ss);
    var ql, qr, q := p[c.First()..cs[c.ss]], p[ce[c.ss]..c.End()], p[c.First()..c.End()];
    assert ql + qr == q;
    forall t | 0 <= t < RADIX && !c.done[t] ensures p[c.From(t)..c.Past(t)] == Preds(c.b, q, t) {
      CursorsMeet(c, p, cs, ce, z, t);
      MeetAt(c, p, cs, ce, ql, qr, t);
    }
    MetUnchanged(c, p, cs, ce);
    MetIs(c, p);
  }

  lemma MeetAt(c: Scene, p: seq<nat>, cs: seq<nat>, ce: seq<nat>, ql: seq<nat>, qr: seq<nat>, t: Byte)
    requires c.Ok() && Placed(c, p, cs, ce) && InBlock(c.b, ql) && InBlock(c.b, qr) && Filled(c, p, cs, ce, ql, qr)
    requires !c.done[t] && cs[t] == ce[t]
    ensures InBlock(c.b, ql + qr) && c.From(t) <= c.Past(t) <= |p| && p[c.From(t)..c.Past(t)] == Preds(c.b, ql + qr, t)
  {
    hide Preds, Placed, Scene.Ok, Filled;
    Cursors(c, p, cs, ce);
    FilledAt(c, p, cs, ce, ql, qr, t);
    PredsOfSum(c.b, ql, qr, t);
    assert p[c.From(t)..cs[t]] + p[ce[t]..c.Past(t)] == p[c.From(t)..c.Past(t)];
  }

  lemma MetIs(c: Scene, p: seq<nat>)
    requires c.Ok() && |p| == |c.b| && InBlock(c.b, p)
    requires c.First() <= c.End() <= |p| && Distinct(p[c.First()..c.End()]) && Heads(c, p[c.First()..c.End()])
    requires forall t :: 0 <= t < RADIX && !c.done[t] ==>
               c.From(t) <= c.Past(t) <= |p| && p[c.From(t)..c.Past(t)] == Preds(c.b, p[c.First()..c.End()], t)
    requires forall i :: 0 <= i < |p| ==> var s := Code(c.b, c.was[i]); s % RADIX != c.ss || c.done[s / RADIX] ==> p[i] == c.was[i]
    ensures Met(c, p)
  {
  }

  lemma MetUnchanged(c: Scene, p: seq<nat>, cs: seq<nat>, ce: seq<nat>)
    requires c.Ok() && Placed(c, p, cs, ce)
    ensures forall i :: 0 <= i < |p| ==> var s := Code(c.b, c.was[i]); s % RADIX != c.ss || c.done[s / RADIX] ==> p[i] == c.was[i]
  {
  }

  /** A rotation stays in its small bucket. */
  lemma SameCode(c: Scene, p: seq<nat>, i: nat)
    requires Met(c, p) && i < |p|
    ensures Code(c.b, p[i]) == Code(c.b, c.was[i])
    ensures var s := Code(c.b, c.was[i]);
            s % RADIX == c.ss && !c.done[s / RADIX] ==>
              c.From(s / RADIX) <= i < c.Past(s / RADIX) <= |p|
              && p[i] == Preds(c.b, p[c.First()..c.End()], s / RADIX)[i - c.From(s / RADIX)]
  {
    hide Preds, Met, Heads, Distinct, Code;
    MetOk(c, p);
    BigBucket(c);
    var s := Code(c.b, c.was[i]);
    var t := s / RADIX;
    MetKeeps(c, p, i);
    if s % RADIX == c.ss && !c.done[t] {
      OkIsBucketed(c);
      SlotOfCode(c.b, c.was, c.starts, i);
      MetAt(c, p, t);
      PredCodes(c, p[c.First()..c.End()], t);
      assert p[c.From(t)..c.Past(t)][i - c.From(t)] == p[i];
    }
  }

  lemma SlotOfCode(b: seq<Byte>, ptr: seq<nat>, starts: seq<nat>, i: nat)
    requires Bucketed(b, ptr, starts) && i < |ptr|
    ensures starts[Code(b, ptr[i])] <= i < starts[Code(b, ptr[i]) + 1]
  {
  }

  lemma StillBucketed(c: Scene, p: seq<nat>)
    requires Met(c, p)
    ensures Bucketed(c.b, p, c.starts)
  {
    hide Met, Code, Preds;
    MetOk(c, p);
    forall i | 0 <= i < |p| ensures c.starts[Code(c.b, p[i])] <= i < c.starts[Code(c.b, p[i]) + 1] {
      SameCode(c, p, i);
    }
    forall i, j | 0 <= i < j < |p| ensures p[i] != p[j] {
      DistinctSlots(c, p, i, j);
    }
  }

  lemma MetKeeps(c: Scene, p: seq<nat>, i: nat)
    requires Met(c, p) && i < |p|
    ensures var s := Code(c.b, c.was[i]); s % RADIX != c.ss || c.done[s / RADIX] ==> p[i] == c.was[i]
  {
  }

  lemma MetAt(c: Scene, p: seq<nat>, t: Byte)
    requires Met(c, p) && !c.done[t]
    ensures c.From(t) <= c.Past(t) <= |p| && p[c.From(t)..c.Past(t)] == Preds(c.b, p[c.First()..c.End()], t)
  {
  }

  lemma MetOk(c: Scene, p: seq<nat>)
    requires Met(c, p)
    ensures c.Ok() && !c.done[c.ss] && |p| == |c.b| && InBlock(c.b, p) && c.First() <= c.End() <= |p|
    ensures Distinct(p[c.First()..c.End()]) && Heads(c, p[c.First()..c.End()])
  {
  }

  lemma DistinctSlots(c: Scene, p: seq<nat>, i: nat, j: nat)
    requires Met(c, p) && i < j < |p|
    ensures p[i] != p[j]
  {
    hide Preds, Code;
    SameCode(c, p, i);
    SameCode(c, p, j);
    var s := Code(c.b, c.was[i]);
    if s == Code(c.b, c.was[j]) && s % RADIX == c.ss && !c.done[s / RADIX] {
      PredsDistinct(c.b, p[c.First()..c.End()], s / RADIX);
    }
  }

  // ----- Order -----

  /** What leads into the rotations of q comes in the order of q. */
  lemma {:induction false} PredsKeepOrder(b: seq<Byte>, q: seq<nat>, t: Byte, a: nat, e: nat) returns (i: nat, j: nat)
    requires InBlock(b, q) && a < e < |Preds(b, q, t)|
    ensures i < j < |q| && q[i] == Next(|b|, Preds(b, q, t)[a]) && q[j] == Next(|b|, Preds(b, q, t)[e])
    decreases |q|
  {
    hide Preds;
    if q == [] {
      NothingLeads(b, t);
    } else {
      var front, last := q[..|q| - 1], q[|q| - 1];
      assert q == front + [last];
      PredsOfSum(b, front, [last], t);
      PredsOfOne(b, last, t);
      var d := Preds(b, front, t);
      if e < |d| {
        i, j := PredsKeepOrder(b, front, t, a, e);
      } else {
        j := |q| - 1;
        assert Next(|b|, d[a]) in front;
        i :| 0 <= i < |front| && front[i] == Next(|b|, d[a]);
      }
    }
  }

  lemma NothingLeads(b: seq<Byte>, t: Byte)
    ensures Preds(b, [], t) == []
  {
  }

  /** One character in front of two rotations leaves their order as it is. */
  lemma LessInFront(b: seq<Byte>, x: nat, y: nat, h: nat)
    requires x < |b| && y < |b| && b[x] == b[y] && h <= |b| && !Less(b, Next(|b|, y), Next(|b|, x), if h == 0 then 0 else h - 1)
    ensures !Less(b, y, x, h)
  {
  }

  /** Rotations of the big bucket compare as their second characters, and then as the rest. */
  lemma LessBySecond(b: seq<Byte>, x: nat, y: nat, h: nat)
    requires x < |b| && y < |b| && b[x] == b[y] && b[Next(|b|, x)] < b[Next(|b|, y)]
    ensures !Less(b, y, x, h)
  {
  }

  lemma FewerCharacters(b: seq<Byte>, x: nat, y: nat, h: nat)
    requires x < |b| && y < |b| && h <= |b| && !Less(b, y, x, |b|)
    ensures !Less(b, y, x, h)
  {
    if Less(b, y, x, h) { MoreCharactersKeepLess(b, y, x, h, |b|); }
  }

  /** The small buckets of the big bucket, but for [ss, ss], are in order. */
  ghost predicate SmallInOrder(c: Scene, p: seq<nat>) {
    forall s: nat :: s < BUCKETS && s / RADIX == c.ss && s % RADIX != c.ss ==> SortedBucket(c.b, p, c.starts, s)
  }

  lemma SliceAt(p: seq<nat>, from: nat, past: nat, d: seq<nat>, i: nat)
    requires from <= i < past <= |p| && p[from..past] == d
    ensures i - from < |d| && p[i] == d[i - from]
  {
  }

  lemma HasStarts(c: Scene)
    requires c.Ok()
    ensures |c.starts| == BUCKETS + 1
  {
    BigBucket(c);
  }

  lemma PartInBlock(b: seq<Byte>, p: seq<nat>, from: nat, past: nat)
    requires InBlock(b, p) && from <= past <= |p|
    ensures InBlock(b, p[from..past])
  {
  }

  /** Two rotations in [ss, ss] stand in the order of those that they lead into. */
  lemma BothLead(c: Scene, p: seq<nat>, i: nat, j: nat) returns (i': nat, j': nat)
    requires Met(c, p) && c.From(c.ss) <= i < j < c.Past(c.ss)
    ensures c.First() <= i' < j' < c.End() <= |p|
    ensures p[i] < |c.b| && p[j] < |c.b| && c.b[p[i]] == c.ss == c.b[p[j]] && p[i'] == Next(|c.b|, p[i]) && p[j'] == Next(|c.b|, p[j])
  {
    hide Met, Code, Preds, Distinct, Heads, Scene.Ok, Scene.From, Scene.Past, Scene.First, Scene.End, InBlock, Next;
    MetOk(c, p);
    HasStarts(c);
    PartInBlock(c.b, p, c.First(), c.End());
    MetAt(c, p, c.ss);
    var q, from := p[c.First()..c.End()], c.From(c.ss);
    var d := Preds(c.b, q, c.ss);
    SliceAt(p, from, c.Past(c.ss), d, i);
    SliceAt(p, from, c.Past(c.ss), d, j);
    i', j' := PredsKeepOrder(c.b, q, c.ss, i - from, j - from);
    i', j' := c.First() + i', c.First() + j';
  }

  /** Which character comes second for the rotation in a slot of the big bucket. */
  lemma SecondOf(c: Scene, p: seq<nat>, i: nat)
    requires Met(c, p) && c.First() <= i < c.End()
    ensures i < |p| == |c.b| == |c.was| && p[i] < |c.b| && c.b[p[i]] == c.ss
    ensures c.b[Next(|c.b|, p[i])] == c.b[Next(|c.b|, c.was[i])]
    ensures c.b[Next(|c.b|, p[i])] == c.ss <==> c.From(c.ss) <= i < c.Past(c.ss)
    ensures c.b[Next(|c.b|, p[i])] != c.ss ==> p[i] == c.was[i]
  {
    hide Met, Preds, Code;
    MetOk(c, p);
    BigSlot(c, i);
    SameCode(c, p, i);
    if c.b[Next(|c.b|, c.was[i])] != c.ss { Unchanged(c, p, i); }
  }

  /** So the whole big bucket is, by as many characters as one likes. */
  lemma {:induction false} BigInOrder(c: Scene, p: seq<nat>, i: nat, j: nat, h: nat)
    requires Met(c, p) && SmallInOrder(c, c.was) && h <= |c.b| && c.First() <= i < j < c.End()
    ensures !Less(c.b, p[j], p[i], h)
    decreases h
  {
    hide Met, Code, Preds, SmallInOrder, Less, Scene.Ok;
    MetOk(c, p);
    SecondOf(c, p, i);
    SecondOf(c, p, j);
    SlotsAscend(c, i, j);
    var x, y := p[i], p[j];
    var u, v := c.b[Next(|c.b|, x)], c.b[Next(|c.b|, y)];
    if h == 0 {
      NoCharacters(c.b, x, y);
    } else if u < v {
      LessBySecond(c.b, x, y, h);
    } else if u != c.ss {
      WasInOrder(c, i, j);
      FewerCharacters(c.b, x, y, h);
    } else {
      var i', j' := BothLead(c, p, i, j);
      BigInOrder(c, p, i', j', h - 1);
      LessInFront(c.b, x, y, h);
    }
  }

  lemma NoCharacters(b: seq<Byte>, x: nat, y: nat)
    requires x < |b| && y < |b|
    ensures !Less(b, y, x, 0)
  {
  }

  lemma Unchanged(c: Scene, p: seq<nat>, i: nat)
    requires Met(c, p) && i < |p| && c.b[Next(|c.b|, c.was[i])] != c.ss
    ensures p[i] == c.was[i]
  {
  }

  /** Later slots have later buckets. */
  lemma SlotsAscend(c: Scene, i: nat, j: nat)
    requires c.Ok() && c.First() <= i < j < c.End()
    ensures j < |c.b| && c.b[Next(|c.b|, c.was[i])] <= c.b[Next(|c.b|, c.was[j])]
  {
    BigSlot(c, i);
    BigSlot(c, j);
  }

  lemma WasInOrder(c: Scene, i: nat, j: nat)
    requires c.Ok() && SmallInOrder(c, c.was) && c.First() <= i < j < c.End() <= |c.b|
    requires c.b[Next(|c.b|, c.was[i])] == c.b[Next(|c.b|, c.was[j])] != c.ss
    ensures !Less(c.b, c.was[j], c.was[i], |c.b|)
  {
    hide Less, Code;
    BigSlot(c, i);
    BigSlot(c, j);
    var u := c.b[Next(|c.b|, c.was[i])];
    assert SortedBucket(c.b, c.was, c.starts, RADIX * c.ss + u);
    var lo, hi := c.starts[RADIX * c.ss + u], c.starts[RADIX * c.ss + u + 1];
    assert Code(c.b, c.was[i]) == RADIX * c.ss + u == Code(c.b, c.was[j]);
    var small := c.was[lo..hi];
    assert small[i - lo] == c.was[i] && small[j - lo] == c.was[j];
  }

  lemma HeadsInOrder(c: Scene, p: seq<nat>, q: seq<nat>)
    requires Met(c, p) && SmallInOrder(c, c.was) && q == p[c.First()..c.End()]
    ensures InBlock(c.b, q) && |c.b| > 0 && forall i, j :: 0 <= i < j < |q| ==> !Less(c.b, q[j], q[i], |c.b| - 1)
  {
    hide Code, Preds, SmallInOrder, Less, Met, Distinct;
    MetOk(c, p);
    BigBucket(c);
    forall i, j | 0 <= i < j < |q| ensures !Less(c.b, q[j], q[i], |c.b| - 1) {
      BigInOrder(c, p, c.First() + i, c.First() + j, |c.b| - 1);
    }
  }

  /** And so is every small bucket that leads into it. */
  lemma LeadingInOrder(c: Scene, p: seq<nat>, t: Byte)
    requires Met(c, p) && SmallInOrder(c, c.was) && !c.done[t]
    ensures SortedBucket(c.b, p, c.starts, RADIX * t + c.ss)
  {
    hide Code, Preds, SmallInOrder, Less, Met, Distinct, InOrder, Scene.Ok;
    MetOk(c, p);
    BigBucket(c);
    MetAt(c, p, t);
    var q := p[c.First()..c.End()];
    HeadsInOrder(c, p, q);
    PredsInOrder(c.b, q, t);
  }

  lemma PredsInOrder(b: seq<Byte>, q: seq<nat>, t: Byte)
    requires InBlock(b, q) && |b| > 0 && forall i, j :: 0 <= i < j < |q| ==> !Less(b, q[j], q[i], |b| - 1)
    ensures InOrder(b, Preds(b, q, t))
  {
    hide Preds, Less;
    var d := Preds(b, q, t);
    forall a, e | 0 <= a < e < |d| ensures !Less(b, d[e], d[a], |b|) {
      var i, j := PredsKeepOrder(b, q, t, a, e);
      LessInFront(b, d[a], d[e], |b|);
    }
  }
}
