/** Step 2 of mainSort: from the sorted big bucket of one character the small buckets that lead into it are filled in order. */
module PointerScans {
  import opened Sequences
  import opened Rotations
  import opened SmallBuckets

  /** What does not change during a scan: the block, where the small buckets start, the character of the big bucket,
      which big buckets are done, and the pointers as they were. */
  datatype Scene = Scene(b: seq<Byte>, starts: seq<nat>, ss: Byte, done: seq<bool>, was: seq<nat>) {

    ghost predicate Ok() {
      |b| > 0 && Bucketed(b, was, starts) && |done| == RADIX && !done[ss]
    }

    /** The slots of the small bucket [t, ss]. */
    ghost function From(t: nat): nat
      requires |starts| == BUCKETS + 1 && t < RADIX
    {
      starts[RADIX * t + ss]
    }

    ghost function Past(t: nat): nat
      requires |starts| == BUCKETS + 1 && t < RADIX
    {
      starts[RADIX * t + ss + 1]
    }

    /** The slots of the big bucket ss. */
    ghost function First(): nat
      requires |starts| == BUCKETS + 1
    {
      starts[RADIX * ss]
    }

    ghost function End(): nat
      requires |starts| == BUCKETS + 1
    {
      starts[RADIX * (ss + 1)]
    }
  }

  /** The cursors are in their buckets, and only what they have passed has been written. */
  ghost predicate Placed(c: Scene, p: seq<nat>, cs: seq<nat>, ce: seq<nat>)
    requires c.Ok()
  {
    && |p| == |c.b| && |cs| == |ce| == RADIX && (forall i :: 0 <= i < |p| ==> p[i] < |c.b|)
    && (forall t :: 0 <= t < RADIX ==> c.From(t) <= cs[t] <= ce[t] <= c.Past(t))
    && (forall i :: 0 <= i < |p| ==> var s := Code(c.b, c.was[i]);
          s % RADIX != c.ss || c.done[s / RADIX] || cs[s / RADIX] <= i < ce[s / RADIX] ==> p[i] == c.was[i])
  }

  /** The rotations of the big bucket that are known so far, in order. */
  ghost function Known(c: Scene, p: seq<nat>, cs: seq<nat>, ce: seq<nat>): seq<nat>
    requires c.Ok() && Placed(c, p, cs, ce)
  {
    BigBucket(c);
    p[c.First()..cs[c.ss]] + p[ce[c.ss]..c.End()]
  }

  /** Behind the cursors the small buckets hold what leads into ql and qr. */
  ghost predicate Filled(c: Scene, p: seq<nat>, cs: seq<nat>, ce: seq<nat>, ql: seq<nat>, qr: seq<nat>)
    requires c.Ok() && Placed(c, p, cs, ce) && InBlock(c.b, ql) && InBlock(c.b, qr)
  {
    BigBucket(c);
    forall t :: 0 <= t < RADIX && !c.done[t] ==>
      p[c.From(t)..cs[t]] == Preds(c.b, ql, t) && p[ce[t]..c.Past(t)] == Preds(c.b, qr, t)
  }

  ghost predicate Heads(c: Scene, q: seq<nat>) {
    forall i :: 0 <= i < |q| ==> q[i] < |c.b| && c.b[q[i]] == c.ss
  }

  /** The slots in front of l and from r on have been scanned. */
  ghost predicate Scanned(c: Scene, p: seq<nat>, cs: seq<nat>, ce: seq<nat>, l: nat, r: nat)
    requires c.Ok() && Placed(c, p, cs, ce)
  {
    && c.First() <= l <= cs[c.ss] && ce[c.ss] <= r <= c.End() <= |p|
    && Distinct(Known(c, p, cs, ce)) && Heads(c, Known(c, p, cs, ce))
    && Filled(c, p, cs, ce, p[c.First()..l], p[r..c.End()])
  }

  lemma BigBucket(c: Scene)
    requires c.Ok()
    ensures |c.b| > 0 && |c.starts| == BUCKETS + 1 && |c.done| == RADIX && !c.done[c.ss] && |c.was| == |c.b|
    ensures c.First() <= c.From(c.ss) <= c.Past(c.ss) <= c.End() <= |c.b|
    ensures forall t :: 0 <= t < RADIX ==> c.From(t) <= c.Past(t) <= |c.b|
    ensures forall t :: 0 <= t < c.ss ==> c.Past(t) <= c.First()
    ensures forall t :: c.ss < t < RADIX ==> c.End() <= c.From(t)
    ensures forall t, u :: 0 <= t < u < RADIX ==> c.Past(t) <= c.From(u)
  {
  }

  lemma Cursors(c: Scene, p: seq<nat>, cs: seq<nat>, ce: seq<nat>)
    requires c.Ok() && Placed(c, p, cs, ce)
    ensures |p| == |c.b| && |cs| == |ce| == RADIX && InBlock(c.b, p) && |c.starts| == BUCKETS + 1
    ensures forall t :: 0 <= t < RADIX ==> c.From(t) <= cs[t] <= ce[t] <= c.Past(t)
  {
  }

  lemma InnerDistinct(x: seq<nat>, y: seq<nat>, m: nat, n: nat)
    requires Distinct(x + y) && m <= |x| && n <= |y|
    ensures Distinct(x[..m] + y[n..]) && Distinct(x) && Distinct(y)
    ensures forall i, j :: 0 <= i < |x| && 0 <= j < |y| ==> x[i] != y[j]
  {
    var xy, z := x + y, x[..m] + y[n..];
    assert forall i :: 0 <= i < |x| ==> xy[i] == x[i];
    assert forall j :: 0 <= j < |y| ==> xy[|x| + j] == y[j];
    forall i, j | 0 <= i < j < |z| ensures z[i] != z[j] {
      var i', j' := if i < m then i else |x| + n + (i - m), if j < m then j else |x| + n + (j - m);
      assert z[i] == xy[i'] && z[j] == xy[j'];
    }
  }

  /** What leads into distinct heads of the big bucket fits into its small bucket, and if it fills it, nothing else does. */
  lemma PredsFit(c: Scene, q: seq<nat>, t: Byte)
    requires c.Ok() && Distinct(q) && Heads(c, q)
    ensures |Preds(c.b, q, t)| <= c.Past(t) - c.From(t)
    ensures |Preds(c.b, q, t)| == c.Past(t) - c.From(t) ==>
              forall x :: 0 <= x < |c.b| && Code(c.b, x) == RADIX * t + c.ss ==> x in Preds(c.b, q, t)
  {
    hide Distinct, Scene.Ok, Code, Preds;
    BigBucket(c);
    PredsDistinct(c.b, q, t);
    PredCodes(c, q, t);
    OkIsBucketed(c);
    BucketHolds(c.b, c.was, c.starts, RADIX * t + c.ss, Preds(c.b, q, t));
  }

  lemma OkIsBucketed(c: Scene)
    requires c.Ok()
    ensures Bucketed(c.b, c.was, c.starts)
  {
  }

  /** What leads into the big bucket from t is in [t, ss]. */
  lemma PredCodes(c: Scene, q: seq<nat>, t: Byte)
    requires Heads(c, q)
    ensures InBlock(c.b, q) && forall i :: 0 <= i < |Preds(c.b, q, t)| ==> Code(c.b, Preds(c.b, q, t)[i]) == RADIX * t + c.ss
  {
    hide Preds;
    var d := Preds(c.b, q, t);
    forall i | 0 <= i < |d| ensures Code(c.b, d[i]) == RADIX * t + c.ss {
      assert Next(|c.b|, d[i]) in q;
    }
  }

  lemma PredsOfOne(b: seq<Byte>, x: nat, t: Byte)
    requires x < |b|
    ensures Preds(b, [x], t) == if b[Prev(|b|, x)] == t then [Prev(|b|, x)] else []
  {
    assert [x][..0] == [];
  }

  /** Any part of what is known. */
  lemma KnownPart(c: Scene, p: seq<nat>, cs: seq<nat>, ce: seq<nat>, l: nat, r: nat)
    requires c.Ok() && Placed(c, p, cs, ce) && c.First() <= l <= cs[c.ss] && ce[c.ss] <= r <= c.End() <= |p|
    requires Distinct(Known(c, p, cs, ce)) && Heads(c, Known(c, p, cs, ce))
    ensures Distinct(p[c.First()..l] + p[r..c.End()]) && Heads(c, p[c.First()..l] + p[r..c.End()])
  {
    hide Distinct, Heads, Scene.Ok;
    BigBucket(c);
    var x, y := p[c.First()..cs[c.ss]], p[ce[c.ss]..c.End()];
    InnerDistinct(x, y, l - c.First(), r - ce[c.ss]);
    HeadsInner(c, x, y, l - c.First(), r - ce[c.ss]);
    assert x[..l - c.First()] == p[c.First()..l] && y[r - ce[c.ss]..] == p[r..c.End()];
  }

  /** There is room for the next one on the left. */
  lemma RoomLeft(c: Scene, p: seq<nat>, cs: seq<nat>, ce: seq<nat>, l: nat, r: nat, t: Byte)
    requires c.Ok() && Placed(c, p, cs, ce) && Scanned(c, p, cs, ce, l, r) && l < cs[c.ss]
    requires t == c.b[Prev(|c.b|, p[l])] && !c.done[t]
    ensures cs[t] < ce[t]
  {
    hide Preds, Distinct, Code, Known, Heads, Scene.Ok, Filled;
    BigBucket(c);
    KnownPart(c, p, cs, ce, l + 1, r);
    var ql, qr := p[c.First()..l], p[r..c.End()];
    assert p[c.First()..l + 1] == ql + [p[l]];
    Counted(c, p, cs, ce, ql, [p[l]], qr, t);
  }

  /** There is room for the next one on the right. */
  lemma RoomRight(c: Scene, p: seq<nat>, cs: seq<nat>, ce: seq<nat>, l: nat, r: nat, t: Byte)
    requires c.Ok() && Placed(c, p, cs, ce) && Scanned(c, p, cs, ce, l, r) && r > ce[c.ss]
    requires t == c.b[Prev(|c.b|, p[r - 1])] && !c.done[t]
    ensures cs[t] < ce[t]
  {
    hide Preds, Distinct, Code, Known, Heads, Scene.Ok, Filled;
    BigBucket(c);
    KnownPart(c, p, cs, ce, l, r - 1);
    var ql, qr := p[c.First()..l], p[r..c.End()];
    assert p[r - 1..c.End()] == [p[r - 1]] + qr;
    assert ql + ([p[r - 1]] + qr) == ql + [p[r - 1]] + qr;
    Counted(c, p, cs, ce, ql, [p[r - 1]], qr, t);
  }

  /** How much of the small bucket [t, ss] is filled. */
  lemma Counted(c: Scene, p: seq<nat>, cs: seq<nat>, ce: seq<nat>, ql: seq<nat>, qm: seq<nat>, qr: seq<nat>, t: Byte)
    requires c.Ok() && Placed(c, p, cs, ce) && Distinct(ql + qm + qr) && Heads(c, ql + qm + qr) && !c.done[t]
    requires InBlock(c.b, ql) && InBlock(c.b, qm) && InBlock(c.b, qr) && Filled(c, p, cs, ce, ql, qr)
    ensures |Preds(c.b, qm, t)| <= ce[t] - cs[t]
    ensures |qm| == 1 && t == c.b[Prev(|c.b|, qm[0])] ==> cs[t] < ce[t]
  {
    hide Preds, Distinct, Code, Known, Heads, Scene.Ok;
    BigBucket(c);
    PredsFit(c, ql + qm + qr, t);
    PredsOfSum(c.b, ql + qm, qr, t);
    PredsOfSum(c.b, ql, qm, t);
    if |qm| == 1 {
      assert qm == [qm[0]];
      PredsOfOne(c.b, qm[0], t);
    }
  }

  lemma HeadsInner(c: Scene, x: seq<nat>, y: seq<nat>, m: nat, n: nat)
    requires Heads(c, x + y) && m <= |x| && n <= |y|
    ensures Heads(c, x[..m] + y[n..]) && Heads(c, x) && Heads(c, y)
  {
    var xy, z := x + y, x[..m] + y[n..];
    assert forall i :: 0 <= i < |x| ==> xy[i] == x[i];
    assert forall j :: 0 <= j < |y| ==> xy[|x| + j] == y[j];
    forall i | 0 <= i < |z| ensures z[i] < |c.b| && c.b[z[i]] == c.ss {
      assert z[i] == xy[if i < m then i else |x| + n + (i - m)];
    }
  }

  /** The slots of the big bucket outside [ss, ss] have not been written. */
  lemma OthersAreAsTheyWere(c: Scene, p: seq<nat>, cs: seq<nat>, ce: seq<nat>, i: nat)
    requires c.Ok() && Placed(c, p, cs, ce) && c.First() <= i < c.End() && !(c.From(c.ss) <= i < c.Past(c.ss))
    ensures i < |p| && p[i] == c.was[i] && c.b[p[i]] == c.ss && c.b[Next(|c.b|, p[i])] != c.ss
  {
    BigBucket(c);
    BigSlot(c, i);
  }

  /** Which bucket a slot of the big bucket belongs to. */
  lemma BigSlot(c: Scene, i: nat)
    requires c.Ok() && c.First() <= i < c.End()
    ensures i < |c.b| && c.b[c.was[i]] == c.ss
    ensures c.b[Next(|c.b|, c.was[i])] == c.ss <==> c.From(c.ss) <= i < c.Past(c.ss)
  {
    assert c.End() <= c.starts[BUCKETS];
    var s := Code(c.b, c.was[i]);
    if c.From(c.ss) <= i < c.Past(c.ss) { CodeOfSlot(c.b, c.was, c.starts, i, RADIX * c.ss + c.ss); }
  }

  /** What leads into a head that is neither in ql nor in qr is not known yet. */
  lemma NotKnown(c: Scene, p: seq<nat>, cs: seq<nat>, ce: seq<nat>, ql: seq<nat>, qr: seq<nat>, q: nat)
    requires c.Ok() && Placed(c, p, cs, ce) && InBlock(c.b, ql) && InBlock(c.b, qr) && Filled(c, p, cs, ce, ql, qr)
    requires q < |c.b| && q !in ql && q !in qr && c.b[q] == c.ss && c.b[Prev(|c.b|, q)] == c.ss
    ensures Prev(|c.b|, q) !in Known(c, p, cs, ce)
  {
    hide Placed, Scene.Ok, Code;
    BigBucket(c);
    Cursors(c, p, cs, ce);
    var k := Prev(|c.b|, q);
    forall i: nat | c.First() <= i < cs[c.ss] || ce[c.ss] <= i < c.End() ensures i < |p| && p[i] != k {
      if !(c.From(c.ss) <= i < c.Past(c.ss)) {
        OthersAreAsTheyWere(c, p, cs, ce, i);
      } else if i < cs[c.ss] {
        var d := p[c.From(c.ss)..cs[c.ss]];
        assert d[i - c.From(c.ss)] == p[i] && Next(|c.b|, d[i - c.From(c.ss)]) in ql;
      } else {
        var d := p[ce[c.ss]..c.Past(c.ss)];
        assert d[i - ce[c.ss]] == p[i] && Next(|c.b|, d[i - ce[c.ss]]) in qr;
      }
    }
  }

  // ----- One turn of a scan -----

  /** The rotation in front of one just scanned belongs to a big bucket that is done. */
  lemma SkipLeft(c: Scene, p: seq<nat>, cs: seq<nat>, ce: seq<nat>, l: nat, r: nat)
    requires c.Ok() && Placed(c, p, cs, ce) && Scanned(c, p, cs, ce, l, r) && l < cs[c.ss] && c.done[c.b[Prev(|c.b|, p[l])]]
    ensures Scanned(c, p, cs, ce, l + 1, r)
  {
    hide Placed, Scene.Ok, Code, Distinct, Heads, Preds, Known;
    BigBucket(c);
    Cursors(c, p, cs, ce);
    var ql := p[c.First()..l];
    assert p[c.First()..l + 1] == ql + [p[l]];
    forall t | 0 <= t < RADIX && !c.done[t] ensures Preds(c.b, ql + [p[l]], t) == Preds(c.b, ql, t) {
      PredsOfSum(c.b, ql, [p[l]], t);
      PredsOfOne(c.b, p[l], t);
    }
  }

  lemma SkipRight(c: Scene, p: seq<nat>, cs: seq<nat>, ce: seq<nat>, l: nat, r: nat)
    requires c.Ok() && Placed(c, p, cs, ce) && Scanned(c, p, cs, ce, l, r) && r > ce[c.ss] && c.done[c.b[Prev(|c.b|, p[r - 1])]]
    ensures Scanned(c, p, cs, ce, l, r - 1)
  {
    hide Placed, Scene.Ok, Code, Distinct, Heads, Preds, Known;
    BigBucket(c);
    Cursors(c, p, cs, ce);
    var qr := p[r..c.End()];
    assert p[r - 1..c.End()] == [p[r - 1]] + qr;
    forall t | 0 <= t < RADIX && !c.done[t] ensures Preds(c.b, [p[r - 1]] + qr, t) == Preds(c.b, qr, t) {
      PredsOfSum(c.b, [p[r - 1]], qr, t);
      PredsOfOne(c.b, p[r - 1], t);
    }
  }

  /** Writing at the left cursor of a small bucket keeps everything in its place. */
  lemma PlacedLeft(c: Scene, p: seq<nat>, cs: seq<nat>, ce: seq<nat>, t: Byte, k: nat)
    requires c.Ok() && Placed(c, p, cs, ce) && !c.done[t] && cs[t] < ce[t] && k < |c.b|
    ensures cs[t] < |p| && Placed(c, p[cs[t] := k], cs[t := cs[t] + 1], ce)
  {
    hide Code, Scene.Ok;
    BigBucket(c);
    SmallSlot(c, t, cs[t]);
  }

  lemma PlacedRight(c: Scene, p: seq<nat>, cs: seq<nat>, ce: seq<nat>, t: Byte, k: nat)
    requires c.Ok() && Placed(c, p, cs, ce) && !c.done[t] && cs[t] < ce[t] && k < |c.b|
    ensures ce[t] <= |p| && Placed(c, p[ce[t] - 1 := k], cs, ce[t := ce[t] - 1])
  {
    hide Code, Scene.Ok;
    BigBucket(c);
    SmallSlot(c, t, ce[t] - 1);
  }

  lemma SmallSlot(c: Scene, t: Byte, w: nat)
    requires c.Ok() && c.From(t) <= w < c.Past(t)
    ensures w < |c.was| && Code(c.b, c.was[w]) == RADIX * t + c.ss
  {
    CodeOfSlot(c.b, c.was, c.starts, w, RADIX * t + c.ss);
  }

  /** A slot between the cursors of [t, ss] lies in no part that has been filled or scanned. */
  lemma Between(c: Scene, p: seq<nat>, cs: seq<nat>, ce: seq<nat>, t: Byte, w: nat)
    requires c.Ok() && Placed(c, p, cs, ce) && cs[t] <= w < ce[t]
    ensures w < |p| && !(c.First() <= w < cs[c.ss]) && !(ce[c.ss] <= w < c.End())
    ensures forall u :: 0 <= u < RADIX ==> !(c.From(u) <= w < cs[u]) && !(ce[u] <= w < c.Past(u))
  {
    hide Placed, Scene.Ok;
    BigBucket(c);
    Cursors(c, p, cs, ce);
  }

  lemma SliceKept(p: seq<nat>, w: nat, k: nat, lo: nat, hi: nat)
    requires w < |p| && lo <= hi <= |p| && !(lo <= w < hi)
    ensures p[w := k][lo..hi] == p[lo..hi]
  {
  }

  lemma SliceGrown(p: seq<nat>, lo: nat, w: nat, k: nat)
    requires lo <= w < |p|
    ensures p[w := k][lo..w + 1] == p[lo..w] + [k]
  {
  }

  lemma PredsAround(b: seq<Byte>, ql: seq<nat>, q: nat, qr: seq<nat>, u: Byte)
    requires InBlock(b, ql) && InBlock(b, qr) && q < |b|
    ensures InBlock(b, ql + [q]) && InBlock(b, [q] + qr)
    ensures Preds(b, ql + [q], u) == if b[Prev(|b|, q)] == u then Preds(b, ql, u) + [Prev(|b|, q)] else Preds(b, ql, u)
    ensures Preds(b, [q] + qr, u) == if b[Prev(|b|, q)] == u then [Prev(|b|, q)] + Preds(b, qr, u) else Preds(b, qr, u)
  {
    hide Preds;
    PredsOfSum(b, ql, [q], u);
    PredsOfSum(b, [q], qr, u);
    PredsOfOne(b, q, u);
  }

  lemma FilledAt(c: Scene, p: seq<nat>, cs: seq<nat>, ce: seq<nat>, ql: seq<nat>, qr: seq<nat>, t: Byte)
    requires c.Ok() && Placed(c, p, cs, ce) && InBlock(c.b, ql) && InBlock(c.b, qr) && Filled(c, p, cs, ce, ql, qr) && !c.done[t]
    ensures c.From(t) <= cs[t] <= ce[t] <= c.Past(t) <= |p|
    ensures p[c.From(t)..cs[t]] == Preds(c.b, ql, t) && p[ce[t]..c.Past(t)] == Preds(c.b, qr, t)
  {
    hide Scene.Ok;
    BigBucket(c);
  }

  lemma FilledIs(c: Scene, p: seq<nat>, cs: seq<nat>, ce: seq<nat>, ql: seq<nat>, qr: seq<nat>)
    requires c.Ok() && Placed(c, p, cs, ce) && InBlock(c.b, ql) && InBlock(c.b, qr)
    requires forall t :: 0 <= t < RADIX && !c.done[t] ==>
               c.Past(t) <= |p| && p[c.From(t)..cs[t]] == Preds(c.b, ql, t) && p[ce[t]..c.Past(t)] == Preds(c.b, qr, t)
    ensures Filled(c, p, cs, ce, ql, qr)
  {
  }

  /** One small bucket. */
  lemma LeftAt(b: seq<Byte>, p: seq<nat>, from: nat, cs: nat, ce: nat, past: nat, w: nat, k: nat, ql: seq<nat>, q: nat, qr: seq<nat>, u: Byte)
    requires from <= cs <= ce <= past <= |p| && w < |p| && InBlock(b, ql) && InBlock(b, qr) && q < |b| && k == Prev(|b|, q)
    requires p[from..cs] == Preds(b, ql, u) && p[ce..past] == Preds(b, qr, u)
    requires if u == b[k] then w == cs < ce else !(from <= w < cs) && !(ce <= w < past)
    ensures InBlock(b, ql + [q]) && p[w := k][from..if u == b[k] then cs + 1 else cs] == Preds(b, ql + [q], u)
    ensures p[w := k][ce..past] == Preds(b, qr, u)
  {
    hide Preds, InBlock;
    PredsAround(b, ql, q, qr, u);
    SliceKept(p, w, k, ce, past);
    if u == b[k] { SliceGrown(p, from, w, k); } else { SliceKept(p, w, k, from, cs); }
  }

  lemma RightAt(b: seq<Byte>, p: seq<nat>, from: nat, cs: nat, ce: nat, past: nat, w: nat, k: nat, ql: seq<nat>, q: nat, qr: seq<nat>, u: Byte)
    requires from <= cs <= ce <= past <= |p| && w < |p| && InBlock(b, ql) && InBlock(b, qr) && q < |b| && k == Prev(|b|, q)
    requires p[from..cs] == Preds(b, ql, u) && p[ce..past] == Preds(b, qr, u)
    requires if u == b[k] then cs <= w == ce - 1 else !(from <= w < cs) && !(ce <= w < past)
    ensures p[w := k][from..cs] == Preds(b, ql, u)
    ensures InBlock(b, [q] + qr) && p[w := k][(if u == b[k] then ce - 1 else ce)..past] == Preds(b, [q] + qr, u)
  {
    hide Preds, InBlock;
    PredsAround(b, ql, q, qr, u);
    SliceKept(p, w, k, from, cs);
    if u == b[k] { SliceGrownDown(p, w, past, k); } else { SliceKept(p, w, k, ce, past); }
  }

  lemma FilledLeftAt(c: Scene, p: seq<nat>, cs: seq<nat>, ce: seq<nat>, ql: seq<nat>, qr: seq<nat>, q: nat, k: nat, t: Byte, u: Byte)
    requires c.Ok() && Placed(c, p, cs, ce) && InBlock(c.b, ql) && InBlock(c.b, qr) && Filled(c, p, cs, ce, ql, qr) && q < |c.b|
    requires k == Prev(|c.b|, q) && t == c.b[k] && !c.done[t] && cs[t] < ce[t] && !c.done[u]
    ensures cs[t] < |p| && c.From(u) <= cs[t := cs[t] + 1][u] <= |p| && ce[u] <= c.Past(u) <= |p| && InBlock(c.b, ql + [q])
    ensures p[cs[t] := k][c.From(u)..cs[t := cs[t] + 1][u]] == Preds(c.b, ql + [q], u)
    ensures p[cs[t] := k][ce[u]..c.Past(u)] == Preds(c.b, qr, u)
  {
    hide Placed, Scene.Ok, Code, Preds, Filled, InBlock;
    BigBucket(c);
    Cursors(c, p, cs, ce);
    var w := cs[t];
    Between(c, p, cs, ce, t, w);
    FilledAt(c, p, cs, ce, ql, qr, u);
    LeftAt(c.b, p, c.From(u), cs[u], ce[u], c.Past(u), w, k, ql, q, qr, u);
  }

  lemma FilledLeft(c: Scene, p: seq<nat>, cs: seq<nat>, ce: seq<nat>, ql: seq<nat>, qr: seq<nat>, q: nat, k: nat, t: Byte)
    requires c.Ok() && Placed(c, p, cs, ce) && InBlock(c.b, ql) && InBlock(c.b, qr) && Filled(c, p, cs, ce, ql, qr) && q < |c.b|
    requires k == Prev(|c.b|, q) && t == c.b[k] && !c.done[t] && cs[t] < ce[t]
    ensures cs[t] < |p| && Placed(c, p[cs[t] := k], cs[t := cs[t] + 1], ce)
            && Filled(c, p[cs[t] := k], cs[t := cs[t] + 1], ce, ql + [q], qr)
  {
    hide Placed, Scene.Ok, Code, Preds, Filled, InBlock;
    BigBucket(c);
    Cursors(c, p, cs, ce);
    PlacedLeft(c, p, cs, ce, t, k);
    PredsAround(c.b, ql, q, qr, t);
    forall u: Byte | !c.done[u] { FilledLeftAt(c, p, cs, ce, ql, qr, q, k, t, u); }
    FilledIs(c, p[cs[t] := k], cs[t := cs[t] + 1], ce, ql + [q], qr);
  }

  lemma KnownLeft(c: Scene, p: seq<nat>, cs: seq<nat>, ce: seq<nat>, ql: seq<nat>, qr: seq<nat>, q: nat, k: nat, t: Byte)
    requires c.Ok() && Placed(c, p, cs, ce) && InBlock(c.b, ql) && InBlock(c.b, qr) && Filled(c, p, cs, ce, ql, qr)
    requires q < |c.b| && q !in ql && q !in qr && c.b[q] == c.ss && k == Prev(|c.b|, q) && t == c.b[k] && !c.done[t] && cs[t] < ce[t]
    requires Distinct(Known(c, p, cs, ce)) && Heads(c, Known(c, p, cs, ce))
    ensures cs[t] < |p| && Placed(c, p[cs[t] := k], cs[t := cs[t] + 1], ce)
    ensures Distinct(Known(c, p[cs[t] := k], cs[t := cs[t] + 1], ce)) && Heads(c, Known(c, p[cs[t] := k], cs[t := cs[t] + 1], ce))
  {
    hide Placed, Scene.Ok, Code, Preds, Distinct, Heads, Filled;
    BigBucket(c);
    Cursors(c, p, cs, ce);
    PlacedLeft(c, p, cs, ce, t, k);
    var w := cs[t];
    Between(c, p, cs, ce, t, w);
    SliceKept(p, w, k, ce[c.ss], c.End());
    if t == c.ss {
      NotKnown(c, p, cs, ce, ql, qr, q);
      SliceGrown(p, c.First(), w, k);
      InsertDistinct(c, p[c.First()..w], k, p[ce[c.ss]..c.End()]);
    } else {
      SliceKept(p, w, k, c.First(), cs[c.ss]);
    }
  }

  /** The rotation scanned next is none of those scanned before. */
  lemma NewLeft(c: Scene, p: seq<nat>, cs: seq<nat>, ce: seq<nat>, l: nat, r: nat)
    requires c.Ok() && Placed(c, p, cs, ce) && Scanned(c, p, cs, ce, l, r) && l < cs[c.ss]
    ensures l < |p| && p[l] < |c.b| && c.b[p[l]] == c.ss && p[l] !in p[c.First()..l] && p[l] !in p[r..c.End()]
    ensures p[c.First()..l + 1] == p[c.First()..l] + [p[l]]
  {
    hide Placed, Scene.Ok, Code, Preds, Filled, Known, Distinct;
    BigBucket(c);
    Cursors(c, p, cs, ce);
    KnownPart(c, p, cs, ce, l + 1, r);
    var x := p[c.First()..l + 1];
    NewHead(x, p[r..c.End()], l - c.First());
    HeadsInner(c, x, p[r..c.End()], 0, 0);
    assert x[l - c.First()] == p[l];
    assert x[..l - c.First()] == p[c.First()..l];
  }

  lemma StepLeft(c: Scene, p: seq<nat>, cs: seq<nat>, ce: seq<nat>, l: nat, r: nat, k: nat, t: Byte)
    requires c.Ok() && Placed(c, p, cs, ce) && Scanned(c, p, cs, ce, l, r) && l < cs[c.ss]
    requires k == Prev(|c.b|, p[l]) && t == c.b[k] && !c.done[t]
    ensures cs[t] < ce[t] <= |p| && Placed(c, p[cs[t] := k], cs[t := cs[t] + 1], ce)
    ensures Scanned(c, p[cs[t] := k], cs[t := cs[t] + 1], ce, l + 1, r)
  {
    hide Placed, Scene.Ok, Code, Distinct, Heads, Preds, Known, Filled;
    BigBucket(c);
    Cursors(c, p, cs, ce);
    NewLeft(c, p, cs, ce, l, r);
    RoomLeft(c, p, cs, ce, l, r, t);
    PlacedLeft(c, p, cs, ce, t, k);
    var w := cs[t];
    Between(c, p, cs, ce, t, w);
    var ql, qr := p[c.First()..l], p[r..c.End()];
    FilledLeft(c, p, cs, ce, ql, qr, p[l], k, t);
    KnownLeft(c, p, cs, ce, ql, qr, p[l], k, t);
    SliceKept(p, w, k, c.First(), l + 1);
    SliceKept(p, w, k, r, c.End());
  }

  lemma SliceGrownDown(p: seq<nat>, w: nat, hi: nat, k: nat)
    requires w < hi <= |p|
    ensures p[w := k][w..hi] == [k] + p[w + 1..hi]
  {
  }

  lemma FilledRightAt(c: Scene, p: seq<nat>, cs: seq<nat>, ce: seq<nat>, ql: seq<nat>, qr: seq<nat>, q: nat, k: nat, t: Byte, u: Byte)
    requires c.Ok() && Placed(c, p, cs, ce) && InBlock(c.b, ql) && InBlock(c.b, qr) && Filled(c, p, cs, ce, ql, qr) && q < |c.b|
    requires k == Prev(|c.b|, q) && t == c.b[k] && !c.done[t] && cs[t] < ce[t] && !c.done[u]
    ensures ce[t] <= |p| && c.From(u) <= cs[u] <= |p| && ce[t := ce[t] - 1][u] <= c.Past(u) <= |p| && InBlock(c.b, [q] + qr)
    ensures p[ce[t] - 1 := k][c.From(u)..cs[u]] == Preds(c.b, ql, u)
    ensures p[ce[t] - 1 := k][ce[t := ce[t] - 1][u]..c.Past(u)] == Preds(c.b, [q] + qr, u)
  {
    hide Placed, Scene.Ok, Code, Preds, Filled, InBlock;
    BigBucket(c);
    Cursors(c, p, cs, ce);
    var w := ce[t] - 1;
    Between(c, p, cs, ce, t, w);
    FilledAt(c, p, cs, ce, ql, qr, u);
    RightAt(c.b, p, c.From(u), cs[u], ce[u], c.Past(u), w, k, ql, q, qr, u);
  }

  lemma FilledRight(c: Scene, p: seq<nat>, cs: seq<nat>, ce: seq<nat>, ql: seq<nat>, qr: seq<nat>, q: nat, k: nat, t: Byte)
    requires c.Ok() && Placed(c, p, cs, ce) && InBlock(c.b, ql) && InBlock(c.b, qr) && Filled(c, p, cs, ce, ql, qr) && q < |c.b|
    requires k == Prev(|c.b|, q) && t == c.b[k] && !c.done[t] && cs[t] < ce[t]
    ensures ce[t] <= |p| && Placed(c, p[ce[t] - 1 := k], cs, ce[t := ce[t] - 1])
            && Filled(c, p[ce[t] - 1 := k], cs, ce[t := ce[t] - 1], ql, [q] + qr)
  {
    hide Placed, Scene.Ok, Code, Preds, Filled, InBlock;
    BigBucket(c);
    Cursors(c, p, cs, ce);
    PlacedRight(c, p, cs, ce, t, k);
    PredsAround(c.b, ql, q, qr, t);
    forall u: Byte | !c.done[u] { FilledRightAt(c, p, cs, ce, ql, qr, q, k, t, u); }
    FilledIs(c, p[ce[t] - 1 := k], cs, ce[t := ce[t] - 1], ql, [q] + qr);
  }

  lemma KnownRight(c: Scene, p: seq<nat>, cs: seq<nat>, ce: seq<nat>, ql: seq<nat>, qr: seq<nat>, q: nat, k: nat, t: Byte)
    requires c.Ok() && Placed(c, p, cs, ce) && InBlock(c.b, ql) && InBlock(c.b, qr) && Filled(c, p, cs, ce, ql, qr)
    requires q < |c.b| && q !in ql && q !in qr && c.b[q] == c.ss && k == Prev(|c.b|, q) && t == c.b[k] && !c.done[t] && cs[t] < ce[t]
    requires Distinct(Known(c, p, cs, ce)) && Heads(c, Known(c, p, cs, ce))
    ensures ce[t] <= |p| && Placed(c, p[ce[t] - 1 := k], cs, ce[t := ce[t] - 1])
    ensures Distinct(Known(c, p[ce[t] - 1 := k], cs, ce[t := ce[t] - 1])) && Heads(c, Known(c, p[ce[t] - 1 := k], cs, ce[t := ce[t] - 1]))
  {
    hide Placed, Scene.Ok, Code, Preds, Distinct, Heads, Filled;
    BigBucket(c);
    Cursors(c, p, cs, ce);
    PlacedRight(c, p, cs, ce, t, k);
    var w := ce[t] - 1;
    Between(c, p, cs, ce, t, w);
    SliceKept(p, w, k, c.First(), cs[c.ss]);
    if t == c.ss {
      NotKnown(c, p, cs, ce, ql, qr, q);
      SliceGrownDown(p, w, c.End(), k);
      var x, y := p[c.First()..cs[c.ss]], p[w + 1..c.End()];
      InsertDistinct(c, x, k, y);
      assert x + ([k] + y) == x + [k] + y;
    } else {
      SliceKept(p, w, k, ce[c.ss], c.End());
    }
  }

  lemma NewRight(c: Scene, p: seq<nat>, cs: seq<nat>, ce: seq<nat>, l: nat, r: nat)
    requires c.Ok() && Placed(c, p, cs, ce) && Scanned(c, p, cs, ce, l, r) && r > ce[c.ss]
    ensures r <= |p| && p[r - 1] < |c.b| && c.b[p[r - 1]] == c.ss && p[r - 1] !in p[c.First()..l] && p[r - 1] !in p[r..c.End()]
    ensures p[r - 1..c.End()] == [p[r - 1]] + p[r..c.End()]
  {
    hide Placed, Scene.Ok, Code, Preds, Filled, Known, Distinct;
    BigBucket(c);
    Cursors(c, p, cs, ce);
    KnownPart(c, p, cs, ce, l, r - 1);
    var x, y := p[c.First()..l], p[r - 1..c.End()];
    FirstHead(x, y);
    HeadsInner(c, x, y, 0, 0);
    assert y[0] == p[r - 1] && y[1..] == p[r..c.End()];
  }

  lemma FirstHead(x: seq<nat>, y: seq<nat>)
    requires Distinct(x + y) && y != []
    ensures y[0] !in x && y[0] !in y[1..]
  {
    InnerDistinct(x, y, 0, 0);
  }

  lemma StepRight(c: Scene, p: seq<nat>, cs: seq<nat>, ce: seq<nat>, l: nat, r: nat, k: nat, t: Byte)
    requires c.Ok() && Placed(c, p, cs, ce) && Scanned(c, p, cs, ce, l, r) && r > ce[c.ss]
    requires k == Prev(|c.b|, p[r - 1]) && t == c.b[k] && !c.done[t]
    ensures cs[t] < ce[t] <= |p| && Placed(c, p[ce[t] - 1 := k], cs, ce[t := ce[t] - 1])
    ensures Scanned(c, p[ce[t] - 1 := k], cs, ce[t := ce[t] - 1], l, r - 1)
  {
    hide Placed, Scene.Ok, Code, Distinct, Heads, Preds, Known, Filled;
    BigBucket(c);
    Cursors(c, p, cs, ce);
    NewRight(c, p, cs, ce, l, r);
    RoomRight(c, p, cs, ce, l, r, t);
    PlacedRight(c, p, cs, ce, t, k);
    var w := ce[t] - 1;
    Between(c, p, cs, ce, t, w);
    var ql, qr := p[c.First()..l], p[r..c.End()];
    FilledRight(c, p, cs, ce, ql, qr, p[r - 1], k, t);
    KnownRight(c, p, cs, ce, ql, qr, p[r - 1], k, t);
    SliceKept(p, w, k, c.First(), l);
    SliceKept(p, w, k, r - 1, c.End());
  }

  lemma NewHead(x: seq<nat>, y: seq<nat>, i: nat)
    requires Distinct(x + y) && i < |x|
    ensures x[i] !in x[..i] && x[i] !in y
  {
    InnerDistinct(x, y, 0, 0);
  }

  lemma InsertDistinct(c: Scene, x: seq<nat>, k: nat, y: seq<nat>)
    requires Distinct(x + y) && Heads(c, x + y) && k !in x + y && k < |c.b| && c.b[k] == c.ss
    ensures Distinct(x + [k] + y) && Heads(c, x + [k] + y)
  {
    InnerDistinct(x, y, 0, 0);
    HeadsInner(c, x, y, 0, 0);
  }
}
