/** makeMaps_e, makeMaps_d and generateMTFValues: from the sorted rotations of a block to its MTF symbols. */
module GenerateMtf {
  import opened Sequences
  import opened Rotations
  import opened InverseBwt
  import opened MoveToFront

  /** How many characters below c are in use. */
  function UsedBelow(inUse: seq<bool>, c: nat): (k: nat)
    requires c <= |inUse|
    ensures k <= c
  {
    if c == 0 then 0 else UsedBelow(inUse, c - 1) + if inUse[c - 1] then 1 else 0
  }

  function NInUse(inUse: seq<bool>): (k: nat)
    ensures k <= |inUse|
  {
    UsedBelow(inUse, |inUse|)
  }

  /** The characters below c that are in use, in order. */
  function UsedCharacters(inUse: seq<bool>, c: nat): (s: seq<nat>)
    requires c <= |inUse|
    ensures |s| == UsedBelow(inUse, c)
    ensures forall k :: 0 <= k < |s| ==> s[k] < c && inUse[s[k]]
  {
    if c == 0 then [] else UsedCharacters(inUse, c - 1) + if inUse[c - 1] then [c - 1] else []
  }

  /** The two maps are inverse on the characters in use. */
  lemma {:induction false} MapsInverse(inUse: seq<bool>, c: nat, d: nat)
    requires c < d <= |inUse| && inUse[c]
    ensures UsedBelow(inUse, c) < UsedBelow(inUse, d)
    ensures UsedCharacters(inUse, d)[UsedBelow(inUse, c)] == c
    decreases d
  {
    if c < d - 1 { MapsInverse(inUse, c, d - 1); }
  }

  ghost predicate AllInUse(inUse: seq<bool>, l: seq<Byte>) {
    |inUse| == 256 && forall k :: 0 <= k < |l| ==> inUse[l[k]]
  }

  /** The column renumbered by the characters in use. */
  function Renumber(inUse: seq<bool>, l: seq<Byte>): (s: seq<nat>)
    requires |inUse| == 256
    ensures |s| == |l|
  {
    seq(|l|, k requires 0 <= k < |l| => UsedBelow(inUse, l[k]))
  }

  /** Character number k of those in use. */
  function Letter(inUse: seq<bool>, k: nat): Byte
    requires |inUse| == 256 && k < NInUse(inUse)
  {
    UsedCharacters(inUse, |inUse|)[k]
  }

  function Unnumber(inUse: seq<bool>, s: seq<nat>): (l: seq<Byte>)
    requires |inUse| == 256 && forall k :: 0 <= k < |s| ==> s[k] < NInUse(inUse)
    ensures |l| == |s|
  {
    seq(|s|, k requires 0 <= k < |s| && s[k] < NInUse(inUse) => Letter(inUse, s[k]))
  }

  lemma RenumberInRange(inUse: seq<bool>, l: seq<Byte>)
    requires AllInUse(inUse, l)
    ensures forall k :: 0 <= k < |l| ==> Renumber(inUse, l)[k] < NInUse(inUse)
    ensures Unnumber(inUse, Renumber(inUse, l)) == l
  {
    forall k | 0 <= k < |l|
      ensures Renumber(inUse, l)[k] < NInUse(inUse)
      ensures Letter(inUse, Renumber(inUse, l)[k]) == l[k]
    {
      MapsInverse(inUse, l[k], |inUse|);
    }
  }

  method MakeMapsE(inUse: seq<bool>) returns (unseqToSeq: array<nat>, nInUse: nat)
    requires |inUse| == 256
    ensures fresh(unseqToSeq) && unseqToSeq.Length == 256 && nInUse == NInUse(inUse)
    ensures forall c :: 0 <= c < 256 && inUse[c] ==> unseqToSeq[c] == UsedBelow(inUse, c)
  {
    unseqToSeq, nInUse := new nat[256], 0;
    for i := 0 to 256
      invariant nInUse == UsedBelow(inUse, i)
      invariant forall c :: 0 <= c < i && inUse[c] ==> unseqToSeq[c] == UsedBelow(inUse, c)
    {
      if inUse[i] {
        unseqToSeq[i] := nInUse;
        nInUse := nInUse + 1;
      }
    }
  }

  method MakeMapsD(inUse: seq<bool>) returns (seqToUnseq: seq<nat>, nInUse: nat)
    requires |inUse| == 256
    ensures seqToUnseq == UsedCharacters(inUse, |inUse|) && nInUse == NInUse(inUse)
  {
    seqToUnseq, nInUse := [], 0;
    for i := 0 to 256
      invariant nInUse == UsedBelow(inUse, i) && seqToUnseq == UsedCharacters(inUse, i)
    {
      if inUse[i] {
        seqToUnseq := seqToUnseq + [i];
        nInUse := nInUse + 1;
      }
    }
  }

  /** Write the digits of a pending run. */
  method EmitRun(mtfv: array<nat>, wr: nat, run: nat) returns (wr': nat)
    requires run > 0 && wr + run <= mtfv.Length
    modifies mtfv
    ensures wr <= wr' <= wr + run && mtfv[..wr'] == old(mtfv[..wr]) + RunDigits(run)
  {
    hide RunDigits;
    ghost var s0, s := mtfv[..wr], mtfv[..wr];
    wr' := wr;
    var zPend: nat := run - 1;
    while true
      invariant wr <= wr' && wr' + zPend + 1 <= wr + run
      invariant mtfv[..wr'] == s && s + RunDigits(zPend + 1) == s0 + RunDigits(run)
      decreases zPend
    {
      var d := if zPend % 2 == 1 then RUNB else RUNA;
      mtfv[wr'] := d;
      wr' := wr' + 1;
      LeastDigit(s, zPend);
      s := s + [d];
      assert mtfv[..wr'] == s;
      if zPend < 2 { break; }
      zPend := (zPend - 2) / 2;
    }
  }

  /** The same when there may be none. */
  method FlushRun(mtfv: array<nat>, wr: nat, zPend: nat) returns (wr': nat)
    requires wr + zPend <= mtfv.Length
    modifies mtfv
    ensures wr <= wr' <= wr + zPend && mtfv[..wr'] == old(mtfv[..wr]) + RunDigits(zPend)
  {
    wr' := wr;
    if zPend > 0 {
      wr' := EmitRun(mtfv, wr, zPend);
    }
  }

  lemma LeastDigit(s: seq<nat>, zPend: nat)
    ensures var d := if zPend % 2 == 1 then RUNB else RUNA;
            s + RunDigits(zPend + 1) == (s + [d]) + if zPend < 2 then [] else RunDigits((zPend - 2) / 2 + 1)
  {
    hide RunDigits;
    var d, z := if zPend % 2 == 1 then RUNB else RUNA, if zPend < 2 then 0 else (zPend - 2) / 2 + 1;
    assert z == (zPend + 1 - (d + 1)) / 2;
    UnfoldDigits(zPend + 1, d, z);
    assert s + ([d] + RunDigits(z)) == (s + [d]) + RunDigits(z);
  }

  lemma UnfoldDigits(x: nat, d: nat, z: nat)
    requires x > 0 && d == (if x % 2 == 1 then RUNA else RUNB) && z == (x - (d + 1)) / 2
    ensures RunDigits(x) == [d] + RunDigits(z) && RunDigits(0) == []
  {
  }

  lemma InPrefix(y: seq<nat>, k: nat, j: nat)
    requires k < j <= |y|
    ensures y[k] in y[..j]
  {
    assert y[..j][k] == y[k];
  }

  lemma FirstIndexIs(y: seq<nat>, x: nat, j: nat)
    requires j < |y| && y[j] == x && x !in y[..j]
    ensures x in y && FirstIndex(y, x) == j
  {
    var k := FirstIndex(y, x);
    if k < j { InPrefix(y, k, j); }
    if j < k { InPrefix(y, j, k); }
  }

  lemma ToFrontIs(y: seq<nat>, j: nat, r: seq<nat>)
    requires 0 < |r| == |y| && j < |y| && r[0] == y[j]
    requires forall k :: 1 <= k <= j ==> r[k] == y[k - 1]
    requires forall k :: j < k < |y| ==> r[k] == y[k]
    ensures r == ToFront(y, j)
  {
  }

  /** Find x behind the front of the list yy[..n], and move it to the front. */
  method MoveUp(yy: array<nat>, n: nat, x: nat) returns (j: nat)
    requires 0 < n <= yy.Length && x in yy[..n] && yy[0] != x
    modifies yy
    ensures x in old(yy[..n]) && j == FirstIndex(old(yy[..n]), x)
    ensures yy[..n] == ToFront(old(yy[..n]), j)
  {
    ghost var y := yy[..n];
    ghost var at :| 0 <= at < n && y[at] == x;
    var rtmp := yy[1];
    yy[1] := yy[0];
    j := 1;
    while x != rtmp
      invariant 1 <= j <= at < n && rtmp == y[j] && x !in y[..j]
      invariant forall k :: 1 <= k <= j ==> yy[k] == y[k - 1]
      invariant forall k :: j < k < n ==> yy[k] == y[k]
      decreases n - j
    {
      j := j + 1;
      var rtmp2 := rtmp;
      rtmp := yy[j];
      yy[j] := rtmp2;
    }
    yy[0] := rtmp;
    FirstIndexIs(y, x, j);
    ToFrontIs(y, j, yy[..n]);
  }

  /** With i places of the column l read, what is written, and what the rest will need, is the whole encoding. */
  ghost predicate Generating(l: seq<nat>, n: nat, i: nat, y: seq<nat>, zPend: nat, written: seq<nat>) {
    && 0 < n == |y| && i <= |l|
    && (forall k :: 0 <= k < |l| ==> l[k] < n)
    && Lists(y, l[i..])
    && written + (EncodeFrom(l[i..], y, zPend) + [n + 1]) == Encode(l, n)
    && |written| + zPend <= i
  }

  lemma ReadFront(l: seq<nat>, n: nat, i: nat, y: seq<nat>, zPend: nat, written: seq<nat>)
    requires Generating(l, n, i, y, zPend, written) && i < |l| && y[0] == l[i]
    ensures Generating(l, n, i + 1, y, zPend + 1, written)
  {
    hide Encode;
    assert l[i..][1..] == l[i + 1..];
  }

  lemma EncodeOther(l: seq<nat>, y: seq<nat>, zPend: nat)
    requires Lists(y, l) && l != [] && y[0] != l[0]
    ensures l[0] in y && Lists(ToFront(y, FirstIndex(y, l[0])), l[1..])
    ensures var j := FirstIndex(y, l[0]);
            EncodeFrom(l, y, zPend) == RunDigits(zPend) + [j + 1] + EncodeFrom(l[1..], ToFront(y, j), 0)
  {
    ListsTail(y, l, 0);
    ListsTail(y, l, FirstIndex(y, l[0]));
  }

  lemma ReadOther(l: seq<nat>, n: nat, i: nat, y: seq<nat>, zPend: nat, written: seq<nat>)
    requires Generating(l, n, i, y, zPend, written) && i < |l| && y[0] != l[i]
    ensures l[i] in y
    ensures var j := FirstIndex(y, l[i]);
            Generating(l, n, i + 1, ToFront(y, j), 0, written + RunDigits(zPend) + [j + 1])
  {
    hide Encode, EncodeFrom, ToFront, RunDigits;
    EncodeOther(l[i..], y, zPend);
    assert l[i..][1..] == l[i + 1..] && l[i..][0] == l[i];
    var j := FirstIndex(y, l[i]);
    var tail := EncodeFrom(l[i + 1..], ToFront(y, j), 0);
    assert written + (RunDigits(zPend) + [j + 1] + tail + [n + 1])
        == (written + RunDigits(zPend) + [j + 1]) + (tail + [n + 1]);
  }

  lemma GeneratingStarts(l: seq<nat>, n: nat)
    requires n > 0 && forall k :: 0 <= k < |l| ==> l[k] < n
    ensures Generating(l, n, 0, Iota(n), 0, [])
  {
    assert forall k :: 0 <= k < |l| ==> l[k] == Iota(n)[l[k]];
    assert l[0..] == l;
  }

  lemma GeneratingEnds(l: seq<nat>, n: nat, y: seq<nat>, zPend: nat, written: seq<nat>)
    requires Generating(l, n, |l|, y, zPend, written)
    ensures written + RunDigits(zPend) + [n + 1] == Encode(l, n)
    ensures |RunDigits(zPend)| <= zPend
  {
    hide Encode;
    assert l[|l|..] == [];
  }

  /** Write the MTF symbols of the column that ptr sorts. The write index never passes the read index,
      which is what lets the source keep both in one array. */
  method GenerateMtfValues(ptr: array<nat>, block: array<Byte>, inUse: seq<bool>, mtfv: array<nat>)
    returns (nMTF: nat, nInUse: nat)
    requires ptr.Length == block.Length > 0 && mtfv.Length > block.Length
    requires mtfv != ptr && mtfv as object != block
    requires IsPermutation(ptr[..]) && AllInUse(inUse, block[..])
    modifies mtfv
    ensures nInUse == NInUse(inUse) > 0 && nMTF <= block.Length + 1
    ensures AllInUse(inUse, LastColumn(block[..], ptr[..]))
    ensures forall k :: 0 <= k < block.Length ==> Renumber(inUse, LastColumn(block[..], ptr[..]))[k] < nInUse
    ensures mtfv[..nMTF] == Encode(Renumber(inUse, LastColumn(block[..], ptr[..])), nInUse)
  {
    hide Generating, Encode, EncodeFrom, FirstIndex, RunDigits, ToFront, UsedBelow, NInUse, IsPermutation, LastColumn, Renumber, AllInUse;
    ghost var b, p := block[..], ptr[..];
    PermutationIndexes(p);
    ghost var column := LastColumn(b, p);
    ColumnInUse(inUse, b, p);
    ghost var l := Renumber(inUse, column);
    RenumberInRange(inUse, column);
    var nblock := block.Length;
    var unseqToSeq;
    unseqToSeq, nInUse := MakeMapsE(inUse);
    var yy := new nat[256];
    assert l[0] < nInUse;
    ghost var maps := unseqToSeq[..];
    for i := 0 to nInUse
      invariant unseqToSeq[..] == maps && forall k :: 0 <= k < i ==> yy[k] == k
    {
      yy[i] := i;
    }
    assert yy[..nInUse] == Iota(nInUse);
    GeneratingStarts(l, nInUse);
    var zPend := 0;
    nMTF := 0;
    for i := 0 to nblock
      invariant nMTF <= i && nMTF + zPend <= i
      invariant block[..] == b && ptr[..] == p && unseqToSeq[..] == maps
      invariant Generating(l, nInUse, i, yy[..nInUse], zPend, mtfv[..nMTF])
    {
      assert nMTF <= i;
      ghost var y, written := yy[..nInUse], mtfv[..nMTF];
      var j: int := ptr[i] as int - 1;
      if j < 0 { j := j + nblock; }
      var ll := unseqToSeq[block[j]];
      assert ll == l[i] by { ColumnEntry(inUse, b, p, i, j); }
      if yy[0] == ll {
        ReadFront(l, nInUse, i, y, zPend, written);
        zPend := zPend + 1;
      } else {
        ReadOther(l, nInUse, i, y, zPend, written);
        ghost var run := RunDigits(zPend);
        nMTF := FlushRun(mtfv, nMTF, zPend);
        zPend := 0;
        var k := MoveUp(yy, nInUse, ll);
        assert mtfv[..nMTF] == written + run;
        mtfv[nMTF] := k + 1;
        nMTF := nMTF + 1;
        assert mtfv[..nMTF] == written + run + [k + 1];
      }
    }
    GeneratingEnds(l, nInUse, yy[..nInUse], zPend, mtfv[..nMTF]);
    nMTF := FlushRun(mtfv, nMTF, zPend);
    mtfv[nMTF] := nInUse + 1;
    nMTF := nMTF + 1;
  }

  lemma ColumnInUse(inUse: seq<bool>, b: seq<Byte>, p: seq<nat>)
    requires |p| == |b| && (forall k :: 0 <= k < |p| ==> p[k] < |b|) && AllInUse(inUse, b)
    ensures |inUse| == 256 && AllInUse(inUse, LastColumn(b, p))
  {
  }

  lemma ColumnEntry(inUse: seq<bool>, b: seq<Byte>, p: seq<nat>, i: nat, j: nat)
    requires |p| == |b| && (forall k :: 0 <= k < |p| ==> p[k] < |b|) && i < |b| && j == Prev(|b|, p[i]) < |b|
    requires |inUse| == 256 && AllInUse(inUse, b)
    ensures inUse[b[j]] && Renumber(inUse, LastColumn(b, p))[i] == UsedBelow(inUse, b[j])
  {
  }

  lemma PermutationIndexes(p: seq<nat>)
    requires IsPermutation(p)
    ensures forall i :: 0 <= i < |p| ==> p[i] < |p|
  {
  }
}
