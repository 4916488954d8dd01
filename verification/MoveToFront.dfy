/** The second stage of the compressor: move-to-front coding, with the runs of
    zeros that it makes written in bijective base two with the digits RUNA and RUNB. */
module MoveToFront {
  import opened Sequences
  import opened Powers

  const RUNA := 0
  const RUNB := 1

  function ToFront<T>(y: seq<T>, j: nat): (r: seq<T>)
    requires j < |y|
    ensures |r| == |y| && multiset(r) == multiset(y)
  {
    assert y == y[..j] + [y[j]] + y[j + 1..];
    [y[j]] + y[..j] + y[j + 1..]
  }

  function FirstIndex<T(==)>(y: seq<T>, x: T): (j: nat)
    requires x in y
    ensures j < |y| && y[j] == x && x !in y[..j]
  {
    if y[0] == x then 0 else
    assert forall k :: 0 < k < |y| ==> y[k] == y[1..][k - 1];
    1 + FirstIndex(y[1..], x)
  }

  /** z in bijective base two, least digit first: RUNA stands for 1 and RUNB for 2. */
  function RunDigits(z: nat): (d: seq<nat>)
    ensures |d| <= z && (z > 0 ==> d != [])
    ensures forall k :: 0 <= k < |d| ==> d[k] == RUNA || d[k] == RUNB
  {
    if z == 0 then []
    else if z % 2 == 1 then [RUNA] + RunDigits((z - 1) / 2)
    else [RUNB] + RunDigits((z - 2) / 2)
  }

  /** Every entry of the column is in the list. */
  ghost predicate Lists(y: seq<nat>, l: seq<nat>) {
    y != [] && forall k :: 0 <= k < |l| ==> l[k] in y
  }

  lemma FrontKeepsMembers<T>(y: seq<T>, j: nat)
    requires j < |y|
    ensures forall x :: x in y <==> x in ToFront(y, j)
  {
    assert forall x :: x in y <==> x in multiset(y);
    assert forall x :: x in ToFront(y, j) <==> x in multiset(ToFront(y, j));
  }

  lemma ListsTail(y: seq<nat>, l: seq<nat>, j: nat)
    requires Lists(y, l) && l != [] && j < |y|
    ensures l[0] in y && Lists(y, l[1..]) && Lists(ToFront(y, j), l[1..])
  {
    FrontKeepsMembers(y, j);
  }

  /** The symbols for the column l, from the list y and with zPend copies of its front still to write. */
  function EncodeFrom(l: seq<nat>, y: seq<nat>, zPend: nat): (s: seq<nat>)
    requires Lists(y, l)
    decreases |l|
  {
    if l == [] then RunDigits(zPend)
    else
      ListsTail(y, l, 0);
      if y[0] == l[0] then EncodeFrom(l[1..], y, zPend + 1)
      else
        var j := FirstIndex(y, l[0]);
        ListsTail(y, l, j);
        RunDigits(zPend) + [j + 1] + EncodeFrom(l[1..], ToFront(y, j), 0)
  }

  function Iota(n: nat): (y: seq<nat>)
    ensures |y| == n && forall k :: 0 <= k < n ==> y[k] == k
  {
    seq(n, k requires 0 <= k < n => k)
  }

  /** All symbols of a column over n different characters, ended by EOB = n + 1. */
  function Encode(l: seq<nat>, n: nat): (s: seq<nat>)
    requires n > 0 && forall k :: 0 <= k < |l| ==> l[k] < n
  {
    assert forall k :: 0 <= k < |l| ==> l[k] == Iota(n)[l[k]];
    EncodeFrom(l, Iota(n), 0) + [n + 1]
  }

  function Copies<T>(x: T, n: nat): (s: seq<T>)
    ensures |s| == n
  {
    seq(n, _ => x)
  }

  /** What the symbols stand for, up to the end mark. weight is that of the next run digit.
      Nothing is returned if the end mark is missing or a symbol is out of range. */
  function DecodeFrom(s: seq<nat>, y: seq<nat>, weight: nat, eob: nat): (l: Option<seq<nat>>)
    requires y != []
    decreases |s|
  {
    if s == [] then None
    else if s[0] == eob then Some([])
    else if s[0] == RUNA || s[0] == RUNB then
      match DecodeFrom(s[1..], y, 2 * weight, eob)
      case None => None
      case Some(rest) => Some(Copies(y[0], (s[0] + 1) * weight) + rest)
    else if s[0] - 1 >= |y| then None
    else
      match DecodeFrom(s[1..], ToFront(y, s[0] - 1), 1, eob)
      case None => None
      case Some(rest) => Some([y[s[0] - 1]] + rest)
  }

  lemma DecodeDigit(d: nat, s: seq<nat>, y: seq<nat>, weight: nat, eob: nat, l: seq<nat>)
    requires y != [] && eob >= 2 && d <= RUNB && DecodeFrom(s, y, 2 * weight, eob) == Some(l)
    ensures DecodeFrom([d] + s, y, weight, eob) == Some(Copies(y[0], (d + 1) * weight) + l)
  {
  }

  lemma DecodeMove(j: nat, s: seq<nat>, y: seq<nat>, weight: nat, eob: nat, l: seq<nat>)
    requires 0 < j < |y| && j + 1 != eob && DecodeFrom(s, ToFront(y, j), 1, eob) == Some(l)
    ensures DecodeFrom([j + 1] + s, y, weight, eob) == Some([y[j]] + l)
  {
  }

  /** Only a run digit looks at the weight. */
  lemma WeightIrrelevant(s: seq<nat>, y: seq<nat>, weight: nat, eob: nat)
    requires y != [] && s != [] && s[0] != RUNA && s[0] != RUNB
    ensures DecodeFrom(s, y, weight, eob) == DecodeFrom(s, y, 1, eob)
  {
  }

  lemma CopiesSplit<T>(x: T, d: nat, z: nat, w: nat, l: seq<T>)
    ensures Copies(x, (d + 2 * z) * w) + l == Copies(x, d * w) + (Copies(x, z * (2 * w)) + l)
  {
    assert (d + 2 * z) * w == d * w + z * (2 * w);
  }

  /** The digits of a run decode to the run. */
  lemma {:induction false} RunRoundTrip(z: nat, rest: seq<nat>, y: seq<nat>, weight: nat, eob: nat, l: seq<nat>)
    requires y != [] && eob >= 2 && rest != [] && rest[0] != RUNA && rest[0] != RUNB
    requires DecodeFrom(rest, y, 1, eob) == Some(l)
    ensures DecodeFrom(RunDigits(z) + rest, y, weight, eob) == Some(Copies(y[0], z * weight) + l)
    decreases z
  {
    hide DecodeFrom;
    if z == 0 {
      WeightIrrelevant(rest, y, weight, eob);
      assert RunDigits(z) + rest == rest;
      assert Copies(y[0], 0) + l == l;
    } else {
      var d := if z % 2 == 1 then RUNA else RUNB;
      var z' := (z - d - 1) / 2;
      assert z == d + 1 + 2 * z';
      RunRoundTrip(z', rest, y, 2 * weight, eob, l);
      DecodeDigit(d, RunDigits(z') + rest, y, weight, eob, Copies(y[0], z' * (2 * weight)) + l);
      assert RunDigits(z) + rest == [d] + (RunDigits(z') + rest);
      CopiesSplit(y[0], d + 1, z', weight, l);
    }
  }

  /** What the encoder writes decodes to the zeros it had pending and the rest of the column. */
  lemma {:induction false} EncodeRoundTrip(l: seq<nat>, y: seq<nat>, zPend: nat, eob: nat)
    requires Lists(y, l) && eob == |y| + 1
    ensures DecodeFrom(EncodeFrom(l, y, zPend) + [eob], y, 1, eob) == Some(Copies(y[0], zPend) + l)
    decreases |l|
  {
    hide DecodeFrom, ToFront;
    if l == [] {
      assert DecodeFrom([eob], y, 1, eob) == Some([]) by { DecodeEnd(y, eob); }
      RunRoundTrip(zPend, [eob], y, 1, eob, []);
    } else if y[0] == l[0] {
      ListsTail(y, l, 0);
      EncodeRoundTrip(l[1..], y, zPend + 1, eob);
      assert Copies(y[0], zPend + 1) + l[1..] == Copies(y[0], zPend) + l;
    } else {
      var j := FirstIndex(y, l[0]);
      var y' := ToFront(y, j);
      ListsTail(y, l, j);
      EncodeRoundTrip(l[1..], y', 0, eob);
      var tail := EncodeFrom(l[1..], y', 0) + [eob];
      assert Copies(y'[0], 0) + l[1..] == l[1..];
      DecodeMove(j, tail, y, 1, eob, l[1..]);
      assert [y[j]] + l[1..] == l;
      RunRoundTrip(zPend, [j + 1] + tail, y, 1, eob, l);
      assert EncodeFrom(l, y, zPend) + [eob] == RunDigits(zPend) + ([j + 1] + tail);
    }
  }

  lemma DecodeEnd(y: seq<nat>, eob: nat)
    requires y != []
    ensures DecodeFrom([eob], y, 1, eob) == Some([])
  {
  }

  function Decode(s: seq<nat>, n: nat): (l: Option<seq<nat>>)
    requires n > 0
  {
    DecodeFrom(s, Iota(n), 1, n + 1)
  }

  /** Decoding undoes encoding for every column. */
  lemma DecodeUndoesEncode(l: seq<nat>, n: nat)
    requires n > 0 && forall k :: 0 <= k < |l| ==> l[k] < n
    ensures Decode(Encode(l, n), n) == Some(l)
  {
    assert forall k :: 0 <= k < |l| ==> l[k] == Iota(n)[l[k]];
    EncodeRoundTrip(l, Iota(n), 0, n + 1);
    assert Copies(0, 0) + l == l;
  }

  lemma {:induction false} EncodeIsNoLonger(l: seq<nat>, y: seq<nat>, zPend: nat)
    requires Lists(y, l)
    ensures |EncodeFrom(l, y, zPend)| <= zPend + |l|
    decreases |l|
  {
    hide ToFront;
    if l != [] {
      ListsTail(y, l, 0);
      if y[0] == l[0] {
        EncodeIsNoLonger(l[1..], y, zPend + 1);
      } else {
        var j := FirstIndex(y, l[0]);
        ListsTail(y, l, j);
        EncodeIsNoLonger(l[1..], ToFront(y, j), 0);
      }
    }
  }
}
