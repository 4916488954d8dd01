/** The fast inverse of the block sort: the counting pass that fills tt, and GET_FAST. */
module TVector {
  import opened Sequences
  import opened CharPlaces
  import opened InverseBwt
  import Bits

  /** Where the counting pass puts place i of the column. */
  function Slot(l: seq<Byte>, i: nat): nat
    requires i < |l|
  {
    Start(l, l[i]) + |Places(l[..i], l[i])|
  }

  lemma {:induction false} BelowAt(l: seq<Byte>, c: nat, d: nat, k: nat)
    requires c < d <= 256 && k < |Places(l, c)|
    ensures Start(l, c) + k < Start(l, d) && PlacesBelow(l, d)[Start(l, c) + k] == Places(l, c)[k]
    decreases d
  {
    hide Places, PlacesBelow;
    BelowNext(l, d - 1);
    if c < d - 1 { BelowAt(l, c, d - 1, k); }
  }

  lemma BelowNext(l: seq<Byte>, c: Byte)
    ensures PlacesBelow(l, c as int + 1) == PlacesBelow(l, c) + Places(l, c)
  {
  }

  /** The counting pass puts every place where Order has it. */
  lemma OrderAtSlot(l: seq<Byte>, i: nat)
    requires i < |l|
    ensures Slot(l, i) < |l| && Order(l)[Slot(l, i)] == i
  {
    hide Places, PlacesBelow;
    PlacesInPrefix(l, i, l[i]);
    BelowAt(l, l[i], 256, |Places(l[..i], l[i])|);
    StartOfAll(l);
    OrderIs(l);
  }

  lemma OrderIs(l: seq<Byte>)
    ensures Order(l) == PlacesBelow(l, 256)
  {
    hide Places, PlacesBelow;
  }

  lemma SlotOfOrder(l: seq<Byte>, k: nat)
    requires k < |l|
    ensures Order(l)[k] < |l| && Slot(l, Order(l)[k]) == k
  {
    hide Order, Slot;
    OrderAtSlot(l, Order(l)[k]);
  }

  /** An entry of tt: the character in the low byte, a pointer above it. */
  function Entry(c: Byte, t: nat): nat {
    c + 256 * t
  }

  lemma EntryParts(c: Byte, t: nat)
    ensures Entry(c, t) % 256 == c && Entry(c, t) / 256 == t
  {
  }

  lemma EntryJoined(c: Byte, t: nat)
    ensures Entry(c, 0) < 256 && Entry(c, 0) + 256 * t == Entry(c, t)
  {
  }

  /** How far the counting pass has come: with i places read, their slots hold their numbers above the low byte. */
  ghost predicate Linking(l: seq<Byte>, tt: seq<nat>, i: nat) {
    && |tt| == |l|
    && forall k {:trigger tt[k]} :: 0 <= k < |l| ==> tt[k] == Entry(l[k], if Order(l)[k] < i then Order(l)[k] else 0)
  }

  /** The pass is over. */
  ghost predicate Linked(l: seq<Byte>, tt: seq<nat>) {
    |tt| == |l| && forall k {:trigger tt[k]} :: 0 <= k < |l| ==> tt[k] == Entry(l[k], Order(l)[k])
  }

  ghost predicate Counting(l: seq<Byte>, cftab: seq<nat>, i: nat)
    requires i <= |l|
  {
    |cftab| == 257 && forall c: Byte :: cftab[c] == Start(l, c) + |Places(l[..i], c)|
  }

  lemma LinkOne(l: seq<Byte>, tt: seq<nat>, cftab: seq<nat>, i: nat)
    requires Linking(l, tt, i) && i < |l| && Counting(l, cftab, i)
    ensures tt[i] % 256 == l[i]
    ensures var k := cftab[l[i]]; k < |l| && tt[k] < 256 && Linking(l, tt[k := tt[k] + 256 * i], i + 1)
  {
    hide Order, Linking, Counting, Slot, Places, PlacesBelow, Entry;
    OrderAtSlot(l, i);
    assert cftab[l[i]] == Slot(l, i) by { CountIsSlot(l, cftab, i); }
    OrderPermutes(l);
    LinkSlot(l, Order(l), tt, Slot(l, i), i);
  }

  lemma CountIsSlot(l: seq<Byte>, cftab: seq<nat>, i: nat)
    requires i < |l| && Counting(l, cftab, i)
    ensures |cftab| == 257 && cftab[l[i]] == Slot(l, i)
  {
    hide Places, PlacesBelow;
  }

  lemma OrderPermutes(l: seq<Byte>)
    ensures |Order(l)| == |l| && Distinct(Order(l))
  {
    hide PlacesBelow;
  }

  lemma LinkSlot(l: seq<Byte>, t: seq<nat>, tt: seq<nat>, k: nat, i: nat)
    requires Linking(l, tt, i) && t == Order(l) && Distinct(t) && i < |l| && k < |l| && t[k] == i
    ensures tt[i] % 256 == l[i] && tt[k] < 256 && Linking(l, tt[k := tt[k] + 256 * i], i + 1)
  {
    hide Order, Entry;
    EntryParts(l[i], if t[i] < i then t[i] else 0);
    EntryJoined(l[k], i);
  }

  lemma CountOne(l: seq<Byte>, cftab: seq<nat>, i: nat)
    requires i < |l| && Counting(l, cftab, i)
    ensures Counting(l, cftab[l[i] := cftab[l[i]] + 1], i + 1)
  {
    hide Places, PlacesBelow;
    forall c: Byte ensures |Places(l[..i + 1], c)| == |Places(l[..i], c)| + (if l[i] == c then 1 else 0) {
      PlacesOneMore(l, i, c);
    }
  }

  lemma CountingStarts(l: seq<Byte>, cftab: seq<nat>)
    requires |cftab| == 257 && forall c: Byte :: cftab[c] == Start(l, c)
    ensures Counting(l, cftab, 0)
  {
    hide PlacesBelow;
  }

  /** Fill the vector: each entry keeps its character in the low byte, and above it gets what Order has for it. */
  method FillTT(tt: array<nat>, nblock: nat, cftab: array<nat>, ghost l: seq<Byte>)
    requires nblock == |l| <= tt.Length && tt != cftab && cftab.Length == 257 && nblock <= 0x100_0000
    requires tt[..nblock] == l && forall c: Byte :: cftab[c] == Start(l, c)
    modifies tt, cftab
    ensures Linked(l, tt[..nblock])
  {
    hide Order, Places, PlacesBelow, Linking, Counting, Bits.OrOf;
    CountingStarts(l, cftab[..]);
    LinkingStarts(l, tt[..nblock]);
    for i := 0 to nblock
      invariant Linking(l, tt[..nblock], i) && Counting(l, cftab[..], i)
    {
      ghost var t, counts := tt[..nblock], cftab[..];
      LinkingShape(l, t, i, counts);
      LinkOne(l, t, counts, i);
      CountOne(l, counts, i);
      assert tt[i] == t[i];
      var uc := tt[i] % 256;
      assert tt[cftab[uc]] == t[counts[uc]];
      Bits.OrIsSum(i, tt[cftab[uc]]);
      tt[cftab[uc]] := Bits.OrOf(tt[cftab[uc]], 256 * i);
      cftab[uc] := cftab[uc] + 1;
      assert tt[..nblock] == t[counts[uc] := t[counts[uc]] + 256 * i];
      assert cftab[..] == counts[uc := counts[uc] + 1];
    }
    LinkingEnds(l, tt[..nblock]);
  }

  lemma LinkingShape(l: seq<Byte>, tt: seq<nat>, i: nat, cftab: seq<nat>)
    requires i <= |l| && Linking(l, tt, i) && Counting(l, cftab, i)
    ensures |tt| == |l| && |cftab| == 257
  {
  }

  lemma LinkingStarts(l: seq<Byte>, tt: seq<nat>)
    requires tt == l
    ensures Linking(l, tt, 0)
  {
    hide Order;
  }

  lemma LinkingEnds(l: seq<Byte>, tt: seq<nat>)
    requires Linking(l, tt, |l|)
    ensures Linked(l, tt)
  {
    hide Order;
  }

  /** nblock times GET_FAST. */
  method FastInvert(tt: array<nat>, nblock: nat, origPtr: nat, ghost l: seq<Byte>) returns (out: seq<Byte>)
    requires origPtr < nblock == |l| <= tt.Length
    requires Linked(l, tt[..nblock])
    ensures out == Invert(l, origPtr)
  {
    hide Order, Entry, Walk, Linked;
    ghost var t := Order(l);
    EntryAt(l, tt[..nblock], origPtr);
    assert tt[origPtr] == tt[..nblock][origPtr];
    var tPos := tt[origPtr] / 256;
    out := [];
    for used := 0 to nblock
      invariant 0 <= tPos < nblock && |t| == |l| && out + Walk(l, t, tPos, nblock - used) == Invert(l, origPtr)
    {
      ghost var pos := tPos;
      EntryAt(l, tt[..nblock], pos);
      assert tt[pos] == tt[..nblock][pos];
      WalkOn(l, t, pos, nblock - used);
      tPos := tt[tPos];
      var ch := tPos % 256;
      tPos := tPos / 256;
      assert ch == l[pos] && tPos == t[pos];
      out := out + [ch];
    }
    WalkEnds(l, t, tPos);
  }

  lemma EntryAt(l: seq<Byte>, tt: seq<nat>, k: nat)
    requires Linked(l, tt) && k < |l|
    ensures tt[k] % 256 == l[k] && tt[k] / 256 == Order(l)[k]
  {
    hide Order, Entry;
    EntryParts(l[k], Order(l)[k]);
  }

  lemma WalkOn(l: seq<Byte>, t: seq<nat>, pos: nat, steps: nat)
    requires |t| == |l| && (forall i :: 0 <= i < |t| ==> t[i] < |l|) && pos < |l| && steps > 0
    ensures Walk(l, t, pos, steps) == [l[pos]] + Walk(l, t, t[pos], steps - 1)
  {
  }

  lemma WalkEnds(l: seq<Byte>, t: seq<nat>, pos: nat)
    requires |t| == |l| && (forall i :: 0 <= i < |t| ==> t[i] < |l|) && pos < |l|
    ensures Walk(l, t, pos, 0) == []
  {
  }
}
