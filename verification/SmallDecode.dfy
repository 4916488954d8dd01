/** The inverse of the block sort that saves memory: 20-bit entries, pointers reversed in place, and
    characters found by binary search. It gives the same bytes as the fast one. */
module SmallDecode {
  import opened Sequences
  import opened CharPlaces
  import opened InverseBwt
  import opened TVector

  // ----- Entries of 20 bits -----

  /** The high or the low four bits of a byte. */
  function Nibble(b: Byte, odd: bool): (n: nat)
    ensures n < 16
  {
    if odd then b / 16 else b % 16
  }

  function PutNibble(b: Byte, odd: bool, n: nat): (r: Byte)
    requires n < 16
    ensures Nibble(r, odd) == n && Nibble(r, !odd) == Nibble(b, !odd)
  {
    if odd then b % 16 + 16 * n else b - b % 16 + n
  }

  /** Entry i: 16 bits in ll16 and four in a half of a byte of ll4. */
  function GetLL(ll16: seq<nat>, ll4: seq<Byte>, i: nat): nat
    requires i < |ll16| && i / 2 < |ll4|
  {
    ll16[i] + 65536 * Nibble(ll4[i / 2], i % 2 == 1)
  }

  ghost predicate LL(ll16: seq<nat>, ll4: seq<Byte>, n: nat) {
    n <= |ll16| && |ll4| == (1 + |ll16|) / 2
  }

  /** The entries below n. */
  ghost function Entries(ll16: seq<nat>, ll4: seq<Byte>, n: nat): (s: seq<nat>)
    requires LL(ll16, ll4, n)
    ensures |s| == n
  {
    seq(n, i requires 0 <= i < n => GetLL(ll16, ll4, i))
  }

  lemma SetEntry(ll16: seq<nat>, ll4: seq<Byte>, n: nat, i: nat, v: nat)
    requires LL(ll16, ll4, n) && i < n && v < 0x10_0000
    ensures v / 65536 < 16
    ensures var ll16' := ll16[i := v % 65536];
            var ll4' := ll4[i / 2 := PutNibble(ll4[i / 2], i % 2 == 1, v / 65536)];
            && LL(ll16', ll4', n)
            && Entries(ll16', ll4', n) == Entries(ll16, ll4, n)[i := v]
  {
    hide Nibble, PutNibble;
    var odd := i % 2 == 1;
    assert (!odd == true) == (odd == false);
    var ll16' := ll16[i := v % 65536];
    var ll4' := ll4[i / 2 := PutNibble(ll4[i / 2], odd, v / 65536)];
    forall j | 0 <= j < n ensures GetLL(ll16', ll4', j) == if j == i then v else GetLL(ll16, ll4, j) {
      if j != i && j / 2 == i / 2 { assert (j % 2 == 1) == !odd; }
    }
  }

  method SetLL(ll16: array<nat>, ll4: array<Byte>, i: nat, v: nat, ghost n: nat)
    requires LL(ll16[..], ll4[..], n) && i < n && v < 0x10_0000 && ll16 as object != ll4
    modifies ll16, ll4
    ensures LL(ll16[..], ll4[..], n)
    ensures Entries(ll16[..], ll4[..], n) == old(Entries(ll16[..], ll4[..], n))[i := v]
    ensures ll16[..] == old(ll16[..])[i := v % 65536]
  {
    hide Entries, Nibble, PutNibble;
    SetEntry(ll16[..], ll4[..], n, i, v);
    ll16[i] := v % 65536;
    ll4[i / 2] := PutNibble(ll4[i / 2], i % 2 == 1, v / 65536);
  }

  // ----- Building T -----

  /** Where each place of the column goes when it is sorted: the inverse of Order. */
  ghost function Slots(l: seq<Byte>): (t: seq<nat>)
    ensures |t| == |l| && forall i :: 0 <= i < |t| ==> t[i] < |l|
    ensures Undoes(Order(l), t)
  {
    forall i | 0 <= i < |l| ensures Slot(l, i) < |l| && Order(l)[Slot(l, i)] == i {
      OrderAtSlot(l, i);
    }
    seq(|l|, i requires 0 <= i < |l| => Slot(l, i))
  }

  lemma SlotsAt(l: seq<Byte>, cftab: seq<nat>, i: nat)
    requires i < |l| && Counting(l, cftab, i)
    ensures |cftab| == 257 && cftab[l[i]] == Slots(l)[i]
  {
    hide Places, PlacesBelow, Order;
    CountIsSlot(l, cftab, i);
  }

  /** Replace the column in ll16 by the vector T. */
  method BuildT(ll16: array<nat>, ll4: array<Byte>, nblock: nat, cftabCopy: array<nat>, ghost l: seq<Byte>)
    requires LL(ll16[..], ll4[..], nblock) && nblock == |l| <= 900_000 && cftabCopy.Length == 257
    requires ll16 != cftabCopy && ll16 as object != ll4 && cftabCopy as object != ll4
    requires ll16[..nblock] == l && forall c: Byte :: cftabCopy[c] == Start(l, c)
    modifies ll16, ll4, cftabCopy
    ensures LL(ll16[..], ll4[..], nblock) && Entries(ll16[..], ll4[..], nblock) == Slots(l)
  {
    hide Order, Places, PlacesBelow, Counting, Entries, Slots;
    CountingStarts(l, cftabCopy[..]);
    for i := 0 to nblock
      invariant LL(ll16[..], ll4[..], nblock) && Counting(l, cftabCopy[..], i)
      invariant ll16[i..nblock] == l[i..]
      invariant Entries(ll16[..], ll4[..], nblock)[..i] == Slots(l)[..i]
    {
      ghost var counts, e := cftabCopy[..], Entries(ll16[..], ll4[..], nblock);
      SlotsAt(l, counts, i);
      CountOne(l, counts, i);
      assert ll16[i] == ll16[i..nblock][0] == l[i..][0];
      var uc: Byte := ll16[i] % 256;
      SetLL(ll16, ll4, i, cftabCopy[uc], nblock);
      cftabCopy[uc] := cftabCopy[uc] + 1;
      assert cftabCopy[..] == counts[uc := counts[uc] + 1];
      assert ll16[i + 1..nblock] == l[i + 1..];
      assert Entries(ll16[..], ll4[..], nblock)[..i + 1] == e[..i] + [Slots(l)[i]];
    }
  }

  // ----- Reversing the pointers -----

  /** r undoes t. */
  ghost predicate Undoes(r: seq<nat>, t: seq<nat>) {
    |t| == |r| && forall x {:trigger t[x]} :: 0 <= x < |t| ==> t[x] < |t| && r[t[x]] == x
  }

  ghost predicate Follows(t: seq<nat>, path: seq<nat>, m: nat)
    requires 0 < m < |path|
  {
    path[m - 1] < |t| && t[path[m - 1]] == path[m]
  }

  /** path follows the pointers t from place to place without coming to one again. */
  ghost predicate IsPath(t: seq<nat>, path: seq<nat>) {
    && path != [] && Distinct(path)
    && (forall m :: 0 <= m < |path| ==> path[m] < |t|)
    && (forall m :: 0 < m < |path| ==> Follows(t, path, m))
  }

  /** The pointers along path, all but the first, have been reversed. */
  ghost predicate Reversing(t: seq<nat>, r: seq<nat>, e: seq<nat>, path: seq<nat>) {
    && Undoes(r, t) && |e| == |t| && IsPath(t, path)
    && (forall x {:trigger e[x]} :: 0 <= x < |t| ==> e[x] == if x in path[1..] then r[x] else t[x])
  }

  lemma PathFits(t: seq<nat>, r: seq<nat>, e: seq<nat>, path: seq<nat>)
    requires Reversing(t, r, e, path)
    ensures |path| <= |t|
  {
    DistinctCardinality(path);
    assert Elements(path) <= Below(|t|);
    SubsetCardinality(Elements(path), Below(|t|));
  }

  lemma StepBack(t: seq<nat>, r: seq<nat>, path: seq<nat>, m: nat)
    requires Undoes(r, t) && IsPath(t, path) && 0 < m < |path|
    ensures path[m] < |r| && r[path[m]] == path[m - 1]
  {
    assert Follows(t, path, m);
  }

  lemma AfterLast(t: seq<nat>, r: seq<nat>, path: seq<nat>)
    requires Undoes(r, t) && IsPath(t, path)
    ensures |r| == |t| && var i := path[|path| - 1]; i < |t| && t[i] < |t| && r[t[i]] == i
  {
  }

  /** The next place on the path is new, or it is the first one and the cycle is closed. */
  lemma NextIsNew(t: seq<nat>, r: seq<nat>, e: seq<nat>, path: seq<nat>)
    requires Reversing(t, r, e, path)
    ensures var j := t[path[|path| - 1]]; j < |t| && e[j] == t[j] && (j == path[0] || j !in path)
  {
    hide Undoes, IsPath;
    PathShape(t, path);
    AfterLast(t, r, path);
    var j := t[path[|path| - 1]];
    forall m | 0 < m < |path| ensures path[m] != j {
      StepBack(t, r, path, m);
    }
    assert j !in path[1..];
  }

  lemma PathShape(t: seq<nat>, path: seq<nat>)
    requires IsPath(t, path)
    ensures path != [] && Distinct(path) && forall m :: 0 <= m < |path| ==> path[m] < |t|
  {
  }

  lemma LongerPath(t: seq<nat>, path: seq<nat>)
    requires IsPath(t, path) && t[path[|path| - 1]] !in path && t[path[|path| - 1]] < |t|
    ensures IsPath(t, path + [t[path[|path| - 1]]])
  {
    var longer := path + [t[path[|path| - 1]]];
    forall m | 0 < m < |longer| ensures Follows(t, longer, m) {
      if m < |path| { assert Follows(t, path, m); }
    }
  }

  lemma ReverseOne(t: seq<nat>, r: seq<nat>, e: seq<nat>, path: seq<nat>)
    requires Reversing(t, r, e, path)
    ensures var i := path[|path| - 1]; i < |t| && t[i] < |t|
    ensures var i := path[|path| - 1]; t[i] !in path ==> Reversing(t, r, e[t[i] := i], path + [t[i]])
  {
    hide Undoes, IsPath;
    PathShape(t, path);
    AfterLast(t, r, path);
    var i := path[|path| - 1];
    if t[i] !in path {
      LongerPath(t, path);
      assert (path + [t[i]])[1..] == path[1..] + [t[i]];
    }
  }

  /** Every pointer on the cycle is reversed. */
  ghost predicate Reversed(r: seq<nat>, e: seq<nat>, cycle: set<nat>) {
    |e| == |r| && forall x :: x in cycle ==> x < |r| && e[x] == r[x] && r[x] in cycle
  }

  lemma CycleReversed(t: seq<nat>, r: seq<nat>, e: seq<nat>, path: seq<nat>)
    requires Reversing(t, r, e, path) && t[path[|path| - 1]] == path[0]
    ensures Reversed(r, e[path[0] := path[|path| - 1]], Elements(path)) && path[0] in Elements(path)
  {
    hide Undoes, IsPath, Distinct;
    PathShape(t, path);
    AfterLast(t, r, path);
    var e' := e[path[0] := path[|path| - 1]];
    forall m | 0 <= m < |path| ensures r[path[m]] in path && e'[path[m]] == r[path[m]] {
      if m > 0 {
        StepBack(t, r, path, m);
        assert path[1..][m - 1] == path[m];
      }
    }
  }

  /** Reverse the pointers on the cycle through origPtr. */
  method ReverseCycle(ll16: array<nat>, ll4: array<Byte>, origPtr: nat, ghost n: nat, ghost r: seq<nat>) returns (ghost cycle: set<nat>)
    requires LL(ll16[..], ll4[..], n) && ll16 as object != ll4 && origPtr < n <= 900_000 && |r| == n
    requires Undoes(r, Entries(ll16[..], ll4[..], n))
    modifies ll16, ll4
    ensures LL(ll16[..], ll4[..], n) && Reversed(r, Entries(ll16[..], ll4[..], n), cycle) && origPtr in cycle
  {
    hide Entries, Nibble, PutNibble, GetLL, Reversing, Reversed, Undoes;
    ghost var t := Entries(ll16[..], ll4[..], n);
    ghost var path: seq<nat> := [origPtr];
    assert Reversing(t, r, t, path) by { ReversingStarts(t, r, origPtr); }
    EntryIs(ll16[..], ll4[..], n, origPtr);
    var i := origPtr;
    var j := GetLL(ll16[..], ll4[..], i);
    while true
      invariant LL(ll16[..], ll4[..], n) && path != [] && path[0] == origPtr && i == path[|path| - 1] < n && j == t[i]
      invariant Reversing(t, r, Entries(ll16[..], ll4[..], n), path)
      decreases n - |path|
    {
      ghost var e := Entries(ll16[..], ll4[..], n);
      PathFits(t, r, e, path);
      NextIsNew(t, r, e, path);
      ReverseOne(t, r, e, path);
      EntryIs(ll16[..], ll4[..], n, j);
      var tmp := GetLL(ll16[..], ll4[..], j);
      SetLL(ll16, ll4, j, i, n);
      i, j := j, tmp;
      if i == origPtr {
        CycleReversed(t, r, e, path);
        cycle := Elements(path);
        break;
      }
      path := path + [i];
      PathFits(t, r, Entries(ll16[..], ll4[..], n), path);
    }
  }

  lemma ReversingStarts(t: seq<nat>, r: seq<nat>, o: nat)
    requires Undoes(r, t) && o < |t|
    ensures Reversing(t, r, t, [o])
  {
  }

  lemma EntryIs(ll16: seq<nat>, ll4: seq<Byte>, n: nat, i: nat)
    requires LL(ll16, ll4, n) && i < n
    ensures GetLL(ll16, ll4, i) == Entries(ll16, ll4, n)[i]
  {
  }

  // ----- Emitting -----

  /** BZ2_indexIntoF: the character whose part of the sorted column holds place indx. */
  method IndexIntoF(indx: nat, cftab: array<nat>) returns (nb: nat)
    requires cftab.Length == 257 && cftab[0] <= indx < cftab[256]
    ensures nb < 256 && cftab[nb] <= indx < cftab[nb + 1]
  {
    nb := 0;
    var na := 256;
    while true
      invariant 0 <= nb < na <= 256 && na - nb >= 2 && cftab[nb] <= indx < cftab[na]
      decreases na - nb
    {
      var mid := (nb + na) / 2;
      if indx >= cftab[mid] { nb := mid; } else { na := mid; }
      if na - nb == 1 { break; }
    }
  }

  lemma FirstColumn(l: seq<Byte>, k: nat, c: Byte)
    requires k < |l| && Start(l, c) <= k < Start(l, c as int + 1)
    ensures l[Order(l)[k]] == c
  {
    hide Order, Places, PlacesBelow;
    SlotOfOrder(l, k);
    var i := Order(l)[k];
    var d := l[i];
    PlacesInPrefix(l, i, d);
    StartNext(l, d);
    if d < c { StartGrows(l, d as int + 1, c); }
    if c < d { StartGrows(l, c as int + 1, d); }
  }

  /** nblock times GET_SMALL, from the original pointer. */
  method SmallInvert(ll16: array<nat>, ll4: array<Byte>, nblock: nat, cftab: array<nat>, origPtr: nat, ghost l: seq<Byte>, ghost cycle: set<nat>)
    returns (out: seq<Byte>)
    requires nblock == |l| && origPtr < nblock && LL(ll16[..], ll4[..], nblock) && cftab.Length == 257
    requires forall c: nat :: c <= 256 ==> cftab[c] == Start(l, c)
    requires Reversed(Order(l), Entries(ll16[..], ll4[..], nblock), cycle) && origPtr in cycle
    ensures out == Invert(l, origPtr)
  {
    hide Order, Walk, Entries, GetLL, PlacesBelow, Places, Reversed;
    ghost var t := Order(l);
    StartOfAll(l);
    var tPos := origPtr;
    out := [];
    for used := 0 to nblock
      invariant tPos < nblock && tPos in cycle && |t| == |l|
      invariant out + Walk(l, t, t[tPos], nblock - used) == Invert(l, origPtr)
    {
      OnCycle(t, Entries(ll16[..], ll4[..], nblock), cycle, tPos);
      var ch := IndexIntoF(tPos, cftab);
      FirstColumn(l, tPos, ch);
      WalkOn(l, t, t[tPos], nblock - used);
      EntryIs(ll16[..], ll4[..], nblock, tPos);
      tPos := GetLL(ll16[..], ll4[..], tPos);
      out := out + [ch];
    }
    WalkEnds(l, t, t[tPos]);
  }

  lemma OnCycle(r: seq<nat>, e: seq<nat>, cycle: set<nat>, x: nat)
    requires Reversed(r, e, cycle) && x in cycle
    ensures x < |r| == |e| && e[x] == r[x] && r[x] in cycle && r[x] < |r|
  {
  }

  method CopyTable(cftab: array<nat>) returns (cftabCopy: array<nat>)
    requires cftab.Length == 257
    ensures fresh(cftabCopy) && cftabCopy[..] == cftab[..]
  {
    cftabCopy := new nat[257];
    for i := 0 to 257
      invariant cftabCopy[..i] == cftab[..i]
    {
      cftabCopy[i] := cftab[i];
    }
    assert cftabCopy[..257] == cftabCopy[..] && cftab[..257] == cftab[..];
  }

  /** Turn the column in ll16 into pointers, and those on the cycle of the block around. */
  method PointBack(ll16: array<nat>, ll4: array<Byte>, cftab: array<nat>, nblock: nat, origPtr: nat, ghost l: seq<Byte>)
    returns (ghost cycle: set<nat>)
    requires LL(ll16[..], ll4[..], nblock) && origPtr < nblock == |l| <= 900_000 && cftab.Length == 257
    requires ll16 != cftab && ll16 as object != ll4 && cftab as object != ll4
    requires ll16[..nblock] == l && forall c: nat :: c <= 256 ==> cftab[c] == Start(l, c)
    modifies ll16, ll4
    ensures LL(ll16[..], ll4[..], nblock) && Reversed(Order(l), Entries(ll16[..], ll4[..], nblock), cycle) && origPtr in cycle
    ensures forall c: nat :: c <= 256 ==> cftab[c] == Start(l, c)
  {
    hide PlacesBelow, Places, Entries, Slots, Order, Reversed;
    ghost var starts := cftab[..];
    var cftabCopy := CopyTable(cftab);
    assert forall c: nat :: c <= 256 ==> cftabCopy[c] == starts[c];
    BuildT(ll16, ll4, nblock, cftabCopy, l);
    assert cftab[..] == starts;
    cycle := ReverseCycle(ll16, ll4, origPtr, nblock, Order(l));
    assert cftab[..] == starts && forall c: nat :: c <= 256 ==> starts[c] == Start(l, c);
  }
}
