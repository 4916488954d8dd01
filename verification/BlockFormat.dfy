/** The pieces of a block before its data: which characters are in use, the selectors and the code lengths.
    For each piece, what the compressor writes, what the decompressor makes of any bits,
    and that reading undoes writing. */
module BlockFormat {
  import opened Powers
  import opened Sequences
  import opened Bits
  import opened BitReading
  import opened MoveToFront
  import opened CanonicalCodes

  // ----- The mapping table -----

  predicate UsedGroup(inUse: seq<bool>, i: nat)
    requires |inUse| == 256 && i < 16
  {
    true in inUse[16 * i..16 * i + 16]
  }

  function UsedGroups(inUse: seq<bool>): (s: seq<bool>)
    requires |inUse| == 256
    ensures |s| == 16
  {
    seq(16, i requires 0 <= i < 16 => UsedGroup(inUse, i))
  }

  function WriteGroups(inUse: seq<bool>, i: nat): seq<bool>
    requires |inUse| == 256 && i <= 16
    decreases 16 - i
  {
    if i == 16 then []
    else (if UsedGroup(inUse, i) then inUse[16 * i..16 * i + 16] else []) + WriteGroups(inUse, i + 1)
  }

  function WriteMap(inUse: seq<bool>): seq<bool>
    requires |inUse| == 256
  {
    UsedGroups(inUse) + WriteGroups(inUse, 0)
  }

  /** The bits for the characters from group i on. */
  function ReadGroups(used: seq<bool>, i: nat, bits: seq<bool>): (p: Parse<seq<bool>>)
    requires |used| == 16 && i <= 16
    ensures p.Done? ==> |p.value| == 256 - 16 * i && |p.rest| <= |bits|
    decreases 16 - i
  {
    if i == 16 then Done([], bits)
    else if !used[i] then
      match ReadGroups(used, i + 1, bits)
      case Done(g, rest) => Done(Zeros(16) + g, rest)
      case p => p
    else if |bits| < 16 then More
    else
      match ReadGroups(used, i + 1, bits[16..])
      case Done(g, rest) => Done(bits[..16] + g, rest)
      case p => p
  }

  function ReadMap(bits: seq<bool>): (p: Parse<seq<bool>>)
    ensures p.Done? ==> |p.value| == 256 && |p.rest| <= |bits|
  {
    if |bits| < 16 then More else ReadGroups(bits[..16], 0, bits[16..])
  }

  lemma {:induction false} GroupsRoundTrip(inUse: seq<bool>, i: nat, rest: seq<bool>)
    requires |inUse| == 256 && i <= 16
    ensures ReadGroups(UsedGroups(inUse), i, WriteGroups(inUse, i) + rest) == Done(inUse[16 * i..], rest)
    decreases 16 - i
  {
    if i < 16 {
      GroupsRoundTrip(inUse, i + 1, rest);
      var g, tail := inUse[16 * i..16 * i + 16], WriteGroups(inUse, i + 1);
      var bits := WriteGroups(inUse, i) + rest;
      assert inUse[16 * i..] == g + inUse[16 * (i + 1)..];
      if UsedGroup(inUse, i) {
        assert bits == g + (tail + rest);
        assert bits[..16] == g && bits[16..] == tail + rest;
      } else {
        assert g == Zeros(16) by { forall k | 0 <= k < 16 ensures !g[k] { assert g[k] in g; } }
        assert bits == tail + rest;
      }
    } else {
      assert inUse[16 * i..] == [] && WriteGroups(inUse, i) + rest == rest;
    }
  }

  lemma MapRoundTrip(inUse: seq<bool>, rest: seq<bool>)
    requires |inUse| == 256
    ensures ReadMap(WriteMap(inUse) + rest) == Done(inUse, rest)
  {
    hide ReadGroups, WriteGroups;
    GroupsRoundTrip(inUse, 0, rest);
    var bits := WriteMap(inUse) + rest;
    assert bits[..16] == UsedGroups(inUse) && bits[16..] == WriteGroups(inUse, 0) + rest;
    assert inUse[0..] == inUse;
  }

  // ----- The selectors -----

  function Unary(j: nat): seq<bool> {
    if j == 0 then [false] else [true] + Unary(j - 1)
  }

  /** A number in unary, of which j has been read. */
  function ReadUnary(j: nat, limit: nat, bits: seq<bool>): (p: Parse<nat>)
    requires j < limit
    ensures p.Done? ==> p.value < limit && |p.rest| < |bits|
    decreases |bits|
  {
    if bits == [] then More
    else if !bits[0] then Done(j, bits[1..])
    else if j + 1 >= limit then Bad
    else ReadUnary(j + 1, limit, bits[1..])
  }

  function WriteUnaries(s: seq<nat>): seq<bool> {
    if s == [] then [] else Unary(s[0]) + WriteUnaries(s[1..])
  }

  function ReadUnaries(count: nat, limit: nat, bits: seq<bool>): (p: Parse<seq<nat>>)
    requires limit > 0
    ensures p.Done? ==> |p.value| == count && |p.rest| <= |bits| && forall k :: 0 <= k < count ==> p.value[k] < limit
  {
    if count == 0 then Done([], bits)
    else
      match ReadUnary(0, limit, bits)
      case Done(j, rest) => (
        match ReadUnaries(count - 1, limit, rest)
        case Done(s, rest') => Done([j] + s, rest')
        case p => p)
      case More => More
      case Bad => Bad
      case Outside => Outside
  }

  lemma {:induction false} UnaryRoundTrip(i: nat, j: nat, limit: nat, rest: seq<bool>)
    requires i + j < limit
    ensures ReadUnary(i, limit, Unary(j) + rest) == Done(i + j, rest)
    decreases j
  {
    if j > 0 {
      UnaryRoundTrip(i + 1, j - 1, limit, rest);
      assert (Unary(j) + rest)[1..] == Unary(j - 1) + rest;
    } else {
      assert (Unary(j) + rest)[1..] == rest;
    }
  }

  lemma {:induction false} UnariesRoundTrip(s: seq<nat>, limit: nat, rest: seq<bool>)
    requires limit > 0 && forall k :: 0 <= k < |s| ==> s[k] < limit
    ensures ReadUnaries(|s|, limit, WriteUnaries(s) + rest) == Done(s, rest)
  {
    hide ReadUnary, Unary;
    if s == [] {
      assert WriteUnaries(s) + rest == rest;
    } else {
      UnariesRoundTrip(s[1..], limit, rest);
      UnaryRoundTrip(0, s[0], limit, WriteUnaries(s[1..]) + rest);
      assert WriteUnaries(s) + rest == Unary(s[0]) + (WriteUnaries(s[1..]) + rest);
      assert [s[0]] + s[1..] == s;
    }
  }

  /** Where each selector is in the list pos, which it then moves to the front of. */
  function SelectorMtf(selectors: seq<nat>, pos: seq<nat>): (s: seq<nat>)
    requires forall k :: 0 <= k < |selectors| ==> selectors[k] in pos
    ensures |s| == |selectors| && forall k :: 0 <= k < |s| ==> s[k] < |pos|
    decreases |selectors|
  {
    if selectors == [] then []
    else
      var j := FirstIndex(pos, selectors[0]);
      FrontKeepsMembers(pos, j);
      [j] + SelectorMtf(selectors[1..], ToFront(pos, j))
  }

  function SelectorsOf(selectorMtf: seq<nat>, pos: seq<nat>): (s: seq<nat>)
    requires forall k :: 0 <= k < |selectorMtf| ==> selectorMtf[k] < |pos|
    ensures |s| == |selectorMtf| && forall k :: 0 <= k < |s| ==> s[k] in pos
    decreases |selectorMtf|
  {
    if selectorMtf == [] then []
    else
      var j := selectorMtf[0];
      FrontKeepsMembers(pos, j);
      [pos[j]] + SelectorsOf(selectorMtf[1..], ToFront(pos, j))
  }

  lemma {:induction false} SelectorsRoundTrip(selectors: seq<nat>, pos: seq<nat>)
    requires forall k :: 0 <= k < |selectors| ==> selectors[k] in pos
    ensures SelectorsOf(SelectorMtf(selectors, pos), pos) == selectors
    decreases |selectors|
  {
    hide ToFront;
    if selectors != [] {
      var j := FirstIndex(pos, selectors[0]);
      FrontKeepsMembers(pos, j);
      SelectorsRoundTrip(selectors[1..], ToFront(pos, j));
      assert SelectorMtf(selectors, pos)[1..] == SelectorMtf(selectors[1..], ToFront(pos, j));
    }
  }

  // ----- The code lengths -----

  /** Steps from one length to the next: 10 for one up, 11 for one down, 0 at the goal. */
  function Steps(curr: nat, goal: nat): seq<bool>
    decreases if curr < goal then goal - curr else curr - goal
  {
    if curr < goal then [true, false] + Steps(curr + 1, goal)
    else if curr > goal then [true, true] + Steps(curr - 1, goal)
    else [false]
  }

  function ReadLength(curr: int, bits: seq<bool>): (p: Parse<Byte>)
    ensures p.Done? ==> 1 <= p.value <= LONGEST_CODE && |p.rest| <= |bits|
    decreases |bits|
  {
    if curr < 1 || curr > LONGEST_CODE then Bad
    else if bits == [] then More
    else if !bits[0] then Done(curr, bits[1..])
    else if |bits| == 1 then More
    else ReadLength(if bits[1] then curr - 1 else curr + 1, bits[2..])
  }

  function WriteLengths(curr: nat, len: seq<Byte>): seq<bool>
    decreases |len|
  {
    if len == [] then [] else Steps(curr, len[0]) + WriteLengths(len[0], len[1..])
  }

  function ReadLengths(count: nat, curr: int, bits: seq<bool>): (p: Parse<seq<Byte>>)
    ensures p.Done? ==> |p.value| == count && |p.rest| <= |bits| && forall i :: 0 <= i < count ==> 1 <= p.value[i] <= LONGEST_CODE
  {
    if count == 0 then Done([], bits)
    else
      match ReadLength(curr, bits)
      case Done(c, rest) => (
        match ReadLengths(count - 1, c, rest)
        case Done(s, rest') => Done([c] + s, rest')
        case p => p)
      case More => More
      case Bad => Bad
      case Outside => Outside
  }

  lemma {:induction false} LengthRoundTrip(curr: nat, goal: Byte, rest: seq<bool>)
    requires 1 <= curr <= LONGEST_CODE && 1 <= goal <= LONGEST_CODE
    ensures ReadLength(curr, Steps(curr, goal) + rest) == Done(goal, rest)
    decreases if curr < goal then goal - curr else curr - goal
  {
    hide ReadLength;
    if curr < goal {
      LengthRoundTrip(curr + 1, goal, rest);
      ReadStep(curr, false, Steps(curr + 1, goal) + rest);
      assert Steps(curr, goal) + rest == [true, false] + (Steps(curr + 1, goal) + rest);
    } else if curr > goal {
      LengthRoundTrip(curr - 1, goal, rest);
      ReadStep(curr, true, Steps(curr - 1, goal) + rest);
      assert Steps(curr, goal) + rest == [true, true] + (Steps(curr - 1, goal) + rest);
    } else {
      ReadStop(curr, rest);
    }
  }

  lemma ReadStep(curr: nat, down: bool, rest: seq<bool>)
    requires 1 <= curr <= LONGEST_CODE
    ensures ReadLength(curr, [true, down] + rest) == ReadLength(if down then curr - 1 else curr + 1, rest)
  {
  }

  lemma ReadStop(curr: nat, rest: seq<bool>)
    requires 1 <= curr <= LONGEST_CODE
    ensures ReadLength(curr, [false] + rest) == Done(curr, rest)
  {
  }

  ghost predicate GoodLengths(len: seq<Byte>) {
    forall i :: 0 <= i < |len| ==> 1 <= len[i] <= LONGEST_CODE
  }

  lemma {:induction false} LengthsRoundTrip(curr: nat, len: seq<Byte>, rest: seq<bool>)
    requires 1 <= curr <= LONGEST_CODE && GoodLengths(len)
    ensures ReadLengths(|len|, curr, WriteLengths(curr, len) + rest) == Done(len, rest)
    decreases |len|
  {
    hide ReadLength, Steps;
    if len == [] {
      assert WriteLengths(curr, len) + rest == rest;
    } else {
      LengthsRoundTrip(len[0], len[1..], rest);
      LengthRoundTrip(curr, len[0], WriteLengths(len[0], len[1..]) + rest);
      assert WriteLengths(curr, len) + rest == Steps(curr, len[0]) + (WriteLengths(len[0], len[1..]) + rest);
      assert [len[0]] + len[1..] == len;
    }
  }

  function WriteTable(len: seq<Byte>): seq<bool>
    requires len != []
  {
    ToBits(len[0], 5) + WriteLengths(len[0], len)
  }

  function ReadTable(alphaSize: nat, bits: seq<bool>): (p: Parse<seq<Byte>>)
    ensures p.Done? ==> |p.value| == alphaSize && |p.rest| <= |bits| && forall i :: 0 <= i < alphaSize ==> 1 <= p.value[i] <= LONGEST_CODE
  {
    match Take(bits, 5)
    case Done(curr, rest) => ReadLengths(alphaSize, curr, rest)
    case More => More
    case Bad => Bad
    case Outside => Outside
  }

  lemma TableRoundTrip(len: seq<Byte>, rest: seq<bool>)
    requires len != [] && GoodLengths(len)
    ensures ReadTable(|len|, WriteTable(len) + rest) == Done(len, rest)
  {
    hide ReadLengths, WriteLengths, Take, ToBits;
    assert Pow2(5) == 32;
    TakeWritten(len[0], 5, WriteLengths(len[0], len) + rest);
    LengthsRoundTrip(len[0], len, rest);
    assert WriteTable(len) + rest == ToBits(len[0], 5) + (WriteLengths(len[0], len) + rest);
  }

  function WriteTables(lens: seq<seq<Byte>>): seq<bool>
    requires forall t :: 0 <= t < |lens| ==> lens[t] != []
  {
    if lens == [] then [] else WriteTable(lens[0]) + WriteTables(lens[1..])
  }

  function ReadTables(nGroups: nat, alphaSize: nat, bits: seq<bool>): (p: Parse<seq<seq<Byte>>>)
    ensures p.Done? ==> |p.value| == nGroups && |p.rest| <= |bits| && forall t :: 0 <= t < nGroups ==>
              |p.value[t]| == alphaSize && forall i :: 0 <= i < alphaSize ==> 1 <= p.value[t][i] <= LONGEST_CODE
  {
    if nGroups == 0 then Done([], bits)
    else
      match ReadTable(alphaSize, bits)
      case Done(len, rest) => (
        match ReadTables(nGroups - 1, alphaSize, rest)
        case Done(s, rest') => Done([len] + s, rest')
        case p => p)
      case More => More
      case Bad => Bad
      case Outside => Outside
  }

  lemma {:induction false} TablesRoundTrip(lens: seq<seq<Byte>>, alphaSize: nat, rest: seq<bool>)
    requires alphaSize > 0 && forall t :: 0 <= t < |lens| ==> |lens[t]| == alphaSize && GoodLengths(lens[t])
    ensures ReadTables(|lens|, alphaSize, WriteTables(lens) + rest) == Done(lens, rest)
    decreases |lens|
  {
    hide ReadTable, WriteTable, GoodLengths;
    if lens == [] {
      assert WriteTables(lens) + rest == rest;
    } else {
      TablesRoundTrip(lens[1..], alphaSize, rest);
      TableRoundTrip(lens[0], WriteTables(lens[1..]) + rest);
      assert WriteTables(lens) + rest == WriteTable(lens[0]) + (WriteTables(lens[1..]) + rest);
      assert [lens[0]] + lens[1..] == lens;
    }
  }
}
