/** sendMTFValues: choosing the code lengths and writing the map, the selectors, the tables and the data.
    Which table each group of 50 symbols uses is left open: any choice can be read back. */
module SendMtf {
  import opened Powers
  import opened Sequences
  import opened Sums
  import opened Bits
  import opened BitReading
  import opened BitWriting
  import opened MoveToFront
  import opened GenerateMtf
  import opened CharPlaces
  import opened CodeTree
  import opened CodeLengths
  import opened OptimalCodes
  import opened CanonicalCodes
  import opened BlockFormat
  import opened BlockData

  const SENT_CODE_LEN := 17

  // ----- Choosing the tables -----

  method ChooseGroups(nMTF: nat) returns (nGroups: nat)
    ensures 2 <= nGroups <= 6
  {
    if nMTF < 200 { nGroups := 2; }
    else if nMTF < 600 { nGroups := 3; }
    else if nMTF < 1200 { nGroups := 4; }
    else if nMTF < 2400 { nGroups := 5; }
    else { nGroups := 6; }
  }

  /** One table for each group of 50 symbols. */
  method ChooseSelectors(nMTF: nat, nGroups: nat) returns (selectors: seq<nat>)
    requires nGroups > 0
    ensures |selectors| == (nMTF + G_SIZE - 1) / G_SIZE
    ensures forall k :: 0 <= k < |selectors| ==> selectors[k] < nGroups
  {
    selectors := [];
    var gs := 0;
    while gs < nMTF
      invariant gs == G_SIZE * |selectors| <= nMTF + G_SIZE - 1
      invariant forall k :: 0 <= k < |selectors| ==> selectors[k] < nGroups
    {
      var bt: nat :| bt < nGroups;
      selectors := selectors + [bt];
      gs := gs + G_SIZE;
    }
  }

  lemma FrequenciesBound(freq: seq<int>)
    requires forall i :: 0 <= i < |freq| ==> freq[i] >= 0
    ensures Sum(Frequencies(freq)) <= Sum(freq) + |freq|
  {
    FrequenciesUpTo(freq, |freq|);
    assert freq[..|freq|] == freq && Frequencies(freq)[..|freq|] == Frequencies(freq);
  }

  lemma {:induction false} FrequenciesUpTo(freq: seq<int>, n: nat)
    requires n <= |freq| && forall i :: 0 <= i < |freq| ==> freq[i] >= 0
    ensures Sum(Frequencies(freq)[..n]) <= Sum(freq[..n]) + n
  {
    if n > 0 {
      FrequenciesUpTo(freq, n - 1);
      assert freq[..n][..n - 1] == freq[..n - 1];
      assert Frequencies(freq)[..n][..n - 1] == Frequencies(freq)[..n - 1];
    }
  }

  /** How often symbol v occurs among the symbols s in groups that use table t. */
  function Occurs(s: seq<nat>, selectors: seq<nat>, t: nat, v: nat): nat
    requires |s| <= G_SIZE * |selectors|
  {
    if s == [] then 0
    else
      var n := |s| - 1;
      Occurs(s[..n], selectors, t, v) + if s[n] == v && selectors[n / G_SIZE] == t then 1 else 0
  }

  function Occurrences(s: seq<nat>, selectors: seq<nat>, t: nat, alphaSize: nat): (freq: seq<int>)
    requires |s| <= G_SIZE * |selectors|
    ensures |freq| == alphaSize
  {
    seq(alphaSize, v requires 0 <= v < alphaSize => Occurs(s, selectors, t, v))
  }

  /** The lengths are those of an optimal code for the frequencies, which are halved only as often as needed. */
  ghost predicate BestFor(len: seq<nat>, freq: seq<int>) {
    exists rounds: nat :: OptimalAfter(len, freq, rounds)
  }

  ghost predicate OptimalAfter(len: seq<nat>, freq: seq<int>, rounds: nat) {
    && Optimal(Scaled(Frequencies(freq), rounds), len)
    && forall r: nat :: r < rounds ==> TooDeep(Scaled(Frequencies(freq), r), SENT_CODE_LEN)
  }

  lemma NothingOccurs(selectors: seq<nat>, t: nat, v: nat)
    ensures Occurs([], selectors, t, v) == 0
  {
  }

  lemma OneMoreOccurs(s: seq<nat>, n: nat, selectors: seq<nat>, t: nat, v: nat)
    requires n < |s| <= G_SIZE * |selectors|
    ensures Occurs(s[..n + 1], selectors, t, v) == Occurs(s[..n], selectors, t, v) + if s[n] == v && selectors[n / G_SIZE] == t then 1 else 0
  {
    assert s[..n + 1][..n] == s[..n];
  }

  /** The frequencies of the symbols that use table t. */
  method CountFrequencies(mtfv: array<nat>, nMTF: nat, selectors: seq<nat>, t: nat, alphaSize: nat) returns (rfreq: array<int>)
    requires nMTF <= mtfv.Length && nMTF <= G_SIZE * |selectors|
    requires forall i :: 0 <= i < nMTF ==> mtfv[i] < alphaSize
    ensures fresh(rfreq) && rfreq.Length == alphaSize
    ensures forall v :: 0 <= v < alphaSize ==> rfreq[v] >= 0
    ensures Sum(rfreq[..]) <= nMTF
    ensures rfreq[..] == Occurrences(mtfv[..nMTF], selectors, t, alphaSize)
  {
    hide Sum, Occurs;
    rfreq := new int[alphaSize](_ => 0);
    SumConstantBound(rfreq[..], 0);
    ghost var s := mtfv[..nMTF];
    forall v | 0 <= v < alphaSize ensures Occurs(s[..0], selectors, t, v) == 0 { NothingOccurs(selectors, t, v); }
    for i := 0 to nMTF
      invariant forall v :: 0 <= v < alphaSize ==> rfreq[v] == Occurs(s[..i], selectors, t, v)
      invariant Sum(rfreq[..]) <= i
    {
      forall v | 0 <= v < alphaSize
        ensures Occurs(s[..i + 1], selectors, t, v) == Occurs(s[..i], selectors, t, v) + if s[i] == v && selectors[i / G_SIZE] == t then 1 else 0
      {
        OneMoreOccurs(s, i, selectors, t, v);
      }
      if selectors[i / G_SIZE] == t {
        ghost var before := rfreq[..];
        rfreq[mtfv[i]] := rfreq[mtfv[i]] + 1;
        assert rfreq[..] == before[mtfv[i] := before[mtfv[i]] + 1];
        SumUpdate(before, mtfv[i], before[mtfv[i]] + 1);
      }
    }
    assert s[..nMTF] == s;
  }

  method MakeTable(mtfv: array<nat>, nMTF: nat, selectors: seq<nat>, t: nat, alphaSize: nat) returns (len: seq<Byte>)
    requires nMTF <= mtfv.Length && nMTF <= G_SIZE * |selectors| && nMTF <= 900_001 && 2 <= alphaSize <= MAX_ALPHA_SIZE
    requires forall i :: 0 <= i < nMTF ==> mtfv[i] < alphaSize
    ensures |len| == alphaSize && Fits(len) && BestFor(len, Occurrences(mtfv[..nMTF], selectors, t, alphaSize))
    ensures forall i :: 0 <= i < alphaSize ==> 1 <= len[i] <= SENT_CODE_LEN
  {
    hide Sum, Fits, Complete, Frequencies, LeastWeight, Optimal, TooDeep, Scaled, Occurrences;
    var rfreq := CountFrequencies(mtfv, nMTF, selectors, t, alphaSize);
    FrequenciesBound(rfreq[..]);
    assert rfreq[..alphaSize] == rfreq[..];
    SeventeenBitsSuffice(alphaSize);
    var lengths := new nat[alphaSize];
    ghost var rounds := HbMakeCodeLengths(lengths, rfreq, alphaSize, SENT_CODE_LEN);
    len := AsBytes(lengths);
    assert len == lengths[..alphaSize];
    CompleteFits(len, SENT_CODE_LEN);
    assert OptimalAfter(len, rfreq[..], rounds);
  }

  /** The lengths as the source stores them, in bytes. */
  method AsBytes(lengths: array<nat>) returns (len: seq<Byte>)
    requires forall i :: 0 <= i < lengths.Length ==> lengths[i] < 256
    ensures len == lengths[..]
  {
    len := [];
    for i := 0 to lengths.Length
      invariant |len| == i && forall k :: 0 <= k < i ==> len[k] == lengths[k]
    {
      len := len + [lengths[i]];
    }
  }

  method MakeTables(mtfv: array<nat>, nMTF: nat, selectors: seq<nat>, nGroups: nat, alphaSize: nat) returns (lens: seq<seq<Byte>>)
    requires 0 < nMTF <= mtfv.Length && nMTF <= 900_001 && 2 <= alphaSize <= MAX_ALPHA_SIZE && 2 <= nGroups <= 6
    requires forall i :: 0 <= i < nMTF ==> mtfv[i] < alphaSize
    requires |selectors| == (nMTF + G_SIZE - 1) / G_SIZE
    requires forall k :: 0 <= k < |selectors| ==> selectors[k] < nGroups
    ensures |lens| == nGroups && Writable(Coding(lens, selectors), alphaSize, nMTF)
    ensures forall t :: 0 <= t < nGroups ==> forall i :: 0 <= i < alphaSize ==> lens[t][i] <= SENT_CODE_LEN
    ensures forall t :: 0 <= t < nGroups ==> BestFor(lens[t], Occurrences(mtfv[..nMTF], selectors, t, alphaSize))
  {
    hide Fits, BestFor, Occurrences;
    EnoughSelectors(nMTF);
    lens := [];
    for t := 0 to nGroups
      invariant |lens| == t
      invariant forall u :: 0 <= u < t ==> |lens[u]| == alphaSize && Fits(lens[u])
      invariant forall u :: 0 <= u < t ==> forall i :: 0 <= i < alphaSize ==> 1 <= lens[u][i] <= SENT_CODE_LEN
      invariant forall u :: 0 <= u < t ==> BestFor(lens[u], Occurrences(mtfv[..nMTF], selectors, u, alphaSize))
    {
      var len := MakeTable(mtfv, nMTF, selectors, t, alphaSize);
      lens := lens + [len];
    }
  }

  /** The least and greatest code length. */
  method LengthRange(len: seq<Byte>) returns (minLen: nat, maxLen: nat)
    requires len != [] && GoodLengths(len)
    ensures Lengths(len, minLen, maxLen)
  {
    minLen, maxLen := 32, 0;
    for i := 0 to |len|
      invariant i == 0 ==> minLen == 32 && maxLen == 0
      invariant i > 0 ==> 1 <= minLen <= maxLen <= LONGEST_CODE
      invariant forall k :: 0 <= k < i ==> minLen <= len[k] <= maxLen
    {
      if len[i] > maxLen { maxLen := len[i]; }
      if len[i] < minLen { minLen := len[i]; }
    }
  }

  ghost predicate CodesOf(codes: seq<seq<nat>>, lens: seq<seq<Byte>>) {
    && |codes| == |lens|
    && (forall t :: 0 <= t < |codes| ==> |codes[t]| == |lens[t]|)
    && (forall t :: 0 <= t < |codes| ==> forall i :: 0 <= i < |lens[t]| ==> codes[t][i] == CodeOf(lens[t], i))
  }

  method AssignCodes(lens: seq<seq<Byte>>) returns (codes: seq<seq<nat>>)
    requires forall t :: 0 <= t < |lens| ==> lens[t] != [] && GoodLengths(lens[t])
    ensures CodesOf(codes, lens)
  {
    hide CodeOf;
    codes := [];
    for t := 0 to |lens|
      invariant CodesOf(codes, lens[..t])
    {
      var minLen, maxLen := LengthRange(lens[t]);
      var code := new nat[|lens[t]|];
      HbAssignCodes(code, lens[t], minLen, maxLen, |lens[t]|);
      codes := codes + [code[..]];
    }
    assert lens[..|lens|] == lens;
  }

  // ----- Writing -----

  lemma BitWritten(b: bool)
    ensures ToBits(if b then 1 else 0, 1) == [b] && Pow2(1) == 2
  {
    assert ToBits(0, 0) == [];
  }

  method WriteBit(w: BitWriter, b: bool)
    requires w.Valid()
    modifies w
    ensures w.Valid() && w.Written() == old(w.Written()) + [b]
  {
    BitWritten(b);
    w.Write(1, if b then 1 else 0);
  }

  method SendMap(w: BitWriter, inUse: seq<bool>)
    requires w.Valid() && |inUse| == 256
    modifies w
    ensures w.Valid() && w.Written() == old(w.Written()) + WriteMap(inUse)
  {
    hide BitWriter.Valid, BitWriter.Written, WriteGroups, UsedGroup;
    var inUse16 := GroupsInUse(inUse);
    ghost var before := w.Written();
    for i := 0 to 16
      invariant w.Valid() && w.Written() == before + inUse16[..i]
    {
      WriteBit(w, inUse16[i]);
      assert inUse16[..i] + [inUse16[i]] == inUse16[..i + 1];
    }
    assert w.Written() == before + UsedGroups(inUse);
    ghost var goal := w.Written() + WriteGroups(inUse, 0);
    for i := 0 to 16
      invariant w.Valid() && w.Written() + WriteGroups(inUse, i) == goal
    {
      GroupsFrom(inUse, i);
      if inUse16[i] {
        ghost var start, g := w.Written(), inUse[16 * i..16 * i + 16];
        for j := 0 to 16
          invariant w.Valid() && w.Written() == start + g[..j]
        {
          WriteBit(w, inUse[i * 16 + j]);
          assert g[..j] + [g[j]] == g[..j + 1];
        }
        assert g[..16] == g;
      } else {
        assert [] + WriteGroups(inUse, i + 1) == WriteGroups(inUse, i + 1);
      }
    }
    GroupsEnd(inUse);
    assert before + WriteMap(inUse) == before + UsedGroups(inUse) + WriteGroups(inUse, 0);
  }

  lemma GroupsFrom(inUse: seq<bool>, i: nat)
    requires |inUse| == 256 && i < 16
    ensures WriteGroups(inUse, i) == (if UsedGroup(inUse, i) then inUse[16 * i..16 * i + 16] else []) + WriteGroups(inUse, i + 1)
  {
  }

  lemma GroupsEnd(inUse: seq<bool>)
    requires |inUse| == 256
    ensures WriteGroups(inUse, 16) == []
  {
  }

  method GroupsInUse(inUse: seq<bool>) returns (inUse16: seq<bool>)
    requires |inUse| == 256
    ensures inUse16 == UsedGroups(inUse)
  {
    inUse16 := [];
    for i := 0 to 16
      invariant |inUse16| == i && forall k :: 0 <= k < i ==> inUse16[k] == UsedGroup(inUse, k)
    {
      var used := false;
      for j := 0 to 16
        invariant used == (true in inUse[16 * i..16 * i + j])
      {
        if inUse[i * 16 + j] { used := true; }
        assert inUse[16 * i..16 * i + j + 1] == inUse[16 * i..16 * i + j] + [inUse[16 * i + j]];
      }
      inUse16 := inUse16 + [used];
    }
  }

  /** Find x in the list pos and move it to the front, one place at a time. */
  method MoveSelector(pos: array<nat>, x: nat) returns (j: nat)
    requires x in pos[..]
    modifies pos
    ensures x in old(pos[..]) && j == FirstIndex(old(pos[..]), x)
    ensures pos[..] == ToFront(old(pos[..]), j)
  {
    ghost var y := pos[..];
    ghost var at :| 0 <= at < |y| && y[at] == x;
    j := 0;
    var tmp := pos[j];
    while x != tmp
      invariant 0 <= j <= at < |y| && tmp == y[j] && x !in y[..j]
      invariant forall k :: 1 <= k <= j ==> pos[k] == y[k - 1]
      invariant forall k :: j < k < |y| ==> pos[k] == y[k]
      decreases |y| - j
    {
      j := j + 1;
      var tmp2 := tmp;
      tmp := pos[j];
      pos[j] := tmp2;
    }
    pos[0] := tmp;
    FirstIndexIs(y, x, j);
    ToFrontIs(y, j, pos[..]);
  }

  ghost predicate AllIn(s: seq<nat>, pos: seq<nat>) {
    forall k :: 0 <= k < |s| ==> s[k] in pos
  }

  lemma MtfOne(selectors: seq<nat>, i: nat, pos: seq<nat>)
    requires i < |selectors| && AllIn(selectors[i..], pos)
    ensures selectors[i] in pos
    ensures var j := FirstIndex(pos, selectors[i]);
            && AllIn(selectors[i + 1..], ToFront(pos, j))
            && SelectorMtf(selectors[i..], pos) == [j] + SelectorMtf(selectors[i + 1..], ToFront(pos, j))
  {
    hide ToFront;
    assert selectors[i..][0] == selectors[i] && selectors[i..][1..] == selectors[i + 1..];
    FrontKeepsMembers(pos, FirstIndex(pos, selectors[i]));
  }

  method ComputeSelectorMtf(selectors: seq<nat>, nGroups: nat) returns (selectorMtf: seq<nat>)
    requires forall k :: 0 <= k < |selectors| ==> selectors[k] < nGroups
    ensures forall k :: 0 <= k < |selectors| ==> selectors[k] in Iota(nGroups)
    ensures selectorMtf == SelectorMtf(selectors, Iota(nGroups))
  {
    hide SelectorMtf, ToFront, FirstIndex;
    var pos := new nat[nGroups](i => i);
    assert pos[..] == Iota(nGroups);
    assert forall k :: 0 <= k < |selectors| ==> selectors[k] == Iota(nGroups)[selectors[k]];
    selectorMtf := [];
    assert selectors[0..] == selectors;
    for i := 0 to |selectors|
      invariant AllIn(selectors[i..], pos[..])
      invariant selectorMtf + SelectorMtf(selectors[i..], pos[..]) == SelectorMtf(selectors, Iota(nGroups))
    {
      MtfOne(selectors, i, pos[..]);
      ghost var y := pos[..];
      var j := MoveSelector(pos, selectors[i]);
      selectorMtf := selectorMtf + [j];
    }
    MtfNone(pos[..]);
    assert selectors[|selectors|..] == [];
  }

  lemma MtfNone(pos: seq<nat>)
    ensures SelectorMtf([], pos) == []
  {
  }

  method SendUnary(w: BitWriter, n: nat)
    requires w.Valid()
    modifies w
    ensures w.Valid() && w.Written() == old(w.Written()) + Unary(n)
  {
    hide BitWriter.Valid, BitWriter.Written;
    ghost var goal := w.Written() + Unary(n);
    for j := 0 to n
      invariant w.Valid() && w.Written() + Unary(n - j) == goal
    {
      WriteBit(w, true);
    }
    WriteBit(w, false);
  }

  method SendUnaries(w: BitWriter, s: seq<nat>)
    requires w.Valid()
    modifies w
    ensures w.Valid() && w.Written() == old(w.Written()) + WriteUnaries(s)
  {
    hide BitWriter.Valid, BitWriter.Written, Unary;
    ghost var goal := w.Written() + WriteUnaries(s);
    assert s[0..] == s;
    for i := 0 to |s|
      invariant w.Valid() && w.Written() + WriteUnaries(s[i..]) == goal
    {
      assert s[i..][0] == s[i] && s[i..][1..] == s[i + 1..];
      ghost var before := w.Written();
      SendUnary(w, s[i]);
      assert before + (Unary(s[i]) + WriteUnaries(s[i + 1..])) == before + Unary(s[i]) + WriteUnaries(s[i + 1..]);
    }
  }

  method SendSteps(w: BitWriter, from: nat, goal: nat) returns (curr: nat)
    requires w.Valid()
    modifies w
    ensures w.Valid() && w.Written() == old(w.Written()) + Steps(from, goal) && curr == goal
  {
    hide BitWriter.Valid, BitWriter.Written, Steps, ToBits;
    ghost var all := w.Written() + Steps(from, goal);
    curr := from;
    while curr < goal
      invariant w.Valid() && w.Written() + Steps(curr, goal) == all
    {
      TwoBits(false);
      NextStep(curr, goal);
      w.Write(2, 2);
      curr := curr + 1;
    }
    while curr > goal
      invariant curr >= goal && w.Valid() && w.Written() + Steps(curr, goal) == all
    {
      TwoBits(true);
      NextStep(curr, goal);
      w.Write(2, 3);
      curr := curr - 1;
    }
    NextStep(curr, goal);
    WriteBit(w, false);
  }

  lemma NextStep(curr: nat, goal: nat)
    ensures Steps(curr, goal) ==
            if curr < goal then [true, false] + Steps(curr + 1, goal)
            else if curr > goal then [true, true] + Steps(curr - 1, goal)
            else [false]
  {
  }

  lemma TwoBits(down: bool)
    ensures ToBits(if down then 3 else 2, 2) == [true, down] && Pow2(2) == 4
  {
    BitWritten(true);
  }

  lemma FiveBits(v: nat)
    requires v <= LONGEST_CODE
    ensures v < Pow2(5)
  {
    assert Pow2(5) == 32;
  }

  method SendTable(w: BitWriter, len: seq<Byte>)
    requires w.Valid() && len != [] && GoodLengths(len)
    modifies w
    ensures w.Valid() && w.Written() == old(w.Written()) + WriteTable(len)
  {
    hide BitWriter.Valid, BitWriter.Written, Steps, ToBits, Pow2, WriteLengths;
    ghost var goal := w.Written() + WriteTable(len);
    var curr: nat := len[0];
    FiveBits(curr);
    w.Write(5, curr);
    assert len[0..] == len;
    for i := 0 to |len|
      invariant curr == len[if i == 0 then 0 else i - 1]
      invariant w.Valid() && w.Written() + WriteLengths(curr, len[i..]) == goal
    {
      LengthsFrom(curr, len, i);
      ghost var before := w.Written();
      ghost var from := curr;
      curr := SendSteps(w, curr, len[i]);
      assert before + (Steps(from, len[i]) + WriteLengths(len[i], len[i + 1..]))
          == before + Steps(from, len[i]) + WriteLengths(len[i], len[i + 1..]);
    }
    NoLengths(curr, len);
  }

  lemma LengthsFrom(curr: nat, len: seq<Byte>, i: nat)
    requires i < |len|
    ensures WriteLengths(curr, len[i..]) == Steps(curr, len[i]) + WriteLengths(len[i], len[i + 1..])
  {
    assert len[i..][0] == len[i] && len[i..][1..] == len[i + 1..];
  }

  lemma NoLengths(curr: nat, len: seq<Byte>)
    ensures WriteLengths(curr, len[|len|..]) == []
  {
  }

  method SendTables(w: BitWriter, lens: seq<seq<Byte>>)
    requires w.Valid() && forall t :: 0 <= t < |lens| ==> lens[t] != [] && GoodLengths(lens[t])
    modifies w
    ensures w.Valid() && w.Written() == old(w.Written()) + WriteTables(lens)
  {
    hide BitWriter.Valid, BitWriter.Written, WriteTable, GoodLengths;
    ghost var goal := w.Written() + WriteTables(lens);
    assert lens[0..] == lens;
    for t := 0 to |lens|
      invariant w.Valid() && w.Written() + WriteTables(lens[t..]) == goal
    {
      assert lens[t..][0] == lens[t] && lens[t..][1..] == lens[t + 1..];
      ghost var before := w.Written();
      SendTable(w, lens[t]);
      assert before + (WriteTable(lens[t]) + WriteTables(lens[t + 1..])) == before + WriteTable(lens[t]) + WriteTables(lens[t + 1..]);
    }
  }

  lemma SymbolsFrom(c: Coding, alphaSize: nat, s: seq<nat>, i: nat)
    requires Readable(c, alphaSize) && |s| <= G_SIZE * |c.selectors| && i < |s|
    requires forall k :: 0 <= k < |s| ==> s[k] < alphaSize
    ensures i / G_SIZE < |c.selectors|
    ensures var len := TableFor(c, alphaSize, i);
            WriteSymbols(c, alphaSize, i, s[i..]) == ToBits(CodeOf(len, s[i]), len[s[i]]) + WriteSymbols(c, alphaSize, i + 1, s[i + 1..])
  {
    assert s[i..][0] == s[i] && s[i..][1..] == s[i + 1..];
  }

  /** The codes of one symbol. */
  method SendSymbol(w: BitWriter, c: Coding, codes: seq<seq<nat>>, sel: nat, sym: nat, ghost alphaSize: nat)
    requires w.Valid() && sel < |c.lens| && sym < alphaSize && Readable(c, alphaSize) && CodesOf(codes, c.lens)
    requires Fits(c.lens[sel])
    modifies w
    ensures w.Valid() && w.Written() == old(w.Written()) + ToBits(CodeOf(c.lens[sel], sym), c.lens[sel][sym])
  {
    hide BitWriter.Valid, BitWriter.Written, Fits, CodeOf, ToBits;
    CodeFits(c.lens[sel], sym);
    w.Write(c.lens[sel][sym], codes[sel][sym]);
  }

  method SendSymbols(w: BitWriter, c: Coding, codes: seq<seq<nat>>, mtfv: array<nat>, nMTF: nat, ghost alphaSize: nat)
    requires w.Valid() && nMTF <= mtfv.Length && Writable(c, alphaSize, nMTF) && CodesOf(codes, c.lens)
    requires forall i :: 0 <= i < nMTF ==> mtfv[i] < alphaSize
    requires nMTF <= G_SIZE * |c.selectors|
    modifies w
    ensures w.Valid() && w.Written() == old(w.Written()) + WriteSymbols(c, alphaSize, 0, mtfv[..nMTF])
  {
    hide BitWriter.Valid, BitWriter.Written, Fits, CodesOf, WriteSymbols, ToBits, CodeOf;
    ghost var s := mtfv[..nMTF];
    ghost var goal := w.Written() + WriteSymbols(c, alphaSize, 0, s);
    assert s[0..] == s;
    var selCtr, gs := 0, 0;
    while gs < nMTF
      invariant mtfv[..nMTF] == s
      invariant gs == if G_SIZE * selCtr <= nMTF then G_SIZE * selCtr else nMTF
      invariant w.Valid() && w.Written() + WriteSymbols(c, alphaSize, gs, s[gs..]) == goal
    {
      var ge := gs + G_SIZE - 1;
      if ge >= nMTF { ge := nMTF - 1; }
      for i := gs to ge + 1
        invariant mtfv[..nMTF] == s
        invariant w.Valid() && w.Written() + WriteSymbols(c, alphaSize, i, s[i..]) == goal
      {
        SymbolsFrom(c, alphaSize, s, i);
        SameGroup(i, selCtr);
        ghost var before := w.Written();
        SendSymbol(w, c, codes, c.selectors[selCtr], mtfv[i], alphaSize);
        ghost var len := TableFor(c, alphaSize, i);
        ghost var code := ToBits(CodeOf(len, s[i]), len[s[i]]);
        assert before + (code + WriteSymbols(c, alphaSize, i + 1, s[i + 1..])) == before + code + WriteSymbols(c, alphaSize, i + 1, s[i + 1..]);
      }
      gs := ge + 1;
      selCtr := selCtr + 1;
    }
    assert s[nMTF..] == [];
    NoSymbols(c, alphaSize, nMTF);
  }

  lemma SameGroup(i: nat, g: nat)
    requires G_SIZE * g <= i < G_SIZE * (g + 1)
    ensures i / G_SIZE == g
  {
  }

  method SendCoding(w: BitWriter, c: Coding, ghost alphaSize: nat, ghost nMTF: nat)
    requires w.Valid() && Writable(c, alphaSize, nMTF)
    modifies w
    ensures w.Valid() && w.Written() == old(w.Written()) + WriteCoding(c)
  {
    hide BitWriter.Valid, BitWriter.Written, Fits, WriteTables, ToBits, WriteUnaries, Moves, SelectorMtf, Pow2, Unary;
    ghost var before := w.Written();
    var nGroups := |c.lens|;
    var selectorMtf := ComputeSelectorMtf(c.selectors, nGroups);
    MovesAre(c);
    SmallPowers(nGroups, |c.selectors|);
    w.Write(3, nGroups);
    w.Write(15, |c.selectors|);
    SendUnaries(w, selectorMtf);
    SendTables(w, c.lens);
    CodingJoined(before, c);
  }

  lemma CodingJoined(before: seq<bool>, c: Coding)
    requires forall t :: 0 <= t < |c.lens| ==> c.lens[t] != []
    requires forall k :: 0 <= k < |c.selectors| ==> c.selectors[k] < |c.lens|
    ensures before + ToBits(|c.lens|, 3) + ToBits(|c.selectors|, 15) + WriteUnaries(Moves(c)) + WriteTables(c.lens)
         == before + WriteCoding(c)
  {
    hide WriteTables, ToBits, WriteUnaries, Moves;
  }

  /** Choose tables for the symbols of the column l and write it. */
  method SendMtfValues(w: BitWriter, mtfv: array<nat>, nMTF: nat, inUse: seq<bool>, nInUse: nat, ghost l: seq<Byte>)
    returns (c: Coding)
    requires w.Valid() && AllInUse(inUse, l) && 0 < |l| <= 900_000 && nInUse == NInUse(inUse)
    requires nMTF <= mtfv.Length && mtfv[..nMTF] == EncodedColumn(inUse, l) && nMTF <= |l| + 1
    modifies w
    ensures Encodable(inUse, c, l) && |EncodedColumn(inUse, l)| <= G_SIZE * |c.selectors|
    ensures forall t :: 0 <= t < |c.lens| ==> BestFor(c.lens[t], Occurrences(EncodedColumn(inUse, l), c.selectors, t, nInUse + 2))
    ensures w.Valid() && w.Written() == old(w.Written()) + WriteColumn(inUse, c, l)
  {
    hide BitWriter.Valid, BitWriter.Written, BestFor, Occurrences, EncodedColumn, Fits, NInUse, WriteSymbols, WriteMap, WriteCoding, AllInUse, CodesOf;
    var alphaSize := nInUse + 2;
    ColumnUses(inUse, l);
    var nGroups := ChooseGroups(nMTF);
    var selectors := ChooseSelectors(nMTF, nGroups);
    assert forall i :: 0 <= i < nMTF ==> mtfv[i] == EncodedColumn(inUse, l)[i];
    EnoughSelectors(nMTF);
    var lens := MakeTables(mtfv, nMTF, selectors, nGroups, alphaSize);
    c := Coding(lens, selectors);
    var codes := AssignCodes(lens);
    ghost var before := w.Written();
    SendMap(w, inUse);
    SendCoding(w, c, alphaSize, nMTF);
    SendSymbols(w, c, codes, mtfv, nMTF, alphaSize);
    ColumnJoined(before, inUse, c, l);
  }

  lemma ColumnUses(inUse: seq<bool>, l: seq<Byte>)
    requires AllInUse(inUse, l)
    ensures |inUse| == 256
  {
  }

  lemma SmallPowers(nGroups: nat, nSelectors: nat)
    requires nGroups <= 6 && nSelectors < 32768
    ensures nGroups < Pow2(3) && nSelectors < Pow2(15)
  {
    assert Pow2(3) == 8;
    Pow2Sum(8, 7);
    assert Pow2(8) == 256 && Pow2(7) == 128;
  }

  lemma MovesAre(c: Coding)
    requires forall k :: 0 <= k < |c.selectors| ==> c.selectors[k] < |c.lens|
    requires forall k :: 0 <= k < |c.selectors| ==> c.selectors[k] in Iota(|c.lens|)
    ensures Moves(c) == SelectorMtf(c.selectors, Iota(|c.lens|))
  {
  }

  lemma ColumnJoined(before: seq<bool>, inUse: seq<bool>, c: Coding, l: seq<Byte>)
    requires Encodable(inUse, c, l)
    ensures before + WriteMap(inUse) + WriteCoding(c) + WriteSymbols(c, NInUse(inUse) + 2, 0, EncodedColumn(inUse, l))
         == before + WriteColumn(inUse, c, l)
  {
    hide EncodedColumn, NInUse, WriteSymbols, WriteMap, WriteCoding;
  }
}
