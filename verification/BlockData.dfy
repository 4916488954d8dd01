/** The data of a block, the whole block, and the theorem that decoding a block undoes encoding it. */
module BlockData {
  import opened Powers
  import opened Sequences
  import opened Bits
  import opened BitReading
  import opened MoveToFront
  import opened GenerateMtf
  import opened CanonicalCodes
  import opened BlockFormat
  import opened Rotations
  import opened InverseBwt

  const G_SIZE := 50
  const MAX_SELECTORS := 18002

  /** The code lengths of the tables, and which table each group of 50 symbols uses. */
  datatype Coding = Coding(lens: seq<seq<Byte>>, selectors: seq<nat>)

  ghost predicate Readable(c: Coding, alphaSize: nat) {
    && (forall t :: 0 <= t < |c.lens| ==> |c.lens[t]| == alphaSize && GoodLengths(c.lens[t]))
    && (forall k :: 0 <= k < |c.selectors| ==> c.selectors[k] < |c.lens|)
  }

  ghost predicate Writable(c: Coding, alphaSize: nat, nMTF: nat) {
    && Readable(c, alphaSize)
    && (forall t :: 0 <= t < |c.lens| ==> Fits(c.lens[t]))
    && 2 <= |c.lens| <= 6 && alphaSize > 0
    && 1 <= |c.selectors| == (nMTF + G_SIZE - 1) / G_SIZE <= MAX_SELECTORS
  }

  // ----- The selectors and tables -----

  /** The selectors as moves to the front. */
  function Moves(c: Coding): (s: seq<nat>)
    requires forall k :: 0 <= k < |c.selectors| ==> c.selectors[k] < |c.lens|
    ensures |s| == |c.selectors| && forall k :: 0 <= k < |s| ==> s[k] < |c.lens|
    ensures SelectorsOf(s, Iota(|c.lens|)) == c.selectors
  {
    var pos := Iota(|c.lens|);
    assert forall k :: 0 <= k < |c.selectors| ==> c.selectors[k] == pos[c.selectors[k]];
    SelectorsRoundTrip(c.selectors, pos);
    SelectorMtf(c.selectors, pos)
  }

  function WriteCoding(c: Coding): seq<bool>
    requires forall t :: 0 <= t < |c.lens| ==> c.lens[t] != []
    requires forall k :: 0 <= k < |c.selectors| ==> c.selectors[k] < |c.lens|
  {
    ToBits(|c.lens|, 3) + (ToBits(|c.selectors|, 15)
    + (WriteUnaries(Moves(c)) + WriteTables(c.lens)))
  }

  function ReadCoding(alphaSize: nat, bits: seq<bool>): (p: Parse<Coding>)
    ensures p.Done? ==> Readable(p.value, alphaSize) && 2 <= |p.value.lens| <= 6 && |p.rest| <= |bits|
  {
    match Take(bits, 3)
    case More => More
    case Bad => Bad
    case Outside => Outside
    case Done(nGroups, rest) => if nGroups < 2 || nGroups > 6 then Bad else ReadSelectors(alphaSize, nGroups, rest)
  }

  function ReadSelectors(alphaSize: nat, nGroups: nat, bits: seq<bool>): (p: Parse<Coding>)
    requires nGroups > 0
    ensures p.Done? ==> Readable(p.value, alphaSize) && |p.value.lens| == nGroups && |p.rest| <= |bits|
  {
    match Take(bits, 15)
    case More => More
    case Bad => Bad
    case Outside => Outside
    case Done(nSelectors, rest) =>
      if nSelectors < 1 then Bad else
      match ReadUnaries(if nSelectors <= MAX_SELECTORS then nSelectors else MAX_SELECTORS + 1, nGroups, rest)
      case More => More
      case Bad => Bad
      case Outside => Outside
      case Done(selectorMtf, rest) =>
        if nSelectors > MAX_SELECTORS then Outside else
        var selectors := SelectorsOf(selectorMtf, Iota(nGroups));
        assert forall k :: 0 <= k < |selectors| ==> selectors[k] in Iota(nGroups);
        match ReadTables(nGroups, alphaSize, rest)
        case More => More
        case Bad => Bad
        case Outside => Outside
        case Done(lens, rest) => Done(Coding(lens, selectors), rest)
  }

  lemma SelectorsPartRoundTrip(c: Coding, alphaSize: nat, nMTF: nat, rest: seq<bool>)
    requires Writable(c, alphaSize, nMTF)
    ensures ReadSelectors(alphaSize, |c.lens|,
              ToBits(|c.selectors|, 15) + (WriteUnaries(Moves(c)) + (WriteTables(c.lens) + rest)))
         == Done(c, rest)
  {
    hide Take, ToBits, ReadUnaries, ReadTables, WriteUnaries, WriteTables, Moves, SelectorsOf, GoodLengths, Fits;
    var n := |c.lens|;
    var mtf := Moves(c);
    assert Pow2(15) == 32768 by { Pow2Sum(8, 7); assert Pow2(8) == 256 && Pow2(7) == 128; }
    TakeWritten(|c.selectors|, 15, WriteUnaries(mtf) + (WriteTables(c.lens) + rest));
    UnariesRoundTrip(mtf, n, WriteTables(c.lens) + rest);
    TablesRoundTrip(c.lens, alphaSize, rest);
  }

  lemma CodingRoundTrip(c: Coding, alphaSize: nat, nMTF: nat, rest: seq<bool>)
    requires Writable(c, alphaSize, nMTF)
    ensures ReadCoding(alphaSize, WriteCoding(c) + rest) == Done(c, rest)
  {
    hide Take, ToBits, ReadSelectors, WriteUnaries, WriteTables, Moves, GoodLengths, Fits;
    assert Pow2(3) == 8;
    var a := WriteUnaries(Moves(c));
    var tail := ToBits(|c.selectors|, 15) + (a + (WriteTables(c.lens) + rest));
    TakeWritten(|c.lens|, 3, tail);
    SelectorsPartRoundTrip(c, alphaSize, nMTF, rest);
    assert WriteCoding(c) + rest == ToBits(|c.lens|, 3) + tail;
  }

  // ----- The symbols -----

  /** The table for symbol number k. */
  function TableFor(c: Coding, alphaSize: nat, k: nat): (len: seq<Byte>)
    requires Readable(c, alphaSize) && k / G_SIZE < |c.selectors|
    ensures |len| == alphaSize && GoodLengths(len)
  {
    c.lens[c.selectors[k / G_SIZE]]
  }

  /** The codes of the symbols s, the first of which is number k. */
  function WriteSymbols(c: Coding, alphaSize: nat, k: nat, s: seq<nat>): seq<bool>
    requires Readable(c, alphaSize) && k + |s| <= G_SIZE * |c.selectors|
    requires forall i :: 0 <= i < |s| ==> s[i] < alphaSize
    decreases |s|
  {
    if s == [] then []
    else
      var len := TableFor(c, alphaSize, k);
      ToBits(CodeOf(len, s[0]), len[s[0]]) + WriteSymbols(c, alphaSize, k + 1, s[1..])
  }

  /** GET_MTF_VAL for symbol number k: a new selector is needed every 50 symbols. */
  function ReadNext(c: Coding, alphaSize: nat, k: nat, bits: seq<bool>): (p: Parse<nat>)
    requires Readable(c, alphaSize)
    ensures p.Done? ==> p.value < alphaSize && |p.rest| < |bits|
  {
    if k / G_SIZE >= |c.selectors| then Bad
    else
      var len := TableFor(c, alphaSize, k);
      SymbolInRange(len, bits);
      ReadSymbol(len, bits)
  }

  lemma SymbolInRange(len: seq<Byte>, bits: seq<bool>)
    requires GoodLengths(len)
    ensures var p := ReadSymbol(len, bits); p.Done? ==> p.value < |len| && |p.rest| < |bits|
  {
    hide ReadFrom;
    if ReadSymbol(len, bits).Done? {
      var t := ReadMeansWritten(len, 0, 0, bits);
    }
  }

  lemma NextRoundTrip(c: Coding, alphaSize: nat, k: nat, s: seq<nat>, rest: seq<bool>)
    requires Readable(c, alphaSize) && k + |s| <= G_SIZE * |c.selectors| && s != []
    requires forall i :: 0 <= i < |s| ==> s[i] < alphaSize
    requires forall t :: 0 <= t < |c.lens| ==> Fits(c.lens[t])
    ensures ReadNext(c, alphaSize, k, WriteSymbols(c, alphaSize, k, s) + rest)
         == Done(s[0], WriteSymbols(c, alphaSize, k + 1, s[1..]) + rest)
  {
    hide ReadSymbol, CodeOf, ToBits, Fits;
    var len := TableFor(c, alphaSize, k);
    var tail := WriteSymbols(c, alphaSize, k + 1, s[1..]);
    ReadWritten(len, s[0], tail + rest);
    var code := ToBits(CodeOf(len, s[0]), len[s[0]]);
    assert WriteSymbols(c, alphaSize, k, s) + rest == code + (tail + rest);
  }

  // ----- Undoing the runs and the move-to-front coding while reading -----

  /** The first n entries of the list are numbers below n. */
  ghost predicate Ranked(y: seq<nat>, n: nat) {
    0 < n <= |y| == 256 && forall i :: 0 <= i < n ==> y[i] < n
  }

  lemma FrontRanked(y: seq<nat>, n: nat, j: nat)
    requires Ranked(y, n) && j < n
    ensures Ranked(ToFront(y, j), n) && ToFront(y, j)[..n] == ToFront(y[..n], j)
  {
    assert ToFront(y, j)[..n] == ToFront(y[..n], j);
  }

  predicate AllBelow(s: seq<nat>, n: nat) {
    forall i :: 0 <= i < |s| ==> s[i] < n
  }

  lemma JoinedBelow(x: nat, run: nat, z: nat, n: nat)
    requires x < n && z < n
    ensures AllBelow(Copies(x, run), n) && AllBelow(Copies(x, run) + [z], n)
    ensures forall l: seq<nat> :: AllBelow(l, n) ==> AllBelow(Copies(x, run) + [z] + l, n)
  {
  }

  /** The column that the symbols from number k on stand for: es copies of the front of y are pending from
      run digits already read, and the next digit has the given weight. room is how much the block may grow.
      The source sums the digits up in 32 bits, so that only what is left of a longer run counts. */
  function Unpack(c: Coding, nInUse: nat, k: nat, y: seq<nat>, es: nat, weight: nat, room: nat, bits: seq<bool>): (p: Parse<seq<nat>>)
    requires Readable(c, nInUse + 2) && Ranked(y, nInUse)
    ensures p.Done? ==> |p.value| <= room && |p.rest| <= |bits| && AllBelow(p.value, nInUse)
    decreases |bits|
  {
    match ReadNext(c, nInUse + 2, k, bits)
    case More => More
    case Bad => Bad
    case Outside => Outside
    case Done(sym, rest) =>
      if sym == RUNA || sym == RUNB then
        Unpack(c, nInUse, k + 1, y, es + (if sym == RUNA then weight else 2 * weight), 2 * weight, room, rest)
      else
        var run := Int32(es);
        if run < 0 then Outside
        else if run > room then Bad
        else if sym == nInUse + 1 then Done(Copies(y[0], run), rest)
        else if run == room then Bad
        else
          FrontRanked(y, nInUse, sym - 1);
          JoinedBelow(y[0], run, y[sym - 1], nInUse);
          Prepend(Copies(y[0], run) + [y[sym - 1]], Unpack(c, nInUse, k + 1, ToFront(y, sym - 1), 0, 1, room - run - 1, rest))
  }

  /** Symbols with the end mark only at the end. */
  ghost predicate Ended(s: seq<nat>, nInUse: nat) {
    s != [] && s[|s| - 1] == nInUse + 1 && forall i :: 0 <= i < |s| - 1 ==> s[i] <= nInUse
  }

  ghost predicate Sendable(c: Coding, nInUse: nat, k: nat, s: seq<nat>) {
    && Readable(c, nInUse + 2) && nInUse > 0
    && (forall t :: 0 <= t < |c.lens| ==> Fits(c.lens[t]))
    && k + |s| <= G_SIZE * |c.selectors|
    && Ended(s, nInUse)
  }

  lemma UnpackEnd(c: Coding, nInUse: nat, k: nat, y: seq<nat>, es: nat, weight: nat, room: nat, bits: seq<bool>, rest: seq<bool>)
    requires Readable(c, nInUse + 2) && Ranked(y, nInUse) && es <= room < 0x8000_0000
    requires ReadNext(c, nInUse + 2, k, bits) == Done(nInUse + 1, rest)
    ensures Unpack(c, nInUse, k, y, es, weight, room, bits) == Done(Copies(y[0], es), rest)
  {
  }

  lemma UnpackDigit(c: Coding, nInUse: nat, k: nat, y: seq<nat>, es: nat, weight: nat, room: nat, bits: seq<bool>, sym: nat, rest: seq<bool>)
    requires Readable(c, nInUse + 2) && Ranked(y, nInUse) && sym <= RUNB
    requires ReadNext(c, nInUse + 2, k, bits) == Done(sym, rest)
    ensures Unpack(c, nInUse, k, y, es, weight, room, bits)
         == Unpack(c, nInUse, k + 1, y, es + (if sym == RUNA then weight else 2 * weight), 2 * weight, room, rest)
  {
  }

  lemma UnpackMove(c: Coding, nInUse: nat, k: nat, y: seq<nat>, es: nat, weight: nat, room: nat, bits: seq<bool>,
                   sym: nat, rest: seq<bool>, l: seq<nat>, rest': seq<bool>)
    requires Readable(c, nInUse + 2) && Ranked(y, nInUse) && RUNB < sym <= nInUse && es < room < 0x8000_0000
    requires ReadNext(c, nInUse + 2, k, bits) == Done(sym, rest)
    requires Ranked(ToFront(y, sym - 1), nInUse)
    requires Unpack(c, nInUse, k + 1, ToFront(y, sym - 1), 0, 1, room - es - 1, rest) == Done(l, rest')
    ensures Unpack(c, nInUse, k, y, es, weight, room, bits) == Done(Copies(y[0], es) + [y[sym - 1]] + l, rest')
  {
    hide ToFront;
  }

  lemma EndDecoded(s: seq<nat>, y: seq<nat>, weight: nat, eob: nat)
    requires y != [] && s != [] && s[0] == eob
    ensures DecodeFrom(s, y, weight, eob) == Some([])
  {
  }

  lemma DigitDecoded(s: seq<nat>, y: seq<nat>, weight: nat, eob: nat, l: seq<nat>) returns (l': seq<nat>)
    requires y != [] && s != [] && s[0] <= RUNB && s[0] != eob && DecodeFrom(s, y, weight, eob) == Some(l)
    ensures DecodeFrom(s[1..], y, 2 * weight, eob) == Some(l')
    ensures l == Copies(y[0], if s[0] == RUNA then weight else 2 * weight) + l'
  {
    l' := DecodeFrom(s[1..], y, 2 * weight, eob).value;
  }

  lemma MoveDecoded(s: seq<nat>, y: seq<nat>, weight: nat, eob: nat, l: seq<nat>) returns (l': seq<nat>)
    requires y != [] && s != [] && RUNB < s[0] <= |y| && s[0] != eob && DecodeFrom(s, y, weight, eob) == Some(l)
    ensures DecodeFrom(s[1..], ToFront(y, s[0] - 1), 1, eob) == Some(l') && l == [y[s[0] - 1]] + l'
  {
    hide ToFront;
    l' := DecodeFrom(s[1..], ToFront(y, s[0] - 1), 1, eob).value;
  }

  lemma CopiesJoin<T>(x: T, a: nat, b: nat, l: seq<T>)
    ensures Copies(x, a) + (Copies(x, b) + l) == Copies(x, a + b) + l
  {
  }

  lemma NoCopies<T>(x: T, l: seq<T>)
    ensures Copies(x, 0) + l == l
  {
  }

  lemma SendNext(c: Coding, nInUse: nat, k: nat, s: seq<nat>, rest: seq<bool>)
    requires Sendable(c, nInUse, k, s)
    ensures Readable(c, nInUse + 2) && s != [] && s[0] <= nInUse + 1
    ensures k + |s| <= G_SIZE * |c.selectors| && forall i :: 0 <= i < |s| ==> s[i] < nInUse + 2
    ensures ReadNext(c, nInUse + 2, k, WriteSymbols(c, nInUse + 2, k, s) + rest)
         == Done(s[0], WriteSymbols(c, nInUse + 2, k + 1, s[1..]) + rest)
    ensures s[0] == nInUse + 1 ==> s[1..] == []
    ensures s[0] != nInUse + 1 ==> Sendable(c, nInUse, k + 1, s[1..])
  {
    hide ReadNext, WriteSymbols, Fits, Readable;
    NextRoundTrip(c, nInUse + 2, k, s, rest);
  }

  /** Reading what was written for s gives what s decodes to, if there is room for it. */
  lemma {:induction false} UnpackWritten(c: Coding, nInUse: nat, k: nat, s: seq<nat>, y: seq<nat>, es: nat, weight: nat,
                                         room: nat, l: seq<nat>, rest: seq<bool>)
    requires Sendable(c, nInUse, k, s) && Ranked(y, nInUse)
    requires DecodeFrom(s, y[..nInUse], weight, nInUse + 1) == Some(l) && es + |l| <= room < 0x8000_0000
    ensures Unpack(c, nInUse, k, y, es, weight, room, WriteSymbols(c, nInUse + 2, k, s) + rest)
         == Done(Copies(y[0], es) + l, rest)
    decreases |s|
  {
    hide ReadNext, WriteSymbols, Readable, Sendable, ToFront, Unpack, DecodeFrom, Copies;
    SendNext(c, nInUse, k, s, rest);
    var bits := WriteSymbols(c, nInUse + 2, k, s) + rest;
    var sym, tail := s[0], s[1..];
    var bits' := WriteSymbols(c, nInUse + 2, k + 1, tail) + rest;
    if sym == nInUse + 1 {
      assert bits' == rest by { NoSymbols(c, nInUse + 2, k + 1); }
      EndDecoded(s, y[..nInUse], weight, nInUse + 1);
      UnpackEnd(c, nInUse, k, y, es, weight, room, bits, rest);
      assert Copies(y[0], es) + [] == Copies(y[0], es);
    } else if sym == RUNA || sym == RUNB {
      var more := if sym == RUNA then weight else 2 * weight;
      var l' := DigitDecoded(s, y[..nInUse], weight, nInUse + 1, l);
      UnpackDigit(c, nInUse, k, y, es, weight, room, bits, sym, bits');
      UnpackWritten(c, nInUse, k + 1, tail, y, es + more, 2 * weight, room, l', rest);
      CopiesJoin(y[0], es, more, l');
    } else {
      FrontRanked(y, nInUse, sym - 1);
      var y' := ToFront(y, sym - 1);
      var l' := MoveDecoded(s, y[..nInUse], weight, nInUse + 1, l);
      UnpackWritten(c, nInUse, k + 1, tail, y', 0, 1, room - es - 1, l', rest);
      NoCopies(y'[0], l');
      UnpackMove(c, nInUse, k, y, es, weight, room, bits, sym, bits', l', rest);
      assert Copies(y[0], es) + ([y[sym - 1]] + l') == Copies(y[0], es) + [y[sym - 1]] + l';
    }
  }

  // ----- Runs of more digits than 32 bits can sum up -----

  /** The length of the run that the digits stand for, the first of which has the given weight. */
  function DigitSum(digits: seq<nat>, weight: nat): nat {
    if digits == [] then 0 else (if digits[0] == RUNA then weight else 2 * weight) + DigitSum(digits[1..], 2 * weight)
  }

  lemma {:induction false} DigitSumBound(digits: seq<nat>, weight: nat)
    ensures DigitSum(digits, weight) <= 2 * (Pow2(|digits|) - 1) * weight
  {
    if digits != [] {
      DigitSumBound(digits[1..], 2 * weight);
      var p := Pow2(|digits| - 1);
      assert Pow2(|digits|) == 2 * p;
      assert 2 * (p - 1) * (2 * weight) + 2 * weight == 2 * (2 * p - 1) * weight;
    }
  }

  /** Runs of up to thirty digits are held exactly. */
  lemma ShortRunsAreExact(digits: seq<nat>)
    requires |digits| <= 30
    ensures Int32(DigitSum(digits, 1)) == DigitSum(digits, 1) < 0x8000_0000
  {
    hide DigitSum, Int32, Pow2;
    DigitSumBound(digits, 1);
    Pow2Grows(|digits|, 30);
    Pow2Values();
    Double(29);
  }

  /** Reading the digits of a run adds them up. */
  lemma {:induction false} UnpackDigits(c: Coding, nInUse: nat, k: nat, y: seq<nat>, digits: seq<nat>, es: nat, weight: nat, room: nat, rest: seq<bool>)
    requires Readable(c, nInUse + 2) && Ranked(y, nInUse) && k + |digits| <= G_SIZE * |c.selectors|
    requires (forall t :: 0 <= t < |c.lens| ==> Fits(c.lens[t])) && forall i :: 0 <= i < |digits| ==> digits[i] <= RUNB
    ensures Unpack(c, nInUse, k, y, es, weight, room, WriteSymbols(c, nInUse + 2, k, digits) + rest)
         == Unpack(c, nInUse, k + |digits|, y, es + DigitSum(digits, weight), Pow2(|digits|) * weight, room, rest)
    decreases |digits|
  {
    hide Unpack, ReadNext, WriteSymbols, Fits, Readable, Ranked, Pow2;
    if digits == [] {
      NoSymbols(c, nInUse + 2, k);
      Unit();
      assert [] + rest == rest;
    } else {
      var more := if digits[0] == RUNA then weight else 2 * weight;
      NextRoundTrip(c, nInUse + 2, k, digits, rest);
      UnpackDigit(c, nInUse, k, y, es, weight, room, WriteSymbols(c, nInUse + 2, k, digits) + rest, digits[0],
                  WriteSymbols(c, nInUse + 2, k + 1, digits[1..]) + rest);
      UnpackDigits(c, nInUse, k + 1, y, digits[1..], es + more, 2 * weight, room, rest);
      WeightAfter(|digits|, weight);
    }
  }

  lemma WeightAfter(n: nat, weight: nat)
    requires n > 0
    ensures Pow2(n - 1) * (2 * weight) == Pow2(n) * weight
  {
    Twice(Pow2(n - 1), weight);
    assert Pow2(n) * weight == 2 * (Pow2(n - 1) * weight);
  }

  /** The same in 32 bits. */
  predicate Alike(x: int, y: int) {
    Int32(x) == Int32(y)
  }

  lemma AlikeSum(x: int, x': int, y: int, y': int)
    requires Alike(x, x') && Alike(y, y')
    ensures Alike(x + y, x' + y')
  {
    hide Int32;
    Int32Sum(x, y);
    Int32Sum(x', y');
  }

  /** Of the sum and the weight only what 32 bits hold matters. */
  lemma {:induction false} UnpackWraps(c: Coding, nInUse: nat, k: nat, y: seq<nat>, es: nat, weight: nat, es': nat, weight': nat, room: nat, bits: seq<bool>)
    requires Readable(c, nInUse + 2) && Ranked(y, nInUse)
    requires Alike(es, es') && Alike(weight, weight')
    ensures Unpack(c, nInUse, k, y, es, weight, room, bits) == Unpack(c, nInUse, k, y, es', weight', room, bits)
    decreases |bits|
  {
    hide ReadNext, Readable, Ranked, Unpack, Alike;
    var p := ReadNext(c, nInUse + 2, k, bits);
    if p.Done? && p.value <= RUNB {
      var a, a' := if p.value == RUNA then weight else 2 * weight, if p.value == RUNA then weight' else 2 * weight';
      UnpackDigit(c, nInUse, k, y, es, weight, room, bits, p.value, p.rest);
      UnpackDigit(c, nInUse, k, y, es', weight', room, bits, p.value, p.rest);
      AlikeSum(weight, weight', weight, weight');
      AlikeSum(es, es', a, a');
      UnpackWraps(c, nInUse, k + 1, y, es + a, 2 * weight, es' + a', 2 * weight', room, p.rest);
    } else {
      UnpackNoDigit(c, nInUse, k, y, es, weight, es', weight', room, bits);
    }
  }

  lemma UnpackNoDigit(c: Coding, nInUse: nat, k: nat, y: seq<nat>, es: nat, weight: nat, es': nat, weight': nat, room: nat, bits: seq<bool>)
    requires Readable(c, nInUse + 2) && Ranked(y, nInUse) && Alike(es, es')
    requires ReadNext(c, nInUse + 2, k, bits).Done? ==> ReadNext(c, nInUse + 2, k, bits).value > RUNB
    ensures Unpack(c, nInUse, k, y, es, weight, room, bits) == Unpack(c, nInUse, k, y, es', weight', room, bits)
  {
    hide ReadNext, Readable, Ranked, ToFront, Copies, Int32;
  }

  /** Thirty-two digits with the sum 2^32. */
  function LongRun(): (s: seq<nat>)
    ensures |s| == 32 && forall i :: 0 <= i < 32 ==> s[i] <= RUNB
  {
    [RUNB] + Repeat(31)
  }

  function Repeat(n: nat): (s: seq<nat>)
    ensures |s| == n && forall i :: 0 <= i < n ==> s[i] == RUNA
  {
    if n == 0 then [] else [RUNA] + Repeat(n - 1)
  }

  lemma {:induction false} RepeatSum(n: nat, weight: nat)
    ensures DigitSum(Repeat(n), weight) == (Pow2(n) - 1) * weight
  {
    if n > 0 {
      RepeatSum(n - 1, 2 * weight);
      assert Repeat(n)[1..] == Repeat(n - 1);
      var p := Pow2(n - 1);
      assert (p - 1) * (2 * weight) + weight == (2 * p - 1) * weight;
    }
  }

  lemma LongRunSum()
    ensures DigitSum(LongRun(), 1) == 0x1_0000_0000 && Int32(DigitSum(LongRun(), 1)) == 0
  {
    hide Repeat, Pow2;
    RepeatSum(31, 2);
    assert LongRun()[1..] == Repeat(31);
    Pow2Values();
    Double(31);
  }

  /** The run of 2^32 copies leaves nothing: reading goes on as if it had not been there, and further digits have no weight. */
  lemma LongRunVanishes(c: Coding, nInUse: nat, k: nat, y: seq<nat>, room: nat, rest: seq<bool>)
    requires Readable(c, nInUse + 2) && Ranked(y, nInUse) && k + 32 <= G_SIZE * |c.selectors|
    requires forall t :: 0 <= t < |c.lens| ==> Fits(c.lens[t])
    ensures Unpack(c, nInUse, k, y, 0, 1, room, WriteSymbols(c, nInUse + 2, k, LongRun()) + rest)
         == Unpack(c, nInUse, k + 32, y, 0, 0, room, rest)
  {
    hide Unpack, WriteSymbols, Fits, Readable, Ranked, LongRun, DigitSum, Pow2;
    UnpackDigits(c, nInUse, k, y, LongRun(), 0, 1, room, rest);
    LongRunSum();
    Pow2Values();
    UnpackWraps(c, nInUse, k + 32, y, 0x1_0000_0000, Pow2(32), 0, 0, room, rest);
  }

  lemma NoSymbols(c: Coding, alphaSize: nat, k: nat)
    requires Readable(c, alphaSize) && k <= G_SIZE * |c.selectors|
    ensures WriteSymbols(c, alphaSize, k, []) == []
  {
  }

  lemma {:induction false} EncodeBelowEnd(l: seq<nat>, y: seq<nat>, zPend: nat)
    requires Lists(y, l)
    ensures forall i :: 0 <= i < |EncodeFrom(l, y, zPend)| ==> EncodeFrom(l, y, zPend)[i] <= |y|
    decreases |l|
  {
    hide ToFront, RunDigits;
    if l != [] {
      ListsTail(y, l, 0);
      if y[0] == l[0] {
        EncodeBelowEnd(l[1..], y, zPend + 1);
      } else {
        var j := FirstIndex(y, l[0]);
        ListsTail(y, l, j);
        EncodeBelowEnd(l[1..], ToFront(y, j), 0);
      }
    }
  }

  lemma EncodeEnded(l: seq<nat>, n: nat)
    requires n > 0 && forall k :: 0 <= k < |l| ==> l[k] < n
    ensures Ended(Encode(l, n), n) && |Encode(l, n)| <= |l| + 1
  {
    hide EncodeFrom;
    assert forall k :: 0 <= k < |l| ==> l[k] == Iota(n)[l[k]];
    EncodeBelowEnd(l, Iota(n), 0);
    EncodeIsNoLonger(l, Iota(n), 0);
  }

  // ----- The whole block -----

  /** A block as it is before the transform is undone. */
  datatype Sorted = Sorted(randomised: bool, origPtr: nat, column: seq<Byte>)

  /** The column and a choice of tables and selectors that can be written together. */
  ghost predicate Encodable(inUse: seq<bool>, c: Coding, l: seq<Byte>) {
    AllInUse(inUse, l) && l != [] && Writable(c, NInUse(inUse) + 2, |EncodedColumn(inUse, l)|)
  }

  /** What sendMTFValues writes for the column l. */
  function WriteColumn(inUse: seq<bool>, c: Coding, l: seq<Byte>): seq<bool>
    requires Encodable(inUse, c, l)
  {
    var s := EncodedColumn(inUse, l);
    WriteMap(inUse) + (WriteCoding(c) + WriteSymbols(c, NInUse(inUse) + 2, 0, s))
  }

  /** The symbols of a column over the characters in use. */
  function EncodedColumn(inUse: seq<bool>, l: seq<Byte>): (s: seq<nat>)
    requires AllInUse(inUse, l) && l != []
    ensures NInUse(inUse) > 0 && Ended(s, NInUse(inUse))
  {
    RenumberInRange(inUse, l);
    var n, s := NInUse(inUse), Renumber(inUse, l);
    assert s[0] < n;
    EncodeEnded(s, n);
    Encode(s, n)
  }

  function ReadColumn(nblockMAX: nat, bits: seq<bool>): (p: Parse<seq<Byte>>)
    ensures p.Done? ==> |p.value| <= nblockMAX && |p.rest| <= |bits|
  {
    match ReadMap(bits)
    case More => More
    case Bad => Bad
    case Outside => Outside
    case Done(inUse, rest) => if NInUse(inUse) == 0 then Bad else ReadCoded(inUse, nblockMAX, rest)
  }

  function ReadCoded(inUse: seq<bool>, nblockMAX: nat, bits: seq<bool>): (p: Parse<seq<Byte>>)
    requires |inUse| == 256 && NInUse(inUse) > 0
    ensures p.Done? ==> |p.value| <= nblockMAX && |p.rest| <= |bits|
  {
    var n := NInUse(inUse);
    match ReadCoding(n + 2, bits)
    case More => More
    case Bad => Bad
    case Outside => Outside
    case Done(c, rest) =>
      FirstRanked(inUse);
      match Unpack(c, n, 0, Iota(256), 0, 1, nblockMAX, rest)
      case More => More
      case Bad => Bad
      case Outside => Outside
      case Done(s, rest) => Done(Unnumber(inUse, s), rest)
  }

  lemma FirstRanked(inUse: seq<bool>)
    requires |inUse| == 256 && NInUse(inUse) > 0
    ensures Ranked(Iota(256), NInUse(inUse))
  {
    hide NInUse;
  }

  /** The block whose sorted rotations end with the column l. */
  function WriteBlock(l: seq<Byte>, origPtr: nat, inUse: seq<bool>, c: Coding): seq<bool>
    requires Encodable(inUse, c, l)
  {
    [false] + (ToBits(origPtr, 24) + WriteColumn(inUse, c, l))
  }

  function ReadBlock(blockSize100k: nat, bits: seq<bool>): (p: Parse<Sorted>)
    ensures p.Done? ==> p.value.origPtr < |p.value.column| <= 100000 * blockSize100k && |p.rest| <= |bits|
  {
    match Take(bits, 1)
    case More => More
    case Bad => Bad
    case Outside => Outside
    case Done(randomised, rest) =>
      match Take(rest, 24)
      case More => More
      case Bad => Bad
      case Outside => Outside
      case Done(origPtr, rest) =>
        if origPtr > 10 + 100000 * blockSize100k then Bad else
        match ReadColumn(100000 * blockSize100k, rest)
        case More => More
        case Bad => Bad
        case Outside => Outside
        case Done(l, rest) => if origPtr >= |l| then Bad else Done(Sorted(randomised == 1, origPtr, l), rest)
  }

  /** Undo the sorting. */
  function DecodeBlock(s: Sorted): (b: seq<Byte>)
    requires s.origPtr < |s.column|
  {
    Invert(s.column, s.origPtr)
  }

  lemma UnpackColumn(inUse: seq<bool>, c: Coding, l: seq<Byte>, nblockMAX: nat, rest: seq<bool>)
    requires Encodable(inUse, c, l) && |l| <= nblockMAX < 0x8000_0000
    ensures Unpack(c, NInUse(inUse), 0, Iota(256), 0, 1, nblockMAX,
                   WriteSymbols(c, NInUse(inUse) + 2, 0, EncodedColumn(inUse, l)) + rest)
         == Done(Renumber(inUse, l), rest)
  {
    hide Unpack, WriteSymbols, Fits, DecodeFrom, Encode, NInUse;
    var n, s := NInUse(inUse), Renumber(inUse, l);
    RenumberInRange(inUse, l);
    DecodeUndoesEncode(s, n);
    assert Iota(256)[..n] == Iota(n);
    EnoughSelectors(|EncodedColumn(inUse, l)|);
    UnpackWritten(c, n, 0, EncodedColumn(inUse, l), Iota(256), 0, 1, nblockMAX, s, rest);
    assert Copies(Iota(256)[0], 0) + s == s;
  }

  lemma EnoughSelectors(nMTF: nat)
    ensures nMTF <= G_SIZE * ((nMTF + G_SIZE - 1) / G_SIZE)
  {
  }

  lemma ColumnRoundTrip(inUse: seq<bool>, c: Coding, l: seq<Byte>, nblockMAX: nat, rest: seq<bool>)
    requires Encodable(inUse, c, l) && |l| <= nblockMAX < 0x8000_0000
    ensures ReadColumn(nblockMAX, WriteColumn(inUse, c, l) + rest) == Done(l, rest)
  {
    hide Unpack, ReadMap, WriteMap, ReadCoding, WriteCoding, WriteSymbols, Fits, EncodedColumn, NInUse, Renumber, Unnumber;
    var n := NInUse(inUse);
    var s := EncodedColumn(inUse, l);
    var data := WriteSymbols(c, n + 2, 0, s) + rest;
    MapRoundTrip(inUse, WriteCoding(c) + data);
    CodingRoundTrip(c, n + 2, |s|, data);
    UnpackColumn(inUse, c, l, nblockMAX, rest);
    RenumberInRange(inUse, l);
    assert WriteColumn(inUse, c, l) + rest == WriteMap(inUse) + (WriteCoding(c) + data);
  }

  /** For every block, every weakly sorted list of its rotations and every usable choice of tables and selectors,
      decoding the encoded block gives the block back and consumes exactly its bits. */
  lemma BlockRoundTrip(b: seq<Byte>, ptr: seq<nat>, origPtr: nat, inUse: seq<bool>, c: Coding, blockSize100k: nat, rest: seq<bool>)
    requires SortedRotations(b, ptr) && Encodable(inUse, c, LastColumn(b, ptr))
    requires |b| <= 100000 * blockSize100k <= 900000 && origPtr < |b| && ptr[origPtr] == 0
    ensures var p := ReadBlock(blockSize100k, WriteBlock(LastColumn(b, ptr), origPtr, inUse, c) + rest);
            && p == Done(Sorted(false, origPtr, LastColumn(b, ptr)), rest)
            && DecodeBlock(p.value) == b
  {
    hide ReadColumn, WriteColumn, Take, ToBits, Invert, Encodable;
    var l := LastColumn(b, ptr);
    ColumnRoundTrip(inUse, c, l, 100000 * blockSize100k, rest);
    var tail := WriteColumn(inUse, c, l) + rest;
    Pow2Values();
    TakeWritten(origPtr, 24, tail);
    assert Pow2(1) == 2 && ToBits(0, 1) == [false] by { OneZero(); }
    TakeWritten(0, 1, ToBits(origPtr, 24) + tail);
    assert WriteBlock(l, origPtr, inUse, c) + rest == [false] + (ToBits(origPtr, 24) + tail);
    InvertLastColumn(b, ptr, origPtr);
  }

  lemma OneZero()
    ensures Pow2(1) == 2 && ToBits(0, 1) == [false]
  {
    assert ToBits(0, 0) == [];
  }
}
