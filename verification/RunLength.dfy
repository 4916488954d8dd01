/** The first stage of the compressor: runs of 4 to 255 equal bytes become four of them and a count. */
module RunLength {
  import opened Sequences
  import opened MoveToFront

  /** A step of the checksum; a checksum is a fold of it over bytes. */
  type CrcStep = (Word, Byte) -> Word

  function Fold(step: CrcStep, crc: Word, s: seq<Byte>): Word {
    if s == [] then crc else step(Fold(step, crc, s[..|s| - 1]), s[|s| - 1])
  }

  lemma {:induction false} FoldConcat(step: CrcStep, crc: Word, s: seq<Byte>, t: seq<Byte>)
    ensures Fold(step, crc, s + t) == Fold(step, Fold(step, crc, s), t)
    decreases |t|
  {
    if t == [] {
      assert s + t == s;
    } else {
      FoldConcat(step, crc, s, t[..|t| - 1]);
      assert (s + t)[..|s + t| - 1] == s + t[..|t| - 1];
    }
  }

  // ----- Expanding -----

  /** What a decoder makes of a block: the bytes it writes, and whether it then finds the block corrupt. */
  datatype Expansion = Expansion(bytes: seq<Byte>, corrupt: bool)

  function Before(s: seq<Byte>, e: Expansion): Expansion {
    Expansion(s + e.bytes, e.corrupt)
  }

  /** The run that starts at p in a block of n bytes. The decoder reads up to two bytes beyond the block:
      one that it looks at and ignores, and one for the count of a run of four that ends the block. */
  function Expand(stream: seq<Byte>, n: nat, p: nat): Expansion
    requires |stream| == n + 2 && p <= n + 1
    decreases n + 1 - p
  {
    if p > n then Expansion([], true)
    else if p == n then Expansion([], false)
    else
      var ch := stream[p];
      if p + 1 == n || stream[p + 1] != ch then Before([ch], Expand(stream, n, p + 1))
      else if p + 2 == n || stream[p + 2] != ch then Before(Copies(ch, 2), Expand(stream, n, p + 2))
      else if p + 3 == n || stream[p + 3] != ch then Before(Copies(ch, 3), Expand(stream, n, p + 3))
      else Before(Copies(ch, 4 + stream[p + 4] as nat), Expand(stream, n, p + 5))
  }

  // ----- Runs -----

  type RunLen = n: nat | 1 <= n <= 255 witness 1

  datatype Run = Run(ch: Byte, len: RunLen)

  function RunBytes(r: Run): (s: seq<Byte>)
    ensures s != [] && |s| <= 5 && s[0] == r.ch
  {
    if r.len < 4 then Copies(r.ch, r.len) else Copies(r.ch, 4) + [r.len - 4 as Byte]
  }

  /** Runs end because another byte follows or because they are as long as a run can be. */
  ghost predicate GoodRuns(runs: seq<Run>) {
    forall k :: 0 < k < |runs| ==> Separate(runs[k - 1], runs[k].ch)
  }

  ghost predicate Separate(r: Run, ch: Byte) {
    r.ch != ch || r.len == 255
  }

  function BlockOf(runs: seq<Run>): (s: seq<Byte>) {
    if runs == [] then [] else RunBytes(runs[0]) + BlockOf(runs[1..])
  }

  function DataOf(runs: seq<Run>): (s: seq<Byte>) {
    if runs == [] then [] else Copies(runs[0].ch, runs[0].len) + DataOf(runs[1..])
  }

  lemma {:induction false} AppendRun(runs: seq<Run>, r: Run)
    ensures BlockOf(runs + [r]) == BlockOf(runs) + RunBytes(r)
    ensures DataOf(runs + [r]) == DataOf(runs) + Copies(r.ch, r.len)
  {
    hide RunBytes, Copies;
    if runs == [] {
      assert [r][1..] == [];
      assert runs + [r] == [r];
    } else {
      AppendRun(runs[1..], r);
      assert (runs + [r])[1..] == runs[1..] + [r];
    }
  }

  /** The run at the front of a block is expanded to itself. */
  lemma ExpandRun(stream: seq<Byte>, n: nat, p: nat, r: Run, m: nat)
    requires |stream| == n + 2 && m == p + |RunBytes(r)| <= n
    requires stream[p..m] == RunBytes(r)
    requires r.len < 4 && m < n ==> stream[m] != r.ch
    ensures Expand(stream, n, p) == Before(Copies(r.ch, r.len), Expand(stream, n, m))
  {
    forall k | 0 <= k < m - p ensures stream[p + k] == RunBytes(r)[k] {
      assert stream[p..m][k] == stream[p + k];
    }
    if r.len >= 4 {
      assert stream[p + 4] == r.len - 4;
    } else if r.len == 1 {
      assert Copies(r.ch, 1) == [r.ch];
    }
  }

  /** A block made of good runs expands to its data, whatever is read beyond it, and is never found corrupt. */
  lemma {:induction false} RunsRoundTrip(stream: seq<Byte>, n: nat, p: nat, runs: seq<Run>)
    requires |stream| == n + 2 && p <= n && GoodRuns(runs) && stream[p..n] == BlockOf(runs)
    ensures Expand(stream, n, p) == Expansion(DataOf(runs), false)
    decreases |runs|
  {
    hide RunBytes, Expand, Copies;
    if runs == [] {
      NothingLeft(stream, n);
    } else {
      var r, rest := runs[0], runs[1..];
      var m := p + |RunBytes(r)|;
      assert stream[p..m] == stream[p..n][..m - p];
      assert stream[m..n] == stream[p..n][m - p..] == BlockOf(rest);
      if m < n {
        assert rest != [];
        assert stream[m..n][0] == stream[m];
        assert Separate(runs[0], runs[1].ch);
      }
      ExpandRun(stream, n, p, r, m);
      GoodRest(runs);
      RunsRoundTrip(stream, n, m, rest);
    }
  }

  lemma GoodRest(runs: seq<Run>)
    requires GoodRuns(runs) && runs != []
    ensures GoodRuns(runs[1..])
  {
    forall k | 0 < k < |runs[1..]| ensures Separate(runs[1..][k - 1], runs[1..][k].ch) {
      assert Separate(runs[k], runs[k + 1].ch);
    }
  }

  lemma NothingLeft(stream: seq<Byte>, n: nat)
    requires |stream| == n + 2
    ensures Expand(stream, n, n) == Expansion([], false)
  {
  }

  // ----- The encoder -----

  const NO_CHAR := 256

  /** The block, the characters in use and the checksum are those of the runs. */
  ghost predicate Holds(step: CrcStep, crc0: Word, runs: seq<Run>, block: seq<Byte>, inUse: seq<bool>, crc: Word) {
    && block == BlockOf(runs) && crc == Fold(step, crc0, DataOf(runs))
    && |inUse| == 256 && forall c: Byte :: inUse[c] <==> c in block
  }

  lemma HoldsMore(step: CrcStep, crc0: Word, runs: seq<Run>, block: seq<Byte>, inUse: seq<bool>, crc: Word, r: Run)
    requires Holds(step, crc0, runs, block, inUse, crc)
    ensures |inUse| == 256
    ensures var marked := inUse[r.ch := true];
            Holds(step, crc0, runs + [r], block + RunBytes(r), if r.len < 4 then marked else marked[r.len - 4 := true],
                  Fold(step, crc, Copies(r.ch, r.len)))
  {
    AppendRun(runs, r);
    FoldConcat(step, crc0, DataOf(runs), Copies(r.ch, r.len));
    var marked := inUse[r.ch := true];
    var inUse' := if r.len < 4 then marked else marked[r.len - 4 := true];
    forall c: Byte ensures inUse'[c] <==> c in block + RunBytes(r) {
      RunMembers(r, c);
    }
  }

  lemma RunMembers(r: Run, c: Byte)
    ensures c in RunBytes(r) <==> c == r.ch || (r.len >= 4 && c == r.len - 4)
  {
    var s := RunBytes(r);
    assert s[0] == r.ch;
    if r.len >= 4 { assert s[4] == r.len - 4; }
  }

  lemma NewRun(runs: seq<Run>, ch: Byte)
    requires GoodRuns(runs) && (runs != [] ==> Separate(runs[|runs| - 1], ch))
    ensures GoodRuns(runs + [Run(ch, 1)]) && DataOf(runs + [Run(ch, 1)]) == DataOf(runs) + [ch]
  {
    hide Separate, DataOf;
    AppendRun(runs, Run(ch, 1));
    assert Copies(ch, 1) == [ch];
    var longer := runs + [Run(ch, 1)];
    forall k | 0 < k < |longer| ensures Separate(longer[k - 1], longer[k].ch) {
      if k < |runs| {
        assert Separate(runs[k - 1], runs[k].ch);
      } else {
        assert longer[k] == Run(ch, 1);
      }
    }
  }

  lemma LongerRun(runs: seq<Run>, ch: Byte, len: nat)
    requires 1 <= len < 255 && GoodRuns(runs + [Run(ch, len)])
    ensures GoodRuns(runs + [Run(ch, len + 1)])
    ensures DataOf(runs + [Run(ch, len + 1)]) == DataOf(runs + [Run(ch, len)]) + [ch]
  {
    hide Separate;
    var before, after := runs + [Run(ch, len)], runs + [Run(ch, len + 1)];
    AppendRun(runs, Run(ch, len));
    AppendRun(runs, Run(ch, len + 1));
    assert Copies(ch, len + 1) == Copies(ch, len) + [ch];
    forall k | 0 < k < |after| ensures Separate(after[k - 1], after[k].ch) {
      assert Separate(before[k - 1], before[k].ch);
    }
  }

  lemma OneByteRun(step: CrcStep, crc: Word, ch: Byte)
    ensures RunBytes(Run(ch, 1)) == [ch] && Copies(ch, 1) == [ch] && Fold(step, crc, [ch]) == step(crc, ch)
  {
    assert [ch][..0] == [];
  }

  lemma EmptyBlock(step: CrcStep, crc0: Word, runs: seq<Run>, block: seq<Byte>, inUse: seq<bool>, crc: Word)
    requires Holds(step, crc0, runs, block, inUse, crc)
    ensures block == [] ==> runs == []
  {
  }

  /** The pending run, as a list of no or one run. */
  ghost function PendingRun(ch: nat, len: nat): seq<Run> {
    if ch < NO_CHAR && 1 <= len <= 255 then [Run(ch, len)] else []
  }

  /** The fields of EState that build a block. */
  class BlockBuilder {
    const step: CrcStep
    const initialCrc: Word
    var stateInCh: nat
    var stateInLen: nat
    var block: seq<Byte>
    var inUse: seq<bool>
    var blockCRC: Word
    ghost var runs: seq<Run>

    ghost predicate Valid()
      reads this
    {
      && (if stateInCh < NO_CHAR then 1 <= stateInLen <= 255 else stateInCh == NO_CHAR && stateInLen == 0)
      && GoodRuns(runs + PendingRun(stateInCh, stateInLen))
      && Holds(step, initialCrc, runs, block, inUse, blockCRC)
    }

    /** The input that has gone into this block. */
    ghost function Data(): seq<Byte>
      reads this
    {
      DataOf(runs + PendingRun(stateInCh, stateInLen))
    }

    constructor (step: CrcStep, initialCrc: Word)
      ensures Valid() && Data() == [] && block == [] && this.step == step && this.initialCrc == initialCrc
    {
      this.step, this.initialCrc := step, initialCrc;
      stateInCh, stateInLen, block, inUse, blockCRC, runs := NO_CHAR, 0, [], seq(256, _ => false), initialCrc, [];
    }

    /** add_pair_to_block. */
    method AddPairToBlock()
      requires stateInCh < NO_CHAR && 1 <= stateInLen <= 255 && Holds(step, initialCrc, runs, block, inUse, blockCRC)
      modifies `block, `inUse, `blockCRC, `runs
      ensures runs == old(runs) + [Run(stateInCh, stateInLen)] && Holds(step, initialCrc, runs, block, inUse, blockCRC)
      ensures |block| <= |old(block)| + 5
    {
      hide Holds;
      ghost var r, crc := Run(stateInCh, stateInLen), blockCRC;
      HoldsMore(step, initialCrc, runs, block, inUse, blockCRC, r);
      var ch: Byte := stateInCh;
      for i := 0 to stateInLen
        invariant block == old(block) && inUse == old(inUse) && runs == old(runs)
        invariant blockCRC == Fold(step, crc, Copies(ch, i))
      {
        assert Copies(ch, i + 1)[..i] == Copies(ch, i);
        blockCRC := step(blockCRC, ch);
      }
      inUse := inUse[ch := true];
      if stateInLen == 1 {
        block := block + [ch];
      } else if stateInLen == 2 {
        block := block + [ch];
        block := block + [ch];
      } else if stateInLen == 3 {
        block := block + [ch];
        block := block + [ch];
        block := block + [ch];
      } else {
        inUse := inUse[stateInLen - 4 := true];
        block := block + [ch];
        block := block + [ch];
        block := block + [ch];
        block := block + [ch];
        block := block + [stateInLen - 4 as Byte];
      }
      runs := runs + [r];
      assert block == old(block) + RunBytes(r);
    }

    /** flush_RL. */
    method FlushRL()
      requires Valid()
      modifies this
      ensures Valid() && Data() == old(Data()) && stateInCh == NO_CHAR
      ensures |block| <= |old(block)| + 5
    {
      hide Holds, GoodRuns, DataOf;
      ghost var before := runs + PendingRun(stateInCh, stateInLen);
      if stateInCh < NO_CHAR { AddPairToBlock(); }
      stateInCh, stateInLen := NO_CHAR, 0;
      assert runs + PendingRun(stateInCh, stateInLen) == before;
    }

    /** prepare_new_block: the pending run, if any, goes to the new block. */
    method NewBlock()
      requires Valid()
      modifies `block, `inUse, `blockCRC, `runs
      ensures Valid() && block == [] && Data() == DataOf(PendingRun(stateInCh, stateInLen))
    {
      block, inUse, blockCRC, runs := [], seq(256, _ => false), initialCrc, [];
      assert [] + PendingRun(stateInCh, stateInLen) == PendingRun(stateInCh, stateInLen);
    }

    /** The fast case of ADD_CHAR_TO_BLOCK: a run of one byte ends. */
    method AddOneToBlock()
      requires stateInCh < NO_CHAR && stateInLen == 1 && Holds(step, initialCrc, runs, block, inUse, blockCRC)
      modifies `block, `inUse, `blockCRC, `runs
      ensures runs == old(runs) + [Run(stateInCh, 1)] && Holds(step, initialCrc, runs, block, inUse, blockCRC)
      ensures |block| == |old(block)| + 1
    {
      hide Holds;
      var ch: Byte := stateInCh;
      HoldsMore(step, initialCrc, runs, block, inUse, blockCRC, Run(ch, 1));
      OneByteRun(step, blockCRC, ch);
      blockCRC := step(blockCRC, ch);
      inUse := inUse[ch := true];
      block := block + [ch];
      runs := runs + [Run(ch, 1)];
    }

    /** ADD_CHAR_TO_BLOCK. After a flush a new block must have been started. */
    method AddCharToBlock(zchh: Byte)
      requires Valid() && (stateInCh == NO_CHAR ==> block == [])
      modifies this
      ensures Valid() && Data() == old(Data()) + [zchh] && stateInCh == zchh
      ensures |block| <= |old(block)| + 5
    {
      hide Holds, GoodRuns, DataOf;
      ghost var before := runs + PendingRun(stateInCh, stateInLen);
      EmptyBlock(step, initialCrc, runs, block, inUse, blockCRC);
      if zchh != stateInCh && stateInLen == 1 {
        AddOneToBlock();
        stateInCh := zchh;
        NewRun(before, zchh);
      } else if zchh != stateInCh || stateInLen == 255 {
        if stateInCh < NO_CHAR { AddPairToBlock(); }
        assert runs == before;
        stateInCh, stateInLen := zchh, 1;
        NewRun(before, zchh);
      } else {
        LongerRun(runs, zchh, stateInLen);
        stateInLen := stateInLen + 1;
      }
    }
  }

  /** Expanding a block that the encoder built gives the bytes it was built from, and the checksum of what is
      written is the one the encoder computed. */
  lemma BuiltBlockExpands(step: CrcStep, crc0: Word, runs: seq<Run>, block: seq<Byte>, inUse: seq<bool>, crc: Word, stream: seq<Byte>)
    requires Holds(step, crc0, runs, block, inUse, crc) && GoodRuns(runs)
    requires |stream| == |block| + 2 && stream[..|block|] == block
    ensures var e := Expand(stream, |block|, 0); e == Expansion(DataOf(runs), false) && Fold(step, crc0, e.bytes) == crc
  {
    hide Expand;
    RunsRoundTrip(stream, |block|, 0, runs);
  }
}
