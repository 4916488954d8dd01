/** Which blocks the decoder can expand, and which it finds corrupt: those that end with four equal bytes and no count. */
module RunGroups {
  import opened Sequences
  import opened MoveToFront
  import opened RunLength

  /** A part of a block: up to three equal bytes before another one, or four equal bytes and the number of more to come. */
  datatype Group = Short(ch: Byte, len: nat) | Long(ch: Byte, more: Byte)

  function GroupBytes(g: Group): (s: seq<Byte>)
    ensures g.Long? ==> |s| == 5
    ensures g.Short? ==> |s| == g.len
  {
    if g.Short? then Copies(g.ch, g.len) else Copies(g.ch, 4) + [g.more]
  }

  function GroupData(g: Group): seq<Byte> {
    Copies(g.ch, if g.Short? then g.len else 4 + g.more as nat)
  }

  /** The character that comes after a group: that of the next group, or the one that follows all groups. */
  function Following(rest: seq<Group>, next: Option<Byte>): Option<Byte> {
    if rest == [] then next else Some(rest[0].ch)
  }

  /** A short group ends because another byte follows, or the block ends. */
  predicate Closed(g: Group, following: Option<Byte>) {
    g.Short? ==> 1 <= g.len <= 3 && (following.Some? ==> following.value != g.ch)
  }

  ghost predicate GoodGroups(groups: seq<Group>, next: Option<Byte>) {
    groups != [] ==> Closed(groups[0], Following(groups[1..], next)) && GoodGroups(groups[1..], next)
  }

  function BytesOf(groups: seq<Group>): seq<Byte> {
    if groups == [] then [] else GroupBytes(groups[0]) + BytesOf(groups[1..])
  }

  function ExpandedBytes(groups: seq<Group>): seq<Byte> {
    if groups == [] then [] else GroupData(groups[0]) + ExpandedBytes(groups[1..])
  }

  /** The block is made of groups. */
  ghost predicate MadeOf(block: seq<Byte>, groups: seq<Group>) {
    GoodGroups(groups, None) && block == BytesOf(groups)
  }

  /** The block is made of groups and four equal bytes at its end. */
  ghost predicate BreaksOff(block: seq<Byte>, groups: seq<Group>, ch: Byte) {
    GoodGroups(groups, Some(ch)) && block == BytesOf(groups) + Copies(ch, 4)
  }

  // ----- One group -----

  /** The group at place p of a block of n bytes, as the decoder takes it. */
  function GroupAt(stream: seq<Byte>, n: nat, p: nat): Group
    requires |stream| == n + 2 && p < n
  {
    var ch := stream[p];
    if p + 1 == n || stream[p + 1] != ch then Short(ch, 1)
    else if p + 2 == n || stream[p + 2] != ch then Short(ch, 2)
    else if p + 3 == n || stream[p + 3] != ch then Short(ch, 3)
    else Long(ch, stream[p + 4])
  }

  lemma ExpandGroup(stream: seq<Byte>, n: nat, p: nat)
    requires |stream| == n + 2 && p < n
    ensures var g := GroupAt(stream, n, p);
            p + |GroupBytes(g)| <= n + 1 && Expand(stream, n, p) == Before(GroupData(g), Expand(stream, n, p + |GroupBytes(g)|))
  {
    var ch := stream[p];
    assert Copies(ch, 1) == [ch];
  }

  /** Its bytes, unless the block ends before its count. */
  lemma GroupThere(stream: seq<Byte>, n: nat, p: nat)
    requires |stream| == n + 2 && p < n
    ensures var g := GroupAt(stream, n, p); var m := p + |GroupBytes(g)|;
            && g.ch == stream[p] && (g.Short? ==> 1 <= g.len <= 3 && m <= n && (m < n ==> stream[m] != g.ch))
            && (m <= n ==> stream[p..m] == GroupBytes(g)) && (m > n ==> g.Long? && m == n + 1 && stream[p..n] == Copies(g.ch, 4))
  {
  }

  /** A group that is there is the one that the decoder takes. */
  lemma TheGroup(stream: seq<Byte>, n: nat, p: nat, g: Group)
    requires |stream| == n + 2 && p < n && (g.Short? ==> 1 <= g.len <= 3)
    requires var m := p + |GroupBytes(g)|; m <= n && stream[p..m] == GroupBytes(g) && (g.Short? && m < n ==> stream[m] != g.ch)
    ensures GroupAt(stream, n, p) == g
  {
    var m := p + |GroupBytes(g)|;
    forall k | 0 <= k < m - p ensures stream[p + k] == GroupBytes(g)[k] { assert stream[p..m][k] == stream[p + k]; }
  }

  // ----- The whole block -----

  lemma GoodBefore(g: Group, rest: seq<Group>, next: Option<Byte>)
    requires GoodGroups(rest, next) && Closed(g, Following(rest, next))
    ensures GoodGroups([g] + rest, next) && BytesOf([g] + rest) == GroupBytes(g) + BytesOf(rest)
    ensures ExpandedBytes([g] + rest) == GroupData(g) + ExpandedBytes(rest)
  {
    assert ([g] + rest)[1..] == rest;
  }

  lemma FirstGood(groups: seq<Group>, next: Option<Byte>)
    requires GoodGroups(groups, next) && groups != []
    ensures GoodGroups(groups[1..], next) && Closed(groups[0], Following(groups[1..], next))
  {
  }

  lemma FirstByteOf(groups: seq<Group>)
    requires groups != [] && exists following :: Closed(groups[0], following)
    ensures BytesOf(groups) != [] && BytesOf(groups)[0] == groups[0].ch
  {
  }

  function Tail(last: Option<Byte>): seq<Byte> {
    if last.Some? then Copies(last.value, 4) else []
  }

  lemma SplitAt(stream: seq<Byte>, n: nat, p: nat, a: seq<Byte>, b: seq<Byte>)
    requires p <= n <= |stream| && stream[p..n] == a + b
    ensures p + |a| <= n && stream[p..p + |a|] == a && stream[p + |a|..n] == b
  {
    assert stream[p..p + |a|] == stream[p..n][..|a|] && stream[p + |a|..n] == stream[p..n][|a|..];
  }

  /** The byte after a group. */
  lemma FollowingByte(stream: seq<Byte>, n: nat, m: nat, rest: seq<Group>, last: Option<Byte>)
    requires m < n <= |stream| && stream[m..n] == BytesOf(rest) + Tail(last) && GoodGroups(rest, last)
    ensures Following(rest, last) == Some(stream[m])
  {
    assert stream[m] == stream[m..n][0];
    if rest != [] { FirstByteOf(rest); }
  }

  /** What the decoder does with the rest of a block from p on, made of groups or breaking off. */
  lemma {:induction false} ExpandIs(stream: seq<Byte>, n: nat, p: nat, groups: seq<Group>, last: Option<Byte>)
    requires |stream| == n + 2 && p <= n && GoodGroups(groups, last)
    requires stream[p..n] == BytesOf(groups) + Tail(last)
    ensures Expand(stream, n, p).corrupt == last.Some?
    ensures last.None? ==> Expand(stream, n, p).bytes == ExpandedBytes(groups)
    decreases |groups|
  {
    hide Expand, GroupAt, GoodGroups, Tail, GroupBytes, GroupData, Following;
    if groups == [] {
      assert [] + Tail(last) == Tail(last);
      LastPart(stream, n, p, last);
    } else {
      var g, rest := groups[0], groups[1..];
      var m := p + |GroupBytes(g)|;
      FirstGood(groups, last);
      assert GroupBytes(g) + BytesOf(rest) + Tail(last) == GroupBytes(g) + (BytesOf(rest) + Tail(last));
      SplitAt(stream, n, p, GroupBytes(g), BytesOf(rest) + Tail(last));
      GroupNotEmpty(g, Following(rest, last));
      if m < n { FollowingByte(stream, n, m, rest, last); }
      TheGroup(stream, n, p, g);
      ExpandGroup(stream, n, p);
      ExpandIs(stream, n, m, rest, last);
    }
  }

  lemma GroupNotEmpty(g: Group, following: Option<Byte>)
    requires Closed(g, following)
    ensures GroupBytes(g) != []
  {
  }

  lemma LastPart(stream: seq<Byte>, n: nat, p: nat, last: Option<Byte>)
    requires |stream| == n + 2 && p <= n && stream[p..n] == Tail(last)
    ensures Expand(stream, n, p).corrupt == last.Some? && (last.None? ==> Expand(stream, n, p).bytes == [])
  {
    if last.Some? {
      assert forall k :: 0 <= k < 4 ==> stream[p + k] == stream[p..n][k];
    }
  }

  /** Every block is made of groups, or breaks off. */
  lemma {:induction false} GroupsFrom(stream: seq<Byte>, n: nat, p: nat) returns (groups: seq<Group>, last: Option<Byte>)
    requires |stream| == n + 2 && p <= n
    ensures GoodGroups(groups, last) && stream[p..n] == BytesOf(groups) + Tail(last)
    ensures if p < n then Following(groups, last) == Some(stream[p]) else groups == [] && last.None?
    decreases n - p
  {
    hide GroupAt, GoodGroups, Tail, GroupBytes, BytesOf;
    groups, last := [], None;
    NoGroups(None);
    if p < n {
      var g := GroupAt(stream, n, p);
      var m := p + |GroupBytes(g)|;
      GroupThere(stream, n, p);
      if m > n {
        last := Some(g.ch);
        NoGroups(last);
        assert [] + Tail(last) == Tail(last);
      } else {
        var rest;
        rest, last := GroupsFrom(stream, n, m);
        assert stream[p..n] == stream[p..m] + stream[m..n];
        GoodBefore(g, rest, last);
        groups := [g] + rest;
        assert GroupBytes(g) + (BytesOf(rest) + Tail(last)) == GroupBytes(g) + BytesOf(rest) + Tail(last);
      }
    }
  }

  lemma NoGroups(next: Option<Byte>)
    ensures GoodGroups([], next) && BytesOf([]) == []
    ensures next.None? ==> Tail(next) == []
    ensures next.Some? ==> Tail(next) == Copies(next.value, 4)
  {
  }

  /** A block is expanded if and only if it is made of groups, and then to their bytes; it is found corrupt if and only if it breaks off
      after four equal bytes. What is read beyond the block makes no difference. */
  lemma ExpandsExactly(stream: seq<Byte>, n: nat)
    requires |stream| == n + 2
    ensures var e := Expand(stream, n, 0);
            && (!e.corrupt <==> exists groups :: MadeOf(stream[..n], groups))
            && (e.corrupt <==> exists groups, ch :: BreaksOff(stream[..n], groups, ch))
            && forall groups :: MadeOf(stream[..n], groups) ==> e.bytes == ExpandedBytes(groups)
  {
    hide GoodGroups, Expand, BytesOf, ExpandedBytes;
    assert stream[..n] == stream[0..n];
    var groups, last := GroupsFrom(stream, n, 0);
    ExpandIs(stream, n, 0, groups, last);
    assert last.None? ==> BytesOf(groups) + [] == BytesOf(groups);
    if last.None? { assert MadeOf(stream[..n], groups); } else { assert BreaksOff(stream[..n], groups, last.value); }
    forall other | MadeOf(stream[..n], other) ensures !Expand(stream, n, 0).corrupt && Expand(stream, n, 0).bytes == ExpandedBytes(other) {
      assert BytesOf(other) + [] == BytesOf(other);
      ExpandIs(stream, n, 0, other, None);
    }
    forall other, ch | BreaksOff(stream[..n], other, ch) ensures Expand(stream, n, 0).corrupt {
      ExpandIs(stream, n, 0, other, Some(ch));
    }
  }
}
