/** Which letters a device takes: those that the worker sent to its handler, all of them and in their order. */
module RichardsLetters {
  import opened Sequences
  import opened Richards
  import opened RichardsRuns
  import opened RichardsSeed
  import opened RichardsWork

  // ----- Letters on their way -----

  /** The letters of a work packet that have not been passed on. */
  function Left(packet: Packet): seq<nat> {
    if packet.a1 <= |packet.a2| then packet.a2[packet.a1..] else []
  }

  /** The letters that the work packets in a list still hold. */
  function Unsent(packets: seq<Packet>, q: seq<nat>): seq<nat>
    requires |packets| == 8 && forall k :: 0 <= k < |q| ==> q[k] < 8
  {
    if q == [] then []
    else Unsent(packets, q[..|q| - 1]) + if q[|q| - 1] < 2 then Left(packets[q[|q| - 1]]) else []
  }

  /** The letters in the packets that wait for a device. */
  function Coming(packets: seq<Packet>, q: seq<nat>): (s: seq<nat>)
    requires |packets| == 8 && forall k :: 0 <= k < |q| ==> q[k] < 8
    ensures |s| == |q|
  {
    seq(|q|, k requires 0 <= k < |q| => packets[q[k]].a1)
  }

  /** The letters on their way through handler h to its device, the ones that come first in front. */
  function OnTheWay(s: State, h: nat): seq<nat>
    requires WellFormed(s) && I_HANDLERA <= h <= I_HANDLERB
  {
    Coming(s.packets, s.tasks[h + 2].wkq) + (Unsent(s.packets, s.tasks[h].v1) + Unsent(s.packets, s.tasks[h].wkq))
  }

  /** What the worker sends to handler h in this step. */
  function Sent(s: State, h: nat): seq<nat>
    requires WellFormed(s) && s.tcb > 0
  {
    if s.tcb == I_WORK && Takes(s) && h == I_HANDLERA + I_HANDLERB - s.target then LettersAfter(s.letter) else []
  }

  /** The letter that device d takes in this step. */
  function Taken(s: State, d: nat): seq<nat>
    requires WellFormed(s) && s.tcb > 0
  {
    if s.tcb == d && Takes(s) && Current(s).wkq != [] then [s.packets[Current(s).wkq[0]].a1] else []
  }

  // ----- Lists -----

  lemma UnsentLast(packets: seq<Packet>, q: seq<nat>, p: nat)
    requires |packets| == 8 && p < 8 && forall k :: 0 <= k < |q| ==> q[k] < 8
    ensures Unsent(packets, q + [p]) == Unsent(packets, q) + if p < 2 then Left(packets[p]) else []
  {
    assert (q + [p])[..|q|] == q;
  }

  lemma UnsentIs(packets: seq<Packet>, q: seq<nat>)
    requires |packets| == 8 && forall k :: 0 <= k < |q| ==> q[k] < 8
    ensures Unsent(packets, q) == if q == [] then []
                                  else Unsent(packets, q[..|q| - 1]) + if q[|q| - 1] < 2 then Left(packets[q[|q| - 1]]) else []
  {
  }

  lemma {:induction false} UnsentFirst(packets: seq<Packet>, q: seq<nat>)
    requires |packets| == 8 && q != [] && forall k :: 0 <= k < |q| ==> q[k] < 8
    ensures Unsent(packets, q) == (if q[0] < 2 then Left(packets[q[0]]) else []) + Unsent(packets, q[1..])
    decreases |q|
  {
    hide Left, Unsent;
    var n := |q| - 1;
    var a, b := if q[0] < 2 then Left(packets[q[0]]) else [], if q[n] < 2 then Left(packets[q[n]]) else [];
    UnsentIs(packets, q);
    if n > 0 {
      UnsentFirst(packets, q[..n]);
      UnsentIs(packets, q[1..]);
      var mid := q[1..n];
      assert q[..n][1..] == mid && q[1..][..n - 1] == mid;
      assert a + Unsent(packets, mid) + b == a + (Unsent(packets, mid) + b);
    } else {
      UnsentIs(packets, q[1..]);
      UnsentIs(packets, q[..0]);
      Nothing(a);
    }
  }

  lemma {:induction false} SameUnsent(packets: seq<Packet>, after: seq<Packet>, q: seq<nat>)
    requires |packets| == |after| == 8 && forall k :: 0 <= k < |q| ==> q[k] < 8
    requires forall k :: 0 <= k < |q| ==> Left(after[q[k]]) == Left(packets[q[k]])
    ensures Unsent(after, q) == Unsent(packets, q)
    decreases |q|
  {
    if q != [] { SameUnsent(packets, after, q[..|q| - 1]); }
  }

  /** Nothing that is on the way to the device of h has changed. */
  lemma SameWay(s: State, r: State, h: nat)
    requires WellFormed(s) && WellFormed(r) && I_HANDLERA <= h <= I_HANDLERB
    requires r.tasks[h].v1 == s.tasks[h].v1 && r.tasks[h].wkq == s.tasks[h].wkq && r.tasks[h + 2].wkq == s.tasks[h + 2].wkq
    requires forall p :: p in s.tasks[h].v1 || p in s.tasks[h].wkq || p in s.tasks[h + 2].wkq ==>
               r.packets[p].a1 == s.packets[p].a1 && r.packets[p].a2 == s.packets[p].a2
    ensures OnTheWay(r, h) == OnTheWay(s, h)
  {
    SameUnsent(s.packets, r.packets, s.tasks[h].v1);
    SameUnsent(s.packets, r.packets, s.tasks[h].wkq);
  }

  // ----- Queueing -----

  /** A packet that is queued: a work packet for the handler comes last, and a packet for the device comes after the others there. */
  lemma QpktOnTheWay(s: State, p: nat, h: nat)
    requires WellFormed(s) && s.tcb > 0 && p < 8 && Exists(s.packets[p].id) && I_HANDLERA <= h <= I_HANDLERB
    ensures var r, id := Qpkt(s, p), s.packets[p].id;
            && (id == h ==> OnTheWay(r, h) == OnTheWay(s, h) + if p < 2 then Left(s.packets[p]) else [])
            && (id == h + 2 ==> OnTheWay(r, h) == Coming(s.packets, s.tasks[h + 2].wkq) + [s.packets[p].a1]
                                                  + (Unsent(s.packets, s.tasks[h].v1) + Unsent(s.packets, s.tasks[h].wkq)))
            && (id != h && id != h + 2 ==> OnTheWay(r, h) == OnTheWay(s, h))
  {
    hide Unsent, Left;
    var r, id := Qpkt(s, p), s.packets[p].id;
    var wkq := s.tasks[h].wkq;
    OnlyAddressed(s, p);
    SameLists(s, r, h);
    if id == h {
      UnsentLast(s.packets, wkq, p);
      var a, b := Coming(s.packets, s.tasks[h + 2].wkq), Unsent(s.packets, s.tasks[h].v1);
      var c := if p < 2 then Left(s.packets[p]) else [];
      assert a + (b + (Unsent(s.packets, wkq) + c)) == a + (b + Unsent(s.packets, wkq)) + c;
    }
    if id == h + 2 {
      assert Coming(s.packets, s.tasks[h + 2].wkq + [p]) == Coming(s.packets, s.tasks[h + 2].wkq) + [s.packets[p].a1];
    }
  }

  lemma OnlyAddressed(s: State, p: nat)
    requires WellFormed(s) && s.tcb > 0 && p < 8 && Exists(s.packets[p].id)
    ensures var r, id := Qpkt(s, p), s.packets[p].id;
            && (forall x :: 0 <= x < 8 ==> r.packets[x].a1 == s.packets[x].a1 && r.packets[x].a2 == s.packets[x].a2)
            && r.tasks[id].wkq == s.tasks[id].wkq + [p] && r.tasks[id].v1 == s.tasks[id].v1
            && forall i :: 0 <= i < 7 && i != id ==> r.tasks[i] == s.tasks[i]
  {
  }

  /** The letters in lists do not depend on the addresses of the packets. */
  lemma SameLists(s: State, r: State, h: nat)
    requires WellFormed(s) && WellFormed(r) && I_HANDLERA <= h <= I_HANDLERB
    requires forall x :: 0 <= x < 8 ==> r.packets[x].a1 == s.packets[x].a1 && r.packets[x].a2 == s.packets[x].a2
    ensures Unsent(r.packets, r.tasks[h].wkq) == Unsent(s.packets, r.tasks[h].wkq)
    ensures Unsent(r.packets, r.tasks[h].v1) == Unsent(s.packets, r.tasks[h].v1)
    ensures Coming(r.packets, r.tasks[h + 2].wkq) == Coming(s.packets, r.tasks[h + 2].wkq)
  {
    SameUnsent(s.packets, r.packets, r.tasks[h].wkq);
    SameUnsent(s.packets, r.packets, r.tasks[h].v1);
  }

  // ----- Every function -----

  /** A packet leaves the front of the current task's queue. */
  lemma DequeueOnTheWay(s: State, h: nat)
    requires WellFormed(s) && s.tcb > 0 && Current(s).wkq != [] && I_HANDLERA <= h <= I_HANDLERB
    ensures var q, p := Dequeue(s), Current(s).wkq[0];
            && (s.tcb == h + 2 ==> OnTheWay(s, h) == [s.packets[p].a1] + OnTheWay(q, h))
            && (s.tcb == h ==> OnTheWay(s, h) == Coming(q.packets, q.tasks[h + 2].wkq) + (Unsent(q.packets, q.tasks[h].v1)
                                                 + ((if p < 2 then Left(s.packets[p]) else []) + Unsent(q.packets, q.tasks[h].wkq))))
            && (s.tcb != h && s.tcb != h + 2 ==> OnTheWay(q, h) == OnTheWay(s, h))
  {
    hide Unsent, Left;
    var wkq := Current(s).wkq;
    if s.tcb == h { UnsentFirst(s.packets, wkq); }
    if s.tcb == h + 2 {
      assert Coming(s.packets, wkq) == [s.packets[wkq[0]].a1] + Coming(s.packets, wkq[1..]);
      var rest := Unsent(s.packets, s.tasks[h].v1) + Unsent(s.packets, s.tasks[h].wkq);
      assert [s.packets[wkq[0]].a1] + Coming(s.packets, wkq[1..]) + rest == [s.packets[wkq[0]].a1] + (Coming(s.packets, wkq[1..]) + rest);
    }
  }

  /** Filling the packet in flight changes no letter that is on the way. */
  lemma FilledOnTheWay(s: State, p: nat, h: nat)
    requires WellFormed(s) && p < 8 && Sound(s, Some(p)) && I_HANDLERA <= h <= I_HANDLERB
    ensures OnTheWay(Filled(s, p), h) == OnTheWay(s, h)
  {
    hide Sound, Letters, AfterLetters, OnTheWay;
    NowhereElse(s, p, h);
    NowhereElse(s, p, h + 2);
    SameWay(s, Filled(s, p), h);
  }

  lemma WorkOnTheWay(s: State, p: nat, h: nat)
    requires WellFormed(s) && s.tcb == I_WORK && p < 2 && Sound(s, Some(p)) && I_HANDLERA <= h <= I_HANDLERB
    ensures OnTheWay(WorkFn(s, Some(p)), h) == OnTheWay(s, h) + if h == I_HANDLERA + I_HANDLERB - s.target then LettersAfter(s.letter) else []
  {
    hide Sound, Letters, AfterLetters, OnTheWay;
    var q := Filled(s, p);
    FilledOnTheWay(s, p, h);
    QpktOnTheWay(q, p, h);
    LettersAre(s.letter);
    assert q.packets[p].a2[0..] == q.packets[p].a2;
    assert OnTheWay(s, h) + [] == OnTheWay(s, h);
  }

  /** A packet that a handler puts in its list: a work packet comes last there. */
  lemma AppendOnTheWay(s: State, p: nat, h: nat)
    requires WellFormed(s) && I_HANDLERA <= s.tcb <= I_HANDLERB && p < 8 && Sound(s, Some(p)) && I_HANDLERA <= h <= I_HANDLERB
    ensures var q := Append(s, p);
            OnTheWay(q, h) == Coming(s.packets, s.tasks[h + 2].wkq)
              + (Unsent(s.packets, s.tasks[h].v1) + ((if h == s.tcb && p < 2 then Left(s.packets[p]) else []) + Unsent(s.packets, s.tasks[h].wkq)))
  {
    hide Sound, Unsent, Left;
    KindIs(s, Some(p), p);
    var v1 := s.tasks[h].v1;
    UnsentLast(s.packets, v1, p);
    var c, d := Left(s.packets[p]), Unsent(s.packets, s.tasks[h].wkq);
    assert Unsent(s.packets, v1) + c + d == Unsent(s.packets, v1) + (c + d);
    assert [] + d == d;
  }

  lemma LeftNothing(packet: Packet)
    requires packet.a1 >= |packet.a2|
    ensures Left(packet) == []
  {
  }

  lemma LeftNext(packet: Packet)
    requires packet.a1 < |packet.a2|
    ensures Left(packet) == [packet.a2[packet.a1]] + Left(packet.(a1 := packet.a1 + 1))
  {
  }

  /** A full work packet goes back to the worker: it holds no letter any more. */
  lemma ReturnOnTheWay(s: State, h: nat)
    requires WellFormed(s) && I_HANDLERA <= s.tcb <= I_HANDLERB && Sound(s, None) && I_HANDLERA <= h <= I_HANDLERB
    requires Current(s).v1 != [] && s.packets[Current(s).v1[0]].a1 > BUFSIZE
    ensures OnTheWay(Qpkt(SetTask(s, s.tcb, Current(s).(v1 := Current(s).v1[1..])), Current(s).v1[0]), h) == OnTheWay(s, h)
  {
    hide Sound, Unsent, Left, AtHandler, Welcome;
    var t := Current(s);
    var q := SetTask(s, s.tcb, t.(v1 := t.v1[1..]));
    SoundTask(s, None, s.tcb);
    assert AtHandler(s.tcb, t.v1[0], s.packets[t.v1[0]]);
    IsWork(s.tcb, t.v1[0], s.packets[t.v1[0]]);
    UnsentFirst(s.packets, t.v1);
    LeftNothing(s.packets[t.v1[0]]);
    assert [] + Unsent(s.packets, t.v1[1..]) == Unsent(s.packets, t.v1[1..]);
    QpktOnTheWay(q, t.v1[0], h);
  }

  lemma IsWork(h: nat, p: nat, packet: Packet)
    requires AtHandler(h, p, packet) && p < 2
    ensures packet.id == I_WORK
  {
  }

  /** What becomes of the lists of letters when the next letter is taken out for a device. */
  lemma SendingLists(s: State)
    requires WellFormed(s) && I_HANDLERA <= s.tcb <= I_HANDLERB && Sound(s, None)
    requires Current(s).v1 != [] && Current(s).v2 != [] && s.packets[Current(s).v1[0]].a1 <= BUFSIZE
    ensures var h, q, w := s.tcb, Sending(s), s.packets[Current(s).v1[0]];
            && Unsent(s.packets, s.tasks[h].v1) == [w.a2[w.a1]] + Unsent(q.packets, q.tasks[h].v1)
            && Unsent(s.packets, s.tasks[h].wkq) == Unsent(q.packets, q.tasks[h].wkq)
            && Coming(s.packets, s.tasks[h + 2].wkq) == Coming(q.packets, q.tasks[h + 2].wkq)
            && q.packets[Current(s).v2[0]].a1 == w.a2[w.a1] && q.packets[Current(s).v2[0]].id == h + 2
  {
    hide Sound, Unsent, Left, AtHandler;
    var h, q, t := s.tcb, Sending(s), Current(s);
    var w, d := t.v1[0], t.v2[0];
    SoundTask(s, None, h);
    DevicePacket(s);
    SendSound(s);
    OnlyOnce(q, d, w);
    NowhereElse(q, d, h);
    NowhereElse(q, d, h + 2);
    Elsewhere(q, d, w, h + 2);
    assert q.packets[w] == s.packets[w].(a1 := s.packets[w].a1 + 1);
    LeftNext(s.packets[w]);
    UnsentFirst(s.packets, t.v1);
    UnsentFirst(q.packets, t.v1);
    forall k | 0 <= k < |t.v1[1..]| ensures Left(q.packets[t.v1[1..][k]]) == Left(s.packets[t.v1[1..][k]]) {
      assert t.v1[1..][k] in t.v1[1..] && t.v1[1..][k] in t.v1;
    }
    SameUnsent(s.packets, q.packets, t.v1[1..]);
    SameUnsent(s.packets, q.packets, t.wkq);
    var a := s.packets[w].a2[s.packets[w].a1];
    assert [a] + Left(q.packets[w]) + Unsent(s.packets, t.v1[1..]) == [a] + (Left(q.packets[w]) + Unsent(s.packets, t.v1[1..]));
  }

  lemma DevicePacket(s: State)
    requires WellFormed(s) && I_HANDLERA <= s.tcb <= I_HANDLERB && Sound(s, None) && Current(s).v1 != [] && Current(s).v2 != []
    ensures Current(s).v1[0] < 2 <= Current(s).v2[0] && s.packets[Current(s).v2[0]].id == s.tcb + 2
  {
    SoundTask(s, None, s.tcb);
    assert AtHandler(s.tcb, Current(s).v2[0], s.packets[Current(s).v2[0]]);
  }

  lemma SendOnTheWay(s: State, h: nat)
    requires WellFormed(s) && I_HANDLERA <= s.tcb <= I_HANDLERB && Sound(s, None) && I_HANDLERA <= h <= I_HANDLERB
    requires Current(s).v1 != [] && Current(s).v2 != [] && s.packets[Current(s).v1[0]].a1 <= BUFSIZE
    ensures OnTheWay(Qpkt(Sending(s), Current(s).v2[0]), h) == OnTheWay(s, h)
  {
    hide Sound, Unsent, Left, AtHandler, Qpkt, Coming, Welcome;
    var q, w, d := Sending(s), Current(s).v1[0], Current(s).v2[0];
    DevicePacket(s);
    SendSound(s);
    SendingLists(s);
    QpktOnTheWay(q, d, h);
    if h == s.tcb {
      var a, b := q.packets[d].a1, Unsent(q.packets, q.tasks[h].v1);
      var x, y := Coming(q.packets, q.tasks[h + 2].wkq), Unsent(q.packets, q.tasks[h].wkq);
      assert x + [a] + (b + y) == x + (([a] + b) + y);
    } else {
      NowhereElse(q, d, h);
      NowhereElse(q, d, h + 2);
      Elsewhere(q, d, w, h);
      Elsewhere(q, d, w, h + 2);
      SameWay(s, q, h);
    }
  }

  /** Whatever a handler does, the letters on the way stay what they are. */
  lemma HandlerOnTheWay(s: State, h: nat)
    requires WellFormed(s) && I_HANDLERA <= s.tcb <= I_HANDLERB && Sound(s, None) && I_HANDLERA <= h <= I_HANDLERB
    ensures OnTheWay(HandlerAct(s), h) == OnTheWay(s, h)
  {
    hide Sound, OnTheWay, Qpkt;
    var t := Current(s);
    if t.v1 == [] {
      SameWay(s, Wait(s), h);
    } else if s.packets[t.v1[0]].a1 > BUFSIZE {
      ReturnOnTheWay(s, h);
    } else if t.v2 == [] {
      SameWay(s, Wait(s), h);
    } else {
      SendOnTheWay(s, h);
      assert HandlerAct(s) == Qpkt(Sending(s), t.v2[0]);
    }
  }

  /** So do those of a device, once its packet has left its queue. */
  lemma DeviceOnTheWay(s: State, pkt: Option<nat>, h: nat)
    requires WellFormed(s) && s.tcb >= I_DEVA && I_HANDLERA <= h <= I_HANDLERB && (pkt.Some? ==> pkt.value < 8)
    requires pkt.None? ==> Sound(s, None) && !Current(s).hold
    ensures OnTheWay(DevFn(s, pkt), h) == OnTheWay(s, h)
  {
    hide Sound, OnTheWay, Qpkt, Welcome;
    var t := Current(s);
    if pkt.Some? {
      SameWay(s, DevFn(s, pkt), h);
    } else if t.v1 == [] {
      SameWay(s, Wait(s), h);
    } else {
      ReturnSound(s);
      var q := SetTask(s, s.tcb, t.(v1 := []));
      AtItsDevice(s);
      SameWay(s, q, h);
      QpktOnTheWay(q, t.v1[0], h);
      assert OnTheWay(q, h) + [] == OnTheWay(q, h);
    }
  }

  lemma AtItsDevice(s: State)
    requires WellFormed(s) && s.tcb >= I_DEVA && Sound(s, None) && Current(s).v1 != []
    ensures Current(s).v1[0] >= 2 && s.packets[Current(s).v1[0]].id + 2 == s.tcb
  {
    SoundTask(s, None, s.tcb);
    assert AtDevice(s.tcb, Current(s).v1[0], s.packets[Current(s).v1[0]]);
  }

  /** A step in which the current task is not given a packet changes nothing on the way. */
  lemma CallNoneOnTheWay(s: State, h: nat)
    requires WellFormed(s) && s.tcb > 0 && Sound(s, None) && !Current(s).hold && I_HANDLERA <= h <= I_HANDLERB
    ensures OnTheWay(Call(s, None), h) == OnTheWay(s, h)
  {
    hide Sound, OnTheWay, HandlerAct, DevFn;
    if s.tcb == I_IDLE {
      SameWay(s, IdleFn(s), h);
    } else if s.tcb == I_WORK {
      SameWay(s, Wait(s), h);
    } else if s.tcb <= I_HANDLERB {
      HandlerOnTheWay(s, h);
    } else {
      DeviceOnTheWay(s, None, h);
    }
  }

  /** A step in which the current task is given the first packet of its queue. */
  lemma CallOnTheWay(s: State, h: nat)
    requires WellFormed(s) && s.tcb > I_IDLE && Sound(s, None) && Current(s).wkq != [] && Current(s).wait && I_HANDLERA <= h <= I_HANDLERB
    ensures OnTheWay(s, h) + (if s.tcb == I_WORK && h == I_HANDLERA + I_HANDLERB - s.target then LettersAfter(s.letter) else [])
         == (if s.tcb == h + 2 then [s.packets[Current(s).wkq[0]].a1] else []) + OnTheWay(Call(Dequeue(s), Some(Current(s).wkq[0])), h)
  {
    hide Sound, OnTheWay, HandlerAct, DevFn, WorkFn, Append, Accepts, Unsent, Left;
    var q, p := Dequeue(s), Current(s).wkq[0];
    SoundTask(s, None, s.tcb);
    DequeueSound(s);
    QueuedIsAccepted(s.tcb, Current(s), s.packets);
    DequeueOnTheWay(s, h);
    Nothing(OnTheWay(s, h));
    if s.tcb == I_WORK {
      IsWorkPacket(s);
      WorkOnTheWay(q, p, h);
      Nothing(OnTheWay(WorkFn(q, Some(p)), h));
    } else if s.tcb <= I_HANDLERB {
      AppendSound(q, p);
      AppendOnTheWay(q, p, h);
      HandlerOnTheWay(Append(q, p), h);
      AppendedWay(q, p, h);
      Nothing(OnTheWay(HandlerAct(Append(q, p)), h));
    } else {
      DeviceOnTheWay(q, Some(p), h);
      Nothing(OnTheWay(DevFn(q, Some(p)), h));
    }
  }

  lemma Nothing<T>(s: seq<T>)
    ensures s + [] == s && [] + s == s
  {
  }

  lemma IsWorkPacket(s: State)
    requires WellFormed(s) && s.tcb == I_WORK && Sound(s, None) && Current(s).wkq != []
    ensures Current(s).wkq[0] < 2
  {
    SoundTask(s, None, I_WORK);
  }

  lemma AppendedWay(q: State, p: nat, h: nat)
    requires WellFormed(q) && p < 8 && I_HANDLERA <= h <= I_HANDLERB
    ensures OnTheWay(q, h) == Coming(q.packets, q.tasks[h + 2].wkq) + (Unsent(q.packets, q.tasks[h].v1) + ([] + Unsent(q.packets, q.tasks[h].wkq)))
  {
  }

  /** Letters are neither lost nor made nor put in another order: what is on the way to the device of h and what the worker sends to h in a
      step is what the device takes in the step and what is on the way then. */
  lemma StepKeepsLetters(s: State, h: nat)
    requires Inv(s) && s.tcb > 0 && I_HANDLERA <= h <= I_HANDLERB
    ensures (Current(s).pkt ==> Current(s).wkq != []) && WellFormed(Step(s))
    ensures OnTheWay(s, h) + Sent(s, h) == Taken(s, h + 2) + OnTheWay(Step(s), h)
  {
    hide Sound, OnTheWay, Call, InOrder, Counting, LettersAfter;
    SoundTask(s, None, s.tcb);
    var t := Current(s);
    Nothing(OnTheWay(s, h));
    if s.tcb == I_IDLE { IdleTask(s); }
    if t.hold || (t.wait && !t.pkt) {
      SameWay(s, Step(s), h);
      Nothing(OnTheWay(Step(s), h));
    } else if t.wait {
      CallOnTheWay(s, h);
    } else {
      CallNoneOnTheWay(s, h);
    }
  }

  // ----- Runs -----

  /** Any number of steps, one after another. */
  ghost predicate Chain(t: seq<State>)
    decreases |t|
  {
    && t != [] && Inv(t[0])
    && (|t| > 1 ==> t[0].tcb > 0 && (Current(t[0]).pkt ==> Current(t[0]).wkq != []) && t[1] == Step(t[0]) && Chain(t[1..]))
  }

  /** A work packet that the worker has sent. */
  datatype Post = Post(handler: nat, letters: seq<nat>)

  /** What the worker sends in a step: the packet that it was given, as it is afterwards. */
  ghost function Posted(s: State, r: State): (posts: seq<Post>)
    requires WellFormed(s) && WellFormed(r) && s.tcb > 0
    ensures |posts| <= 1
  {
    if s.tcb == I_WORK && Takes(s) && Current(s).wkq != [] then [Post(r.target, r.packets[Current(s).wkq[0]].a2)] else []
  }

  ghost function Posts(t: seq<State>): seq<Post>
    requires Chain(t)
    decreases |t|
  {
    if |t| == 1 then [] else Posted(t[0], t[1]) + Posts(t[1..])
  }

  /** The letters that device d takes on the way, in their order. */
  ghost function Received(t: seq<State>, d: nat): seq<nat>
    requires Chain(t)
    decreases |t|
  {
    if |t| == 1 then [] else Taken(t[0], d) + Received(t[1..], d)
  }

  /** The letters of the packets that were sent to handler h. */
  function LettersFor(posts: seq<Post>, h: nat): seq<nat> {
    if posts == [] then [] else (if posts[0].handler == h then posts[0].letters else []) + LettersFor(posts[1..], h)
  }

  /** A packet is sent only where the step says so. */
  lemma PostedIs(s: State, h: nat)
    requires Inv(s) && s.tcb > 0 && (Current(s).pkt ==> Current(s).wkq != []) && I_HANDLERA <= h <= I_HANDLERB
    ensures WellFormed(Step(s)) && LettersFor(Posted(s, Step(s)), h) == Sent(s, h)
  {
    hide Sound, InOrder, Counting, Step, LettersAfter;
    StepKeepsInv(s);
    if s.tcb == I_WORK && Takes(s) {
      WorkerPosts(s);
      OnePost(Posted(s, Step(s))[0], h);
    }
  }

  lemma OnePost(p: Post, h: nat)
    ensures LettersFor([p], h) == if p.handler == h then p.letters else []
  {
    assert [p][1..] == [];
  }

  /** A post, if there is one, and then others. */
  lemma LettersForJoined(a: seq<Post>, b: seq<Post>, h: nat)
    requires |a| <= 1
    ensures LettersFor(a + b, h) == LettersFor(a, h) + LettersFor(b, h)
  {
    if a == [] {
      assert a + b == b;
      Nothing(LettersFor(b, h));
    } else {
      OnePost(a[0], h);
      assert a == [a[0]] && (a + b)[1..] == b && (a + b)[0] == a[0];
    }
  }

  lemma NotEmpty(t: seq<State>)
    requires Chain(t)
    ensures t != []
  {
  }

  lemma {:induction false} ChainIsSound(t: seq<State>)
    requires Chain(t)
    ensures WellFormed(t[0]) && WellFormed(t[|t| - 1])
    decreases |t|
  {
    hide Inv, Step, Current;
    EndIsCounted(t[0]);
    if |t| > 1 { ChainIsSound(t[1..]); }
  }

  lemma Rejoined<T>(o: seq<T>, s: seq<T>, c: seq<T>, a: seq<T>, b: seq<T>, r: seq<T>, d: seq<T>)
    requires o + s == a + b && b + c == r + d
    ensures o + (s + c) == a + r + d
  {
    assert o + (s + c) == (o + s) + c == a + (b + c);
    assert a + (r + d) == a + r + d;
  }

  /** Over any run: what was on the way to the device of h, and then what the worker sent to h, is what the device took, and then what is on the
      way at the end. */
  lemma {:induction false} RunKeepsLetters(t: seq<State>, h: nat)
    requires Chain(t) && I_HANDLERA <= h <= I_HANDLERB
    ensures WellFormed(t[0]) && WellFormed(t[|t| - 1])
    ensures OnTheWay(t[0], h) + LettersFor(Posts(t), h) == Received(t, h + 2) + OnTheWay(t[|t| - 1], h)
    decreases |t|
  {
    hide Inv, OnTheWay, Step, Posted, Taken, Sent, Current;
    ChainIsSound(t);
    if |t| == 1 {
      Nothing(OnTheWay(t[0], h));
    } else {
      var first, rest, last := t[0], t[1..], t[|t| - 1];
      RunKeepsLetters(rest, h);
      StepKeepsLetters(first, h);
      PostedIs(first, h);
      LettersForJoined(Posted(first, t[1]), Posts(rest), h);
      Rejoined(OnTheWay(first, h), Sent(first, h), LettersFor(Posts(rest), h), Taken(first, h + 2), OnTheWay(t[1], h), Received(rest, h + 2), OnTheWay(last, h));
    }
  }

  /** The letters of the next post. */
  lemma SameLetters(l: nat, l': nat)
    requires l % 26 == l' % 26
    ensures LettersAfter(l) == LettersAfter(l')
  {
    forall i | 0 <= i < BUFSIZE + 1 ensures LettersAfter(l)[i] == LettersAfter(l')[i] { SameRemainder(l, l', i); }
  }

  lemma SameRemainder(l: nat, l': nat, i: nat)
    requires l % 26 == l' % 26
    ensures (l + i) % 26 == (l' + i) % 26
  {
  }

  /** The worker sends to the two handlers in turn, and writes the alphabet on and on. */
  lemma {:induction false} PostsAre(t: seq<State>, l: nat)
    requires Chain(t) && t[0].letter % 26 == l % 26
    ensures forall j :: 0 <= j < |Posts(t)| ==>
              Posts(t)[j] == Post(if j % 2 == 0 then I_HANDLERA + I_HANDLERB - t[0].target else t[0].target, LettersAfter(l + (BUFSIZE + 1) * j))
    decreases |t|
  {
    hide Inv, Step, Current, LettersAfter;
    if |t| > 1 {
      var s, r, rest := t[0], t[1], t[1..];
      if PostsNow(s) {
        PostNow(s, l);
        PostsAre(rest, l + BUFSIZE + 1);
        forall j | 0 <= j < |Posts(t)|
          ensures Posts(t)[j] == Post(if j % 2 == 0 then I_HANDLERA + I_HANDLERB - s.target else s.target, LettersAfter(l + (BUFSIZE + 1) * j))
        {
          if j > 0 { assert Posts(t)[j] == Posts(rest)[j - 1]; }
        }
      } else {
        NoPostNow(s);
        PostsAre(rest, l);
        assert Posts(t) == Posts(rest);
      }
    }
  }

  ghost predicate PostsNow(s: State)
    requires Inv(s) && s.tcb > 0
  {
    s.tcb == I_WORK && Takes(s)
  }

  lemma PostNow(s: State, l: nat)
    requires Inv(s) && s.tcb > 0 && PostsNow(s) && s.letter % 26 == l % 26
    ensures (Current(s).pkt ==> Current(s).wkq != []) && Inv(Step(s)) && Step(s).target == I_HANDLERA + I_HANDLERB - s.target
    ensures Step(s).letter % 26 == (l + BUFSIZE + 1) % 26
    ensures Posted(s, Step(s)) == [Post(I_HANDLERA + I_HANDLERB - s.target, LettersAfter(l))]
  {
    hide Sound, InOrder, Counting, Step, LettersAfter;
    StepKeepsInv(s);
    WorkerPosts(s);
    SameLetters(s.letter, l);
    SameRemainder(s.letter, l, BUFSIZE);
  }

  lemma NoPostNow(s: State)
    requires Inv(s) && s.tcb > 0 && !PostsNow(s)
    ensures (Current(s).pkt ==> Current(s).wkq != []) && Inv(Step(s)) && Step(s).target == s.target && Step(s).letter == s.letter
    ensures Posted(s, Step(s)) == []
  {
    hide Sound, InOrder, Counting, Step;
    StepKeepsInv(s);
    if s.tcb == I_IDLE { IdleKeeps(s); } else { StepKeeps(s); }
  }

  lemma IdleKeeps(s: State)
    requires Inv(s) && s.tcb == I_IDLE
    ensures (Current(s).pkt ==> Current(s).wkq != []) && Step(s).target == s.target && Step(s).letter == s.letter
  {
    hide Sound, InOrder;
    IdleCounts(s);
  }

  /** Letter number k for a handler, whose first letter comes so many letters after letter l. */
  function LetterFor(l: nat, later: nat, k: nat): nat {
    (later + 8 * (k / 4) + k % 4 + l) % 26 + 1
  }

  lemma LetterForIs(l: nat, k: nat)
    ensures k < 4 ==> LettersAfter(l)[k] == LetterFor(l, 0, k)
    ensures k >= 4 ==> LetterFor(l + 4, 4, k - 4) == LetterFor(l, 0, k)
    ensures LetterFor(l + 4, 0, k) == LetterFor(l, 4, k)
  {
  }

  /** Of posts that go to the two handlers in turn every other one is for h. */
  lemma {:induction false} LettersForAre(posts: seq<Post>, first: nat, l: nat, h: nat, k: nat)
    requires I_HANDLERA <= first <= I_HANDLERB && I_HANDLERA <= h <= I_HANDLERB && k < |LettersFor(posts, h)|
    requires forall j :: 0 <= j < |posts| ==>
               posts[j] == Post(if j % 2 == 0 then first else I_HANDLERA + I_HANDLERB - first, LettersAfter(l + (BUFSIZE + 1) * j))
    ensures LettersFor(posts, h)[k] == LetterFor(l, if h == first then 0 else 4, k)
    decreases |posts|
  {
    hide LettersAfter, LetterFor;
    var rest, first', l' := posts[1..], I_HANDLERA + I_HANDLERB - first, l + BUFSIZE + 1;
    assert posts[0] == Post(first, LettersAfter(l));
    LetterForIs(l, k);
    if h != first || k >= 4 {
      assert forall j :: 0 <= j < |rest| ==> rest[j] == posts[j + 1];
      LettersForAre(rest, first', l', h, if h == first then k - 4 else k);
    }
  }

  lemma NothingOnTheWay(count: nat, h: nat)
    requires I_HANDLERA <= h <= I_HANDLERB
    ensures WellFormed(Setup(count)) && OnTheWay(Setup(count), h) == []
  {
    hide WellFormed;
    SetupWellFormed(count);
    var q := Setup(count).tasks[h].wkq;
    DevicesHoldNothing(Setup(count).packets, q);
  }

  lemma {:induction false} DevicesHoldNothing(packets: seq<Packet>, q: seq<nat>)
    requires |packets| == 8 && forall k :: 0 <= k < |q| ==> 2 <= q[k] < 8
    ensures Unsent(packets, q) == []
    decreases |q|
  {
    if q != [] { DevicesHoldNothing(packets, q[..|q| - 1]); }
  }

  /** In the benchmark the letter number k that a device takes is known: device B takes the first four letters of the alphabet, device A the
      next four, and so on in turn, over the end of the alphabet. */
  lemma DeviceHears(t: seq<State>, count: nat, d: nat, k: nat)
    requires Chain(t) && t[0] == Setup(count) && (d == I_DEVA || d == I_DEVB) && k < |Received(t, d)|
    ensures Received(t, d)[k] == ((if d == I_DEVB then 0 else 4) + 8 * (k / 4) + k % 4) % 26 + 1
  {
    hide Chain, Received, Posts, LettersAfter, OnTheWay, LettersFor;
    var h := d - 2;
    NotEmpty(t);
    RunKeepsLetters(t, h);
    NothingOnTheWay(count, h);
    Nothing(LettersFor(Posts(t), h));
    PostsAre(t, 0);
    assert Received(t, d)[k] == (Received(t, d) + OnTheWay(t[|t| - 1], h))[k] == LettersFor(Posts(t), h)[k];
    LettersForAre(Posts(t), I_HANDLERB, 0, h, k);
  }

  lemma {:induction false} SeedStaysOn(t: seq<State>)
    requires Chain(t) && t[0].seed != 0
    ensures t != [] && Inv(t[|t| - 1]) && t[|t| - 1].seed != 0
    decreases |t|
  {
    hide Inv, Step, Current;
    if |t| > 1 {
      if t[0].tcb == I_IDLE { IdleKeepsSeed(t[0]); } else { StepKeeps(t[0]); }
      SeedStaysOn(t[1..]);
    }
  }

  lemma IdleKeepsSeed(s: State)
    requires Inv(s) && s.tcb == I_IDLE && s.seed != 0
    ensures (Current(s).pkt ==> Current(s).wkq != []) && Step(s).seed != 0
  {
    hide Sound, InOrder, NextSeed;
    if s.count > 1 {
      IdleReleases(s);
      SeedStays(s.seed);
    } else {
      IdleTask(s);
      IdleHolds(s);
    }
  }

  /** In the benchmark, however far it has run: each device is released within seventeen runs of the idle task, if so many are left. */
  lemma HeldDeviceIsReleased(t: seq<State>, count: nat, d: nat)
    requires Chain(t) && t[0] == Setup(count) && (d == I_DEVA || d == I_DEVB)
    requires t[|t| - 1].tcb > 0 && t[|t| - 1].count > 17
    ensures var s := t[|t| - 1]; Inv(s) && exists n: nat :: n <= 16 && Releases(IdleAt(s, n), d)
  {
    hide Inv, Chain, Releases, IdleAt;
    SeedStaysOn(t);
    DeviceIsReleased(t[|t| - 1], d);
  }
}
