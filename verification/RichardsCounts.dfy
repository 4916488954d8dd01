/** What qpktcount and holdcount count: the packets that are queued and the holds. */
module RichardsCounts {
  import opened Sequences
  import opened Richards
  import opened RichardsRuns
  import opened RichardsWork
  import opened RichardsLetters

  /** The queue of task i without the packet that the current task takes out of it in this step. */
  function Waiting(s: State, i: nat): seq<nat>
    requires WellFormed(s) && s.tcb > 0 && i < 7
  {
    if i == s.tcb && Takes(s) && Current(s).wkq != [] then s.tasks[i].wkq[1..] else s.tasks[i].wkq
  }

  /** The tasks that have been sent a packet between s and r, and those that have come to hold. */
  ghost function Receivers(s: State, r: State): set<nat>
    requires WellFormed(s) && WellFormed(r) && s.tcb > 0
  {
    set i: nat | i < 7 && r.tasks[i].wkq != Waiting(s, i)
  }

  ghost function Holders(s: State, r: State): set<nat>
    requires WellFormed(s) && WellFormed(r)
  {
    set i: nat | i < 7 && r.tasks[i].hold && !s.tasks[i].hold
  }

  /** The counters have grown by what has been done, and no queue by more than a packet at its end. */
  ghost predicate Tallied(s: State, r: State)
    requires WellFormed(s) && WellFormed(r) && s.tcb > 0
  {
    && r.qpktcount == s.qpktcount + |Receivers(s, r)| && r.holdcount == s.holdcount + |Holders(s, r)|
    && forall i: nat :: i < 7 && i in Receivers(s, r) ==> exists p: nat :: r.tasks[i].wkq == Waiting(s, i) + [p]
  }

  /** From q, where the current task has been given its packet, packets have been queued for the tasks in sent, and the tasks in held hold. */
  ghost predicate Done(q: State, r: State, sent: set<nat>, held: set<nat>)
    requires WellFormed(q) && WellFormed(r)
  {
    && r.qpktcount == q.qpktcount + |sent| && r.holdcount == q.holdcount + |held|
    && (forall i: nat :: i < 7 && i !in sent ==> r.tasks[i].wkq == q.tasks[i].wkq)
    && (forall i: nat :: i in sent ==> i < 7 && exists p: nat :: r.tasks[i].wkq == q.tasks[i].wkq + [p])
    && (forall i: nat :: i < 7 && i !in held && r.tasks[i].hold ==> q.tasks[i].hold)
    && (forall i: nat :: i in held ==> i < 7 && r.tasks[i].hold && !q.tasks[i].hold)
  }

  lemma QpktDone(s: State, p: nat)
    requires WellFormed(s) && s.tcb > 0 && p < 8 && Exists(s.packets[p].id)
    ensures Done(s, Qpkt(s, p), {s.packets[p].id}, {})
  {
    var id := s.packets[p].id;
    assert Qpkt(s, p).tasks[id].wkq == s.tasks[id].wkq + [p];
  }

  /** A state with other numbers, lists and packets, but the same queues, holds and counters. */
  lemma DoneFrom(s: State, q: State, r: State, sent: set<nat>, held: set<nat>)
    requires WellFormed(s) && WellFormed(q) && WellFormed(r) && Done(q, r, sent, held)
    requires q.qpktcount == s.qpktcount && q.holdcount == s.holdcount
    requires forall i :: 0 <= i < 7 ==> q.tasks[i].wkq == s.tasks[i].wkq && q.tasks[i].hold == s.tasks[i].hold
    ensures Done(s, r, sent, held)
  {
  }

  lemma HandlerDone(s: State) returns (sent: set<nat>)
    requires WellFormed(s) && I_HANDLERA <= s.tcb <= I_HANDLERB && Sound(s, None)
    ensures Done(s, HandlerAct(s), sent, {})
  {
    hide Sound, Qpkt, Done, Accepts;
    var t := Current(s);
    sent := {};
    if t.v1 == [] {
      WaitDone(s);
    } else if s.packets[t.v1[0]].a1 > BUFSIZE {
      ReturnWorkSound(s);
      var q := SetTask(s, s.tcb, t.(v1 := t.v1[1..]));
      QpktDone(q, t.v1[0]);
      sent := {q.packets[t.v1[0]].id};
      DoneFrom(s, q, HandlerAct(s), sent, {});
    } else if t.v2 == [] {
      WaitDone(s);
    } else {
      SendSound(s);
      var q := Sending(s);
      QpktDone(q, t.v2[0]);
      sent := {q.packets[t.v2[0]].id};
      DoneFrom(s, q, HandlerAct(s), sent, {});
    }
  }

  lemma WaitDone(s: State)
    requires WellFormed(s) && s.tcb > 0
    ensures Done(s, Wait(s), {}, {})
  {
  }

  lemma HoldDone(s: State, pkt: nat)
    requires WellFormed(s) && s.tcb > 0 && pkt < 8 && !Current(s).hold
    ensures Done(s, DevFn(s, Some(pkt)), {}, {s.tcb})
  {
  }

  lemma IdleDone(s: State) returns (held: set<nat>)
    requires WellFormed(s) && s.tcb == I_IDLE && !Current(s).hold
    ensures Done(s, IdleFn(s), {}, held)
  {
    held := if s.count == 1 then {I_IDLE} else {};
  }

  lemma CallNoneDone(s: State) returns (sent: set<nat>, held: set<nat>)
    requires WellFormed(s) && s.tcb > 0 && Sound(s, None) && !Current(s).hold
    ensures Done(s, Call(s, None), sent, held)
  {
    hide Sound, HandlerAct, IdleFn, Done, Qpkt, Accepts;
    sent, held := {}, {};
    if s.tcb == I_IDLE {
      held := IdleDone(s);
    } else if s.tcb == I_WORK {
      WaitDone(s);
    } else if s.tcb <= I_HANDLERB {
      sent := HandlerDone(s);
    } else if Current(s).v1 == [] {
      WaitDone(s);
    } else {
      ReturnSound(s);
      var q := SetTask(s, s.tcb, Current(s).(v1 := []));
      QpktDone(q, Current(s).v1[0]);
      sent := {q.packets[Current(s).v1[0]].id};
      DoneFrom(s, q, Call(s, None), sent, {});
    }
  }

  lemma CallDone(s: State, p: nat) returns (sent: set<nat>, held: set<nat>)
    requires WellFormed(s) && s.tcb > I_IDLE && p < 8 && Sound(s, Some(p)) && Accepts(s.tcb, p, s.packets[p]) && !Current(s).hold
    ensures Done(s, Call(s, Some(p)), sent, held)
  {
    hide Sound, HandlerAct, Done, Qpkt, Letters, AfterLetters, AtHandler, AtDevice;
    sent, held := {}, {};
    if s.tcb == I_WORK {
      WorkSound(s, p);
      var q := Filled(s, p);
      QpktDone(q, p);
      sent := {q.packets[p].id};
      DoneFrom(s, q, WorkFn(s, Some(p)), sent, {});
    } else if s.tcb <= I_HANDLERB {
      AppendSound(s, p);
      sent := HandlerDone(Append(s, p));
      DoneFrom(s, Append(s, p), HandlerAct(Append(s, p)), sent, {});
    } else {
      HoldDone(s, p);
      held := {s.tcb};
    }
  }

  lemma DoneIsTallied(s: State, q: State, r: State, sent: set<nat>, held: set<nat>)
    requires WellFormed(s) && WellFormed(q) && WellFormed(r) && s.tcb > 0 && Done(q, r, sent, held)
    requires q.qpktcount == s.qpktcount && q.holdcount == s.holdcount
    requires forall i: nat :: i < 7 ==> q.tasks[i].wkq == Waiting(s, i) && q.tasks[i].hold == s.tasks[i].hold
    ensures Tallied(s, r)
  {
    hide Waiting;
    forall i: nat | i in sent ensures i in Receivers(s, r) {
      var p: nat :| r.tasks[i].wkq == q.tasks[i].wkq + [p];
      assert |r.tasks[i].wkq| == |Waiting(s, i)| + 1;
    }
    assert Receivers(s, r) == sent;
    assert Holders(s, r) == held;
  }

  /** In every step qpktcount counts the packets that are queued, and holdcount the tasks that come to hold. */
  lemma StepIsTallied(s: State)
    requires Inv(s) && s.tcb > 0
    ensures (Current(s).pkt ==> Current(s).wkq != []) && WellFormed(Step(s)) && Tallied(s, Step(s))
  {
    hide Sound, Call, InOrder, Counting, Done, Tallied, Accepts;
    SoundTask(s, None, s.tcb);
    var t := Current(s);
    if s.tcb == I_IDLE { IdleTask(s); }
    if t.hold || (t.wait && !t.pkt) {
      NothingDone(s, Step(s));
      DoneIsTallied(s, s, Step(s), {}, {});
    } else if t.wait {
      DequeueSound(s);
      QueuedIsAccepted(s.tcb, t, s.packets);
      var sent, held := CallDone(Dequeue(s), t.wkq[0]);
      DoneIsTallied(s, Dequeue(s), Step(s), sent, held);
    } else {
      var sent, held := CallNoneDone(s);
      DoneIsTallied(s, s, Step(s), sent, held);
    }
  }

  lemma NothingDone(s: State, r: State)
    requires WellFormed(s) && WellFormed(r) && r.tasks == s.tasks && r.qpktcount == s.qpktcount && r.holdcount == s.holdcount
    ensures Done(s, r, {}, {})
  {
  }

  // ----- Runs -----

  /** How many packets are queued, and how many holds there are, over a run. */
  ghost function Queuings(t: seq<State>): nat
    requires Chain(t)
    decreases |t|
  {
    if |t| == 1 then 0 else |Receivers(t[0], t[1])| + Queuings(t[1..])
  }

  ghost function Holds(t: seq<State>): nat
    requires Chain(t)
    decreases |t|
  {
    if |t| == 1 then 0 else |Holders(t[0], t[1])| + Holds(t[1..])
  }

  /** The two counters at the end of any run from setup. */
  lemma CountersAre(t: seq<State>, count: nat)
    requires Chain(t) && t[0] == Setup(count)
    ensures t[|t| - 1].qpktcount == Queuings(t) && t[|t| - 1].holdcount == Holds(t)
  {
    hide Chain;
    CountersGrow(t);
  }

  lemma {:induction false} CountersGrow(t: seq<State>)
    requires Chain(t)
    ensures t[|t| - 1].qpktcount == t[0].qpktcount + Queuings(t) && t[|t| - 1].holdcount == t[0].holdcount + Holds(t)
    decreases |t|
  {
    hide Inv, Step, Receivers, Holders, Current;
    if |t| > 1 {
      CountersGrow(t[1..]);
      StepIsTallied(t[0]);
    }
  }

  /** A run goes on by one more step. */
  lemma {:induction false} ChainGoesOn(t: seq<State>)
    requires Chain(t)
    ensures t != [] && Inv(t[|t| - 1])
    ensures var s := t[|t| - 1]; s.tcb > 0 ==> (Current(s).pkt ==> Current(s).wkq != []) && Chain(t + [Step(s)])
    decreases |t|
  {
    hide Inv, Step, Current;
    if |t| == 1 {
      if t[0].tcb > 0 {
        EndIsCounted(t[0]);
        StepKeepsInv(t[0]);
        assert (t + [Step(t[0])])[1..] == [Step(t[0])];
      }
    } else {
      ChainGoesOn(t[1..]);
      var s := t[|t| - 1];
      EndIsCounted(s);
      if s.tcb > 0 { assert (t + [Step(s)])[1..] == t[1..] + [Step(s)]; }
    }
  }
}
