/** Whole runs of the Richards scheduler: the invariant, and the measure by which every run ends. */
module RichardsRuns {
  import opened Sequences
  import opened Richards

  // ----- The order of the task list -----

  /** r goes on from s with no task ahead that can run. */
  ghost predicate Onward(s: State, r: State) {
    && |s.tasks| == |r.tasks| == 7
    && InOrder(r) && r.tcb >= 1 && r.count == s.count && r.tasks[I_IDLE].hold == s.tasks[I_IDLE].hold
  }

  lemma QpktOnward(s: State, p: nat)
    requires WellFormed(s) && s.tcb > 0 && p < 8 && Sound(s, Some(p)) && Welcome(s, p) && InOrder(s)
    ensures Onward(s, Qpkt(s, p))
  {
    hide AllHave, AtHandler, AtDevice, Sound;
    SoundTask(s, Some(p), s.packets[p].id);
  }

  lemma HandlerOnward(s: State)
    requires WellFormed(s) && I_HANDLERA <= s.tcb <= I_HANDLERB && Sound(s, None) && InOrder(s)
    ensures Onward(s, HandlerAct(s))
  {
    hide Sound, Welcome, Qpkt;
    var t := Current(s);
    if t.v1 != [] {
      if s.packets[t.v1[0]].a1 > BUFSIZE {
        ReturnWorkSound(s);
        QpktOnward(SetTask(s, s.tcb, t.(v1 := t.v1[1..])), t.v1[0]);
      } else if t.v2 != [] {
        SendSound(s);
        QpktOnward(Sending(s), t.v2[0]);
      }
    }
  }

  lemma CallOnward(s: State, p: nat)
    requires WellFormed(s) && s.tcb > I_IDLE && p < 8 && Sound(s, Some(p)) && Accepts(s.tcb, p, s.packets[p]) && InOrder(s)
    requires s.tcb >= I_DEVA ==> Current(s).v1 == [] && !Current(s).wait
    ensures Onward(s, Call(s, Some(p)))
  {
    hide Sound, Welcome, Qpkt, HandlerAct, AtHandler, AtDevice, Letters, AfterLetters;
    if s.tcb == I_WORK {
      WorkSound(s, p);
      QpktOnward(Filled(s, p), p);
    } else if s.tcb <= I_HANDLERB {
      AppendSound(s, p);
      HandlerOnward(Append(s, p));
    }
  }

  lemma CallNoneOnward(s: State)
    requires WellFormed(s) && s.tcb > I_IDLE && Sound(s, None) && !Current(s).hold && InOrder(s)
    ensures Onward(s, Call(s, None))
  {
    hide Sound, Welcome, Qpkt, HandlerAct;
    if I_HANDLERA <= s.tcb <= I_HANDLERB {
      HandlerOnward(s);
    } else if s.tcb >= I_DEVA && Current(s).v1 != [] {
      ReturnSound(s);
      QpktOnward(SetTask(s, s.tcb, Current(s).(v1 := [])), Current(s).v1[0]);
    }
  }

  lemma IdleTask(s: State)
    requires Inv(s) && s.tcb == I_IDLE
    ensures !Current(s).hold && !Current(s).wait && s.count >= 1
  {
    hide Sound;
    SoundTask(s, None, I_IDLE);
  }

  lemma IdleInOrder(s: State)
    requires Inv(s) && s.tcb == I_IDLE
    ensures InOrder(IdleFn(s)) && Counting(IdleFn(s))
  {
    hide Sound;
    IdleTask(s);
  }

  /** Every step leads from a good state to a good state. */
  lemma StepKeepsInv(s: State)
    requires Inv(s) && s.tcb > 0
    ensures Current(s).pkt ==> Current(s).wkq != []
    ensures Inv(Step(s))
  {
    hide Sound, Call, IdleFn, AtHandler, AtDevice;
    StepSound(s);
    SoundTask(s, None, s.tcb);
    var t := Current(s);
    if s.tcb == I_IDLE {
      IdleTask(s);
      IdleInOrder(s);
      assert Call(s, None) == IdleFn(s) by { CallIdle(s); }
    } else if t.hold || (t.wait && !t.pkt) {
    } else if t.wait {
      DequeueSound(s);
      QueuedIsAccepted(s.tcb, t, s.packets);
      CallOnward(Dequeue(s), t.wkq[0]);
    } else {
      CallNoneOnward(s);
    }
  }

  lemma CallIdle(s: State)
    requires WellFormed(s) && s.tcb == I_IDLE
    ensures Call(s, None) == IdleFn(s)
  {
  }

  // ----- Why runs end -----

  /** What a packet in a queue of task i still has to do before the next release: a device packet goes from its
      handler's queue to the handler's list, to the device's queue and to the device; a work packet goes from the
      worker to a handler, where it needs device packets to go on. */
  function Cost(i: nat, p: nat): nat {
    if i == I_WORK then 2
    else if i <= I_HANDLERB then if p < 2 then 1 else 30
    else 10
  }

  function QueueWeight(i: nat, q: seq<nat>): nat {
    if q == [] then 0 else Cost(i, q[0]) + QueueWeight(i, q[1..])
  }

  /** A handler may return its first work packet once it is full; a device may return its packet once it is released. */
  function Weight(i: nat, t: Task, packets: seq<Packet>): nat
    requires |packets| == 8 && WellFormedTask(t)
  {
    QueueWeight(i, t.wkq)
    + if i <= I_WORK then 0
      else if i <= I_HANDLERB then 20 * |t.v2| + if t.v1 != [] && packets[t.v1[0]].a1 > BUFSIZE then 3 else 0
      else if t.hold then 0 else 40 * |t.v1|
  }

  function Total(s: State): nat
    requires WellFormed(s)
  {
    Weight(2, s.tasks[2], s.packets) + Weight(3, s.tasks[3], s.packets) + Weight(4, s.tasks[4], s.packets)
    + Weight(5, s.tasks[5], s.packets) + Weight(6, s.tasks[6], s.packets)
  }

  function Awake(t: Task): nat {
    if t.wait then 0 else 1
  }

  function Busy(s: State): nat
    requires WellFormed(s)
  {
    Awake(s.tasks[2]) + Awake(s.tasks[3]) + Awake(s.tasks[4]) + Awake(s.tasks[5]) + Awake(s.tasks[6])
  }

  lemma {:induction false} QueueLonger(i: nat, q: seq<nat>, p: nat)
    ensures QueueWeight(i, q + [p]) == QueueWeight(i, q) + Cost(i, p)
  {
    hide Cost;
    if q != [] {
      QueueLonger(i, q[1..], p);
      assert (q + [p])[1..] == q[1..] + [p];
    } else {
      assert [p][1..] == [] && q + [p] == [p];
    }
  }

  /** Only task i has changed. */
  lemma TotalAfter(s: State, r: State, i: nat)
    requires WellFormed(s) && WellFormed(r) && 2 <= i <= 6
    requires forall j :: 2 <= j <= 6 && j != i ==> r.tasks[j] == s.tasks[j]
    requires forall j :: 2 <= j <= 6 && j != i ==> Weight(j, r.tasks[j], r.packets) == Weight(j, s.tasks[j], s.packets)
    ensures Total(r) == Total(s) - Weight(i, s.tasks[i], s.packets) + Weight(i, r.tasks[i], r.packets)
    ensures Busy(r) == Busy(s) - Awake(s.tasks[i]) + Awake(r.tasks[i])
  {
    hide Weight;
  }

  lemma SameWeight(i: nat, t: Task, packets: seq<Packet>, after: seq<Packet>)
    requires |packets| == |after| == 8 && WellFormedTask(t)
    requires t.v1 != [] ==> after[t.v1[0]].a1 == packets[t.v1[0]].a1
    ensures Weight(i, t, after) == Weight(i, t, packets)
  {
  }

  /** Changing one task and no counter of a packet that leads a list. */
  lemma TotalSet(s: State, r: State, i: nat)
    requires WellFormed(s) && WellFormed(r) && 2 <= i <= 6
    requires forall j :: 2 <= j <= 6 && j != i ==> r.tasks[j] == s.tasks[j]
    requires forall p :: 0 <= p < 8 ==> r.packets[p].a1 == s.packets[p].a1
    ensures Total(r) == Total(s) - Weight(i, s.tasks[i], s.packets) + Weight(i, r.tasks[i], r.packets)
    ensures Busy(r) == Busy(s) - Awake(s.tasks[i]) + Awake(r.tasks[i])
  {
    hide Weight, Total, Busy;
    forall j | 2 <= j <= 6 && j != i ensures Weight(j, r.tasks[j], r.packets) == Weight(j, s.tasks[j], s.packets) {
      SameWeight(j, s.tasks[j], s.packets, r.packets);
    }
    TotalAfter(s, r, i);
  }

  lemma QpktWeight(s: State, p: nat)
    requires WellFormed(s) && s.tcb > 0 && p < 8 && Exists(s.packets[p].id) && s.packets[p].id != I_IDLE
    ensures Total(Qpkt(s, p)) == Total(s) + Cost(s.packets[p].id, p)
  {
    hide Total, Busy, Cost;
    var id := s.packets[p].id;
    QueueLonger(id, s.tasks[id].wkq, p);
    TotalSet(s, Qpkt(s, p), id);
  }

  lemma DequeueWeight(s: State)
    requires WellFormed(s) && s.tcb > I_IDLE && Current(s).wkq != []
    ensures Total(Dequeue(s)) == Total(s) - Cost(s.tcb, Current(s).wkq[0])
  {
    hide Total, Busy, Cost;
    TotalSet(s, Dequeue(s), s.tcb);
  }

  lemma WaitWeight(s: State)
    requires WellFormed(s) && s.tcb > I_IDLE
    ensures Total(Wait(s)) == Total(s) && Busy(Wait(s)) == Busy(s) - Awake(Current(s))
  {
    hide Total, Busy;
    TotalSet(s, Wait(s), s.tcb);
  }

  lemma FilledWeight(s: State, p: nat)
    requires WellFormed(s) && p < 8 && Sound(s, Some(p))
    ensures Total(Filled(s, p)) == Total(s)
  {
    hide Sound, Letters, AfterLetters, Weight;
    forall j | 2 <= j <= 6 ensures Weight(j, s.tasks[j], Filled(s, p).packets) == Weight(j, s.tasks[j], s.packets) {
      NowhereElse(s, p, j);
      SameWeight(j, s.tasks[j], s.packets, Filled(s, p).packets);
    }
  }

  lemma AppendWeight(s: State, p: nat)
    requires WellFormed(s) && I_HANDLERA <= s.tcb <= I_HANDLERB && p < 8 && Sound(s, Some(p)) && Accepts(s.tcb, p, s.packets[p])
    ensures Total(Append(s, p)) == Total(s) + if p < 2 then 0 else 20
  {
    hide Total, Busy, Sound, QueueWeight;
    KindIs(s, Some(p), p);
    TotalSet(s, Append(s, p), s.tcb);
  }

  lemma ReturnWorkWeight(s: State)
    requires WellFormed(s) && I_HANDLERA <= s.tcb <= I_HANDLERB && Sound(s, None) && Current(s).v1 != []
    requires s.packets[Current(s).v1[0]].a1 > BUFSIZE
    ensures var t := Current(s); Total(SetTask(s, s.tcb, t.(v1 := t.v1[1..]))) == Total(s) - 3
  {
    hide Total, Busy, Sound, QueueWeight;
    SoundTask(s, None, s.tcb);
    var t := Current(s);
    TotalSet(s, SetTask(s, s.tcb, t.(v1 := t.v1[1..])), s.tcb);
  }

  lemma SendWeight(s: State)
    requires WellFormed(s) && I_HANDLERA <= s.tcb <= I_HANDLERB && Sound(s, None)
    requires Current(s).v1 != [] && Current(s).v2 != [] && s.packets[Current(s).v1[0]].a1 <= BUFSIZE
    ensures Total(Sending(s)) <= Total(s) - 17
  {
    hide Total, Busy, Sound, QueueWeight;
    SoundTask(s, None, s.tcb);
    SendSound(s);
    var t, r := Current(s), Sending(s);
    var w, d := t.v1[0], t.v2[0];
    forall j | 2 <= j <= 6 && j != s.tcb ensures Weight(j, r.tasks[j], r.packets) == Weight(j, s.tasks[j], s.packets) {
      NowhereElse(r, d, j);
      Elsewhere(r, d, w, j);
      SameWeight(j, s.tasks[j], s.packets, r.packets);
    }
    TotalAfter(s, r, s.tcb);
  }

  lemma ReturnWeight(s: State)
    requires WellFormed(s) && s.tcb >= I_DEVA && |Current(s).v1| == 1 && !Current(s).hold
    ensures Total(SetTask(s, s.tcb, Current(s).(v1 := []))) == Total(s) - 40
  {
    hide Total, Busy, QueueWeight;
    TotalSet(s, SetTask(s, s.tcb, Current(s).(v1 := [])), s.tcb);
  }

  lemma HoldWeight(s: State, p: nat)
    requires WellFormed(s) && s.tcb >= I_DEVA && p < 8 && Current(s).v1 == []
    ensures Total(DevFn(s, Some(p))) == Total(s)
  {
    hide Total, Busy, QueueWeight;
    TotalSet(s, DevFn(s, Some(p)), s.tcb);
  }

  // ----- Every step but those of the idle task comes closer to the next one -----

  ghost predicate Closer(s: State, r: State)
    requires WellFormed(s) && WellFormed(r)
  {
    Total(r) < Total(s) || (Total(r) == Total(s) && (Busy(r) < Busy(s) || (Busy(r) == Busy(s) && r.tcb < s.tcb)))
  }

  /** A handler that acts lowers the total or waits. */
  lemma HandlerCloser(s: State)
    requires WellFormed(s) && I_HANDLERA <= s.tcb <= I_HANDLERB && Sound(s, None) && !Current(s).wait
    ensures Closer(s, HandlerAct(s))
    ensures Total(HandlerAct(s)) <= Total(s)
  {
    hide Sound, Qpkt, Total, Busy, Accepts, GoodTask;
    var t := Current(s);
    if t.v1 == [] {
      WaitWeight(s);
    } else if s.packets[t.v1[0]].a1 > BUFSIZE {
      ReturnWorkSound(s);
      ReturnWorkWeight(s);
      var r := SetTask(s, s.tcb, t.(v1 := t.v1[1..]));
      WelcomeCost(r, t.v1[0]);
      QpktWeight(r, t.v1[0]);
    } else if t.v2 == [] {
      WaitWeight(s);
    } else {
      SendSound(s);
      SendWeight(s);
      WelcomeCost(Sending(s), t.v2[0]);
      QpktWeight(Sending(s), t.v2[0]);
    }
  }

  lemma WelcomeCost(s: State, p: nat)
    requires WellFormed(s) && s.tcb > 0 && p < 8 && Welcome(s, p)
    ensures Exists(s.packets[p].id) && s.packets[p].id != I_IDLE
    ensures s.tcb == I_WORK && p < 2 ==> Cost(s.packets[p].id, p) == 1
    ensures I_HANDLERA <= s.tcb <= I_HANDLERB ==> Cost(s.packets[p].id, p) == if p < 2 then 2 else 10
    ensures s.tcb >= I_DEVA ==> Cost(s.packets[p].id, p) <= 30
  {
  }

  lemma CallCloser(s: State, p: nat)
    requires WellFormed(s) && s.tcb > I_IDLE && p < 8 && Sound(s, Some(p)) && Accepts(s.tcb, p, s.packets[p]) && !Current(s).wait
    requires s.tcb >= I_DEVA ==> Current(s).v1 == []
    ensures Total(Call(s, Some(p))) < Total(s) + Cost(s.tcb, p)
  {
    hide Sound, Welcome, Qpkt, HandlerAct, Total, Busy, AtHandler, AtDevice, Letters, AfterLetters;
    if s.tcb == I_WORK {
      WorkSound(s, p);
      FilledWeight(s, p);
      WelcomeCost(Filled(s, p), p);
      QpktWeight(Filled(s, p), p);
    } else if s.tcb <= I_HANDLERB {
      AppendSound(s, p);
      AppendWeight(s, p);
      HandlerCloser(Append(s, p));
    } else {
      HoldWeight(s, p);
    }
  }

  lemma CallNoneCloser(s: State)
    requires WellFormed(s) && s.tcb > I_IDLE && Sound(s, None) && !Current(s).hold && !Current(s).wait
    ensures Closer(s, Call(s, None))
  {
    hide Sound, Welcome, Qpkt, HandlerAct, Total, Busy;
    if I_HANDLERA <= s.tcb <= I_HANDLERB {
      HandlerCloser(s);
    } else if s.tcb >= I_DEVA && Current(s).v1 != [] {
      SoundTask(s, None, s.tcb);
      ReturnSound(s);
      ReturnWeight(s);
      var r := SetTask(s, s.tcb, Current(s).(v1 := []));
      WelcomeCost(r, Current(s).v1[0]);
      QpktWeight(r, Current(s).v1[0]);
    } else {
      WaitWeight(s);
    }
  }

  /** A packet passes a device only after a release, and a work packet needs four device packets to be filled:
      so between two runs of the idle task there are only finitely many steps. */
  lemma StepCloser(s: State)
    requires Inv(s) && s.tcb > I_IDLE
    ensures Current(s).pkt ==> Current(s).wkq != []
    ensures Closer(s, Step(s)) && Step(s).count == s.count
  {
    hide Sound, Call, Total, Busy, AtHandler, AtDevice, Cost;
    SoundTask(s, None, s.tcb);
    var t := Current(s);
    if t.hold || (t.wait && !t.pkt) {
      SameTotal(s, Step(s));
    } else if t.wait {
      DequeueSound(s);
      QueuedIsAccepted(s.tcb, t, s.packets);
      DequeueWeight(s);
      CallCloser(Dequeue(s), t.wkq[0]);
      CallOnward(Dequeue(s), t.wkq[0]);
    } else {
      CallNoneCloser(s);
      CallNoneOnward(s);
    }
  }

  lemma SameTotal(s: State, r: State)
    requires WellFormed(s) && WellFormed(r) && r.tasks == s.tasks && r.packets == s.packets
    ensures Total(r) == Total(s) && Busy(r) == Busy(s)
  {
  }

  /** A step of the idle task uses up one of its runs. */
  lemma IdleCounts(s: State)
    requires Inv(s) && s.tcb == I_IDLE
    ensures Current(s).pkt ==> Current(s).wkq != []
    ensures Step(s) == IdleFn(s) && Step(s).count == s.count - 1 && Step(s).tcb != I_IDLE
  {
    hide Sound;
    IdleTask(s);
    SoundTask(s, None, I_IDLE);
  }

  // ----- Runs -----

  /** Run to the end, counting how often the idle task runs. */
  ghost function Run(s: State): (r: (State, nat))
    requires Inv(s)
    ensures Inv(r.0) && r.0.tcb == 0
    decreases s.count, Total(s), Busy(s), s.tcb
  {
    if s.tcb == 0 then (s, 0)
    else
      StepKeepsInv(s);
      if s.tcb == I_IDLE then
        IdleCounts(s);
        var (end, runs) := Run(Step(s));
        (end, runs + 1)
      else
        StepCloser(s);
        Run(Step(s))
  }

  /** Every run ends, and the idle task runs exactly as often as it was told to. */
  lemma {:induction false} IdleRunsOut(s: State)
    requires Inv(s)
    ensures Run(s).0.tcb == 0 && Run(s).1 == s.count
    decreases s.count, Total(s), Busy(s), s.tcb
  {
    hide Inv, Total, Busy, Step, Closer;
    EndIsCounted(s);
    if s.tcb != 0 {
      StepKeepsInv(s);
      if s.tcb == I_IDLE {
        IdleCounts(s);
        IdleRunsOut(Step(s));
      } else {
        StepCloser(s);
        CloserIs(s, Step(s));
        IdleRunsOut(Step(s));
      }
    }
  }

  /** One step of a run. */
  lemma RunStep(s: State)
    requires Inv(s)
    ensures WellFormed(s) && s.count >= 0 && (s.tcb == 0 ==> Run(s).1 == 0)
    ensures s.tcb != 0 ==>
              && (Current(s).pkt ==> Current(s).wkq != []) && Inv(Step(s))
              && Run(s).1 == Run(Step(s)).1 + (if s.tcb == I_IDLE then 1 else 0)
              && (Step(s).count < s.count || (Step(s).count == s.count && Closer(s, Step(s))))
  {
    hide Inv, Total, Busy, Step, Closer;
    EndIsCounted(s);
    if s.tcb != 0 {
      StepKeepsInv(s);
      if s.tcb == I_IDLE { IdleCounts(s); } else { StepCloser(s); }
    }
  }

  lemma EndIsCounted(s: State)
    requires Inv(s)
    ensures WellFormed(s) && (if s.tcb == 0 then s.count == 0 else s.count >= 1)
  {
    hide Sound;
  }

  lemma CloserIs(s: State, r: State)
    requires WellFormed(s) && WellFormed(r) && Closer(s, r)
    ensures Total(r) < Total(s) || (Total(r) == Total(s) && (Busy(r) < Busy(s) || (Busy(r) == Busy(s) && r.tcb < s.tcb)))
  {
  }

  // ----- The start -----

  function EmptyTask(): Task {
    Task([], false, false, false, [], [])
  }

  /** A packet as setup makes it: its letters are all zero. */
  function NewPacket(id: nat, kind: Kind): Packet {
    Packet(id, kind, 0, [0, 0, 0, 0])
  }

  /** setup on an empty task list. */
  function Setup(count: nat): State {
    State(I_DEVB,
          [EmptyTask(), EmptyTask(), Task([1, 0], true, true, false, [], []), Task([4, 3, 2], true, true, false, [], []),
           Task([7, 6, 5], true, true, false, [], []), EmptyTask().(wait := true), EmptyTask().(wait := true)],
          [NewPacket(0, KWork), NewPacket(0, KWork), NewPacket(I_DEVA, KDev), NewPacket(I_DEVA, KDev), NewPacket(I_DEVA, KDev),
           NewPacket(I_DEVB, KDev), NewPacket(I_DEVB, KDev), NewPacket(I_DEVB, KDev)],
          1, count, I_HANDLERA, 0, 0, 0)
  }

  lemma OneMoreHas(tasks: seq<Task>, n: nat, p: nat)
    requires n < |tasks|
    ensures AllHave(tasks[..n + 1], p) == AllHave(tasks[..n], p) + Has(tasks[n], p)
  {
    assert tasks[..n + 1][..n] == tasks[..n];
  }

  lemma SevenHave(tasks: seq<Task>, p: nat)
    requires |tasks| == 7
    ensures AllHave(tasks, p) == Has(tasks[0], p) + Has(tasks[1], p) + Has(tasks[2], p) + Has(tasks[3], p) + Has(tasks[4], p)
                                 + Has(tasks[5], p) + Has(tasks[6], p)
  {
    hide Has, AllHave;
    assert AllHave(tasks[..0], p) == 0 by { NoneHave(tasks[..0], p); }
    OneMoreHas(tasks, 0, p);
    OneMoreHas(tasks, 1, p);
    OneMoreHas(tasks, 2, p);
    OneMoreHas(tasks, 3, p);
    OneMoreHas(tasks, 4, p);
    OneMoreHas(tasks, 5, p);
    OneMoreHas(tasks, 6, p);
    assert tasks[..7] == tasks;
  }

  lemma NoneHave(tasks: seq<Task>, p: nat)
    requires tasks == []
    ensures AllHave(tasks, p) == 0
  {
  }

  lemma QueueHas(q: seq<nat>, p: nat)
    ensures Has(Task(q, true, true, false, [], []), p) == multiset(q)[p]
    ensures Has(EmptyTask(), p) == 0 && Has(EmptyTask().(wait := true), p) == 0
  {
  }

  lemma SetupHas(p: nat)
    requires p < 8
    ensures AllHave(Setup(1).tasks, p) == 1
  {
    hide Has, AllHave, EmptyTask, NewPacket;
    SevenHave(Setup(1).tasks, p);
    QueueHas([1, 0], p);
    QueueHas([4, 3, 2], p);
    QueueHas([7, 6, 5], p);
    assert multiset([1, 0])[p] == (if p < 2 then 1 else 0);
    assert multiset([4, 3, 2])[p] == (if 2 <= p < 5 then 1 else 0);
  }

  lemma SetupWellFormed(count: nat)
    ensures WellFormed(Setup(count))
  {
  }

  lemma StartHandler(h: nat, q: seq<nat>, packets: seq<Packet>)
    requires |packets| == 8 && I_HANDLERA <= h <= I_HANDLERB && q != []
    requires forall k :: 0 <= k < |q| ==> 2 <= q[k] < 8 && DeviceOf(q[k]) == h + 2 && packets[q[k]] == NewPacket(h + 2, KDev)
    ensures WellFormedTask(Task(q, true, true, false, [], [])) && GoodTask(h, Task(q, true, true, false, [], []), packets)
  {
  }

  lemma SetupTasks(count: nat, i: nat)
    requires 1 <= i <= 6
    ensures WellFormed(Setup(count)) && GoodTask(i, Setup(count).tasks[i], Setup(count).packets)
  {
    hide WellFormed, WellFormedTask, GoodHandler;
    SetupWellFormed(count);
    var s := Setup(count);
    StartHandler(I_HANDLERA, [4, 3, 2], s.packets);
    StartHandler(I_HANDLERB, [7, 6, 5], s.packets);
    assert WellFormedTask(s.tasks[i]) by { TaskIsWellFormed(s, i); }
  }

  lemma TaskIsWellFormed(s: State, i: nat)
    requires WellFormed(s) && i < 7
    ensures WellFormedTask(s.tasks[i])
  {
  }

  lemma SetupIsGood(count: nat)
    requires count >= 1
    ensures Inv(Setup(count))
  {
    hide AllHave, GoodTask;
    var s := Setup(count);
    forall p | 0 <= p < 8 ensures AllHave(s.tasks, p) == 1 {
      SetupHas(p);
    }
    forall i | 1 <= i <= 6 ensures GoodTask(i, s.tasks[i], s.packets) {
      SetupTasks(count, i);
    }
  }

  /** From setup, every state on the way keeps the invariant, the scheduler stops, and the idle task has run count times. */
  lemma BenchmarkEnds(count: nat)
    requires count >= 1
    ensures Inv(Setup(count)) && Run(Setup(count)).0.tcb == 0 && Run(Setup(count)).1 == count
  {
    hide Inv, Run;
    SetupIsGood(count);
    IdleRunsOut(Setup(count));
  }
}
