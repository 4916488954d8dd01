/** The globals of richards.c and the functions that change them, each shown to do what the machine's function does. */
module RichardsScheduler {
  import opened Sequences
  import opened Richards
  import opened RichardsRuns
  import RichardsLetters
  import RichardsCounts

  class Scheduler {
    var tcb: nat
    const tasktab: array<Task>
    const packets: array<Packet>
    var seed: bv16
    var count: int
    var target: nat
    var letter: nat
    var qpktcount: nat
    var holdcount: nat

    ghost function View(): State
      reads this, tasktab, packets
    {
      State(tcb, tasktab[..], packets[..], seed, count, target, letter, qpktcount, holdcount)
    }

    ghost predicate Valid()
      reads this, tasktab, packets
    {
      WellFormed(View())
    }

    /** setup. */
    constructor (count: nat)
      requires count >= 1
      ensures View() == Setup(count) && Inv(View()) && fresh(tasktab) && fresh(packets)
    {
      hide Inv, EmptyTask, NewPacket;
      tcb, seed, this.count, target, letter, qpktcount, holdcount := I_DEVB, 1, count, I_HANDLERA, 0, 0, 0;
      tasktab, packets := new Task[7](_ => EmptyTask()), new Packet[8](_ => NewPacket(0, KWork));
      new;
      packets[2], packets[3], packets[4] := NewPacket(I_DEVA, KDev), NewPacket(I_DEVA, KDev), NewPacket(I_DEVA, KDev);
      packets[5], packets[6], packets[7] := NewPacket(I_DEVB, KDev), NewPacket(I_DEVB, KDev), NewPacket(I_DEVB, KDev);
      tasktab[I_WORK] := Task([1, 0], true, true, false, [], []);
      tasktab[I_HANDLERA] := Task([4, 3, 2], true, true, false, [], []);
      tasktab[I_HANDLERB] := Task([7, 6, 5], true, true, false, [], []);
      tasktab[I_DEVA] := EmptyTask().(wait := true);
      tasktab[I_DEVB] := EmptyTask().(wait := true);
      assert tasktab[..] == Setup(count).tasks;
      assert packets[..] == Setup(count).packets;
      SetupIsGood(count);
    }

    method Wait() returns (newtcb: nat)
      requires Valid() && tcb > 0
      modifies tasktab
      ensures View().(tcb := newtcb) == Richards.Wait(old(View()))
    {
      tasktab[tcb] := tasktab[tcb].(wait := true);
      newtcb := tcb;
    }

    method HoldSelf() returns (newtcb: nat)
      requires Valid() && tcb > 0
      modifies `holdcount, tasktab
      ensures View().(tcb := newtcb) == Richards.HoldSelf(old(View()))
    {
      holdcount := holdcount + 1;
      tasktab[tcb] := tasktab[tcb].(hold := true);
      newtcb := Link(tcb);
    }

    method Release(id: nat) returns (newtcb: nat)
      requires Valid() && tcb > 0
      modifies tasktab
      ensures View().(tcb := newtcb) == Richards.Release(old(View()), id)
    {
      if !Exists(id) { return 0; }
      tasktab[id] := tasktab[id].(hold := false);
      newtcb := if Priority(id) > Priority(tcb) then id else tcb;
    }

    method Qpkt(pkt: nat) returns (newtcb: nat)
      requires Valid() && tcb > 0 && pkt < 8
      modifies `qpktcount, tasktab, packets
      ensures View().(tcb := newtcb) == Richards.Qpkt(old(View()), pkt)
    {
      var id := packets[pkt].id;
      if !Exists(id) { return 0; }
      var t := tasktab[id];
      qpktcount := qpktcount + 1;
      packets[pkt] := packets[pkt].(id := tcb);
      newtcb := tcb;
      if t.wkq == [] {
        tasktab[id] := t.(wkq := [pkt], pkt := true);
        assert t.wkq + [pkt] == [pkt];
        if Priority(id) > Priority(tcb) { newtcb := id; }
      } else {
        tasktab[id] := t.(wkq := t.wkq + [pkt]);
      }
    }

    method IdleFn() returns (newtcb: nat)
      requires Valid() && tcb > 0
      modifies `count, `seed, `holdcount, tasktab
      ensures View().(tcb := newtcb) == Richards.IdleFn(old(View()))
    {
      count := count - 1;
      if count == 0 {
        newtcb := HoldSelf();
      } else if seed & 1 == 0 {
        seed := (seed >> 1) & 0x7FFF;
        newtcb := Release(I_DEVA);
      } else {
        seed := ((seed >> 1) & 0x7FFF) ^ 0xD008;
        newtcb := Release(I_DEVB);
      }
    }

    /** The letters of a work packet. */
    method WriteLetters() returns (a2: seq<nat>)
      modifies `letter
      ensures a2 == Letters(old(letter), BUFSIZE + 1) && letter == AfterLetters(old(letter), BUFSIZE + 1)
    {
      a2 := [];
      for i := 0 to BUFSIZE + 1
        invariant a2 + Letters(letter, BUFSIZE + 1 - i) == Letters(old(letter), BUFSIZE + 1)
        invariant AfterLetters(letter, BUFSIZE + 1 - i) == AfterLetters(old(letter), BUFSIZE + 1)
      {
        letter := letter + 1;
        if letter > 26 { letter := 1; }
        a2 := a2 + [letter];
      }
    }

    method WorkFn(pkt: Option<nat>) returns (newtcb: nat)
      requires Valid() && tcb > 0 && (pkt.Some? ==> pkt.value < 8)
      modifies `target, `letter, `qpktcount, tasktab, packets
      ensures View().(tcb := newtcb) == Richards.WorkFn(old(View()), pkt)
    {
      if pkt.None? {
        newtcb := Wait();
        return;
      }
      hide Letters, AfterLetters, Richards.Qpkt;
      var p := pkt.value;
      target := I_HANDLERA + I_HANDLERB - target;
      var a2 := WriteLetters();
      packets[p] := packets[p].(id := target, a1 := 0, a2 := a2);
      assert packets[..] == Filled(old(View()), p).packets;
      newtcb := Qpkt(p);
    }

    /** Put the packet in the list for its kind. */
    method Append(p: nat)
      requires Valid() && tcb > 0 && p < 8
      modifies tasktab
      ensures View() == Richards.Append(old(View()), p)
    {
      var t := tasktab[tcb];
      if packets[p].kind == KWork {
        tasktab[tcb] := t.(v1 := t.v1 + [p]);
      } else {
        tasktab[tcb] := t.(v2 := t.v2 + [p]);
      }
    }

    method HandlerFn(pkt: Option<nat>) returns (newtcb: nat)
      requires Valid() && tcb > 0 && (pkt.Some? ==> pkt.value < 8)
      modifies `qpktcount, tasktab, packets
      ensures View().(tcb := newtcb) == Richards.HandlerFn(old(View()), pkt)
    {
      if pkt.Some? { Append(pkt.value); }
      newtcb := HandlerAct();
    }

    method HandlerAct() returns (newtcb: nat)
      requires Valid() && tcb > 0
      modifies `qpktcount, tasktab, packets
      ensures View().(tcb := newtcb) == Richards.HandlerAct(old(View()))
    {
      hide Richards.Qpkt;
      var t := tasktab[tcb];
      if t.v1 != [] {
        var workpkt := t.v1[0];
        var count := packets[workpkt].a1;
        if count > BUFSIZE {
          tasktab[tcb] := t.(v1 := t.v1[1..]);
          newtcb := Qpkt(workpkt);
          return;
        }
        if t.v2 != [] {
          var devpkt := t.v2[0];
          tasktab[tcb] := t.(v2 := t.v2[1..]);
          var letter := packets[workpkt].a2[count];
          packets[devpkt] := packets[devpkt].(a1 := letter);
          packets[workpkt] := packets[workpkt].(a1 := count + 1);
          assert View() == Sending(old(View()));
          newtcb := Qpkt(devpkt);
          return;
        }
      }
      newtcb := Wait();
    }

    method DevFn(pkt: Option<nat>) returns (newtcb: nat)
      requires Valid() && tcb > 0 && (pkt.Some? ==> pkt.value < 8)
      modifies `qpktcount, `holdcount, tasktab, packets
      ensures View().(tcb := newtcb) == Richards.DevFn(old(View()), pkt)
    {
      hide Richards.Qpkt;
      var t := tasktab[tcb];
      if pkt.None? {
        if t.v1 == [] {
          newtcb := Wait();
          return;
        }
        tasktab[tcb] := t.(v1 := []);
        newtcb := Qpkt(t.v1[0]);
      } else {
        tasktab[tcb] := t.(v1 := [pkt.value]);
        newtcb := HoldSelf();
      }
    }

    /** Call the function of the current task. */
    method Call(pkt: Option<nat>) returns (newtcb: nat)
      requires Valid() && tcb > 0 && (pkt.Some? ==> pkt.value < 8)
      modifies `count, `seed, `target, `letter, `qpktcount, `holdcount, tasktab, packets
      ensures View().(tcb := newtcb) == Richards.Call(old(View()), pkt)
    {
      hide Richards.IdleFn, Richards.WorkFn, Richards.HandlerFn, Richards.DevFn;
      if tcb == I_IDLE {
        newtcb := IdleFn();
      } else if tcb == I_WORK {
        newtcb := WorkFn(pkt);
      } else if tcb <= I_HANDLERB {
        newtcb := HandlerFn(pkt);
      } else {
        newtcb := DevFn(pkt);
      }
    }

    /** scheduleIter. */
    method ScheduleIter() returns (more: bool)
      requires Inv(View())
      modifies this, tasktab, packets
      ensures more == (old(tcb) != 0) && Inv(View())
      ensures more ==> Step.requires(old(View())) && View() == Step(old(View()))
      ensures !more ==> View() == old(View())
    {
      hide Richards.Call, Sound, InOrder, Counting;
      if tcb == 0 { return false; }
      StepKeepsInv(View());
      var t := tasktab[tcb];
      if t.hold || (t.wait && !t.pkt) {
        tcb := Link(tcb);
      } else if t.wait {
        tasktab[tcb] := t.(wkq := t.wkq[1..], wait := false, pkt := t.wkq[1..] != []);
        tcb := Call(Some(t.wkq[0]));
      } else {
        tcb := Call(None);
      }
      more := true;
    }
  }

  /** The benchmark: the scheduler runs until it stops, which it does after the idle task has run count times. The counters are those
      that getQpktcount and getHoldcount return; the steps of the run are returned as a ghost. */
  method Benchmark(count: nat) returns (idleRuns: nat, qpktcount: nat, holdcount: nat, ghost run: seq<State>)
    requires count >= 1
    ensures idleRuns == count
    ensures RichardsLetters.Chain(run) && run[0] == Setup(count) && run[|run| - 1].tcb == 0
    ensures qpktcount == RichardsCounts.Queuings(run) && holdcount == RichardsCounts.Holds(run)
  {
    hide Inv, Step, Setup, Run, Total, Busy, WellFormed, RichardsLetters.Chain, RichardsCounts.Queuings, RichardsCounts.Holds;
    var s := new Scheduler(count);
    BenchmarkEnds(count);
    idleRuns, run := 0, [s.View()];
    RunStep(s.View());
    ChainBegins(s.View());
    while true
      invariant Inv(s.View()) && WellFormed(s.View()) && fresh(s.tasktab) && fresh(s.packets)
      invariant RichardsLetters.Chain(run) && run != [] && run[0] == Setup(count) && run[|run| - 1] == s.View()
      invariant idleRuns + Run(s.View()).1 == count
      decreases s.count, Total(s.View()), Busy(s.View()), s.tcb
    {
      ghost var before := s.View();
      RunStep(before);
      RichardsCounts.ChainGoesOn(run);
      if s.tcb == I_IDLE { idleRuns := idleRuns + 1; }
      var more := s.ScheduleIter();
      if !more { break; }
      run := run + [s.View()];
      RunStep(s.View());
    }
    RichardsCounts.CountersAre(run, count);
    qpktcount, holdcount := s.qpktcount, s.holdcount;
  }

  lemma ChainBegins(s: State)
    requires Inv(s)
    ensures RichardsLetters.Chain([s])
  {
  }
}
