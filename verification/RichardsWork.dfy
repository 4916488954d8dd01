/** What work the scheduler does: which device is released, which letters go to which handler and device, and what is counted. */
module RichardsWork {
  import opened Sequences
  import opened Richards
  import opened RichardsRuns
  import opened RichardsSeed

  // ----- The idle task -----

  /** The idle task, with runs left, releases device B if the low bit of the seed is set and device A if it is clear, and
      nothing else changes but the seed, which is shifted. */
  lemma IdleReleases(s: State)
    requires Inv(s) && s.tcb == I_IDLE && s.count > 1
    ensures Current(s).pkt ==> Current(s).wkq != []
    ensures var r, d := Step(s), if SeedBit(s.seed, 0) then I_DEVB else I_DEVA;
            && r == s.(tcb := d, count := s.count - 1, seed := r.seed, tasks := s.tasks[d := s.tasks[d].(hold := false)])
            && Shifted(s.seed, r.seed) && r.seed == NextSeed(s.seed)
  {
    hide Sound, Shifted;
    IdleCounts(s);
    NextIsShifted(s.seed);
  }

  /** With its last run the idle task holds itself, and the scheduler stops. */
  lemma IdleHolds(s: State)
    requires Inv(s) && s.tcb == I_IDLE && s.count == 1
    ensures Current(s).pkt ==> Current(s).wkq != []
    ensures Step(s) == s.(tcb := 0, count := 0, holdcount := s.holdcount + 1, tasks := s.tasks[I_IDLE := s.tasks[I_IDLE].(hold := true)])
  {
    hide Sound;
    IdleCounts(s);
  }

  lemma QpktKeeps(s: State, p: nat)
    requires WellFormed(s) && s.tcb > 0 && p < 8
    ensures var r := Qpkt(s, p); r.seed == s.seed && r.target == s.target && r.letter == s.letter
  {
    hide WellFormed;
  }

  lemma HandlerKeeps(s: State)
    requires WellFormed(s) && s.tcb > 0
    ensures var r := HandlerAct(s); r.seed == s.seed && r.target == s.target && r.letter == s.letter
  {
    hide Qpkt;
    var t := Current(s);
    if t.v1 != [] {
      var w := t.v1[0];
      if s.packets[w].a1 > BUFSIZE {
        QpktKeeps(SetTask(s, s.tcb, t.(v1 := t.v1[1..])), w);
      } else if t.v2 != [] {
        QpktKeeps(Sending(s), t.v2[0]);
      }
    }
  }

  /** Only the idle task changes the seed, and only the worker, when it has a packet, target and letter. */
  lemma CallKeeps(s: State, pkt: Option<nat>)
    requires WellFormed(s) && s.tcb > I_IDLE && (pkt.Some? ==> pkt.value < 8)
    ensures var r := Call(s, pkt); r.seed == s.seed && (s.tcb != I_WORK || pkt.None? ==> r.target == s.target && r.letter == s.letter)
  {
    hide Qpkt, HandlerAct, Letters, AfterLetters;
    if s.tcb == I_WORK {
      if pkt.Some? { QpktKeeps(Filled(s, pkt.value), pkt.value); }
    } else if s.tcb <= I_HANDLERB {
      HandlerKeeps(if pkt.Some? then Append(s, pkt.value) else s);
    } else if pkt.None? && Current(s).v1 != [] {
      QpktKeeps(SetTask(s, s.tcb, Current(s).(v1 := [])), Current(s).v1[0]);
    }
  }

  /** The current task is given a packet in this step. */
  predicate Takes(s: State)
    requires WellFormed(s) && s.tcb > 0
  {
    !Current(s).hold && Current(s).wait && Current(s).pkt
  }

  lemma StepKeeps(s: State)
    requires Inv(s) && s.tcb > I_IDLE
    ensures (Current(s).pkt ==> Current(s).wkq != []) && Step(s).seed == s.seed
    ensures s.tcb != I_WORK || !Takes(s) ==> Step(s).target == s.target && Step(s).letter == s.letter
  {
    hide Sound, Call, InOrder, Counting;
    SoundTask(s, None, s.tcb);
    var t := Current(s);
    if t.hold || (t.wait && !t.pkt) {
    } else if t.wait {
      CallKeeps(Dequeue(s), Some(t.wkq[0]));
    } else {
      CallKeeps(s, None);
    }
  }

  /** The state in which the idle task runs next. */
  ghost function NextIdle(s: State): (r: State)
    requires Inv(s) && s.tcb > 0
    ensures Inv(r) && r.tcb == I_IDLE && r.count == s.count && r.seed == s.seed
    decreases Total(s), Busy(s), s.tcb
  {
    if s.tcb == I_IDLE then s
    else
      StepKeepsInv(s);
      StepCloser(s);
      StepKeeps(s);
      StillRunning(s);
      NextIdle(Step(s))
  }

  lemma StillRunning(s: State)
    requires Inv(s) && s.tcb > I_IDLE && (Current(s).pkt ==> Current(s).wkq != []) && Inv(Step(s)) && Step(s).count == s.count
    ensures Step(s).tcb > 0
  {
    hide Sound, Step, InOrder;
  }

  /** The state in which the idle task runs after n runs of it. */
  ghost function IdleAt(s: State, n: nat): (r: State)
    requires Inv(s) && s.tcb > 0 && n < s.count
    ensures Inv(r) && r.tcb == I_IDLE && r.count == s.count - n && r.seed == SeedAfter(s.seed, n)
    decreases n
  {
    var q := NextIdle(s);
    if n == 0 then q
    else
      IdleReleases(q);
      StepKeepsInv(q);
      IdleAt(Step(q), n - 1)
  }

  /** A run of the idle task that releases device d. */
  ghost predicate Releases(s: State, d: nat)
    requires Inv(s) && s.tcb == I_IDLE && s.count > 1 && d <= 6
  {
    && (Current(s).pkt ==> Current(s).wkq != [])
    && Step(s) == s.(tcb := d, count := s.count - 1, seed := Step(s).seed, tasks := s.tasks[d := s.tasks[d].(hold := false)])
  }

  /** Among any seventeen runs of the idle task is one that releases the device. */
  lemma DeviceIsReleased(s: State, d: nat)
    requires Inv(s) && s.tcb > 0 && s.count > 17 && s.seed != 0 && (d == I_DEVA || d == I_DEVB)
    ensures exists n: nat :: n <= 16 && Releases(IdleAt(s, n), d)
  {
    hide Inv, SeedAfter, IdleAt, NextSeed;
    SomeClear(s.seed);
    SomeSet(s.seed);
    var n: nat :| n <= 16 && SeedAfter(s.seed, n) & 1 == if d == I_DEVB then 1 else 0;
    var q := IdleAt(s, n);
    IdleReleases(q);
    LowBit(q.seed);
  }

  /** A device that is released sends the packet that it holds back to its handler in the next step. */
  lemma ReleasedGoesOn(s: State, d: nat)
    requires Inv(s) && s.tcb == I_IDLE && s.count > 1 && (d == I_DEVA || d == I_DEVB) && Releases(s, d) && s.tasks[d].hold
    ensures s.tasks[d].v1 != [] && Inv(Step(s)) && (Current(Step(s)).pkt ==> Current(Step(s)).wkq != [])
    ensures var r := Step(Step(s)); r.tasks[d].v1 == [] && r.tasks[d - 2].wkq == s.tasks[d - 2].wkq + [s.tasks[d].v1[0]]
  {
    hide Sound, AtHandler;
    StepKeepsInv(s);
    SoundTask(s, None, d);
    StepSound(Step(s));
    assert AtDevice(d, s.tasks[d].v1[0], s.packets[s.tasks[d].v1[0]]);
  }

  // ----- The worker -----

  /** The letters that come after letter l. */
  function LettersAfter(l: nat): (s: seq<nat>)
    ensures |s| == BUFSIZE + 1
  {
    seq(BUFSIZE + 1, i => (l + i) % 26 + 1)
  }

  lemma {:induction false} LettersGo(l: nat, n: nat)
    requires l <= 26
    ensures forall i :: 0 <= i < n ==> Letters(l, n)[i] == (l + i) % 26 + 1
    ensures n > 0 ==> AfterLetters(l, n) == (l + n - 1) % 26 + 1
    decreases n
  {
    if n > 0 {
      NextLetterIs(l);
      var next := l % 26 + 1;
      LettersGo(next, n - 1);
      forall i | 0 <= i < n ensures Letters(l, n)[i] == (l + i) % 26 + 1 {
        if i > 0 { NextPlace(l, i - 1); }
      }
      if n > 1 { NextPlace(l, n - 2); }
    }
  }

  lemma NextLetterIs(l: nat)
    requires l <= 26
    ensures NextLetter(l) == l % 26 + 1
  {
  }

  lemma NextPlace(l: nat, i: nat)
    ensures (l % 26 + 1 + i) % 26 == (l + (i + 1)) % 26
  {
  }

  lemma LettersAre(l: nat)
    requires l <= 26
    ensures Letters(l, BUFSIZE + 1) == LettersAfter(l) && AfterLetters(l, BUFSIZE + 1) == (l + BUFSIZE) % 26 + 1
  {
    hide Letters, AfterLetters;
    LettersGo(l, BUFSIZE + 1);
  }

  /** A worker that has a packet fills it with the next four letters and sends it to the handler that it did not send to last. */
  lemma WorkerPosts(s: State)
    requires Inv(s) && s.tcb == I_WORK && Takes(s)
    ensures Current(s).wkq != [] && Current(s).wkq[0] < 2
    ensures var r, p, h := Step(s), Current(s).wkq[0], I_HANDLERA + I_HANDLERB - s.target;
            && r.target == h && r.tasks[h].wkq == s.tasks[h].wkq + [p] && r.tasks[I_WORK].wkq == s.tasks[I_WORK].wkq[1..]
            && r.packets[p].a1 == 0 && r.packets[p].a2 == LettersAfter(s.letter) && r.letter == (s.letter + BUFSIZE) % 26 + 1
  {
    hide Sound, Letters, AfterLetters, InOrder, Counting;
    SoundTask(s, None, I_WORK);
    LettersAre(s.letter);
  }
}
