/** The scheduler of the Richards benchmark as a machine that steps from state to state: six tasks, eight packets. */
module Richards {
  import opened Sequences

  const I_IDLE := 1
  const I_WORK := 2
  const I_HANDLERA := 3
  const I_HANDLERB := 4
  const I_DEVA := 5
  const I_DEVB := 6
  const BUFSIZE := 3

  datatype Kind = KDev | KWork

  /** The packets' links are the sequences they are in. */
  datatype Packet = Packet(id: nat, kind: Kind, a1: nat, a2: seq<nat>)

  /** A task: its queue, the three bits of its state, and the packets its two variables point to. */
  datatype Task = Task(wkq: seq<nat>, pkt: bool, wait: bool, hold: bool, v1: seq<nat>, v2: seq<nat>)

  /** tasks[0] is not used, and tcb == 0 is the end. The variables of the idle task and the worker, which are
      numbers, are kept apart: seed and count, and target and letter. */
  datatype State = State(tcb: nat, tasks: seq<Task>, packets: seq<Packet>,
                         seed: bv16, count: int, target: nat, letter: nat, qpktcount: nat, holdcount: nat)

  /** Tasks are created in the order of their numbers, each put before the others in the list. */
  function Link(t: nat): nat
    requires t > 0
  {
    t - 1
  }

  function Priority(t: nat): int {
    1000 * (t - 1)
  }

  // ----- The functions of the scheduler -----

  ghost predicate WellFormedTask(t: Task) {
    && (forall k :: 0 <= k < |t.wkq| ==> t.wkq[k] < 8)
    && (forall k :: 0 <= k < |t.v1| ==> t.v1[k] < 8)
    && (forall k :: 0 <= k < |t.v2| ==> t.v2[k] < 8)
  }

  /** Every variable has a value of its type. */
  ghost predicate WellFormed(s: State) {
    && |s.tasks| == 7 && |s.packets| == 8 && s.tcb <= 6
    && (forall t :: 0 <= t < 7 ==> WellFormedTask(s.tasks[t]))
    && (forall p :: 0 <= p < 8 ==> |s.packets[p].a2| == BUFSIZE + 1)
    && I_HANDLERA <= s.target <= I_HANDLERB && s.letter <= 26
  }

  function Current(s: State): (t: Task)
    requires WellFormed(s) && s.tcb > 0
    ensures WellFormedTask(t)
  {
    s.tasks[s.tcb]
  }

  function SetTask(s: State, t: nat, task: Task): (r: State)
    requires WellFormed(s) && t <= 6 && WellFormedTask(task)
    ensures WellFormed(r)
  {
    s.(tasks := s.tasks[t := task])
  }

  function Wait(s: State): (r: State)
    requires WellFormed(s) && s.tcb > 0
    ensures WellFormed(r)
  {
    SetTask(s, s.tcb, Current(s).(wait := true))
  }

  function HoldSelf(s: State): (r: State)
    requires WellFormed(s) && s.tcb > 0
    ensures WellFormed(r)
  {
    SetTask(s, s.tcb, Current(s).(hold := true)).(holdcount := s.holdcount + 1, tcb := Link(s.tcb))
  }

  /** Only tasks 1 to 6 exist. */
  predicate Exists(id: nat) {
    1 <= id <= 6
  }

  function Release(s: State, id: nat): (r: State)
    requires WellFormed(s) && s.tcb > 0
    ensures WellFormed(r)
  {
    if !Exists(id) then s.(tcb := 0)
    else SetTask(s, id, s.tasks[id].(hold := false)).(tcb := if Priority(id) > Priority(s.tcb) then id else s.tcb)
  }

  /** Queue packet p for the task it is addressed to, and address it back to the sender. */
  function Qpkt(s: State, p: nat): (r: State)
    requires WellFormed(s) && s.tcb > 0 && p < 8
    ensures WellFormed(r)
  {
    var id := s.packets[p].id;
    if !Exists(id) then s.(tcb := 0)
    else
      var t := s.tasks[id];
      var r := SetTask(s, id, t.(wkq := t.wkq + [p], pkt := t.wkq == [] || t.pkt))
               .(qpktcount := s.qpktcount + 1, packets := s.packets[p := s.packets[p].(id := s.tcb)]);
      if t.wkq == [] && Priority(id) > Priority(s.tcb) then r.(tcb := id) else r
  }

  function IdleFn(s: State): (r: State)
    requires WellFormed(s) && s.tcb > 0
    ensures WellFormed(r)
  {
    var s1 := s.(count := s.count - 1);
    if s1.count == 0 then HoldSelf(s1)
    else if s.seed & 1 == 0 then Release(s1.(seed := (s.seed >> 1) & 0x7FFF), I_DEVA)
    else Release(s1.(seed := ((s.seed >> 1) & 0x7FFF) ^ 0xD008), I_DEVB)
  }

  function NextLetter(l: nat): nat {
    if l + 1 > 26 then 1 else l + 1
  }

  /** n letters of the alphabet after letter l. */
  function Letters(l: nat, n: nat): (s: seq<nat>)
    ensures |s| == n
    decreases n
  {
    if n == 0 then [] else [NextLetter(l)] + Letters(NextLetter(l), n - 1)
  }

  function AfterLetters(l: nat, n: nat): (r: nat)
    ensures l <= 26 ==> r <= 26
    decreases n
  {
    if n == 0 then l else AfterLetters(NextLetter(l), n - 1)
  }

  function WorkFn(s: State, pkt: Option<nat>): (r: State)
    requires WellFormed(s) && s.tcb > 0 && (pkt.Some? ==> pkt.value < 8)
    ensures WellFormed(r)
  {
    if pkt.None? then Wait(s)
    else
      var p := pkt.value;
      var to := I_HANDLERA + I_HANDLERB - s.target;
      var filled := s.packets[p].(id := to, a1 := 0, a2 := Letters(s.letter, BUFSIZE + 1));
      Qpkt(s.(target := to, letter := AfterLetters(s.letter, BUFSIZE + 1), packets := s.packets[p := filled]), p)
  }

  /** Put the packet in the list for its kind. */
  function Append(s: State, p: nat): (r: State)
    requires WellFormed(s) && s.tcb > 0 && p < 8
    ensures WellFormed(r) && r.tcb == s.tcb && r.packets == s.packets
  {
    var t := Current(s);
    SetTask(s, s.tcb, if s.packets[p].kind == KWork then t.(v1 := t.v1 + [p]) else t.(v2 := t.v2 + [p]))
  }

  function HandlerFn(s: State, pkt: Option<nat>): (r: State)
    requires WellFormed(s) && s.tcb > 0 && (pkt.Some? ==> pkt.value < 8)
    ensures WellFormed(r)
  {
    HandlerAct(if pkt.Some? then Append(s, pkt.value) else s)
  }

  /** What a handler does once its packet is in its list: send a full work packet back, or send a device the
      next character of the first work packet. */
  function HandlerAct(s: State): (r: State)
    requires WellFormed(s) && s.tcb > 0
    ensures WellFormed(r)
  {
    var t := Current(s);
    if t.v1 == [] then Wait(s)
    else
      var workpkt := t.v1[0];
      var count := s.packets[workpkt].a1;
      if count > BUFSIZE then Qpkt(SetTask(s, s.tcb, t.(v1 := t.v1[1..])), workpkt)
      else if t.v2 == [] then Wait(s)
      else
        var devpkt := t.v2[0];
        var packets := s.packets[devpkt := s.packets[devpkt].(a1 := s.packets[workpkt].a2[count])];
        Qpkt(SetTask(s, s.tcb, t.(v2 := t.v2[1..])).(packets := packets[workpkt := packets[workpkt].(a1 := count + 1)]), devpkt)
  }

  function DevFn(s: State, pkt: Option<nat>): (r: State)
    requires WellFormed(s) && s.tcb > 0 && (pkt.Some? ==> pkt.value < 8)
    ensures WellFormed(r)
  {
    var t := Current(s);
    if pkt.None? then
      if t.v1 == [] then Wait(s) else Qpkt(SetTask(s, s.tcb, t.(v1 := [])), t.v1[0])
    else HoldSelf(SetTask(s, s.tcb, t.(v1 := [pkt.value])))
  }

  function Call(s: State, pkt: Option<nat>): (r: State)
    requires WellFormed(s) && s.tcb > 0 && (pkt.Some? ==> pkt.value < 8)
    ensures WellFormed(r)
  {
    if s.tcb == I_IDLE then IdleFn(s)
    else if s.tcb == I_WORK then WorkFn(s, pkt)
    else if s.tcb <= I_HANDLERB then HandlerFn(s, pkt)
    else DevFn(s, pkt)
  }

  /** The state S_WAITPKT: the task is given the first packet of its queue. */
  function Dequeue(s: State): (r: State)
    requires WellFormed(s) && s.tcb > 0 && Current(s).wkq != []
    ensures WellFormed(r) && r.tcb == s.tcb
  {
    var rest := Current(s).wkq[1..];
    SetTask(s, s.tcb, Current(s).(wkq := rest, wait := false, pkt := rest != []))
  }

  /** One iteration of the scheduler on a state that has not ended. */
  function Step(s: State): (r: State)
    requires WellFormed(s) && s.tcb > 0 && (Current(s).pkt ==> Current(s).wkq != [])
    ensures WellFormed(r)
  {
    var t := Current(s);
    if t.hold || (t.wait && !t.pkt) then s.(tcb := Link(s.tcb))
    else if t.wait then Call(Dequeue(s), Some(t.wkq[0]))
    else Call(s, None)
  }

  // ----- What every state keeps -----

  /** The device that packet p belongs to; packets 0 and 1 are work packets. */
  function DeviceOf(p: nat): nat {
    if p < 2 then 0 else if p < 5 then I_DEVA else I_DEVB
  }

  /** A packet that handler h may have: a work packet to go back to the worker, or one of the handler's device. */
  ghost predicate AtHandler(h: nat, p: nat, packet: Packet) {
    if p < 2 then packet.id == I_WORK else DeviceOf(p) == packet.id == h + 2
  }

  ghost predicate AtDevice(d: nat, p: nat, packet: Packet) {
    DeviceOf(p) == d && packet.id + 2 == d
  }

  ghost predicate GoodWorker(t: Task) {
    t.v1 == [] && t.v2 == [] && !t.hold && forall k :: 0 <= k < |t.wkq| ==> t.wkq[k] < 2
  }

  ghost predicate GoodHandler(h: nat, t: Task, packets: seq<Packet>)
    requires |packets| == 8 && WellFormedTask(t)
  {
    && !t.hold
    && (forall k :: 0 <= k < |t.wkq| ==> AtHandler(h, t.wkq[k], packets[t.wkq[k]]) && (t.wkq[k] < 2 ==> packets[t.wkq[k]].a1 == 0))
    && (forall k :: 0 <= k < |t.v1| ==> AtHandler(h, t.v1[k], packets[t.v1[k]]) && t.v1[k] < 2)
    && (t.v1 != [] ==> packets[t.v1[0]].a1 <= BUFSIZE + 1)
    && (forall k :: 0 < k < |t.v1| ==> packets[t.v1[k]].a1 == 0)
    && (forall k :: 0 <= k < |t.v2| ==> AtHandler(h, t.v2[k], packets[t.v2[k]]) && t.v2[k] >= 2)
  }

  /** A waiting device has no packet in hand, and a holding one has one. */
  ghost predicate GoodDevice(d: nat, t: Task, packets: seq<Packet>)
    requires |packets| == 8 && WellFormedTask(t)
  {
    && t.v2 == [] && |t.v1| <= 1 && (t.wait ==> t.v1 == [] && !t.hold) && (t.hold ==> t.v1 != [])
    && (forall k :: 0 <= k < |t.wkq| ==> AtDevice(d, t.wkq[k], packets[t.wkq[k]]))
    && (forall k :: 0 <= k < |t.v1| ==> AtDevice(d, t.v1[k], packets[t.v1[k]]))
  }

  ghost predicate GoodTask(i: nat, t: Task, packets: seq<Packet>)
    requires |packets| == 8 && WellFormedTask(t)
  {
    && (t.pkt <==> t.wkq != [])
    && if i == I_IDLE then t.wkq == t.v1 == t.v2 == [] && !t.wait
       else if i == I_WORK then GoodWorker(t)
       else if i <= I_HANDLERB then GoodHandler(i, t, packets)
       else GoodDevice(i, t, packets)
  }

  /** How often a task has packet p. */
  ghost function Has(t: Task, p: nat): nat {
    multiset(t.wkq)[p] + multiset(t.v1)[p] + multiset(t.v2)[p]
  }

  ghost function AllHave(tasks: seq<Task>, p: nat): nat {
    if tasks == [] then 0 else AllHave(tasks[..|tasks| - 1], p) + Has(tasks[|tasks| - 1], p)
  }

  lemma {:induction false} HaveAfter(tasks: seq<Task>, i: nat, t: Task, p: nat)
    requires i < |tasks|
    ensures AllHave(tasks[i := t], p) + Has(tasks[i], p) == AllHave(tasks, p) + Has(t, p)
  {
    hide Has;
    var n := |tasks| - 1;
    if i < n {
      HaveAfter(tasks[..n], i, t, p);
      assert tasks[i := t][..n] == tasks[..n][i := t];
    } else {
      assert tasks[i := t][..n] == tasks[..n];
    }
  }

  lemma {:induction false} PartOfAll(tasks: seq<Task>, i: nat, p: nat)
    requires i < |tasks|
    ensures Has(tasks[i], p) <= AllHave(tasks, p)
  {
    hide Has;
    var n := |tasks| - 1;
    if i < n { PartOfAll(tasks[..n], i, p); }
  }

  function InFlight(flight: Option<nat>, p: nat): nat {
    if flight == Some(p) then 1 else 0
  }

  /** Every packet but the one in flight is in exactly one place, and every task is as it should be. */
  ghost predicate Sound(s: State, flight: Option<nat>) {
    && WellFormed(s)
    && s.tasks[0] == Task([], false, false, false, [], [])
    && (forall p {:trigger AllHave(s.tasks, p)} :: 0 <= p < 8 ==> AllHave(s.tasks, p) + InFlight(flight, p) == 1)
    && (forall p :: 0 <= p < 8 ==> (s.packets[p].kind == KWork <==> p < 2))
    && (forall i :: 1 <= i <= 6 ==> GoodTask(i, s.tasks[i], s.packets))
  }

  ghost predicate Runnable(t: Task) {
    !t.hold && (t.wait ==> t.pkt)
  }

  /** No task ahead of tcb can run. */
  ghost predicate InOrder(s: State) {
    && (forall i :: 1 <= i <= 6 && i > s.tcb && i < |s.tasks| ==> !Runnable(s.tasks[i]))
  }

  /** The idle task has runs left until the end, and the end comes when it has none. */
  ghost predicate Counting(s: State)
    requires |s.tasks| == 7
  {
    if s.tcb == 0 then s.count == 0 else s.count >= 1 && !s.tasks[I_IDLE].hold
  }

  ghost predicate Inv(s: State) {
    WellFormed(s) && Sound(s, None) && InOrder(s) && Counting(s)
  }

  // ----- Moving packets -----

  /** A packet in flight is in no list. */
  lemma NowhereElse(s: State, p: nat, i: nat)
    requires Sound(s, Some(p)) && p < 8 && i < 7
    ensures p !in s.tasks[i].wkq && p !in s.tasks[i].v1 && p !in s.tasks[i].v2
  {
    PartOfAll(s.tasks, i, p);
    assert AllHave(s.tasks, p) + InFlight(Some(p), p) == 1;
    assert Has(s.tasks[i], p) == 0;
  }

  /** What a task is like depends only on the packets it has. */
  lemma GoodTaskFrame(i: nat, t: Task, packets: seq<Packet>, p: nat, packet: Packet)
    requires |packets| == 8 && p < 8 && WellFormedTask(t) && GoodTask(i, t, packets)
    requires p !in t.wkq && p !in t.v1 && p !in t.v2
    ensures GoodTask(i, t, packets[p := packet])
  {
    var after := packets[p := packet];
    assert forall k :: 0 <= k < |t.wkq| ==> after[t.wkq[k]] == packets[t.wkq[k]];
    assert forall k :: 0 <= k < |t.v1| ==> after[t.v1[k]] == packets[t.v1[k]];
    assert forall k :: 0 <= k < |t.v2| ==> after[t.v2[k]] == packets[t.v2[k]];
  }

  /** The packet in flight can be filled in and addressed at will. */
  lemma SetPacket(s: State, p: nat, packet: Packet)
    requires Sound(s, Some(p)) && p < 8 && packet.kind == s.packets[p].kind && |packet.a2| == BUFSIZE + 1
    ensures Sound(s.(packets := s.packets[p := packet]), Some(p))
  {
    hide GoodTask, AllHave;
    forall i | 1 <= i <= 6 ensures GoodTask(i, s.tasks[i], s.packets[p := packet]) {
      NowhereElse(s, p, i);
      GoodTaskFrame(i, s.tasks[i], s.packets, p, packet);
    }
  }

  /** Changing one task, with what is in flight changing accordingly. */
  lemma ChangeTask(s: State, i: nat, t: Task, flight: Option<nat>, flight': Option<nat>)
    requires Sound(s, flight) && 1 <= i <= 6 && WellFormedTask(t) && GoodTask(i, t, s.packets)
    requires forall p :: 0 <= p < 8 ==> Has(t, p) + InFlight(flight', p) == Has(s.tasks[i], p) + InFlight(flight, p)
    ensures Sound(SetTask(s, i, t), flight')
  {
    hide GoodTask, AllHave, Has, InFlight;
    var after := s.tasks[i := t];
    forall p | 0 <= p < 8 ensures AllHave(after, p) + InFlight(flight', p) == 1 {
      HaveAfter(s.tasks, i, t, p);
    }
  }

  /** Neither tcb nor the numbers matter. */
  lemma SoundFrame(s: State, r: State, flight: Option<nat>)
    requires Sound(s, flight) && WellFormed(r) && r.tasks == s.tasks && r.packets == s.packets
    ensures Sound(r, flight)
  {
    hide GoodTask, AllHave;
  }

  lemma HasHead(q: seq<nat>, p: nat)
    requires q != []
    ensures multiset(q)[p] == multiset(q[1..])[p] + if p == q[0] then 1 else 0
  {
    assert q == [q[0]] + q[1..];
  }

  lemma HasLast(q: seq<nat>, x: nat, p: nat)
    ensures multiset(q + [x])[p] == multiset(q)[p] + if p == x then 1 else 0
  {
  }

  lemma SoundTask(s: State, flight: Option<nat>, i: nat)
    requires Sound(s, flight) && 1 <= i <= 6
    ensures WellFormed(s) && WellFormedTask(s.tasks[i]) && GoodTask(i, s.tasks[i], s.packets)
  {
  }

  lemma DequeueSound(s: State)
    requires WellFormed(s) && Sound(s, None) && s.tcb > 0 && Current(s).wkq != []
    ensures Sound(Dequeue(s), Some(Current(s).wkq[0]))
  {
    hide Sound, InFlight;
    SoundTask(s, None, s.tcb);
    var t := Current(s);
    var after := t.(wkq := t.wkq[1..], wait := false, pkt := t.wkq[1..] != []);
    forall p | 0 <= p < 8 ensures Has(after, p) + InFlight(Some(t.wkq[0]), p) == Has(t, p) + InFlight(None, p) {
      HasHead(t.wkq, p);
      Flies(t.wkq[0], p);
    }
    TailIsGood(s.tcb, t, s.packets);
    ChangeTask(s, s.tcb, after, None, Some(t.wkq[0]));
  }

  lemma Flies(x: nat, p: nat)
    ensures InFlight(None, p) == 0 && InFlight(Some(x), p) == if p == x then 1 else 0
  {
  }

  lemma TailIsGood(i: nat, t: Task, packets: seq<Packet>)
    requires |packets| == 8 && WellFormedTask(t) && GoodTask(i, t, packets) && t.wkq != [] && 1 <= i <= 6
    ensures i != I_IDLE
    ensures var after := t.(wkq := t.wkq[1..], wait := false, pkt := t.wkq[1..] != []); WellFormedTask(after) && GoodTask(i, after, packets)
  {
    hide AtHandler, AtDevice;
  }

  // ----- Queueing a packet -----

  /** The packet may be queued for task i. */
  ghost predicate Accepts(i: nat, p: nat, packet: Packet) {
    if i == I_WORK then p < 2
    else if i == I_HANDLERA || i == I_HANDLERB then AtHandler(i, p, packet) && (p < 2 ==> packet.a1 == 0)
    else (i == I_DEVA || i == I_DEVB) && p >= 2 && AtDevice(i, p, packet)
  }

  lemma ArrivalIsGood(i: nat, t: Task, packets: seq<Packet>, p: nat)
    requires |packets| == 8 && p < 8 && WellFormedTask(t) && GoodTask(i, t, packets) && Accepts(i, p, packets[p])
    ensures var after := t.(wkq := t.wkq + [p], pkt := t.wkq == [] || t.pkt);
            WellFormedTask(after) && GoodTask(i, after, packets) && after.pkt
  {
    hide AtHandler, AtDevice;
  }

  /** The packet goes from the current task to one that accepts it, which qpkt finds. */
  ghost predicate Welcome(s: State, p: nat)
    requires WellFormed(s) && p < 8
  {
    var id := s.packets[p].id;
    Exists(id) && id != s.tcb && Accepts(id, p, s.packets[p].(id := s.tcb))
  }

  lemma QpktSound(s: State, p: nat)
    requires WellFormed(s) && s.tcb > 0 && p < 8 && Sound(s, Some(p)) && Welcome(s, p)
    ensures Sound(Qpkt(s, p), None)
  {
    hide Sound, InFlight, GoodTask;
    var id := s.packets[p].id;
    var s1 := s.(packets := s.packets[p := s.packets[p].(id := s.tcb)]);
    SetPacket(s, p, s1.packets[p]);
    SoundTask(s1, Some(p), id);
    var t := s1.tasks[id];
    var after := t.(wkq := t.wkq + [p], pkt := t.wkq == [] || t.pkt);
    ArrivalIsGood(id, t, s1.packets, p);
    forall x | 0 <= x < 8 ensures Has(after, x) + InFlight(None, x) == Has(t, x) + InFlight(Some(p), x) {
      HasLast(t.wkq, p, x);
      Flies(p, x);
    }
    ChangeTask(s1, id, after, Some(p), None);
    SoundFrame(SetTask(s1, id, after), Qpkt(s, p), None);
  }

  // ----- Every function keeps soundness -----

  lemma WaitSound(s: State)
    requires WellFormed(s) && s.tcb > 1 && Sound(s, None) && (s.tcb >= I_DEVA ==> Current(s).v1 == [])
    ensures Sound(Wait(s), None)
  {
    hide Sound, AtHandler, AtDevice;
    SoundTask(s, None, s.tcb);
    var t := Current(s).(wait := true);
    forall p | 0 <= p < 8 ensures Has(t, p) == Has(Current(s), p) {
    }
    ChangeTask(s, s.tcb, t, None, None);
  }

  /** The state in which the worker calls qpkt. */
  function Filled(s: State, p: nat): (r: State)
    requires WellFormed(s) && p < 8
    ensures WellFormed(r)
  {
    var to := I_HANDLERA + I_HANDLERB - s.target;
    var filled := s.packets[p].(id := to, a1 := 0, a2 := Letters(s.letter, BUFSIZE + 1));
    s.(target := to, letter := AfterLetters(s.letter, BUFSIZE + 1), packets := s.packets[p := filled])
  }

  lemma WorkSound(s: State, p: nat)
    requires WellFormed(s) && s.tcb == I_WORK && p < 2 && Sound(s, Some(p))
    ensures Sound(Filled(s, p), Some(p)) && Welcome(Filled(s, p), p)
    ensures Sound(WorkFn(s, Some(p)), None)
  {
    hide Sound, GoodTask, Letters, AfterLetters;
    var s1 := Filled(s, p);
    SetPacket(s, p, s1.packets[p]);
    SoundFrame(s.(packets := s1.packets), s1, Some(p));
    QpktSound(s1, p);
  }

  /** A packet that a handler accepts goes to its list. */
  lemma AppendSound(s: State, p: nat)
    requires WellFormed(s) && I_HANDLERA <= s.tcb <= I_HANDLERB && p < 8 && Sound(s, Some(p)) && Accepts(s.tcb, p, s.packets[p])
    ensures Sound(Append(s, p), None)
  {
    hide Sound, InFlight;
    SoundTask(s, Some(p), s.tcb);
    KindIs(s, Some(p), p);
    var t := Current(s);
    var after := if p < 2 then t.(v1 := t.v1 + [p]) else t.(v2 := t.v2 + [p]);
    forall x | 0 <= x < 8 ensures Has(after, x) + InFlight(None, x) == Has(t, x) + InFlight(Some(p), x) {
      HasLast(t.v1, p, x);
      HasLast(t.v2, p, x);
      Flies(p, x);
    }
    ListedIsGood(s.tcb, t, s.packets, p);
    ChangeTask(s, s.tcb, after, Some(p), None);
  }

  lemma KindIs(s: State, flight: Option<nat>, p: nat)
    requires Sound(s, flight) && p < 8
    ensures s.packets[p].kind == KWork <==> p < 2
  {
  }

  lemma ListedIsGood(h: nat, t: Task, packets: seq<Packet>, p: nat)
    requires |packets| == 8 && p < 8 && WellFormedTask(t) && I_HANDLERA <= h <= I_HANDLERB
    requires GoodTask(h, t, packets) && Accepts(h, p, packets[p])
    ensures var after := if p < 2 then t.(v1 := t.v1 + [p]) else t.(v2 := t.v2 + [p]);
            WellFormedTask(after) && GoodTask(h, after, packets)
  {
    hide AtHandler;
  }

  lemma TakenIsGood(h: nat, t: Task, packets: seq<Packet>, work: bool)
    requires |packets| == 8 && WellFormedTask(t) && I_HANDLERA <= h <= I_HANDLERB && GoodTask(h, t, packets)
    requires (if work then t.v1 else t.v2) != []
    ensures var after := if work then t.(v1 := t.v1[1..]) else t.(v2 := t.v2[1..]);
            WellFormedTask(after) && GoodTask(h, after, packets)
  {
    hide AtHandler;
  }

  /** A handler takes the first packet of its first or second list out. */
  lemma TakeSound(s: State, work: bool)
    requires WellFormed(s) && I_HANDLERA <= s.tcb <= I_HANDLERB && Sound(s, None)
    requires (if work then Current(s).v1 else Current(s).v2) != []
    ensures var t := Current(s);
            Sound(SetTask(s, s.tcb, if work then t.(v1 := t.v1[1..]) else t.(v2 := t.v2[1..])), Some(if work then t.v1[0] else t.v2[0]))
  {
    hide Sound, InFlight, GoodTask;
    SoundTask(s, None, s.tcb);
    var t := Current(s);
    var p := if work then t.v1[0] else t.v2[0];
    var after := if work then t.(v1 := t.v1[1..]) else t.(v2 := t.v2[1..]);
    forall x | 0 <= x < 8 ensures Has(after, x) + InFlight(Some(p), x) == Has(t, x) + InFlight(None, x) {
      HasHead(if work then t.v1 else t.v2, x);
      Flies(p, x);
    }
    TakenIsGood(s.tcb, t, s.packets, work);
    ChangeTask(s, s.tcb, after, None, Some(p));
  }

  /** The first work packet of a handler is stepped to its next character. */
  lemma StepWorkpkt(s: State, flight: nat, count: nat)
    requires WellFormed(s) && I_HANDLERA <= s.tcb <= I_HANDLERB && flight < 8 && Sound(s, Some(flight))
    requires Current(s).v1 != [] && count <= BUFSIZE + 1
    ensures var w := Current(s).v1[0]; Sound(s.(packets := s.packets[w := s.packets[w].(a1 := count)]), Some(flight))
  {
    hide AllHave, InFlight, AtHandler, AtDevice;
    var w := Current(s).v1[0];
    var after := s.packets[w := s.packets[w].(a1 := count)];
    forall i | 1 <= i <= 6 ensures GoodTask(i, s.tasks[i], after) {
      if i == s.tcb {
        OnlyOnce(s, flight, w);
        SteppedIsGood(i, s.tasks[i], s.packets, count);
      } else {
        Elsewhere(s, flight, w, i);
        GoodTaskFrame(i, s.tasks[i], s.packets, w, after[w]);
      }
    }
  }

  lemma OnlyOnce(s: State, flight: nat, w: nat)
    requires WellFormed(s) && s.tcb > 0 && Sound(s, Some(flight)) && Current(s).v1 != [] && w == Current(s).v1[0]
    ensures w !in Current(s).wkq && w !in Current(s).v1[1..] && w !in Current(s).v2
  {
    hide GoodTask, AllHave;
    PartOfAll(s.tasks, s.tcb, w);
    assert AllHave(s.tasks, w) + InFlight(Some(flight), w) == 1;
    assert Has(Current(s), w) <= 1;
    HasHead(Current(s).v1, w);
  }

  lemma {:induction false} TwoHave(tasks: seq<Task>, i: nat, j: nat, p: nat)
    requires i < |tasks| && j < |tasks| && i != j
    ensures Has(tasks[i], p) + Has(tasks[j], p) <= AllHave(tasks, p)
  {
    hide Has;
    var n := |tasks| - 1;
    if i < n && j < n {
      TwoHave(tasks[..n], i, j, p);
    } else {
      PartOfAll(tasks[..n], if i == n then j else i, p);
    }
  }

  lemma Elsewhere(s: State, flight: nat, w: nat, i: nat)
    requires WellFormed(s) && s.tcb > 0 && Sound(s, Some(flight)) && Current(s).v1 != [] && w == Current(s).v1[0] && i != s.tcb && i < 7
    ensures w !in s.tasks[i].wkq && w !in s.tasks[i].v1 && w !in s.tasks[i].v2
  {
    hide GoodTask, AllHave;
    TwoHave(s.tasks, s.tcb, i, w);
    assert AllHave(s.tasks, w) + InFlight(Some(flight), w) == 1;
    HasHead(Current(s).v1, w);
    assert Has(s.tasks[i], w) == 0;
  }

  lemma SteppedIsGood(h: nat, t: Task, packets: seq<Packet>, count: nat)
    requires |packets| == 8 && WellFormedTask(t) && I_HANDLERA <= h <= I_HANDLERB && GoodTask(h, t, packets)
    requires t.v1 != [] && t.v1[0] !in t.wkq && t.v1[0] !in t.v1[1..] && t.v1[0] !in t.v2 && count <= BUFSIZE + 1
    ensures GoodTask(h, t, packets[t.v1[0] := packets[t.v1[0]].(a1 := count)])
  {
    var w := t.v1[0];
    var after := packets[w := packets[w].(a1 := count)];
    assert forall k :: 0 <= k < |t.wkq| ==> after[t.wkq[k]] == packets[t.wkq[k]];
    assert forall k :: 0 < k < |t.v1| ==> t.v1[k] == t.v1[1..][k - 1] && after[t.v1[k]] == packets[t.v1[k]];
    assert forall k :: 0 <= k < |t.v2| ==> after[t.v2[k]] == packets[t.v2[k]];
  }

  /** The state in which a handler calls qpkt for a device packet. */
  function Sending(s: State): (r: State)
    requires WellFormed(s) && s.tcb > 0 && Current(s).v1 != [] && Current(s).v2 != []
    requires s.packets[Current(s).v1[0]].a1 <= BUFSIZE
    ensures WellFormed(r)
  {
    var t := Current(s);
    var workpkt, devpkt := t.v1[0], t.v2[0];
    var count := s.packets[workpkt].a1;
    var packets := s.packets[devpkt := s.packets[devpkt].(a1 := s.packets[workpkt].a2[count])];
    SetTask(s, s.tcb, t.(v2 := t.v2[1..])).(packets := packets[workpkt := packets[workpkt].(a1 := count + 1)])
  }

  lemma SendSound(s: State)
    requires WellFormed(s) && I_HANDLERA <= s.tcb <= I_HANDLERB && Sound(s, None)
    requires Current(s).v1 != [] && Current(s).v2 != [] && s.packets[Current(s).v1[0]].a1 <= BUFSIZE
    ensures var d := Current(s).v2[0]; d >= 2 && Sound(Sending(s), Some(d)) && Welcome(Sending(s), d)
  {
    hide Sound;
    SoundTask(s, None, s.tcb);
    var t := Current(s);
    var w, d := t.v1[0], t.v2[0];
    var count := s.packets[w].a1;
    TakeSound(s, false);
    var s1 := SetTask(s, s.tcb, t.(v2 := t.v2[1..]));
    var packets := s.packets[d := s.packets[d].(a1 := s.packets[w].a2[count])];
    SetPacket(s1, d, packets[d]);
    StepWorkpkt(s1.(packets := packets), d, count + 1);
  }

  lemma ReturnWorkSound(s: State)
    requires WellFormed(s) && I_HANDLERA <= s.tcb <= I_HANDLERB && Sound(s, None) && Current(s).v1 != []
    ensures var t := Current(s); var r := SetTask(s, s.tcb, t.(v1 := t.v1[1..])); t.v1[0] < 2 && Sound(r, Some(t.v1[0])) && Welcome(r, t.v1[0])
  {
    hide Sound;
    SoundTask(s, None, s.tcb);
    TakeSound(s, true);
  }

  lemma HandlerSound(s: State)
    requires WellFormed(s) && I_HANDLERA <= s.tcb <= I_HANDLERB && Sound(s, None)
    ensures Sound(HandlerAct(s), None)
  {
    hide Sound, GoodTask, Welcome;
    var t := Current(s);
    if t.v1 == [] {
      WaitSound(s);
    } else if s.packets[t.v1[0]].a1 > BUFSIZE {
      ReturnWorkSound(s);
      QpktSound(SetTask(s, s.tcb, t.(v1 := t.v1[1..])), t.v1[0]);
    } else if t.v2 == [] {
      WaitSound(s);
    } else {
      SendSound(s);
      QpktSound(Sending(s), t.v2[0]);
    }
  }

  /** A device with a packet in hand sends it back. */
  lemma ReturnSound(s: State)
    requires WellFormed(s) && s.tcb >= I_DEVA && Sound(s, None) && Current(s).v1 != [] && !Current(s).hold
    ensures var t := Current(s); var r := SetTask(s, s.tcb, t.(v1 := [])); Sound(r, Some(t.v1[0])) && Welcome(r, t.v1[0])
    ensures Sound(DevFn(s, None), None)
  {
    hide Sound, InFlight;
    SoundTask(s, None, s.tcb);
    var t := Current(s);
    var p := t.v1[0];
    var after := t.(v1 := []);
    forall x | 0 <= x < 8 ensures Has(after, x) + InFlight(Some(p), x) == Has(t, x) + InFlight(None, x) {
      HasHead(t.v1, x);
      Flies(p, x);
    }
    ChangeTask(s, s.tcb, after, None, Some(p));
    QpktSound(SetTask(s, s.tcb, after), p);
  }

  /** A device that was waiting takes its packet in hand and holds. */
  lemma TakeInHandSound(s: State, p: nat)
    requires WellFormed(s) && s.tcb >= I_DEVA && p < 8 && Sound(s, Some(p)) && Accepts(s.tcb, p, s.packets[p])
    requires Current(s).v1 == [] && !Current(s).wait
    ensures Sound(DevFn(s, Some(p)), None)
  {
    hide Sound, InFlight;
    SoundTask(s, Some(p), s.tcb);
    var t := Current(s);
    var after := t.(v1 := [p], hold := true);
    forall x | 0 <= x < 8 ensures Has(after, x) + InFlight(None, x) == Has(t, x) + InFlight(Some(p), x) {
      HasLast(t.v1, p, x);
      assert t.v1 + [p] == [p];
      Flies(p, x);
    }
    ChangeTask(s, s.tcb, after, Some(p), None);
    SoundFrame(SetTask(s, s.tcb, after), DevFn(s, Some(p)), None);
  }

  /** Holding and releasing. */
  lemma IdleSound(s: State)
    requires WellFormed(s) && s.tcb == I_IDLE && Sound(s, None)
    ensures Sound(IdleFn(s), None)
  {
    hide Sound, AtDevice;
    var id := if s.count - 1 == 0 then I_IDLE else if s.seed & 1 == 0 then I_DEVA else I_DEVB;
    SoundTask(s, None, id);
    var after := s.tasks[id].(hold := id == I_IDLE);
    forall p | 0 <= p < 8 ensures Has(after, p) == Has(s.tasks[id], p) {
    }
    ChangeTask(s, id, after, None, None);
    SoundFrame(SetTask(s, id, after), IdleFn(s), None);
  }

  /** The first packet in a task's queue is one that it accepts. */
  lemma QueuedIsAccepted(i: nat, t: Task, packets: seq<Packet>)
    requires |packets| == 8 && WellFormedTask(t) && 1 <= i <= 6 && GoodTask(i, t, packets) && t.wkq != []
    ensures Accepts(i, t.wkq[0], packets[t.wkq[0]])
  {
    if i >= I_DEVA { assert AtDevice(i, t.wkq[0], packets[t.wkq[0]]); }
  }

  lemma CallSound(s: State, p: nat)
    requires WellFormed(s) && s.tcb > I_IDLE && p < 8 && Sound(s, Some(p)) && Accepts(s.tcb, p, s.packets[p])
    requires s.tcb >= I_DEVA ==> Current(s).v1 == [] && !Current(s).wait
    ensures Sound(Call(s, Some(p)), None)
  {
    hide Sound, WorkFn, HandlerAct, DevFn, Append;
    if s.tcb == I_WORK {
      WorkSound(s, p);
    } else if s.tcb <= I_HANDLERB {
      AppendSound(s, p);
      HandlerSound(Append(s, p));
    } else {
      TakeInHandSound(s, p);
    }
  }

  lemma CallNoneSound(s: State)
    requires WellFormed(s) && s.tcb > 0 && Sound(s, None) && !Current(s).hold
    ensures Sound(Call(s, None), None)
  {
    hide Sound, HandlerAct, IdleFn;
    if s.tcb == I_IDLE {
      IdleSound(s);
    } else if s.tcb == I_WORK {
      WaitSound(s);
    } else if s.tcb <= I_HANDLERB {
      HandlerSound(s);
    } else if Current(s).v1 == [] {
      WaitSound(s);
    } else {
      ReturnSound(s);
    }
  }

  /** A step keeps every packet in exactly one place and every task as it should be. */
  lemma StepSound(s: State)
    requires WellFormed(s) && s.tcb > 0 && Sound(s, None)
    ensures Current(s).pkt ==> Current(s).wkq != []
    ensures Sound(Step(s), None)
  {
    hide Sound, Call, AtDevice, AtHandler;
    SoundTask(s, None, s.tcb);
    var t := Current(s);
    if t.hold || (t.wait && !t.pkt) {
      SoundFrame(s, Step(s), None);
    } else if t.wait {
      DequeueSound(s);
      QueuedIsAccepted(s.tcb, t, s.packets);
      CallSound(Dequeue(s), t.wkq[0]);
    } else {
      CallNoneSound(s);
    }
  }
}
