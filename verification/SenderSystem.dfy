/** The worker thread of src/sender/sender.cpp among callers of enqueue and stop.

    A step is one critical section, one system call or one test of the loop condition. Items
    carry their arrival number and connections the jobs sent whole on them; both are history,
    read by no step. */
module SenderSystem {
  import opened Basics
  import opened SenderWire
  import opened SenderCore

  datatype Entry<J> = Entry(id: nat, item: J)

  /** A batch and the body it was dumped to. */
  datatype Job<J> = Job(batch: seq<Entry<J>>, body: seq<Byte>)

  /** A connection: what the kernel took, the jobs sent whole, and the body whose sending failed
      with the count of its packet's bytes taken before that. */
  datatype Conn<J> = Conn(wire: seq<Byte>, jobs: seq<Job<J>>, cut: Option<(seq<Byte>, nat)>)

  datatype Pc<J> =
    | AtHead
    | AtWait
    | AtConnect(batch: seq<Entry<J>>)
    | AtBuild(batch: seq<Entry<J>>)
    | Sending(batch: seq<Entry<J>>, body: seq<Byte>, off: nat)
    | AtRollback(batch: seq<Entry<J>>, broken: bool)
    | AtClose
    | AtReconnect
    | Exited
    | Joined

  datatype State<J> = State(
    core: Core<Entry<J>>, pc: Pc<J>, conns: seq<Conn<J>>,
    enqueued: seq<J>, sent: seq<Entry<J>>, dropped: seq<Entry<J>>, fails: nat)

  datatype Step<J> =
    | CallEnqueue(j: J)
    | CallStop
    | FinishStop
    | LoopTest
    | WaitReturns(timeReached: bool)
    | SocketIsOpen
    | Connect(ok: bool)
    | Build(body: seq<Byte>)
    | SendTakes(n: nat)
    | SendInterrupted
    | SendFails
    | SendCompletes
    | DoRollback
    | DoClose

  function Start<J>(): State<J> {
    State(New(), AtHead, [], [], [], [], 0)
  }

  predicate Enabled<J>(s: State<J>, step: Step<J>) {
    match step
    case CallEnqueue(_) => true
    case CallStop => true
    case FinishStop => s.pc.Exited?
    case LoopTest => s.pc.AtHead?
    case WaitReturns(_) => s.pc.AtWait?
    case SocketIsOpen => s.pc.AtConnect? && s.core.open
    case Connect(_) => (s.pc.AtConnect? && !s.core.open) || s.pc.AtReconnect?
    case Build(_) => s.pc.AtBuild?
    case SendTakes(n) => s.pc.Sending? && 0 < n && s.pc.off + n <= |Packet(s.pc.body)|
    case SendInterrupted => s.pc.Sending? && s.pc.off < |Packet(s.pc.body)|
    case SendFails => s.pc.Sending? && s.pc.off < |Packet(s.pc.body)|
    case SendCompletes => s.pc.Sending? && s.pc.off == |Packet(s.pc.body)|
    case DoRollback => s.pc.AtRollback?
    case DoClose => s.pc.AtClose?
  }

  function SetLast<J>(conns: seq<Conn<J>>, c: Conn<J>): seq<Conn<J>> {
    if conns == [] then [c] else conns[|conns| - 1 := c]
  }

  function Last<J>(conns: seq<Conn<J>>): Conn<J> {
    if conns == [] then Conn([], [], None) else conns[|conns| - 1]
  }

  function EnqueueStep<J>(o: Options, s: State<J>, j: J): State<J>
    requires o.maxQueueSize > 0
  {
    s.(core := Enqueue(o, s.core, Entry(|s.enqueued|, j)),
       enqueued := s.enqueued + [j],
       dropped := if Full(o, s.core) then s.dropped + [s.core.queue[0]] else s.dropped)
  }

  function WaitStep<J>(o: Options, s: State<J>, timeReached: bool): State<J> {
    if s.core.queue == [] then s.(pc := AtHead)
    else if |s.core.queue| >= o.batchSize || timeReached || !s.core.running then
      var (batch, core) := TakeBatch(o, s.core);
      s.(core := core, pc := AtConnect(batch))
    else s.(pc := AtHead)
  }

  function ConnectStep<J>(o: Options, s: State<J>, ok: bool): State<J>
    requires s.pc.AtConnect? || s.pc.AtReconnect?
  {
    var s' := s.(core := TryReconnect(o, s.core, ok),
                 conns := if ok then s.conns + [Conn([], [], None)] else s.conns,
                 fails := if ok then s.fails else s.fails + 1);
    if s.pc.AtReconnect? then s'.(pc := AtHead)
    else s'.(pc := if ok then AtBuild(s.pc.batch) else AtRollback(s.pc.batch, false))
  }

  function Apply<J>(o: Options, s: State<J>, step: Step<J>): State<J>
    requires o.maxQueueSize > 0 && Enabled(s, step)
  {
    match step
    case CallEnqueue(j) => EnqueueStep(o, s, j)
    case CallStop => s.(core := StopRunning(s.core))
    case FinishStop => s.(core := CloseSocket(s.core), pc := Joined)
    case LoopTest => s.(pc := if s.core.running || s.core.queue != [] then AtWait else Exited)
    case WaitReturns(timeReached) => WaitStep(o, s, timeReached)
    case SocketIsOpen => s.(pc := AtBuild(s.pc.batch))
    case Connect(ok) => ConnectStep(o, s, ok)
    case Build(body) => s.(pc := Sending(s.pc.batch, body, 0))
    case SendTakes(n) =>
      var c := Last(s.conns);
      var to := s.pc.off + n;
      s.(conns := SetLast(s.conns, c.(wire := c.wire + Packet(s.pc.body)[s.pc.off..to])), pc := s.pc.(off := to))
    case SendInterrupted => s
    case SendFails =>
      s.(conns := SetLast(s.conns, Last(s.conns).(cut := Some((s.pc.body, s.pc.off)))), pc := AtRollback(s.pc.batch, true))
    case SendCompletes =>
      var c := Last(s.conns);
      s.(core := Delivered(s.core, s.pc.batch), pc := AtHead, sent := s.sent + s.pc.batch, fails := 0,
         conns := SetLast(s.conns, c.(jobs := c.jobs + [Job(s.pc.batch, s.pc.body)])))
    case DoRollback => s.(core := Rollback(s.core, s.pc.batch), pc := if s.pc.broken then AtClose else AtHead)
    case DoClose => s.(core := CloseSocket(s.core), pc := AtReconnect)
  }

  predicate Legal<J>(o: Options, s: State<J>, steps: seq<Step<J>>)
    requires o.maxQueueSize > 0
    decreases |steps|
  {
    steps == [] || (Enabled(s, steps[0]) && Legal(o, Apply(o, s, steps[0]), steps[1..]))
  }

  function Run<J>(o: Options, s: State<J>, steps: seq<Step<J>>): State<J>
    requires o.maxQueueSize > 0 && Legal(o, s, steps)
    decreases |steps|
  {
    if steps == [] then s else Run(o, Apply(o, s, steps[0]), steps[1..])
  }

  // ---------- Items: conservation and order ----------

  function InFlight<J>(pc: Pc<J>): seq<Entry<J>> {
    match pc
    case AtConnect(batch) => batch
    case AtBuild(batch) => batch
    case Sending(batch, _, _) => batch
    case AtRollback(batch, _) => batch
    case _ => []
  }

  /** Everything sent, then the batch in flight, then the queue. */
  function Line<J>(s: State<J>): seq<Entry<J>> {
    s.sent + InFlight(s.pc) + s.core.queue
  }

  /** The enqueued items with their arrival numbers. */
  function Numbered<J>(items: seq<J>): (es: seq<Entry<J>>)
    ensures |es| == |items|
    ensures forall k :: 0 <= k < |items| ==> es[k] == Entry(k, items[k])
  {
    if items == [] then [] else
      var n := |items| - 1;
      Numbered(items[..n]) + [Entry(n, items[n])]
  }

  ghost predicate InOrder<J>(es: seq<Entry<J>>, bound: nat) {
    && (forall i, j :: 0 <= i < j < |es| ==> es[i].id < es[j].id)
    && (forall i :: 0 <= i < |es| ==> es[i].id < bound)
  }

  ghost predicate ItemsInv<J>(s: State<J>) {
    && InOrder(Line(s), |s.enqueued|)
    && multiset(Line(s)) + multiset(s.dropped) == multiset(Numbered(s.enqueued))
    && s.core.totalSent == |s.sent| && s.core.totalDropped == |s.dropped|
  }

  lemma DropFirst<J>(before: seq<Entry<J>>, queue: seq<Entry<J>>, bound: nat, e: Entry<J>)
    requires queue != [] && InOrder(before + queue, bound) && e.id == bound
    ensures InOrder(before + (queue[1..] + [e]), bound + 1)
    ensures multiset(before + (queue[1..] + [e])) + multiset{queue[0]} == multiset(before + queue) + multiset{e}
  {
    var line, next := before + queue, before + (queue[1..] + [e]);
    assert forall i :: 0 <= i < |before| ==> next[i] == line[i];
    assert forall i :: |before| <= i < |next| - 1 ==> next[i] == line[i + 1];
    assert queue == [queue[0]] + queue[1..];
  }

  lemma AppendLast<J>(before: seq<Entry<J>>, queue: seq<Entry<J>>, bound: nat, e: Entry<J>)
    requires InOrder(before + queue, bound) && e.id == bound
    ensures InOrder(before + (queue + [e]), bound + 1)
    ensures multiset(before + (queue + [e])) == multiset(before + queue) + multiset{e}
  {
    assert before + (queue + [e]) == before + queue + [e];
  }

  lemma NumberedNext<J>(items: seq<J>, j: J)
    ensures Numbered(items + [j]) == Numbered(items) + [Entry(|items|, j)]
  {
    assert (items + [j])[..|items|] == items;
  }

  /** Moving one element between bags and adding another. */
  lemma BagStep<E>(line: multiset<E>, line': multiset<E>, d: multiset<E>, all: multiset<E>, out: multiset<E>, e: multiset<E>)
    requires line' + out == line + e && line + d == all
    ensures line' + (d + out) == all + e
  {
    assert line' + (d + out) == (line' + out) + d;
    assert (line + e) + d == (line + d) + e;
  }

  lemma EnqueueKeepsItems<J>(o: Options, s: State<J>, j: J)
    requires o.maxQueueSize > 0 && ItemsInv(s)
    ensures ItemsInv(EnqueueStep(o, s, j))
  {
    hide InOrder, Numbered;
    var before, queue, n := s.sent + InFlight(s.pc), s.core.queue, |s.enqueued|;
    var e := Entry(n, j);
    var d, line, all := multiset(s.dropped), multiset(before + queue), multiset(Numbered(s.enqueued));
    NumberedNext(s.enqueued, j);
    if Full(o, s.core) {
      DropFirst(before, queue, n, e);
      BagStep(line, multiset(before + (queue[1..] + [e])), d, all, multiset{queue[0]}, multiset{e});
      assert multiset(s.dropped + [queue[0]]) == d + multiset{queue[0]};
    } else {
      AppendLast(before, queue, n, e);
      var line' := multiset(before + (queue + [e]));
      assert line' + multiset{} == line + multiset{e};
      BagStep(line, line', d, all, multiset{}, multiset{e});
      assert d + multiset{} == d;
    }
  }

  lemma StepKeepsItems<J>(o: Options, s: State<J>, step: Step<J>)
    requires o.maxQueueSize > 0 && ItemsInv(s) && Enabled(s, step)
    ensures ItemsInv(Apply(o, s, step))
  {
    hide InOrder, Numbered, Packet;
    if step.CallEnqueue? {
      EnqueueKeepsItems(o, s, step.j);
    } else {
      SameLine(o, s, step);
    }
  }

  /** Nothing but enqueue changes the line: draining, delivering and rolling back only move its
      dividers. */
  lemma SameLine<J>(o: Options, s: State<J>, step: Step<J>)
    requires o.maxQueueSize > 0 && Enabled(s, step) && !step.CallEnqueue?
    ensures Line(Apply(o, s, step)) == Line(s)
    ensures var e := Apply(o, s, step); e.dropped == s.dropped && e.enqueued == s.enqueued
  {
    hide Packet;
    var e := Apply(o, s, step);
    if step.WaitReturns? && e.pc.AtConnect? {
      var n := BatchCount(o, s.core);
      assert s.core.queue == s.core.queue[..n] + s.core.queue[n..];
      assert s.sent + [] + s.core.queue == s.sent + s.core.queue[..n] + s.core.queue[n..];
    } else if step.DoRollback? {
      assert s.sent + s.pc.batch + s.core.queue == s.sent + [] + (s.pc.batch + s.core.queue);
    } else if step.SendCompletes? {
      assert s.sent + s.pc.batch + [] == s.sent + s.pc.batch;
    }
  }

  // ---------- The queue bound ----------

  /** A batch has left the queue and is not yet sent or rolled back. */
  predicate BatchOut<J>(pc: Pc<J>) {
    pc.AtConnect? || pc.AtBuild? || pc.Sending? || pc.AtRollback?
  }

  predicate BoundInv<J>(o: Options, s: State<J>) {
    if BatchOut(s.pc)
    then |s.core.queue| <= o.maxQueueSize && |InFlight(s.pc)| <= o.batchSize
    else |s.core.queue| <= o.maxQueueSize + o.batchSize
  }

  lemma StepKeepsBound<J>(o: Options, s: State<J>, step: Step<J>)
    requires o.maxQueueSize > 0 && BoundInv(o, s) && Enabled(s, step)
    ensures BoundInv(o, Apply(o, s, step))
  {
    hide Packet;
  }

  // ---------- The wire ----------

  function Bodies<J>(jobs: seq<Job<J>>): (bs: seq<seq<Byte>>)
    ensures |bs| == |jobs|
    ensures forall k :: 0 <= k < |jobs| ==> bs[k] == jobs[k].body
  {
    if jobs == [] then [] else
      var n := |jobs| - 1;
      Bodies(jobs[..n]) + [jobs[n].body]
  }

  function Items<J>(jobs: seq<Job<J>>): seq<Entry<J>> {
    if jobs == [] then [] else
      var n := |jobs| - 1;
      Items(jobs[..n]) + jobs[n].batch
  }

  /** The items of the jobs of all connections, in order. */
  function AllItems<J>(conns: seq<Conn<J>>): seq<Entry<J>> {
    if conns == [] then [] else
      var n := |conns| - 1;
      AllItems(conns[..n]) + Items(conns[n].jobs)
  }

  /** What follows the whole packets of a connection: the cut-off packet, if any. */
  function CutPart<J>(c: Conn<J>): seq<Byte> {
    match c.cut
    case Some((body, off)) => if off <= |Packet(body)| then Packet(body)[..off] else []
    case None => []
  }

  predicate CutProper<J>(c: Conn<J>) {
    c.cut.Some? ==> c.cut.value.1 < |Packet(c.cut.value.0)|
  }

  /** The part of the packet being sent that the kernel has taken. */
  function SendingPart<J>(pc: Pc<J>): seq<Byte> {
    if pc.Sending? && pc.off <= |Packet(pc.body)| then Packet(pc.body)[..pc.off] else []
  }

  predicate Whole<J>(c: Conn<J>, part: seq<Byte>) {
    c.wire == Packets(Bodies(c.jobs)) + part
  }

  ghost predicate WireInv<J>(s: State<J>) {
    && (forall i :: 0 <= i < |s.conns| - 1 ==> CutProper(s.conns[i]) && Whole(s.conns[i], CutPart(s.conns[i])))
    && (s.conns != [] ==>
          && CutProper(Last(s.conns))
          && Whole(Last(s.conns), if s.pc.Sending? then SendingPart(s.pc) else CutPart(Last(s.conns))))
    && s.sent == AllItems(s.conns)
  }

  /** When the socket is open, and that a broken connection is never used again. */
  ghost predicate SocketInv<J>(s: State<J>) {
    && (s.core.open ==> s.conns != [])
    && (s.core.open && !(s.pc.AtRollback? && s.pc.broken) && !s.pc.AtClose? ==> Last(s.conns).cut == None)
    && (s.pc.AtBuild? || s.pc.Sending? || (s.pc.AtRollback? && s.pc.broken) || s.pc.AtClose? ==> s.core.open)
    && ((s.pc.AtRollback? && !s.pc.broken) || s.pc.AtReconnect? || s.pc.Joined? ==> !s.core.open)
    && (s.pc.Sending? ==> s.pc.off <= |Packet(s.pc.body)|)
  }

  lemma StepKeepsSocket<J>(o: Options, s: State<J>, step: Step<J>)
    requires o.maxQueueSize > 0 && SocketInv(s) && Enabled(s, step)
    ensures SocketInv(Apply(o, s, step))
    ensures step.Connect? ==> !s.core.open
    ensures step.SendTakes? || step.SendFails? || step.SendCompletes? ==> s.core.open
  {
    hide Packet;
  }

  lemma LastSet<J>(conns: seq<Conn<J>>, c: Conn<J>)
    requires conns != []
    ensures Last(SetLast(conns, c)) == c && |SetLast(conns, c)| == |conns|
    ensures forall i :: 0 <= i < |conns| - 1 ==> SetLast(conns, c)[i] == conns[i]
    ensures AllItems(SetLast(conns, c)) == AllItems(conns[..|conns| - 1]) + Items(c.jobs)
  {
    var n := |conns| - 1;
    assert SetLast(conns, c)[..n] == conns[..n];
  }

  lemma TakesKeepsWire<J>(o: Options, s: State<J>, n: nat)
    requires o.maxQueueSize > 0 && WireInv(s) && SocketInv(s) && Enabled(s, SendTakes(n))
    ensures WireInv(Apply(o, s, SendTakes(n)))
  {
    hide Packet, Packets, AllItems, CutPart;
    var c, packet, off := Last(s.conns), Packet(s.pc.body), s.pc.off;
    var c' := c.(wire := c.wire + packet[off..off + n]);
    LastSet(s.conns, c');
    LastSet(s.conns, c);
    assert SetLast(s.conns, c) == s.conns;
    assert packet[..off] + packet[off..off + n] == packet[..off + n];
    assert Packets(Bodies(c.jobs)) + packet[..off] + packet[off..off + n] == Packets(Bodies(c.jobs)) + (packet[..off] + packet[off..off + n]);
  }

  lemma FailsKeepsWire<J>(o: Options, s: State<J>)
    requires o.maxQueueSize > 0 && WireInv(s) && SocketInv(s) && Enabled(s, SendFails)
    ensures WireInv(Apply(o, s, SendFails))
  {
    hide Packet, Packets, AllItems;
    var c := Last(s.conns);
    LastSet(s.conns, c.(cut := Some((s.pc.body, s.pc.off))));
    LastSet(s.conns, c);
    assert SetLast(s.conns, c) == s.conns;
  }

  /** One more job on a connection: its packet ends the wire, its batch the items. */
  lemma JobDone<J>(c: Conn<J>, job: Job<J>)
    requires Whole(c, Packet(job.body))
    ensures var c' := c.(jobs := c.jobs + [job]);
            Whole(c', []) && Items(c'.jobs) == Items(c.jobs) + job.batch
  {
    hide Packet, Packets;
    var jobs := c.jobs + [job];
    assert jobs[..|c.jobs|] == c.jobs;
    assert Bodies(jobs) == Bodies(c.jobs) + [job.body];
    PacketsAppend(Bodies(c.jobs), job.body);
    assert Packets(Bodies(jobs)) + [] == Packets(Bodies(jobs));
  }

  lemma CompletesKeepsWire<J>(o: Options, s: State<J>)
    requires o.maxQueueSize > 0 && WireInv(s) && SocketInv(s) && Enabled(s, SendCompletes)
    ensures WireInv(Apply(o, s, SendCompletes))
  {
    hide Packet, Packets, AllItems, Whole, Bodies, Items;
    var c, job := Last(s.conns), Job(s.pc.batch, s.pc.body);
    assert Packet(s.pc.body)[..|Packet(s.pc.body)|] == Packet(s.pc.body);
    JobDone(c, job);
    LastSet(s.conns, c.(jobs := c.jobs + [job]));
    LastSet(s.conns, c);
    assert SetLast(s.conns, c) == s.conns;
    var rest := AllItems(s.conns[..|s.conns| - 1]);
    assert rest + (Items(c.jobs) + s.pc.batch) == rest + Items(c.jobs) + s.pc.batch;
  }

  lemma NewConnection<J>(conns: seq<Conn<J>>, c: Conn<J>)
    requires c == Conn([], [], None)
    ensures Last(conns + [c]) == c && AllItems(conns + [c]) == AllItems(conns)
    ensures conns != [] ==> (conns + [c])[|conns| - 1] == Last(conns)
    ensures CutProper(c) && Whole(c, CutPart(c))
  {
    assert (conns + [c])[..|conns|] == conns;
    assert AllItems(conns) + [] == AllItems(conns);
  }

  lemma ConnectKeepsWire<J>(o: Options, s: State<J>, ok: bool)
    requires o.maxQueueSize > 0 && WireInv(s) && SocketInv(s) && Enabled(s, Connect(ok))
    ensures WireInv(Apply(o, s, Connect(ok)))
  {
    hide Packet, Packets, AllItems, CutPart, Whole, CutProper, Last;
    if ok {
      NewConnection(s.conns, Conn([], [], None));
    }
  }

  lemma StepKeepsWire<J>(o: Options, s: State<J>, step: Step<J>)
    requires o.maxQueueSize > 0 && WireInv(s) && SocketInv(s) && Enabled(s, step)
    ensures WireInv(Apply(o, s, step))
  {
    match step {
      case SendTakes(n) => TakesKeepsWire(o, s, n);
      case SendFails => FailsKeepsWire(o, s);
      case SendCompletes => CompletesKeepsWire(o, s);
      case Connect(ok) => ConnectKeepsWire(o, s, ok);
      case Build(body) =>
        hide Packet, Packets;
        assert Packet(body)[..0] == [];
      case _ =>
        hide Packet, Packets, AllItems;
    }
  }

  // ---------- The backoff ----------

  predicate BackoffInv<J>(o: Options, s: State<J>) {
    s.core.backoff == BackoffAfter(o, s.fails)
  }

  lemma StepKeepsBackoff<J>(o: Options, s: State<J>, step: Step<J>)
    requires o.maxQueueSize > 0 && BackoffInv(o, s) && Enabled(s, step)
    ensures BackoffInv(o, Apply(o, s, step))
  {
    hide Packet, BackoffAfter;
    if step.Connect? && !step.ok {
      BackoffDoubles(o, s.fails);
    } else if step.SendCompletes? {
      NoFailures(o);
    }
  }

  lemma NoFailures(o: Options)
    ensures BackoffAfter(o, 0) == 500
  {
  }

  // ---------- Over every run ----------

  ghost predicate Inv<J>(o: Options, s: State<J>) {
    ItemsInv(s) && BoundInv(o, s) && WireInv(s) && SocketInv(s) && BackoffInv(o, s)
  }

  lemma {:induction false} RunKeepsInv<J>(o: Options, s: State<J>, steps: seq<Step<J>>)
    requires o.maxQueueSize > 0 && Inv(o, s) && Legal(o, s, steps)
    ensures Inv(o, Run(o, s, steps))
    decreases |steps|
  {
    hide ItemsInv, BoundInv, WireInv, SocketInv, BackoffInv, Enabled, Apply;
    if steps != [] {
      StepKeepsItems(o, s, steps[0]);
      StepKeepsBound(o, s, steps[0]);
      StepKeepsWire(o, s, steps[0]);
      StepKeepsSocket(o, s, steps[0]);
      StepKeepsBackoff(o, s, steps[0]);
      RunKeepsInv(o, Apply(o, s, steps[0]), steps[1..]);
    }
  }

  lemma StartInv<J>(o: Options)
    ensures Inv(o, Start<J>())
  {
    NoFailures(o);
  }

  /** Conservation and order: every item enqueued is exactly once among those sent, dropped, in
      flight and queued, and sent, in flight and queued together are in arrival order, whatever
      was dropped while a batch was out and rolled back later. */
  lemma NothingLostOrReordered<J>(o: Options, steps: seq<Step<J>>)
    requires o.maxQueueSize > 0 && Legal(o, Start(), steps)
    ensures var e := Run(o, Start(), steps);
            && multiset(e.sent) + multiset(InFlight(e.pc)) + multiset(e.core.queue) + multiset(e.dropped) == multiset(Numbered(e.enqueued))
            && InOrder(e.sent + InFlight(e.pc) + e.core.queue, |e.enqueued|)
            && e.core.totalSent == |e.sent| && e.core.totalDropped == |e.dropped|
  {
    hide Enabled, Apply, BoundInv, WireInv, SocketInv, BackoffInv, InOrder, Numbered;
    StartInv<J>(o);
    RunKeepsInv(o, Start(), steps);
  }

  /** The queue holds at most maxQueueSize items while a batch is out and at most a batch more at
      any time; with the batch in flight the total is never above that either. */
  lemma QueueBounded<J>(o: Options, steps: seq<Step<J>>)
    requires o.maxQueueSize > 0 && Legal(o, Start(), steps)
    ensures var e := Run(o, Start(), steps);
            && |e.core.queue| + |InFlight(e.pc)| <= o.maxQueueSize + o.batchSize
            && (BatchOut(e.pc) ==> |e.core.queue| <= o.maxQueueSize)
  {
    hide Enabled, Apply, ItemsInv, WireInv, SocketInv, BackoffInv;
    StartInv<J>(o);
    RunKeepsInv(o, Start(), steps);
  }

  /** Every body that is, or was being, put on connection `c` is short enough for its prefix. */
  ghost predicate AllFit<J>(c: Conn<J>) {
    (forall k :: 0 <= k < |c.jobs| ==> Fits(c.jobs[k].body)) && (c.cut.Some? ==> Fits(c.cut.value.0))
  }

  /** A receiver on any connection that is not in the middle of a send gets exactly the bodies of
      the jobs completed there: a failed send leaves less than a packet, and nothing follows it.
      The batches of those jobs, over all connections in order, are exactly the items counted as
      sent, so each is received once. */
  lemma ReceiversGetWhatWasSent<J>(o: Options, steps: seq<Step<J>>, i: nat)
    requires o.maxQueueSize > 0 && Legal(o, Start(), steps)
    requires i < |Run(o, Start(), steps).conns| && AllFit(Run(o, Start(), steps).conns[i])
    requires i == |Run(o, Start(), steps).conns| - 1 ==> !Run(o, Start(), steps).pc.Sending?
    ensures var e := Run(o, Start(), steps);
            && Receive(e.conns[i].wire) == (Bodies(e.conns[i].jobs), CutPart(e.conns[i]))
            && e.sent == AllItems(e.conns)
  {
    hide Enabled, Apply, ItemsInv, BoundInv, SocketInv, BackoffInv, AllItems, Receive, Packet, Packets;
    StartInv<J>(o);
    RunKeepsInv(o, Start(), steps);
    var e := Run(o, Start(), steps);
    var c := e.conns[i];
    assert i == |e.conns| - 1 ==> c == Last(e.conns);
    if c.cut.Some? {
      ReceivePackets(Bodies(c.jobs), c.cut.value.0, c.cut.value.1);
    } else {
      assert |Packet([])| > 0 by { FourBytes(0); PacketOfNothing(); }
      ReceivePackets(Bodies(c.jobs), [], 0);
      assert Packet([])[..0] == [];
    }
  }

  lemma PacketOfNothing()
    ensures |Packet([])| == 4
  {
  }

  /** During a send the receiver has the earlier bodies, and the current one once its last byte
      is taken. */
  lemma ReceiverDuringSend<J>(o: Options, steps: seq<Step<J>>)
    requires o.maxQueueSize > 0 && Legal(o, Start(), steps) && Run(o, Start(), steps).pc.Sending?
    requires AllFit(Last(Run(o, Start(), steps).conns)) && Fits(Run(o, Start(), steps).pc.body)
    ensures var e := Run(o, Start(), steps); var jobs := Last(e.conns).jobs;
            Receive(Last(e.conns).wire) ==
              if e.pc.off < |Packet(e.pc.body)| then (Bodies(jobs), Packet(e.pc.body)[..e.pc.off])
              else (Bodies(jobs) + [e.pc.body], [])
  {
    hide Enabled, Apply, ItemsInv, BoundInv, BackoffInv, AllItems, Receive, Packet, Packets;
    StartInv<J>(o);
    RunKeepsInv(o, Start(), steps);
    var e := Run(o, Start(), steps);
    var jobs, packet := Last(e.conns).jobs, Packet(e.pc.body);
    if e.pc.off < |packet| {
      ReceivePackets(Bodies(jobs), e.pc.body, e.pc.off);
    } else {
      assert packet[..e.pc.off] == packet;
      PacketsAppend(Bodies(jobs), e.pc.body);
      var all := Bodies(jobs) + [e.pc.body];
      assert |Packet([])| > 0 by { PacketOfNothing(); }
      ReceivePackets(all, [], 0);
      assert Packets(all) + Packet([])[..0] == Packets(all);
      assert Packet([])[..0] == [];
    }
  }

  /** A call of send, however it ends. */
  predicate IsSend<J>(step: Step<J>) {
    step.SendTakes? || step.SendInterrupted? || step.SendFails?
  }

  /** The socket discipline at every moment of every run: a send happens only on an open
      connection that was never cut, a connect only when none is open; and the sleep between
      attempts doubles with each failure since the last delivery, up to the cap. With a cap from 0
      to 2^30 - 1 the doubling never overflows. */
  lemma SocketDiscipline<J>(o: Options, steps: seq<Step<J>>, next: Step<J>)
    requires o.maxQueueSize > 0 && Legal(o, Start(), steps) && Enabled(Run(o, Start(), steps), next)
    ensures var e := Run(o, Start(), steps);
            && (next.Connect? ==> !e.core.open)
            && (IsSend(next) ==> e.core.open && e.conns != [] && Last(e.conns).cut == None)
            && e.core.backoff == BackoffAfter(o, e.fails)
            && (0 <= o.maxBackoffMs < 0x4000_0000 ==> DoublingFits(e.core.backoff))
  {
    hide Apply, ItemsInv, BoundInv, WireInv, Packet, BackoffAfter, DoublingFits;
    StartInv<J>(o);
    BackoffFitsIff(o);
    RunKeepsInv(o, Start(), steps);
    StepKeepsSocket(o, Run(o, Start(), steps), next);
  }

  /** The worker leaves its loop only when every item ever enqueued has been sent or dropped. */
  lemma ExitIsDrained<J>(o: Options, steps: seq<Step<J>>)
    requires o.maxQueueSize > 0 && Legal(o, Start(), steps)
    requires Run(o, Start(), steps).pc.AtHead? && Apply(o, Run(o, Start(), steps), LoopTest).pc.Exited?
    ensures var e := Run(o, Start(), steps);
            && !e.core.running && e.core.queue == []
            && multiset(e.sent) + multiset(e.dropped) == multiset(Numbered(e.enqueued))
  {
    hide Enabled, BoundInv, WireInv, SocketInv, BackoffInv, InOrder, Numbered;
    StartInv<J>(o);
    RunKeepsInv(o, Start(), steps);
    var e := Run(o, Start(), steps);
    assert Line(e) == e.sent;
  }
}
