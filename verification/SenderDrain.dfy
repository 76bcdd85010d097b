/** Shutting down the worker of src/sender/sender.cpp, and how far its queue and backoff can grow. */
module SenderDrain {
  import opened Basics
  import opened SenderWire
  import opened SenderCore
  import opened SenderSystem
  import SenderObject

  lemma NoSteps<J>(o: Options, s: State<J>)
    requires o.maxQueueSize > 0
    ensures Legal(o, s, []) && Run(o, s, []) == s
  {
  }

  lemma FirstStep<J>(o: Options, s: State<J>, step: Step<J>, rest: seq<Step<J>>) returns (steps: seq<Step<J>>)
    requires o.maxQueueSize > 0 && Enabled(s, step) && Legal(o, Apply(o, s, step), rest)
    ensures steps == [step] + rest && Legal(o, s, steps) && Run(o, s, steps) == Run(o, Apply(o, s, step), rest)
  {
    hide Enabled, Apply;
    steps := [step] + rest;
    assert steps[1..] == rest;
  }

  lemma {:induction false} RunConcat<J>(o: Options, s: State<J>, a: seq<Step<J>>, b: seq<Step<J>>)
    requires o.maxQueueSize > 0 && Legal(o, s, a) && Legal(o, Run(o, s, a), b)
    ensures Legal(o, s, a + b) && Run(o, s, a + b) == Run(o, Run(o, s, a), b)
    decreases |a|
  {
    hide Enabled, Apply;
    if a == [] {
      assert a + b == b;
    } else {
      assert (a + b)[1..] == a[1..] + b;
      RunConcat(o, Apply(o, s, a[0]), a[1..], b);
    }
  }

  // ---------- Draining after stop ----------

  /** A step of the worker on which nothing goes wrong. */
  predicate Smooth<J>(step: Step<J>) {
    match step
    case CallEnqueue(_) => false
    case CallStop => false
    case FinishStop => false
    case Connect(ok) => ok
    case SendFails => false
    case _ => true
  }

  predicate AllSmooth<J>(steps: seq<Step<J>>) {
    forall k :: 0 <= k < |steps| ==> Smooth(steps[k])
  }

  /** The number of batches of `b` items needed for `n` items. */
  function Ceil(n: nat, b: nat): nat
    requires b > 0
    decreases n
  {
    if n == 0 then 0 else if n <= b then 1 else 1 + Ceil(n - b, b)
  }

  lemma {:induction false} CeilIsQuotient(n: nat, b: nat)
    requires b > 0
    ensures Ceil(n, b) * b >= n && (Ceil(n, b) > 0 ==> (Ceil(n, b) - 1) * b < n)
    decreases n
  {
    if n > b {
      CeilIsQuotient(n - b, b);
      var c := Ceil(n - b, b);
      assert Ceil(n, b) == c + 1;
      assert (c + 1) * b == c * b + b;
      assert c > 0;
      assert c * b == (c - 1) * b + b;
    }
  }

  function PacketCount<J>(conns: seq<Conn<J>>): nat {
    if conns == [] then 0 else PacketCount(conns[..|conns| - 1]) + |conns[|conns| - 1].jobs|
  }

  /** The packets still needed: one for a batch that is out, and as many as batches for the queue.
      A batch about to be rolled back counts with the queue it returns to. */
  function Needed<J>(o: Options, s: State<J>): nat
    requires o.batchSize > 0
  {
    if s.pc.AtRollback? then Ceil(|s.pc.batch| + |s.core.queue|, o.batchSize)
    else (if BatchOut(s.pc) then 1 else 0) + Ceil(|s.core.queue|, o.batchSize)
  }

  predicate InLoop<J>(pc: Pc<J>) {
    !pc.Exited? && !pc.Joined?
  }

  /** The items still to be sent. */
  function Unsent<J>(s: State<J>): nat {
    |InFlight(s.pc)| + |s.core.queue|
  }

  predicate BatchInv<J>(s: State<J>) {
    BatchOut(s.pc) ==> InFlight(s.pc) != []
  }

  lemma {:induction false} RunKeepsBatch<J>(o: Options, s: State<J>, steps: seq<Step<J>>)
    requires o.maxQueueSize > 0 && o.batchSize > 0 && BatchInv(s) && Legal(o, s, steps)
    ensures BatchInv(Run(o, s, steps))
    decreases |steps|
  {
    hide Packet;
    if steps != [] {
      RunKeepsBatch(o, Apply(o, s, steps[0]), steps[1..]);
    }
  }

  /** Wherever in its loop the worker is, stopped or not. */
  ghost predicate Sound<J>(s: State<J>) {
    !s.pc.Joined? && SocketInv(s) && BatchInv(s) && (s.pc.Exited? ==> s.core.queue == [])
  }

  /** Every reachable state with the worker in its loop is one of these. */
  lemma ReachableIsSound<J>(o: Options, before: seq<Step<J>>)
    requires o.maxQueueSize > 0 && o.batchSize > 0 && Legal(o, Start(), before)
    requires InLoop(Run(o, Start(), before).pc)
    ensures Sound(Run(o, Start(), before))
  {
    hide Enabled, Apply, ItemsInv, BoundInv, WireInv, SocketInv, BackoffInv;
    StartInv<J>(o);
    RunKeepsInv(o, Start(), before);
    RunKeepsBatch(o, Start(), before);
  }

  lemma CountSetLast<J>(conns: seq<Conn<J>>, c: Conn<J>)
    requires conns != []
    ensures PacketCount(SetLast(conns, c)) == PacketCount(conns) - |Last(conns).jobs| + |c.jobs|
  {
    var n := |conns| - 1;
    assert SetLast(conns, c)[..n] == conns[..n];
  }

  lemma OneMoreConnection<J>(conns: seq<Conn<J>>)
    ensures PacketCount(conns + [Conn([], [], None)]) == PacketCount(conns)
  {
    assert (conns + [Conn([], [], None)])[..|conns|] == conns;
  }

  /** A completed send adds one packet; no other smooth step adds any. */
  lemma SmoothCount<J>(o: Options, s: State<J>, step: Step<J>)
    requires o.maxQueueSize > 0 && SocketInv(s) && Enabled(s, step) && Smooth(step)
    ensures PacketCount(Apply(o, s, step).conns) == PacketCount(s.conns) + if step.SendCompletes? then 1 else 0
  {
    hide Packet, PacketCount;
    if step.SendTakes? {
      var c := Last(s.conns);
      CountSetLast(s.conns, c.(wire := c.wire + Packet(s.pc.body)[s.pc.off..s.pc.off + step.n]));
    } else if step.SendCompletes? {
      var c := Last(s.conns);
      CountSetLast(s.conns, c.(jobs := c.jobs + [Job(s.pc.batch, s.pc.body)]));
    } else if step.Connect? {
      OneMoreConnection(s.conns);
    }
  }

  lemma DrainStep<J>(o: Options, s: State<J>, step: Step<J>)
    requires o.maxQueueSize > 0 && o.batchSize > 0 && Sound(s) && Enabled(s, step) && Smooth(step)
    ensures var e := Apply(o, s, step);
            && Sound(e) && e.core.running == s.core.running && Line(e) == Line(s) && e.dropped == s.dropped
            && PacketCount(e.conns) + Needed(o, e) == PacketCount(s.conns) + Needed(o, s)
  {
    hide Packet, PacketCount, SocketInv;
    SameLine(o, s, step);
    StepKeepsSocket(o, s, step);
    SmoothCount(o, s, step);
  }

  lemma {:induction false} DrainRun<J>(o: Options, s: State<J>, steps: seq<Step<J>>)
    requires o.maxQueueSize > 0 && o.batchSize > 0 && Sound(s) && Legal(o, s, steps) && AllSmooth(steps)
    ensures var e := Run(o, s, steps);
            && Sound(e) && Line(e) == Line(s) && e.dropped == s.dropped
            && PacketCount(e.conns) + Needed(o, e) == PacketCount(s.conns) + Needed(o, s)
    decreases |steps|
  {
    hide Sound, Needed, PacketCount, Line, Enabled, Apply;
    if steps != [] {
      DrainStep(o, s, steps[0]);
      DrainRun(o, Apply(o, s, steps[0]), steps[1..]);
    }
  }

  /** Wherever in its loop stop finds the worker: with no more enqueues and no further failures it
      leaves the loop after exactly the packets needed then, and everything in flight and queued
      has been sent in order. */
  lemma StopDrains<J>(o: Options, before: seq<Step<J>>, steps: seq<Step<J>>)
    requires o.maxQueueSize > 0 && o.batchSize > 0 && Legal(o, Start(), before)
    requires InLoop(Run(o, Start(), before).pc)
    requires Legal(o, Run(o, Start(), before), steps) && AllSmooth(steps)
    requires Run(o, Run(o, Start(), before), steps).pc.Exited?
    ensures var s := Run(o, Start(), before); var e := Run(o, s, steps);
            && PacketCount(e.conns) == PacketCount(s.conns) + Needed(o, s)
            && e.sent == s.sent + InFlight(s.pc) + s.core.queue && e.dropped == s.dropped
  {
    hide Enabled, Apply, PacketCount, SocketInv;
    ReachableIsSound(o, before);
    var s := Run(o, Start(), before);
    DrainRun(o, s, steps);
    var e := Run(o, s, steps);
    assert Line(e) == e.sent + [] + [] == e.sent;
  }

  /** The stages of one round, later stages lower. */
  function Stage<J>(s: State<J>): nat {
    match s.pc
    case AtRollback(_, _) => 12
    case AtClose => 11
    case AtReconnect => 10
    case AtWait => if s.core.queue == [] then 9 else 7
    case AtHead => 8
    case AtConnect(_) => 6
    case AtBuild(_) => 5
    case Sending(_, _, _) => 4
    case _ => 3
  }

  function Remaining<J>(pc: Pc<J>): int {
    if pc.Sending? then |Packet(pc.body)| - pc.off else 0
  }

  /** A measure on which `e` is below `s`. */
  predicate Nearer<J>(e: State<J>, s: State<J>) {
    || Unsent(e) < Unsent(s)
    || (Unsent(e) == Unsent(s) && Stage(e) < Stage(s))
    || (Unsent(e) == Unsent(s) && Stage(e) == Stage(s) && Remaining(e.pc) < Remaining(s.pc))
  }

  /** A smooth step to take next. */
  function NextSmooth<J>(s: State<J>): Step<J> {
    match s.pc
    case AtHead => LoopTest
    case AtWait => WaitReturns(true)
    case AtConnect(_) => if s.core.open then SocketIsOpen else Connect(true)
    case AtBuild(_) => Build([])
    case Sending(_, body, off) => if off < |Packet(body)| then SendTakes(1) else SendCompletes
    case AtRollback(_, _) => DoRollback
    case AtClose => DoClose
    case AtReconnect => Connect(true)
    case _ => LoopTest
  }

  /** A look at a queue below the batch size, before its time and before stop. */
  predicate Lingers<J>(o: Options, s: State<J>, step: Step<J>) {
    step == WaitReturns(false) && s.core.running && |s.core.queue| < o.batchSize
  }

  /** Before stop, as long as items are unsent, and after stop in any case, every smooth step brings
      the end nearer unless it is an interrupted send or a wait with too few items; and until the
      exit there is always one to take. So sending and draining terminate. */
  lemma DrainTerminates<J>(o: Options, s: State<J>, step: Step<J>)
    requires o.maxQueueSize > 0 && o.batchSize > 0 && Sound(s)
    ensures Remaining(s.pc) >= 0
    ensures (Enabled(s, step) && Smooth(step) && !step.SendInterrupted? && !Lingers(o, s, step)
             && (!s.core.running || Unsent(s) > 0)) ==> Nearer(Apply(o, s, step), s)
    ensures InLoop(s.pc) ==> var next := NextSmooth(s);
      Enabled(s, next) && Smooth(next) && !next.SendInterrupted? && !Lingers(o, s, next)
  {
    hide Packet;
  }

  /** From every such state the worker can still leave its loop after stop without a failure, and
      can before stop send everything in order. */
  lemma {:induction false} DrainExists<J>(o: Options, s: State<J>) returns (steps: seq<Step<J>>)
    requires o.maxQueueSize > 0 && o.batchSize > 0 && Sound(s)
    ensures Legal(o, s, steps) && AllSmooth(steps)
    ensures var e := Run(o, s, steps); if s.core.running then Unsent(e) == 0 && e.sent == Line(s) else e.pc.Exited?
    decreases Unsent(s), Stage(s), Remaining(s.pc)
  {
    hide Packet, Enabled, Apply, SocketInv, Stage, Remaining, NextSmooth, Smooth, Lingers;
    NoSteps(o, s);
    if s.core.running && Unsent(s) == 0 {
      steps := [];
      assert s.sent + [] + [] == s.sent;
    } else if s.pc.Exited? {
      steps := [];
    } else {
      var step := NextSmooth(s);
      DrainTerminates(o, s, step);
      DrainStep(o, s, step);
      var next := Apply(o, s, step);
      DrainTerminates(o, next, step);
      var rest := DrainExists(o, next);
      steps := FirstStep(o, s, step, rest);
    }
  }

  // ---------- When the worker leaves its loop ----------

  predicate NoEnqueues<J>(steps: seq<Step<J>>) {
    forall k :: 0 <= k < |steps| ==> !steps[k].CallEnqueue?
  }

  lemma {:induction false} SameLineRun<J>(o: Options, s: State<J>, steps: seq<Step<J>>)
    requires o.maxQueueSize > 0 && Legal(o, s, steps) && NoEnqueues(steps) && !s.core.running
    requires InLoop(s.pc) || s.core.queue == []
    ensures var e := Run(o, s, steps);
            Line(e) == Line(s) && !e.core.running && (InLoop(e.pc) || e.core.queue == [])
    decreases |steps|
  {
    hide Packet, Line;
    if steps != [] {
      SameLine(o, s, steps[0]);
      SameLineRun(o, Apply(o, s, steps[0]), steps[1..]);
    }
  }

  /** After stop and without enqueues, whatever fails on the way: the worker is out of its loop
      only if all that was in flight or queued has been sent in order, and at the loop's head its
      next test ends the loop exactly then. */
  lemma ExitsIffAllSent<J>(o: Options, s: State<J>, steps: seq<Step<J>>)
    requires o.maxQueueSize > 0 && !s.core.running && InLoop(s.pc) && Legal(o, s, steps) && NoEnqueues(steps)
    ensures var e := Run(o, s, steps); var all := s.sent + InFlight(s.pc) + s.core.queue;
            && (!InLoop(e.pc) ==> e.sent == all)
            && (e.pc.AtHead? ==> (Apply(o, e, LoopTest).pc.Exited? <==> e.sent == all))
  {
    hide Legal, Run;
    SameLineRun(o, s, steps);
    var e := Run(o, s, steps);
    if e.pc.AtHead? || !InLoop(e.pc) {
      assert Line(e) == e.sent + e.core.queue;
      assert e.core.queue == [] ==> Line(e) == e.sent;
      assert e.sent == Line(e) ==> |e.core.queue| == 0;
    }
  }

  predicate NoneCompletes<J>(steps: seq<Step<J>>) {
    forall k :: 0 <= k < |steps| ==> !steps[k].SendCompletes?
  }

  lemma UnsentStep<J>(o: Options, s: State<J>, step: Step<J>)
    requires o.maxQueueSize > 0 && Enabled(s, step) && !step.SendCompletes? && InLoop(s.pc) && Unsent(s) > 0
    ensures var e := Apply(o, s, step); InLoop(e.pc) && Unsent(e) > 0 && e.sent == s.sent
  {
    hide Packet;
  }

  /** As long as no send is completed, whether the server cannot be reached or lets every packet
      fail, a worker with items in flight or queued never leaves its loop, stopped or not: stop()
      does not return, and nothing counts as sent. */
  lemma {:induction false} NothingSentNeverExits<J>(o: Options, s: State<J>, steps: seq<Step<J>>)
    requires o.maxQueueSize > 0 && Legal(o, s, steps) && NoneCompletes(steps) && InLoop(s.pc) && Unsent(s) > 0
    ensures var e := Run(o, s, steps); InLoop(e.pc) && Unsent(e) > 0 && e.sent == s.sent
    decreases |steps|
  {
    hide Enabled, Apply, Unsent, InLoop;
    if steps != [] {
      UnsentStep(o, s, steps[0]);
      NothingSentNeverExits(o, Apply(o, s, steps[0]), steps[1..]);
    }
  }

  /** Every attempt to connect fails. */
  predicate Unreachable<J>(steps: seq<Step<J>>) {
    forall k :: 0 <= k < |steps| ==> !(steps[k].Connect? && steps[k].ok)
  }

  /** There is no connection. */
  predicate Unconnected<J>(s: State<J>) {
    !s.core.open && !s.pc.AtBuild? && !s.pc.Sending? && !s.pc.AtClose? && !(s.pc.AtRollback? && s.pc.broken)
  }

  lemma {:induction false} UnreachableCompletesNone<J>(o: Options, s: State<J>, steps: seq<Step<J>>)
    requires o.maxQueueSize > 0 && Unconnected(s) && Legal(o, s, steps) && Unreachable(steps)
    ensures NoneCompletes(steps) && Unconnected(Run(o, s, steps))
    decreases |steps|
  {
    hide Packet;
    if steps != [] {
      var rest := steps[1..];
      UnreachableCompletesNone(o, Apply(o, s, steps[0]), rest);
      assert forall k :: 0 < k < |steps| ==> steps[k] == rest[k - 1];
    }
  }

  /** So it is while every attempt to connect fails. */
  lemma UnreachableNeverExits<J>(o: Options, s: State<J>, steps: seq<Step<J>>)
    requires o.maxQueueSize > 0 && Unconnected(s) && InLoop(s.pc) && Unsent(s) > 0
    requires Legal(o, s, steps) && Unreachable(steps)
    ensures var e := Run(o, s, steps); InLoop(e.pc) && Unsent(e) > 0 && e.sent == s.sent && Unconnected(e)
  {
    hide Legal, Run;
    UnreachableCompletesNone(o, s, steps);
    NothingSentNeverExits(o, s, steps);
  }

  /** One round against a server that accepts connections and lets every send fail. */
  lemma RefusedRound<J>(o: Options, s: State<J>) returns (steps: seq<Step<J>>)
    requires o.maxQueueSize > 0 && s.pc.AtHead? && s.core.open && s.core.queue != []
    ensures Legal(o, s, steps) && |steps| == 8 && forall k :: 0 <= k < 8 ==> steps[k].Connect? ==> steps[k].ok
    ensures var e := Run(o, s, steps); e.core == s.core && e.pc == s.pc && e.sent == s.sent
  {
    hide Legal, Run;
    var s1 := Apply(o, s, LoopTest);
    var s2 := Apply(o, s1, WaitReturns(true));
    var s3 := Apply(o, s2, SocketIsOpen);
    var s4 := Apply(o, s3, Build([]));
    var s5 := Apply(o, s4, SendFails);
    var s6 := Apply(o, s5, DoRollback);
    var s7 := Apply(o, s6, DoClose);
    NoSteps(o, Apply(o, s7, Connect(true)));
    steps := FirstStep(o, s7, Connect(true), []);
    steps := FirstStep(o, s6, DoClose, steps);
    steps := FirstStep(o, s5, DoRollback, steps);
    steps := FirstStep(o, s4, SendFails, steps);
    steps := FirstStep(o, s3, Build([]), steps);
    steps := FirstStep(o, s2, SocketIsOpen, steps);
    steps := FirstStep(o, s1, WaitReturns(true), steps);
    steps := FirstStep(o, s, LoopTest, steps);
    var n := BatchCount(o, s.core);
    assert s.core.queue[..n] + s.core.queue[n..] == s.core.queue;
  }

  /** Such a server keeps a stopped worker going for any number of rounds, with no connect ever
      failing. */
  lemma {:induction false} RefusedForever<J>(o: Options, s: State<J>, n: nat) returns (steps: seq<Step<J>>)
    requires o.maxQueueSize > 0 && s.pc.AtHead? && s.core.open && s.core.queue != []
    ensures Legal(o, s, steps) && |steps| == 8 * n && forall k :: 0 <= k < |steps| && steps[k].Connect? ==> steps[k].ok
    ensures var e := Run(o, s, steps); e.core == s.core && e.pc == s.pc && e.sent == s.sent
    decreases n
  {
    hide Enabled, Apply;
    if n == 0 {
      steps := [];
    } else {
      var round := RefusedRound(o, s);
      var rest := RefusedForever(o, Run(o, s, round), n - 1);
      RunConcat(o, s, round, rest);
      steps := round + rest;
    }
  }

  lemma ZeroBatchStep<J>(o: Options, s: State<J>, step: Step<J>)
    requires o.maxQueueSize > 0 && o.batchSize == 0 && Enabled(s, step)
    requires InLoop(s.pc) && InFlight(s.pc) == [] && s.core.queue != []
    ensures var e := Apply(o, s, step);
            InLoop(e.pc) && InFlight(e.pc) == [] && e.core.queue != [] && e.sent == s.sent
  {
    hide Packet, Last, SetLast;
    if step.WaitReturns? {
      assert s.core.queue[..0] == [] && s.core.queue[0..] == s.core.queue;
    } else if step.DoRollback? {
      assert [] + s.core.queue == s.core.queue;
    } else if step.SendCompletes? {
      assert s.sent + [] == s.sent;
    }
  }

  /** With a batchSize of zero a worker with items queued sends empty batches: whatever the server
      takes, it never leaves its loop and no item is sent. */
  lemma {:induction false} ZeroBatchNeverExits<J>(o: Options, s: State<J>, steps: seq<Step<J>>)
    requires o.maxQueueSize > 0 && o.batchSize == 0 && Legal(o, s, steps)
    requires InLoop(s.pc) && InFlight(s.pc) == [] && s.core.queue != []
    ensures var e := Run(o, s, steps); InLoop(e.pc) && e.core.queue != [] && e.sent == s.sent
    decreases |steps|
  {
    hide Enabled, Apply, InLoop, InFlight;
    if steps != [] {
      ZeroBatchStep(o, s, steps[0]);
      ZeroBatchNeverExits(o, Apply(o, s, steps[0]), steps[1..]);
    }
  }

  // ---------- sendAll as steps ----------

  lemma Regroup(a: seq<Byte>, b: seq<Byte>, c: seq<Byte>)
    ensures a + b + c == a + (b + c)
  {
  }

  /** The loop of sendAll, against any replies of the kernel, is a run of the send steps: it puts
      the same bytes on the wire and ends with the packet complete, or with the batch about to be
      rolled back on a connection about to be closed. */
  lemma {:induction false} SendAllIsARun<J>(o: Options, s: State<J>, replies: seq<SenderObject.Reply>) returns (steps: seq<Step<J>>)
    requires o.maxQueueSize > 0 && s.pc.Sending? && s.pc.off <= |Packet(s.pc.body)| && s.conns != []
    ensures Legal(o, s, steps)
    ensures var e := Run(o, s, steps); var (ok, taken) := SenderObject.SendAll(Packet(s.pc.body)[s.pc.off..], replies);
            && e.core == s.core && |e.conns| == |s.conns|
            && Last(e.conns).wire == Last(s.conns).wire + taken
            && e.pc == if ok then s.pc.(off := |Packet(s.pc.body)|) else AtRollback(s.pc.batch, true)
    decreases |replies|
  {
    hide Packet, Legal, Run;
    var packet, off := Packet(s.pc.body), s.pc.off;
    var data := packet[off..];
    NoSteps(o, s);
    assert Last(s.conns).wire + [] == Last(s.conns).wire;
    if data == [] {
      steps := [];
    } else if replies == [] || replies[0].Refused? || (replies[0].Took? && replies[0].n == 0) {
      NoSteps(o, Apply(o, s, SendFails));
      steps := FirstStep(o, s, SendFails, []);
    } else if replies[0].Interrupted? {
      var rest := SendAllIsARun(o, s, replies[1..]);
      steps := FirstStep(o, s, SendInterrupted, rest);
    } else {
      var k := Min(replies[0].n, |data|);
      var next := Apply(o, s, SendTakes(k));
      var rest := SendAllIsARun(o, next, replies[1..]);
      steps := FirstStep(o, s, SendTakes(k), rest);
      assert data[..k] == packet[off..off + k] && data[k..] == packet[off + k..];
      Regroup(Last(s.conns).wire, data[..k], SenderObject.SendAll(data[k..], replies[1..]).1);
    }
  }

  // ---------- The bound is reached ----------

  function Enqueues<J>(j: J, k: nat): seq<Step<J>> {
    if k == 0 then [] else [CallEnqueue(j)] + Enqueues(j, k - 1)
  }

  lemma {:induction false} FillUp<J>(o: Options, s: State<J>, j: J, k: nat)
    requires o.maxQueueSize > 0 && |s.core.queue| + k <= o.maxQueueSize
    ensures Legal(o, s, Enqueues(j, k))
    ensures var e := Run(o, s, Enqueues(j, k));
            |e.core.queue| == |s.core.queue| + k && e.pc == s.pc && e.core.open == s.core.open && e.core.running == s.core.running && e.fails == s.fails
    decreases k
  {
    if k > 0 {
      var next := Apply(o, s, CallEnqueue(j));
      FillUp(o, next, j, k - 1);
      assert Enqueues(j, k)[1..] == Enqueues(j, k - 1);
    }
  }

  /** At the loop's head, without a connection. */
  predicate Offline<J>(s: State<J>) {
    s.pc.AtHead? && !s.core.open && s.core.running
  }

  /** One round while offline: drain, let callers fill the queue, fail to connect, roll back. */
  lemma OfflineRound<J>(o: Options, s: State<J>, j: J) returns (steps: seq<Step<J>>)
    requires o.maxQueueSize > 0 && Offline(s) && s.core.queue != [] && |s.core.queue| <= o.maxQueueSize + o.batchSize
    ensures Legal(o, s, steps) && Offline(Run(o, s, steps))
    ensures |Run(o, s, steps).core.queue| == o.maxQueueSize + Min(o.batchSize, |s.core.queue|)
    ensures Run(o, s, steps).fails == s.fails + 1
  {
    hide Packet;
    var s1 := Apply(o, s, LoopTest);
    var s2 := Apply(o, s1, WaitReturns(true));
    var first: seq<Step<J>> := [LoopTest, WaitReturns(true)];
    assert first[1..] == [WaitReturns(true)] && first[1..][1..] == [];
    assert Legal(o, s1, [WaitReturns(true)]) && Run(o, s1, [WaitReturns(true)]) == s2;
    assert Legal(o, s, first) && Run(o, s, first) == s2;
    var k := o.maxQueueSize - |s2.core.queue|;
    FillUp(o, s2, j, k);
    RunConcat(o, s, first, Enqueues(j, k));
    var s3 := Run(o, s2, Enqueues(j, k));
    var s4 := Apply(o, s3, Connect(false));
    var s5 := Apply(o, s4, DoRollback);
    var last: seq<Step<J>> := [Connect(false), DoRollback];
    assert last[1..] == [DoRollback] && last[1..][1..] == [];
    assert Legal(o, s4, [DoRollback]) && Run(o, s4, [DoRollback]) == s5;
    assert Legal(o, s3, last) && Run(o, s3, last) == s5;
    RunConcat(o, s, first + Enqueues(j, k), last);
    steps := first + Enqueues(j, k) + last;
  }

  lemma {:induction false} OfflineRounds<J>(o: Options, s: State<J>, j: J) returns (steps: seq<Step<J>>)
    requires o.maxQueueSize > 0 && Offline(s) && o.maxQueueSize <= |s.core.queue| <= o.maxQueueSize + o.batchSize
    ensures Legal(o, s, steps) && |Run(o, s, steps).core.queue| == o.maxQueueSize + o.batchSize
    decreases o.maxQueueSize + o.batchSize - |s.core.queue|
  {
    hide Enabled, Apply;
    if |s.core.queue| == o.maxQueueSize + o.batchSize {
      steps := [];
    } else {
      var round := OfflineRound(o, s, j);
      var rest := OfflineRounds(o, Run(o, s, round), j);
      RunConcat(o, s, round, rest);
      steps := round + rest;
    }
  }

  /** The bound of QueueBounded is exact: for all options some run fills the queue to a whole
      batch above maxQueueSize. */
  lemma BoundIsReached<J>(o: Options, j: J) returns (steps: seq<Step<J>>)
    requires o.maxQueueSize > 0
    ensures Legal(o, Start(), steps)
    ensures |Run(o, Start(), steps).core.queue| == o.maxQueueSize + o.batchSize
  {
    hide Enabled, Apply;
    var s: State<J> := Start();
    FillUp(o, s, j, o.maxQueueSize);
    var full := Run(o, s, Enqueues(j, o.maxQueueSize));
    var rest := OfflineRounds(o, full, j);
    RunConcat(o, s, Enqueues(j, o.maxQueueSize), rest);
    steps := Enqueues(j, o.maxQueueSize) + rest;
  }
  // ---------- The backoff ----------

  lemma {:induction false} OfflineFailures<J>(o: Options, s: State<J>, j: J, k: nat) returns (steps: seq<Step<J>>)
    requires o.maxQueueSize > 0 && Offline(s) && 0 < |s.core.queue| <= o.maxQueueSize + o.batchSize
    ensures Legal(o, s, steps) && Run(o, s, steps).fails == s.fails + k
    decreases k
  {
    hide Enabled, Apply;
    if k == 0 {
      steps := [];
    } else {
      var round := OfflineRound(o, s, j);
      var rest := OfflineFailures(o, Run(o, s, round), j, k - 1);
      RunConcat(o, s, round, rest);
      steps := round + rest;
    }
  }

  lemma BackoffReached<J>(o: Options, j: J, k: nat) returns (steps: seq<Step<J>>)
    requires o.maxQueueSize > 0
    ensures Legal(o, Start(), steps) && Run(o, Start(), steps).core.backoff == BackoffAfter(o, k)
  {
    hide Enabled, Apply, ItemsInv, BoundInv, WireInv, SocketInv, BackoffAfter;
    var s: State<J> := Start();
    FillUp(o, s, j, 1);
    var one := Run(o, s, Enqueues(j, 1));
    var rest := OfflineFailures(o, one, j, k);
    RunConcat(o, s, Enqueues(j, 1), rest);
    steps := Enqueues(j, 1) + rest;
    StartInv<J>(o);
    RunKeepsInv(o, s, steps);
  }

  /** The doubling of the backoff stays within an int on every run exactly when maxBackoffMs is
      from 0 to 2^30 - 1. */
  lemma BackoffNeverOverflowsIff<J>(o: Options, j: J)
    requires o.maxQueueSize > 0
    ensures (forall steps: seq<Step<J>> :: Legal(o, Start(), steps) ==> DoublingFits(Run(o, Start(), steps).core.backoff))
            <==> 0 <= o.maxBackoffMs < 0x4000_0000
  {
    hide Enabled, Apply, ItemsInv, BoundInv, WireInv, SocketInv, BackoffAfter, DoublingFits;
    BackoffFitsIff(o);
    if 0 <= o.maxBackoffMs < 0x4000_0000 {
      forall steps: seq<Step<J>> | Legal(o, Start(), steps) ensures DoublingFits(Run(o, Start(), steps).core.backoff) {
        StartInv<J>(o);
        RunKeepsInv(o, Start(), steps);
      }
    } else {
      var k: nat :| !DoublingFits(BackoffAfter(o, k));
      var steps := BackoffReached(o, j, k);
    }
  }
}
