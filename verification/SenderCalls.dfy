/** What the calls and the worker of src/sender/sender.cpp do one at a time, in every reachable
    state: when a batch is taken, what enqueue drops, how a failed send goes on, and what the
    fields count. */
module SenderCalls {
  import opened Basics
  import opened SenderWire
  import opened SenderCore
  import opened SenderSystem

  // ---------- The batch decision ----------

  /** `e` is `s` with the oldest items of the queue in flight, at most batchSize of them, if a batch
      is due; and otherwise `s` back at the loop's head. */
  ghost predicate TookBatch<J>(o: Options, s: State<J>, e: State<J>, due: bool) {
    && (e.pc.AtConnect? <==> due) && (e.pc.AtHead? <==> !due)
    && InFlight(e.pc) + e.core.queue == s.core.queue
    && |InFlight(e.pc)| == (if due then Min(o.batchSize, |s.core.queue|) else 0)
    && e == s.(pc := e.pc, core := s.core.(queue := e.core.queue))
  }

  lemma WaitTakes<J>(o: Options, s: State<J>, timeReached: bool)
    requires o.maxQueueSize > 0 && s.pc.AtWait?
    ensures TookBatch(o, s, Apply(o, s, WaitReturns(timeReached)),
                      s.core.queue != [] && (|s.core.queue| >= o.batchSize || timeReached || !s.core.running))
  {
    hide Packet, Last, SetLast;
    var queue, n := s.core.queue, BatchCount(o, s.core);
    assert queue[..n] + queue[n..] == queue && [] + queue == queue;
  }

  /** When the worker's wait is over it takes a batch if and only if something is queued and there is
      enough for a batch, the flush time is reached, or stop was called. */
  lemma BatchTakenIff<J>(o: Options, before: seq<Step<J>>, timeReached: bool)
    requires o.maxQueueSize > 0 && Legal(o, Start(), before) && Run(o, Start(), before).pc.AtWait?
    ensures var s := Run(o, Start(), before);
            TookBatch(o, s, Apply(o, s, WaitReturns(timeReached)),
                      s.core.queue != [] && (|s.core.queue| >= o.batchSize || timeReached || !s.core.running))
  {
    hide Legal, Run, TookBatch, Apply;
    WaitTakes(o, Run(o, Start(), before), timeReached);
  }

  // ---------- enqueue ----------

  /** The item `entry` came in between `s` and `e`, and the one enqueued before all others still
      queued went out if there was no room. */
  ghost predicate CameIn<J>(o: Options, s: State<J>, e: State<J>, entry: Entry<J>) {
    && e.core.queue != [] && e.core.queue[|e.core.queue| - 1] == entry && e.pc == s.pc && e.sent == s.sent
    && if |s.core.queue| < o.maxQueueSize then
         e.dropped == s.dropped && multiset(e.core.queue) == multiset(s.core.queue) + multiset{entry}
       else
         && |e.dropped| == |s.dropped| + 1 && e.dropped[..|s.dropped|] == s.dropped
         && var out := e.dropped[|s.dropped|];
            && multiset(e.core.queue) + multiset{out} == multiset(s.core.queue) + multiset{entry}
            && forall k :: 0 <= k < |e.core.queue| ==> out.id < e.core.queue[k].id
  }

  lemma FirstIsOldest<J>(before: seq<Entry<J>>, queue: seq<Entry<J>>, bound: nat)
    requires InOrder(before + queue, bound) && queue != []
    ensures queue[0].id < bound && forall k :: 0 < k < |queue| ==> queue[0].id < queue[k].id
  {
    var line, n := before + queue, |before|;
    assert forall k :: 0 <= k < |queue| ==> line[n + k] == queue[k];
  }

  lemma ShiftBag<E>(queue: seq<E>, entry: E)
    requires queue != []
    ensures multiset(queue[1..] + [entry]) + multiset{queue[0]} == multiset(queue) + multiset{entry}
  {
    assert queue == [queue[0]] + queue[1..];
  }

  lemma EnqueueDrops<J>(o: Options, s: State<J>, j: J)
    requires o.maxQueueSize > 0 && ItemsInv(s)
    ensures CameIn(o, s, Apply(o, s, CallEnqueue(j)), Entry(|s.enqueued|, j))
  {
    hide Numbered, InOrder, Packet;
    var queue, entry := s.core.queue, Entry(|s.enqueued|, j);
    var e := EnqueueStep(o, s, j);
    if |queue| >= o.maxQueueSize {
      FirstIsOldest(s.sent + InFlight(s.pc), queue, |s.enqueued|);
      ShiftBag(queue, entry);
      assert e.dropped == s.dropped + [queue[0]];
    }
  }

  /** enqueue puts the new item behind the others, and with the queue at its limit drops the oldest
      item queued. */
  lemma DropsOldest<J>(o: Options, before: seq<Step<J>>, j: J)
    requires o.maxQueueSize > 0 && Legal(o, Start(), before)
    ensures var s := Run(o, Start(), before); CameIn(o, s, Apply(o, s, CallEnqueue(j)), Entry(|s.enqueued|, j))
  {
    hide Enabled, Apply, BoundInv, WireInv, SocketInv, BackoffInv, ItemsInv, CameIn;
    StartInv<J>(o);
    RunKeepsInv(o, Start(), before);
    EnqueueDrops(o, Run(o, Start(), before), j);
  }

  // ---------- A failed send ----------

  /** A step of the worker. */
  predicate ByWorker<J>(step: Step<J>) {
    !step.CallEnqueue? && !step.CallStop? && !step.FinishStop?
  }

  /** After a failed send the worker puts the batch back, closes the connection and tries to connect
      once, whatever the outcome; nothing is counted as sent. */
  lemma FailedSendGoesOn<J>(o: Options, s: State<J>, a: Step<J>, b: Step<J>, c: Step<J>)
    requires o.maxQueueSize > 0 && Enabled(s, SendFails) && Legal(o, s, [SendFails, a, b, c])
    requires ByWorker(a) && ByWorker(b) && ByWorker(c)
    ensures a.DoRollback? && b.DoClose? && c.Connect?
    ensures var e := Run(o, s, [SendFails, a, b, c]);
            && e.pc == AtHead && e.core.queue == s.pc.batch + s.core.queue && e.sent == s.sent
            && (e.core.open <==> c.ok) && |e.conns| >= |s.conns|
  {
    hide Packet;
    var s1 := Apply(o, s, SendFails);
    assert Legal(o, s1, [a, b, c]) && Run(o, s, [SendFails, a, b, c]) == Run(o, s1, [a, b, c]) by { Unroll(o, s, SendFails, [a, b, c]); }
    Unroll(o, s1, a, [b, c]);
    var s2 := Apply(o, s1, a);
    Unroll(o, s2, b, [c]);
    var s3 := Apply(o, s2, b);
    Unroll(o, s3, c, []);
  }

  lemma Unroll<J>(o: Options, s: State<J>, step: Step<J>, rest: seq<Step<J>>)
    requires o.maxQueueSize > 0 && Legal(o, s, [step] + rest)
    ensures Enabled(s, step) && Legal(o, Apply(o, s, step), rest)
    ensures Run(o, s, [step] + rest) == Run(o, Apply(o, s, step), rest)
    ensures rest == [] ==> Run(o, s, [step] + rest) == Apply(o, s, step)
  {
    hide Enabled, Apply;
    assert ([step] + rest)[1..] == rest;
  }

  // ---------- What the fields count ----------

  /** The items of the enqueue calls. */
  function Arrivals<J>(steps: seq<Step<J>>): seq<J>
    decreases |steps|
  {
    if steps == [] then [] else (if steps[0].CallEnqueue? then [steps[0].j] else []) + Arrivals(steps[1..])
  }

  function FailedConnects<J>(steps: seq<Step<J>>): nat
    decreases |steps|
  {
    if steps == [] then 0 else One(steps[0] == Connect(false)) + FailedConnects(steps[1..])
  }

  /** Failed connects since the last delivery, with `streak` of them before. */
  function FailStreak<J>(steps: seq<Step<J>>, streak: nat): nat
    decreases |steps|
  {
    if steps == [] then streak
    else if steps[0].SendCompletes? then FailStreak(steps[1..], 0)
    else FailStreak(steps[1..], streak + One(steps[0] == Connect(false)))
  }

  lemma CountsStep<J>(o: Options, s: State<J>, step: Step<J>)
    requires o.maxQueueSize > 0 && Enabled(s, step)
    ensures var e := Apply(o, s, step);
            && e.enqueued == s.enqueued + (if step.CallEnqueue? then [step.j] else [])
            && (e.core.running <==> s.core.running && step != CallStop)
            && e.core.reconnectCount == s.core.reconnectCount + One(step == Connect(false))
            && e.fails == if step.SendCompletes? then 0 else s.fails + One(step == Connect(false))
  {
    hide Packet, Last, SetLast, InFlight;
    assert s.enqueued + [] == s.enqueued;
  }

  lemma {:induction false} CountsFrom<J>(o: Options, s: State<J>, steps: seq<Step<J>>)
    requires o.maxQueueSize > 0 && Legal(o, s, steps)
    ensures var e := Run(o, s, steps);
            && e.enqueued == s.enqueued + Arrivals(steps)
            && (e.core.running <==> s.core.running && CallStop !in steps)
            && e.core.reconnectCount == s.core.reconnectCount + FailedConnects(steps)
            && e.fails == FailStreak(steps, s.fails)
    decreases |steps|
  {
    hide Enabled, Apply;
    if steps == [] {
      assert s.enqueued + [] == s.enqueued;
    } else {
      var step, rest := steps[0], steps[1..];
      CountsStep(o, s, step);
      CountsFrom(o, Apply(o, s, step), rest);
      assert steps == [step] + rest;
      var here := if step.CallEnqueue? then [step.j] else [];
      assert s.enqueued + here + Arrivals(rest) == s.enqueued + (here + Arrivals(rest));
    }
  }

  /** Over every run: what was enqueued are the items of the calls in order, the worker is told to
      stop exactly by a call of stop, reconnectCount counts every failed connect, and the backoff
      follows the failed connects since the last delivery. */
  lemma FieldsCount<J>(o: Options, steps: seq<Step<J>>)
    requires o.maxQueueSize > 0 && Legal(o, Start(), steps)
    ensures var e := Run(o, Start(), steps);
            && e.enqueued == Arrivals(steps)
            && (e.core.running <==> CallStop !in steps)
            && e.core.reconnectCount == FailedConnects(steps)
            && e.core.backoff == BackoffAfter(o, FailStreak(steps, 0))
  {
    hide Enabled, Apply, ItemsInv, BoundInv, WireInv, SocketInv, BackoffAfter;
    CountsFrom(o, Start(), steps);
    StartInv<J>(o);
    RunKeepsInv(o, Start(), steps);
    assert [] + Arrivals(steps) == Arrivals(steps);
  }
}
