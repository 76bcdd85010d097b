/** What the shutdown of DBConnectionPool in src/core/db/db_operator.cpp does to the callers and
    deleters still inside it. The predicate callers wait with does not look at the shutdown flag,
    and the destructor waits for leases, not for callers or deleters. */
module PoolShutdown {
  import opened Basics
  import opened PoolSpec
  import opened PoolSystem

  // ---------- Callers left asleep ----------

  /** After the destructor has notified all callers, and with no agent able to move by itself, a
      caller is parked beside an idle connection. Only its time-out gets it out. */
  predicate LeftAsleep(s: State) {
    && s.pool.shuttingDown && s.exit != FlagSet && Quiet(s)
    && s.pool.idle != [] && Count(s.agents, KWaiting) > 0
  }

  /** Nothing is idle, some lease is out, and at least two callers are in their wait. */
  predicate MayOversleep(s: State) {
    && s.pool.idle == [] && Count(s.agents, KHolding) > 0
    && Count(s.agents, KWaiting) + Count(s.agents, KWoken) >= 2
  }

  /** Kept by every step after shutdown: the pool only fills, leases and callers only leave, and a
      caller parked beside an idle connection is the only caller and has a notification coming. */
  predicate Watched(s: State) {
    && s.pool.shuttingDown && (s.exit != Destroyed ==> !MayOversleep(s))
    && (s.exit != FlagSet && s.pool.idle != [] && Count(s.agents, KWaiting) > 0 ==>
          Count(s.agents, KOwesCv) > 0 && Count(s.agents, KWaiting) + Count(s.agents, KWoken) <= 1)
  }

  lemma NotifyKeepsWatched(s: State, step: Step)
    requires Watched(s) && Enabled(s, step) && step.NotifyCv?
    ensures Watched(Apply(s, step))
  {
    hide Count;
    var mid := s.agents[step.t := AtFlag];
    Moved(s.agents, step.t, AtFlag);
    if step.woken.Some? {
      assert mid[step.woken.value] == s.agents[step.woken.value];
      Moved(mid, step.woken.value, Woken);
    }
  }

  lemma AgentKeepsWatched(s: State, step: Step)
    requires Watched(s) && Enabled(s, step)
    requires step.Get? || step.Retry? || step.Expire? || step.SpuriousGet? || step.ReadFlag? || step.NotifyExit? || step.GiveBack?
    ensures Watched(Apply(s, step))
  {
    hide Count;
    var e := Apply(s, step);
    var pc := e.agents[step.t];
    assert e.agents == s.agents[step.t := pc];
    Moved(s.agents, step.t, pc);
    assert forall k :: Count(e.agents, k) == Count(s.agents, k) - One(KindOf(s.agents[step.t]) == k) + One(KindOf(pc) == k);
  }

  lemma StepKeepsWatched(s: State, step: Step)
    requires Watched(s) && Enabled(s, step)
    ensures Watched(Apply(s, step))
  {
    hide Count;
    match step {
      case NotifyCv(_, _) => NotifyKeepsWatched(s, step);
      case NotifyAllCv =>
        WakeAllCounts(s.agents, KWaiting);
        WakeAllCounts(s.agents, KWoken);
        WakeAllCounts(s.agents, KHolding);
      case BeginShutdown =>
      case CheckExit =>
      case SpuriousExit =>
      case _ => AgentKeepsWatched(s, step);
    }
  }

  lemma {:induction false} RunKeepsWatched(s: State, steps: seq<Step>)
    requires Watched(s) && Legal(s, steps)
    ensures Watched(Run(s, steps))
    decreases |steps|
  {
    hide Watched, Enabled, Apply;
    if steps != [] {
      StepKeepsWatched(s, steps[0]);
      RunKeepsWatched(Apply(s, steps[0]), steps[1..]);
    }
  }

  /** A first step before a run. */
  lemma Then(s: State, step: Step, rest: seq<Step>) returns (steps: seq<Step>)
    requires Enabled(s, step) && Legal(Apply(s, step), rest)
    ensures Legal(s, steps) && Run(s, steps) == Run(Apply(s, step), rest)
  {
    hide Enabled, Apply;
    steps := [step] + rest;
    assert steps[1..] == rest;
  }

  lemma SomeAgent(s: State, k: Kind) returns (t: nat)
    requires Count(s.agents, k) > 0
    ensures AgentAt(s, t, k)
  {
    CountNone(s.agents, k);
    t :| 0 <= t < |s.agents| && KindOf(s.agents[t]) == k;
  }

  /** Moves the agents can still make by themselves: a deleter three, and the caller it wakes one. */
  function Todo(agents: seq<Pc>): nat {
    4 * Count(agents, KOwesCv) + 2 * Count(agents, KAtFlag) + Count(agents, KOwesExit) + Count(agents, KWoken)
  }

  /** `e` is `s` after a move of an agent that was neither outside, parked nor holding a lease. */
  predicate Advanced(s: State, e: State) {
    && e.pool == s.pool && e.exit == s.exit
    && Count(e.agents, KHolding) == Count(s.agents, KHolding)
    && Count(e.agents, KWaiting) + Count(e.agents, KWoken) == Count(s.agents, KWaiting) + Count(s.agents, KWoken)
    && Todo(e.agents) < Todo(s.agents)
  }

  /** The notification of the deleter `t`: any parked caller, if there is one. */
  lemma AdvanceDeleter(s: State, t: nat) returns (step: Step)
    requires AgentAt(s, t, KOwesCv) && s.exit != Destroyed
    ensures Enabled(s, step) && Advanced(s, Apply(s, step))
  {
    hide Count;
    var mid := s.agents[t := AtFlag];
    Moved(s.agents, t, AtFlag);
    if Count(s.agents, KWaiting) > 0 {
      var w := SomeAgent(s, KWaiting);
      assert mid[w] == s.agents[w];
      Moved(mid, w, Woken);
      step := NotifyCv(t, Some(w));
    } else {
      step := NotifyCv(t, None);
    }
  }

  lemma Advance(s: State, t: nat) returns (step: Step)
    requires s.pool.shuttingDown && s.pool.idle == [] && s.exit == AtExitWait && t < |s.agents|
    requires s.agents[t] == OwesCv || s.agents[t] == AtFlag || s.agents[t] == OwesExit || s.agents[t] == Woken
    ensures Enabled(s, step) && Advanced(s, Apply(s, step))
  {
    hide Count;
    match s.agents[t] {
      case OwesCv =>
        step := AdvanceDeleter(s, t);
      case AtFlag =>
        step := ReadFlag(t);
        Moved(s.agents, t, OwesExit);
      case OwesExit =>
        step := NotifyExit(t);
        Moved(s.agents, t, Outside);
      case Woken =>
        step := Retry(t);
        Moved(s.agents, t, Waiting);
    }
  }

  /** Let everybody move until nobody can: no lease is given back meanwhile. */
  lemma {:induction false} SettleDown(s: State) returns (steps: seq<Step>)
    requires s.pool.shuttingDown && s.pool.idle == [] && s.exit == AtExitWait
    ensures Legal(s, steps)
    ensures var e := Run(s, steps);
            && Quiet(e) && e.pool == s.pool && e.exit == s.exit
            && Count(e.agents, KHolding) == Count(s.agents, KHolding)
            && Count(e.agents, KWaiting) + Count(e.agents, KWoken) == Count(s.agents, KWaiting) + Count(s.agents, KWoken)
    decreases Todo(s.agents)
  {
    hide Count, Todo, Enabled, Apply;
    if t :| 0 <= t < |s.agents| && (s.agents[t] == OwesCv || s.agents[t] == AtFlag || s.agents[t] == OwesExit || s.agents[t] == Woken) {
      var step := Advance(s, t);
      var rest := SettleDown(Apply(s, step));
      steps := Then(s, step, rest);
    } else {
      steps := [];
    }
  }

  /** One lease comes back while two callers are parked: its notification wakes one of them, which
      leaves without passing it on. */
  lemma OneComesBack(s: State, h: nat, w: nat) returns (steps: seq<Step>)
    requires s.pool.shuttingDown && s.exit == AtExitWait && Quiet(s) && Count(s.agents, KWaiting) >= 2
    requires AgentAt(s, h, KHolding) && AgentAt(s, w, KWaiting)
    ensures Legal(s, steps) && LeftAsleep(Run(s, steps))
  {
    hide Count;
    var s1 := Apply(s, GiveBack(h, true));
    var s2 := Apply(s1, NotifyCv(h, Some(w)));
    var s3 := Apply(s2, Retry(w));
    var s4 := Apply(s3, ReadFlag(h));
    var s5 := Apply(s4, NotifyExit(h));
    Moved(s.agents, w, GotNull);
    Moved(s.agents[w := GotNull], h, Outside);
    assert s5.agents == s.agents[w := GotNull][h := Outside];
    steps := Then(s4, NotifyExit(h), []);
    steps := Then(s3, ReadFlag(h), steps);
    steps := Then(s2, Retry(w), steps);
    steps := Then(s1, NotifyCv(h, Some(w)), steps);
    steps := Then(s, GiveBack(h, true), steps);
  }

  lemma Oversleep(s: State) returns (steps: seq<Step>)
    requires s.pool.shuttingDown && s.exit == FlagSet && MayOversleep(s)
    ensures Legal(s, steps) && LeftAsleep(Run(s, steps))
  {
    hide Count, LeftAsleep;
    var woken := Apply(s, NotifyAllCv);
    WakeAllCounts(s.agents, KWaiting);
    WakeAllCounts(s.agents, KWoken);
    WakeAllCounts(s.agents, KHolding);
    var settle := SettleDown(woken);
    var e := Run(woken, settle);
    CountNone(e.agents, KWoken);
    var h := SomeAgent(e, KHolding);
    var w := SomeAgent(e, KWaiting);
    var last := OneComesBack(e, h, w);
    RunConcat(woken, settle, last);
    steps := Then(s, NotifyAllCv, settle + last);
  }

  /** Exactly when a caller can be left asleep beside an idle connection by a shutdown: at the
      moment the flag is set nothing is idle, some lease is out, and two callers or more are in
      their wait. */
  lemma LeftAsleepIff(s: State)
    requires s.pool.shuttingDown && s.exit == FlagSet
    ensures (exists steps :: Legal(s, steps) && LeftAsleep(Run(s, steps))) <==> MayOversleep(s)
  {
    hide Count, MayOversleep, Enabled, Apply;
    if MayOversleep(s) {
      var steps := Oversleep(s);
    } else {
      forall steps | Legal(s, steps) ensures !LeftAsleep(Run(s, steps)) {
        RunKeepsWatched(s, steps);
        CountNone(Run(s, steps).agents, KOwesCv);
      }
    }
  }

  lemma {:induction false} RunThrough(states: seq<State>, steps: seq<Step>)
    requires |states| == |steps| + 1
    requires forall k :: 0 <= k < |steps| ==> Enabled(states[k], steps[k]) && Apply(states[k], steps[k]) == states[k + 1]
    ensures Legal(states[0], steps) && Run(states[0], steps) == states[|steps|]
    decreases |steps|
  {
    hide Enabled, Apply;
    if steps != [] {
      RunThrough(states[1..], steps[1..]);
    }
  }

  const WHILE_OPEN: seq<Step> := [Get(0), Get(1), Get(2), BeginShutdown]
  const WHILE_LEASED: seq<Step> := [NotifyAllCv, Retry(1), Retry(2), GiveBack(0, true)]
  const WHILE_BACK: seq<Step> := [NotifyCv(0, Some(1)), Retry(1), ReadFlag(0), NotifyExit(0)]
  const LEASED: Pool := Pool([], 1, true, 1, [])
  const BACK: Pool := Pool([0], 0, true, 1, [])
  const AT_FLAG: State := State(LEASED, [Holding(0), Waiting, Waiting], FlagSet)
  const GIVEN_BACK: State := State(BACK, [OwesCv, Waiting, Waiting], AtExitWait)

  lemma OneAdmitted()
    ensures Start([true], 3) == State(Pool([0], 0, false, 1, []), [Outside, Outside, Outside], NotStarted)
  {
    assert [true][..0] == [];
    assert Construct([true][..0]) == Pool([], 0, false, 0, []);
  }

  lemma ThreeWoken()
    ensures WakeAll([Holding(0), Waiting, Waiting]) == [Holding(0), Woken, Woken]
  {
    assert WakeAll([Waiting, Waiting]) == [Woken, Woken];
  }

  lemma ExampleOpen()
    ensures Legal(Start([true], 3), WHILE_OPEN) && Run(Start([true], 3), WHILE_OPEN) == AT_FLAG
  {
    hide Construct, Start, WakeAll, Count;
    var out := LEASED.(shuttingDown := false);
    OneAdmitted();
    RunThrough([
      Start([true], 3),
      State(out, [Holding(0), Outside, Outside], NotStarted),
      State(out, [Holding(0), Waiting, Outside], NotStarted),
      State(out, [Holding(0), Waiting, Waiting], NotStarted),
      AT_FLAG], WHILE_OPEN);
  }

  lemma ExampleLeased()
    ensures Legal(AT_FLAG, WHILE_LEASED) && Run(AT_FLAG, WHILE_LEASED) == GIVEN_BACK
  {
    hide WakeAll, Count;
    ThreeWoken();
    RunThrough([
      AT_FLAG,
      State(LEASED, [Holding(0), Woken, Woken], AtExitWait),
      State(LEASED, [Holding(0), Waiting, Woken], AtExitWait),
      State(LEASED, [Holding(0), Waiting, Waiting], AtExitWait),
      GIVEN_BACK], WHILE_LEASED);
  }

  lemma ExampleBack()
    ensures Legal(GIVEN_BACK, WHILE_BACK)
    ensures Run(GIVEN_BACK, WHILE_BACK) == State(BACK, [Outside, GotNull, Waiting], AtExitWait)
  {
    hide WakeAll, Count;
    RunThrough([
      GIVEN_BACK,
      State(BACK, [AtFlag, Woken, Waiting], AtExitWait),
      State(BACK, [AtFlag, GotNull, Waiting], AtExitWait),
      State(BACK, [OwesExit, GotNull, Waiting], AtExitWait),
      State(BACK, [Outside, GotNull, Waiting], AtExitWait)], WHILE_BACK);
  }

  /** For one: a pool of one connection and three callers. Caller 0 has the lease when shutdown
      begins, callers 1 and 2 wait; in the end the connection is back and caller 2 still waits. */
  lemma LeftAsleepExample()
    ensures var start, steps := Start([true], 3), WHILE_OPEN + WHILE_LEASED + WHILE_BACK;
            && Legal(start, steps)
            && Run(start, steps) == State(BACK, [Outside, GotNull, Waiting], AtExitWait)
            && LeftAsleep(Run(start, steps))
  {
    hide Legal, Run, Start, Count;
    ExampleOpen();
    ExampleLeased();
    ExampleBack();
    RunConcat(Start([true], 3), WHILE_OPEN, WHILE_LEASED);
    RunConcat(Start([true], 3), WHILE_OPEN + WHILE_LEASED, WHILE_BACK);
    var end := State(BACK, [Outside, GotNull, Waiting], AtExitWait);
    CountNone(end.agents, KWaiting);
    assert KindOf(end.agents[2]) == KWaiting;
  }

  // ---------- The destructor, late deleters and callers ----------

  predicate Busy(pc: Pc) {
    pc.Holding? || pc == OwesCv || pc == AtFlag || pc == OwesExit
  }

  /** No lease is out and no deleter is between its critical section and its last notification. */
  predicate Settled(s: State) {
    forall t :: 0 <= t < |s.agents| ==> !Busy(s.agents[t])
  }

  /** Nobody is inside the pool or holds a connection. */
  predicate Empty(s: State) {
    forall t :: 0 <= t < |s.agents| ==> KindOf(s.agents[t]) == KOutside
  }

  lemma {:induction false} WakeAllAt(agents: seq<Pc>, t: nat)
    requires t < |agents|
    ensures WakeAll(agents)[t] == if agents[t] == Waiting then Woken else agents[t]
    decreases t
  {
    if t > 0 {
      WakeAllAt(agents[1..], t - 1);
    }
  }

  lemma StepKeepsOut(s: State, step: Step)
    requires Enabled(s, step) && s.pool.shuttingDown
    ensures var e := Apply(s, step);
            e.pool.shuttingDown && (Settled(s) ==> Settled(e)) && (Empty(s) ==> Empty(e))
  {
    hide Count, WakeAll;
    if step.NotifyAllCv? {
      forall t | 0 <= t < |s.agents| ensures WakeAll(s.agents)[t] == if s.agents[t] == Waiting then Woken else s.agents[t] {
        WakeAllAt(s.agents, t);
      }
    }
  }

  lemma {:induction false} RunKeepsOut(s: State, steps: seq<Step>)
    requires Legal(s, steps) && s.pool.shuttingDown
    ensures var e := Run(s, steps); (Settled(s) ==> Settled(e)) && (Empty(s) ==> Empty(e))
    decreases |steps|
  {
    hide Enabled, Apply, Settled, Empty;
    if steps != [] {
      StepKeepsOut(s, steps[0]);
      RunKeepsOut(Apply(s, steps[0]), steps[1..]);
    }
  }

  /** Whoever is inside in `s` is inside in `e`, and so for deleters. */
  predicate StillIn(s: State, e: State) {
    && |e.agents| == |s.agents|
    && forall t :: 0 <= t < |s.agents| ==>
         (KindOf(s.agents[t]) != KOutside ==> KindOf(e.agents[t]) != KOutside) && (Busy(s.agents[t]) ==> Busy(e.agents[t]))
  }

  /** Give every lease back, notify nobody but the callers at once, and let the destructor run to
      its end. */
  lemma {:induction false} Overtake(s: State, admitted: nat) returns (steps: seq<Step>)
    requires Inv(s, admitted) && s.exit == FlagSet
    ensures Legal(s, steps) && Run(s, steps).exit == Destroyed && StillIn(s, Run(s, steps))
    decreases Count(s.agents, KHolding)
  {
    hide Accounted, Conserved, NoLostWakeup, Inv, Count, WakeAll;
    if t :| 0 <= t < |s.agents| && s.agents[t].Holding? {
      var next := Apply(s, GiveBack(t, true));
      StepKeepsInv(s, GiveBack(t, true), admitted);
      Moved(s.agents, t, OwesCv);
      assert StillIn(s, next);
      var rest := Overtake(next, admitted);
      steps := Then(s, GiveBack(t, true), rest);
    } else {
      NothingActive(s, admitted);
      var woken := Apply(s, NotifyAllCv);
      forall t | 0 <= t < |s.agents| ensures woken.agents[t] == if s.agents[t] == Waiting then Woken else s.agents[t] {
        WakeAllAt(s.agents, t);
      }
      steps := Then(woken, CheckExit, []);
      steps := Then(s, NotifyAllCv, steps);
    }
  }

  lemma NothingActive(s: State, admitted: nat)
    requires Inv(s, admitted)
    requires forall t :: 0 <= t < |s.agents| ==> !s.agents[t].Holding?
    ensures s.pool.active == 0
  {
    NothingHeld(s.agents);
  }

  /** The destructor waits for the count of leases, not for the deleters: it is sure to end after
      the last deleter exactly when every lease had been given back, and its notifications sent,
      before the shutdown flag was set. */
  lemma DestructorEndsLastIff(s: State, admitted: nat)
    requires Inv(s, admitted) && s.exit == FlagSet
    ensures Settled(s) <==> forall steps :: Legal(s, steps) && Run(s, steps).exit == Destroyed ==> Settled(Run(s, steps))
  {
    hide Inv, Enabled, Apply;
    assert s.pool.shuttingDown by { FlagIsUp(s, admitted); }
    forall steps | Legal(s, steps) && Settled(s) ensures Settled(Run(s, steps)) {
      RunKeepsOut(s, steps);
    }
    if !Settled(s) {
      var steps := Overtake(s, admitted);
    }
  }

  /** And it is sure to leave nobody inside, callers included, exactly when nobody was inside at
      that moment. */
  lemma DestructorEndsAloneIff(s: State, admitted: nat)
    requires Inv(s, admitted) && s.exit == FlagSet
    ensures Empty(s) <==> forall steps :: Legal(s, steps) && Run(s, steps).exit == Destroyed ==> Empty(Run(s, steps))
  {
    hide Inv, Enabled, Apply;
    assert s.pool.shuttingDown by { FlagIsUp(s, admitted); }
    forall steps | Legal(s, steps) && Empty(s) ensures Empty(Run(s, steps)) {
      RunKeepsOut(s, steps);
    }
    if !Empty(s) {
      var steps := Overtake(s, admitted);
    }
  }

  lemma FlagIsUp(s: State, admitted: nat)
    requires Inv(s, admitted) && s.exit == FlagSet
    ensures s.pool.shuttingDown
  {
  }
}
