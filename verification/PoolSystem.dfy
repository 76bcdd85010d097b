/** Any number of callers of DBConnectionPool in src/core/db/db_operator.cpp, and its destructor.

    An agent is one getConnection call together with the lease it may obtain; a thread with
    several leases is several agents. Each step is one critical section, one notification or one
    read of the shutdown flag. */
module PoolSystem {
  import opened Basics
  import opened PoolSpec

  /** Where an agent is. Outside, GotNull and TimedOut are outside the pool: before any call, after
      one that returned null, and after one that threw. */
  datatype Pc =
    | Outside | GotNull | TimedOut
    | Waiting | Woken
    | Holding(conn: Conn)
    | OwesCv | AtFlag | OwesExit

  datatype Kind = KOutside | KWaiting | KWoken | KHolding | KOwesCv | KAtFlag | KOwesExit

  function KindOf(pc: Pc): Kind {
    match pc
    case Outside => KOutside
    case GotNull => KOutside
    case TimedOut => KOutside
    case Waiting => KWaiting
    case Woken => KWoken
    case Holding(_) => KHolding
    case OwesCv => KOwesCv
    case AtFlag => KAtFlag
    case OwesExit => KOwesExit
  }

  /** The destructor's progress. */
  datatype Exit = NotStarted | FlagSet | AtExitWait | ExitParked | ExitWoken | Destroyed

  datatype State = State(pool: Pool, agents: seq<Pc>, exit: Exit)

  datatype Step =
    | Get(t: nat)
    | Retry(t: nat)
    | Expire(t: nat)
    | SpuriousGet(t: nat)
    | GiveBack(t: nat, alive: bool)
    | NotifyCv(t: nat, woken: Option<nat>)
    | ReadFlag(t: nat)
    | NotifyExit(t: nat)
    | BeginShutdown
    | NotifyAllCv
    | CheckExit
    | SpuriousExit

  predicate AgentAt(s: State, t: nat, k: Kind) {
    t < |s.agents| && KindOf(s.agents[t]) == k
  }

  function Kinds(agents: seq<Pc>): (ks: seq<Kind>)
    ensures |ks| == |agents| && forall t :: 0 <= t < |agents| ==> ks[t] == KindOf(agents[t])
  {
    seq(|agents|, t requires 0 <= t < |agents| => KindOf(agents[t]))
  }

  function Count(agents: seq<Pc>, k: Kind): nat {
    Tally(Kinds(agents), k)
  }

  /** The model ends when the destructor returns. */
  predicate Enabled(s: State, step: Step) {
    s.exit != Destroyed &&
    match step
    case Get(t) => AgentAt(s, t, KOutside)
    case Retry(t) => AgentAt(s, t, KWoken)
    case Expire(t) => AgentAt(s, t, KWaiting) || AgentAt(s, t, KWoken)
    case SpuriousGet(t) => AgentAt(s, t, KWaiting)
    case GiveBack(t, _) => AgentAt(s, t, KHolding)
    case NotifyCv(t, woken) =>
      AgentAt(s, t, KOwesCv)
      && (match woken
          case Some(w) => AgentAt(s, w, KWaiting)
          case None => Count(s.agents, KWaiting) == 0)
    case ReadFlag(t) => AgentAt(s, t, KAtFlag)
    case NotifyExit(t) => AgentAt(s, t, KOwesExit)
    case BeginShutdown => s.exit == NotStarted
    case NotifyAllCv => s.exit == FlagSet
    case CheckExit => s.exit == AtExitWait || s.exit == ExitWoken
    case SpuriousExit => s.exit == ExitParked
  }

  function WakeAll(agents: seq<Pc>): (r: seq<Pc>)
    ensures |r| == |agents|
    decreases |agents|
  {
    if agents == [] then [] else [if agents[0] == Waiting then Woken else agents[0]] + WakeAll(agents[1..])
  }

  function Landed(result: GetResult): Pc {
    match result
    case MustWait => Waiting
    case Leased(c) => Holding(c)
    case Null => GotNull
    case TimeoutError => TimedOut
  }

  function GetStep(s: State, t: nat, r: (GetResult, Pool)): State
    requires t < |s.agents|
  {
    s.(pool := r.1, agents := s.agents[t := Landed(r.0)])
  }

  function Apply(s: State, step: Step): State
    requires Enabled(s, step)
  {
    match step
    case Get(t) => GetStep(s, t, Enter(s.pool))
    case Retry(t) => GetStep(s, t, Resume(s.pool, false))
    case Expire(t) => GetStep(s, t, Resume(s.pool, true))
    case SpuriousGet(t) => s.(agents := s.agents[t := Woken])
    case GiveBack(t, alive) => s.(pool := Return(s.pool, s.agents[t].conn, alive), agents := s.agents[t := OwesCv])
    case NotifyCv(t, woken) =>
      var agents := s.agents[t := AtFlag];
      s.(agents := if woken.Some? then agents[woken.value := Woken] else agents)
    case ReadFlag(t) => s.(agents := s.agents[t := if s.pool.shuttingDown then OwesExit else Outside])
    case NotifyExit(t) => s.(agents := s.agents[t := Outside], exit := if s.exit == ExitParked then ExitWoken else s.exit)
    case BeginShutdown => s.(pool := s.pool.(shuttingDown := true), exit := FlagSet)
    case NotifyAllCv => s.(agents := WakeAll(s.agents), exit := AtExitWait)
    case CheckExit => if s.pool.active == 0 then s.(pool := Teardown(s.pool), exit := Destroyed) else s.(exit := ExitParked)
    case SpuriousExit => s.(exit := ExitWoken)
  }

  predicate Legal(s: State, steps: seq<Step>)
    decreases |steps|
  {
    steps == [] || (Enabled(s, steps[0]) && Legal(Apply(s, steps[0]), steps[1..]))
  }

  function Run(s: State, steps: seq<Step>): State
    requires Legal(s, steps)
    decreases |steps|
  {
    if steps == [] then s else Run(Apply(s, steps[0]), steps[1..])
  }

  function Start(connects: seq<bool>, agents: nat): State {
    State(Construct(connects), seq(agents, _ => Outside), NotStarted)
  }

  // ---------- The invariant ----------

  function HeldBy(pc: Pc): multiset<Conn> {
    if pc.Holding? then multiset{pc.conn} else multiset{}
  }

  /** The connections on lease, with multiplicity. */
  function Held(agents: seq<Pc>): multiset<Conn>
    decreases |agents|
  {
    if agents == [] then multiset{} else HeldBy(agents[0]) + Held(agents[1..])
  }

  /** Every connection ever created is in exactly one place: deleted, idle, or on one lease. */
  predicate Accounted(p: Pool, agents: seq<Pc>) {
    && multiset(p.deleted) + multiset(p.idle) + Held(agents) == Range(p.created)
    && p.active == |Held(agents)|
  }

  /** `admitted` connections are idle or leased until the destructor is done. */
  predicate Conserved(s: State, admitted: nat) {
    s.exit != Destroyed ==> |s.pool.idle| + s.pool.active == admitted
  }

  predicate ExitInv(s: State) {
    && (s.pool.shuttingDown <==> s.exit != NotStarted)
    && (s.exit == Destroyed ==> s.pool.active == 0 && s.pool.idle == [])
    && (s.exit == ExitParked && s.pool.active == 0 ==>
          Count(s.agents, KOwesCv) + Count(s.agents, KAtFlag) + Count(s.agents, KOwesExit) > 0)
  }

  predicate NoLostWakeup(s: State) {
    !s.pool.shuttingDown && Count(s.agents, KWaiting) > 0 ==>
      |s.pool.idle| <= Count(s.agents, KOwesCv) + Count(s.agents, KWoken)
  }

  predicate Inv(s: State, admitted: nat) {
    Accounted(s.pool, s.agents) && Conserved(s, admitted) && ExitInv(s) && NoLostWakeup(s)
  }

  // ---------- Counting ----------

  lemma CountFirst(agents: seq<Pc>, k: Kind)
    requires agents != []
    ensures Count(agents, k) == One(KindOf(agents[0]) == k) + Count(agents[1..], k)
  {
    hide Tally;
    TallyFirst(Kinds(agents), k);
    assert Kinds(agents)[1..] == Kinds(agents[1..]);
  }

  lemma CountNone(agents: seq<Pc>, k: Kind)
    ensures Count(agents, k) == 0 <==> forall t :: 0 <= t < |agents| ==> KindOf(agents[t]) != k
  {
    TallyNone(Kinds(agents), k);
  }

  /** The change of all counts when agent `t` moves to `pc`. */
  lemma Moved(agents: seq<Pc>, t: nat, pc: Pc)
    requires t < |agents|
    ensures Count(agents, KindOf(agents[t])) > 0
    ensures forall k :: Count(agents[t := pc], k) == Count(agents, k) - One(KindOf(agents[t]) == k) + One(KindOf(pc) == k)
  {
    hide Tally;
    assert Kinds(agents[t := pc]) == Kinds(agents)[t := KindOf(pc)];
    TallyMoved(Kinds(agents), t, KindOf(pc));
  }

  lemma {:induction false} HeldSet(agents: seq<Pc>, t: nat, pc: Pc)
    requires t < |agents|
    ensures Held(agents[t := pc]) + HeldBy(agents[t]) == Held(agents) + HeldBy(pc)
    decreases t
  {
    hide HeldBy;
    if t == 0 {
      assert agents[0 := pc][1..] == agents[1..];
    } else {
      var rest, rest' := agents[1..], agents[1..][t - 1 := pc];
      assert agents[t := pc][1..] == rest';
      HeldSet(rest, t - 1, pc);
      var first := HeldBy(agents[0]);
      assert first + Held(rest') + HeldBy(agents[t]) == first + (Held(rest') + HeldBy(agents[t]));
      assert first + Held(rest) + HeldBy(pc) == first + (Held(rest) + HeldBy(pc));
    }
  }

  lemma {:induction false} WakeAllCounts(agents: seq<Pc>, k: Kind)
    ensures Held(WakeAll(agents)) == Held(agents)
    ensures Count(WakeAll(agents), k) ==
            if k == KWaiting then 0 else Count(agents, k) + if k == KWoken then Count(agents, KWaiting) else 0
    decreases |agents|
  {
    hide Count;
    if agents == [] {
      CountNone(agents, k);
      CountNone(agents, KWaiting);
    } else {
      WakeAllCounts(agents[1..], k);
      assert WakeAll(agents)[1..] == WakeAll(agents[1..]);
      CountFirst(agents, k);
      CountFirst(agents, KWaiting);
      CountFirst(WakeAll(agents), k);
    }
  }

  lemma {:induction false} NothingHeld(agents: seq<Pc>)
    requires forall t :: 0 <= t < |agents| ==> !agents[t].Holding?
    ensures Held(agents) == multiset{}
    decreases |agents|
  {
    if agents != [] {
      NothingHeld(agents[1..]);
    }
  }

  // ---------- Every step keeps the invariant ----------

  /** An agent that neither obtains nor gives up a lease leaves the books alone. */
  lemma HeldUnchanged(agents: seq<Pc>, t: nat, pc: Pc)
    requires t < |agents| && !agents[t].Holding? && !pc.Holding?
    ensures Held(agents[t := pc]) == Held(agents)
  {
    hide Held;
    HeldSet(agents, t, pc);
    assert Held(agents[t := pc]) + multiset{} == Held(agents[t := pc]);
    assert Held(agents) + multiset{} == Held(agents);
  }

  lemma TakeAccounted(p: Pool, agents: seq<Pc>, t: nat)
    requires Accounted(p, agents) && t < |agents| && !agents[t].Holding? && p.idle != [] && !p.shuttingDown
    ensures Accounted(Take(p).1, agents[t := Holding(p.idle[0])])
  {
    hide Held, Range;
    var c, rest := p.idle[0], p.idle[1..];
    HeldSet(agents, t, Holding(c));
    assert Held(agents[t := Holding(c)]) + multiset{} == Held(agents[t := Holding(c)]);
    assert p.idle == [c] + rest;
    assert multiset(p.idle) == multiset{c} + multiset(rest);
    assert multiset(rest) + (Held(agents) + multiset{c}) == multiset(p.idle) + Held(agents);
  }

  lemma GetKeepsInv(s: State, step: Step, admitted: nat)
    requires Inv(s, admitted) && Enabled(s, step) && (step.Get? || step.Retry? || step.Expire?)
    ensures Inv(Apply(s, step), admitted)
  {
    hide Count, Held, Range, Accounted;
    var s' := Apply(s, step);
    Moved(s.agents, step.t, s'.agents[step.t]);
    assert s'.agents == s.agents[step.t := s'.agents[step.t]];
    if s'.agents[step.t].Holding? {
      TakeAccounted(s.pool, s.agents, step.t);
    } else {
      SamePoolAccounted(s.pool, s.agents, step.t, s'.agents[step.t]);
    }
  }

  lemma SamePoolAccounted(p: Pool, agents: seq<Pc>, t: nat, pc: Pc)
    requires Accounted(p, agents) && t < |agents| && !agents[t].Holding? && !pc.Holding?
    ensures Accounted(p, agents[t := pc])
  {
    hide Held, Range;
    HeldUnchanged(agents, t, pc);
  }

  lemma GiveBackAccounted(p: Pool, agents: seq<Pc>, t: nat, c: Conn, alive: bool)
    requires Accounted(p, agents) && t < |agents| && agents[t] == Holding(c)
    ensures Accounted(Return(p, c, alive), agents[t := OwesCv])
  {
    hide Held, Range;
    HeldSet(agents, t, OwesCv);
    var d, i, h := multiset(p.deleted), multiset(p.idle), Held(agents[t := OwesCv]);
    assert h + multiset{c} == Held(agents) by { assert Held(agents) + multiset{} == Held(agents); }
    if alive {
      assert multiset(p.idle + [c]) == i + multiset{c};
      assert d + (i + multiset{c}) + h == d + i + (h + multiset{c});
    } else {
      var n := p.created;
      assert multiset(p.idle + [n]) == i + multiset{n};
      assert multiset(p.deleted + [c]) == d + multiset{c};
      assert Range(n + 1) == Range(n) + multiset{n} by { RangeNext(n); }
      assert (d + multiset{c}) + (i + multiset{n}) + h == d + i + (h + multiset{c}) + multiset{n};
    }
  }

  lemma GiveBackKeepsInv(s: State, step: Step, admitted: nat)
    requires Inv(s, admitted) && Enabled(s, step) && step.GiveBack?
    ensures Inv(Apply(s, step), admitted)
  {
    hide Count, Held, Accounted, Range;
    var s' := Apply(s, step);
    assert s'.agents == s.agents[step.t := OwesCv] && |s'.pool.idle| == |s.pool.idle| + 1;
    Moved(s.agents, step.t, OwesCv);
    assert Count(s'.agents, KOwesCv) == Count(s.agents, KOwesCv) + 1;
    GiveBackAccounted(s.pool, s.agents, step.t, s.agents[step.t].conn, step.alive);
  }

  lemma AgentKeepsInv(s: State, step: Step, admitted: nat)
    requires Inv(s, admitted) && Enabled(s, step)
    requires step.SpuriousGet? || step.ReadFlag? || step.NotifyExit?
    ensures Inv(Apply(s, step), admitted)
  {
    hide Count, Held, Range, Accounted;
    var s' := Apply(s, step);
    Moved(s.agents, step.t, s'.agents[step.t]);
    assert s'.agents == s.agents[step.t := s'.agents[step.t]];
    SamePoolAccounted(s.pool, s.agents, step.t, s'.agents[step.t]);
  }

  lemma NotifyKeepsInv(s: State, step: Step, admitted: nat)
    requires Inv(s, admitted) && Enabled(s, step) && step.NotifyCv?
    ensures Inv(Apply(s, step), admitted)
  {
    hide Count, Held, Range, Accounted;
    var mid := s.agents[step.t := AtFlag];
    Moved(s.agents, step.t, AtFlag);
    SamePoolAccounted(s.pool, s.agents, step.t, AtFlag);
    if step.woken.Some? {
      var w := step.woken.value;
      assert mid[w] == s.agents[w];
      Moved(mid, w, Woken);
      SamePoolAccounted(s.pool, mid, w, Woken);
    }
  }

  lemma TeardownAccounted(p: Pool, agents: seq<Pc>)
    requires Accounted(p, agents)
    ensures Accounted(Teardown(p), agents)
  {
    hide Held, Range;
    assert multiset(p.deleted + p.idle) + multiset([]) == multiset(p.deleted) + multiset(p.idle);
  }

  lemma NotifyAllKeepsInv(s: State, admitted: nat)
    requires Inv(s, admitted) && Enabled(s, NotifyAllCv)
    ensures Inv(Apply(s, NotifyAllCv), admitted)
  {
    hide Count, Held, Range, WakeAll;
    WakeAllCounts(s.agents, KWaiting);
  }

  lemma ExitKeepsInv(s: State, step: Step, admitted: nat)
    requires Inv(s, admitted) && Enabled(s, step)
    requires step.BeginShutdown? || step.CheckExit? || step.SpuriousExit?
    ensures Inv(Apply(s, step), admitted)
  {
    hide Count, Held, Range, Accounted;
    TeardownAccounted(s.pool, s.agents);
    FlagAccounted(s.pool, s.agents);
  }

  lemma FlagAccounted(p: Pool, agents: seq<Pc>)
    requires Accounted(p, agents)
    ensures Accounted(p.(shuttingDown := true), agents)
  {
  }

  lemma StepKeepsInv(s: State, step: Step, admitted: nat)
    requires Inv(s, admitted) && Enabled(s, step)
    ensures Inv(Apply(s, step), admitted)
  {
    hide Inv;
    match step {
      case Get(_) => GetKeepsInv(s, step, admitted);
      case Retry(_) => GetKeepsInv(s, step, admitted);
      case Expire(_) => GetKeepsInv(s, step, admitted);
      case SpuriousGet(_) => AgentKeepsInv(s, step, admitted);
      case GiveBack(_, _) => GiveBackKeepsInv(s, step, admitted);
      case NotifyCv(_, _) => NotifyKeepsInv(s, step, admitted);
      case ReadFlag(_) => AgentKeepsInv(s, step, admitted);
      case NotifyExit(_) => AgentKeepsInv(s, step, admitted);
      case BeginShutdown => ExitKeepsInv(s, step, admitted);
      case NotifyAllCv => NotifyAllKeepsInv(s, admitted);
      case CheckExit => ExitKeepsInv(s, step, admitted);
      case SpuriousExit => ExitKeepsInv(s, step, admitted);
    }
  }

  lemma {:induction false} RunKeepsInv(s: State, steps: seq<Step>, admitted: nat)
    requires Inv(s, admitted) && Legal(s, steps)
    ensures Inv(Run(s, steps), admitted)
    decreases |steps|
  {
    hide Inv, Enabled, Apply;
    if steps != [] {
      StepKeepsInv(s, steps[0], admitted);
      RunKeepsInv(Apply(s, steps[0]), steps[1..], admitted);
    }
  }

  lemma StartInv(connects: seq<bool>, agents: nat)
    ensures Inv(Start(connects, agents), Trues(connects))
  {
    hide Count, Held, Range, Construct;
    var s := Start(connects, agents);
    ConstructAccounts(connects);
    CountNone(s.agents, KWaiting);
    NothingHeld(s.agents);
  }

  // ---------- Main results ----------

  /** At every moment of every run: what the constructor admitted is idle or leased, and no
      connection is idle twice, leased twice, both, or still in use after its deletion. */
  lemma PoolConserved(connects: seq<bool>, agents: nat, steps: seq<Step>, c: Conn)
    requires Legal(Start(connects, agents), steps)
    ensures var e := Run(Start(connects, agents), steps);
            && (e.exit != Destroyed ==> |e.pool.idle| + |Held(e.agents)| == Trues(connects))
            && e.pool.active == |Held(e.agents)|
            && multiset(e.pool.deleted)[c] + multiset(e.pool.idle)[c] + Held(e.agents)[c] == One(c < e.pool.created)
  {
    hide Enabled, Apply, Start, Held, Range;
    StartInv(connects, agents);
    RunKeepsInv(Start(connects, agents), steps, Trues(connects));
    var e := Run(Start(connects, agents), steps);
    RangeCounts(e.pool.created, c);
    assert (multiset(e.pool.deleted) + multiset(e.pool.idle) + Held(e.agents))[c] == Range(e.pool.created)[c];
  }

  /** When the destructor returns, every connection ever created has been deleted exactly once. */
  lemma DestroyedDeletesAll(connects: seq<bool>, agents: nat, steps: seq<Step>)
    requires Legal(Start(connects, agents), steps)
    requires Run(Start(connects, agents), steps).exit == Destroyed
    ensures var e := Run(Start(connects, agents), steps);
            && e.pool.idle == [] && Held(e.agents) == multiset{}
            && multiset(e.pool.deleted) == Range(e.pool.created)
  {
    hide Enabled, Apply, Start, Held, Range;
    StartInv(connects, agents);
    RunKeepsInv(Start(connects, agents), steps, Trues(connects));
  }

  /** No agent holds a lease it did not hold before. */
  ghost predicate NoNewLease(s: State, e: State) {
    && e.pool.shuttingDown && e.pool.active <= s.pool.active
    && |e.agents| == |s.agents|
    && forall t :: 0 <= t < |s.agents| && e.agents[t].Holding? ==> e.agents[t] == s.agents[t]
  }

  lemma ShutdownStep(s: State, step: Step)
    requires Enabled(s, step) && s.pool.shuttingDown
    ensures NoNewLease(s, Apply(s, step))
  {
    hide Count;
    if step.NotifyAllCv? {
      WakeAllHolding(s.agents);
    }
  }

  /** After the shutdown flag is set no lease is granted: the active count never rises again. */
  lemma {:induction false} ActiveOnlyFalls(s: State, steps: seq<Step>)
    requires Legal(s, steps) && s.pool.shuttingDown
    ensures NoNewLease(s, Run(s, steps))
    decreases |steps|
  {
    hide Enabled, Apply;
    if steps != [] {
      ShutdownStep(s, steps[0]);
      ActiveOnlyFalls(Apply(s, steps[0]), steps[1..]);
    }
  }

  lemma {:induction false} WakeAllHolding(agents: seq<Pc>)
    ensures forall t :: 0 <= t < |agents| && WakeAll(agents)[t].Holding? ==> WakeAll(agents)[t] == agents[t]
    decreases |agents|
  {
    if agents != [] {
      WakeAllHolding(agents[1..]);
    }
  }

  /** How getConnection goes on, called, woken or timed out, at any moment of any run: it throws exactly
      when its time is up with nothing idle, returns null exactly after the shutdown flag was set and
      it was called or found a connection idle, waits on exactly with nothing idle, and otherwise
      leases the connection that has been idle longest. Nothing is created or deleted and no other
      agent is touched. */
  lemma GetEnds(connects: seq<bool>, agents: nat, before: seq<Step>, next: Step)
    requires Legal(Start(connects, agents), before) && Enabled(Run(Start(connects, agents), before), next)
    requires next.Get? || next.Retry? || next.Expire?
    ensures var m := Run(Start(connects, agents), before); var e := Apply(m, next);
            var pc, idle, down := e.agents[next.t], m.pool.idle, m.pool.shuttingDown;
            && (pc == TimedOut <==> next.Expire? && idle == [])
            && (pc == GotNull <==> down && (next.Get? || idle != []))
            && (pc == Waiting <==> idle == [] && !next.Expire? && !(next.Get? && down))
            && (pc.Holding? <==> !down && idle != [])
            && (if pc.Holding?
                then idle == [pc.conn] + e.pool.idle && e.pool.active == m.pool.active + 1
                else e.pool.idle == idle && e.pool.active == m.pool.active)
            && e == m.(agents := m.agents[next.t := pc], pool := m.pool.(idle := e.pool.idle, active := e.pool.active))
  {
    hide Legal, Run;
  }

  /** Giving a connection back: it becomes the last one idle if it is alive, and nothing is created or
      deleted. If it is dead, it is deleted and a connection that did not exist before is idle in its
      place. */
  lemma GivenBack(connects: seq<bool>, agents: nat, before: seq<Step>, t: nat, alive: bool)
    requires Legal(Start(connects, agents), before) && Enabled(Run(Start(connects, agents), before), GiveBack(t, alive))
    ensures var m := Run(Start(connects, agents), before); var e := Apply(m, GiveBack(t, alive));
            && m.agents[t].Holding? && |e.pool.idle| == |m.pool.idle| + 1
            && e.pool.idle[..|m.pool.idle|] == m.pool.idle && e.pool.active == m.pool.active - 1
            && e.agents == m.agents[t := OwesCv]
            && var back := e.pool.idle[|m.pool.idle|];
               if alive then back == m.agents[t].conn && e.pool.deleted == m.pool.deleted && e.pool.created == m.pool.created
               else
                 && e.pool.deleted == m.pool.deleted + [m.agents[t].conn]
                 && e.pool.created == m.pool.created + 1
                 && back != m.agents[t].conn && back !in m.pool.idle && back !in m.pool.deleted && back !in Held(m.agents)
  {
    hide Enabled, Apply, Start, Held, Range;
    StartInv(connects, agents);
    RunKeepsInv(Start(connects, agents), before, Trues(connects));
    var m := Run(Start(connects, agents), before);
    GiveBackStep(m, t, alive);
    NumberIsNew(m);
  }

  /** What a deleter does after its critical section, at any moment of any run: it wakes one waiting
      caller if there is one; if the shutdown flag is set when it looks, it also notifies the
      destructor, which wakes it exactly if it is parked; otherwise it is done. The pool is not
      touched. */
  lemma DeleterEnds(connects: seq<bool>, agents: nat, before: seq<Step>, t: nat, woken: Option<nat>)
    requires Legal(Start(connects, agents), before)
    ensures var m := Run(Start(connects, agents), before);
            && (Enabled(m, NotifyCv(t, woken)) ==>
                  var e := Apply(m, NotifyCv(t, woken)); var next := m.agents[t := AtFlag];
                  && (woken == None <==> Count(m.agents, KWaiting) == 0)
                  && (woken == None ==> e == m.(agents := next))
                  && (woken != None ==> m.agents[woken.value] == Waiting && e == m.(agents := next[woken.value := Woken])))
            && (Enabled(m, ReadFlag(t)) ==>
                  Apply(m, ReadFlag(t)) == m.(agents := m.agents[t := if m.exit == NotStarted then Outside else OwesExit]))
            && (Enabled(m, NotifyExit(t)) ==>
                  Apply(m, NotifyExit(t)) ==
                    m.(agents := m.agents[t := Outside], exit := if m.exit == ExitParked then ExitWoken else m.exit))
  {
    hide Legal, Run, Start, Count, Held, Range, Accounted;
    StartInv(connects, agents);
    RunKeepsInv(Start(connects, agents), before, Trues(connects));
    CountNone(Run(Start(connects, agents), before).agents, KWaiting);
  }

  /** The destructor's look at the count of leases: it goes on exactly if none is out, and then deletes
      the idle connections, the longest idle first; otherwise it parks and nothing changes. */
  lemma ExitEnds(connects: seq<bool>, agents: nat, before: seq<Step>)
    requires Legal(Start(connects, agents), before) && Enabled(Run(Start(connects, agents), before), CheckExit)
    ensures var m := Run(Start(connects, agents), before); var e := Apply(m, CheckExit);
            && (e.exit == Destroyed <==> Held(m.agents) == multiset{})
            && (e.exit == Destroyed ==> e.pool.deleted == m.pool.deleted + m.pool.idle && e.pool.idle == [])
            && (e.exit != Destroyed ==> e == m.(exit := ExitParked))
  {
    hide Enabled, Start, Held, Range;
    StartInv(connects, agents);
    RunKeepsInv(Start(connects, agents), before, Trues(connects));
  }

  lemma GiveBackStep(m: State, t: nat, alive: bool)
    requires Enabled(m, GiveBack(t, alive))
    ensures var e := Apply(m, GiveBack(t, alive));
            && m.agents[t].Holding? && e.agents == m.agents[t := OwesCv] && e.pool == Return(m.pool, m.agents[t].conn, alive)
    ensures m.agents[t].conn in Held(m.agents)
  {
    hide Held;
    HeldSet(m.agents, t, Outside);
    var c := m.agents[t].conn;
    assert (Held(m.agents[t := Outside]) + multiset{c})[c] > 0;
    assert Held(m.agents) + multiset{} == Held(m.agents);
  }

  /** The next connection number is in no place yet. */
  lemma NumberIsNew(m: State)
    requires Accounted(m.pool, m.agents)
    ensures var n := m.pool.created; n !in m.pool.idle && n !in m.pool.deleted && n !in Held(m.agents)
  {
    hide Held, Range;
    var n := m.pool.created;
    RangeCounts(n, n);
    assert (multiset(m.pool.deleted) + multiset(m.pool.idle) + Held(m.agents))[n] == 0;
    assert n in m.pool.idle ==> multiset(m.pool.idle)[n] > 0;
    assert n in m.pool.deleted ==> multiset(m.pool.deleted)[n] > 0;
  }

  lemma {:induction false} DeletedStays(s: State, steps: seq<Step>)
    requires Legal(s, steps)
    ensures s.pool.deleted <= Run(s, steps).pool.deleted
    decreases |steps|
  {
    hide Count;
    if steps != [] {
      DeletedStays(Apply(s, steps[0]), steps[1..]);
    }
  }

  lemma {:induction false} RunConcat(s: State, a: seq<Step>, b: seq<Step>)
    requires Legal(s, a) && Legal(Run(s, a), b)
    ensures Legal(s, a + b) && Run(s, a + b) == Run(Run(s, a), b)
    decreases |a|
  {
    hide Enabled, Apply;
    if a == [] {
      assert a + b == b;
    } else {
      assert (a + b)[1..] == a[1..] + b;
      RunConcat(Apply(s, a[0]), a[1..], b);
    }
  }

  /** A connection that was given back dead, or failed to connect at construction, is never idle or
      leased again, whatever follows. */
  lemma DeadStaysOut(connects: seq<bool>, agents: nat, before: seq<Step>, after: seq<Step>, c: Conn)
    requires Legal(Start(connects, agents), before) && Legal(Run(Start(connects, agents), before), after)
    requires c in Run(Start(connects, agents), before).pool.deleted
    ensures var e := Run(Run(Start(connects, agents), before), after);
            && c !in e.pool.idle && forall t :: 0 <= t < |e.agents| && e.agents[t].Holding? ==> e.agents[t].conn != c
  {
    hide Enabled, Apply, Start, Held, Range;
    var m := Run(Start(connects, agents), before);
    DeletedStays(m, after);
    RunConcat(Start(connects, agents), before, after);
    PoolConserved(connects, agents, before + after, c);
    var e := Run(m, after);
    assert c in e.pool.deleted && multiset(e.pool.deleted)[c] > 0;
    forall t | 0 <= t < |e.agents| && e.agents[t].Holding? ensures e.agents[t].conn != c {
      HeldSet(e.agents, t, Outside);
      var d := e.agents[t].conn;
      assert (Held(e.agents[t := Outside]) + multiset{d})[d] > 0;
      assert Held(e.agents) + multiset{} == Held(e.agents);
    }
  }

  /** An agent that is neither outside, parked nor holding a lease can take its next step. */
  lemma AwakeAgentsMove(s: State, t: nat)
    requires t < |s.agents| && s.exit != Destroyed
    ensures var k := KindOf(s.agents[t]);
            k != KOutside && k != KWaiting && k != KHolding ==> exists step :: Enabled(s, step) && Mover(step) == Some(t)
  {
    hide Count;
    CountNone(s.agents, KWaiting);
    var woken: Option<nat> := None;
    if Count(s.agents, KWaiting) > 0 {
      var w: nat :| w < |s.agents| && KindOf(s.agents[w]) == KWaiting;
      woken := Some(w);
    }
    match s.agents[t] {
      case Woken => assert Enabled(s, Retry(t)) && Mover(Retry(t)) == Some(t);
      case OwesCv => assert Enabled(s, NotifyCv(t, woken)) && Mover(NotifyCv(t, woken)) == Some(t);
      case AtFlag => assert Enabled(s, ReadFlag(t)) && Mover(ReadFlag(t)) == Some(t);
      case OwesExit => assert Enabled(s, NotifyExit(t)) && Mover(NotifyExit(t)) == Some(t);
      case _ =>
    }
  }

  /** The agent whose code a step is. */
  function Mover(step: Step): Option<nat> {
    match step
    case Get(t) => Some(t)
    case Retry(t) => Some(t)
    case GiveBack(t, _) => Some(t)
    case NotifyCv(t, _) => Some(t)
    case ReadFlag(t) => Some(t)
    case NotifyExit(t) => Some(t)
    case _ => None
  }

  /** No agent can move by itself: it is outside, parked, or holding a lease. */
  predicate Quiet(s: State) {
    forall t :: 0 <= t < |s.agents| ==> var k := KindOf(s.agents[t]); k == KOutside || k == KWaiting || k == KHolding
  }

  /** Nobody sleeps beside work: in a quiet state a parked destructor means that some lease is
      still out and, before shutdown, a parked caller means an empty pool. PoolShutdown.dfy says
      what becomes of callers parked at shutdown. */
  lemma NobodySleepsBesideWork(connects: seq<bool>, agents: nat, steps: seq<Step>)
    requires Legal(Start(connects, agents), steps) && Quiet(Run(Start(connects, agents), steps))
    ensures var e := Run(Start(connects, agents), steps);
            && (!e.pool.shuttingDown && Count(e.agents, KWaiting) > 0 ==> e.pool.idle == [])
            && (e.exit == ExitParked ==> Held(e.agents) != multiset{})
  {
    hide Enabled, Apply, Start, Count, Held, Range;
    StartInv(connects, agents);
    RunKeepsInv(Start(connects, agents), steps, Trues(connects));
    var e := Run(Start(connects, agents), steps);
    CountNone(e.agents, KOwesCv);
    CountNone(e.agents, KWoken);
    CountNone(e.agents, KAtFlag);
    CountNone(e.agents, KOwesExit);
  }
}
