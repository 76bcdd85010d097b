/** Any number of threads calling push, pop and stop of src/common/utils/ring_buffer.h.

    A step is one critical section or one notification. A caller whose wait predicate is false
    parks, atomically releasing the mutex; a notification or a spurious wake-up lets it try
    again. The notify calls come after the mutex is released, so between a push and its
    notification any other thread may run. */
module RingMonitor {
  import opened Basics
  import opened RingSpec

  /** Where a thread is. */
  datatype Pc<T> =
    | Outside
    | PushParked(x: T) | PushWoken(x: T) | OwesNotEmpty
    | PopParked | PopWoken | OwesNotFull
    | StopOwesBoth | StopOwesNotFull

  datatype Kind = KOutside | KPushParked | KPushWoken | KOwesNotEmpty | KPopParked | KPopWoken | KOwesNotFull | KStopBoth | KStopFull

  function KindOf<T>(pc: Pc<T>): Kind {
    match pc
    case Outside => KOutside
    case PushParked(_) => KPushParked
    case PushWoken(_) => KPushWoken
    case OwesNotEmpty => KOwesNotEmpty
    case PopParked => KPopParked
    case PopWoken => KPopWoken
    case OwesNotFull => KOwesNotFull
    case StopOwesBoth => KStopBoth
    case StopOwesNotFull => KStopFull
  }

  /** `accepted` and `removed` are the items in the order of the critical sections. */
  datatype State<T> = State(ring: Ring<T>, threads: seq<Pc<T>>, accepted: seq<T>, removed: seq<T>)

  datatype Step<T> =
    | CallPush(t: nat, x: T)
    | RetryPush(t: nat)
    | NotifyNotEmpty(t: nat, woken: Option<nat>)
    | CallPop(t: nat)
    | RetryPop(t: nat)
    | NotifyNotFull(t: nat, woken: Option<nat>)
    | Spurious(t: nat)
    | CallStop(t: nat)
    | NotifyAllNotEmpty(t: nat)
    | NotifyAllNotFull(t: nat)

  function Kinds<T>(threads: seq<Pc<T>>): (ks: seq<Kind>)
    ensures |ks| == |threads| && forall t :: 0 <= t < |threads| ==> ks[t] == KindOf(threads[t])
  {
    seq(|threads|, t requires 0 <= t < |threads| => KindOf(threads[t]))
  }

  function Count<T>(threads: seq<Pc<T>>, k: Kind): nat {
    Tally(Kinds(threads), k)
  }

  /** notify_one picks one of the parked threads, if there is one. */
  predicate MayWake<T>(threads: seq<Pc<T>>, woken: Option<nat>, parked: Kind) {
    match woken
    case Some(w) => w < |threads| && KindOf(threads[w]) == parked
    case None => Count(threads, parked) == 0
  }

  predicate Enabled<T>(s: State<T>, step: Step<T>) {
    step.t < |s.threads| &&
    var k := KindOf(s.threads[step.t]);
    match step
    case CallPush(_, _) => k == KOutside
    case CallPop(_) => k == KOutside
    case CallStop(_) => k == KOutside
    case RetryPush(_) => k == KPushWoken
    case RetryPop(_) => k == KPopWoken
    case NotifyNotEmpty(_, woken) => k == KOwesNotEmpty && MayWake(s.threads, woken, KPopParked)
    case NotifyNotFull(_, woken) => k == KOwesNotFull && MayWake(s.threads, woken, KPushParked)
    case Spurious(_) => k == KPushParked || k == KPopParked
    case NotifyAllNotEmpty(_) => k == KStopBoth
    case NotifyAllNotFull(_) => k == KStopFull
  }

  /** A parked thread that is notified leaves the condition variable. */
  function Wake<T>(pc: Pc<T>): Pc<T> {
    match pc
    case PushParked(x) => PushWoken(x)
    case PopParked => PopWoken
    case other => other
  }

  function WakeOne<T>(threads: seq<Pc<T>>, woken: Option<nat>): (r: seq<Pc<T>>)
    requires woken.Some? ==> woken.value < |threads|
    ensures |r| == |threads|
  {
    match woken
    case Some(w) => threads[w := Wake(threads[w])]
    case None => threads
  }

  function WakeAll<T>(threads: seq<Pc<T>>, parked: Kind): (r: seq<Pc<T>>)
    ensures |r| == |threads|
    decreases |threads|
  {
    if threads == [] then [] else
      [if KindOf(threads[0]) == parked then Wake(threads[0]) else threads[0]] + WakeAll(threads[1..], parked)
  }

  function PushStep<T>(s: State<T>, t: nat, x: T): State<T>
    requires t < |s.threads|
  {
    var (result, ring) := Push(s.ring, x);
    match result
    case MustWait => s.(threads := s.threads[t := PushParked(x)])
    case Refused => s.(threads := s.threads[t := Outside])
    case Accepted => s.(ring := ring, threads := s.threads[t := OwesNotEmpty], accepted := s.accepted + [x])
  }

  function PopStep<T>(s: State<T>, t: nat): State<T>
    requires t < |s.threads|
  {
    var (result, ring) := Pop(s.ring);
    match result
    case NothingYet => s.(threads := s.threads[t := PopParked])
    case Drained => s.(threads := s.threads[t := Outside])
    case Item(x) => s.(ring := ring, threads := s.threads[t := OwesNotFull], removed := s.removed + [x])
  }

  function Apply<T>(s: State<T>, step: Step<T>): State<T>
    requires Enabled(s, step)
  {
    var t := step.t;
    match step
    case CallPush(_, x) => PushStep(s, t, x)
    case RetryPush(_) => PushStep(s, t, s.threads[t].x)
    case CallPop(_) => PopStep(s, t)
    case RetryPop(_) => PopStep(s, t)
    case NotifyNotEmpty(_, woken) => s.(threads := WakeOne(s.threads[t := Outside], woken))
    case NotifyNotFull(_, woken) => s.(threads := WakeOne(s.threads[t := Outside], woken))
    case Spurious(_) => s.(threads := s.threads[t := Wake(s.threads[t])])
    case CallStop(_) => s.(ring := Stop(s.ring), threads := s.threads[t := StopOwesBoth])
    case NotifyAllNotEmpty(_) => s.(threads := WakeAll(s.threads, KPopParked)[t := StopOwesNotFull])
    case NotifyAllNotFull(_) => s.(threads := WakeAll(s.threads, KPushParked)[t := Outside])
  }

  predicate Legal<T>(s: State<T>, steps: seq<Step<T>>)
    decreases |steps|
  {
    steps == [] || (Enabled(s, steps[0]) && Legal(Apply(s, steps[0]), steps[1..]))
  }

  function Run<T>(s: State<T>, steps: seq<Step<T>>): State<T>
    requires Legal(s, steps)
    decreases |steps|
  {
    if steps == [] then s else Run(Apply(s, steps[0]), steps[1..])
  }

  predicate Initial<T>(s: State<T>) {
    && s.ring.capacity > 0 && s.ring.items == [] && !s.ring.stopped
    && s.accepted == [] && s.removed == []
    && forall t :: 0 <= t < |s.threads| ==> s.threads[t] == Outside
  }

  // ---------- The invariant ----------

  ghost predicate QueueInv<T>(s: State<T>) {
    && s.ring.capacity > 0 && |s.ring.items| <= s.ring.capacity
    && s.accepted == s.removed + s.ring.items
  }

  /** Before stop: a parked consumer means every item in the ring is spoken for by a notification
      still owed or a consumer woken but not yet rerun; symmetrically for free slots. */
  ghost predicate NoLostWakeup<T>(s: State<T>) {
    && (!s.ring.stopped && Count(s.threads, KPopParked) > 0 ==>
          |s.ring.items| <= Count(s.threads, KOwesNotEmpty) + Count(s.threads, KPopWoken))
    && (!s.ring.stopped && Count(s.threads, KPushParked) > 0 ==>
          s.ring.capacity - |s.ring.items| <= Count(s.threads, KOwesNotFull) + Count(s.threads, KPushWoken))
  }

  /** After stop: a thread is parked only while some stopper has yet to notify its condition, and
      a consumer only until the first of them has done so. */
  ghost predicate StopWakes<T>(s: State<T>) {
    && (!s.ring.stopped ==> Count(s.threads, KStopBoth) + Count(s.threads, KStopFull) == 0)
    && (s.ring.stopped && Count(s.threads, KPopParked) > 0 ==> Count(s.threads, KStopBoth) > 0)
    && (Count(s.threads, KStopFull) > 0 ==> Count(s.threads, KPopParked) == 0)
    && (s.ring.stopped && Count(s.threads, KPushParked) > 0 ==> Count(s.threads, KStopBoth) + Count(s.threads, KStopFull) > 0)
  }

  ghost predicate Inv<T>(s: State<T>) {
    QueueInv(s) && NoLostWakeup(s) && StopWakes(s)
  }

  // ---------- Counting ----------

  lemma CountFirst<T>(threads: seq<Pc<T>>, k: Kind)
    requires threads != []
    ensures Count(threads, k) == One(KindOf(threads[0]) == k) + Count(threads[1..], k)
  {
    hide Tally;
    TallyFirst(Kinds(threads), k);
    assert Kinds(threads)[1..] == Kinds(threads[1..]);
  }

  lemma CountNone<T>(threads: seq<Pc<T>>, k: Kind)
    ensures Count(threads, k) == 0 <==> forall t :: 0 <= t < |threads| ==> KindOf(threads[t]) != k
  {
    TallyNone(Kinds(threads), k);
  }

  /** The change of all counts when thread `t` moves to `pc`. */
  lemma Moved<T>(threads: seq<Pc<T>>, t: nat, pc: Pc<T>)
    requires t < |threads|
    ensures Count(threads, KindOf(threads[t])) > 0
    ensures forall k :: Count(threads[t := pc], k) == Count(threads, k) - One(KindOf(threads[t]) == k) + One(KindOf(pc) == k)
  {
    hide Tally;
    assert Kinds(threads[t := pc]) == Kinds(threads)[t := KindOf(pc)];
    TallyMoved(Kinds(threads), t, KindOf(pc));
  }

  /** The kind a parked kind turns into. */
  function WokenKind(parked: Kind): Kind {
    if parked == KPushParked then KPushWoken else KPopWoken
  }

  lemma {:induction false} CountWakeAll<T>(threads: seq<Pc<T>>, parked: Kind, k: Kind)
    requires parked == KPushParked || parked == KPopParked
    ensures Count(WakeAll(threads, parked), k) ==
            if k == parked then 0
            else Count(threads, k) + if k == WokenKind(parked) then Count(threads, parked) else 0
    decreases |threads|
  {
    hide Count;
    if threads == [] {
      CountNone(threads, k);
      CountNone(threads, parked);
    } else {
      CountWakeAll(threads[1..], parked, k);
      assert WakeAll(threads, parked)[1..] == WakeAll(threads[1..], parked);
      CountFirst(threads, k);
      CountFirst(threads, parked);
      CountFirst(WakeAll(threads, parked), k);
    }
  }

  lemma {:induction false} WakeAllAt<T>(threads: seq<Pc<T>>, parked: Kind, t: nat)
    requires t < |threads| && KindOf(threads[t]) != parked
    ensures WakeAll(threads, parked)[t] == threads[t]
    decreases t
  {
    if t > 0 {
      WakeAllAt(threads[1..], parked, t - 1);
    }
  }

  // ---------- Every step keeps the invariant ----------

  lemma PushKeepsInv<T>(s: State<T>, t: nat, x: T)
    requires Inv(s) && t < |s.threads|
    requires s.threads[t] == Outside || s.threads[t] == PushWoken(x)
    ensures Inv(PushStep(s, t, x))
  {
    hide Count;
    var s' := PushStep(s, t, x);
    Moved(s.threads, t, s'.threads[t]);
    assert s'.threads == s.threads[t := s'.threads[t]];
    assert s.accepted + [x] == s.removed + (s.ring.items + [x]);
  }

  lemma PopKeepsInv<T>(s: State<T>, t: nat)
    requires Inv(s) && t < |s.threads|
    requires s.threads[t] == Outside || s.threads[t] == PopWoken
    ensures Inv(PopStep(s, t))
  {
    hide Count;
    var s' := PopStep(s, t);
    Moved(s.threads, t, s'.threads[t]);
    assert s'.threads == s.threads[t := s'.threads[t]];
    if s.ring.items != [] {
      assert s.removed + s.ring.items == s.removed + [s.ring.items[0]] + s.ring.items[1..];
    }
  }

  lemma NotifyKeepsInv<T>(s: State<T>, step: Step<T>)
    requires Inv(s) && Enabled(s, step) && (step.NotifyNotEmpty? || step.NotifyNotFull?)
    ensures Inv(Apply(s, step))
  {
    hide Count;
    var mid := s.threads[step.t := Outside];
    Moved(s.threads, step.t, Outside);
    match step.woken {
      case Some(w) =>
        assert mid[w] == s.threads[w];
        Moved(mid, w, Wake(mid[w]));
      case None =>
    }
  }

  lemma SpuriousKeepsInv<T>(s: State<T>, step: Step<T>)
    requires Inv(s) && Enabled(s, step) && step.Spurious?
    ensures Inv(Apply(s, step))
  {
    hide Count;
    var pc, e := Wake(s.threads[step.t]), Apply(s, step);
    Moved(s.threads, step.t, pc);
    assert forall k :: Count(e.threads, k) == Count(s.threads, k) - One(KindOf(s.threads[step.t]) == k) + One(KindOf(pc) == k);
  }

  lemma StopKeepsInv<T>(s: State<T>, step: Step<T>)
    requires Inv(s) && Enabled(s, step) && step.CallStop?
    ensures Inv(Apply(s, step))
  {
    hide Count;
    var e := Apply(s, step);
    Moved(s.threads, step.t, StopOwesBoth);
    assert forall k :: Count(e.threads, k) == Count(s.threads, k) - One(k == KOutside) + One(k == KStopBoth);
  }

  lemma NotifyAllKeepsInv<T>(s: State<T>, step: Step<T>)
    requires Inv(s) && Enabled(s, step) && (step.NotifyAllNotEmpty? || step.NotifyAllNotFull?)
    ensures Inv(Apply(s, step))
  {
    hide Count, WakeAll;
    var parked := if step.NotifyAllNotEmpty? then KPopParked else KPushParked;
    var awake := WakeAll(s.threads, parked);
    WakeAllAt(s.threads, parked, step.t);
    Moved(s.threads, step.t, Outside);
    Moved(awake, step.t, if step.NotifyAllNotEmpty? then StopOwesNotFull else Outside);
    forall k ensures Count(awake, k) == if k == parked then 0
                     else Count(s.threads, k) + if k == WokenKind(parked) then Count(s.threads, parked) else 0 {
      CountWakeAll(s.threads, parked, k);
    }
  }

  lemma StepKeepsInv<T>(s: State<T>, step: Step<T>)
    requires Inv(s) && Enabled(s, step)
    ensures Inv(Apply(s, step))
  {
    hide Inv, PushStep, PopStep;
    match step {
      case CallPush(t, x) => PushKeepsInv(s, t, x);
      case RetryPush(t) => PushKeepsInv(s, t, s.threads[t].x);
      case CallPop(t) => PopKeepsInv(s, t);
      case RetryPop(t) => PopKeepsInv(s, t);
      case NotifyNotEmpty(_, _) => NotifyKeepsInv(s, step);
      case NotifyNotFull(_, _) => NotifyKeepsInv(s, step);
      case Spurious(_) => SpuriousKeepsInv(s, step);
      case CallStop(_) => StopKeepsInv(s, step);
      case NotifyAllNotEmpty(_) => NotifyAllKeepsInv(s, step);
      case NotifyAllNotFull(_) => NotifyAllKeepsInv(s, step);
    }
  }

  lemma {:induction false} RunKeepsInv<T>(s: State<T>, steps: seq<Step<T>>)
    requires Inv(s) && Legal(s, steps)
    ensures Inv(Run(s, steps))
    decreases |steps|
  {
    hide Inv, Enabled, Apply;
    if steps != [] {
      StepKeepsInv(s, steps[0]);
      RunKeepsInv(Apply(s, steps[0]), steps[1..]);
    }
  }

  lemma InitialInv<T>(s: State<T>)
    requires Initial(s)
    ensures Inv(s)
  {
    hide Count;
    CountNone(s.threads, KPopParked);
    CountNone(s.threads, KPushParked);
    CountNone(s.threads, KStopBoth);
    CountNone(s.threads, KStopFull);
  }

  // ---------- Main results ----------

  /** No wake-up is ever lost, and the queue is first in, first out, in every interleaving of any
      number of threads. */
  lemma NeverLosesWakeup<T>(s: State<T>, steps: seq<Step<T>>)
    requires Initial(s) && Legal(s, steps)
    ensures var e := Run(s, steps);
            && NoLostWakeup(e) && StopWakes(e)
            && e.accepted == e.removed + e.ring.items && |e.ring.items| <= s.ring.capacity
  {
    hide Count, Enabled, Apply;
    InitialInv(s);
    RunKeepsInv(s, steps);
    CapacityFixed(s, steps);
  }

  lemma {:induction false} CapacityFixed<T>(s: State<T>, steps: seq<Step<T>>)
    requires Legal(s, steps)
    ensures var e := Run(s, steps); e.ring.capacity == s.ring.capacity && |e.threads| == |s.threads|
    decreases |steps|
  {
    hide Count, WakeAll, WakeOne;
    if steps != [] {
      CapacityFixed(Apply(s, steps[0]), steps[1..]);
    }
  }

  /** No thread can move without making a new call. */
  predicate Quiet<T>(s: State<T>) {
    forall t :: 0 <= t < |s.threads| ==>
      var k := KindOf(s.threads[t]); k == KOutside || k == KPushParked || k == KPopParked
  }

  /** Nobody sleeps beside work: when nothing more can happen by itself, parked consumers mean an
      empty queue, parked producers a full one, never both; and after stop nobody is parked. */
  lemma NobodySleepsBesideWork<T>(s: State<T>, steps: seq<Step<T>>)
    requires Initial(s) && Legal(s, steps) && Quiet(Run(s, steps))
    ensures var e := Run(s, steps);
            && (Count(e.threads, KPopParked) > 0 ==> e.ring.items == [] && !e.ring.stopped)
            && (Count(e.threads, KPushParked) > 0 ==> |e.ring.items| == e.ring.capacity && !e.ring.stopped)
            && (Count(e.threads, KPopParked) == 0 || Count(e.threads, KPushParked) == 0)
  {
    hide Count, Enabled, Apply;
    InitialInv(s);
    RunKeepsInv(s, steps);
    var e := Run(s, steps);
    CountNone(e.threads, KOwesNotEmpty);
    CountNone(e.threads, KOwesNotFull);
    CountNone(e.threads, KPopWoken);
    CountNone(e.threads, KPushWoken);
    CountNone(e.threads, KStopBoth);
    CountNone(e.threads, KStopFull);
  }

  /** A thread that is neither outside nor parked can take its next step. */
  lemma WokenThreadsMove<T>(s: State<T>, t: nat)
    requires t < |s.threads|
    ensures var k := KindOf(s.threads[t]);
            k != KOutside && k != KPushParked && k != KPopParked ==> exists step :: Enabled(s, step) && step.t == t && !step.Spurious?
  {
    hide Count;
    var parked := if s.threads[t].OwesNotEmpty? then KPopParked else KPushParked;
    CountNone(s.threads, parked);
    var woken: Option<nat> := None;
    if Count(s.threads, parked) > 0 {
      var w: nat :| w < |s.threads| && KindOf(s.threads[w]) == parked;
      woken := Some(w);
    }
    match s.threads[t] {
      case PushWoken(_) => assert Enabled(s, RetryPush(t));
      case PopWoken => assert Enabled(s, RetryPop(t));
      case OwesNotEmpty => assert Enabled(s, NotifyNotEmpty(t, woken));
      case OwesNotFull => assert Enabled(s, NotifyNotFull(t, woken));
      case StopOwesBoth => assert Enabled(s, NotifyAllNotEmpty(t));
      case StopOwesNotFull => assert Enabled(s, NotifyAllNotFull(t));
      case _ =>
    }
  }

  /** How a push goes, called or woken, at any moment of any run: it is refused exactly after stop,
      parks exactly on an open full ring, and otherwise appends its item, for which it then owes a
      notification. No other thread is touched. */
  lemma PushEnds<T>(s: State<T>, before: seq<Step<T>>, next: Step<T>, x: T)
    requires Initial(s) && Legal(s, before) && Enabled(Run(s, before), next)
    requires next.CallPush? || next.RetryPush?
    requires x == if next.CallPush? then next.x else Run(s, before).threads[next.t].x
    ensures var m := Run(s, before); var e := Apply(m, next); var pc := e.threads[next.t];
            var full := |m.ring.items| == s.ring.capacity;
            && (pc == Outside <==> m.ring.stopped)
            && (pc == PushParked(x) <==> !m.ring.stopped && full)
            && (pc == OwesNotEmpty <==> !m.ring.stopped && !full)
            && e == m.(threads := m.threads[next.t := pc], ring := e.ring, accepted := e.accepted)
            && e.ring == m.ring.(items := e.ring.items)
            && e.ring.items == m.ring.items + (if pc == OwesNotEmpty then [x] else [])
            && e.accepted == m.accepted + (if pc == OwesNotEmpty then [x] else [])
  {
    hide Count, Legal, Run;
    InitialInv(s);
    RunKeepsInv(s, before);
    CapacityFixed(s, before);
    var m := Run(s, before);
    assert m.ring.items + [] == m.ring.items && m.accepted + [] == m.accepted;
  }

  /** How a pop goes, called or woken, at any moment of any run: it ends without an item exactly on a
      stopped empty ring, parks exactly on an open empty one, and otherwise takes the oldest item and
      then owes a notification. No other thread is touched. */
  lemma PopEnds<T>(s: State<T>, before: seq<Step<T>>, next: Step<T>)
    requires Initial(s) && Legal(s, before) && Enabled(Run(s, before), next)
    requires next.CallPop? || next.RetryPop?
    ensures var m := Run(s, before); var e := Apply(m, next); var pc := e.threads[next.t];
            && (pc == Outside <==> m.ring.stopped && m.ring.items == [])
            && (pc == PopParked <==> !m.ring.stopped && m.ring.items == [])
            && (pc == OwesNotFull <==> m.ring.items != [])
            && e == m.(threads := m.threads[next.t := pc], ring := e.ring, removed := e.removed)
            && e.ring == m.ring.(items := e.ring.items)
            && (if m.ring.items == [] then e.ring == m.ring && e.removed == m.removed
                else m.ring.items == [m.ring.items[0]] + e.ring.items && e.removed == m.removed + [m.ring.items[0]])
  {
    hide Count, Legal, Run;
    CapacityFixed(s, before);
  }

  predicate NobodyParked<T>(s: State<T>) {
    Count(s.threads, KPopParked) == 0 && Count(s.threads, KPushParked) == 0
  }

  /** Once a stop() has completed, whatever other callers of stop still owe, no thread is ever
      parked again, and nothing more is accepted. */
  lemma StoppedForGood<T>(s: State<T>, before: seq<Step<T>>, t: nat, after: seq<Step<T>>)
    requires Initial(s) && Legal(s, before) && Enabled(Run(s, before), NotifyAllNotFull(t))
    requires Legal(Apply(Run(s, before), NotifyAllNotFull(t)), after)
    ensures var m := Run(s, before); var e := Run(Apply(m, NotifyAllNotFull(t)), after);
            e.ring.stopped && NobodyParked(e) && e.accepted == m.accepted
  {
    hide Count, WakeAll;
    InitialInv(s);
    RunKeepsInv(s, before);
    var m := Run(s, before);
    CountNone(m.threads, KStopFull);
    assert m.ring.stopped && Count(m.threads, KPopParked) == 0;
    var awake := WakeAll(m.threads, KPushParked);
    CountWakeAll(m.threads, KPushParked, KPopParked);
    CountWakeAll(m.threads, KPushParked, KPushParked);
    Moved(awake, t, Outside);
    StaysAwake(Apply(m, NotifyAllNotFull(t)), after);
  }

  lemma {:induction false} StaysAwake<T>(s: State<T>, steps: seq<Step<T>>)
    requires Legal(s, steps) && s.ring.stopped && NobodyParked(s)
    ensures var e := Run(s, steps); e.ring.stopped && NobodyParked(e) && e.accepted == s.accepted
    decreases |steps|
  {
    hide Enabled, Apply, Count;
    if steps != [] {
      StoppedStep(s, steps[0]);
      StaysAwake(Apply(s, steps[0]), steps[1..]);
    }
  }

  lemma StoppedStep<T>(s: State<T>, step: Step<T>)
    requires Enabled(s, step) && s.ring.stopped && NobodyParked(s)
    ensures var e := Apply(s, step); e.ring.stopped && NobodyParked(e) && e.accepted == s.accepted
  {
    hide Count, WakeAll;
    var e := Apply(s, step);
    if step.NotifyAllNotEmpty? || step.NotifyAllNotFull? {
      var parked := if step.NotifyAllNotEmpty? then KPopParked else KPushParked;
      CountWakeAll(s.threads, parked, KPopParked);
      CountWakeAll(s.threads, parked, KPushParked);
      Moved(WakeAll(s.threads, parked), step.t, if step.NotifyAllNotEmpty? then StopOwesNotFull else Outside);
    } else {
      if (step.NotifyNotEmpty? || step.NotifyNotFull?) && step.woken.Some? {
        CountNone(s.threads, KindOf(s.threads[step.woken.value]));
      }
      Moved(s.threads, step.t, e.threads[step.t]);
      assert e.threads == s.threads[step.t := e.threads[step.t]];
    }
  }
}
