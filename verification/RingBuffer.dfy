/** The blocking bounded queue of src/common/utils/ring_buffer.h, seen one critical section at a
    time: RingSpec is the queue as a sequence, RingBuffer the circular array that refines it. */
module RingSpec {

  datatype Ring<T> = Ring(items: seq<T>, capacity: nat, stopped: bool)

  /** What the part of push under the mutex does: the wait parks the caller, or it goes on. */
  datatype PushResult = MustWait | Refused | Accepted

  datatype PopResult<T> = NothingYet | Drained | Item(value: T)

  function Push<T>(r: Ring<T>, x: T): (PushResult, Ring<T>) {
    if |r.items| >= r.capacity && !r.stopped then (MustWait, r)
    else if r.stopped then (Refused, r)
    else (Accepted, r.(items := r.items + [x]))
  }

  function Pop<T>(r: Ring<T>): (PopResult<T>, Ring<T>) {
    if r.items == [] && !r.stopped then (NothingYet, r)
    else if r.items == [] then (Drained, r)
    else (Item(r.items[0]), r.(items := r.items[1..]))
  }

  function Stop<T>(r: Ring<T>): Ring<T> {
    r.(stopped := true)
  }

  /** Pops until the queue reports that it is drained. */
  function PopAll<T>(r: Ring<T>, n: nat): (seq<PopResult<T>>, Ring<T>)
    decreases n
  {
    if n == 0 then ([], r) else
      var (first, r1) := Pop(r);
      var (rest, r2) := PopAll(r1, n - 1);
      ([first] + rest, r2)
  }

  /** After stop, pushes are refused and change nothing, and any number of pops first returns the
      accepted items in order and then reports the end, for ever. */
  lemma {:induction false} StopDrains<T>(r: Ring<T>, n: nat, x: T)
    requires r.stopped
    ensures Push(r, x) == (Refused, r)
    ensures var (results, end) := PopAll(r, n);
            && |results| == n
            && (forall k :: 0 <= k < n ==> results[k] == if k < |r.items| then Item(r.items[k]) else Drained)
            && end == r.(items := if n < |r.items| then r.items[n..] else [])
    decreases n
  {
    if n > 0 {
      var (first, r1) := Pop(r);
      StopDrains(r1, n - 1, x);
      if r.items != [] {
        assert forall k :: 0 < k < |r.items| ==> r.items[k] == r1.items[k - 1];
      }
    }
  }
}

module RingBuffer {
  import opened RingSpec

  /** Slot `i` places after `h` on a circle of `cap` slots. */
  function Slot(h: nat, i: nat, cap: nat): (s: nat)
    requires h < cap && i <= cap
    ensures s < cap && s == (h + i) % cap
  {
    if h + i < cap then
      RemainderBelow(h + i, cap);
      h + i
    else
      RemainderBelow(h + i - cap, cap);
      RemainderWraps(h + i, cap);
      h + i - cap
  }

  lemma RemainderBelow(x: nat, m: nat)
    requires x < m
    ensures x % m == x
  {
  }

  lemma RemainderWraps(x: nat, m: nat)
    requires m <= x < m + m
    ensures x % m == x - m
  {
    var q, r := x / m, x % m;
    MulMonotone(2, q, m);
    MulMonotone(q, 0, m);
    assert x == q * m + r;
  }

  lemma MulMonotone(a: int, b: int, m: nat)
    ensures a <= b ==> a * m <= b * m
  {
  }

  class RingBuffer<T(0)> {
    const slots: array<T>
    const capacity: nat
    var head: nat
    var tail: nat
    var size: nat
    var stopFlag: bool

    ghost predicate Valid()
      reads this
    {
      && capacity > 0 && slots.Length == capacity
      && head < capacity && tail < capacity && size <= capacity
      && tail == Slot(head, size, capacity)
    }

    /** The queue this object represents. */
    ghost function Abstract(): Ring<T>
      requires Valid()
      reads this, slots
    {
      Ring(seq(size, i requires 0 <= i < size reads this, slots requires Valid() => slots[Slot(head, i, capacity)]), capacity, stopFlag)
    }

    constructor (capacity: nat)
      requires capacity > 0
      ensures Valid() && fresh(slots) && Abstract() == Ring([], capacity, false)
    {
      this.slots := new T[capacity];
      this.capacity := capacity;
      head, tail, size, stopFlag := 0, 0, 0, false;
    }

    /** The constructor's capacity check: zero throws. */
    static method Create(capacity: nat) returns (r: RingBuffer?<T>)
      ensures capacity == 0 <==> r == null
      ensures r != null ==> fresh(r) && fresh(r.slots) && r.Valid() && r.Abstract() == Ring([], capacity, false)
    {
      if capacity == 0 {
        r := null;
      } else {
        r := new RingBuffer<T>(capacity);
      }
    }

    method PushLocked(item: T) returns (result: PushResult)
      requires Valid()
      modifies this`tail, this`size, slots
      ensures Valid()
      ensures (result, Abstract()) == Push(old(Abstract()), item)
    {
      ghost var before := Abstract();
      if !(size < capacity || stopFlag) {
        return MustWait;
      }
      if stopFlag {
        return Refused;
      }
      slots[tail] := item;
      tail := (tail + 1) % capacity;
      size := size + 1;
      assert tail == Slot(old(tail), 1, capacity);
      assert Abstract().items == before.items + [item];
      result := Accepted;
    }

    method PopLocked() returns (result: PopResult<T>)
      requires Valid()
      modifies this`head, this`size
      ensures Valid()
      ensures (result, Abstract()) == Pop(old(Abstract()))
    {
      ghost var before := Abstract();
      if !(size > 0 || stopFlag) {
        return NothingYet;
      }
      if stopFlag && size == 0 {
        return Drained;
      }
      var item := slots[head];
      head := (head + 1) % capacity;
      size := size - 1;
      assert head == Slot(old(head), 1, capacity);
      assert Abstract().items == before.items[1..];
      result := Item(item);
    }

    method StopLocked()
      requires Valid()
      modifies this`stopFlag
      ensures Valid() && Abstract() == Stop(old(Abstract()))
    {
      ghost var before := Abstract();
      stopFlag := true;
      assert Abstract().items == before.items;
    }
  }
}
