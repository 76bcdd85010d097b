/** The Sender of src/sender/sender.cpp: its packet format (SenderWire), its fields and their
    updates as values (SenderCore), and the class that makes the updates in place
    (SenderObject). SenderSystem.dfy runs them as a worker thread among callers. */
module SenderWire {
  import opened Basics

  /** htonl of the low 32 bits. */
  function BigEndian32(n: nat): seq<Byte> {
    [n / 0x100_0000 % 256, n / 0x1_0000 % 256, n / 0x100 % 256, n % 256]
  }

  function Value32(s: seq<Byte>): nat
    requires |s| >= 4
  {
    ((s[0] as int * 256 + s[1] as int) * 256 + s[2] as int) * 256 + s[3] as int
  }

  /** buildPacket: the body behind its length, which is cast to 32 bits. */
  function Packet(body: seq<Byte>): seq<Byte> {
    BigEndian32(|body| % 0x1_0000_0000) + body
  }

  function Packets(bodies: seq<seq<Byte>>): seq<Byte>
    decreases |bodies|
  {
    if bodies == [] then [] else Packet(bodies[0]) + Packets(bodies[1..])
  }

  lemma {:induction false} PacketsAppend(bodies: seq<seq<Byte>>, b: seq<Byte>)
    ensures Packets(bodies + [b]) == Packets(bodies) + Packet(b)
    decreases |bodies|
  {
    hide Packet;
    if bodies == [] {
      assert ([b])[1..] == [];
      assert Packets([b]) == Packet(b) + Packets([]);
      assert bodies + [b] == [b];
    } else {
      assert (bodies + [b])[1..] == bodies[1..] + [b];
      PacketsAppend(bodies[1..], b);
    }
  }

  /** A receiver of length-prefixed messages: the complete bodies, and the bytes left over. */
  function Receive(wire: seq<Byte>): (seq<seq<Byte>>, seq<Byte>)
    decreases |wire|
  {
    if |wire| < 4 || |wire| < 4 + Value32(wire) then ([], wire) else
      var n := Value32(wire);
      var (more, rest) := Receive(wire[4 + n..]);
      ([wire[4..4 + n]] + more, rest)
  }

  predicate Fits(body: seq<Byte>) {
    |body| < 0x1_0000_0000
  }

  lemma Value32Inverts(n: nat, after: seq<Byte>)
    requires n < 0x1_0000_0000
    ensures Value32(BigEndian32(n) + after) == n
  {
    var a, b, c := n / 0x100, n / 0x1_0000, n / 0x100_0000;
    assert n == a * 256 + n % 256;
    assert a == b * 256 + a % 256 by { assert n / 0x100 / 256 == n / 0x1_0000; }
    assert b == c * 256 + b % 256 by { assert n / 0x1_0000 / 256 == n / 0x100_0000; }
    assert c < 256;
  }

  /** Receiving a packet that fits yields its body and goes on with what follows. */
  lemma ReceivePacket(body: seq<Byte>, after: seq<Byte>)
    requires Fits(body)
    ensures var (more, rest) := Receive(after);
            Receive(Packet(body) + after) == ([body] + more, rest)
  {
    hide Value32, BigEndian32;
    var wire := Packet(body) + after;
    assert wire == BigEndian32(|body|) + (body + after);
    assert |BigEndian32(|body|)| == 4 by { FourBytes(|body|); }
    Value32Inverts(|body|, body + after);
    assert wire[4..4 + |body|] == body && wire[4 + |body|..] == after;
  }

  lemma FourBytes(n: nat)
    ensures |BigEndian32(n)| == 4
  {
  }

  lemma ReceivePart(body: seq<Byte>, off: nat)
    requires Fits(body) && off < |Packet(body)|
    ensures Receive(Packet(body)[..off]) == ([], Packet(body)[..off])
  {
    hide BigEndian32, Value32;
    FourBytes(|body|);
    if off >= 4 {
      var p := Packet(body)[..off];
      assert p == BigEndian32(|body|) + body[..off - 4];
      Value32Inverts(|body|, body[..off - 4]);
    }
  }

  /** A receiver recovers exactly the bodies of the whole packets, whatever part of one more
      packet follows them. */
  lemma {:induction false} ReceivePackets(bodies: seq<seq<Byte>>, cut: seq<Byte>, off: nat)
    requires Fits(cut) && off < |Packet(cut)|
    requires forall k :: 0 <= k < |bodies| ==> Fits(bodies[k])
    ensures Receive(Packets(bodies) + Packet(cut)[..off]) == (bodies, Packet(cut)[..off])
    decreases |bodies|
  {
    hide Packet, Receive;
    var part := Packet(cut)[..off];
    if bodies == [] {
      assert Packets(bodies) + part == part;
      ReceivePart(cut, off);
    } else {
      ReceivePackets(bodies[1..], cut, off);
      ReceivePacket(bodies[0], Packets(bodies[1..]) + part);
      assert Packets(bodies) + part == Packet(bodies[0]) + (Packets(bodies[1..]) + part);
      assert [bodies[0]] + bodies[1..] == bodies;
    }
  }

  /** The length prefix is right exactly for bodies below 2^32 bytes. */
  lemma PacketReceivedIff(body: seq<Byte>)
    ensures Receive(Packet(body)) == ([body], []) <==> Fits(body)
  {
    if Fits(body) {
      ReceivePacket(body, []);
      assert Packet(body) + [] == Packet(body) && [body] + [] == [body];
    } else {
      var n := |body| % 0x1_0000_0000;
      Value32Inverts(n, body);
      assert Receive(Packet(body)).0[0] == Packet(body)[4..4 + n];
    }
  }
}

module SenderCore {
  import opened Basics

  datatype Options = Options(batchSize: nat, maxQueueSize: nat, maxBackoffMs: int)

  /** The fields that change; `open` is m_sockfd >= 0. */
  datatype Core<J> = Core(
    queue: seq<J>, open: bool, backoff: int, totalSent: nat, totalDropped: nat, reconnectCount: nat, running: bool)

  function Min(a: int, b: int): int {
    if a < b then a else b
  }

  function New<J>(): Core<J> {
    Core([], false, 500, 0, 0, 0, true)
  }

  predicate Full<J>(o: Options, c: Core<J>) {
    |c.queue| >= o.maxQueueSize
  }

  /** enqueue; pop_front of an empty deque is undefined, so a full queue must not be empty. */
  function Enqueue<J>(o: Options, c: Core<J>, j: J): Core<J>
    requires o.maxQueueSize > 0
  {
    if Full(o, c)
    then c.(queue := c.queue[1..] + [j], totalDropped := c.totalDropped + 1)
    else c.(queue := c.queue + [j])
  }

  function BatchCount<J>(o: Options, c: Core<J>): nat {
    Min(o.batchSize, |c.queue|)
  }

  function TakeBatch<J>(o: Options, c: Core<J>): (seq<J>, Core<J>) {
    var n := BatchCount(o, c);
    (c.queue[..n], c.(queue := c.queue[n..]))
  }

  function Rollback<J>(c: Core<J>, batch: seq<J>): Core<J> {
    c.(queue := batch + c.queue)
  }

  /** tryReconnect, by whether connectSocket succeeds. */
  function TryReconnect<J>(o: Options, c: Core<J>, ok: bool): Core<J> {
    if ok then c.(open := true)
    else c.(open := false, reconnectCount := c.reconnectCount + 1, backoff := Min(c.backoff * 2, o.maxBackoffMs))
  }

  function CloseSocket<J>(c: Core<J>): Core<J> {
    c.(open := false)
  }

  function Delivered<J>(c: Core<J>, batch: seq<J>): Core<J> {
    c.(totalSent := c.totalSent + |batch|, backoff := 500)
  }

  function StopRunning<J>(c: Core<J>): Core<J> {
    c.(running := false)
  }

  /** The backoff after `k` failed connections since the last delivery: 500 ms doubled each time
      up to the cap. A negative cap is itself doubled each time. */
  function BackoffAfter(o: Options, k: nat): int {
    if k == 0 then 500
    else if o.maxBackoffMs >= 0 then Min(500 * Pow2(k), o.maxBackoffMs)
    else o.maxBackoffMs * Pow2(k - 1)
  }

  lemma BackoffDoubles(o: Options, k: nat)
    ensures Min(BackoffAfter(o, k) * 2, o.maxBackoffMs) == BackoffAfter(o, k + 1)
  {
    if o.maxBackoffMs >= 0 || k == 0 {
      assert 500 * Pow2(k + 1) == 2 * (500 * Pow2(k));
    } else {
      NegativeDoubles(o.maxBackoffMs, Pow2(k - 1));
      assert Pow2(k) == 2 * Pow2(k - 1);
    }
  }

  lemma NegativeDoubles(cap: int, p: nat)
    requires cap < 0 && p > 0
    ensures cap * p * 2 == cap * (2 * p) <= cap * p <= cap
  {
  }

  const INT_MIN: int := -0x8000_0000
  const INT_MAX: int := 0x7FFF_FFFF

  /** The doubled backoff, computed in an int before the cap is applied, does not overflow. */
  predicate DoublingFits(backoff: int) {
    INT_MIN <= backoff * 2 <= INT_MAX
  }

  /** No number of failures makes the doubling overflow exactly when the cap is from 0 to 2^30 - 1. */
  lemma BackoffFitsIff(o: Options)
    ensures (forall k: nat :: DoublingFits(BackoffAfter(o, k))) <==> 0 <= o.maxBackoffMs < 0x4000_0000
  {
    assert Pow2(8) == 256 && Pow2(11) == 2048;
    Pow2Plus(8, 8);
    if o.maxBackoffMs < 0 {
      Pow2Plus(16, 16);
      assert o.maxBackoffMs * 0x1_0000_0000 <= -0x1_0000_0000;
      assert !DoublingFits(BackoffAfter(o, 33));
    } else if o.maxBackoffMs >= 0x4000_0000 {
      Pow2Plus(11, 11);
      assert !DoublingFits(BackoffAfter(o, 22));
    }
  }
}

module SenderObject {
  import opened Basics
  import opened SenderWire
  import opened SenderCore

  /** What one ::send call does. */
  datatype Reply = Took(n: nat) | Interrupted | Refused

  /** sendAll against a list of replies: whether it succeeds, and the bytes the kernel took. A
      reply never takes more than is offered; running out of replies is a refusal. */
  function SendAll(data: seq<Byte>, replies: seq<Reply>): (bool, seq<Byte>)
    decreases |replies|
  {
    if data == [] then (true, [])
    else if replies == [] then (false, [])
    else
      match replies[0]
      case Interrupted => SendAll(data, replies[1..])
      case Refused => (false, [])
      case Took(n) =>
        var k := Min(n, |data|);
        if k == 0 then (false, []) else
          var (ok, taken) := SendAll(data[k..], replies[1..]);
          (ok, data[..k] + taken)
  }

  /** sendAll succeeds exactly when everything was taken; else a proper prefix was. */
  lemma {:induction false} SendAllPrefix(data: seq<Byte>, replies: seq<Reply>)
    ensures var (ok, taken) := SendAll(data, replies);
            taken <= data && (ok <==> taken == data)
    decreases |replies|
  {
    if data != [] && replies != [] {
      match replies[0] {
        case Interrupted => SendAllPrefix(data, replies[1..]);
        case Refused =>
        case Took(n) =>
          var k := Min(n, |data|);
          SendAllPrefix(data[k..], replies[1..]);
          assert data == data[..k] + data[k..];
      }
    }
  }

  /** What the kernel is ready to take before it refuses, closes, or stops replying; interrupted calls
      count for nothing and end nothing. */
  function Offered(replies: seq<Reply>): nat
    decreases |replies|
  {
    if replies == [] then 0 else
      match replies[0]
      case Interrupted => Offered(replies[1..])
      case Refused => 0
      case Took(n) => if n == 0 then 0 else n + Offered(replies[1..])
  }

  /** sendAll goes on after partial writes and interruptions: it succeeds exactly when the kernel is
      ready to take all the data in the end, and otherwise as much was taken as it was ready for. */
  lemma {:induction false} SendAllIff(data: seq<Byte>, replies: seq<Reply>)
    ensures var (ok, taken) := SendAll(data, replies);
            && (ok <==> Offered(replies) >= |data|)
            && taken == data[..Min(|data|, Offered(replies))]
    decreases |replies|
  {
    if data != [] && replies != [] {
      match replies[0] {
        case Interrupted => SendAllIff(data, replies[1..]);
        case Refused =>
        case Took(n) =>
          var k := Min(n, |data|);
          SendAllIff(data[k..], replies[1..]);
          var more := Min(|data| - k, Offered(replies[1..]));
          assert data[..k] + data[k..][..more] == data[..k + more];
      }
    }
  }

  /** What the wire holds afterwards, with `start` on it before. */
  lemma SendOutcome(start: seq<Byte>, data: seq<Byte>, replies: seq<Reply>)
    ensures var (ok, taken) := SendAll(data, replies);
            && (ok <==> start + taken == start + data)
            && (ok <==> Offered(replies) >= |data|)
            && start + taken == start + data[..Min(|data|, Offered(replies))]
  {
    hide SendAll, Offered;
    SendAllPrefix(data, replies);
    SendAllIff(data, replies);
    var taken := SendAll(data, replies).1;
    if start + taken == start + data {
      assert (start + taken)[|start|..] == taken && (start + data)[|start|..] == data;
    }
  }

  class Sender<J> {
    const opt: Options
    var queue: seq<J>
    var open: bool
    var backoff: int
    var totalSent: nat
    var totalDropped: nat
    var reconnectCount: nat
    var running: bool
    /** Everything the kernel took on the current connection. */
    var wire: seq<Byte>

    function Abstract(): Core<J>
      reads this
    {
      Core(queue, open, backoff, totalSent, totalDropped, reconnectCount, running)
    }

    constructor (opt: Options)
      ensures Abstract() == New() && this.opt == opt && wire == []
    {
      this.opt := opt;
      queue, open, backoff, running := [], false, 500, true;
      totalSent, totalDropped, reconnectCount := 0, 0, 0;
      wire := [];
    }

    method Enqueue(j: J)
      requires opt.maxQueueSize > 0
      modifies this`queue, this`totalDropped
      ensures Abstract() == SenderCore.Enqueue(opt, old(Abstract()), j)
    {
      if |queue| >= opt.maxQueueSize {
        queue := queue[1..];
        totalDropped := totalDropped + 1;
      }
      queue := queue + [j];
    }

    /** The batch move loop of run. */
    method DrainBatch() returns (batch: seq<J>)
      modifies this`queue
      ensures (batch, Abstract()) == TakeBatch(opt, old(Abstract()))
    {
      batch := [];
      ghost var all := queue;
      var count := Min(opt.batchSize, |queue|);
      for i := 0 to count
        invariant batch == all[..i] && queue == all[i..]
      {
        batch := batch + [queue[0]];
        queue := queue[1..];
      }
    }

    method RollbackBatch(batch: seq<J>)
      modifies this`queue
      ensures Abstract() == Rollback(old(Abstract()), batch)
    {
      ghost var before := queue;
      var it := |batch|;
      while it > 0
        invariant 0 <= it <= |batch| && queue == batch[it..] + before
      {
        it := it - 1;
        queue := [batch[it]] + queue;
      }
    }

    /** connectSocket: a failed connect closes the new descriptor again. */
    method ConnectSocket(created: bool, connected: bool) returns (ok: bool)
      modifies this`open, this`wire
      ensures ok == (created && connected) && open == ok
      ensures wire == if created then [] else old(wire)
    {
      open := created;
      if !open {
        return false;
      }
      wire := [];
      if !connected {
        Close();
        return false;
      }
      ok := true;
    }

    method Reconnect(created: bool, connected: bool) returns (ok: bool)
      modifies this`open, this`wire, this`reconnectCount, this`backoff
      ensures ok == (created && connected)
      ensures ok ==> wire == []
      ensures Abstract() == TryReconnect(opt, old(Abstract()), ok)
    {
      ok := ConnectSocket(created, connected);
      if !ok {
        reconnectCount := reconnectCount + 1;
        backoff := Min(backoff * 2, opt.maxBackoffMs);
      }
    }

    method Close()
      modifies this`open
      ensures Abstract() == CloseSocket(old(Abstract()))
    {
      if open {
        open := false;
      }
    }

    method BuildPacket(body: seq<Byte>) returns (packet: seq<Byte>)
      ensures packet == Packet(body)
    {
      var len := BigEndian32(|body| % 0x1_0000_0000);
      packet := len + body;
    }

    method SendPacket(data: seq<Byte>, replies: seq<Reply>) returns (ok: bool)
      requires open
      modifies this`wire
      ensures (ok, wire) == (SendAll(data, replies).0, old(wire) + SendAll(data, replies).1)
      ensures ok <==> wire == old(wire) + data
      ensures ok <==> Offered(replies) >= |data|
      ensures wire == old(wire) + data[..Min(|data|, Offered(replies))]
    {
      ghost var start := wire;
      ghost var goal := SendAll(data, replies);
      SendOutcome(start, data, replies);
      var total, i := 0, 0;
      while total < |data|
        invariant 0 <= total <= |data| && 0 <= i <= |replies|
        invariant var (done, taken) := SendAll(data[total..], replies[i..]);
                  done == goal.0 && wire + taken == start + goal.1
        decreases |replies| - i
      {
        if i == |replies| {
          return false;
        }
        assert wire + [] == wire;
        ghost var left, more := data[total..], replies[i..];
        assert more[1..] == replies[i + 1..];
        var reply := replies[i];
        i := i + 1;
        if reply == Interrupted {
          continue;
        }
        var n := if reply == Refused then 0 else Min(reply.n, |data| - total);
        if n == 0 {
          return false;
        }
        wire := wire + data[total..total + n];
        assert left[n..] == data[total + n..] && left[..n] == data[total..total + n];
        total := total + n;
      }
      assert data[total..] == [] && wire + [] == wire;
      ok := true;
    }

    /** The work of one batch in run: from an unlocked drain to the next look at the queue. */
    method SendBatch(batch: seq<J>, body: seq<Byte>, first: (bool, bool), replies: seq<Reply>, again: (bool, bool)) returns (sent: bool)
      modifies this
      ensures var connected := old(open) || (first.0 && first.1);
              sent == (connected && SendAll(Packet(body), replies).0)
      ensures sent ==> Abstract() == Delivered((if old(open) then old(Abstract()) else TryReconnect(opt, old(Abstract()), true)), batch)
      ensures sent && old(open) ==> wire == old(wire) + Packet(body)
      ensures sent && !old(open) ==> wire == Packet(body)
      ensures !sent && !old(open) && !(first.0 && first.1) ==>
        Abstract() == Rollback(TryReconnect(opt, old(Abstract()), false), batch)
      ensures !sent && (old(open) || (first.0 && first.1)) ==>
        Abstract() == TryReconnect(opt, CloseSocket(Rollback(old(Abstract()), batch)), again.0 && again.1)
    {
      if !open {
        var ok := Reconnect(first.0, first.1);
        if !ok {
          RollbackBatch(batch);
          return false;
        }
      }
      var packet := BuildPacket(body);
      sent := SendPacket(packet, replies);
      if !sent {
        RollbackBatch(batch);
        Close();
        var _ := Reconnect(again.0, again.1);
      } else {
        totalSent := totalSent + |batch|;
        backoff := 500;
      }
    }
  }
}
