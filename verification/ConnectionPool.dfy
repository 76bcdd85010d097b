/** DBConnectionPool of src/core/db/db_operator.cpp, one critical section at a time: PoolSpec is
    the pool as values, ConnectionPool the class whose methods update it in place. */
module PoolSpec {

  /** A connection object: `new` hands out the numbers 0, 1, 2, ... in turn. */
  type Conn = nat

  /** `created` connections so far, of which `deleted` in that order. */
  datatype Pool = Pool(idle: seq<Conn>, active: int, shuttingDown: bool, created: nat, deleted: seq<Conn>)

  datatype GetResult = MustWait | Null | Leased(conn: Conn) | TimeoutError

  function NewConn(p: Pool): (Conn, Pool) {
    (p.created, p.(created := p.created + 1))
  }

  function Delete(p: Pool, c: Conn): Pool {
    p.(deleted := p.deleted + [c])
  }

  /** The constructor: one connection for each entry, kept if it connects. */
  function Construct(connects: seq<bool>): Pool
    decreases |connects|
  {
    if connects == [] then Pool([], 0, false, 0, []) else
      var n := |connects| - 1;
      var (c, p) := NewConn(Construct(connects[..n]));
      if connects[n] then p.(idle := p.idle + [c]) else Delete(p, c)
  }

  function Take(p: Pool): (GetResult, Pool)
    requires p.idle != []
  {
    if p.shuttingDown then (Null, p)
    else (Leased(p.idle[0]), p.(idle := p.idle[1..], active := p.active + 1))
  }

  /** getConnection up to its first wait. */
  function Enter(p: Pool): (GetResult, Pool) {
    if p.shuttingDown then (Null, p) else if p.idle == [] then (MustWait, p) else Take(p)
  }

  /** getConnection resumed inside wait_for, before or after its deadline. */
  function Resume(p: Pool, expired: bool): (GetResult, Pool) {
    if p.idle != [] then Take(p) else if expired then (TimeoutError, p) else (MustWait, p)
  }

  /** The deleter's critical section: a dead connection is replaced by a new one, connected or
      not. */
  function Return(p: Pool, c: Conn, alive: bool): Pool {
    var (c', p') := if alive then (c, p) else NewConn(Delete(p, c));
    p'.(idle := p'.idle + [c'], active := p'.active - 1)
  }

  /** The destructor's last section. */
  function Teardown(p: Pool): Pool {
    p.(deleted := p.deleted + p.idle, idle := [])
  }

  /** Each of 0, ..., n - 1 once. */
  function Range(n: nat): multiset<Conn> {
    if n == 0 then multiset{} else Range(n - 1) + multiset{n - 1}
  }

  lemma {:induction false} RangeCounts(n: nat, c: Conn)
    ensures Range(n)[c] == if c < n then 1 else 0
  {
    if n > 0 {
      RangeCounts(n - 1, c);
    }
  }

  function Trues(bs: seq<bool>): nat {
    if bs == [] then 0 else Trues(bs[..|bs| - 1]) + if bs[|bs| - 1] then 1 else 0
  }

  ghost predicate Increasing(cs: seq<Conn>) {
    forall i, j :: 0 <= i < j < |cs| ==> cs[i] < cs[j]
  }

  ghost predicate Members(cs: seq<Conn>, connects: seq<bool>, which: bool) {
    forall c: nat :: c in cs <==> c < |connects| && connects[c] == which
  }

  /** `cs` are the numbers of the entries equal to `which`, in order. */
  ghost predicate Picks(cs: seq<Conn>, connects: seq<bool>, which: bool) {
    Members(cs, connects, which) && Increasing(cs)
  }

  lemma MembersNext(cs: seq<Conn>, connects: seq<bool>, which: bool)
    requires connects != [] && Members(cs, connects[..|connects| - 1], which)
    ensures var n := |connects| - 1; Members(if connects[n] == which then cs + [n] else cs, connects, which)
  {
    var n := |connects| - 1;
    var next := if connects[n] == which then cs + [n] else cs;
    forall c: nat ensures c in next <==> c < |connects| && connects[c] == which {
      assert c in next <==> c in cs || (connects[n] == which && c == n);
      assert c < n ==> connects[..n][c] == connects[c];
    }
  }

  lemma IncreasingNext(cs: seq<Conn>, n: nat)
    requires Increasing(cs) && forall c :: c in cs ==> c < n
    ensures Increasing(cs + [n])
  {
    forall i, j | 0 <= i < j < |cs + [n]| ensures (cs + [n])[i] < (cs + [n])[j] {
      assert cs[i] in cs;
    }
  }

  lemma PicksNext(cs: seq<Conn>, connects: seq<bool>, which: bool)
    requires connects != [] && Picks(cs, connects[..|connects| - 1], which)
    ensures var n := |connects| - 1; Picks(if connects[n] == which then cs + [n] else cs, connects, which)
  {
    hide Increasing;
    MembersNext(cs, connects, which);
    IncreasingNext(cs, |connects| - 1);
  }

  /** Whatever connects: the idle connections are exactly those that succeeded, in the order they were
      made, every other one was deleted at once, and nothing is leaked or kept twice. */
  lemma {:induction false} ConstructAccounts(connects: seq<bool>)
    ensures var p := Construct(connects);
            && p.active == 0 && !p.shuttingDown && p.created == |connects|
            && Picks(p.idle, connects, true) && Picks(p.deleted, connects, false)
            && |p.idle| == Trues(connects)
            && multiset(p.deleted) + multiset(p.idle) == Range(p.created)
    decreases |connects|
  {
    hide Picks, Members, Increasing, Range;
    RangeNext(if connects == [] then 0 else |connects| - 1);
    if connects == [] {
      assert Picks([], [], true) && Picks([], [], false) by { NoPicks(); }
    } else {
      var before := Construct(connects[..|connects| - 1]);
      ConstructAccounts(connects[..|connects| - 1]);
      PicksNext(before.idle, connects, true);
      PicksNext(before.deleted, connects, false);
      OneMore(multiset(before.deleted), multiset(before.idle), multiset{before.created});
    }
  }

  lemma NoPicks()
    ensures Picks([], [], true) && Picks([], [], false)
  {
  }

  lemma OneMore(d: multiset<Conn>, i: multiset<Conn>, n: multiset<Conn>)
    ensures (d + n) + i == d + (i + n) == d + i + n
  {
  }

  lemma RangeNext(n: nat)
    ensures Range(0) == multiset{} && Range(n + 1) == Range(n) + multiset{n}
  {
  }
}

module ConnectionPool {
  import opened PoolSpec

  class DBConnectionPool {
    var idle: seq<Conn>
    var active: int
    var shuttingDown: bool
    var created: nat
    var deleted: seq<Conn>

    function Abstract(): Pool
      reads this
    {
      Pool(idle, active, shuttingDown, created, deleted)
    }

    method New() returns (c: Conn)
      modifies this`created
      ensures (c, Abstract()) == NewConn(old(Abstract()))
    {
      c := created;
      created := created + 1;
    }

    method DeleteConn(c: Conn)
      modifies this`deleted
      ensures Abstract() == Delete(old(Abstract()), c)
    {
      deleted := deleted + [c];
    }

    constructor (connects: seq<bool>)
      ensures Abstract() == Construct(connects)
    {
      idle, active, shuttingDown, created, deleted := [], 0, false, 0, [];
      new;
      for i := 0 to |connects|
        invariant Abstract() == Construct(connects[..i])
      {
        assert connects[..i + 1][..i] == connects[..i];
        var conn := New();
        if connects[i] {
          idle := idle + [conn];
        } else {
          DeleteConn(conn);
        }
      }
      assert connects[..|connects|] == connects;
    }

    method GetConnectionStart() returns (result: GetResult)
      modifies this`idle, this`active
      ensures (result, Abstract()) == Enter(old(Abstract()))
    {
      if shuttingDown {
        return Null;
      }
      if idle == [] {
        return MustWait;
      }
      result := Lease();
    }

    method GetConnectionResume(expired: bool) returns (result: GetResult)
      modifies this`idle, this`active
      ensures (result, Abstract()) == Resume(old(Abstract()), expired)
    {
      var success := idle != [];
      if !success {
        return if expired then TimeoutError else MustWait;
      }
      if shuttingDown || idle == [] {
        return Null;
      }
      result := Lease();
    }

    method Lease() returns (result: GetResult)
      requires idle != [] && !shuttingDown
      modifies this`idle, this`active
      ensures (result, Abstract()) == Take(old(Abstract()))
    {
      var conn := idle[0];
      idle := idle[1..];
      active := active + 1;
      result := Leased(conn);
    }

    method ReturnConnection(conn: Conn, alive: bool)
      modifies this
      ensures Abstract() == Return(old(Abstract()), conn, alive)
    {
      var back := conn;
      if !alive {
        DeleteConn(back);
        back := New();
      }
      idle := idle + [back];
      active := active - 1;
    }

    method SetShuttingDown()
      modifies this`shuttingDown
      ensures Abstract() == old(Abstract()).(shuttingDown := true)
    {
      shuttingDown := true;
    }

    method CloseAll()
      modifies this`idle, this`deleted
      ensures Abstract() == Teardown(old(Abstract()))
    {
      ghost var all := deleted + idle;
      while idle != []
        invariant deleted + idle == all
        decreases |idle|
      {
        var conn := idle[0];
        idle := idle[1..];
        DeleteConn(conn);
      }
      assert deleted + [] == deleted;
    }
  }
}
