/** The pool of database connections: a stack of idle connections that
    requests borrow from and give back to.

    Connections are opaque ids. `Pool` is the abstract state: every connection
    the pool owns, the idle stack (its back is the top) and the connections
    currently checked out. The class `DBPool` keeps the stack in a field and
    pushes and pops it as the original's vector does; the checked-out set and
    the set of all connections are ghost bookkeeping. */
module DbPool {
  import opened Common
  import opened Trace

  datatype Pool = Pool(all: set<Conn>, idle: seq<Conn>, checkedOut: set<Conn>) {

    /** Each connection is idle at most once, and the idle connections and the
        checked-out ones partition the connections the pool owns. */
    predicate Valid() {
      && NoDup(idle)
      && Elems(idle) !! checkedOut
      && Elems(idle) + checkedOut == all
    }

    /** Takes the most recently returned idle connection, or reports that none
        is idle; it never waits. */
    function Acquire(): (r: (Option<Conn>, Pool))
      requires Valid()
      ensures r.1.Valid() && r.1.all == all
      ensures r.0.None? <==> idle == []
      ensures r.0.None? ==> r.1 == this
      ensures r.0.Some? ==>
                && r.0.value == idle[|idle| - 1]
                && r.0.value !in checkedOut
                && r.1.checkedOut == checkedOut + {r.0.value}
                && r.0.value !in r.1.idle
                && r.1.idle == idle[..|idle| - 1]
    {
      if idle == [] then
        (None, this)
      else
        var c := idle[|idle| - 1];
        DropLast(idle);
        assert c in Elems(idle);
        (Some(c), Pool(all, idle[..|idle| - 1], checkedOut + {c}))
    }

    /** Pushes a checked-out connection back on the idle stack. */
    function Release(c: Conn): (r: Pool)
      requires Valid() && c in checkedOut
      ensures r.Valid() && r.all == all
      ensures r.idle == idle + [c]
      ensures r.checkedOut == checkedOut - {c}
    {
      assert c !in idle by {
        assert c !in Elems(idle);
      }
      AppendNoDup(idle, c);
      assert Elems(idle + [c]) == Elems(idle) + {c};
      Pool(all, idle + [c], checkedOut - {c})
    }
  }

  /** Acquires `n` times in a row without releasing. */
  function AcquireTimes(p: Pool, n: nat): (r: Pool)
    requires p.Valid()
    ensures r.Valid() && r.all == p.all
    decreases n
  {
    if n == 0 then p else AcquireTimes(p.Acquire().1, n - 1)
  }

  /** Acquiring and then releasing the connection got gives back the very
      same pool: same idle stack, same checked-out set. */
  lemma AcquireRelease(p: Pool)
    requires p.Valid() && p.idle != []
    ensures p.Acquire().0.Some?
    ensures p.Acquire().1.Release(p.Acquire().0.value) == p
  {
    var c := p.idle[|p.idle| - 1];
    assert p.idle[..|p.idle| - 1] + [c] == p.idle;
    assert c !in p.checkedOut by {
      assert c in Elems(p.idle);
    }
    assert p.checkedOut + {c} - {c} == p.checkedOut;
  }

  /** Releasing a connection and acquiring again hands out that connection
      (the stack is last in, first out) and restores the pool. */
  lemma ReleaseAcquire(p: Pool, c: Conn)
    requires p.Valid() && c in p.checkedOut
    ensures p.Release(c).Acquire().0 == Some(c)
    ensures p.Release(c).Acquire().1 == p
  {
    var q := p.Release(c);
    assert q.idle[..|q.idle| - 1] == p.idle;
    assert c !in Elems(p.idle);
    assert p.checkedOut - {c} + {c} == p.checkedOut;
  }

  /** The `k`-th acquisition in a row, for `k` below the number of idle
      connections, pops the `k`-th connection from the top of the stack. */
  lemma {:induction false} AcquireTimesPops(p: Pool, n: nat)
    requires p.Valid() && n <= |p.idle|
    ensures AcquireTimes(p, n).idle == p.idle[..|p.idle| - n]
    decreases n
  {
    if n > 0 {
      var q := p.Acquire().1;
      assert q.idle == p.idle[..|p.idle| - 1];
      AcquireTimesPops(q, n - 1);
      assert q.idle[..|q.idle| - (n - 1)] == p.idle[..|p.idle| - n];
    }
  }

  /** With `N` idle connections, the first `N` acquisitions in a row all
      succeed, the `k`-th of them getting the connection `k` places from the
      top of the stack, and the next one reports exhaustion. */
  lemma Exhaustion(p: Pool)
    requires p.Valid()
    ensures forall k :: 0 <= k < |p.idle| ==>
              AcquireTimes(p, k).Acquire().0 == Some(p.idle[|p.idle| - 1 - k])
    ensures AcquireTimes(p, |p.idle|).Acquire().0 == None
  {
    forall k | 0 <= k < |p.idle|
      ensures AcquireTimes(p, k).Acquire().0 == Some(p.idle[|p.idle| - 1 - k])
    {
      AcquireTimesPops(p, k);
    }
    AcquireTimesPops(p, |p.idle|);
  }

  /** The ids of the connection attempts that succeeded, in order. */
  function Established(connectOk: seq<bool>): (r: seq<Conn>)
    ensures NoDup(r)
    ensures forall i :: 0 <= i < |connectOk| ==> (Conn(i) in r <==> connectOk[i])
    ensures forall c :: c in r ==> c.id < |connectOk|
    ensures forall i, j :: 0 <= i < j < |r| ==> r[i].id < r[j].id
    ensures |r| <= |connectOk|
  {
    if connectOk == [] then []
    else
      var n := |connectOk| - 1;
      var front := Established(connectOk[..n]);
      assert forall i :: 0 <= i < n ==> connectOk[..n][i] == connectOk[i];
      if connectOk[n] then
        assert Conn(n) !in front;
        AppendNoDup(front, Conn(n));
        var r := front + [Conn(n)];
        assert forall i :: 0 <= i < |front| ==> r[i] == front[i] && front[i] in front;
        r
      else
        front
  }

  /** The pool object: a vector of idle connections used as a stack. */
  class DBPool {
    var connections: seq<Conn>
    ghost var checkedOut: set<Conn>
    ghost const all: set<Conn>

    /** The abstract state held by the fields. */
    ghost function View(): Pool
      reads this
    {
      Pool(all, connections, checkedOut)
    }

    ghost predicate Valid()
      reads this
    {
      View().Valid()
    }

    /** Makes `poolSize` connection attempts; attempt `i` succeeds when
        `connectOk[i]` holds, and the pool keeps the connections that were
        established, in the order they were made. */
    constructor (poolSize: nat, connectOk: seq<bool>)
      requires |connectOk| == poolSize
      ensures Valid()
      ensures connections == Established(connectOk)
      ensures checkedOut == {} && all == Elems(connections)
      ensures |connections| <= poolSize
    {
      var established: seq<Conn> := [];
      for i := 0 to poolSize
        invariant established == Established(connectOk[..i])
      {
        assert connectOk[..i + 1][..i] == connectOk[..i];
        if connectOk[i] {
          established := established + [Conn(i)];
        }
      }
      assert connectOk[..poolSize] == connectOk;
      connections := established;
      checkedOut := {};
      all := Elems(established);
    }

    /** Pops the connection at the back of the stack, or returns nothing
        when no connection is idle. */
    method GetConnection(ghost log: Log) returns (conn: Option<Conn>)
      requires Valid()
      modifies this, log
      ensures Valid()
      ensures (conn, View()) == old(View()).Acquire()
      ensures log.steps == old(log.steps) + [Acquired(conn)]
    {
      ghost var after := View().Acquire();
      if connections == [] {
        conn := None;
      } else {
        var c := connections[|connections| - 1];
        connections := connections[..|connections| - 1];
        checkedOut := checkedOut + {c};
        conn := Some(c);
      }
      log.steps := log.steps + [Acquired(conn)];
      assert (conn, View()) == after;
    }

    /** Pushes a connection back on the stack. The original does not check
        that the connection is checked out; here the caller must ensure it. */
    method ReleaseConnection(conn: Conn, ghost log: Log)
      requires Valid() && conn in checkedOut
      modifies this, log
      ensures Valid()
      ensures View() == old(View()).Release(conn)
      ensures log.steps == old(log.steps) + [Released(conn)]
    {
      ghost var after := View().Release(conn);
      connections := connections + [conn];
      checkedOut := checkedOut - {conn};
      log.steps := log.steps + [Released(conn)];
      assert View() == after;
    }
  }
}
