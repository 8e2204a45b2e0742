// The pool and its leases as the objects of internal/conn/pool.go. Each method is a run of
// the machine by one goroutine, whatever the others hold meanwhile, so what holds of every
// run of the machine holds of every call.
module Pool {
  import opened Wrappers
  import opened PoolMachine

  datatype AcquireError = Cancelled | PoolClosed | DialFailed | BindFailed

  /** The fields of a pool, and what the world has seen: how many dials succeeded and what was closed. */
  datatype Fields = Fields(sem: nat, idle: seq<Conn>, done: bool, dialled: nat, closed: seq<Conn>)

  /** Acquire: granted is false when the select took the context's case; dials and binds are what the
      network answers, if asked. Every failure leaves the permits as they were. */
  function Acquired(f: Fields, granted: bool, dials: bool, binds: bool): (Result<Conn, AcquireError>, Fields) {
    if !granted then (Err(Cancelled), f)
    else if f.done then (Err(PoolClosed), f)
    else if f.idle != [] then
      (Ok(f.idle[|f.idle| - 1]), f.(sem := f.sem + 1, idle := f.idle[..|f.idle| - 1]))
    else if !dials then (Err(DialFailed), f)
    else if !binds then (Err(BindFailed), f.(dialled := f.dialled + 1, closed := f.closed + [f.dialled]))
    else (Ok(f.dialled), f.(sem := f.sem + 1, dialled := f.dialled + 1))
  }

  /** Release and Discard: a connection is pooled only if it is sound and the pool is open. */
  function GivenBack(f: Fields, conn: Conn, transport: bool): Fields
    requires f.sem > 0
  {
    if transport || f.done then f.(sem := f.sem - 1, closed := f.closed + [conn])
    else f.(sem := f.sem - 1, idle := f.idle + [conn])
  }

  class ConnPool {
    const size: nat
    var sem: nat
    var idle: seq<Conn>
    var done: bool
    var dialled: nat
    var closed: seq<Conn>
    ghost var bound: set<Conn>
    ghost var broken: set<Conn>

    constructor (size: int)
      ensures this.size == (if size <= 0 then 4 else size)
      ensures Now() == Fields(0, [], false, 0, [])
      ensures Seen([]) == Start(this.size, 0)
    {
      this.size := if size <= 0 then 4 else size;
      sem, idle, done, dialled, closed := 0, [], false, 0, [];
      bound, broken := {}, {};
      new;
      assert seq(0, _ => Outside) == [];
    }

    function Now(): Fields
      reads this
    {
      Fields(sem, idle, done, dialled, closed)
    }

    /** The machine's state when the goroutines stand at threads. */
    ghost function Seen(threads: seq<Phase>): State
      reads this
    {
      State(size, sem, idle, done, dialled, bound, broken, closed, threads)
    }

    method Acquire(granted: bool, dials: bool, binds: bool, ghost others: seq<Phase>) returns (r: Result<Lease, AcquireError>)
      requires granted ==> sem < size
      modifies this
      ensures Acquired(old(Now()), granted, dials, binds).0 == if r.Ok? then Ok(r.value.conn) else Err(r.error)
      ensures Now() == Acquired(old(Now()), granted, dials, binds).1
      ensures r.Ok? ==> fresh(r.value) && r.value.pool == this && !r.value.returned
      ensures Reaches(old(Seen(others + [Outside])), Seen(others + [if r.Ok? then Leased(r.value.conn) else Outside]))
    {
      ghost var a := Seen(others + [Outside]);
      ReachesItself(a);
      if !granted {
        return Err(Cancelled);
      }
      EnterSemaphore(a, others);
      var c := TakeOrDial(dials, binds, a, others);
      if c.Err? {
        GivePermitBack(a, others);
        return Err(c.error);
      }
      var lease := new Lease(this, c.value);
      return Ok(lease);
    }

    /** Acquire past the semaphore; a failure leaves the permit to be given back. */
    method TakeOrDial(dials: bool, binds: bool, ghost a: State, ghost others: seq<Phase>) returns (r: Result<Conn, AcquireError>)
      requires sem > 0 && Reaches(a, Seen(others + [Entered]))
      modifies this`idle, this`dialled, this`closed, this`bound
      ensures r == Acquired(old(Now()), true, dials, binds).0
      ensures Now() == Acquired(old(Now()), true, dials, binds).1.(sem := old(sem))
      ensures Reaches(a, Seen(others + [if r.Ok? then Leased(r.value) else Returning]))
    {
      var seen := LookAtIdle(a, others);
      if seen.Returning? {
        return Err(PoolClosed);
      }
      if seen.Leased? {
        return Ok(seen.conn);
      }
      r := DialAndBind(dials, binds, a, others);
    }

    // The sections of the methods, each one step of the machine.

    method EnterSemaphore(ghost a: State, ghost others: seq<Phase>)
      requires Reaches(a, Seen(others + [Outside])) && sem < size
      modifies this`sem
      ensures sem == old(sem) + 1 && Reaches(a, Seen(others + [Entered]))
    {
      Advance(a, others, Outside, Enter, Entered);
      sem := sem + 1;
    }

    method GivePermitBack(ghost a: State, ghost others: seq<Phase>)
      requires Reaches(a, Seen(others + [Returning])) && sem > 0
      modifies this`sem
      ensures sem == old(sem) - 1 && Reaches(a, Seen(others + [Outside]))
    {
      Advance(a, others, Returning, Permit, Outside);
      sem := sem - 1;
    }

    method CloseOne(c: Conn, ghost a: State, ghost others: seq<Phase>)
      requires Reaches(a, Seen(others + [Dropping(c)]))
      modifies this`closed
      ensures closed == old(closed) + [c] && Reaches(a, Seen(others + [Returning]))
    {
      Advance(a, others, Dropping(c), CloseConn, Returning);
      closed := closed + [c];
    }

    /** The mutex section of Acquire: the last idle connection, unless the pool is done or has none. */
    method LookAtIdle(ghost a: State, ghost others: seq<Phase>) returns (seen: Phase)
      requires Reaches(a, Seen(others + [Entered]))
      modifies this`idle
      ensures seen == if done then Returning else if old(idle) != [] then Leased(old(idle)[|old(idle)| - 1]) else Dialling
      ensures idle == if seen.Leased? then old(idle)[..|old(idle)| - 1] else old(idle)
      ensures Reaches(a, Seen(others + [seen]))
    {
      if done {
        seen := Returning;
      } else if |idle| > 0 {
        seen := Leased(idle[|idle| - 1]);
      } else {
        seen := Dialling;
      }
      Advance(a, others, Entered, Look, seen);
      if seen.Leased? {
        idle := idle[..|idle| - 1];
      }
    }

    /** The mutex section of Release: the connection is pooled unless the pool is done. */
    method PutBack(c: Conn, ghost a: State, ghost others: seq<Phase>) returns (pooled: bool)
      requires Reaches(a, Seen(others + [Used(c, false)]))
      modifies this`idle
      ensures pooled == !done && idle == if pooled then old(idle) + [c] else old(idle)
      ensures Reaches(a, Seen(others + [if pooled then Returning else Dropping(c)]))
    {
      pooled := !done;
      Advance(a, others, Used(c, false), GiveBack, if pooled then Returning else Dropping(c));
      if pooled {
        idle := idle + [c];
      }
    }

    /** The second half of Acquire, for a goroutine that found nothing idle. */
    method DialAndBind(dials: bool, binds: bool, ghost a: State, ghost others: seq<Phase>) returns (r: Result<Conn, AcquireError>)
      requires Reaches(a, Seen(others + [Dialling]))
      modifies this`dialled, this`closed, this`bound
      ensures r == if !dials then Err(DialFailed) else if !binds then Err(BindFailed) else Ok(old(dialled))
      ensures dialled == old(dialled) + if dials then 1 else 0
      ensures closed == if dials && !binds then old(closed) + [old(dialled)] else old(closed)
      ensures Reaches(a, Seen(others + [if r.Ok? then Leased(r.value) else Returning]))
    {
      Advance(a, others, Dialling, Dial(dials), if dials then Binding(dialled) else Returning);
      if !dials {
        return Err(DialFailed);
      }
      var c := dialled;
      dialled := dialled + 1;
      Advance(a, others, Binding(c), Bind(binds), if binds then Leased(c) else Dropping(c));
      if !binds {
        CloseOne(c, a, others);
        return Err(BindFailed);
      }
      bound := bound + {c};
      return Ok(c);
    }

    /** One more step of this goroutine, from p to q, past the others. */
    lemma Advance(a: State, others: seq<Phase>, p: Phase, step: Step, q: Phase)
      requires Reaches(a, Seen(others + [p])) && Enabled(Seen(others + [p]), |others|, step)
      requires Do(Seen(others + [p]), |others|, step).threads[|others|] == q
      ensures Reaches(a, Do(Seen(others + [p]), |others|, step))
      ensures Do(Seen(others + [p]), |others|, step).threads == others + [q]
    {
      ReachesOneMore(a, Seen(others + [p]), |others|, step);
      assert (others + [p])[|others| := q] == others + [q];
    }

    /** Close: what was idle is closed once, in order; leases still out are left to their holders. */
    method Close(ghost others: seq<Phase>)
      modifies this
      ensures Now() == old(Now()).(done := true, idle := [], closed := old(closed) + old(idle))
      ensures Reaches(old(Seen(others + [Outside])), Seen(others + [Outside]))
    {
      ghost var a := Seen(others + [Outside]);
      ReachesItself(a);
      Advance(a, others, Outside, Shut, Draining(idle));
      var drained := idle;
      done, idle := true, [];
      DrainAll(drained, a, others);
      Advance(a, others, Draining([]), Drain, Outside);
    }

    /** The loop of Close, outside the mutex. */
    method DrainAll(drained: seq<Conn>, ghost a: State, ghost others: seq<Phase>)
      requires Reaches(a, Seen(others + [Draining(drained)]))
      modifies this`closed
      ensures closed == old(closed) + drained && Reaches(a, Seen(others + [Draining([])]))
    {
      assert drained[0..] == drained;
      for i := 0 to |drained|
        invariant closed == old(closed) + drained[..i]
        invariant Reaches(a, Seen(others + [Draining(drained[i..])]))
      {
        assert drained[i..][1..] == drained[i + 1..];
        Advance(a, others, Draining(drained[i..]), Drain, Draining(drained[i + 1..]));
        closed := closed + [drained[i]];
      }
      assert drained[|drained|..] == [] && drained[..|drained|] == drained;
    }
  }

  /** One borrowed connection; only the first Release or Discard does anything. */
  class Lease {
    const pool: ConnPool
    const conn: Conn
    var returned: bool

    constructor (pool: ConnPool, conn: Conn)
      ensures this.pool == pool && this.conn == conn && !returned
    {
      this.pool, this.conn, returned := pool, conn, false;
    }

    method Release(ghost others: seq<Phase>)
      requires !returned ==> pool.sem > 0
      modifies this, pool
      ensures returned
      ensures old(returned) ==> unchanged(pool)
      ensures !old(returned) ==>
                && pool.Now() == GivenBack(old(pool.Now()), conn, false)
                && Reaches(old(pool.Seen(others + [Used(conn, false)])), pool.Seen(others + [Outside]))
    {
      if returned {
        return;
      }
      returned := true;
      ghost var a := pool.Seen(others + [Used(conn, false)]);
      ReachesItself(a);
      var pooled := pool.PutBack(conn, a, others);
      if !pooled {
        pool.CloseOne(conn, a, others);
      }
      pool.GivePermitBack(a, others);
    }

    method Discard(ghost others: seq<Phase>)
      requires !returned ==> pool.sem > 0
      modifies this, pool
      ensures returned
      ensures old(returned) ==> unchanged(pool)
      ensures !old(returned) ==>
                && pool.Now() == GivenBack(old(pool.Now()), conn, true)
                && Reaches(old(pool.Seen(others + [Used(conn, true)])), pool.Seen(others + [Outside]))
    {
      if returned {
        return;
      }
      returned := true;
      ghost var a := pool.Seen(others + [Used(conn, true)]);
      ReachesItself(a);
      pool.Advance(a, others, Used(conn, true), GiveBack, Dropping(conn));
      pool.CloseOne(conn, a, others);
      pool.GivePermitBack(a, others);
    }
  }
}
