// The retry loop of exec.go, run on the pool: which failures are retried, and what happens
// to every connection it borrows.
module WithConn {
  import opened Wrappers
  import opened PoolMachine
  import P = Pool
  import opened Ldaperr
  import opened Retry

  /** What the network and the caller's context do during one attempt. */
  datatype Attempt = Attempt(
    granted: bool,                     // the semaphore was taken before the context ended
    dials: bool, dialError: Chain,
    binds: bool, bindError: Chain,
    result: Chain,                     // what the operation returned
    wakes: bool)                       // the backoff ran to its end

  function AcquireChain(e: P.AcquireError, a: Attempt): Chain {
    match e
    case Cancelled => [ContextError]
    case PoolClosed => [Other]
    case DialFailed => a.dialError
    case BindFailed => a.bindError
  }

  /** How a failed Acquire is reported: a refused bind keeps its LDAP result. */
  function AcquireKind(err: Chain, table: CodeTable): Kind {
    if AsRaw(err).Some? then Classified(err, table).value
    else if CredentialRejected in err then Denied
    else Transport
  }

  // ---- what the loop does, attempt by attempt ----

  /** One attempt on the pool's fields: a lease that is taken is given back, discarded after a transport failure. */
  function Turn(f: P.Fields, e: Attempt, table: CodeTable): (Outcome, P.Fields) {
    match P.Acquired(f, e.granted, e.dials, e.binds)
    case (Err(err), g) => (NotAcquired(AcquireKind(AcquireChain(err, e), table)), g)
    case (Ok(c), g) =>
      (Executed(Ran(c, e.result), Classified(e.result, table)), P.GivenBack(g, c, Classified(e.result, table) == Some(Transport)))
  }

  function Turning(env: nat -> Attempt, table: CodeTable): (P.Fields, nat) -> (Outcome, P.Fields) {
    (f: P.Fields, n: nat) => Turn(f, env(n), table)
  }

  function Waking(env: nat -> Attempt): nat -> bool {
    (n: nat) => env(n).wakes
  }

  function Results(env: nat -> Attempt): nat -> Chain {
    (n: nat) => env(n).result
  }

  function KindOf(table: CodeTable): Chain -> Option<Kind> {
    err => Classified(err, table)
  }

  /** The attempts from the given one on, the first being number one. */
  function Attempts(f: P.Fields, attempt: nat, maxAttempts: int, env: nat -> Attempt, table: CodeTable): Outcomes<P.Fields> {
    Loop(Turning(env, table), Waking(env), f, attempt, maxAttempts)
  }

  /** Run the operation on the lease, then discard the connection after a transport failure and
      return it otherwise. */
  method RunAndReturn(lease: P.Lease, result: Chain, table: CodeTable, ghost others: seq<Phase>) returns (kind: Option<Kind>)
    requires !lease.returned && lease.pool.sem > 0
    modifies lease, lease.pool
    ensures lease.returned && kind == Classified(result, table)
    ensures lease.pool.Now() == P.GivenBack(old(lease.pool.Now()), lease.conn, Classified(result, table) == Some(Transport))
    ensures Reaches(old(lease.pool.Seen(others + [Leased(lease.conn)])), lease.pool.Seen(others + [Outside]))
  {
    var pool, c := lease.pool, lease.conn;
    ghost var a := pool.Seen(others + [Leased(c)]);
    ReachesItself(a);
    kind := Classify(result, table);
    ghost var failed := kind == Some(Transport);
    pool.Advance(a, others, Leased(c), Use(failed), Used(c, failed));
    if failed {
      pool.broken := pool.broken + {c};
    }
    ghost var used := pool.Seen(others + [Used(c, failed)]);
    if kind == Some(Transport) {
      lease.Discard(others);
    } else {
      lease.Release(others);
    }
    ReachesTransitive(a, used, pool.Seen(others + [Outside]));
  }

  /** One turn of the loop up to the decision whether to retry. */
  method RunOnce(pool: P.ConnPool, e: Attempt, table: CodeTable, ghost others: seq<Phase>, ghost a: State) returns (r: Outcome)
    requires (e.granted ==> pool.sem < pool.size) && Reaches(a, pool.Seen(others + [Outside]))
    modifies pool
    ensures (r, pool.Now()) == Turn(old(pool.Now()), e, table)
    ensures Reaches(a, pool.Seen(others + [Outside]))
  {
    ghost var before := pool.Seen(others + [Outside]);
    var lease := pool.Acquire(e.granted, e.dials, e.binds, others);
    ghost var tried := pool.Seen(others + [if lease.Ok? then Leased(lease.value.conn) else Outside]);
    ReachesTransitive(a, before, tried);
    if lease.Err? {
      return NotAcquired(AcquireKind(AcquireChain(lease.error, e), table));
    }
    var conn := lease.value.conn;
    var kind := RunAndReturn(lease.value, e.result, table, others);
    ReachesTransitive(a, tried, pool.Seen(others + [Outside]));
    return Executed(Ran(conn, e.result), kind);
  }

  lemma TurnKeepsPermits(f: P.Fields, e: Attempt, table: CodeTable)
    ensures Turn(f, e, table).1.sem == f.sem && Turn(f, e, table).1.done == f.done
  {
  }

  /** One turn of the loop, after the runs already made: what it returns, or that it goes on. */
  method TryOnce(pool: P.ConnPool, attempt: nat, maxAttempts: int, env: nat -> Attempt, table: CodeTable,
                 ghost others: seq<Phase>, ghost a: State, ghost runs: seq<Ran>)
    returns (done: bool, r: Option<Failure>, more: seq<Ran>)
    requires attempt <= maxAttempts && (env(attempt).granted ==> pool.sem < pool.size)
    requires Reaches(a, pool.Seen(others + [Outside]))
    modifies pool
    ensures var all := Onward(runs, Attempts(old(pool.Now()), attempt, maxAttempts, env, table));
            all == if done then Outcomes(r, runs + more, pool.Now())
                   else Onward(runs + more, Attempts(pool.Now(), attempt + 1, maxAttempts, env, table))
    ensures pool.sem == old(pool.sem) && Reaches(a, pool.Seen(others + [Outside]))
  {
    ghost var f := pool.Now();
    TurnKeepsPermits(f, env(attempt), table);
    var once := RunOnce(pool, env(attempt), table, others, a);
    LoopStep(Turning(env, table), Waking(env), f, attempt, maxAttempts, runs, once, pool.Now());
    if once.NotAcquired? {
      return true, Some(Failed(once.reported)), [];
    }
    more := [once.ran];
    if once.kind.None? {
      return true, None, more;
    }
    if !Retryable(once.kind.value) || attempt == maxAttempts {
      return true, Some(Failed(once.kind.value)), more;
    }
    if !env(attempt).wakes {
      return true, Some(BackoffCut), more;
    }
    return false, None, more;
  }

  /** Runs the operation until it succeeds, fails for good, or the attempts are used up. */
  method WithConn(pool: P.ConnPool, maxAttempts: int, env: nat -> Attempt, table: CodeTable, ghost others: seq<Phase>)
    returns (r: Option<Failure>, runs: seq<Ran>)
    requires forall n: nat :: 1 <= n <= maxAttempts && env(n).granted ==> pool.sem < pool.size
    modifies pool
    ensures Outcomes(r, runs, pool.Now()) == Attempts(old(pool.Now()), 1, maxAttempts, env, table)
    ensures Reaches(old(pool.Seen(others + [Outside])), pool.Seen(others + [Outside]))
  {
    ghost var a := pool.Seen(others + [Outside]);
    ReachesItself(a);
    runs := [];
    ghost var all := Attempts(pool.Now(), 1, maxAttempts, env, table);
    var attempt := 1;
    while attempt <= maxAttempts
      invariant attempt >= 1 && pool.sem == old(pool.sem) && Reaches(a, pool.Seen(others + [Outside]))
      invariant all == Onward(runs, Attempts(pool.Now(), attempt, maxAttempts, env, table))
    {
      var done, failure, more := TryOnce(pool, attempt, maxAttempts, env, table, others, a, runs);
      runs := runs + more;
      if done {
        return failure, runs;
      }
      attempt := attempt + 1;
    }
    r := None;
    assert runs + [] == runs;
  }

  // ---- what that means ----

  lemma TurnsAreFaithful(env: nat -> Attempt, table: CodeTable)
    ensures Faithful(Turning(env, table), Results(env), KindOf(table))
  {
    var turn := Turning(env, table);
    forall s: P.Fields, n: nat | turn(s, n).0.Executed?
      ensures turn(s, n).0.ran.result == Results(env)(n) && turn(s, n).0.kind == KindOf(table)(Results(env)(n))
    {
      TurnClassifies(s, env(n), table);
    }
  }

  lemma TurnClassifies(f: P.Fields, e: Attempt, table: CodeTable)
    requires Turn(f, e, table).0.Executed?
    ensures Turn(f, e, table).0.ran.result == e.result && Turn(f, e, table).0.kind == Classified(e.result, table)
  {
  }

  /** At most MaxAttempts runs, each with its own attempt's result, and only transient failures repeated. */
  lemma RunsAtMost(f: P.Fields, maxAttempts: int, env: nat -> Attempt, table: CodeTable)
    ensures var runs := Attempts(f, 1, maxAttempts, env, table).runs;
            && |runs| <= (if maxAttempts < 0 then 0 else maxAttempts)
            && (forall i :: 0 <= i < |runs| ==> runs[i].result == env(1 + i).result)
            && (forall i :: 0 <= i < |runs| - 1 ==> Classified(runs[i].result, table) == Some(Transient))
  {
    TurnsAreFaithful(env, table);
    RunsAreBounded(Turning(env, table), Waking(env), f, 1, maxAttempts, Results(env), KindOf(table));
  }

  /** Nil exactly after a last run that succeeded, or without any attempt to make. */
  lemma NilExactly(f: P.Fields, maxAttempts: int, env: nat -> Attempt, table: CodeTable)
    ensures var o := Attempts(f, 1, maxAttempts, env, table);
            o.reported.None? <==> maxAttempts < 1 || (o.runs != [] && o.runs[|o.runs| - 1].result == [])
  {
    TurnsAreFaithful(env, table);
    NilMeansSuccess(Turning(env, table), Waking(env), f, 1, maxAttempts, Results(env), KindOf(table));
  }

  /** The backoff's own error exactly after a transient failure with attempts left whose wait did not end. */
  lemma CutExactly(f: P.Fields, maxAttempts: int, env: nat -> Attempt, table: CodeTable)
    ensures var o := Attempts(f, 1, maxAttempts, env, table);
            o.reported == Some(BackoffCut)
            <==> o.runs != [] && WasCut(|o.runs|, maxAttempts, Waking(env), Results(env), KindOf(table))
  {
    TurnsAreFaithful(env, table);
    BackoffCutExactly(Turning(env, table), Waking(env), f, 1, maxAttempts, Results(env), KindOf(table));
  }

  /** How the loop reports that attempt n got no connection. */
  predicate ReportedUnacquired(reported: Option<Failure>, e: Attempt, err: P.AcquireError, table: CodeTable) {
    && reported.Some? && reported.value.Failed?
    && (match err
        case Cancelled => reported.value.kind == Transport
        case PoolClosed => reported.value.kind == Transport
        case DialFailed => FailsAs(reported.value.kind, e.dialError, table)
        case BindFailed => FailsAs(reported.value.kind, e.bindError, table))
    && (err.Cancelled? <==> !e.granted)
    && (err.DialFailed? ==> !e.dials) && (err.BindFailed? ==> e.dials && !e.binds)
  }

  /** After a transient failure with attempts left and a finished wait, another attempt is made: either its run is
      there too, or it got no connection and the loop reports just that. */
  lemma AnotherAttempt(f: P.Fields, maxAttempts: int, env: nat -> Attempt, table: CodeTable) returns (err: P.AcquireError)
    requires maxAttempts >= 1
    ensures var o := Attempts(f, 1, maxAttempts, env, table);
            o.runs == [] || AnotherDue(|o.runs|, maxAttempts, Waking(env), Results(env), KindOf(table)) ==>
              ReportedUnacquired(o.reported, env(|o.runs| + 1), err, table)
  {
    TurnsAreFaithful(env, table);
    var before := AnotherFollows(Turning(env, table), Waking(env), f, 1, maxAttempts, Results(env), KindOf(table));
    var o := Attempts(f, 1, maxAttempts, env, table);
    if EndsUnacquired(Turning(env, table), before, |o.runs| + 1, o) {
      err := UnacquiredError(before, env(|o.runs| + 1), table, o.reported);
    } else {
      err := P.Cancelled;
    }
  }

  lemma UnacquiredError(before: P.Fields, e: Attempt, table: CodeTable, reported: Option<Failure>) returns (err: P.AcquireError)
    requires Turn(before, e, table).0.NotAcquired? && reported == Some(Failed(Turn(before, e, table).0.reported))
    ensures ReportedUnacquired(reported, e, err, table)
  {
    err := P.Acquired(before, e.granted, e.dials, e.binds).0.error;
    UnacquiredKind(err, e, table);
  }

  /** The kind of a refused dial or bind: a server's answer decides if there is one, and otherwise a rejected
      credential is a denial and everything else a transport failure. */
  predicate FailsAs(kind: Kind, err: Chain, table: CodeTable) {
    && ((forall i :: 0 <= i < |err| ==> !err[i].RawError?) ==> kind == if CredentialRejected in err then Denied else Transport)
    && (forall i :: 0 <= i < |err| && FirstRaw(err, i) ==>
          kind == if ContextError in err then Transport else KindOfAnswer(err[i].resultCode, err[i].diagnostic, table))
  }

  lemma AcquireKindExactly(err: Chain, table: CodeTable)
    ensures FailsAs(AcquireKind(err, table), err, table)
  {
    NoAnswer(err);
    forall i | 0 <= i < |err| && FirstRaw(err, i)
      ensures AcquireKind(err, table)
              == if ContextError in err then Transport else KindOfAnswer(err[i].resultCode, err[i].diagnostic, table)
    {
      AsRawIsFirst(err, i);
      ClassifiedExactly(err, table, i);
    }
  }

  lemma UnacquiredKind(err: P.AcquireError, e: Attempt, table: CodeTable)
    ensures var kind := AcquireKind(AcquireChain(err, e), table);
            match err
            case Cancelled => kind == Transport
            case PoolClosed => kind == Transport
            case DialFailed => FailsAs(kind, e.dialError, table)
            case BindFailed => FailsAs(kind, e.bindError, table)
  {
    AcquireKindExactly(AcquireChain(err, e), table);
    NoAnswer(AcquireChain(err, e));
    assert [ContextError][0] == ContextError && [Other][0] == Other;
  }

  /** What is reported when the first attempt gets no connection: a wait that was cancelled and a pool that is closed are
      transport failures, and a refused dial or bind is what its error says. */
  lemma FirstFailure(f: P.Fields, maxAttempts: int, env: nat -> Attempt, table: CodeTable)
    requires maxAttempts >= 1 && Attempts(f, 1, maxAttempts, env, table).runs == []
    ensures var r, e := Attempts(f, 1, maxAttempts, env, table).reported, env(1);
            && r.Some? && r.value.Failed?
            && (if !e.granted || f.done then r.value.kind == Transport
                else f.idle == [] && FailsAs(r.value.kind, if e.dials then e.bindError else e.dialError, table))
  {
    FirstAndRest(Turning(env, table), Waking(env), f, 1, maxAttempts);
    FirstAttemptRuns(f, maxAttempts, env, table);
    var e := env(1);
    UnacquiredKind(P.Acquired(f, e.granted, e.dials, e.binds).0.error, e, table);
  }

  /** One attempt keeps no permit; a connection whose run failed at transport level is closed by the end of it. */
  predicate Closes(f: P.Fields, t: (Outcome, P.Fields), kindOf: Chain -> Option<Kind>) {
    && t.1.sem == f.sem && t.1.done == f.done && f.closed <= t.1.closed
    && (t.0.Executed? && kindOf(t.0.ran.result) == Some(Transport) ==> t.0.ran.conn in t.1.closed)
  }

  lemma TurnCloses(f: P.Fields, e: Attempt, table: CodeTable)
    ensures Closes(f, Turn(f, e, table), KindOf(table))
  {
  }

  predicate AllClosed(runs: seq<Ran>, closed: seq<Conn>, kindOf: Chain -> Option<Kind>) {
    forall i :: 0 <= i < |runs| && kindOf(runs[i].result) == Some(Transport) ==> runs[i].conn in closed
  }

  lemma {:induction false} LoopCloses(turn: (P.Fields, nat) -> (Outcome, P.Fields), wakes: nat -> bool, f: P.Fields, attempt: nat,
                                      maxAttempts: int, kindOf: Chain -> Option<Kind>)
    requires forall g, n: nat :: Closes(g, turn(g, n), kindOf)
    ensures var o := Loop(turn, wakes, f, attempt, maxAttempts);
            && o.state.sem == f.sem && o.state.done == f.done && f.closed <= o.state.closed
            && AllClosed(o.runs, o.state.closed, kindOf)
    decreases maxAttempts - attempt
  {
    if attempt <= maxAttempts {
      assert Closes(f, turn(f, attempt), kindOf);
      FirstAndRest(turn, wakes, f, attempt, maxAttempts);
      if Goes(turn, wakes, f, attempt, maxAttempts) {
        var (once, g) := turn(f, attempt);
        LoopCloses(turn, wakes, g, attempt + 1, maxAttempts, kindOf);
        var o, rest := Loop(turn, wakes, f, attempt, maxAttempts), Loop(turn, wakes, g, attempt + 1, maxAttempts);
        assert forall i :: 0 < i < |o.runs| ==> o.runs[i] == rest.runs[i - 1];
      }
    }
  }

  /** No permit is kept, and every connection that failed at transport level is closed. */
  lemma ConnectionsComeBack(f: P.Fields, maxAttempts: int, env: nat -> Attempt, table: CodeTable)
    ensures var o := Attempts(f, 1, maxAttempts, env, table);
            && o.state.sem == f.sem && o.state.done == f.done && f.closed <= o.state.closed
            && (forall i :: 0 <= i < |o.runs| && Classified(o.runs[i].result, table) == Some(Transport) ==> o.runs[i].conn in o.state.closed)
  {
    forall g, n: nat ensures Closes(g, Turning(env, table)(g, n), KindOf(table)) {
      TurnCloses(g, env(n), table);
    }
    LoopCloses(Turning(env, table), Waking(env), f, 1, maxAttempts, KindOf(table));
  }

  /** With an attempt to make the operation runs, exactly when the pool is open and hands out or makes a connection. */
  lemma FirstAttemptRuns(f: P.Fields, maxAttempts: int, env: nat -> Attempt, table: CodeTable)
    requires maxAttempts >= 1
    ensures Attempts(f, 1, maxAttempts, env, table).runs != []
            <==> env(1).granted && !f.done && (f.idle != [] || (env(1).dials && env(1).binds))
  {
    FirstAndRest(Turning(env, table), Waking(env), f, 1, maxAttempts);
  }

  /** A refused bind or dial is reported as transient only when the server itself said busy. */
  lemma AcquireFailureKinds(f: P.Fields, e: Attempt, table: CodeTable)
    requires Turn(f, e, table).0.NotAcquired?
    ensures Turn(f, e, table).0.reported == Transient ==>
              e.granted && !f.done && SaidBusy(if e.dials then e.bindError else e.dialError, table)
  {
    assert [ContextError][1..] == [] && [Other][1..] == [];
    var err := P.Acquired(f, e.granted, e.dials, e.binds).0.error;
    if AsRaw(AcquireChain(err, e)).Some? {
      RetriedExactly(AcquireChain(err, e), table);
    }
  }
}
