// The connection pool of internal/conn/pool.go as a small-step machine: one step per mutex
// section, channel operation, dial, bind or close, taken by any goroutine in any order.
module PoolMachine {
  /** Connections are numbered in the order they were dialled. */
  type Conn = nat

  /** Where one goroutine stands. */
  datatype Phase =
    | Outside                           // holds nothing
    | Entered                           // past the semaphore, the pool not looked at yet
    | Dialling
    | Binding(conn: Conn)
    | Leased(conn: Conn)
    | Used(conn: Conn, transport: bool) // the operation ran; withConn saw a transport failure or not
    | Dropping(conn: Conn)              // about to close: bind failed, discarded, or released too late
    | Returning                         // about to give the permit back
    | Draining(rest: seq<Conn>)         // inside Close, past its mutex section

  /** The pool's fields, and what the world has seen of its connections. */
  datatype State = State(
    size: nat, sem: nat, idle: seq<Conn>, done: bool,
    dialled: nat, bound: set<Conn>, broken: set<Conn>, closed: seq<Conn>,
    threads: seq<Phase>)

  datatype Step =
    | Enter | Look | Dial(ok: bool) | Bind(ok: bool) | Use(transport: bool)
    | GiveBack | CloseConn | Permit | Shut | Drain

  function At(s: State, t: nat, p: Phase): State
    requires t < |s.threads|
  {
    s.(threads := s.threads[t := p])
  }

  predicate Enabled(s: State, t: nat, step: Step) {
    t < |s.threads| &&
    match step
    case Enter => s.threads[t].Outside? && s.sem < s.size
    case Look => s.threads[t].Entered?
    case Dial(_) => s.threads[t].Dialling?
    case Bind(_) => s.threads[t].Binding?
    case Use(_) => s.threads[t].Leased?
    case GiveBack => s.threads[t].Used?
    case CloseConn => s.threads[t].Dropping?
    case Permit => s.threads[t].Returning? && s.sem > 0
    case Shut => s.threads[t].Outside?
    case Drain => s.threads[t].Draining?
  }

  /** One step of goroutine t. */
  function Do(s: State, t: nat, step: Step): State
    requires Enabled(s, t, step)
  {
    match step
    case Enter => At(s.(sem := s.sem + 1), t, Entered)
    case Look =>
      if s.done then At(s, t, Returning)
      else if s.idle != [] then At(s.(idle := s.idle[..|s.idle| - 1]), t, Leased(s.idle[|s.idle| - 1]))
      else At(s, t, Dialling)
    case Dial(ok) =>
      if ok then At(s.(dialled := s.dialled + 1), t, Binding(s.dialled)) else At(s, t, Returning)
    case Bind(ok) =>
      var c := s.threads[t].conn;
      if ok then At(s.(bound := s.bound + {c}), t, Leased(c)) else At(s, t, Dropping(c))
    case Use(transport) =>
      var c := s.threads[t].conn;
      At(if transport then s.(broken := s.broken + {c}) else s, t, Used(c, transport))
    case GiveBack =>
      var c := s.threads[t].conn;
      if s.threads[t].transport || s.done then At(s, t, Dropping(c))
      else At(s.(idle := s.idle + [c]), t, Returning)
    case CloseConn => At(s.(closed := s.closed + [s.threads[t].conn]), t, Returning)
    case Permit => At(s.(sem := s.sem - 1), t, Outside)
    case Shut => At(s.(done := true, idle := []), t, Draining(s.idle))
    case Drain =>
      var rest := s.threads[t].rest;
      if rest == [] then At(s, t, Outside)
      else At(s.(closed := s.closed + [rest[0]]), t, Draining(rest[1..]))
  }

  function Start(size: nat, goroutines: nat): State {
    State(size, 0, [], false, 0, {}, {}, [], seq(goroutines, _ => Outside))
  }

  datatype Move = Move(thread: nat, step: Step)

  /** Every move of the schedule is enabled when its turn comes. */
  predicate Runs(s: State, moves: seq<Move>)
    decreases |moves|
  {
    moves != [] ==>
      Enabled(s, moves[0].thread, moves[0].step) && Runs(Do(s, moves[0].thread, moves[0].step), moves[1..])
  }

  function After(s: State, moves: seq<Move>): State
    requires Runs(s, moves)
    decreases |moves|
  {
    if moves == [] then s else After(Do(s, moves[0].thread, moves[0].step), moves[1..])
  }

  // ---- what each goroutine holds ----

  function Permits(p: Phase): nat {
    if p.Outside? || p.Draining? then 0 else 1
  }

  /** Connections the goroutine has open, or is about to have. */
  function Opens(p: Phase): nat {
    match p
    case Outside => 0
    case Entered => 0
    case Returning => 0
    case Draining(rest) => |rest|
    case _ => 1
  }

  /** How often the goroutine holds connection c. */
  function Holds(p: Phase, c: Conn): nat {
    match p
    case Binding(d) => One(c, d)
    case Leased(d) => One(c, d)
    case Used(d, _) => One(c, d)
    case Dropping(d) => One(c, d)
    case Draining(rest) => Times(rest, c)
    case _ => 0
  }

  function One(c: Conn, d: Conn): nat {
    if c == d then 1 else 0
  }

  function Times(list: seq<Conn>, c: Conn): nat {
    if list == [] then 0 else One(c, list[0]) + Times(list[1..], c)
  }

  function Sum<T>(ts: seq<T>, f: T -> nat): nat {
    if ts == [] then 0 else f(ts[0]) + Sum(ts[1..], f)
  }

  /** Connections the goroutine has. */
  function Has(p: Phase): nat {
    if p.Dialling? then 0 else Opens(p)
  }

  const AS_HAS := (p: Phase) => Has(p)
  const AS_PERMITS := (p: Phase) => Permits(p)
  const AS_OPENS := (p: Phase) => Opens(p)

  function Holding(c: Conn): Phase -> nat {
    (p: Phase) => Holds(p, c)
  }

  lemma {:induction false} SumAt<T>(ts: seq<T>, t: nat, p: T, f: T -> nat)
    requires t < |ts|
    ensures Sum(ts[t := p], f) + f(ts[t]) == Sum(ts, f) + f(p)
  {
    if t > 0 {
      SumAt(ts[1..], t - 1, p, f);
      assert ts[t := p][1..] == ts[1..][t - 1 := p];
    } else {
      assert ts[t := p][1..] == ts[1..];
    }
  }

  lemma {:induction false} SumHasOne<T>(ts: seq<T>, t: nat, f: T -> nat)
    requires t < |ts|
    ensures f(ts[t]) <= Sum(ts, f)
  {
    if t > 0 {
      SumHasOne(ts[1..], t - 1, f);
    }
  }

  lemma {:induction false} SumHasTwo<T>(ts: seq<T>, t: nat, u: nat, f: T -> nat)
    requires t < u < |ts|
    ensures f(ts[t]) + f(ts[u]) <= Sum(ts, f)
  {
    if t > 0 {
      SumHasTwo(ts[1..], t - 1, u - 1, f);
    } else {
      SumHasOne(ts[1..], u - 1, f);
    }
  }

  lemma {:induction false} SumBelow<T>(ts: seq<T>, f: T -> nat, g: T -> nat)
    requires forall t :: 0 <= t < |ts| ==> f(ts[t]) <= g(ts[t])
    ensures Sum(ts, f) <= Sum(ts, g)
  {
    if ts != [] {
      SumBelow(ts[1..], f, g);
    }
  }

  lemma {:induction false} SumNothing<T>(ts: seq<T>, f: T -> nat)
    requires forall t :: 0 <= t < |ts| ==> f(ts[t]) == 0
    ensures Sum(ts, f) == 0
  {
    if ts != [] {
      SumNothing(ts[1..], f);
    }
  }

  // ---- the invariants ----

  /** Channel occupancy is the number of goroutines holding a permit. */
  predicate PermitsConserved(s: State) {
    s.sem == Sum(s.threads, AS_PERMITS) && s.sem <= s.size
  }

  /** Once closed the idle list stays empty, and only then is anything being drained. */
  predicate ShutDown(s: State) {
    && (s.done ==> s.idle == [])
    && (!s.done ==> forall t :: 0 <= t < |s.threads| ==> !s.threads[t].Draining?)
  }

  /** Open connections, and dials under way, never exceed the size. */
  predicate WithinSize(s: State) {
    |s.idle| + Sum(s.threads, AS_OPENS) <= s.size
  }

  function Places(s: State, c: Conn): nat {
    Times(s.idle, c) + Sum(s.threads, Holding(c)) + Times(s.closed, c)
  }

  /** Every connection is in exactly one place: idle, with one goroutine, or closed once. */
  ghost predicate OnePlaceEach(s: State) {
    forall c: Conn :: Places(s, c) == if c < s.dialled then 1 else 0
  }

  /** What was dialled is what is idle, held or closed, by number. */
  predicate AllCounted(s: State) {
    |s.idle| + Sum(s.threads, AS_HAS) + |s.closed| == s.dialled
  }

  predicate Sound(s: State, p: Phase) {
    match p
    case Binding(c) => c !in s.broken
    case Leased(c) => c in s.bound && c !in s.broken
    case Used(c, transport) => c in s.bound && (transport <==> c in s.broken)
    case _ => true
  }

  /** What is pooled or handed out has been bound and has never failed at transport level. */
  predicate OnlySound(s: State) {
    && (forall i :: 0 <= i < |s.idle| ==> s.idle[i] in s.bound && s.idle[i] !in s.broken)
    && (forall t :: 0 <= t < |s.threads| ==> Sound(s, s.threads[t]))
    && (forall c :: c in s.broken ==> c < s.dialled)
  }

  ghost predicate Inv(s: State) {
    PermitsConserved(s) && ShutDown(s) && WithinSize(s) && OnePlaceEach(s) && AllCounted(s) && OnlySound(s)
  }

  lemma StartInv(size: nat, goroutines: nat)
    ensures Inv(Start(size, goroutines))
  {
    var s := Start(size, goroutines);
    SumNothing(s.threads, AS_PERMITS);
    SumNothing(s.threads, AS_OPENS);
    SumNothing(s.threads, AS_HAS);
    forall c: Conn ensures Places(s, c) == 0 {
      SumNothing(s.threads, Holding(c));
    }
  }

  /** Two goroutines never hold the same connection, and none holds an idle one. */
  lemma NotShared(s: State, t: nat, c: Conn)
    requires OnePlaceEach(s) && t < |s.threads| && Holds(s.threads[t], c) > 0
    ensures c < s.dialled && c !in s.idle && c !in s.closed
    ensures forall u :: 0 <= u < |s.threads| && u != t ==> Holds(s.threads[u], c) == 0
  {
    assert Places(s, c) <= 1;
    SumHasOne(s.threads, t, Holding(c));
    TimesNone(s.idle, c);
    TimesNone(s.closed, c);
    forall u | 0 <= u < |s.threads| && u != t ensures Holds(s.threads[u], c) == 0 {
      if u < t {
        SumHasTwo(s.threads, u, t, Holding(c));
      } else {
        SumHasTwo(s.threads, t, u, Holding(c));
      }
    }
  }

  /** The key step: a dial is decided only when nothing is idle and nothing is draining, so the permits bound it. */
  lemma RoomForOneMore(s: State, t: nat)
    requires PermitsConserved(s) && ShutDown(s) && !s.done && s.idle == []
    requires t < |s.threads| && s.threads[t].Entered?
    ensures Sum(s.threads, AS_OPENS) + 1 <= s.size
  {
    var after := s.threads[t := Dialling];
    SumAt(s.threads, t, Dialling, AS_PERMITS);
    SumAt(s.threads, t, Dialling, AS_OPENS);
    SumBelow(after, AS_OPENS, AS_PERMITS);
  }

  /** What a step changes in a sum over the goroutines is what it changes for the one that takes it. */
  lemma OthersSame(before: seq<Phase>, after: seq<Phase>, t: nat, f: Phase -> nat)
    requires t < |before| == |after| && after == before[t := after[t]]
    ensures Sum(after, f) + f(before[t]) == Sum(before, f) + f(after[t])
  {
    SumAt(before, t, after[t], f);
  }

  lemma StepTouchesOne(s: State, t: nat, step: Step)
    requires Enabled(s, t, step)
    ensures var n := Do(s, t, step);
            t < |s.threads| == |n.threads| && n.threads == s.threads[t := n.threads[t]] && n.size == s.size
  {
  }

  lemma StepPermitsHere(s: State, t: nat, step: Step)
    requires Enabled(s, t, step)
    ensures var n := Do(s, t, step);
            && n.sem - Permits(n.threads[t]) == s.sem - Permits(s.threads[t])
            && (n.sem <= s.sem || (s.sem < s.size && n.sem == s.sem + 1))
  {
  }

  lemma StepPermits(s: State, t: nat, step: Step)
    requires PermitsConserved(s) && Enabled(s, t, step)
    ensures PermitsConserved(Do(s, t, step))
  {
    StepTouchesOne(s, t, step);
    StepPermitsHere(s, t, step);
    OthersSame(s.threads, Do(s, t, step).threads, t, AS_PERMITS);
  }

  lemma StepShutDown(s: State, t: nat, step: Step)
    requires ShutDown(s) && Enabled(s, t, step)
    ensures ShutDown(Do(s, t, step))
  {
  }

  /** A step that decides to dial; every other one leaves what is idle and open here, or gives some of it up. */
  predicate DecidesToDial(s: State, t: nat, step: Step) {
    Enabled(s, t, step) && step.Look? && !s.done && s.idle == []
  }

  lemma StepSizeHere(s: State, t: nat, step: Step)
    requires Enabled(s, t, step)
    ensures var n := Do(s, t, step);
            |n.idle| + Opens(n.threads[t])
            <= |s.idle| + Opens(s.threads[t]) + if DecidesToDial(s, t, step) then 1 else 0
  {
  }

  lemma StepSize(s: State, t: nat, step: Step)
    requires PermitsConserved(s) && ShutDown(s) && WithinSize(s) && Enabled(s, t, step)
    ensures WithinSize(Do(s, t, step))
  {
    StepTouchesOne(s, t, step);
    StepSizeHere(s, t, step);
    OthersSame(s.threads, Do(s, t, step).threads, t, AS_OPENS);
    if DecidesToDial(s, t, step) {
      RoomForOneMore(s, t);
    }
  }

  lemma {:induction false} TimesSnoc(list: seq<Conn>, d: Conn, c: Conn)
    ensures Times(list + [d], c) == Times(list, c) + One(c, d)
  {
    if list == [] {
      assert [d][1..] == [];
    } else {
      TimesSnoc(list[1..], d, c);
      assert (list + [d])[1..] == list[1..] + [d];
    }
  }

  lemma {:induction false} TimesNone(list: seq<Conn>, c: Conn)
    ensures Times(list, c) == 0 <==> c !in list
  {
    if list != [] {
      TimesNone(list[1..], c);
      assert list == [list[0]] + list[1..];
    }
  }

  /** Counts of one connection outside the other goroutines' hands. */
  function Nearby(s: State, t: nat, c: Conn): nat
    requires t < |s.threads|
  {
    Times(s.idle, c) + Holds(s.threads[t], c) + Times(s.closed, c)
  }

  lemma LookMoves(s: State, t: nat, c: Conn)
    requires Enabled(s, t, Look)
    ensures Nearby(Do(s, t, Look), t, c) == Nearby(s, t, c)
  {
    if !s.done && s.idle != [] {
      var last := |s.idle| - 1;
      TimesSnoc(s.idle[..last], s.idle[last], c);
      assert s.idle[..last] + [s.idle[last]] == s.idle;
    }
  }

  lemma GiveBackMoves(s: State, t: nat, c: Conn)
    requires Enabled(s, t, GiveBack)
    ensures Nearby(Do(s, t, GiveBack), t, c) == Nearby(s, t, c)
  {
    TimesSnoc(s.idle, s.threads[t].conn, c);
  }

  lemma CloseMoves(s: State, t: nat, step: Step, c: Conn)
    requires Enabled(s, t, step) && (step.CloseConn? || step.Drain?)
    ensures Nearby(Do(s, t, step), t, c) == Nearby(s, t, c)
  {
    if step.CloseConn? {
      TimesSnoc(s.closed, s.threads[t].conn, c);
    } else if s.threads[t].rest != [] {
      TimesSnoc(s.closed, s.threads[t].rest[0], c);
    }
  }

  /** A step moves connections about without losing or doubling one; only a dial adds one. */
  lemma StepMoves(s: State, t: nat, step: Step, c: Conn)
    requires Enabled(s, t, step)
    ensures var n := Do(s, t, step);
            Nearby(n, t, c) == Nearby(s, t, c) + if n.dialled > s.dialled then One(c, s.dialled) else 0
  {
    match step
    case Look => LookMoves(s, t, c);
    case GiveBack => GiveBackMoves(s, t, c);
    case CloseConn => CloseMoves(s, t, step, c);
    case Drain => CloseMoves(s, t, step, c);
    case _ =>
  }

  lemma StepPlaces(s: State, t: nat, step: Step, c: Conn)
    requires Enabled(s, t, step)
    ensures var n := Do(s, t, step);
            Places(n, c) == Places(s, c) + if n.dialled > s.dialled then One(c, s.dialled) else 0
  {
    StepTouchesOne(s, t, step);
    OthersSame(s.threads, Do(s, t, step).threads, t, Holding(c));
    StepMoves(s, t, step, c);
  }

  lemma StepOnePlace(s: State, t: nat, step: Step)
    requires OnePlaceEach(s) && Enabled(s, t, step)
    ensures OnePlaceEach(Do(s, t, step))
  {
    var n := Do(s, t, step);
    forall c: Conn ensures Places(n, c) == if c < n.dialled then 1 else 0 {
      StepPlaces(s, t, step, c);
      assert Places(s, c) == if c < s.dialled then 1 else 0;
    }
  }

  /** The same by number, outside the other goroutines' hands. */
  lemma StepNumbers(s: State, t: nat, step: Step)
    requires Enabled(s, t, step)
    ensures var n := Do(s, t, step);
            |n.idle| + Has(n.threads[t]) + |n.closed| - n.dialled == |s.idle| + Has(s.threads[t]) + |s.closed| - s.dialled
  {
  }

  lemma StepCounted(s: State, t: nat, step: Step)
    requires AllCounted(s) && Enabled(s, t, step)
    ensures AllCounted(Do(s, t, step))
  {
    var n := Do(s, t, step);
    StepNumbers(s, t, step);
    StepTouchesOne(s, t, step);
    OthersSame(s.threads, n.threads, t, AS_HAS);
  }

  lemma StepSound(s: State, t: nat, step: Step)
    requires OnePlaceEach(s) && OnlySound(s) && Enabled(s, t, step)
    ensures OnlySound(Do(s, t, step))
  {
    var n := Do(s, t, step);
    assert Sound(s, s.threads[t]);
    if step.Use? {
      NotShared(s, t, s.threads[t].conn);
    }
    forall u | 0 <= u < |n.threads| && u != t ensures Sound(n, n.threads[u]) {
      assert n.threads[u] == s.threads[u] && Sound(s, s.threads[u]);
      if step.Use? {
        assert Holds(s.threads[u], s.threads[t].conn) == 0;
      }
    }
  }

  /** Every step of every goroutine keeps every invariant. */
  lemma StepInv(s: State, t: nat, step: Step)
    requires Inv(s) && Enabled(s, t, step)
    ensures Inv(Do(s, t, step))
  {
    StepPermits(s, t, step);
    StepShutDown(s, t, step);
    StepSize(s, t, step);
    StepOnePlace(s, t, step);
    StepCounted(s, t, step);
    StepSound(s, t, step);
  }

  /** In every state any interleaving can reach. */
  lemma {:induction false} EveryRunIsSafe(s: State, moves: seq<Move>)
    requires Inv(s) && Runs(s, moves)
    ensures Inv(After(s, moves))
    decreases |moves|
  {
    if moves != [] {
      StepInv(s, moves[0].thread, moves[0].step);
      EveryRunIsSafe(Do(s, moves[0].thread, moves[0].step), moves[1..]);
    }
  }

  // ---- what the invariants say of every interleaving ----

  ghost predicate Reachable(s: State) {
    exists size: nat, goroutines: nat, moves: seq<Move> ::
      Runs(Start(size, goroutines), moves) && After(Start(size, goroutines), moves) == s
  }

  lemma ReachableIsSafe(s: State)
    requires Reachable(s)
    ensures Inv(s)
  {
    var size: nat, goroutines: nat, moves: seq<Move> :|
      Runs(Start(size, goroutines), moves) && After(Start(size, goroutines), moves) == s;
    StartInv(size, goroutines);
    EveryRunIsSafe(Start(size, goroutines), moves);
  }

  /** At no moment are more connections open than the size allows, whatever failed and whatever Close raced with. */
  lemma NeverMoreThanSize(s: State)
    requires Reachable(s)
    ensures s.dialled - |s.closed| + Sum(s.threads, (p: Phase) => if p.Dialling? then 1 else 0) <= s.size
  {
    ReachableIsSafe(s);
    SumSplit(s.threads, AS_HAS, (p: Phase) => if p.Dialling? then 1 else 0, AS_OPENS);
  }

  lemma {:induction false} SumSplit<T>(ts: seq<T>, f: T -> nat, g: T -> nat, h: T -> nat)
    requires forall t :: 0 <= t < |ts| ==> f(ts[t]) + g(ts[t]) == h(ts[t])
    ensures Sum(ts, f) + Sum(ts, g) == Sum(ts, h)
  {
    if ts != [] {
      SumSplit(ts[1..], f, g, h);
    }
  }

  predicate Quiescent(s: State) {
    forall t :: 0 <= t < |s.threads| ==> s.threads[t].Outside?
  }

  /** When everyone is done no permit is missing, and every connection is idle or closed, once;
      after Close every one of them has been closed exactly once. */
  lemma NothingLeaks(s: State, c: Conn)
    requires Reachable(s) && Quiescent(s)
    ensures s.sem == 0
    ensures Times(s.idle, c) + Times(s.closed, c) == if c < s.dialled then 1 else 0
    ensures s.done ==> Times(s.closed, c) == if c < s.dialled then 1 else 0
  {
    ReachableIsSafe(s);
    SumNothing(s.threads, AS_PERMITS);
    SumNothing(s.threads, Holding(c));
    assert Places(s, c) == if c < s.dialled then 1 else 0;
  }

  /** A goroutine only ever gets a connection that was bound and never failed at transport level. */
  lemma HandedOutIsSound(s: State, t: nat, step: Step)
    requires Reachable(s) && Enabled(s, t, step) && Do(s, t, step).threads[t].Leased?
    ensures var n := Do(s, t, step);
            n.threads[t].conn in n.bound && n.threads[t].conn !in n.broken
  {
    ReachableIsSafe(s);
    StepInv(s, t, step);
    assert Sound(Do(s, t, step), Do(s, t, step).threads[t]);
  }

  lemma {:induction false} BrokenStaysBroken(s: State, moves: seq<Move>)
    requires Runs(s, moves)
    ensures s.broken <= After(s, moves).broken
    decreases |moves|
  {
    if moves != [] {
      BrokenStaysBroken(Do(s, moves[0].thread, moves[0].step), moves[1..]);
    }
  }

  /** From the moment an operation on a connection fails at transport level, no later state has it idle or leased. */
  lemma BrokenNeverReturns(s: State, moves: seq<Move>, c: Conn)
    requires Reachable(s) && c in s.broken && Runs(s, moves)
    ensures c !in After(s, moves).idle
    ensures forall t :: 0 <= t < |After(s, moves).threads| ==> After(s, moves).threads[t] != Leased(c)
  {
    ReachableIsSafe(s);
    EveryRunIsSafe(s, moves);
    BrokenStaysBroken(s, moves);
    var n := After(s, moves);
    forall t | 0 <= t < |n.threads| ensures n.threads[t] != Leased(c) {
      assert Sound(n, n.threads[t]);
    }
  }

  // ---- nobody gets stuck ----

  /** The longest a goroutine can take to be outside again, in steps of its own. */
  function StepsLeft(p: Phase): nat {
    match p
    case Outside => 0
    case Returning => 1
    case Dropping(_) => 2
    case Used(_, _) => 3
    case Leased(_) => 4
    case Binding(_) => 5
    case Dialling => 6
    case Entered => 7
    case Draining(rest) => 1 + |rest|
  }

  /** The step a goroutine takes next when everything it asks for fails. */
  function WorstStep(p: Phase): Step {
    match p
    case Outside => Enter
    case Entered => Look
    case Dialling => Dial(false)
    case Binding(_) => Bind(false)
    case Leased(_) => Use(true)
    case Used(_, _) => GiveBack
    case Dropping(_) => CloseConn
    case Returning => Permit
    case Draining(_) => Drain
  }

  /** Past the semaphore nothing blocks: each goroutine's next step is enabled whatever the others do,
      and any step it takes brings it nearer to being outside. */
  lemma OnlyTheSemaphoreBlocks(s: State, t: nat)
    requires Reachable(s) && t < |s.threads| && !s.threads[t].Outside?
    ensures Enabled(s, t, WorstStep(s.threads[t]))
    ensures forall step :: Enabled(s, t, step) ==> StepsLeft(Do(s, t, step).threads[t]) < StepsLeft(s.threads[t])
  {
    ReachableIsSafe(s);
    SumHasOne(s.threads, t, AS_PERMITS);
    forall step | Enabled(s, t, step) ensures StepsLeft(Do(s, t, step).threads[t]) < StepsLeft(s.threads[t]) {
      StepNearer(s, t, step);
    }
  }

  lemma StepNearer(s: State, t: nat, step: Step)
    requires Enabled(s, t, step) && !s.threads[t].Outside?
    ensures StepsLeft(Do(s, t, step).threads[t]) < StepsLeft(s.threads[t])
  {
  }

  const AS_STEPS_LEFT := (p: Phase) => StepsLeft(p)

  lemma WorstStepHelps(s: State, t: nat)
    requires Inv(s) && t < |s.threads| && !s.threads[t].Outside?
    ensures Enabled(s, t, WorstStep(s.threads[t]))
    ensures var n := Do(s, t, WorstStep(s.threads[t]));
            && Inv(n) && n.size == s.size && |n.threads| == |s.threads|
            && Sum(n.threads, AS_STEPS_LEFT) < Sum(s.threads, AS_STEPS_LEFT)
  {
    var step := WorstStep(s.threads[t]);
    SumHasOne(s.threads, t, AS_PERMITS);
    StepInv(s, t, step);
    StepTouchesOne(s, t, step);
    OthersSame(s.threads, Do(s, t, step).threads, t, AS_STEPS_LEFT);
    StepNearer(s, t, step);
  }

  /** No reachable state is a deadlock, even if every dial, bind and operation from there on fails:
      everyone can finish, and then everyone can get in again. */
  lemma {:induction false} EveryoneCanFinish(s: State) returns (moves: seq<Move>)
    requires Inv(s)
    ensures Runs(s, moves) && Quiescent(After(s, moves))
    ensures forall t :: 0 <= t < |s.threads| && s.size > 0 ==> Enabled(After(s, moves), t, Enter)
    decreases Sum(s.threads, AS_STEPS_LEFT)
  {
    if Quiescent(s) {
      moves := [];
      SumNothing(s.threads, AS_PERMITS);
    } else {
      var t :| 0 <= t < |s.threads| && !s.threads[t].Outside?;
      WorstStepHelps(s, t);
      var rest := EveryoneCanFinish(Do(s, t, WorstStep(s.threads[t])));
      moves := [Move(t, WorstStep(s.threads[t]))] + rest;
      assert moves[1..] == rest;
    }
  }

  // ---- runs, one step at a time ----

  ghost predicate Reaches(a: State, b: State) {
    exists moves: seq<Move> :: Runs(a, moves) && After(a, moves) == b
  }

  lemma ReachesItself(a: State)
    ensures Reaches(a, a)
  {
    assert Runs(a, []) && After(a, []) == a;
  }

  lemma ReachesOneMore(a: State, b: State, t: nat, step: Step)
    requires Reaches(a, b) && Enabled(b, t, step)
    ensures Reaches(a, Do(b, t, step))
  {
    var moves: seq<Move> :| Runs(a, moves) && After(a, moves) == b;
    var m := [Move(t, step)];
    assert m[1..] == [];
    RunsAppend(a, moves, m);
  }

  lemma {:induction false} RunsAppend(a: State, first: seq<Move>, second: seq<Move>)
    requires Runs(a, first) && Runs(After(a, first), second)
    ensures Runs(a, first + second) && After(a, first + second) == After(After(a, first), second)
    decreases |first|
  {
    if first == [] {
      assert first + second == second;
    } else {
      RunsAppend(Do(a, first[0].thread, first[0].step), first[1..], second);
      assert (first + second)[1..] == first[1..] + second;
    }
  }

  lemma ReachesTransitive(a: State, b: State, c: State)
    requires Reaches(a, b) && Reaches(b, c)
    ensures Reaches(a, c)
  {
    var first: seq<Move> :| Runs(a, first) && After(a, first) == b;
    var second: seq<Move> :| Runs(b, second) && After(b, second) == c;
    RunsAppend(a, first, second);
  }

  /** So whatever is shown to be a run of the machine keeps every invariant. */
  lemma ReachesIsSafe(a: State, b: State)
    requires Inv(a) && Reaches(a, b)
    ensures Inv(b) && b.size == a.size && a.broken <= b.broken
  {
    var moves: seq<Move> :| Runs(a, moves) && After(a, moves) == b;
    EveryRunIsSafe(a, moves);
    BrokenStaysBroken(a, moves);
    SizeStays(a, moves);
  }

  lemma {:induction false} SizeStays(s: State, moves: seq<Move>)
    requires Runs(s, moves)
    ensures After(s, moves).size == s.size
    decreases |moves|
  {
    if moves != [] {
      SizeStays(Do(s, moves[0].thread, moves[0].step), moves[1..]);
    }
  }
}
