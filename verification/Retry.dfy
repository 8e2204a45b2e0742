// The retry loop of exec.go apart from what one attempt does: an attempt is a function of the
// state it finds and its number, and so is whether the wait after it runs to its end.
module Retry {
  import opened Wrappers
  import opened PoolMachine
  import opened Ldaperr

  datatype Failure = Failed(kind: Kind) | BackoffCut

  /** One execution of the operation: the connection it ran on and the error it returned. */
  datatype Ran = Ran(conn: Conn, result: Chain)

  datatype Outcome = NotAcquired(reported: Kind) | Executed(ran: Ran, kind: Option<Kind>)

  datatype Outcomes<S> = Outcomes(reported: Option<Failure>, runs: seq<Ran>, state: S)

  /** The attempts from the given one on. */
  function Loop<S>(turn: (S, nat) -> (Outcome, S), wakes: nat -> bool, s: S, attempt: nat, maxAttempts: int): Outcomes<S>
    decreases maxAttempts - attempt + 1
  {
    if attempt > maxAttempts then Outcomes(None, [], s)
    else
      match turn(s, attempt)
      case (NotAcquired(kind), next) => Outcomes(Some(Failed(kind)), [], next)
      case (Executed(ran, None), next) => Outcomes(None, [ran], next)
      case (Executed(ran, Some(kind)), next) =>
        if !Retryable(kind) || attempt == maxAttempts then Outcomes(Some(Failed(kind)), [ran], next)
        else if !wakes(attempt) then Outcomes(Some(BackoffCut), [ran], next)
        else Onward([ran], Loop(turn, wakes, next, attempt + 1, maxAttempts))
  }

  /** Runs already made, in front of what the attempts still to come make. */
  function Onward<S>(runs: seq<Ran>, rest: Outcomes<S>): Outcomes<S> {
    rest.(runs := runs + rest.runs)
  }

  lemma OnwardStep<S>(runs: seq<Ran>, ran: Ran, rest: Outcomes<S>)
    ensures Onward(runs, Onward([ran], rest)) == Onward(runs + [ran], rest)
  {
    assert runs + ([ran] + rest.runs) == (runs + [ran]) + rest.runs;
  }

  /** One turn of the loop, after the runs already made: what it returns, or where it goes on from. */
  lemma LoopStep<S>(turn: (S, nat) -> (Outcome, S), wakes: nat -> bool, s: S, attempt: nat, maxAttempts: int,
                    runs: seq<Ran>, once: Outcome, next: S)
    requires attempt <= maxAttempts && turn(s, attempt) == (once, next)
    ensures var all := Onward(runs, Loop(turn, wakes, s, attempt, maxAttempts));
            match once
            case NotAcquired(kind) => all == Outcomes(Some(Failed(kind)), runs, next)
            case Executed(ran, None) => all == Outcomes(None, runs + [ran], next)
            case Executed(ran, Some(kind)) =>
              if !Retryable(kind) || attempt == maxAttempts then all == Outcomes(Some(Failed(kind)), runs + [ran], next)
              else if !wakes(attempt) then all == Outcomes(Some(BackoffCut), runs + [ran], next)
              else all == Onward(runs + [ran], Loop(turn, wakes, next, attempt + 1, maxAttempts))
  {
    assert runs + [] == runs;
    if once.Executed? {
      OnwardStep(runs, once.ran, Loop(turn, wakes, next, attempt + 1, maxAttempts));
    }
  }

  /** An attempt classifies what its operation returned. */
  ghost predicate Faithful<S(!new)>(turn: (S, nat) -> (Outcome, S), result: nat -> Chain, kindOf: Chain -> Option<Kind>) {
    forall s: S, n: nat :: turn(s, n).0.Executed? ==>
      turn(s, n).0.ran.result == result(n) && turn(s, n).0.kind == kindOf(result(n))
  }

  /** Another attempt follows this one: it failed transiently, attempts are left and the wait ended. */
  predicate Goes<S>(turn: (S, nat) -> (Outcome, S), wakes: nat -> bool, s: S, attempt: nat, maxAttempts: int) {
    && attempt < maxAttempts && turn(s, attempt).0.Executed?
    && turn(s, attempt).0.kind == Some(Transient) && wakes(attempt)
  }

  /** Then the rest of the loop starts from the state it left; otherwise its own outcome is all there is. */
  lemma FirstAndRest<S>(turn: (S, nat) -> (Outcome, S), wakes: nat -> bool, s: S, attempt: nat, maxAttempts: int)
    requires attempt <= maxAttempts
    ensures var o := Loop(turn, wakes, s, attempt, maxAttempts);
            var (once, next) := turn(s, attempt);
            if Goes(turn, wakes, s, attempt, maxAttempts) then
              o == Onward([once.ran], Loop(turn, wakes, next, attempt + 1, maxAttempts))
            else
              && o.state == next
              && match once
                 case NotAcquired(kind) => o.runs == [] && o.reported == Some(Failed(kind))
                 case Executed(ran, None) => o.runs == [ran] && o.reported == None
                 case Executed(ran, Some(kind)) =>
                   && o.runs == [ran]
                   && o.reported == Some(if kind == Transient && attempt < maxAttempts then BackoffCut else Failed(kind))
  {
  }

  /** Every run but the last failed with a transient error. */
  predicate RetriedOnlyTransients(runs: seq<Ran>, kindOf: Chain -> Option<Kind>) {
    forall i :: 0 <= i < |runs| - 1 ==> kindOf(runs[i].result) == Some(Transient)
  }

  predicate LastSucceeded(runs: seq<Ran>, kindOf: Chain -> Option<Kind>) {
    runs != [] && kindOf(runs[|runs| - 1].result) == None
  }

  /** The runs returned what their own attempts, from the given one on, had them return. */
  predicate OwnResults(runs: seq<Ran>, attempt: nat, result: nat -> Chain) {
    forall i :: 0 <= i < |runs| ==> runs[i].result == result(attempt + i)
  }

  lemma RunsGrow(ran: Ran, rest: seq<Ran>, runs: seq<Ran>, attempt: nat, result: nat -> Chain, kindOf: Chain -> Option<Kind>)
    requires ran.result == result(attempt) && kindOf(ran.result) == Some(Transient) && runs == [ran] + rest
    requires OwnResults(rest, attempt + 1, result) && RetriedOnlyTransients(rest, kindOf)
    ensures OwnResults(runs, attempt, result) && RetriedOnlyTransients(runs, kindOf)
  {
    forall i | 0 <= i < |runs| ensures runs[i].result == result(attempt + i) {
      if i > 0 {
        assert runs[i] == rest[i - 1] && rest[i - 1].result == result(attempt + 1 + (i - 1));
      }
    }
    forall i | 0 <= i < |runs| - 1 ensures kindOf(runs[i].result) == Some(Transient) {
      if i > 0 {
        assert runs[i] == rest[i - 1];
      }
    }
  }

  /** At most as many runs as attempts, each with its own attempt's result, and only transient failures repeated. */
  lemma {:induction false} RunsAreBounded<S(!new)>(turn: (S, nat) -> (Outcome, S), wakes: nat -> bool, s: S, attempt: nat, maxAttempts: int,
                                                   result: nat -> Chain, kindOf: Chain -> Option<Kind>)
    requires Faithful(turn, result, kindOf)
    ensures var runs := Loop(turn, wakes, s, attempt, maxAttempts).runs;
            && |runs| <= (if attempt > maxAttempts then 0 else maxAttempts - attempt + 1)
            && RetriedOnlyTransients(runs, kindOf) && OwnResults(runs, attempt, result)
    decreases maxAttempts - attempt
  {
    if attempt <= maxAttempts {
      FirstAndRest(turn, wakes, s, attempt, maxAttempts);
      if Goes(turn, wakes, s, attempt, maxAttempts) {
        var (once, next) := turn(s, attempt);
        RunsAreBounded(turn, wakes, next, attempt + 1, maxAttempts, result, kindOf);
        RunsGrow(once.ran, Loop(turn, wakes, next, attempt + 1, maxAttempts).runs,
                 Loop(turn, wakes, s, attempt, maxAttempts).runs, attempt, result, kindOf);
      }
    }
  }

  lemma LastOfMore(ran: Ran, rest: seq<Ran>, kindOf: Chain -> Option<Kind>)
    requires kindOf(ran.result) == Some(Transient)
    ensures LastSucceeded([ran] + rest, kindOf) <==> LastSucceeded(rest, kindOf)
  {
    if rest != [] {
      assert ([ran] + rest)[|rest|] == rest[|rest| - 1];
    }
  }

  /** Nil comes back exactly after a success, or when there was no attempt to make. */
  lemma {:induction false} NilMeansSuccess<S(!new)>(turn: (S, nat) -> (Outcome, S), wakes: nat -> bool, s: S, attempt: nat, maxAttempts: int,
                                                    result: nat -> Chain, kindOf: Chain -> Option<Kind>)
    requires Faithful(turn, result, kindOf)
    ensures var o := Loop(turn, wakes, s, attempt, maxAttempts);
            o.reported.None? <==> attempt > maxAttempts || LastSucceeded(o.runs, kindOf)
    decreases maxAttempts - attempt
  {
    if attempt <= maxAttempts {
      FirstAndRest(turn, wakes, s, attempt, maxAttempts);
      if Goes(turn, wakes, s, attempt, maxAttempts) {
        var (once, next) := turn(s, attempt);
        NilMeansSuccess(turn, wakes, next, attempt + 1, maxAttempts, result, kindOf);
        LastOfMore(once.ran, Loop(turn, wakes, next, attempt + 1, maxAttempts).runs, kindOf);
      }
    }
  }

  /** The last attempt that ran its operation failed transiently, was not the last allowed, and its wait was cut. */
  predicate WasCut(last: int, maxAttempts: int, wakes: nat -> bool, result: nat -> Chain, kindOf: Chain -> Option<Kind>) {
    0 <= last < maxAttempts && kindOf(result(last)) == Some(Transient) && !wakes(last)
  }

  /** A cut backoff is reported exactly then; whatever else ends the loop reports its own failure. */
  lemma {:induction false} BackoffCutExactly<S(!new)>(turn: (S, nat) -> (Outcome, S), wakes: nat -> bool, s: S, attempt: nat, maxAttempts: int,
                                                      result: nat -> Chain, kindOf: Chain -> Option<Kind>)
    requires Faithful(turn, result, kindOf)
    ensures var o := Loop(turn, wakes, s, attempt, maxAttempts);
            o.reported == Some(BackoffCut)
            <==> o.runs != [] && WasCut(attempt + |o.runs| - 1, maxAttempts, wakes, result, kindOf)
    decreases maxAttempts - attempt
  {
    if attempt <= maxAttempts {
      FirstAndRest(turn, wakes, s, attempt, maxAttempts);
      if Goes(turn, wakes, s, attempt, maxAttempts) {
        BackoffCutExactly(turn, wakes, turn(s, attempt).1, attempt + 1, maxAttempts, result, kindOf);
      }
    }
  }

  /** The attempt of that number got no connection, and that is what the loop reported. */
  ghost predicate EndsUnacquired<S>(turn: (S, nat) -> (Outcome, S), before: S, attempt: nat, o: Outcomes<S>) {
    var (once, next) := turn(before, attempt);
    once.NotAcquired? && o.state == next && o.reported == Some(Failed(once.reported))
  }

  /** The last attempt that ran its operation called for another one. */
  predicate AnotherDue(last: int, maxAttempts: int, wakes: nat -> bool, result: nat -> Chain, kindOf: Chain -> Option<Kind>) {
    0 <= last < maxAttempts && kindOf(result(last)) == Some(Transient) && wakes(last)
  }

  /** A transient failure with attempts left and a finished wait is followed by another attempt: if that one is not
      among the runs it got no connection, and so for the first. */
  lemma {:induction false} AnotherFollows<S(!new)>(turn: (S, nat) -> (Outcome, S), wakes: nat -> bool, s: S, attempt: nat, maxAttempts: int,
                                                   result: nat -> Chain, kindOf: Chain -> Option<Kind>) returns (before: S)
    requires Faithful(turn, result, kindOf) && attempt <= maxAttempts
    ensures var o := Loop(turn, wakes, s, attempt, maxAttempts);
            o.runs == [] || AnotherDue(attempt + |o.runs| - 1, maxAttempts, wakes, result, kindOf) ==>
              EndsUnacquired(turn, before, attempt + |o.runs|, o)
    decreases maxAttempts - attempt
  {
    before := s;
    FirstAndRest(turn, wakes, s, attempt, maxAttempts);
    if Goes(turn, wakes, s, attempt, maxAttempts) {
      before := AnotherFollows(turn, wakes, turn(s, attempt).1, attempt + 1, maxAttempts, result, kindOf);
    }
  }
}
