// Moving some keys of a map to new places, one at a time and in any order.
module Relocation {
  import opened Wrappers

  /** The map as it was, the keys to move, where each goes and the value it has there. */
  datatype Plan<V> = Plan(before: map<string, V>, sub: set<string>, image: string -> string, content: map<string, V>)

  predicate Valid<V>(p: Plan<V>) {
    p.sub <= p.before.Keys && p.sub == p.content.Keys
  }

  /** No image is taken: neither by another image nor by a key of the map. */
  ghost predicate Apart<V>(p: Plan<V>) {
    && Valid(p)
    && (forall a, b :: a in p.sub && b in p.sub && p.image(a) == p.image(b) ==> a == b)
    && (forall a, b :: a in p.sub && b in p.before && p.image(a) == b ==> a == b)
  }

  function Spot<V>(p: Plan<V>, moved: set<string>, k: string): string {
    if k in moved then p.image(k) else k
  }

  function Value<V>(p: Plan<V>, moved: set<string>, k: string): V
    requires Valid(p) && moved <= p.sub && k in p.before
  {
    if k in moved then p.content[k] else p.before[k]
  }

  ghost predicate ComesFrom<V>(p: Plan<V>, moved: set<string>, x: string) {
    exists k :: k in p.before && x == Spot(p, moved, k)
  }

  ghost predicate Placed<V>(p: Plan<V>, moved: set<string>, now: map<string, V>, k: string)
    requires Valid(p) && moved <= p.sub && k in p.before
  {
    Spot(p, moved, k) in now && now[Spot(p, moved, k)] == Value(p, moved, k)
  }

  /** The map with exactly the keys in moved gone to their images. */
  ghost predicate Midway<V>(p: Plan<V>, moved: set<string>, now: map<string, V>) {
    && Valid(p) && moved <= p.sub
    && (forall k :: k in p.before ==> Placed(p, moved, now, k))
    && (forall x :: x in now ==> ComesFrom(p, moved, x))
  }

  function Next<V>(p: Plan<V>, moved: set<string>, now: map<string, V>, x: string): map<string, V>
    requires Valid(p)
  {
    if x in p.sub && x !in moved then (now - {x})[p.image(x) := p.content[x]] else now
  }

  lemma StartsMidway<V>(p: Plan<V>)
    requires Valid(p)
    ensures Midway(p, {}, p.before)
  {
    forall x | x in p.before ensures ComesFrom(p, {}, x) {
      assert x == Spot(p, {}, x);
    }
  }

  lemma SpotsApart<V>(p: Plan<V>, moved: set<string>, j: string, k: string)
    requires Apart(p) && moved <= p.sub && k in p.sub && j in p.before && j != k
    ensures Spot(p, moved, j) != p.image(k) && (k !in moved ==> Spot(p, moved, j) != k)
  {
  }

  lemma MoveOne<V>(p: Plan<V>, moved: set<string>, now: map<string, V>, k: string)
    requires Apart(p) && Midway(p, moved, now) && k in p.sub && k !in moved
    ensures Midway(p, moved + {k}, Next(p, moved, now, k))
  {
    var more, next := moved + {k}, Next(p, moved, now, k);
    forall j | j in p.before ensures Placed(p, more, next, j) {
      if j != k {
        assert Placed(p, moved, now, j);
        SpotsApart(p, moved, j, k);
      }
    }
    forall x | x in next ensures ComesFrom(p, more, x) {
      if x == p.image(k) {
        assert x == Spot(p, more, k);
      } else {
        assert ComesFrom(p, moved, x);
        var j :| j in p.before && x == Spot(p, moved, j);
        assert x == Spot(p, more, j);
      }
    }
  }

  /** Images are as many as the keys they come from. */
  lemma {:induction false} SameSize<V>(p: Plan<V>, moved: set<string>, from: set<string>, to: set<string>)
    requires Apart(p) && moved <= p.sub && from <= p.before.Keys
    requires forall k :: k in from ==> Spot(p, moved, k) in to
    requires forall x :: x in to ==> exists k :: k in from && x == Spot(p, moved, k)
    ensures |from| == |to|
    decreases |from|
  {
    if from == {} {
      assert to == {};
    } else {
      var k :| k in from;
      var less, rest := from - {k}, to - {Spot(p, moved, k)};
      forall j | j in less ensures Spot(p, moved, j) in rest {
        AllSpotsApart(p, moved, j, k);
      }
      SameSize(p, moved, less, rest);
    }
  }

  lemma AllSpotsApart<V>(p: Plan<V>, moved: set<string>, j: string, k: string)
    requires Apart(p) && moved <= p.sub && k in p.before && j in p.before && j != k
    ensures Spot(p, moved, j) != Spot(p, moved, k)
  {
  }

  /** So a map midway is as large as it was. */
  lemma NothingLost<V>(p: Plan<V>, moved: set<string>, now: map<string, V>)
    requires Apart(p) && Midway(p, moved, now)
    ensures |now| == |p.before|
  {
    forall k | k in p.before ensures Spot(p, moved, k) in now.Keys {
      assert Placed(p, moved, now, k);
    }
    forall x | x in now.Keys ensures exists k :: k in p.before.Keys && x == Spot(p, moved, k) {
      assert ComesFrom(p, moved, x);
    }
    SameSize(p, moved, p.before.Keys, now.Keys);
  }

  // ---- an iteration that moves what it comes to ----

  function Iterate<V>(visit: (map<string, V>, string) -> Option<map<string, V>>, now: map<string, V>, visits: seq<string>)
    : Option<map<string, V>>
    decreases |visits|
  {
    if visits == [] then Some(now)
    else
      match visit(now, visits[0])
      case None => None
      case Some(next) => Iterate(visit, next, visits[1..])
  }

  /** Once the first key has moved, every turn of the iteration is a step of the plan. */
  ghost predicate Steps<V(!new)>(p: Plan<V>, first: string, visit: (map<string, V>, string) -> Option<map<string, V>>) {
    Valid(p) && forall moved, now, x :: first in moved && Midway(p, moved, now) ==> visit(now, x) == Some(Next(p, moved, now, x))
  }

  function Further<V>(p: Plan<V>, moved: set<string>, x: string): set<string> {
    if x in p.sub then moved + {x} else moved
  }

  lemma OneTurn<V>(p: Plan<V>, moved: set<string>, now: map<string, V>, x: string)
    requires Apart(p) && Midway(p, moved, now)
    ensures Midway(p, Further(p, moved, x), Next(p, moved, now, x))
  {
    if x in p.sub && x !in moved {
      MoveOne(p, moved, now, x);
    } else {
      assert Further(p, moved, x) == moved;
    }
  }

  lemma Turned<V(!new)>(p: Plan<V>, first: string, visit: (map<string, V>, string) -> Option<map<string, V>>,
                        moved: set<string>, now: map<string, V>, x: string)
    requires Apart(p) && Steps(p, first, visit) && first in moved && Midway(p, moved, now)
    ensures visit(now, x).Some? && Midway(p, Further(p, moved, x), visit(now, x).value)
  {
    OneTurn(p, moved, now, x);
    assert visit(now, x) == Some(Next(p, moved, now, x));
  }

  lemma AllVisited<V>(p: Plan<V>, visits: seq<string>, more: set<string>)
    requires visits != [] && (visits[0] in p.sub ==> visits[0] in more)
    requires forall i :: 0 <= i < |visits[1..]| && visits[1..][i] in p.sub ==> visits[1..][i] in more
    ensures forall i :: 0 <= i < |visits| && visits[i] in p.sub ==> visits[i] in more
  {
    forall i | 0 <= i < |visits| && visits[i] in p.sub ensures visits[i] in more {
      if i > 0 {
        assert visits[1..][i - 1] == visits[i];
      }
    }
  }

  lemma {:induction false} IterationMoves<V(!new)>(p: Plan<V>, first: string, visit: (map<string, V>, string) -> Option<map<string, V>>,
                                                   moved: set<string>, now: map<string, V>, visits: seq<string>)
    returns (more: set<string>)
    requires Apart(p) && Steps(p, first, visit) && first in moved && Midway(p, moved, now)
    ensures Iterate(visit, now, visits).Some? && Midway(p, more, Iterate(visit, now, visits).value)
    ensures moved <= more && forall i :: 0 <= i < |visits| && visits[i] in p.sub ==> visits[i] in more
    decreases |visits|
  {
    if visits == [] {
      more := moved;
    } else {
      Turned(p, first, visit, moved, now, visits[0]);
      more := IterationMoves(p, first, visit, Further(p, moved, visits[0]), visit(now, visits[0]).value, visits[1..]);
      AllVisited(p, visits, more);
    }
  }

  /** However often and in whatever order it comes to the keys, if it comes to all of them then all are moved. */
  lemma EveryoneMoves<V(!new)>(p: Plan<V>, first: string, visit: (map<string, V>, string) -> Option<map<string, V>>,
                               start: map<string, V>, visits: seq<string>)
    requires Apart(p) && Steps(p, first, visit) && first in p.sub && forall k :: k in p.sub ==> k in visits
    requires start == Next(p, {}, p.before, first)
    ensures var now := Iterate(visit, start, visits);
            now.Some? && Midway(p, p.sub, now.value) && |now.value| == |p.before|
  {
    StartsMidway(p);
    OneTurn(p, {}, p.before, first);
    assert Further(p, {}, first) == {first};
    var moved := IterationMoves(p, first, visit, {first}, start, visits);
    Everyone(p, moved, visits);
    NothingLost(p, p.sub, Iterate(visit, start, visits).value);
  }

  lemma Everyone<V>(p: Plan<V>, moved: set<string>, visits: seq<string>)
    requires moved <= p.sub && forall i :: 0 <= i < |visits| && visits[i] in p.sub ==> visits[i] in moved
    requires forall k :: k in p.sub ==> k in visits
    ensures moved == p.sub
  {
    forall k | k in p.sub ensures k in moved {
      var i :| 0 <= i < |visits| && visits[i] == k;
    }
  }
}
