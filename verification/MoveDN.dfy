// The subtree move of internal/adtest/memory.go: one entry is renamed or moved, and every
// descendant's DN follows, whatever order the map iteration takes.
module MoveDN {
  import opened Wrappers
  import opened Lists
  import opened Text
  import opened Relocation

  // ---- distinguished names ----

  const TRIMMED := (part: string) => Trim(part)

  function NormalizeDN(dn: string): string {
    Join(Map(Split(dn, ','), TRIMMED), ',')
  }

  predicate EqualFoldDN(a: string, b: string) {
    EqualFold(NormalizeDN(a), NormalizeDN(b))
  }

  /** dn is base or sits beneath it, for names without spaces around their commas. */
  predicate Under(dn: string, base: string) {
    EqualFold(dn, base) || HasSuffix(Lower(dn), "," + Lower(base))
  }

  predicate IsUnder(dn: string, base: string) {
    Under(NormalizeDN(dn), NormalizeDN(base))
  }

  predicate Normal(dn: string) {
    NormalizeDN(dn) == dn
  }

  lemma {:induction false} SplitAppend(a: string, b: string)
    ensures Split(a + [','] + b, ',') == Split(a, ',') + Split(b, ',')
  {
    if a == "" {
      assert a + [','] + b == [','] + b;
    } else {
      assert (a + [','] + b)[1..] == a[1..] + [','] + b;
      SplitAppend(a[1..], b);
    }
  }

  lemma {:induction false} JoinAppend(a: seq<string>, b: seq<string>)
    requires |a| >= 1 && |b| >= 1
    ensures Join(a + b, ',') == Join(a, ',') + [','] + Join(b, ',')
    decreases |a|
  {
    assert (a + b)[1..] == a[1..] + b;
    if |a| == 1 {
      assert (a + b)[1..] == b;
    } else {
      JoinAppend(a[1..], b);
      assert a[0] + [','] + (Join(a[1..], ',') + [','] + Join(b, ',')) == (a[0] + [','] + Join(a[1..], ',')) + [','] + Join(b, ',');
    }
  }

  lemma NormalizeAppend(a: string, b: string)
    ensures NormalizeDN(a + [','] + b) == NormalizeDN(a) + [','] + NormalizeDN(b)
  {
    SplitAppend(a, b);
    MapAppend(Split(a, ','), Split(b, ','), TRIMMED);
    JoinAppend(Map(Split(a, ','), TRIMMED), Map(Split(b, ','), TRIMMED));
  }

  lemma {:induction false} JoinShorter(parts: seq<string>)
    requires |parts| >= 1
    ensures |Join(Map(parts, TRIMMED), ',')| <= |Join(parts, ',')|
    decreases |parts|
  {
    if |parts| > 1 {
      JoinShorter(parts[1..]);
      assert Map(parts, TRIMMED)[1..] == Map(parts[1..], TRIMMED);
    }
  }

  lemma NormalizeShorter(dn: string)
    ensures |NormalizeDN(dn)| <= |dn|
  {
    JoinShorter(Split(dn, ','));
    JoinInvertsSplit(dn, ',');
  }

  /** A name is normal exactly when both sides of any of its commas are. */
  lemma NormalParts(a: string, b: string)
    ensures Normal(a + [','] + b) <==> Normal(a) && Normal(b)
  {
    NormalizeAppend(a, b);
    NormalizeShorter(a);
    NormalizeShorter(b);
    if Normal(a + [','] + b) {
      var s := a + [','] + b;
      assert s[..|a|] == a && s[|a| + 1..] == b;
      assert s[..|NormalizeDN(a)|] == NormalizeDN(a);
      assert s[|NormalizeDN(a)| + 1..] == NormalizeDN(b);
    }
  }

  // ---- the directory ----

  type Attrs = map<string, seq<string>>
  type Entries = map<string, Attrs>

  const DN := "distinguishedName"
  const NAME := "name"

  /** The moved entry itself, before its descendants follow. */
  function Retarget(e: Entries, key: string, target: string, name: string): Entries
    requires key in e
  {
    (e - {key})[target := e[key][DN := [target]][NAME := [name]]]
  }

  /** One turn of the iteration; None is the slice panic on a stored name shorter than the key. */
  function Visit(e: Entries, x: string, key: string, target: string): Option<Entries> {
    if x !in e || x == target || !IsUnder(x, key) then Some(e)
    else if |x| < |key| then None
    else
      var moved := x[..|x| - |key|] + target;
      Some((e - {x})[moved := e[x][DN := [moved]]])
  }

  function Visiting(key: string, target: string): (Entries, string) -> Option<Entries> {
    (e: Entries, x: string) => Visit(e, x, key, target)
  }

  datatype Outcome =
    | NoObject
    | BadSyntax(key: string)
    | EntryExists(key: string, target: string)
    | Panicked(key: string, target: string)
    | Moved(key: string, target: string)

  /** The new name of the entry found: under the new superior, or where it is if there is none. */
  function TargetOf(key: string, newRDN: string, newSuperior: string, containerOf: string -> Option<string>): Option<string> {
    if newSuperior != "" then Some(newRDN + "," + newSuperior)
    else
      match containerOf(key)
      case None => None
      case Some(parent) => Some(newRDN + "," + parent)
  }

  predicate Taken(e: Entries, name: string) {
    exists k :: k in e && EqualFoldDN(k, name)
  }

  /** What is answered once the entry is found. */
  function Verdict(e: Entries, key: string, target: Option<string>, visits: seq<string>, rdnValue: string -> string): Outcome
    requires key in e
  {
    match target
    case None => BadSyntax(key)
    case Some(t) =>
      if !EqualFoldDN(t, key) && Taken(e, t) then EntryExists(key, t)
      else if Moving(e, key, t, rdnValue(t), visits).None? then Panicked(key, t)
      else Moved(key, t)
  }

  /** The directory after the iteration. */
  function Moving(e: Entries, key: string, target: string, name: string, visits: seq<string>): Option<Entries>
    requires key in e
  {
    Iterate(Visiting(key, target), Retarget(e, key, target, name), visits)
  }

  class MemDirectory {
    var entries: Entries

    constructor (entries: Entries)
      ensures this.entries == entries
    {
      this.entries := entries;
    }

    /** visits: the keys the map iteration comes to, in its order; a key that is gone by then is passed over,
        and one inserted meanwhile may come up. ContainerOf and the RDN's value belong to another library. */
    method ModifyDN(dn: string, newRDN: string, newSuperior: string, visits: seq<string>,
                    containerOf: string -> Option<string>, rdnValue: string -> string) returns (r: Outcome)
      modifies this
      ensures r.NoObject? <==> !Taken(old(entries), dn)
      ensures !r.NoObject? ==>
                && r.key in old(entries) && EqualFoldDN(r.key, dn)
                && r == Verdict(old(entries), r.key, TargetOf(r.key, newRDN, newSuperior, containerOf), visits, rdnValue)
      ensures r.Moved? ==> Moving(old(entries), r.key, r.target, rdnValue(r.target), visits) == Some(entries)
      ensures r.NoObject? || r.BadSyntax? || r.EntryExists? ==> entries == old(entries)
    {
      if !Taken(entries, dn) {
        return NoObject;
      }
      var key :| key in entries && EqualFoldDN(key, dn);
      var parent := newSuperior;
      if parent == "" {
        var container := containerOf(key);
        if container.None? {
          return BadSyntax(key);
        }
        parent := container.value;
      }
      var target := newRDN + "," + parent;
      if !EqualFoldDN(target, key) && Taken(entries, target) {
        return EntryExists(key, target);
      }
      entries := Retarget(entries, key, target, rdnValue(target));
      var done := Reparent(key, target, visits);
      return if done then Moved(key, target) else Panicked(key, target);
    }

    /** The loop over the descendants. */
    method Reparent(key: string, target: string, visits: seq<string>) returns (done: bool)
      modifies this
      ensures done <==> Iterate(Visiting(key, target), old(entries), visits).Some?
      ensures done ==> Iterate(Visiting(key, target), old(entries), visits) == Some(entries)
    {
      for i := 0 to |visits|
        invariant Iterate(Visiting(key, target), old(entries), visits) == Iterate(Visiting(key, target), entries, visits[i..])
      {
        var x := visits[i];
        assert visits[i..][0] == x && visits[i..][1..] == visits[i + 1..];
        if x !in entries || x == target || !IsUnder(x, key) {
          continue;
        }
        if |x| < |key| {
          return false;
        }
        var moved := x[..|x| - |key|] + target;
        entries := (entries - {x})[moved := entries[x][DN := [moved]]];
      }
      return true;
    }
  }

  // ---- where every entry goes ----

  /** The iteration takes the entry for a descendant, or the moved entry itself, and can cut its name. */
  predicate Moves(k: string, key: string) {
    IsUnder(k, key) && |key| <= |k|
  }

  /** The entry's name with its end, as long as the moved name, replaced. */
  function Place(k: string, key: string, target: string): string {
    if Moves(k, key) then k[..|k| - |key|] + target else k
  }

  function Relabel(a: Attrs, k: string, key: string, target: string, name: string): Attrs {
    if !Moves(k, key) then a
    else if k == key then a[DN := [target]][NAME := [name]]
    else a[DN := [Place(k, key, target)]]
  }

  /** Coming to the entry again under its new name leaves it there. */
  predicate StaysPut(k: string, key: string, target: string) {
    var x := Place(k, key, target);
    x == target || !IsUnder(x, key) || (Moves(x, key) && Place(x, key, target) == x)
  }

  /** Moving a takes the name of b, or the one that b gets. */
  predicate Collide(a: string, b: string, key: string, target: string) {
    Moves(a, key) && a != b && (Place(a, key, target) == b || (Moves(b, key) && Place(a, key, target) == Place(b, key, target)))
  }

  /** No descendant's name is too short to cut, every new name stays put, and no two entries collide. */
  predicate Relocatable(e: Entries, key: string, target: string) {
    && (forall k :: k in e && IsUnder(k, key) ==> Moves(k, key) && StaysPut(k, key, target))
    && (forall a, b :: a in e && b in e ==> !Collide(a, b, key, target))
  }

  lemma KeyMoves(key: string, target: string)
    ensures Moves(key, key) && Place(key, key, target) == target
  {
    assert key[..0] + target == target;
  }

  // ---- the whole move ----

  function PlanOf(e: Entries, key: string, target: string, name: string): Plan<Attrs> {
    Plan(e, set k | k in e && Moves(k, key),
         (k: string) => Place(k, key, target),
         map k | k in e && Moves(k, key) :: Relabel(e[k], k, key, target, name))
  }

  lemma EntryFacts(e: Entries, key: string, target: string, k: string)
    requires Relocatable(e, key, target) && key in e && k in e
    ensures IsUnder(k, key) ==> Moves(k, key) && StaysPut(k, key, target)
    ensures k != key ==> k != target
  {
    KeyMoves(key, target);
    assert !Collide(key, k, key, target);
  }

  lemma PlanIsApart(e: Entries, key: string, target: string, name: string)
    requires Relocatable(e, key, target)
    ensures Apart(PlanOf(e, key, target, name))
  {
    var p := PlanOf(e, key, target, name);
    forall a, b | a in p.sub && b in p.sub && p.image(a) == p.image(b) ensures a == b {
      assert !Collide(a, b, key, target);
    }
    forall a, b | a in p.sub && b in p.before && p.image(a) == b ensures a == b {
      assert !Collide(a, b, key, target);
    }
  }

  lemma RetargetIsFirst(e: Entries, key: string, target: string, name: string)
    requires key in e
    ensures Retarget(e, key, target, name) == Next(PlanOf(e, key, target, name), {}, e, key)
  {
    KeyMoves(key, target);
  }

  lemma RelabelAgain(now: Entries, x: string)
    requires x in now && DN in now[x] && now[x][DN] == [x]
    ensures (now - {x})[x := now[x][DN := [x]]] == now
  {
    assert now[x][DN := [x]] == now[x];
  }

  /** Coming to a moved entry's new name changes nothing. */
  lemma VisitMoved(now: Entries, x: string, k: string, key: string, target: string, name: string, a: Attrs)
    requires Moves(k, key) && StaysPut(k, key, target)
    requires x == Place(k, key, target) && x in now && now[x] == Relabel(a, k, key, target, name)
    ensures Visit(now, x, key, target) == Some(now)
  {
    KeyMoves(key, target);
    if x != target && IsUnder(x, key) {
      RelabelAgain(now, x);
    }
  }

  /** Coming to an entry that has not moved moves it if it is a descendant. */
  lemma VisitUnmoved(now: Entries, k: string, key: string, target: string, name: string)
    requires k in now && k != key && k != target && (IsUnder(k, key) ==> Moves(k, key))
    ensures Visit(now, k, key, target)
            == Some(if Moves(k, key) then (now - {k})[Place(k, key, target) := Relabel(now[k], k, key, target, name)] else now)
  {
  }

  /** What the plan says of an entry that has moved, and of one that has not. */
  lemma WhereMoved(e: Entries, key: string, target: string, name: string, moved: set<string>, now: Entries, k: string)
    requires Midway(PlanOf(e, key, target, name), moved, now) && k in moved
    ensures k in e && Moves(k, key)
    ensures Place(k, key, target) in now && now[Place(k, key, target)] == Relabel(e[k], k, key, target, name)
  {
    assert Placed(PlanOf(e, key, target, name), moved, now, k);
  }

  lemma WhereUnmoved(e: Entries, key: string, target: string, name: string, moved: set<string>, now: Entries, k: string)
    requires Midway(PlanOf(e, key, target, name), moved, now) && k in e && k !in moved
    ensures k in now && now[k] == e[k]
    ensures Next(PlanOf(e, key, target, name), moved, now, k)
            == if Moves(k, key) then (now - {k})[Place(k, key, target) := Relabel(e[k], k, key, target, name)] else now
  {
    assert Placed(PlanOf(e, key, target, name), moved, now, k);
  }

  /** Any other key of the directory is the image of an entry that has moved. */
  lemma WhichMoved(e: Entries, key: string, target: string, name: string, moved: set<string>, now: Entries, x: string)
    returns (k: string)
    requires Midway(PlanOf(e, key, target, name), moved, now) && x in now && !(x in e && x !in moved)
    ensures k in moved && x == Place(k, key, target)
  {
    var p := PlanOf(e, key, target, name);
    assert ComesFrom(p, moved, x);
    k :| k in p.before && x == Spot(p, moved, k);
  }

  lemma NothingNext(e: Entries, key: string, target: string, name: string, moved: set<string>, now: Entries, x: string)
    requires !(x in e && x !in moved)
    ensures Next(PlanOf(e, key, target, name), moved, now, x) == now
  {
  }

  lemma AbsentIsSettled(e: Entries, key: string, target: string, name: string, moved: set<string>, now: Entries, x: string)
    requires Midway(PlanOf(e, key, target, name), moved, now) && x !in now
    ensures !(x in e && x !in moved) && Next(PlanOf(e, key, target, name), moved, now, x) == now
  {
    if x in e && x !in moved {
      WhereUnmoved(e, key, target, name, moved, now, x);
    }
  }

  /** One turn of the iteration is one step of the plan. */
  lemma VisitIsNext(e: Entries, key: string, target: string, name: string, p: Plan<Attrs>, moved: set<string>, now: Entries, x: string)
    requires Relocatable(e, key, target) && key in e && p == PlanOf(e, key, target, name) && key in moved && Midway(p, moved, now)
    ensures Visit(now, x, key, target) == Some(Next(p, moved, now, x))
  {
    EntryFacts(e, key, target, key);
    if x !in now {
      AbsentIsSettled(e, key, target, name, moved, now, x);
    } else if x in e && x !in moved {
      WhereUnmoved(e, key, target, name, moved, now, x);
      EntryFacts(e, key, target, x);
      VisitUnmoved(now, x, key, target, name);
    } else {
      var k := WhichMoved(e, key, target, name, moved, now, x);
      NothingNext(e, key, target, name, moved, now, x);
      WhereMoved(e, key, target, name, moved, now, k);
      EntryFacts(e, key, target, k);
      VisitMoved(now, x, k, key, target, name, e[k]);
    }
  }

  /** Every entry is at its image with its attributes, relabelled if it moved; and there is nothing else. */
  ghost predicate Follows(now: Entries, e: Entries, key: string, target: string, name: string) {
    && (forall k :: k in e ==> Place(k, key, target) in now && now[Place(k, key, target)] == Relabel(e[k], k, key, target, name))
    && (forall x :: x in now ==> exists k :: k in e && x == Place(k, key, target))
  }

  lemma PlannedPlace(e: Entries, key: string, target: string, name: string, k: string)
    requires k in e
    ensures var p := PlanOf(e, key, target, name);
            Spot(p, p.sub, k) == Place(k, key, target) && Value(p, p.sub, k) == Relabel(e[k], k, key, target, name)
  {
  }

  lemma AllMoved(e: Entries, key: string, target: string, name: string, p: Plan<Attrs>, now: Entries)
    requires p == PlanOf(e, key, target, name) && Midway(p, p.sub, now)
    ensures Follows(now, e, key, target, name)
  {
    forall k | k in e ensures Place(k, key, target) in now && now[Place(k, key, target)] == Relabel(e[k], k, key, target, name) {
      PlannedPlace(e, key, target, name, k);
      assert Placed(p, p.sub, now, k);
    }
    forall x | x in now ensures exists k :: k in e && x == Place(k, key, target) {
      assert ComesFrom(p, p.sub, x);
      var k :| k in p.before && x == Spot(p, p.sub, k);
      PlannedPlace(e, key, target, name, k);
    }
  }

  lemma PlanSteps(e: Entries, key: string, target: string, name: string)
    requires Relocatable(e, key, target) && key in e
    ensures Steps(PlanOf(e, key, target, name), key, Visiting(key, target))
  {
    var p, visit := PlanOf(e, key, target, name), Visiting(key, target);
    forall moved: set<string>, now: Entries, x: string | key in moved && Midway(p, moved, now)
      ensures visit(now, x) == Some(Next(p, moved, now, x))
    {
      VisitIsNext(e, key, target, name, p, moved, now, x);
    }
  }

  predicate Covering(visits: seq<string>, e: Entries) {
    forall k :: k in e ==> k in visits
  }

  /** Every descendant is at the same relative name under the target, everything else where it was. */
  ghost predicate Lossless(e: Entries, key: string, target: string, name: string, visits: seq<string>)
    requires key in e
  {
    var now := Moving(e, key, target, name, visits);
    now.Some? && Follows(now.value, e, key, target, name) && |now.value| == |e|
  }

  /** Whatever the iteration order, revisits included, such a move loses nothing. */
  lemma SubtreeMoves(e: Entries, key: string, target: string, name: string, visits: seq<string>)
    requires Relocatable(e, key, target) && key in e && Covering(visits, e)
    ensures Lossless(e, key, target, name, visits)
  {
    var p := PlanOf(e, key, target, name);
    PlanIsApart(e, key, target, name);
    PlanSteps(e, key, target, name);
    RetargetIsFirst(e, key, target, name);
    EveryoneMoves(p, key, Visiting(key, target), Retarget(e, key, target, name), visits);
    AllMoved(e, key, target, name, p, Moving(e, key, target, name, visits).value);
  }

  // ---- when it loses something ----

  lemma KeysAfter(now: Entries, x: string, moved: string, a: Attrs)
    requires x in now
    ensures |(now - {x})[moved := a]| == |now| - if moved in now && moved != x then 1 else 0
  {
    var next := (now - {x})[moved := a];
    assert next.Keys == now.Keys - {x} + {moved};
  }

  lemma OneVisitKeepsSize(now: Entries, x: string, key: string, target: string)
    requires Visit(now, x, key, target).Some?
    ensures |Visit(now, x, key, target).value| <= |now|
  {
    if x in now && x != target && IsUnder(x, key) {
      KeysAfter(now, x, Place(x, key, target), now[x][DN := [Place(x, key, target)]]);
    }
  }

  lemma {:induction false} NeverGrows(now: Entries, visits: seq<string>, key: string, target: string)
    requires Iterate(Visiting(key, target), now, visits).Some?
    ensures |Iterate(Visiting(key, target), now, visits).value| <= |now|
    decreases |visits|
  {
    if visits != [] {
      var next := Visit(now, visits[0], key, target).value;
      OneVisitKeepsSize(now, visits[0], key, target);
      NeverGrows(next, visits[1..], key, target);
    }
  }

  /** A directory that has become smaller never has all its entries again. */
  lemma SmallerLoses(e: Entries, key: string, target: string, name: string, first: seq<string>, visits: seq<string>)
    requires key in e && Moving(e, key, target, name, first).Some? && |Moving(e, key, target, name, first).value| < |e|
    ensures !Lossless(e, key, target, name, first + visits)
  {
    IterateAppend(Visiting(key, target), Retarget(e, key, target, name), first, visits);
    if Moving(e, key, target, name, first + visits).Some? {
      NeverGrows(Moving(e, key, target, name, first).value, visits, key, target);
    }
  }

  lemma {:induction false} IterateAppend(visit: (Entries, string) -> Option<Entries>, now: Entries, a: seq<string>, b: seq<string>)
    requires Iterate(visit, now, a).Some?
    ensures Iterate(visit, now, a + b) == Iterate(visit, Iterate(visit, now, a).value, b)
    decreases |a|
  {
    if a == [] {
      assert a + b == b;
    } else {
      assert (a + b)[1..] == a[1..] + b;
      IterateAppend(visit, visit(now, a[0]).value, a[1..], b);
    }
  }

  lemma IterateOne(visit: (Entries, string) -> Option<Entries>, now: Entries, x: string)
    ensures Iterate(visit, now, [x]) == visit(now, x)
  {
    assert [x][1..] == [];
    assert visit(now, x).Some? ==> Iterate(visit, visit(now, x).value, []) == visit(now, x);
  }

  lemma RetargetFacts(e: Entries, key: string, target: string, name: string)
    requires key in e
    ensures |Retarget(e, key, target, name)| == |e| - if target in e && target != key then 1 else 0
    ensures forall k :: k in Retarget(e, key, target, name) <==> k == target || (k in e && k != key)
  {
    KeysAfter(e, key, target, e[key][DN := [target]][NAME := [name]]);
  }

  /** The moved entry itself takes a name that is there. */
  lemma TargetTaken(e: Entries, key: string, target: string, name: string, visits: seq<string>)
    requires key in e && target in e && target != key
    ensures !Lossless(e, key, target, name, visits)
  {
    RetargetFacts(e, key, target, name);
    assert [] + visits == visits;
    SmallerLoses(e, key, target, name, [], visits);
  }

  /** A name too short to cut. */
  lemma TooShort(e: Entries, key: string, target: string, name: string, k: string, visits: seq<string>)
    requires key in e && k in e && k != target && IsUnder(k, key) && |k| < |key|
    ensures Moving(e, key, target, name, [k] + visits).None?
  {
    RetargetFacts(e, key, target, name);
    assert ([k] + visits)[1..] == visits;
  }

  /** An entry that comes to a name that is there. */
  lemma TakesPlace(e: Entries, key: string, target: string, name: string, a: string, b: string, visits: seq<string>)
    requires key in e && a in e && a != key && a != target && Moves(a, key)
    requires b in Retarget(e, key, target, name) && b != a && Place(a, key, target) == b
    ensures !Lossless(e, key, target, name, [a] + visits)
  {
    var now := Retarget(e, key, target, name);
    RetargetFacts(e, key, target, name);
    KeysAfter(now, a, b, now[a][DN := [b]]);
    IterateOne(Visiting(key, target), now, a);
    SmallerLoses(e, key, target, name, [a], visits);
  }

  lemma TwoVisits(now: Entries, key: string, target: string, a: string, b: string)
    requires a in now && b in now && a != b && a != target && b != target && Moves(a, key) && Moves(b, key)
    requires Place(a, key, target) == Place(b, key, target) != b
    ensures var next := Visit(now, a, key, target);
            next.Some? && Visit(next.value, b, key, target).Some? && |Visit(next.value, b, key, target).value| < |now|
  {
    var x, next := Place(a, key, target), Visit(now, a, key, target).value;
    OneVisitKeepsSize(now, a, key, target);
    KeysAfter(next, b, x, next[b][DN := [x]]);
  }

  /** Two entries that come to one name. */
  lemma TakeOnePlace(e: Entries, key: string, target: string, name: string, a: string, b: string, visits: seq<string>)
    requires key in e && a in e && b in e && a != b && a != key && b != key && a != target && b != target
    requires Moves(a, key) && Moves(b, key) && Place(a, key, target) == Place(b, key, target)
    requires Place(a, key, target) != b
    ensures !Lossless(e, key, target, name, [a] + [b] + visits)
  {
    var now, visit := Retarget(e, key, target, name), Visiting(key, target);
    RetargetFacts(e, key, target, name);
    TwoVisits(now, key, target, a, b);
    IterateOne(visit, now, a);
    IterateAppend(visit, now, [a], [b]);
    IterateOne(visit, visit(now, a).value, b);
    SmallerLoses(e, key, target, name, [a] + [b], visits);
  }

  lemma {:induction false} IterateSnoc(visit: (Entries, string) -> Option<Entries>, now: Entries, visits: seq<string>, x: string)
    requires Iterate(visit, now, visits).Some?
    ensures Iterate(visit, now, visits + [x]) == visit(Iterate(visit, now, visits).value, x)
    decreases |visits|
  {
    if visits == [] {
      assert [] + [x] == [x] && [x][1..] == [];
      assert visit(now, x).Some? ==> Iterate(visit, visit(now, x).value, []) == visit(now, x);
    } else {
      assert (visits + [x])[1..] == visits[1..] + [x];
      IterateSnoc(visit, visit(now, visits[0]).value, visits[1..], x);
    }
  }

  lemma FollowsHas(now: Entries, e: Entries, key: string, target: string, name: string, k: string)
    requires Follows(now, e, key, target, name) && k in e
    ensures Place(k, key, target) in now && now[Place(k, key, target)] == Relabel(e[k], k, key, target, name)
  {
  }

  lemma VisitUnsettled(now: Entries, k: string, key: string, target: string)
    requires Place(k, key, target) in now && !StaysPut(k, key, target)
    ensures var x := Place(k, key, target);
            var next := Visit(now, x, key, target);
            next.None? || x !in next.value
  {
  }

  /** An entry that does not stay put is taken away from its place by one more visit. */
  lemma UnsettledFails(e: Entries, key: string, target: string, name: string, visits: seq<string>, a: string, x: string)
    requires key in e && a in e && !StaysPut(a, key, target) && x == Place(a, key, target)
    ensures !Lossless(e, key, target, name, visits) || !Lossless(e, key, target, name, visits + [x])
  {
    if Lossless(e, key, target, name, visits) && Lossless(e, key, target, name, visits + [x]) {
      FollowsHas(Moving(e, key, target, name, visits).value, e, key, target, name, a);
      FollowsHas(Moving(e, key, target, name, visits + [x]).value, e, key, target, name, a);
      VisitUnsettled(Moving(e, key, target, name, visits).value, a, key, target);
      IterateSnoc(Visiting(key, target), Retarget(e, key, target, name), visits, x);
      assert false;
    }
  }

  lemma {:induction false} Listed(s: set<string>) returns (list: seq<string>)
    ensures forall k :: k in s ==> k in list
    decreases |s|
  {
    if s == {} {
      list := [];
    } else {
      var k :| k in s;
      var rest := Listed(s - {k});
      list := [k] + rest;
    }
  }

  /** The order that loses something when two entries collide and everything else is as it should be. */
  lemma CollisionLoses(e: Entries, key: string, target: string, name: string, a: string, b: string, visits: seq<string>)
    returns (first: seq<string>)
    requires key in e && a in e && b in e && Collide(a, b, key, target)
    requires (target in e ==> target == key) && (forall k :: k in e && IsUnder(k, key) ==> Moves(k, key) && StaysPut(k, key, target))
    ensures !Lossless(e, key, target, name, first + visits)
  {
    KeyMoves(key, target);
    RetargetFacts(e, key, target, name);
    if Place(a, key, target) == b {
      TakesPlace(e, key, target, name, a, b, visits);
      first := [a];
    } else if Place(b, key, target) == a {
      TakesPlace(e, key, target, name, b, a, visits);
      first := [b];
    } else if a == key {
      TakesPlace(e, key, target, name, b, target, visits);
      first := [b];
    } else if b == key {
      TakesPlace(e, key, target, name, a, target, visits);
      first := [a];
    } else {
      TakeOnePlace(e, key, target, name, a, b, visits);
      first := [a] + [b];
    }
  }

  lemma SomeOrderLoses(e: Entries, key: string, target: string, name: string) returns (visits: seq<string>)
    requires key in e && !Relocatable(e, key, target)
    ensures Covering(visits, e) && !Lossless(e, key, target, name, visits)
  {
    visits := Listed(e.Keys);
    if target in e && target != key {
      TargetTaken(e, key, target, name, visits);
    } else if k :| k in e && IsUnder(k, key) && !Moves(k, key) {
      TooShort(e, key, target, name, k, visits);
      visits := [k] + visits;
    } else if k :| k in e && IsUnder(k, key) && !StaysPut(k, key, target) {
      var x := Place(k, key, target);
      UnsettledFails(e, key, target, name, visits, k, x);
      if Lossless(e, key, target, name, visits) {
        visits := visits + [x];
      }
    } else {
      var a, b :| a in e && b in e && Collide(a, b, key, target);
      var first := CollisionLoses(e, key, target, name, a, b, visits);
      visits := first + visits;
    }
  }

  /** The move loses nothing, in whatever order it comes to the entries, exactly when every descendant's name can be cut
      and stays put and no two entries collide; whatever names the directory holds. */
  lemma MovesExactly(e: Entries, key: string, target: string, name: string)
    requires key in e
    ensures (forall visits: seq<string> :: Covering(visits, e) ==> Lossless(e, key, target, name, visits))
            <==> Relocatable(e, key, target)
  {
    if Relocatable(e, key, target) {
      forall visits: seq<string> | Covering(visits, e) ensures Lossless(e, key, target, name, visits) {
        SubtreeMoves(e, key, target, name, visits);
      }
    } else {
      var visits := SomeOrderLoses(e, key, target, name);
    }
  }

  lemma RelabelKeeps(a: Attrs, k: string, key: string, target: string, name: string, attr: string)
    requires attr in a && attr != DN && (attr != NAME || k != key)
    ensures attr in Relabel(a, k, key, target, name) && Relabel(a, k, key, target, name)[attr] == a[attr]
  {
  }

  /** After any move that loses nothing everything but the name of the moved entry and the DNs is what it was, the
      objectGUID included. */
  lemma AttributesGoAlong(e: Entries, key: string, target: string, name: string, visits: seq<string>, k: string, attr: string)
    requires Relocatable(e, key, target) && key in e && Covering(visits, e)
    requires k in e && attr in e[k] && attr != DN && (attr != NAME || k != key)
    ensures var now := Moving(e, key, target, name, visits);
            && now.Some? && Place(k, key, target) in now.value && attr in now.value[Place(k, key, target)]
            && now.value[Place(k, key, target)][attr] == e[k][attr]
  {
    SubtreeMoves(e, key, target, name, visits);
    FollowsHas(Moving(e, key, target, name, visits).value, e, key, target, name, k);
    RelabelKeeps(e[k], k, key, target, name, attr);
  }

  // ---- whether the new name is the one meant ----

  function Parts(dn: string): (r: seq<string>)
    ensures |r| >= 1
  {
    Map(Split(dn, ','), TRIMMED)
  }

  /** The entry's new name is the target's below what the entry's own had below the moved one's. */
  predicate LandsAsMeant(k: string, key: string, target: string) {
    var n := |Parts(k)| - |Parts(key)|;
    n >= 0 && Parts(Place(k, key, target)) == Parts(k)[..n] + Parts(target)
  }

  predicate Blank(s: string) {
    forall i :: 0 <= i < |s| ==> IsSpace(s[i])
  }

  lemma {:induction false} TrimLeftParts(p: string, u: string)
    ensures if Blank(p) then TrimLeft(p + u) == TrimLeft(u)
            else var q := TrimLeft(p); q != "" && !IsSpace(q[0]) && TrimLeft(p + u) == q + u
  {
    if p == "" {
      assert p + u == u;
    } else if IsSpace(p[0]) {
      assert (p + u)[1..] == p[1..] + u;
      TrimLeftParts(p[1..], u);
      assert Blank(p) <==> Blank(p[1..]) by {
        assert p == [p[0]] + p[1..];
      }
    }
  }

  lemma {:induction false} TrimRightParts(q: string, u: string)
    ensures TrimRight(q + u) == if Blank(u) then TrimRight(q) else q + TrimRight(u)
    decreases |u|
  {
    if u == "" {
      assert q + u == q;
    } else {
      var init := u[..|u| - 1];
      assert (q + u)[..|q + u| - 1] == q + init;
      if IsSpace(u[|u| - 1]) {
        TrimRightParts(q, init);
        assert Blank(u) <==> Blank(init) by {
          assert u == init + [u[|u| - 1]];
        }
      }
    }
  }

  lemma {:induction false} TrimRightKeeps(q: string)
    requires q != "" && !IsSpace(q[0])
    ensures TrimRight(q) != ""
  {
    if |q| > 1 && IsSpace(q[|q| - 1]) {
      TrimRightKeeps(q[..|q| - 1]);
    }
  }

  lemma TrimIsShorter(u: string)
    ensures |Trim(u)| <= |TrimRight(u)|
    ensures Blank(u) ==> Trim(u) == ""
  {
    TrimLeftIsTail(u);
    TailIsShorter(u, |u| - |TrimLeft(u)|);
  }

  lemma TailIsShorter(u: string, n: nat)
    requires n <= |u|
    ensures |TrimRight(u[n..])| <= |TrimRight(u)|
  {
    assert u == u[..n] + u[n..];
    TrimRightParts(u[..n], u[n..]);
    TrimRightParts("", u[n..]);
    assert "" + u[n..] == u[n..];
  }

  lemma {:induction false} TrimLeftIsTail(u: string)
    ensures TrimLeft(u) == u[|u| - |TrimLeft(u)|..] && (Blank(u) ==> TrimLeft(u) == "")
    ensures TrimLeft(u) != "" ==> !Blank(TrimLeft(u))
  {
    if u != "" && IsSpace(u[0]) {
      TrimLeftIsTail(u[1..]);
    }
  }

  /** Trimming drops what stands in front exactly when that is blank. */
  lemma TrimmedAway(p: string, u: string)
    ensures Trim(p + u) == Trim(u) <==> Blank(p)
  {
    TrimLeftParts(p, u);
    if !Blank(p) {
      var q := TrimLeft(p);
      TrimRightParts(q, u);
      TrimRightKeeps(q);
      TrimIsShorter(u);
    }
  }

  /** Two lists of parts, the last of the one and the first of the other made one. */
  function Welded(s: seq<string>, t: seq<string>): seq<string>
    requires |s| >= 1 && |t| >= 1
  {
    s[..|s| - 1] + [s[|s| - 1] + t[0]] + t[1..]
  }

  lemma WeldedAfterPart(s: seq<string>, t: seq<string>)
    requires |s| >= 1 && |t| >= 1
    ensures Welded([""] + s, t) == [""] + Welded(s, t)
  {
    assert ([""] + s)[..|s|] == [""] + s[..|s| - 1];
  }

  lemma WeldedAfterChar(c: char, s: seq<string>, t: seq<string>)
    requires |s| >= 1 && |t| >= 1
    ensures Welded([[c] + s[0]] + s[1..], t) == [[c] + Welded(s, t)[0]] + Welded(s, t)[1..]
  {
    if |s| == 1 {
      assert [c] + (s[0] + t[0]) == [c] + s[0] + t[0];
    } else {
      assert ([[c] + s[0]] + s[1..])[..|s| - 1] == [[c] + s[0]] + s[1..|s| - 1];
      assert Welded(s, t) == [s[0]] + (s[1..|s| - 1] + [s[|s| - 1] + t[0]] + t[1..]);
    }
  }

  /** Splitting two texts put together. */
  lemma {:induction false} SplitTogether(f: string, g: string)
    ensures Split(f + g, ',') == Welded(Split(f, ','), Split(g, ','))
  {
    var t := Split(g, ',');
    if f == "" {
      assert f + g == g && Split(f, ',') == [""] && "" + t[0] == t[0];
      assert t == [t[0]] + t[1..];
    } else {
      assert (f + g)[1..] == f[1..] + g;
      SplitTogether(f[1..], g);
      WeldedAfterPart(Split(f[1..], ','), t);
      WeldedAfterChar(f[0], Split(f[1..], ','), t);
    }
  }

  lemma PartsTogether(s: seq<string>, t: seq<string>)
    requires |s| >= 1 && |t| >= 1
    ensures Map(Welded(s, t), TRIMMED)
            == Map(s[..|s| - 1], TRIMMED) + [Trim(s[|s| - 1] + t[0])] + Map(t[1..], TRIMMED)
  {
    var one := [s[|s| - 1] + t[0]];
    MapAppend(s[..|s| - 1] + one, t[1..], TRIMMED);
    MapAppend(s[..|s| - 1], one, TRIMMED);
    assert Map(one, TRIMMED) == [Trim(one[0])];
  }

  lemma PartsOf(f: string, g: string)
    ensures var s, t := Split(f, ','), Split(g, ',');
            Parts(f + g) == Map(s[..|s| - 1], TRIMMED) + [Trim(s[|s| - 1] + t[0])] + Map(t[1..], TRIMMED)
  {
    SplitTogether(f, g);
    PartsTogether(Split(f, ','), Split(g, ','));
  }

  /** Lists that end alike are the same exactly when they are cut at the same place. */
  lemma SameCut<T>(front: seq<T>, x: T, after: seq<T>, w: T, rest: seq<T>, y: T, n: int)
    requires n <= |front| + |rest|
    ensures n >= 0 && front + [x] + after == (front + [w] + rest)[..n] + ([y] + after) <==> n == |front| && x == y
  {
    if n == |front| {
      assert (front + [w] + rest)[..n] == front;
      assert (front + [x] + after)[n] == x && (front + ([y] + after))[n] == y;
      assert x == y ==> front + [x] + after == front + ([y] + after);
    } else if n >= 0 {
      assert |front + [x] + after| == |front| + 1 + |after|;
      assert |(front + [w] + rest)[..n] + ([y] + after)| == n + 1 + |after|;
    }
  }

  /** A descendant's new name is the one meant exactly when its name was cut behind a comma, up to spaces, with as many
      RDNs in front as it has below the moved entry. */
  lemma LandsAsMeantExactly(k: string, key: string, target: string)
    requires Moves(k, key)
    ensures var s := Split(k[..|k| - |key|], ',');
            LandsAsMeant(k, key, target) <==> |s| - 1 == |Parts(k)| - |Parts(key)| && Blank(s[|s| - 1])
  {
    var f, tail := k[..|k| - |key|], k[|k| - |key|..];
    assert k == f + tail;
    LandsCut(k, key, target, f, tail, Parts(k), Parts(key));
  }

  lemma LandsCut(k: string, key: string, target: string, f: string, tail: string, ks: seq<string>, keys: seq<string>)
    requires k == f + tail && Place(k, key, target) == f + target && ks == Parts(k) && keys == Parts(key)
    ensures var s := Split(f, ',');
            LandsAsMeant(k, key, target) <==> |s| - 1 == |ks| - |keys| && Blank(s[|s| - 1])
  {
    CutExactly(f, tail, target, |ks| - |keys|);
  }

  /** Whatever replaces the tail of a name, all but n of its RDNs are replaced exactly if it was cut behind the n-th. */
  lemma CutExactly(f: string, tail: string, target: string, n: int)
    requires n < |Parts(f + tail)|
    ensures var s := Split(f, ',');
            n >= 0 && Parts(f + target) == Parts(f + tail)[..n] + Parts(target) <==> |s| - 1 == n && Blank(s[|s| - 1])
  {
    var s, t, u := Split(f, ','), Split(target, ','), Split(tail, ',');
    PartsOf(f, target);
    PartsOf(f, tail);
    TrimmedAway(s[|s| - 1], t[0]);
    assert Parts(target) == [Trim(t[0])] + Map(t[1..], TRIMMED);
    SameCut(Map(s[..|s| - 1], TRIMMED), Trim(s[|s| - 1] + t[0]), Map(t[1..], TRIMMED), Trim(s[|s| - 1] + u[0]),
            Map(u[1..], TRIMMED), Trim(t[0]), n);
  }

  lemma TrimTrailing(s: string, blank: string)
    requires Blank(blank)
    ensures Trim(s + blank) == Trim(s)
  {
    TrimLeftParts(s, blank);
    TrimLeftIsTail(s);
    TrimLeftIsTail(blank);
    TrimRightParts(TrimLeft(s), blank);
  }

  lemma MapLast(s: seq<string>)
    requires |s| >= 1
    ensures Map(s, TRIMMED) == Map(s[..|s| - 1], TRIMMED) + [Trim(s[|s| - 1])]
  {
    MapStep(s, |s| - 1, TRIMMED);
    assert s[..|s|] == s;
  }

  lemma WeldedBlank(s: seq<string>, blank: string)
    requires |s| >= 1 && Blank(blank)
    ensures Map(Welded(s, [blank]), TRIMMED) == Map(s, TRIMMED)
  {
    PartsTogether(s, [blank]);
    TrimTrailing(s[|s| - 1], blank);
    MapLast(s);
    assert [blank][1..] == [] && Map<string, string>([], TRIMMED) == [];
  }

  /** Spaces after a name are no part of it. */
  lemma SpacedIsNormalized(dn: string, blank: string)
    requires Blank(blank)
    ensures NormalizeDN(dn + blank) == NormalizeDN(dn)
  {
    SplitTogether(dn, blank);
    SplitClean(blank, "", ',');
    WeldedBlank(Split(dn, ','), blank);
  }

  lemma BelowIsUnder(a: string, base: string, dn: string)
    requires dn == a + ([','] + base)
    ensures Under(dn, base)
  {
    LowerAppend(a, [','] + base);
    assert Lower([','] + base) == "," + Lower(base);
  }

  lemma SpacedChildNormalized(a: string, key: string, blank: string, k: string)
    requires Blank(blank) && k == a + [','] + (key + blank)
    ensures NormalizeDN(k) == NormalizeDN(a) + ([','] + NormalizeDN(key))
  {
    NormalizeAppend(a, key + blank);
    SpacedIsNormalized(key, blank);
    assert NormalizeDN(a) + [','] + NormalizeDN(key) == NormalizeDN(a) + ([','] + NormalizeDN(key));
  }

  lemma SpacedIsUnder(a: string, key: string, blank: string, k: string)
    requires Blank(blank) && k == a + [','] + (key + blank)
    ensures Moves(k, key)
  {
    SpacedChildNormalized(a, key, blank, k);
    BelowIsUnder(NormalizeDN(a), NormalizeDN(key), NormalizeDN(k));
  }

  /** A child stored with a space after its name is a descendant whose new name is cut in the wrong place, wherever the
      entry is moved. */
  lemma SpacedChildIsGarbled(a: string, key: string, target: string, child: string)
    requires key != "" && !IsSpace(key[0]) && key[0] != ',' && child == a + [','] + (key + [' '])
    ensures Moves(child, key) && !LandsAsMeant(child, key, target)
  {
    var c := [key[0]];
    SpacedIsUnder(a, key, [' '], child);
    assert child[..|child| - |key|] == a + [','] + c;
    SplitAppend(a, c);
    SplitClean(c, "", ',');
    LandsAsMeantExactly(child, key, target);
  }

  // ---- names, RDN by RDN ----

  const LOWERED := (part: string) => Lower(part)

  lemma {:induction false} LowerJoin(parts: seq<string>)
    requires |parts| >= 1
    ensures Lower(Join(parts, ',')) == Join(Map(parts, LOWERED), ',')
    decreases |parts|
  {
    if |parts| > 1 {
      LowerJoin(parts[1..]);
      LowerAppend(parts[0] + [','], Join(parts[1..], ','));
      LowerAppend(parts[0], [',']);
      assert Lower([',']) == [','];
    }
  }

  lemma {:induction false} TrimLeftClean(s: string, sep: char)
    requires Clean(s, sep)
    ensures Clean(TrimLeft(s), sep)
  {
    if s != "" && IsSpace(s[0]) {
      TrimLeftClean(s[1..], sep);
    }
  }

  lemma {:induction false} TrimRightClean(s: string, sep: char)
    requires Clean(s, sep)
    ensures Clean(TrimRight(s), sep)
  {
    if s != "" && IsSpace(s[|s| - 1]) {
      TrimRightClean(s[..|s| - 1], sep);
    }
  }

  function LowerParts(dn: string): (r: seq<string>)
    ensures |r| == |Parts(dn)|
  {
    Map(Parts(dn), LOWERED)
  }

  lemma LowerPartsClean(dn: string)
    ensures AllClean(LowerParts(dn), ',') && Lower(NormalizeDN(dn)) == Join(LowerParts(dn), ',')
  {
    JoinInvertsSplit(dn, ',');
    LowerJoin(Parts(dn));
    var s := Split(dn, ',');
    forall i | 0 <= i < |s| ensures Clean(LowerParts(dn)[i], ',') {
      TrimLeftClean(s[i], ',');
      TrimRightClean(TrimLeft(s[i]), ',');
      assert LowerParts(dn)[i] == Lower(Trim(s[i]));
    }
  }

  /** Two names are one exactly when they are so RDN by RDN, in any case and up to the spaces around their commas. */
  lemma EqualFoldExactly(a: string, b: string)
    ensures EqualFoldDN(a, b) <==> LowerParts(a) == LowerParts(b)
  {
    LowerPartsClean(a);
    LowerPartsClean(b);
    SplitInvertsJoin(LowerParts(a), ',');
    SplitInvertsJoin(LowerParts(b), ',');
  }

  lemma SuffixParts(long: seq<string>, short: seq<string>, l: string, s: string)
    requires |long| >= 1 && |short| >= 1 && AllClean(long, ',') && AllClean(short, ',')
    requires l == Join(long, ',') && s == Join(short, ',') && HasSuffix(l, "," + s)
    ensures |short| < |long| && long[|long| - |short|..] == short
  {
    SplitInvertsJoin(long, ',');
    SplitInvertsJoin(short, ',');
    var x := l[..|l| - |s| - 1];
    assert l[|x|..] == "," + s;
    assert l == x + [','] + s;
    SplitAppend(x, s);
  }

  lemma PartsSuffix(long: seq<string>, short: seq<string>, l: string, s: string)
    requires |short| >= 1 && |short| < |long| && long[|long| - |short|..] == short
    requires l == Join(long, ',') && s == Join(short, ',')
    ensures HasSuffix(l, "," + s)
  {
    var front := long[..|long| - |short|];
    assert long == front + short;
    JoinAppend(front, short);
    EndsWith(Join(front, ','), s);
  }

  lemma EndsWith(a: string, s: string)
    ensures HasSuffix(a + [','] + s, "," + s)
  {
    assert (a + [','] + s)[|a|..] == [','] + s;
  }

  lemma JoinedSuffix(long: seq<string>, short: seq<string>)
    requires |long| >= 1 && |short| >= 1 && AllClean(long, ',') && AllClean(short, ',')
    ensures HasSuffix(Join(long, ','), "," + Join(short, ','))
            <==> |short| < |long| && long[|long| - |short|..] == short
  {
    var l, s := Join(long, ','), Join(short, ',');
    if HasSuffix(l, "," + s) {
      SuffixParts(long, short, l, s);
    }
    if |short| < |long| && long[|long| - |short|..] == short {
      PartsSuffix(long, short, l, s);
    }
  }

  /** An entry counts as a descendant, or as the entry itself, exactly when its last RDNs are those of the name. */
  lemma IsUnderExactly(dn: string, base: string)
    ensures IsUnder(dn, base)
            <==> var d, b := LowerParts(dn), LowerParts(base);
                 |b| <= |d| && d[|d| - |b|..] == b
  {
    EqualFoldExactly(dn, base);
    LowerPartsClean(dn);
    LowerPartsClean(base);
    JoinedSuffix(LowerParts(dn), LowerParts(base));
    var d, b := LowerParts(dn), LowerParts(base);
    if |d| == |b| {
      assert d[0..] == d;
    }
    assert d == b ==> |d| == |b|;
  }

  lemma RelabelRecords(a: Attrs, k: string, key: string, target: string, name: string)
    requires Moves(k, key)
    ensures var now, x := Relabel(a, k, key, target, name), Place(k, key, target);
            && "distinguishedName" in now && now["distinguishedName"] == [x]
            && (k == key ==> "name" in now && now["name"] == [name])
  {
    KeyMoves(key, target);
    assert "distinguishedName" != "name";
  }

  /** After the whole move every descendant's own record of its name is its new name, and the moved entry's "name" the new
      RDN's value. */
  lemma NamesRecorded(e: Entries, key: string, target: string, name: string, visits: seq<string>, k: string, x: string)
    requires Relocatable(e, key, target) && key in e && Covering(visits, e) && k in e && Moves(k, key) && x == Place(k, key, target)
    ensures var now := Moving(e, key, target, name, visits);
            && now.Some? && x in now.value
            && "distinguishedName" in now.value[x] && now.value[x]["distinguishedName"] == [x]
            && (k == key ==> "name" in now.value[x] && now.value[x]["name"] == [name])
  {
    SubtreeMoves(e, key, target, name, visits);
    FollowsHas(Moving(e, key, target, name, visits).value, e, key, target, name, k);
    RelabelRecords(e[k], k, key, target, name);
  }
}
