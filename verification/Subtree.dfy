// The subtree move on directories whose names are written without spaces around their commas and in one
// spelling each: when it loses nothing, in terms of the names.
module Subtree {
  import opened Wrappers
  import opened Text
  import opened Relocation
  import opened MoveDN

  predicate AllNormal(e: Entries) {
    forall k :: k in e ==> Normal(k)
  }

  /** No two entries have the same name in two spellings. */
  predicate Unique(e: Entries) {
    forall a, b :: a in e && b in e && EqualFold(a, b) ==> a == b
  }

  /** What ModifyDN has checked by the time it moves anything: the entry is there and the target's own name
      is not taken, unless the target is that name in another spelling. */
  predicate Directory(e: Entries, key: string, target: string) {
    && AllNormal(e) && Unique(e) && key in e && Normal(target)
    && (EqualFold(target, key) || forall k :: k in e ==> !EqualFold(k, target))
  }

  lemma UnderParts(dn: string, base: string)
    requires Under(dn, base)
    ensures |base| <= |dn| && Lower(dn[|dn| - |base|..]) == Lower(base)
    ensures |dn| == |base| || (|dn| > |base| && dn[|dn| - |base| - 1] == ',')
  {
    if !EqualFold(dn, base) {
      var tail := "," + Lower(base);
      var n := |dn| - |tail|;
      assert Lower(dn)[n..] == tail;
      assert LowerChar(dn[n]) == Lower(dn)[n] == tail[0] == ',';
      forall i | 0 <= i < |base| ensures LowerChar(dn[n + 1 + i]) == Lower(base)[i] {
        assert Lower(dn)[n + 1 + i] == tail[i + 1];
      }
    } else {
      assert |Lower(dn)| == |Lower(base)|;
      assert dn[0..] == dn;
    }
  }

  /** The entry's name with the end that names the moved one replaced. */
  function Image(k: string, key: string, target: string): string {
    if Under(k, key) then
      UnderParts(k, key);
      k[..|k| - |key|] + target
    else k
  }

  // ---- names under the key and under the target ----

  lemma UnderFolds(a: string, b: string, base: string, other: string)
    requires EqualFold(a, b) && EqualFold(base, other)
    ensures Under(a, base) <==> Under(b, other)
  {
  }

  lemma ImageParts(k: string, key: string, target: string)
    requires Under(k, key)
    ensures var front := k[..|k| - |key|];
            && |key| <= |k| && Image(k, key, target) == front + target
            && Lower(Image(k, key, target)) == Lower(front) + Lower(target)
            && Lower(k) == Lower(front) + Lower(key)
            && (front == "" || front[|front| - 1] == ',')
    ensures Under(Image(k, key, target), target)
  {
    UnderParts(k, key);
    var front := k[..|k| - |key|];
    assert k == front + k[|k| - |key|..];
    LowerAppend(front, k[|k| - |key|..]);
    LowerAppend(front, target);
    if front == "" {
      assert front + target == target;
    } else {
      var init := front[..|front| - 1];
      assert front == init + ",";
      LowerAppend(init, ",");
      assert Lower(",") == ",";
      assert Lower(front + target) == Lower(init) + ("," + Lower(target));
    }
  }

  lemma FrontNormal(front: string, tail: string, target: string)
    requires front != "" && front[|front| - 1] == ',' && Normal(front + tail) && Normal(target)
    ensures Normal(front + target)
  {
    var init := front[..|front| - 1];
    assert front + tail == init + [','] + tail;
    assert front + target == init + [','] + target;
    NormalParts(init, tail);
    NormalParts(init, target);
  }

  lemma ImageIsNormal(k: string, key: string, target: string)
    requires Normal(k) && Normal(target)
    ensures Normal(Image(k, key, target))
  {
    if Under(k, key) {
      ImageParts(k, key, target);
      var front, tail := k[..|k| - |key|], k[|k| - |key|..];
      if front == "" {
        assert front + target == target;
      } else {
        assert k == front + tail;
        FrontNormal(front, tail, target);
      }
    }
  }

  lemma SuffixNested(l: string, a: string, b: string)
    requires |b| < |a| <= |l| && a == l[|l| - |a|..] && b == l[|l| - |b|..] && l[|l| - |b| - 1] == ','
    ensures HasSuffix(a, "," + b)
  {
    var n := |a| - |b| - 1;
    assert a[n] == ',' && a[n + 1..] == b;
    assert a[n..] == [a[n]] + a[n + 1..];
  }

  /** Under on names already in lower case. */
  predicate LowerUnder(l: string, b: string) {
    l == b || HasSuffix(l, "," + b)
  }

  lemma LowerTail(l: string, b: string)
    requires LowerUnder(l, b)
    ensures |b| <= |l| && b == l[|l| - |b|..] && (|b| < |l| ==> l[|l| - |b| - 1] == ',')
  {
    if l == b {
      assert l[0..] == l;
    } else {
      var tail := "," + b;
      assert l[|l| - |tail|..] == tail && tail[0] == ',' && tail[1..] == b;
      assert l[|l| - |tail|..][1..] == l[|l| - |b|..];
    }
  }

  lemma LowerNested(l: string, a: string, b: string)
    requires LowerUnder(l, a) && LowerUnder(l, b) && |b| <= |a|
    ensures LowerUnder(a, b)
  {
    LowerTail(l, a);
    LowerTail(l, b);
    if |b| < |a| {
      SuffixNested(l, a, b);
    }
  }

  /** Of two names that one name is under, the shorter is above the longer. */
  lemma Nested(x: string, a: string, b: string)
    requires Under(x, a) && Under(x, b) && |b| <= |a|
    ensures Under(a, b)
  {
    LowerNested(Lower(x), Lower(a), Lower(b));
  }

  lemma SameFront(a: string, b: string, c: string)
    requires a + c == b + c
    ensures a == b
  {
    assert |a| == |b|;
    assert a == (a + c)[..|a|] && b == (b + c)[..|b|];
  }

  /** No two descendants are sent to one name, in any spelling. */
  lemma ImagesApart(key: string, target: string, a: string, b: string)
    requires Under(a, key) && Under(b, key) && EqualFold(Image(a, key, target), Image(b, key, target))
    ensures EqualFold(a, b)
  {
    ImageParts(a, key, target);
    ImageParts(b, key, target);
    SameFront(Lower(a[..|a| - |key|]), Lower(b[..|b| - |key|]), Lower(target));
  }

  // ---- when a move loses nothing ----

  /** Moving a takes the name of b, which does not move. */
  predicate Clash(a: string, b: string, key: string, target: string) {
    Under(a, key) && !Under(b, key) && Image(a, key, target) == b
  }

  predicate Free(e: Entries, key: string, target: string) {
    forall a, b :: a in e && b in e ==> !Clash(a, b, key, target)
  }

  /** Coming to the entry again under its new name leaves it there. */
  predicate Settled(k: string, key: string, target: string) {
    var x := Image(k, key, target);
    x == target || !Under(x, key) || Image(x, key, target) == x
  }

  predicate AllSettled(e: Entries, key: string, target: string) {
    forall k :: k in e && Under(k, key) ==> Settled(k, key, target)
  }

  /** Neither name lies beneath the other, or they are one name in two spellings. */
  predicate NamesApart(key: string, target: string) {
    EqualFold(target, key) || (!Under(target, key) && !Under(key, target))
  }

  lemma SettledWhenApart(k: string, key: string, target: string)
    requires Under(k, key) && NamesApart(key, target)
    ensures Settled(k, key, target)
  {
    var x := Image(k, key, target);
    ImageParts(k, key, target);
    if Under(x, key) {
      UnderParts(x, key);
      if EqualFold(target, key) {
        assert |Lower(target)| == |Lower(key)|;
      } else if |key| <= |target| {
        Nested(x, target, key);
      } else {
        Nested(x, key, target);
      }
    }
  }

  lemma SuffixOfSuffix(l: string, m: string, t: string)
    requires HasSuffix(l, "," + m) && HasSuffix(m, t)
    ensures HasSuffix(l, t)
  {
    var c := "," + m;
    assert l[|l| - |c|..] == c && c[1..] == m;
    assert l[|l| - |m|..] == l[|l| - |c|..][1..];
    assert l[|l| - |t|..] == l[|l| - |m|..][|m| - |t|..];
  }

  lemma UnderTransitive(x: string, mid: string, base: string)
    requires Under(x, mid) && Under(mid, base)
    ensures Under(x, base)
  {
    if !EqualFold(x, mid) && !EqualFold(mid, base) {
      SuffixOfSuffix(Lower(x), Lower(mid), "," + Lower(base));
    }
  }

  /** A target beneath the entry itself settles no descendant: each visit takes it one level further down. */
  lemma BeneathItselfNeverSettles(k: string, key: string, target: string)
    requires Under(k, key) && !EqualFold(k, key) && Under(target, key) && !EqualFold(target, key)
    ensures !Settled(k, key, target)
  {
    var x := Image(k, key, target);
    ImageParts(k, key, target);
    UnderTransitive(x, target, key);
    UnderParts(target, key);
    UnderParts(x, key);
    assert |k| > |key| by {
      UnderParts(k, key);
      assert k[0..] == k;
    }
    assert |target| > |key| by {
      assert target[0..] == target;
    }
  }

  predicate Movable(e: Entries, key: string, target: string) {
    Directory(e, key, target) && Free(e, key, target) && AllSettled(e, key, target)
  }

  lemma SameEntry(e: Entries, a: string, b: string)
    requires Unique(e) && a in e && b in e && EqualFold(a, b)
    ensures a == b
  {
  }

  /** An image is never the name of another entry. */
  lemma ImageIsFree(e: Entries, key: string, target: string, a: string, b: string)
    requires Movable(e, key, target) && a in e && b in e && Under(a, key) && Image(a, key, target) == b
    ensures a == b
  {
    assert !Clash(a, b, key, target);
    assert Settled(a, key, target) && Normal(a) && Normal(b);
    ImageParts(a, key, target);
    if b == target {
      assert b == key && a[..|a| - |key|] == "";
      SameEntry(e, a, key);
    } else {
      ImagesApart(key, target, a, b);
      SameEntry(e, a, b);
    }
  }

  // ---- the exact condition, in terms of the names ----

  /** In normal names the iteration finds the entries under the moved one, and gives them their images. */
  lemma PlaceIsImage(k: string, key: string, target: string)
    requires Normal(k) && Normal(key)
    ensures (IsUnder(k, key) <==> Under(k, key)) && (Moves(k, key) <==> Under(k, key))
    ensures Place(k, key, target) == Image(k, key, target)
  {
    if Under(k, key) {
      UnderParts(k, key);
    }
  }

  lemma SettledIsPut(k: string, key: string, target: string)
    requires Normal(k) && Normal(key) && Normal(target)
    ensures StaysPut(k, key, target) <==> Settled(k, key, target)
  {
    var x := Image(k, key, target);
    PlaceIsImage(k, key, target);
    ImageIsNormal(k, key, target);
    PlaceIsImage(x, key, target);
  }

  lemma CollideIsClash(e: Entries, key: string, target: string, a: string, b: string)
    requires Movable(e, key, target) && a in e && b in e
    ensures !Collide(a, b, key, target)
  {
    PlaceIsImage(a, key, target);
    PlaceIsImage(b, key, target);
    if Under(a, key) && Image(a, key, target) == b {
      ImageIsFree(e, key, target, a, b);
    } else if Under(a, key) && Under(b, key) && Image(a, key, target) == Image(b, key, target) {
      ImagesApart(key, target, a, b);
      SameEntry(e, a, b);
    }
  }

  lemma ClashCollides(key: string, target: string, a: string, b: string)
    requires Normal(a) && Normal(b) && Normal(key) && Clash(a, b, key, target)
    ensures Collide(a, b, key, target)
  {
    PlaceIsImage(a, key, target);
  }

  lemma MovableRelocates(e: Entries, key: string, target: string)
    requires Movable(e, key, target)
    ensures Relocatable(e, key, target)
  {
    forall k | k in e && IsUnder(k, key) ensures Moves(k, key) && StaysPut(k, key, target) {
      PlaceIsImage(k, key, target);
      SettledIsPut(k, key, target);
    }
    forall a, b | a in e && b in e ensures !Collide(a, b, key, target) {
      CollideIsClash(e, key, target, a, b);
    }
  }

  lemma RelocatableIsMovable(e: Entries, key: string, target: string)
    requires Directory(e, key, target)
    ensures Relocatable(e, key, target) <==> Movable(e, key, target)
  {
    if Movable(e, key, target) {
      MovableRelocates(e, key, target);
    } else if a, b :| a in e && b in e && Clash(a, b, key, target) {
      ClashCollides(key, target, a, b);
    } else {
      var k :| k in e && Under(k, key) && !Settled(k, key, target);
      PlaceIsImage(k, key, target);
      SettledIsPut(k, key, target);
    }
  }

  /** In such a directory the move loses nothing, in whatever order it comes to the entries, exactly when no entry's new
      name is taken by one that stays and every new name settles. */
  lemma LosslessExactly(e: Entries, key: string, target: string, name: string)
    requires Directory(e, key, target)
    ensures (forall visits: seq<string> :: Covering(visits, e) ==> Lossless(e, key, target, name, visits))
            <==> Free(e, key, target) && AllSettled(e, key, target)
  {
    MovesExactly(e, key, target, name);
    RelocatableIsMovable(e, key, target);
  }

  /** The check ModifyDN makes is the one Directory speaks of, when names are normal. */
  lemma VerdictIsDirectory(e: Entries, key: string, target: string, visits: seq<string>, rdnValue: string -> string)
    requires AllNormal(e) && Unique(e) && key in e && Normal(target)
    ensures Verdict(e, key, Some(target), visits, rdnValue) == Moved(key, target) <==> Directory(e, key, target)
  {
    NormalNeverPanics(e, key, target, rdnValue(target), visits);
    assert NormalizeDN(key) == key && NormalizeDN(target) == target;
    forall k | k in e ensures EqualFoldDN(k, target) <==> EqualFold(k, target) {
      assert Normal(k);
    }
  }

  /** Normal names never make the slice panic, and stay normal. */
  lemma NormalNeverPanics(e: Entries, key: string, target: string, name: string, visits: seq<string>)
    requires AllNormal(e) && key in e && Normal(target)
    ensures Moving(e, key, target, name, visits).Some?
  {
    assert AllNormal(Retarget(e, key, target, name));
    IterationStaysNormal(Retarget(e, key, target, name), key, target, visits);
  }

  lemma VisitStaysNormal(now: Entries, key: string, target: string, x: string)
    requires AllNormal(now) && Normal(key) && Normal(target)
    ensures Visit(now, x, key, target).Some? && AllNormal(Visit(now, x, key, target).value)
  {
    if x in now && Under(x, key) {
      UnderParts(x, key);
      ImageIsNormal(x, key, target);
    }
  }

  lemma {:induction false} IterationStaysNormal(now: Entries, key: string, target: string, visits: seq<string>)
    requires AllNormal(now) && Normal(key) && Normal(target)
    ensures Iterate(Visiting(key, target), now, visits).Some?
    decreases |visits|
  {
    if visits != [] {
      VisitStaysNormal(now, key, target, visits[0]);
      IterationStaysNormal(Visit(now, visits[0], key, target).value, key, target, visits[1..]);
    }
  }

  // ---- when it does lose something ----

  /** No visit makes the directory larger, and an entry that is not a descendant stays. */
  lemma VisitKeeps(now: Entries, x: string, key: string, target: string, b: string)
    requires Visit(now, x, key, target).Some? && b in now && (b != x || !IsUnder(b, key))
    ensures |Visit(now, x, key, target).value| <= |now| && b in Visit(now, x, key, target).value
  {
    if x in now && x != target && IsUnder(x, key) {
      KeysAfter(now, x, x[..|x| - |key|] + target, now[x][DN := [x[..|x| - |key|] + target]]);
    }
  }

  /** Coming to the mover while the other entry is there overwrites it, and nothing brings it back. */
  lemma {:induction false} ClashAlongTheWay(now: Entries, visits: seq<string>, key: string, target: string, a: string, b: string)
    requires a in now && b in now && a in visits && a != target && IsUnder(a, key) && !IsUnder(b, key)
    requires |key| <= |a| && a[..|a| - |key|] + target == b
    requires Iterate(Visiting(key, target), now, visits).Some?
    ensures |Iterate(Visiting(key, target), now, visits).value| < |now|
    decreases |visits|
  {
    var x := visits[0];
    var next := Visit(now, x, key, target).value;
    if x == a {
      KeysAfter(now, a, b, now[a][DN := [b]]);
      NeverGrows(next, visits[1..], key, target);
    } else {
      VisitKeeps(now, x, key, target, a);
      VisitKeeps(now, x, key, target, b);
      ClashAlongTheWay(next, visits[1..], key, target, a, b);
    }
  }

  /** A clash loses an entry in every iteration that comes to the mover, whatever else it does. */
  lemma ClashLoses(e: Entries, key: string, target: string, name: string, visits: seq<string>, a: string, b: string)
    requires Directory(e, key, target) && a in e && b in e && Clash(a, b, key, target) && a in visits
    ensures Moving(e, key, target, name, visits).Some? && |Moving(e, key, target, name, visits).value| < |e|
  {
    ImageParts(a, key, target);
    MoverIsNot(e, key, target, a, b);
    KeysAfter(e, key, target, e[key][DN := [target]][NAME := [name]]);
    NormalNeverPanics(e, key, target, name, visits);
    ClashAlongTheWay(Retarget(e, key, target, name), visits, key, target, a, b);
  }

  lemma MoverIsNot(e: Entries, key: string, target: string, a: string, b: string)
    requires Directory(e, key, target) && a in e && b in e && Clash(a, b, key, target)
    ensures a != key && a != target && b != key && Normal(a) && Normal(b) && Normal(key)
  {
    assert key[..0] + target == target;
    if EqualFold(target, key) {
      if a == key {
        SameEntry(e, b, key);
      }
      if a == target {
        SameEntry(e, a, key);
      }
    }
  }

  /** For names apart each single iteration decides: it loses nothing exactly when no new name is taken. */
  lemma LosslessWhenApart(e: Entries, key: string, target: string, name: string, visits: seq<string>)
    requires Directory(e, key, target) && NamesApart(key, target) && Covering(visits, e)
    ensures Lossless(e, key, target, name, visits) <==> Free(e, key, target)
  {
    if Free(e, key, target) {
      forall k | k in e && Under(k, key) ensures Settled(k, key, target) {
        SettledWhenApart(k, key, target);
      }
      RelocatableIsMovable(e, key, target);
      SubtreeMoves(e, key, target, name, visits);
    } else {
      var a, b :| a in e && b in e && Clash(a, b, key, target);
      ClashLoses(e, key, target, name, visits, a, b);
    }
  }

  lemma ChildFacts(a: string, x: string, child: string)
    requires child == a + [','] + x
    ensures Under(child, x) && |child| > |x| && child[..|child| - |x|] == a + [',']
  {
    LowerAppend(a, [','] + x);
    assert child == a + ([','] + x);
    assert Lower([','] + x) == "," + Lower(x);
  }

  /** A child of two places: in neither spelling is it one of them, and it is not under both. */
  lemma ApartBelow(x: string, y: string, orphan: string)
    requires !Under(x, y) && !Under(y, x) && Under(orphan, y)
    ensures !Under(orphan, x) && !EqualFold(x, orphan)
  {
    if Under(orphan, x) {
      if |x| <= |y| {
        Nested(orphan, y, x);
      } else {
        Nested(orphan, x, y);
      }
    }
  }

  /** A directory that the check for the target's own name lets through and that loses an entry: for any two places
      apart, a child below the one and its namesake already below the other, which itself is not there. */
  lemma OrphanIsLost(e: Entries, x: string, y: string, a: string, name: string, visits: seq<string>)
    requires Normal(x) && Normal(y) && Normal(a) && !Under(x, y) && !Under(y, x)
    requires e.Keys == {x, a + [','] + x, a + [','] + y} && Covering(visits, e)
    ensures Directory(e, x, y) && !Free(e, x, y)
    ensures Moving(e, x, y, name, visits).Some? && |Moving(e, x, y, name, visits).value| < |e|
  {
    var child, orphan := a + [','] + x, a + [','] + y;
    NormalParts(a, x);
    NormalParts(a, y);
    ChildFacts(a, x, child);
    ChildFacts(a, y, orphan);
    ApartBelow(x, y, orphan);
    ApartBelow(y, x, child);
    OrphanDirectory(e, x, y, child, orphan);
    assert Clash(child, orphan, x, y);
    ClashLoses(e, x, y, name, visits, child, orphan);
  }

  lemma ThreeNormal(e: Entries, x: string, y: string, z: string)
    requires e.Keys == {x, y, z} && Normal(x) && Normal(y) && Normal(z)
    ensures AllNormal(e)
  {
    forall k | k in e ensures Normal(k) {
      assert k in e.Keys;
    }
  }

  lemma ThreeUnique(e: Entries, x: string, y: string, z: string)
    requires e.Keys == {x, y, z} && !EqualFold(x, y) && !EqualFold(x, z) && !EqualFold(y, z)
    ensures Unique(e)
  {
    forall a, b | a in e && b in e && EqualFold(a, b) ensures a == b {
      assert a in e.Keys && b in e.Keys;
    }
  }

  lemma ThreeWithout(e: Entries, x: string, y: string, z: string, target: string, k: string)
    requires e.Keys == {x, y, z} && !EqualFold(x, target) && !EqualFold(y, target) && !EqualFold(z, target)
    requires k in e
    ensures !EqualFold(k, target)
  {
    assert k in e.Keys;
  }

  lemma ThreeNames(e: Entries, x: string, y: string, child: string, orphan: string)
    requires AllNormal(e) && Unique(e) && x in e && Normal(y)
    requires e.Keys == {x, child, orphan} && !EqualFold(x, y) && !EqualFold(child, y) && !EqualFold(orphan, y)
    ensures Directory(e, x, y)
  {
    forall k | k in e ensures !EqualFold(k, y) {
      ThreeWithout(e, x, child, orphan, y, k);
    }
  }

  lemma LongerName(a: string, b: string)
    requires |a| > |b|
    ensures !EqualFold(a, b) && !EqualFold(b, a)
  {
    assert |Lower(a)| == |a| && |Lower(b)| == |b|;
  }

  lemma OrphanDirectory(e: Entries, x: string, y: string, child: string, orphan: string)
    requires Normal(x) && Normal(y) && Normal(child) && Normal(orphan) && e.Keys == {x, child, orphan}
    requires Under(child, x) && |child| > |x| && |orphan| > |y|
    requires !Under(orphan, x) && !EqualFold(x, orphan) && !EqualFold(y, child) && !Under(y, x)
    ensures Directory(e, x, y)
  {
    LongerName(child, x);
    LongerName(orphan, y);
    if EqualFold(child, orphan) {
      UnderFolds(child, orphan, x, x);
    }
    ThreeNormal(e, x, child, orphan);
    ThreeUnique(e, x, child, orphan);
    ThreeNames(e, x, y, child, orphan);
  }

  /** No entry's new name is one that stays, in another spelling. */
  predicate FreeInAnySpelling(e: Entries, key: string, target: string) {
    forall a, b :: a in e && b in e && Under(a, key) && !Under(b, key) ==> !EqualFold(Image(a, key, target), b)
  }

  /** After a move everything is at its image. */
  lemma AtItsImage(now: Entries, e: Entries, key: string, target: string, name: string, k: string)
    requires AllNormal(e) && key in e && Follows(now, e, key, target, name) && k in e
    ensures Image(k, key, target) in now && now[Image(k, key, target)] == Relabel(e[k], k, key, target, name)
  {
    PlaceIsImage(k, key, target);
    FollowsHas(now, e, key, target, name, k);
  }

  lemma IsAnImage(now: Entries, e: Entries, key: string, target: string, name: string, x: string) returns (k: string)
    requires AllNormal(e) && key in e && Follows(now, e, key, target, name) && x in now
    ensures k in e && x == Image(k, key, target)
  {
    k :| k in e && x == Place(k, key, target);
    PlaceIsImage(k, key, target);
  }

  lemma NamesStayNormal(now: Entries, e: Entries, key: string, target: string, name: string)
    requires Directory(e, key, target) && Follows(now, e, key, target, name)
    ensures AllNormal(now)
  {
    forall x | x in now ensures Normal(x) {
      var k := IsAnImage(now, e, key, target, name, x);
      ImageIsNormal(k, key, target);
    }
  }

  lemma SpellingsApart(e: Entries, key: string, target: string, a: string, b: string)
    requires Unique(e) && FreeInAnySpelling(e, key, target) && a in e && b in e
    requires EqualFold(Image(a, key, target), Image(b, key, target))
    ensures a == b
  {
    if Under(a, key) && Under(b, key) {
      ImagesApart(key, target, a, b);
    }
    SameEntry(e, a, b);
  }

  lemma UniqueIfFree(now: Entries, e: Entries, key: string, target: string, name: string)
    requires Directory(e, key, target) && Follows(now, e, key, target, name) && FreeInAnySpelling(e, key, target)
    ensures Unique(now)
  {
    forall x, y | x in now && y in now && EqualFold(x, y) ensures x == y {
      var a := IsAnImage(now, e, key, target, name, x);
      var b := IsAnImage(now, e, key, target, name, y);
      SpellingsApart(e, key, target, a, b);
    }
  }

  lemma RespelledTwice(now: Entries, e: Entries, key: string, target: string, name: string, a: string, b: string)
    requires Directory(e, key, target) && Follows(now, e, key, target, name) && a in e && b in e && !Clash(a, b, key, target)
    requires Under(a, key) && !Under(b, key) && EqualFold(Image(a, key, target), b)
    ensures !Unique(now)
  {
    AtItsImage(now, e, key, target, name, a);
    AtItsImage(now, e, key, target, name, b);
  }

  /** No two names are then one in two spellings, exactly when no new name was an old one respelled. */
  lemma NamesStayUnique(now: Entries, e: Entries, key: string, target: string, name: string)
    requires Movable(e, key, target) && Follows(now, e, key, target, name)
    ensures Unique(now) <==> FreeInAnySpelling(e, key, target)
  {
    if FreeInAnySpelling(e, key, target) {
      UniqueIfFree(now, e, key, target, name);
    } else {
      var a, b :| a in e && b in e && Under(a, key) && !Under(b, key) && EqualFold(Image(a, key, target), b);
      assert !Clash(a, b, key, target);
      RespelledTwice(now, e, key, target, name, a, b);
    }
  }
}
