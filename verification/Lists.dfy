// Filtering and mapping of entry lists, and how both follow a loop over the list.
module Lists {
  import opened Wrappers

  /** The elements that satisfy p, in order. */
  function Keep<T>(s: seq<T>, p: T -> bool): (r: seq<T>)
    ensures |r| <= |s|
  {
    if s == [] then []
    else if p(s[0]) then [s[0]] + Keep(s[1..], p)
    else Keep(s[1..], p)
  }

  lemma {:induction false} KeepMembers<T>(s: seq<T>, p: T -> bool)
    ensures forall x :: x in Keep(s, p) <==> x in s && p(x)
  {
    if s != [] {
      KeepMembers(s[1..], p);
      assert s == [s[0]] + s[1..];
    }
  }

  lemma {:induction false} KeepAppend<T>(a: seq<T>, b: seq<T>, p: T -> bool)
    ensures Keep(a + b, p) == Keep(a, p) + Keep(b, p)
  {
    if a == [] {
      assert a + b == b;
    } else {
      assert (a + b)[1..] == a[1..] + b;
      KeepAppend(a[1..], b, p);
      assert [a[0]] + (Keep(a[1..], p) + Keep(b, p)) == ([a[0]] + Keep(a[1..], p)) + Keep(b, p);
    }
  }

  /** One step of a loop that filters: the element at hand is kept or dropped. */
  lemma KeepStep<T>(s: seq<T>, i: nat, p: T -> bool)
    requires i < |s|
    ensures Keep(s[..i + 1], p) == Keep(s[..i], p) + (if p(s[i]) then [s[i]] else [])
  {
    assert s[..i + 1] == s[..i] + [s[i]];
    KeepAppend(s[..i], [s[i]], p);
    assert [s[i]][1..] == [];
  }

  lemma {:induction false} KeepAll<T>(s: seq<T>, p: T -> bool)
    requires forall x :: x in s ==> p(x)
    ensures Keep(s, p) == s
  {
    if s != [] {
      KeepAll(s[1..], p);
    }
  }

  lemma {:induction false} KeepNone<T>(s: seq<T>, p: T -> bool)
    requires forall x :: x in s ==> !p(x)
    ensures Keep(s, p) == []
  {
    if s != [] {
      KeepNone(s[1..], p);
    }
  }

  /** Filtering for q does not see a filter that drops only what q would drop anyway. */
  lemma {:induction false} KeepKeep<T>(s: seq<T>, p: T -> bool, q: T -> bool)
    requires forall x :: x in s && q(x) ==> p(x)
    ensures Keep(Keep(s, p), q) == Keep(s, q)
  {
    if s != [] {
      KeepKeep(s[1..], p, q);
      assert ([s[0]] + Keep(s[1..], p))[1..] == Keep(s[1..], p);
    }
  }

  /** Nothing was dropped exactly when the length did not change. */
  lemma {:induction false} KeepLength<T>(s: seq<T>, p: T -> bool)
    ensures |Keep(s, p)| == |s| <==> forall x :: x in s ==> p(x)
  {
    if s != [] {
      KeepLength(s[1..], p);
      assert s == [s[0]] + s[1..];
    }
  }

  function Map<A, B>(s: seq<A>, f: A -> B): (r: seq<B>)
    ensures |r| == |s|
    ensures forall i :: 0 <= i < |s| ==> r[i] == f(s[i])
  {
    if s == [] then [] else [f(s[0])] + Map(s[1..], f)
  }

  lemma {:induction false} MapAppend<A, B>(a: seq<A>, b: seq<A>, f: A -> B)
    ensures Map(a + b, f) == Map(a, f) + Map(b, f)
  {
    if a == [] {
      assert a + b == b;
    } else {
      assert (a + b)[1..] == a[1..] + b;
      MapAppend(a[1..], b, f);
    }
  }

  lemma MapStep<A, B>(s: seq<A>, i: nat, f: A -> B)
    requires i < |s|
    ensures Map(s[..i + 1], f) == Map(s[..i], f) + [f(s[i])]
  {
    assert s[..i + 1] == s[..i] + [s[i]];
    MapAppend(s[..i], [s[i]], f);
  }

  /** The results of f that are there, in order. */
  function Collect<A, B>(s: seq<A>, f: A -> Option<B>): (r: seq<B>)
    ensures |r| <= |s|
  {
    if s == [] then []
    else (if f(s[0]).Some? then [f(s[0]).value] else []) + Collect(s[1..], f)
  }

  /** A loop that skips what f does not give. */
  method CollectEach<A, B>(s: seq<A>, f: A -> Option<B>) returns (out: seq<B>)
    ensures out == Collect(s, f)
  {
    out := [];
    for i := 0 to |s|
      invariant Collect(s, f) == out + Collect(s[i..], f)
    {
      assert s[i..][0] == s[i] && s[i..][1..] == s[i + 1..];
      var b := f(s[i]);
      if b.None? {
        continue;
      }
      out := out + [b.value];
    }
  }
}
