// The substring matcher of internal/adtest/handlers.go: cutting the prefix, then the suffix,
// then the leftmost middles decides exactly what the pattern means (section 4.5.1.7.2 of RFC 4511).
module Wildcard {
  import opened Text

  /** What a pattern means: "*" stands for any run of characters, everything else for itself. */
  predicate Glob(p: string, t: string)
    decreases |p| + |t|
  {
    if p == "" then t == ""
    else if p[0] == '*' then Glob(p[1..], t) || (t != "" && Glob(p, t[1..]))
    else t != "" && t[0] == p[0] && Glob(p[1..], t[1..])
  }

  // ---- laws of the reference matcher ----

  lemma {:induction false} StarDrops(p: string, t: string, k: nat)
    requires p != "" && p[0] == '*' && k <= |t| && Glob(p, t[k..])
    ensures Glob(p, t)
    decreases k
  {
    if k == 0 {
      assert t[0..] == t;
    } else {
      assert t[1..][k - 1..] == t[k..];
      StarDrops(p, t[1..], k - 1);
    }
  }

  lemma {:induction false} StarFinds(p: string, t: string) returns (k: nat)
    requires p != "" && p[0] == '*' && Glob(p, t)
    ensures k <= |t| && Glob(p[1..], t[k..])
    decreases |t|
  {
    if Glob(p[1..], t) {
      k := 0;
      assert t[0..] == t;
    } else {
      var j := StarFinds(p, t[1..]);
      k := j + 1;
      assert t[1..][j..] == t[k..];
    }
  }

  lemma {:induction false} LiteralFirst(pre: string, rest: string, t: string)
    requires Clean(pre, '*')
    ensures Glob(pre + rest, t) <==> HasPrefix(t, pre) && Glob(rest, t[|pre|..])
  {
    if pre == "" {
      assert pre + rest == rest && t[0..] == t;
    } else {
      var p := pre + rest;
      assert p[1..] == pre[1..] + rest;
      if t != "" && t[0] == pre[0] {
        LiteralFirst(pre[1..], rest, t[1..]);
        if |pre| <= |t| {
          assert t[1..][|pre| - 1..] == t[|pre|..];
          assert t[..|pre|] == [t[0]] + t[1..][..|pre| - 1];
          assert pre == [pre[0]] + pre[1..];
        }
      } else {
        assert |pre| <= |t| ==> t[..|pre|][0] == t[0];
      }
    }
  }

  lemma {:induction false} GlobClean(p: string, t: string)
    requires Clean(p, '*')
    ensures Glob(p, t) <==> p == t
  {
    LiteralFirst(p, "", t);
    assert p + "" == p;
    if HasPrefix(t, p) && t[|p|..] == "" {
      assert t == t[..|p|];
    }
  }

  /** After a star, a literal end can be cut off the text first. */
  lemma {:induction false} LiteralLast(p: string, last: string, t: string)
    requires p != "" && p[|p| - 1] == '*' && Clean(last, '*')
    ensures Glob(p + last, t) <==> HasSuffix(t, last) && Glob(p, t[..|t| - |last|])
    decreases |p| + |t|
  {
    var q := p + last;
    assert q[0] == p[0] && q[1..] == p[1..] + last;
    if |p| == 1 {
      OnlyStar(p, last, t);
    } else if p[0] == '*' {
      LiteralLast(p[1..], last, t);
      if t != "" {
        LiteralLast(p, last, t[1..]);
        CutHead(t, last);
      }
    } else if t != "" && t[0] == p[0] {
      LiteralLast(p[1..], last, t[1..]);
      CutHead(t, last);
    } else if HasSuffix(t, last) && t[..|t| - |last|] != "" {
      assert t[..|t| - |last|][0] == t[0];
    }
  }

  /** Taking the first character commutes with cutting off the end, when both are there. */
  lemma CutHead(t: string, last: string)
    requires t != ""
    ensures HasSuffix(t[1..], last) <==> HasSuffix(t, last) && |last| < |t|
    ensures HasSuffix(t[1..], last) ==> t[1..][..|t| - 1 - |last|] == t[..|t| - |last|][1..]
  {
    if |last| < |t| {
      assert t[1..][|t| - 1 - |last|..] == t[|t| - |last|..];
    }
  }

  lemma StarTakesAll(t: string)
    ensures Glob("*", t)
  {
    assert "*"[1..] == "" && t[|t|..] == "";
    StarDrops("*", t, |t|);
  }

  lemma {:induction false} OnlyStar(p: string, last: string, t: string)
    requires p == "*" && Clean(last, '*')
    ensures Glob(p + last, t) <==> HasSuffix(t, last) && Glob(p, t[..|t| - |last|])
    decreases |t|
  {
    var q := p + last;
    assert q[0] == '*' && q[1..] == last;
    GlobClean(last, t);
    if HasSuffix(t, last) {
      StarTakesAll(t[..|t| - |last|]);
    }
    if t != "" {
      OnlyStar(p, last, t[1..]);
      CutHead(t, last);
    }
    if |t| == |last| {
      assert t[|t| - |last|..] == t;
    }
  }

  /** The pattern holds at an occurrence when what follows holds after it. */
  lemma OccurrenceWill(mid: string, p: string, rest: string, t: string, i: nat)
    requires Clean(mid, '*') && p != "" && p[0] == '*' && p[1..] == mid + rest
    requires IsAt(t, mid, i) && Glob(rest, t[i + |mid|..])
    ensures Glob(p, t)
  {
    var u := t[i..];
    assert u[..|mid|] == mid && u[|mid|..] == t[i + |mid|..];
    LiteralFirst(mid, rest, u);
    assert u[0..] == u && Glob(p, u);
    StarDrops(p, t, i);
  }

  /** And if it holds at all, it holds at some occurrence. */
  lemma SomeOccurrence(mid: string, p: string, rest: string, t: string) returns (k: nat)
    requires Clean(mid, '*') && p != "" && p[0] == '*' && p[1..] == mid + rest && Glob(p, t)
    ensures IsAt(t, mid, k) && Glob(rest, t[k + |mid|..])
  {
    k := StarFinds(p, t);
    var u := t[k..];
    LiteralFirst(mid, rest, u);
    assert u[..|mid|] == t[k..k + |mid|] && u[|mid|..] == t[k + |mid|..];
  }

  /** Between stars, the leftmost occurrence of a literal is as good as any. */
  lemma LeftmostWill(mid: string, p: string, rest: string, t: string, i: int)
    requires Clean(mid, '*') && rest != "" && rest[0] == '*'
    requires p != "" && p[0] == '*' && p[1..] == mid + rest && i == Index(t, mid)
    ensures Glob(p, t) <==> i >= 0 && Glob(rest, t[i + |mid|..])
  {
    if i >= 0 && Glob(rest, t[i + |mid|..]) {
      OccurrenceWill(mid, p, rest, t, i);
    }
    if Glob(p, t) {
      var k := SomeOccurrence(mid, p, rest, t);
      IndexIsFirst(t, mid, k);
      LaterWill(mid, rest, t, i, k);
    }
  }

  lemma LaterWill(mid: string, rest: string, t: string, i: nat, k: nat)
    requires rest != "" && rest[0] == '*' && i <= k <= |t| - |mid| && Glob(rest, t[k + |mid|..])
    ensures Glob(rest, t[i + |mid|..])
  {
    var u := t[i + |mid|..];
    assert u[k - i..] == t[k + |mid|..];
    StarDrops(rest, u, k - i);
  }

  // ---- the matcher ----

  /** The part of a pattern between its first and its last piece. */
  function Middle(mids: seq<string>): (p: string)
    ensures p != "" && p[0] == '*' && p[|p| - 1] == '*'
  {
    if mids == [] then "*" else "*" + mids[0] + Middle(mids[1..])
  }

  lemma {:induction false} JoinStars(parts: seq<string>)
    requires |parts| >= 2
    ensures Join(parts, '*') == parts[0] + (Middle(parts[1..|parts| - 1]) + parts[|parts| - 1])
    decreases |parts|
  {
    var rest := parts[1..];
    if |parts| == 2 {
      assert Join(rest, '*') == rest[0];
      assert parts[1..1] == [];
    } else {
      JoinStars(rest);
      assert rest[1..|rest| - 1] == parts[1..|parts| - 1][1..];
      assert Middle(parts[1..|parts| - 1]) == "*" + rest[0] + Middle(rest[1..|rest| - 1]);
    }
  }

  lemma TwoStars(rest: string, t: string)
    requires rest != "" && rest[0] == '*'
    ensures Glob("*" + rest, t) <==> Glob(rest, t)
  {
    var p := "*" + rest;
    assert p[1..] == rest;
    if Glob(p, t) {
      var k := StarFinds(p, t);
      StarDrops(rest, t, k);
    }
  }

  /** The greedy search for the middles, leftmost first. */
  method FindMiddles(text: string, mids: seq<string>) returns (found: bool)
    requires AllClean(mids, '*')
    ensures found <==> Glob(Middle(mids), text)
  {
    var h := text;
    for i := 0 to |mids|
      invariant Glob(Middle(mids), text) <==> Glob(Middle(mids[i..]), h)
    {
      var mid := mids[i];
      assert mids[i..][0] == mid && mids[i..][1..] == mids[i + 1..];
      assert Middle(mids[i..]) == "*" + mid + Middle(mids[i + 1..]);
      if mid == "" {
        TwoStars(Middle(mids[i + 1..]), h);
        assert "*" + mid == "*";
        continue;
      }
      var at := Index(h, mid);
      assert Middle(mids[i..])[1..] == mid + Middle(mids[i + 1..]);
      LeftmostWill(mid, Middle(mids[i..]), Middle(mids[i + 1..]), h, at);
      if at < 0 {
        return false;
      }
      h := h[at + |mid|..];
    }
    StarTakesAll(h);
    return true;
  }

  // ---- case ----

  /** How two values are compared whatever their case, and how one is put into lower case: what strings.EqualFold
      and strings.ToLower do is decided by Unicode's tables and by what they make of bytes that are not text. */
  datatype Folding = Folding(same: (string, string) -> bool, lower: string -> string)

  /** Lower-casing keeps the wildcards a pattern has. */
  ghost predicate KeepsStars(fold: Folding) {
    forall s: string :: Find(s, '*') < |s| ==> Find(fold.lower(s), '*') < |fold.lower(s)|
  }

  /** Comparison as equivalence. */
  ghost predicate Equates(fold: Folding) {
    && (forall a :: fold.same(a, a))
    && (forall a, b :: fold.same(a, b) ==> fold.same(b, a))
    && (forall a, b, c :: fold.same(a, b) && fold.same(b, c) ==> fold.same(a, c))
  }

  /** The folding of ASCII text. */
  const ASCII := Folding((a, b) => EqualFold(a, b), s => Lower(s))

  /** What an assertion means: a pattern if it has a wildcard, else a value to be the same as. */
  predicate Matches(have: string, want: string, fold: Folding) {
    if Find(want, '*') < |want| then Glob(fold.lower(want), fold.lower(have)) else fold.same(have, want)
  }

  /** True exactly when the value is the same, or can be split in lower case as the lower-case pattern says. */
  method MatchValue(have: string, want: string, fold: Folding) returns (matches: bool)
    requires KeepsStars(fold)
    ensures matches <==> Matches(have, want, fold)
  {
    if Find(want, '*') == |want| {
      return fold.same(have, want);
    }
    var pattern := fold.lower(want);
    assert Find(pattern, '*') < |pattern|;
    var parts := Split(pattern, '*');
    var h := fold.lower(have);
    JoinInvertsSplit(pattern, '*');
    TwoParts(pattern);
    JoinStars(parts);
    var pre, last := parts[0], parts[|parts| - 1];
    ghost var rest := Middle(parts[1..|parts| - 1]) + last;
    LiteralFirst(pre, rest, h);
    if pre != "" {
      if !HasPrefix(h, pre) {
        return false;
      }
      h := h[|pre|..];
    } else {
      assert h[0..] == h;
    }
    LiteralLast(Middle(parts[1..|parts| - 1]), last, h);
    if last != "" {
      if !HasSuffix(h, last) {
        return false;
      }
      h := h[..|h| - |last|];
    } else {
      assert h[..|h|] == h && h[|h|..] == "";
    }
    matches := FindMiddles(h, parts[1..|parts| - 1]);
  }

  lemma OnePart(s: string)
    requires |Split(s, '*')| == 1
    ensures Find(s, '*') == |s|
  {
    JoinInvertsSplit(s, '*');
    var parts := Split(s, '*');
    assert Join(parts, '*') == parts[0] && Clean(parts[0], '*');
  }

  lemma TwoParts(pattern: string)
    requires Find(pattern, '*') < |pattern|
    ensures |Split(pattern, '*')| >= 2
  {
    if |Split(pattern, '*')| == 1 {
      OnePart(pattern);
    }
  }

  lemma FindClean(s: string, c: char)
    ensures Find(s, c) == |s| <==> Clean(s, c)
  {
  }

  /** In ASCII the two cases are one: the lower-cased pattern against the lower-cased value. */
  lemma AsciiMatches(have: string, want: string)
    ensures KeepsStars(ASCII) && Equates(ASCII)
    ensures Matches(have, want, ASCII) <==> Glob(Lower(want), Lower(have))
  {
    forall s: string | Find(s, '*') < |s| ensures Find(Lower(s), '*') < |Lower(s)| {
      FindClean(Lower(s), '*');
      assert Lower(s)[Find(s, '*')] == '*';
    }
    if Find(want, '*') == |want| {
      assert Clean(Lower(want), '*');
      GlobClean(Lower(want), Lower(have));
    }
  }

  /** Every text matches itself as a pattern. */
  lemma {:induction false} GlobItself(s: string)
    ensures Glob(s, s)
  {
    if s != "" {
      GlobItself(s[1..]);
      if s[0] == '*' {
        StarOne(s, s);
      }
    }
  }

  lemma StarOne(p: string, t: string)
    requires p != "" && t != "" && p[0] == '*' && Glob(p[1..], t[1..])
    ensures Glob(p, t)
  {
    assert t[1..][0..] == t[1..];
    assert Glob(p, t[1..]);
  }
}
