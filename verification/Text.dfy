// The string operations of the Go standard library that the codecs rest on, over ASCII:
// decimal and hexadecimal digits, splitting and joining, trimming and lower-casing.
module Text {
  import opened Wrappers

  // ---- decimal ----

  predicate IsDigit(c: char) {
    '0' <= c <= '9'
  }

  function Digit(d: nat): (c: char)
    requires d < 10
    ensures IsDigit(c)
  {
    '0' + d as char
  }

  function DigitValue(c: char): (d: nat)
    requires IsDigit(c)
    ensures d < 10
  {
    c as nat - '0' as nat
  }

  /** %d of a non-negative number. */
  function Dec(n: nat): (s: string)
    ensures |s| > 0
  {
    if n < 10 then [Digit(n)] else Dec(n / 10) + [Digit(n % 10)]
  }

  predicate AllDigits(s: string) {
    forall i :: 0 <= i < |s| ==> IsDigit(s[i])
  }

  function DecValue(s: string): nat
    requires AllDigits(s)
  {
    if s == "" then 0 else 10 * DecValue(s[..|s| - 1]) + DigitValue(s[|s| - 1])
  }

  /** strconv.ParseUint in base 10: digits only, at least one, below the limit of its bit size. */
  function ParseUint(s: string, limit: nat): (r: Option<nat>)
    ensures r.Some? ==> r.value < limit
  {
    if s != "" && AllDigits(s) && DecValue(s) < limit then Some(DecValue(s)) else None
  }

  lemma {:induction false} DecDigits(n: nat)
    ensures AllDigits(Dec(n)) && DecValue(Dec(n)) == n
  {
    if n >= 10 {
      DecDigits(n / 10);
      assert Dec(n)[..|Dec(n)| - 1] == Dec(n / 10);
    } else {
      assert Dec(n)[..0] == "";
    }
  }

  /** Parsing what was printed gives the number back, within the limit and not otherwise. */
  lemma ParseDec(n: nat, limit: nat)
    ensures ParseUint(Dec(n), limit) == if n < limit then Some(n) else None
  {
    DecDigits(n);
  }

  // ---- hexadecimal ----

  function HexDigit(d: nat): char
    requires d < 16
  {
    if d < 10 then '0' + d as char else 'a' + (d - 10) as char
  }

  function Unhex(c: char): (r: Option<nat>)
    ensures r.Some? ==> r.value < 16
  {
    if '0' <= c <= '9' then Some(c as nat - '0' as nat)
    else if 'a' <= c <= 'f' then Some(c as nat - 'a' as nat + 10)
    else if 'A' <= c <= 'F' then Some(c as nat - 'A' as nat + 10)
    else None
  }

  /** %0kx of a number below 16 to the k. */
  function Hex(n: nat, k: nat): (s: string)
    ensures |s| == k
  {
    if k == 0 then "" else Hex(n / 16, k - 1) + [HexDigit(n % 16)]
  }

  lemma UnhexDigit(d: nat)
    requires d < 16
    ensures Unhex(HexDigit(d)) == Some(d)
  {
  }

  lemma HexOfUnhex(c: char)
    requires Unhex(c).Some?
    ensures HexDigit(Unhex(c).value) == LowerChar(c)
  {
  }

  // ---- case and space ----

  function LowerChar(c: char): char {
    if 'A' <= c <= 'Z' then c + 32 as char else c
  }

  function Lower(s: string): (r: string)
    ensures |r| == |s|
    ensures forall i :: 0 <= i < |s| ==> r[i] == LowerChar(s[i])
  {
    seq(|s|, i requires 0 <= i < |s| => LowerChar(s[i]))
  }

  predicate EqualFold(a: string, b: string) {
    Lower(a) == Lower(b)
  }

  lemma LowerAppend(a: string, b: string)
    ensures Lower(a + b) == Lower(a) + Lower(b)
  {
  }

  predicate IsSpace(c: char) {
    c == ' ' || '\t' <= c <= '\r'
  }

  function TrimLeft(s: string): (r: string)
    ensures |r| <= |s|
  {
    if s != "" && IsSpace(s[0]) then TrimLeft(s[1..]) else s
  }

  function TrimRight(s: string): (r: string)
    ensures |r| <= |s|
  {
    if s != "" && IsSpace(s[|s| - 1]) then TrimRight(s[..|s| - 1]) else s
  }

  function Trim(s: string): (r: string)
    ensures |r| <= |s|
  {
    TrimRight(TrimLeft(s))
  }

  lemma TrimNothing(s: string)
    requires s != "" ==> !IsSpace(s[0]) && !IsSpace(s[|s| - 1])
    ensures Trim(s) == s
  {
  }

  // ---- splitting ----

  /** strings.Split on one separator: always at least one part. */
  function Split(s: string, sep: char): (parts: seq<string>)
    ensures |parts| >= 1
  {
    if s == "" then [""]
    else if s[0] == sep then [""] + Split(s[1..], sep)
    else
      var rest := Split(s[1..], sep);
      [[s[0]] + rest[0]] + rest[1..]
  }

  function Join(parts: seq<string>, sep: char): string
    requires |parts| >= 1
  {
    if |parts| == 1 then parts[0] else parts[0] + [sep] + Join(parts[1..], sep)
  }

  predicate Clean(s: string, sep: char) {
    forall i :: 0 <= i < |s| ==> s[i] != sep
  }

  predicate AllClean(parts: seq<string>, sep: char) {
    forall i :: 0 <= i < |parts| ==> Clean(parts[i], sep)
  }

  lemma {:induction false} SplitClean(p: string, rest: string, sep: char)
    requires Clean(p, sep)
    ensures Split(p, sep) == [p]
    ensures Split(p + [sep] + rest, sep) == [p] + Split(rest, sep)
  {
    if p == "" {
      assert p + [sep] + rest == [sep] + rest;
    } else {
      SplitClean(p[1..], rest, sep);
      assert (p + [sep] + rest)[1..] == p[1..] + [sep] + rest;
      assert [p[0]] + p[1..] == p;
      assert ([p[1..]] + Split(rest, sep))[1..] == Split(rest, sep);
    }
  }

  /** Splitting undoes joining when no part contains the separator. */
  lemma {:induction false} SplitInvertsJoin(parts: seq<string>, sep: char)
    requires |parts| >= 1 && AllClean(parts, sep)
    ensures Split(Join(parts, sep), sep) == parts
    decreases |parts|
  {
    if |parts| == 1 {
      SplitClean(parts[0], "", sep);
    } else {
      SplitInvertsJoin(parts[1..], sep);
      SplitClean(parts[0], Join(parts[1..], sep), sep);
      assert [parts[0]] + parts[1..] == parts;
    }
  }

  lemma {:induction false} JoinInvertsSplit(s: string, sep: char)
    ensures Join(Split(s, sep), sep) == s && AllClean(Split(s, sep), sep)
  {
    if s != "" {
      JoinInvertsSplit(s[1..], sep);
      var rest := Split(s[1..], sep);
      if s[0] == sep {
        assert ([""] + rest)[1..] == rest;
      } else {
        var parts := [[s[0]] + rest[0]] + rest[1..];
        assert parts[1..] == rest[1..];
        assert Join(parts, sep) == [s[0]] + Join(rest, sep);
      }
    }
  }

  lemma {:induction false} JoinSnoc(parts: seq<string>, last: string, sep: char)
    requires |parts| >= 1
    ensures Join(parts + [last], sep) == Join(parts, sep) + [sep] + last
    decreases |parts|
  {
    if |parts| > 1 {
      JoinSnoc(parts[1..], last, sep);
      assert (parts + [last])[1..] == parts[1..] + [last];
    } else {
      assert (parts + [last])[1..] == [last];
    }
  }

  lemma {:induction false} JoinEnds(parts: seq<string>, sep: char)
    requires |parts| >= 1 && forall i :: 0 <= i < |parts| ==> parts[i] != ""
    ensures var t := Join(parts, sep);
            t != "" && t[0] == parts[0][0] && t[|t| - 1] == parts[|parts| - 1][|parts[|parts| - 1]| - 1]
  {
    if |parts| > 1 {
      JoinEnds(parts[1..], sep);
    }
  }

  lemma DecClean(n: nat, sep: char)
    requires !IsDigit(sep)
    ensures Clean(Dec(n), sep)
  {
    DecDigits(n);
  }

  /** strings.Index of a single character: the first occurrence, or the length when there is none. */
  function Find(s: string, c: char): (i: nat)
    ensures i <= |s|
    ensures forall j :: 0 <= j < i ==> s[j] != c
    ensures i < |s| ==> s[i] == c
  {
    if s == "" then 0 else if s[0] == c then 0 else 1 + Find(s[1..], c)
  }

  // ---- substrings ----

  predicate IsAt(s: string, sub: string, i: int) {
    0 <= i <= |s| - |sub| && s[i..i + |sub|] == sub
  }

  /** strings.Index: the first occurrence, or -1. */
  function Index(s: string, sub: string): (r: int)
    ensures -1 <= r && (r >= 0 ==> IsAt(s, sub, r))
  {
    if |s| < |sub| then -1
    else if s[..|sub|] == sub then 0
    else
      var r := Index(s[1..], sub);
      assert r >= 0 ==> s[r + 1..r + 1 + |sub|] == s[1..][r..r + |sub|];
      if r < 0 then -1 else r + 1
  }

  lemma IsAtTail(s: string, sub: string, i: int)
    requires i > 0 && s != ""
    ensures IsAt(s, sub, i) <==> IsAt(s[1..], sub, i - 1)
  {
    if i <= |s| - |sub| {
      SliceOfTail(s, i, i + |sub|);
    }
  }

  lemma SliceOfTail<T>(s: seq<T>, i: nat, j: nat)
    requires 0 < i <= j <= |s|
    ensures s[1..][i - 1..j - 1] == s[i..j]
  {
  }

  lemma IsAtStarts(s: string, sub: string, i: int)
    requires IsAt(s, sub, i) && sub != ""
    ensures s[i] == sub[0]
  {
    assert s[i..i + |sub|][0] == s[i];
  }

  /** No occurrence lies before the one Index gives, and none anywhere when it gives -1. */
  lemma {:induction false} IndexIsFirst(s: string, sub: string, i: int)
    requires IsAt(s, sub, i)
    ensures 0 <= Index(s, sub) <= i
  {
    if s[..|sub|] != sub {
      IsAtTail(s, sub, i);
      IndexIsFirst(s[1..], sub, i - 1);
    }
  }

  predicate HasPrefix(s: string, p: string) {
    |p| <= |s| && s[..|p|] == p
  }

  predicate HasSuffix(s: string, p: string) {
    |p| <= |s| && s[|s| - |p|..] == p
  }

  /** The first occurrence of a character after a part without it. */
  lemma {:induction false} FindAfter(p: string, c: char, rest: string)
    requires Clean(p, c)
    ensures Find(p + [c] + rest, c) == |p| && Find(p, c) == |p|
  {
    if p == "" {
      assert p + [c] + rest == [c] + rest;
    } else {
      FindAfter(p[1..], c, rest);
      assert (p + [c] + rest)[1..] == p[1..] + [c] + rest;
    }
  }

  /** The ASCII spaces: tab, line feed, vertical tab, form feed, carriage return and the space itself. */
  lemma SpacesExactly(c: char)
    ensures IsSpace(c) <==> c as int in {9, 10, 11, 12, 13, 32}
  {
  }
}
