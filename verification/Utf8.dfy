// How Go reads bytes as text (package unicode/utf8, after RFC 3629): a byte that is not part of valid UTF-8
// reads as U+FFFD.
module Utf8 {
  const RUNE_ERROR: Scalar := 0xFFFD

  /** What UTF-8 can encode: every code point but the surrogates. */
  type Scalar = n: nat | n < 0xD800 || 0xE000 <= n < 0x11_0000

  predicate IsTrail(c: char) {
    0x80 <= c as int < 0xC0
  }

  /** The next k bytes after the first one continue it. */
  predicate Trails(s: string, k: nat) {
    |s| > k && forall i :: 1 <= i <= k ==> IsTrail(s[i])
  }

  predicate Two(s: string) {
    s != "" && 0xC2 <= s[0] as int < 0xE0 && Trails(s, 1)
  }

  predicate Three(s: string) {
    && s != "" && 0xE0 <= s[0] as int < 0xF0 && Trails(s, 2)
    && (s[0] as int == 0xE0 ==> s[1] as int >= 0xA0)
    && (s[0] as int == 0xED ==> (s[1] as int) < 0xA0)
  }

  predicate Four(s: string) {
    && s != "" && 0xF0 <= s[0] as int < 0xF5 && Trails(s, 3)
    && (s[0] as int == 0xF0 ==> s[1] as int >= 0x90)
    && (s[0] as int == 0xF4 ==> (s[1] as int) < 0x90)
  }

  /** How many bytes the first rune takes, or none if the text does not start with one. */
  function Size(s: string): (n: nat)
    ensures n <= |s| && n <= 4
  {
    if s == "" then 0
    else if s[0] as int < 0x80 then 1
    else if Two(s) then 2
    else if Three(s) then 3
    else if Four(s) then 4
    else 0
  }

  function Tail(c: char): nat
    requires IsTrail(c)
  {
    c as int - 0x80
  }

  function Rune(s: string): (r: Scalar)
    requires s != ""
  {
    var c := s[0] as int;
    match Size(s)
    case 0 => RUNE_ERROR
    case 1 => c
    case 2 => (c - 0xC0) * 0x40 + Tail(s[1])
    case 3 => (c - 0xE0) * 0x1000 + Tail(s[1]) * 0x40 + Tail(s[2])
    case _ => (c - 0xF0) * 0x4_0000 + Tail(s[1]) * 0x1000 + Tail(s[2]) * 0x40 + Tail(s[3])
  }

  /** The bytes the first rune is read from: one if there is none. */
  function Step(s: string): (n: nat)
    requires s != ""
    ensures 0 < n <= |s|
  {
    if Size(s) == 0 then 1 else Size(s)
  }

  /** The text as a range loop sees it. */
  function Runes(s: string): (r: seq<Scalar>) {
    if s == "" then [] else [Rune(s)] + Runes(s[Step(s)..])
  }

  // ---- encoding ----

  function Trailing(n: nat): char
    requires n < 0x40
  {
    (0x80 + n) as char
  }

  function Encode(r: Scalar): (s: string)
    ensures 0 < |s| <= 4
  {
    if r < 0x80 then [r as char]
    else if r < 0x800 then [(0xC0 + r / 0x40) as char, Trailing(r % 0x40)]
    else if r < 0x1_0000 then [(0xE0 + r / 0x1000) as char, Trailing(r / 0x40 % 0x40), Trailing(r % 0x40)]
    else [(0xF0 + r / 0x4_0000) as char, Trailing(r / 0x1000 % 0x40), Trailing(r / 0x40 % 0x40), Trailing(r % 0x40)]
  }

  /** The first rune is decided by its own bytes, whatever follows. */
  lemma SizeAlone(s: string, t: string, n: nat)
    requires n == Size(s) > 0 && n <= |t| && t[..n] == s[..n]
    ensures Size(t) == n && Rune(t) == Rune(s)
  {
    forall i | 0 <= i < n ensures t[i] == s[i] {
      assert t[..n][i] == s[..n][i];
    }
  }

  lemma RunesAfter(s: string, rest: string)
    requires s != "" && Size(s) == |s|
    ensures Runes(s + rest) == [Rune(s)] + Runes(rest)
  {
    var t := s + rest;
    assert t[..|s|] == s == s[..|s|];
    SizeAlone(s, t, |s|);
    assert t[|s|..] == rest;
  }

  lemma ReadTwo(a: nat, b: nat, s: string)
    requires 2 <= a < 0x20 && b < 0x40 && s == [(0xC0 + a) as char, Trailing(b)]
    ensures Size(s) == 2 && Rune(s) == a * 0x40 + b
  {
    assert s[1] == Trailing(b);
  }

  lemma ReadThree(a: nat, b: nat, c: nat, s: string)
    requires a < 0x10 && b < 0x40 && c < 0x40 && (a == 0 ==> b >= 0x20) && (a == 0xD ==> b < 0x20)
    requires s == [(0xE0 + a) as char, Trailing(b), Trailing(c)]
    ensures Size(s) == 3 && Rune(s) == a * 0x1000 + b * 0x40 + c
  {
    assert s[1] == Trailing(b) && s[2] == Trailing(c);
  }

  lemma ReadFour(a: nat, b: nat, c: nat, d: nat, s: string)
    requires a < 5 && b < 0x40 && c < 0x40 && d < 0x40 && (a == 0 ==> b >= 0x10) && (a == 4 ==> b < 0x10)
    requires s == [(0xF0 + a) as char, Trailing(b), Trailing(c), Trailing(d)]
    ensures Size(s) == 4 && Rune(s) == a * 0x4_0000 + b * 0x1000 + c * 0x40 + d
  {
    assert s[1] == Trailing(b) && s[2] == Trailing(c) && s[3] == Trailing(d);
  }

  lemma Digits(n: nat)
    ensures n == n / 0x40 * 0x40 + n % 0x40
    ensures n / 0x40 / 0x40 == n / 0x1000 && n / 0x1000 / 0x40 == n / 0x4_0000
  {
  }

  /** Every rune reads back from its encoding. */
  lemma EncodedReads(r: Scalar)
    ensures Size(Encode(r)) == |Encode(r)| && Rune(Encode(r)) == r
  {
    Digits(r);
    Digits(r / 0x40);
    Digits(r / 0x1000);
    if 0x80 <= r < 0x800 {
      ReadTwo(r / 0x40, r % 0x40, Encode(r));
    } else if 0x800 <= r < 0x1_0000 {
      ReadThree(r / 0x1000, r / 0x40 % 0x40, r % 0x40, Encode(r));
    } else if r >= 0x1_0000 {
      ReadFour(r / 0x4_0000, r / 0x1000 % 0x40, r / 0x40 % 0x40, r % 0x40, Encode(r));
    }
  }

  lemma LastDigit(n: nat, front: nat, d: nat)
    requires d < 0x40 && n == front * 0x40 + d
    ensures n / 0x40 == front && n % 0x40 == d
  {
  }

  lemma TwoEncodes(a: nat, b: nat, r: Scalar)
    requires 2 <= a < 0x20 && b < 0x40 && r == a * 0x40 + b
    ensures Encode(r) == [(0xC0 + a) as char, Trailing(b)]
  {
    LastDigit(r, a, b);
  }

  lemma ThreeEncodes(a: nat, b: nat, c: nat, r: Scalar)
    requires a < 0x10 && b < 0x40 && c < 0x40 && (a == 0 ==> b >= 0x20) && r == a * 0x1000 + b * 0x40 + c
    ensures Encode(r) == [(0xE0 + a) as char, Trailing(b), Trailing(c)]
  {
    LastDigit(r, a * 0x40 + b, c);
    LastDigit(a * 0x40 + b, a, b);
    Digits(r);
  }

  lemma FourEncodes(a: nat, b: nat, c: nat, d: nat, r: Scalar)
    requires a < 5 && b < 0x40 && c < 0x40 && d < 0x40 && (a == 0 ==> b >= 0x10)
    requires r == a * 0x4_0000 + b * 0x1000 + c * 0x40 + d
    ensures Encode(r) == [(0xF0 + a) as char, Trailing(b), Trailing(c), Trailing(d)]
  {
    LastDigit(r, a * 0x1000 + b * 0x40 + c, d);
    LastDigit(a * 0x1000 + b * 0x40 + c, a * 0x40 + b, c);
    LastDigit(a * 0x40 + b, a, b);
    Digits(r);
  }

  /** And what is read as a rune is its encoding: there is only one. */
  lemma ReadIsEncoded(s: string)
    requires s != "" && Size(s) > 0
    ensures s[..Size(s)] == Encode(Rune(s))
  {
    var n, c := Size(s), s[0] as int;
    match n
    case 1 => assert s[..1] == [s[0]];
    case 2 =>
      TwoEncodes(c - 0xC0, Tail(s[1]), Rune(s));
      assert s[..2] == [s[0], s[1]];
    case 3 =>
      ThreeEncodes(c - 0xE0, Tail(s[1]), Tail(s[2]), Rune(s));
      assert s[..3] == [s[0], s[1], s[2]];
    case _ =>
      FourEncodes(c - 0xF0, Tail(s[1]), Tail(s[2]), Tail(s[3]), Rune(s));
      assert s[..4] == [s[0], s[1], s[2], s[3]];
  }

  lemma SameFirst(s: string, t: string)
    requires s != "" && t != "" && Rune(s) == Rune(t) != RUNE_ERROR
    ensures Size(s) == Size(t) == Step(s) == Step(t) && s[..Size(s)] == t[..Size(t)]
  {
    ReadIsEncoded(s);
    ReadIsEncoded(t);
  }

  lemma RunesNext(s: string, rest: string)
    requires s != "" && rest == s[Step(s)..]
    ensures Runes(s) == [Rune(s)] + Runes(rest)
  {
  }

  /** A text all of whose bytes are valid, and which does not spell the error rune out, is the only one to read so. */
  lemma {:induction false} RunesDecide(s: string, t: string)
    requires Runes(s) == Runes(t) && RUNE_ERROR !in Runes(s)
    ensures s == t
  {
    if s != "" {
      assert t != "";
      var n, m := Step(s), Step(t);
      RunesNext(s, s[n..]);
      RunesNext(t, t[m..]);
      SameTail<Scalar>(Rune(s), Runes(s[n..]), Rune(t), Runes(t[m..]));
      SameFirst(s, t);
      RunesDecide(s[n..], t[m..]);
      assert s == s[..n] + s[n..] && t == t[..m] + t[m..];
    }
  }

  lemma SameTail<T>(x: T, a: seq<T>, y: T, b: seq<T>)
    requires [x] + a == [y] + b
    ensures x == y && a == b
  {
    assert ([x] + a)[0] == x && ([y] + b)[0] == y && ([x] + a)[1..] == a && ([y] + b)[1..] == b;
  }

  /** Every byte that is not part of a rune replaced by another one that never is. */
  function Blur(s: string): (r: string)
    ensures |r| == |s|
  {
    if s == "" then ""
    else if Size(s) == 0 then [if s[0] == 255 as char then 254 as char else 255 as char] + Blur(s[1..])
    else s[..Size(s)] + Blur(s[Size(s)..])
  }

  lemma {:induction false} BlurReadsSame(s: string)
    ensures Runes(Blur(s)) == Runes(s)
  {
    if s != "" {
      var n := Step(s);
      BlurReadsSame(s[n..]);
      if Size(s) == 0 {
        var b := Blur(s);
        assert Size(b) == 0 && b[1..] == Blur(s[1..]);
      } else {
        SizeAlone(s, s[..n], n);
        RunesAfter(s[..n], Blur(s[n..]));
      }
    }
  }

  /** All bytes are part of runes. */
  predicate Valid(s: string) {
    s == "" || (Size(s) > 0 && Valid(s[Size(s)..]))
  }

  lemma {:induction false} BlurDiffers(s: string)
    ensures Blur(s) == s <==> Valid(s)
  {
    if s != "" {
      var n := Step(s);
      BlurDiffers(s[n..]);
      assert s == s[..n] + s[n..];
      assert Blur(s)[n..] == Blur(s[n..]);
      if Size(s) == 0 {
        assert Blur(s)[0] != s[0];
      }
    }
  }

  lemma {:induction false} ValidRunes(s: string)
    requires !Valid(s)
    ensures RUNE_ERROR in Runes(s)
  {
    if Size(s) > 0 {
      ValidRunes(s[Size(s)..]);
    }
  }

  // ---- around ASCII characters ----

  lemma NoTrailAfter(p: string, c: char, q: string)
    requires p != "" && (c as int) < 0x80
    ensures Size(p + [c] + q) == Size(p) && Rune(p + [c] + q) == Rune(p)
  {
    var s := p + [c] + q;
    assert s[..|p|] == p && s[|p|] == c && !IsTrail(c);
    if Size(p) > 0 {
      assert s[..Size(p)] == p[..Size(p)];
      SizeAlone(p, s, Size(p));
    } else if Size(s) > 0 {
      InsideTrails(s, |p|);
      assert p[..Size(s)] == s[..Size(s)];
      SizeAlone(s, p, Size(s));
    }
  }

  /** A rune ends before the next byte that does not continue it. */
  lemma InsideTrails(s: string, i: nat)
    requires s != "" && 0 < i < |s| && !IsTrail(s[i])
    ensures Size(s) <= i
  {
  }

  lemma AroundFirst(p: string, c: char, q: string, rest: string)
    requires p != "" && (c as int) < 0x80 && rest == p[Step(p)..]
    ensures Runes(p + [c] + q) == [Rune(p)] + Runes(rest + [c] + q)
  {
    NoTrailAfter(p, c, q);
    assert (p + [c] + q)[Step(p)..] == rest + [c] + q;
    RunesNext(p + [c] + q, rest + [c] + q);
  }

  lemma Shifted<T>(x: T, a: seq<T>, c: T, b: seq<T>)
    ensures [x] + (a + [c] + b) == [x] + a + [c] + b
  {
  }

  /** An ASCII character is a rune of its own wherever it stands. */
  lemma {:induction false} RunesAround(p: string, c: char, q: string)
    requires (c as int) < 0x80
    ensures Runes(p + [c] + q) == Runes(p) + [c as int] + Runes(q)
  {
    if p == "" {
      assert p + [c] + q == [c] + q;
      RunesNext([c] + q, q);
    } else {
      var rest := p[Step(p)..];
      RunesAround(rest, c, q);
      AroundFirst(p, c, q, rest);
      RunesNext(p, rest);
      Shifted<Scalar>(Rune(p), Runes(rest), c as int, Runes(q));
    }
  }
}
