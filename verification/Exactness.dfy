// When a printed comparison finds exactly what it asks for: the lookup by GUID of search.go, and
// the comparisons the evaluator of internal/adtest/handlers.go takes for extensible matches.
module Exactness {
  import opened Wrappers
  import opened Bytes
  import opened Lists
  import opened Text
  import opened Wildcard
  import opened Filter
  import Sid

  // ---- the lookup by GUID ----

  /** The lookup finds the entry exactly when the entry holds the bytes asked for. */
  predicate FindsJust(attr: string, b: bytes, entry: seq<Attr>, fold: Folding) {
    var vals := Lookup(entry, attr, fold);
    MatchFilter(Print(Equal(attr, Escaped(b))), entry, fold) == Some(vals.Some? && b in vals.value)
  }

  /** Other bytes that the evaluator takes for the ones asked for. */
  predicate Mistaken(b: bytes, other: bytes, fold: Folding) {
    other != b && Matches(Chars(other), Chars(b), fold)
  }

  lemma LookupOnly(attr: string, value: bytes, fold: Folding)
    requires Equates(fold)
    ensures Lookup([Attr(attr, [value])], attr, fold) == Some([value])
  {
  }

  /** One entry that holds only the mistaken bytes is found. */
  lemma MistakenIsFound(attr: string, b: bytes, other: bytes, fold: Folding)
    requires IsName(attr) && !fold.same(attr, OBJECT_SID) && b != [] && Equates(fold) && Mistaken(b, other, fold)
    ensures MatchFilter(Print(Equal(attr, Escaped(b))), [Attr(attr, [other])], fold) == Some(true)
    ensures !FindsJust(attr, b, [Attr(attr, [other])], fold)
  {
    var entry := [Attr(attr, [other])];
    LookupOnly(attr, other, fold);
    BinaryLookup(attr, b, entry, fold);
    assert [other][0] == other;
  }

  /** Under any folding the lookup is exact, for every entry, exactly when no other bytes can be mistaken. */
  lemma OthersDecide(attr: string, b: bytes, fold: Folding)
    requires IsName(attr) && !fold.same(attr, OBJECT_SID) && b != [] && Equates(fold)
    ensures (forall entry: seq<Attr> :: FindsJust(attr, b, entry, fold)) <==> forall other: bytes :: !Mistaken(b, other, fold)
  {
    if other: bytes :| Mistaken(b, other, fold) {
      MistakenIsFound(attr, b, other, fold);
    } else {
      forall entry: seq<Attr> ensures FindsJust(attr, b, entry, fold) {
        OnlyItself(attr, b, entry, fold);
      }
    }
  }

  lemma OnlyItself(attr: string, b: bytes, entry: seq<Attr>, fold: Folding)
    requires IsName(attr) && !fold.same(attr, OBJECT_SID) && b != [] && Equates(fold)
    requires forall other: bytes :: !Mistaken(b, other, fold)
    ensures FindsJust(attr, b, entry, fold)
  {
    BinaryLookup(attr, b, entry, fold);
    MatchesItself(Chars(b), fold);
    var vals := Lookup(entry, attr, fold);
    if vals.Some? {
      forall i | 0 <= i < |vals.value| ensures Matches(Chars(vals.value[i]), Chars(b), fold) <==> vals.value[i] == b {
        assert !Mistaken(b, vals.value[i], fold);
      }
    }
  }

  predicate IsLetter(x: byte) {
    'A' as int <= x <= 'Z' as int || 'a' as int <= x <= 'z' as int
  }

  /** A byte that stands for itself only: neither a wildcard nor a letter with another case. */
  predicate Distinct(x: byte) {
    x != '*' as int && !IsLetter(x)
  }

  /** A pattern that differs from a text only by stars matches it. */
  lemma {:induction false} GlobPointwise(p: string, t: string)
    requires |p| == |t| && forall i :: 0 <= i < |p| ==> p[i] == t[i] || p[i] == '*'
    ensures Glob(p, t)
  {
    if p != "" {
      GlobPointwise(p[1..], t[1..]);
      if p[0] == '*' {
        StarOne(p, t);
      }
    }
  }

  /** The same letter in its other case. */
  function OtherCase(x: byte): byte
    requires IsLetter(x)
  {
    if x <= 'Z' as int then x + 32 else x - 32
  }

  /** For a byte that does not stand for itself there are other bytes, as many, that are taken for the ones asked for. */
  lemma AnotherIsMistaken(b: bytes, i: nat) returns (other: bytes)
    requires i < |b| && !Distinct(b[i])
    ensures |other| == |b| && Mistaken(b, other, ASCII)
  {
    other := b[i := if IsLetter(b[i]) then OtherCase(b[i]) else 0x41];
    var p, t := Lower(Chars(b)), Lower(Chars(other));
    assert other[i] != b[i];
    AsciiMatches(Chars(other), Chars(b));
    forall j | 0 <= j < |p| ensures p[j] == t[j] || p[j] == '*' {
      assert p[j] == LowerChar(b[j] as char) && t[j] == LowerChar(other[j] as char);
      assert j != i ==> other[j] == b[j];
    }
    GlobPointwise(p, t);
  }

  lemma DistinctIsItself(b: bytes, other: bytes)
    requires forall i :: 0 <= i < |b| ==> Distinct(b[i])
    ensures !Mistaken(b, other, ASCII)
  {
    var w, h := Chars(b), Chars(other);
    assert Clean(w, '*');
    FindClean(w, '*');
    if EqualFold(h, w) {
      assert |other| == |b| by {
        assert |Lower(h)| == |Lower(w)|;
      }
      forall i | 0 <= i < |b| ensures other[i] == b[i] {
        assert LowerChar(h[i]) == Lower(h)[i] == Lower(w)[i] == LowerChar(w[i]);
        assert Distinct(b[i]);
      }
      assert other == b;
    }
  }

  /** The lookup by GUID finds exactly the entries that hold it exactly when no byte of it is a star or an ASCII letter. */
  lemma BinaryLookupExactly(attr: string, b: bytes)
    requires IsName(attr) && !EqualFold(attr, OBJECT_SID) && b != []
    ensures (forall entry: seq<Attr> :: FindsJust(attr, b, entry, ASCII)) <==> forall i :: 0 <= i < |b| ==> Distinct(b[i])
  {
    AsciiMatches("", "");
    OthersDecide(attr, b, ASCII);
    if i :| 0 <= i < |b| && !Distinct(b[i]) {
      var other := AnotherIsMistaken(b, i);
    } else {
      forall other: bytes ensures !Mistaken(b, other, ASCII) {
        DistinctIsItself(b, other);
      }
    }
  }

  /** So a GUID with a star or a letter among its bytes finds an entry that holds only another GUID. */
  lemma OtherGuidIsFound(attr: string, b: bytes, i: nat) returns (other: bytes)
    requires IsName(attr) && !EqualFold(attr, OBJECT_SID) && i < |b| && !Distinct(b[i])
    ensures |other| == |b| && other != b
    ensures MatchFilter(Print(Equal(attr, Escaped(b))), [Attr(attr, [other])], ASCII) == Some(true)
  {
    other := AnotherIsMistaken(b, i);
    AsciiMatches("", "");
    MistakenIsFound(attr, b, other, ASCII);
  }

  // ---- comparisons taken for extensible matches ----

  predicate StartsEscape(s: string) {
    |s| > 2 && s[0] == '\\' && Unhex(s[1]).Some? && Unhex(s[2]).Some?
  }

  lemma EscapeApart(a: string, x: char, s: string)
    requires a != "" && x != '\\' && Unhex(x).None?
    ensures StartsEscape(a + [x] + s) <==> StartsEscape(a)
  {
    var all := a + [x] + s;
    assert all[..|a|] == a && all[|a|] == x;
    assert all[0] == a[0] && (|a| > 1 ==> all[1] == a[1]) && (|a| > 2 ==> all[2] == a[2]);
  }

  /** Unescaping on either side of a character that no escape can contain. */
  lemma {:induction false} UnescapeApart(a: string, x: char, s: string)
    requires x != '\\' && Unhex(x).None?
    ensures Unescape(a + [x] + s) == Unescape(a) + [x] + Unescape(s)
  {
    var all := a + [x] + s;
    if a == "" {
      assert all == [x] + s && all[1..] == s;
    } else {
      var n := if StartsEscape(a) then 3 else 1;
      EscapeApart(a, x, s);
      assert all[n..] == a[n..] + [x] + s;
      UnescapeApart(a[n..], x, s);
      UnescapeStep(a);
      UnescapeStep(all);
      assert all[..n] == a[..n];
    }
  }

  /** The character an unescaped text starts with. */
  function FirstOf(head: string): char
    requires head != "" && (|head| > 1 ==> StartsEscape(head))
  {
    if |head| == 1 then head[0] else (16 * Unhex(head[1]).value + Unhex(head[2]).value) as char
  }

  lemma UnescapeStep(s: string)
    requires s != ""
    ensures var n := if StartsEscape(s) then 3 else 1;
            StartsEscape(s[..n]) == StartsEscape(s) && Unescape(s) == [FirstOf(s[..n])] + Unescape(s[n..])
  {
  }

  function Count(s: string, c: char): nat {
    if s == "" then 0 else (if s[0] == c then 1 else 0) + Count(s[1..], c)
  }

  lemma {:induction false} CountAppend(a: string, b: string, c: char)
    ensures Count(a + b, c) == Count(a, c) + Count(b, c)
  {
    if a == "" {
      assert a + b == b;
    } else {
      assert (a + b)[1..] == a[1..] + b;
      CountAppend(a[1..], b, c);
    }
  }

  lemma {:induction false} CountClean(s: string, c: char)
    requires Clean(s, c)
    ensures Count(s, c) == 0
  {
    if s != "" {
      CountClean(s[1..], c);
    }
  }

  /** A text has every literal of a pattern that it matches, as often. */
  lemma {:induction false} GlobCounts(p: string, t: string, c: char)
    requires Glob(p, t) && c != '*'
    ensures Count(p, c) <= Count(t, c)
    decreases |p| + |t|
  {
    if p != "" {
      if p[0] != '*' {
        GlobCounts(p[1..], t[1..], c);
      } else if Glob(p[1..], t) {
        GlobCounts(p[1..], t, c);
      } else {
        GlobCounts(p, t[1..], c);
      }
    }
  }

  /** What is compared with instead, if the printed value has ":=": nothing is left from the first ":" to that one. */
  function Stripped(want: string): string
    requires Index(want, ":=") >= 0
  {
    want[..Find(want, ':')] + want[Index(want, ":=") + 1..]
  }

  lemma AssignFound(attr: string, want: string)
    requires IsName(attr) && Index(want, ":=") >= 0
    ensures Index(attr + "=" + want, ":=") == Index(want, ":=") + |attr| + 1
  {
    var body, j := attr + "=" + want, Index(want, ":=");
    AssignInValue(attr, want, j + |attr| + 1);
    IndexIsFirst(body, ":=", j + |attr| + 1);
    AssignInValue(attr, want, Index(body, ":="));
    IndexIsFirst(want, ":=", Index(body, ":=") - |attr| - 1);
  }

  lemma ColonFound(attr: string, want: string)
    requires IsName(attr)
    ensures Find(attr + "=" + want, ':') == Find(want, ':') + |attr| + 1
  {
    var body, c := attr + "=" + want, Find(want, ':');
    forall i | 0 <= i < c + |attr| + 1 ensures body[i] != ':' {
      if i > |attr| {
        assert body[i] == want[i - |attr| - 1];
      }
    }
    assert c < |want| ==> body[c + |attr| + 1] == want[c];
  }

  /** Where ":=" starts in a value, and what lies before it. */
  lemma AssignParts(want: string)
    requires Index(want, ":=") >= 0
    ensures Find(want, ':') <= Index(want, ":=") < |want| - 1
    ensures want[Index(want, ":=")] == ':' && want[Index(want, ":=") + 1] == '='
  {
    var j := Index(want, ":=");
    assert want[j..j + 2] == ":=";
    assert want[j] == want[j..j + 2][0] && want[j + 1] == want[j..j + 2][1];
  }

  lemma CutBody(body: string, attr: string, want: string, c: nat, j: nat, front: nat, back: nat)
    requires body == attr + "=" + want && c <= |want| && j <= |want| && front == c + |attr| + 1 && back == j + |attr| + 1
    ensures body[..front] + body[back..] == attr + "=" + (want[..c] + want[j..])
  {
    assert body[..front] == attr + "=" + want[..c];
    assert body[back..] == want[j..];
  }

  lemma PlainStrips(attr: string, want: string)
    requires IsName(attr) && Index(want, ":=") >= 0
    ensures Plain(attr + "=" + want) == attr + "=" + Stripped(want)
  {
    AssignParts(want);
    AssignFound(attr, want);
    ColonFound(attr, want);
    StripsBody(attr, want, attr + "=" + want, Find(want, ':'), Index(want, ":=") + 1);
  }

  lemma StripsBody(attr: string, want: string, body: string, c: nat, j: nat)
    requires body == attr + "=" + want && Find(body, ':') == c + |attr| + 1 && Index(body, ":=") == j + |attr|
    requires c < j <= |want|
    ensures Plain(body) == attr + "=" + (want[..c] + want[j..])
  {
    PlainIs(body, c + |attr| + 1, j + |attr|);
    CutBody(body, attr, want, c, j, c + |attr| + 1, j + |attr| + 1);
  }

  lemma PlainIs(body: string, colon: nat, assign: nat)
    requires Find(body, ':') == colon && Index(body, ":=") == assign && 0 < colon <= assign
    ensures Plain(body) == body[..colon] + body[assign + 1..]
  {
  }

  /** A value cut open at a colon and at a later "=". */
  lemma Pieces(want: string, c: nat, j: nat)
    requires c < j < |want| && want[c] == ':' && want[j] == '='
    ensures want == want[..c] + [':'] + (want[c + 1..j] + ['='] + want[j + 1..])
    ensures want[..c] + want[j..] == want[..c] + ['='] + want[j + 1..]
  {
    assert want[c + 1..j] + ['='] + want[j + 1..] == want[c + 1..];
  }

  lemma PiecesMean(want: string, stripped: string, front: string, mid: string, post: string)
    requires want == front + [':'] + (mid + ['='] + post) && stripped == front + ['='] + post
    ensures Count(Unescape(stripped), ':') < Count(Unescape(want), ':')
    ensures ':' in Unescape(want) && '=' in Unescape(stripped)
    ensures forall x :: x in Unescape(stripped) ==> x in Unescape(want)
  {
    UnescapeApart(front, ':', mid + ['='] + post);
    UnescapeApart(mid, '=', post);
    UnescapeApart(front, '=', post);
    StrippedCounts(Unescape(front), Unescape(mid), Unescape(post));
  }

  /** The value asked for has more colons than the one it is taken for, which has an "=". */
  lemma StrippedMeans(want: string)
    requires Index(want, ":=") >= 0
    ensures Count(Unescape(Stripped(want)), ':') < Count(Unescape(want), ':')
    ensures ':' in Unescape(want) && '=' in Unescape(Stripped(want))
    ensures forall x :: x in Unescape(Stripped(want)) ==> x in Unescape(want)
  {
    var c, j := Find(want, ':'), Index(want, ":=") + 1;
    AssignParts(want);
    Pieces(want, c, j);
    PiecesMean(want, Stripped(want), want[..c], want[c + 1..j], want[j + 1..]);
  }

  lemma StrippedCounts(front: string, mid: string, post: string)
    ensures Count(front + ['='] + post, ':') < Count(front + [':'] + (mid + ['='] + post), ':')
    ensures ':' in front + [':'] + (mid + ['='] + post) && '=' in front + ['='] + post
  {
    CountAppend(front + ['='], post, ':');
    CountAppend(front, ['='], ':');
    CountAppend(front + [':'], mid + ['='] + post, ':');
    CountAppend(front, [':'], ':');
    CountAppend(mid + ['='], post, ':');
    CountAppend(mid, ['='], ':');
    assert Count([':'], ':') == 1 && Count(['='], ':') == 0;
  }

  // ---- which comparisons are read as printed ----

  /** The evaluator answers for the printed comparison what the comparison means. */
  predicate AsMeant(attr: string, units: seq<Unit>, entry: seq<Attr>) {
    MatchFilter(Print(Equal(attr, units)), entry, ASCII) == Some(Eval(Equal(attr, units), entry, ASCII))
  }

  lemma ReadBody(body: string, attr: string, read: string, entry: seq<Attr>)
    requires IsName(attr) && Plain(body) == attr + "=" + read
    ensures MatchBody(body, entry, ASCII) <==> MatchTerm(attr, read, entry, ASCII)
  {
    NameCut(attr, read);
  }

  /** The answer for any value printed after a name. */
  lemma AnswerOf(attr: string, units: seq<Unit>, entry: seq<Attr>, read: string)
    requires IsName(attr) && Plain(attr + "=" + PrintUnits(units)) == attr + "=" + read
    ensures MatchFilter(Print(Equal(attr, units)), entry, ASCII) == Some(MatchTerm(attr, read, entry, ASCII))
  {
    var f := Equal(attr, units);
    ReadBody(Inner(f), attr, read, entry);
    PlainBody(attr, PrintUnits(units));
    Dispatch(Print(f), Inner(f), entry, ASCII);
  }

  lemma StarIsPresence(attr: string, values: seq<bytes>)
    requires !EqualFold(attr, OBJECT_SID)
    ensures AnyMatches(attr, values, "*", ASCII) <==> values != []
  {
    forall i | 0 <= i < |values| ensures ValueMatches(attr, values[i], "*", ASCII) {
      AsciiMatches(Chars(values[i]), "*");
      assert Lower("*") == "*";
      StarTakesAll(Lower(Chars(values[i])));
    }
    assert values != [] ==> ValueMatches(attr, values[0], "*", ASCII);
  }

  lemma StarAnswer(attr: string, units: seq<Unit>, entry: seq<Attr>)
    requires IsName(attr) && PrintUnits(units) == "*" && AllReadable(units)
    ensures Value(units) == "*"
    ensures var vals := Lookup(entry, attr, ASCII);
            MatchFilter(Print(Equal(attr, units)), entry, ASCII) == Some(vals.Some? && vals.value != [])
  {
    NoAssignInStar();
    ComparisonRecovered(attr, "*");
    AnswerOf(attr, units, entry, "*");
    UnescapeInvertsPrint(units);
    UnescapeNothing("*");
  }

  /** A value that is only a star: the evaluator asks whether there are values, which is what it means but for SIDs. */
  lemma StarAsMeant(attr: string, units: seq<Unit>, entry: seq<Attr>)
    requires IsName(attr) && PrintUnits(units) == "*" && AllReadable(units) && !EqualFold(attr, OBJECT_SID)
    ensures AsMeant(attr, units, entry)
  {
    StarAnswer(attr, units, entry);
    var vals := Lookup(entry, attr, ASCII);
    if vals.Some? {
      StarIsPresence(attr, vals.value);
      MatchesIsHolds(attr, vals.value, "*", ASCII);
    }
  }

  lemma StarNotMeant(attr: string, units: seq<Unit>)
    requires IsName(attr) && PrintUnits(units) == "*" && AllReadable(units) && EqualFold(attr, OBJECT_SID)
    ensures !AsMeant(attr, units, [Attr(attr, [[]])])
  {
    StarAnswer(attr, units, [Attr(attr, [[]])]);
    LookupOne(attr, []);
    assert Sid.TextOf([]).Err?;
  }

  /** The text of a SID is made of digits, dashes and an S. */
  lemma SidTextHasNo(b: bytes, c: char)
    requires Sid.TextOf(b).Ok? && !IsDigit(c) && c != '-' && c != 'S'
    ensures Clean(Sid.TextOf(b).value, c)
  {
    var parts := Sid.Parts(b);
    forall i | 0 <= i < |parts| ensures Clean(parts[i], c) {
      DecDigits(b[0]);
      DecDigits(Fold(b[2..8]));
      if i >= 3 {
        DecDigits(Sid.Subs(b)[i - 3]);
      }
    }
    JoinClean(parts, '-', c);
  }

  lemma {:induction false} JoinClean(parts: seq<string>, sep: char, c: char)
    requires |parts| >= 1 && c != sep && AllClean(parts, c)
    ensures Clean(Join(parts, sep), c)
    decreases |parts|
  {
    if |parts| > 1 {
      JoinClean(parts[1..], sep, c);
    }
  }

  lemma LowerHas(s: string, c: char)
    requires c in ":="
    ensures c in Lower(s) <==> c in s
  {
    forall i | 0 <= i < |s| ensures Lower(s)[i] == c <==> s[i] == c {
      assert Lower(s)[i] == LowerChar(s[i]);
    }
  }

  /** So no SID is the value asked for if that has a ":" or an "=". */
  lemma NoSidMatches(value: bytes, want: string, c: char)
    requires c in ":=" && c in want
    ensures !SidMatches(value, want, ASCII)
  {
    LowerHas(want, c);
    if Sid.TextOf(value).Ok? {
      SidTextHasNo(value, c);
      LowerHas(Sid.TextOf(value).value, c);
    }
  }

  // ---- a value with ":=" ----

  lemma {:induction false} CountKept(s: string)
    ensures Count(Keep(s, NOT_STAR), ':') == Count(s, ':')
  {
    if s != "" {
      CountKept(s[1..]);
      CountAppend([s[0]], Keep(s[1..], NOT_STAR), ':');
      assert Count([s[0]], ':') == if s[0] == ':' then 1 else 0;
    }
  }

  lemma {:induction false} CountLower(s: string)
    ensures Count(Lower(s), ':') == Count(s, ':')
  {
    if s != "" {
      CountLower(s[1..]);
      assert Lower(s)[1..] == Lower(s[1..]);
    }
  }

  lemma FewerColons(want: string, t: string)
    requires Count(t, ':') < Count(want, ':')
    ensures !Glob(Lower(want), t)
  {
    CountLower(want);
    if Glob(Lower(want), t) {
      GlobCounts(Lower(want), t, ':');
    }
  }

  function Literally(s: string): (units: seq<Unit>)
    ensures Value(units) == s && forall i :: 0 <= i < |units| ==> units[i].c in s
  {
    seq(|s|, i requires 0 <= i < |s| => Lit(s[i]))
  }

  /** A value that is found for `read` and not meant by `want`, which has more colons. */
  lemma FoundInstead(want: string, read: string) returns (value: bytes)
    requires Count(read, ':') < Count(want, ':') && forall x :: x in read ==> x as int < 0x100
    ensures Matches(Chars(value), read, ASCII) && !Matches(Chars(value), want, ASCII)
  {
    value := StarlessValue(Literally(read));
    AsciiMatches(Chars(value), read);
    AsciiMatches(Chars(value), want);
    CountKept(Lower(read));
    CountLower(read);
    FewerColons(want, Lower(Chars(value)));
  }

  /** The evaluator compares with what is left of a value that has ":=". */
  lemma AssignAnswer(attr: string, units: seq<Unit>, entry: seq<Attr>)
    requires IsName(attr) && AllReadable(units) && Index(PrintUnits(units), ":=") >= 0
    ensures Value(units) == Unescape(PrintUnits(units))
    ensures var vals := Lookup(entry, attr, ASCII);
            MatchFilter(Print(Equal(attr, units)), entry, ASCII)
            == Some(vals.Some? && AnyMatches(attr, vals.value, Unescape(Stripped(PrintUnits(units))), ASCII))
  {
    var want := PrintUnits(units);
    PlainStrips(attr, want);
    AnswerOf(attr, units, entry, Stripped(want));
    UnescapeInvertsPrint(units);
    StrippedMeans(want);
    UnescapeNothing("*");
    assert Stripped(want) != "*";
  }

  lemma ValueForStripped(units: seq<Unit>) returns (value: bytes)
    requires AllReadable(units) && Index(PrintUnits(units), ":=") >= 0
    requires forall i :: 0 <= i < |units| ==> units[i].c as int < 0x100
    ensures Matches(Chars(value), Unescape(Stripped(PrintUnits(units))), ASCII) && !Matches(Chars(value), Value(units), ASCII)
  {
    var read := Unescape(Stripped(PrintUnits(units)));
    UnescapeInvertsPrint(units);
    StrippedMeans(PrintUnits(units));
    forall x | x in read ensures x as int < 0x100 {
      assert x in Value(units);
    }
    value := FoundInstead(Value(units), read);
  }

  lemma AssignNotMeant(attr: string, units: seq<Unit>) returns (entry: seq<Attr>)
    requires IsName(attr) && AllReadable(units) && Index(PrintUnits(units), ":=") >= 0 && !EqualFold(attr, OBJECT_SID)
    requires forall i :: 0 <= i < |units| ==> units[i].c as int < 0x100
    ensures !AsMeant(attr, units, entry) && MatchFilter(Print(Equal(attr, units)), entry, ASCII) == Some(true)
  {
    var value := ValueForStripped(units);
    entry := [Attr(attr, [value])];
    AssignAnswer(attr, units, entry);
    LookupOne(attr, value);
    OnlyOne(attr, value, Value(units));
    MatchesIsHolds(attr, [value], Value(units), ASCII);
    OnlyOne(attr, value, Unescape(Stripped(PrintUnits(units))));
  }

  lemma OnlyOne(attr: string, value: bytes, want: string)
    requires !EqualFold(attr, OBJECT_SID)
    ensures AnyMatches(attr, [value], want, ASCII) <==> Matches(Chars(value), want, ASCII)
  {
    assert [value][0] == value;
  }

  lemma NoSidFound(attr: string, values: seq<bytes>, want: string, c: char)
    requires EqualFold(attr, OBJECT_SID) && c in ":=" && c in want
    ensures !AnyMatches(attr, values, want, ASCII)
  {
    forall i | 0 <= i < |values| ensures !ValueMatches(attr, values[i], want, ASCII) {
      NoSidMatches(values[i], want, c);
    }
  }

  /** No SID is found for a value with ":=", and none was meant. */
  lemma AssignForSids(attr: string, units: seq<Unit>, entry: seq<Attr>)
    requires IsName(attr) && AllReadable(units) && Index(PrintUnits(units), ":=") >= 0 && EqualFold(attr, OBJECT_SID)
    ensures AsMeant(attr, units, entry)
  {
    var read := Unescape(Stripped(PrintUnits(units)));
    AssignAnswer(attr, units, entry);
    StrippedMeans(PrintUnits(units));
    var vals := Lookup(entry, attr, ASCII);
    if vals.Some? {
      NoSidFound(attr, vals.value, Value(units), ':');
      NoSidFound(attr, vals.value, read, '=');
    }
    MeantWhen(attr, units, entry, read);
  }

  lemma MeantWhen(attr: string, units: seq<Unit>, entry: seq<Attr>, read: string)
    requires var vals := Lookup(entry, attr, ASCII);
             && MatchFilter(Print(Equal(attr, units)), entry, ASCII) == Some(vals.Some? && AnyMatches(attr, vals.value, read, ASCII))
             && (vals.Some? ==> (AnyMatches(attr, vals.value, read, ASCII) <==> AnyMatches(attr, vals.value, Value(units), ASCII)))
    ensures AsMeant(attr, units, entry)
  {
    if Lookup(entry, attr, ASCII).Some? {
      MatchesIsHolds(attr, Lookup(entry, attr, ASCII).value, Value(units), ASCII);
    }
  }

  /** The evaluator answers for a printed comparison what it means, on every entry, exactly when its value has no ":=";
      for a SID, exactly when it is not a lone star. */
  lemma ComparisonExactly(attr: string, units: seq<Unit>)
    requires IsName(attr) && AllReadable(units) && forall i :: 0 <= i < |units| ==> units[i].c as int < 0x100
    ensures (forall entry: seq<Attr> :: AsMeant(attr, units, entry))
            <==> if EqualFold(attr, OBJECT_SID) then PrintUnits(units) != "*" else Index(PrintUnits(units), ":=") < 0
  {
    if PrintUnits(units) == "*" {
      NoAssignInStar();
      if EqualFold(attr, OBJECT_SID) {
        StarNotMeant(attr, units);
      } else {
        forall entry: seq<Attr> ensures AsMeant(attr, units, entry) {
          StarAsMeant(attr, units, entry);
        }
      }
    } else if Index(PrintUnits(units), ":=") < 0 {
      forall entry: seq<Attr> ensures AsMeant(attr, units, entry) {
        MatchIsEval(Equal(attr, units), entry, ASCII);
      }
    } else if EqualFold(attr, OBJECT_SID) {
      forall entry: seq<Attr> ensures AsMeant(attr, units, entry) {
        AssignForSids(attr, units, entry);
      }
    } else {
      var entry := AssignNotMeant(attr, units);
    }
  }
}
