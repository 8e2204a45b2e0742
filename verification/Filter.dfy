// The filter evaluator of internal/adtest/handlers.go, against the meaning of the filters that
// search.go and its library print (section 3 of RFC 4515). Text is bytes: every char is below 256.
module Filter {
  import opened Wrappers
  import opened Bytes
  import opened Lists
  import opened Text
  import opened Wildcard
  import Sid

  /** One attribute of an entry; an entry is the list of them in the order its map is iterated. */
  datatype Attr = Attr(name: string, values: seq<bytes>)

  function Chars(b: bytes): (s: string)
    ensures |s| == |b|
  {
    seq(|b|, i requires 0 <= i < |b| => b[i] as char)
  }

  // ---- escaping ----

  function Unescape(s: string): string {
    if s == "" then ""
    else if s[0] != '\\' || |s| <= 2 || Unhex(s[1]).None? || Unhex(s[2]).None? then [s[0]] + Unescape(s[1..])
    else [(16 * Unhex(s[1]).value + Unhex(s[2]).value) as char] + Unescape(s[3..])
  }

  lemma {:induction false} UnescapeNothing(s: string)
    requires Clean(s, '\\')
    ensures Unescape(s) == s
  {
    if s != "" {
      UnescapeNothing(s[1..]);
      assert [s[0]] + s[1..] == s;
    }
  }

  lemma Joined(a: string, b: string, c: string)
    ensures a + b + c == a + (b + c)
  {
  }

  /** The escape that starts at i, if one does. */
  function EscapeAt(s: string, i: nat): Option<char>
    requires i < |s|
  {
    if s[i] != '\\' || i + 2 >= |s| || Unhex(s[i + 1]).None? || Unhex(s[i + 2]).None? then None
    else Some((16 * Unhex(s[i + 1]).value + Unhex(s[i + 2]).value) as char)
  }

  lemma UnescapeAt(s: string, i: nat)
    requires i < |s|
    ensures EscapeAt(s, i).None? ==> Unescape(s[i..]) == [s[i]] + Unescape(s[i + 1..])
    ensures EscapeAt(s, i).Some? ==> i + 2 < |s| && Unescape(s[i..]) == [EscapeAt(s, i).value] + Unescape(s[i + 3..])
  {
    var rest := s[i..];
    assert rest[0] == s[i] && rest[1..] == s[i + 1..];
    if i + 2 < |s| {
      assert rest[1] == s[i + 1] && rest[2] == s[i + 2] && rest[3..] == s[i + 3..];
    }
  }

  method UnescapeFilterValue(s: string) returns (out: string)
    ensures out == Unescape(s)
  {
    if Find(s, '\\') == |s| {
      UnescapeNothing(s);
      return s;
    }
    out := "";
    var i := 0;
    while i < |s|
      invariant 0 <= i <= |s|
      invariant Unescape(s) == out + Unescape(s[i..])
    {
      UnescapeAt(s, i);
      var c := EscapeAt(s, i);
      if c.None? {
        Joined(out, [s[i]], Unescape(s[i + 1..]));
        out := out + [s[i]];
        i := i + 1;
        continue;
      }
      Joined(out, [c.value], Unescape(s[i + 3..]));
      out := out + [c.value];
      i := i + 3;
    }
  }

  /** One character of a printed value: as itself, or as a backslash and two hex digits. */
  datatype Unit = Lit(c: char) | Esc(c: char)

  function PrintUnit(u: Unit): string {
    match u
    case Lit(c) => [c]
    case Esc(c) => ['\\', HexDigit(c as int / 16 % 16), HexDigit(c as int % 16)]
  }

  function PrintUnits(units: seq<Unit>): string {
    if units == [] then "" else PrintUnit(units[0]) + PrintUnits(units[1..])
  }

  function Value(units: seq<Unit>): (s: string)
    ensures |s| == |units|
  {
    seq(|units|, i requires 0 <= i < |units| => units[i].c)
  }

  /** A unit the evaluator can read back: special characters are escaped, escapes are of bytes. */
  predicate Readable(u: Unit) {
    match u
    case Lit(c) => c != '(' && c != ')' && c != '\\'
    case Esc(c) => c as int < 0x100
  }

  predicate AllReadable(units: seq<Unit>) {
    forall i :: 0 <= i < |units| ==> Readable(units[i])
  }

  lemma UnescapeUnit(u: Unit, rest: string)
    requires Readable(u)
    ensures Unescape(PrintUnit(u) + rest) == [u.c] + Unescape(rest)
  {
    var s := PrintUnit(u) + rest;
    if u.Esc? {
      var n := u.c as int;
      UnhexDigit(n / 16);
      UnhexDigit(n % 16);
      assert s[0] == '\\' && s[1] == HexDigit(n / 16) && s[2] == HexDigit(n % 16);
      assert s[3..] == rest;
    } else {
      assert s[1..] == rest;
    }
  }

  /** Unescaping undoes any mixture of literal and escaped characters. */
  lemma {:induction false} UnescapeInvertsPrint(units: seq<Unit>)
    requires AllReadable(units)
    ensures Unescape(PrintUnits(units)) == Value(units)
  {
    if units != [] {
      UnescapeUnit(units[0], PrintUnits(units[1..]));
      UnescapeInvertsPrint(units[1..]);
      assert Value(units) == [units[0].c] + Value(units[1..]);
    }
  }

  function Escaped(b: bytes): (units: seq<Unit>)
    ensures |units| == |b|
  {
    seq(|b|, i requires 0 <= i < |b| => Esc(b[i] as char))
  }

  lemma EscapedStep(b: bytes, i: nat)
    requires i < |b|
    ensures PrintUnits(Escaped(b)[i..])
            == ['\\', HexDigit(b[i] / 16), HexDigit(b[i] % 16)] + PrintUnits(Escaped(b)[i + 1..])
  {
    var units := Escaped(b)[i..];
    assert units[0] == Esc(b[i] as char) && units[1..] == Escaped(b)[i + 1..];
  }

  lemma EscapedReadsBack(b: bytes)
    ensures Unescape(PrintUnits(Escaped(b))) == Chars(b)
  {
    UnescapeInvertsPrint(Escaped(b));
    assert Value(Escaped(b)) == Chars(b);
  }

  method EscapeBinary(b: bytes) returns (out: string)
    ensures out == PrintUnits(Escaped(b)) && Unescape(out) == Chars(b)
  {
    out := "";
    for i := 0 to |b|
      invariant PrintUnits(Escaped(b)) == out + PrintUnits(Escaped(b)[i..])
    {
      EscapedStep(b, i);
      out := out + ['\\', HexDigit(b[i] / 16), HexDigit(b[i] % 16)];
    }
    EscapedReadsBack(b);
  }

  // ---- splitting a conjunction ----

  /** The balanced terms of s, given the depth reached so far and the term under way. */
  function SplitFrom(s: string, depth: int, cur: string): (terms: seq<string>)
    ensures forall i :: 0 <= i < |terms| ==> |terms[i]| <= |cur| + |s|
    decreases |s|
  {
    if s == "" then []
    else if s[0] == '(' then
      if depth == 0 then SplitFrom(s[1..], 1, "(")
      else SplitFrom(s[1..], depth + 1, if depth > 0 then cur + "(" else "")
    else if s[0] == ')' then
      if depth == 1 then [cur + ")"] + SplitFrom(s[1..], 0, "")
      else SplitFrom(s[1..], depth - 1, if depth > 1 then cur + ")" else "")
    else SplitFrom(s[1..], depth, if depth > 0 then cur + [s[0]] else "")
  }

  lemma SplitFirst(s: string, i: nat, depth: int, cur: string)
    requires i < |s|
    ensures SplitFrom(s[i..], depth, cur)
            == if s[i] == '(' then
                 SplitFrom(s[i + 1..], depth + 1, if depth == 0 then "(" else if depth > 0 then cur + "(" else "")
               else if s[i] == ')' then
                 if depth == 1 then [cur + ")"] + SplitFrom(s[i + 1..], 0, "")
                 else SplitFrom(s[i + 1..], depth - 1, if depth > 1 then cur + ")" else "")
               else SplitFrom(s[i + 1..], depth, if depth > 0 then cur + [s[i]] else "")
  {
    assert s[i..][0] == s[i] && s[i..][1..] == s[i + 1..];
  }

  method SplitTerms(s: string) returns (out: seq<string>)
    ensures out == SplitFrom(s, 0, "")
  {
    out := [];
    var depth: int, start := 0, 0;
    for i := 0 to |s|
      invariant 0 <= start <= i
      invariant SplitFrom(s, 0, "") == out + SplitFrom(s[i..], depth, if depth > 0 then s[start..i] else "")
    {
      SplitFirst(s, i, depth, if depth > 0 then s[start..i] else "");
      assert s[start..i + 1] == s[start..i] + [s[i]];
      if s[i] == '(' {
        if depth == 0 {
          start := i;
          assert s[start..i + 1] == "(";
        }
        depth := depth + 1;
      } else if s[i] == ')' {
        depth := depth - 1;
        if depth == 0 {
          out := out + [s[start..i + 1]];
        }
      }
    }
    assert s[|s|..] == "" && out + [] == out;
  }

  // ---- the evaluator ----

  function Lookup(entry: seq<Attr>, name: string, fold: Folding): Option<seq<bytes>> {
    if entry == [] then None
    else if fold.same(entry[0].name, name) then Some(entry[0].values)
    else Lookup(entry[1..], name, fold)
  }

  /** No two attributes of the entry are one name in two spellings. */
  predicate OneSpelling(entry: seq<Attr>, fold: Folding) {
    forall i, j :: 0 <= i < j < |entry| ==> !fold.same(entry[i].name, entry[j].name)
  }

  lemma SameName(fold: Folding, a: string, b: string, name: string)
    requires Equates(fold)
    ensures fold.same(a, name) && fold.same(b, name) ==> fold.same(a, b)
  {
    assert fold.same(b, name) ==> fold.same(name, b);
  }

  lemma {:induction false} LookupFinds(entry: seq<Attr>, k: nat, name: string, fold: Folding)
    requires Equates(fold) && OneSpelling(entry, fold) && k < |entry| && fold.same(entry[k].name, name)
    ensures Lookup(entry, name, fold) == Some(entry[k].values)
  {
    if k > 0 {
      SameName(fold, entry[0].name, entry[k].name, name);
      LookupFinds(entry[1..], k - 1, name, fold);
    }
  }

  lemma {:induction false} LookupMisses(entry: seq<Attr>, name: string, fold: Folding)
    ensures Lookup(entry, name, fold).None? <==> forall i :: 0 <= i < |entry| ==> !fold.same(entry[i].name, name)
  {
    if entry != [] {
      LookupMisses(entry[1..], name, fold);
      assert forall i :: 0 < i < |entry| ==> entry[i] == entry[1..][i - 1];
    }
  }

  /** The order of the map iteration does not matter then. */
  lemma LookupInAnyOrder(entry: seq<Attr>, other: seq<Attr>, name: string, fold: Folding)
    requires Equates(fold) && OneSpelling(entry, fold) && OneSpelling(other, fold) && forall a :: a in entry <==> a in other
    ensures Lookup(entry, name, fold) == Lookup(other, name, fold)
  {
    LookupMisses(entry, name, fold);
    LookupMisses(other, name, fold);
    if k :| 0 <= k < |entry| && fold.same(entry[k].name, name) {
      assert entry[k] in other;
      var m :| 0 <= m < |other| && other[m] == entry[k];
      LookupFinds(entry, k, name, fold);
      LookupFinds(other, m, name, fold);
    } else {
      forall m | 0 <= m < |other| ensures !fold.same(other[m].name, name) {
        assert other[m] in entry;
      }
    }
  }

  /** The extensible form "attr:<rule>:=value" is read as "attr=value". */
  function Plain(body: string): string {
    var colon, assign := Find(body, ':'), Index(body, ":=");
    if 0 < colon < |body| && assign >= 0 then body[..colon] + body[assign + 1..] else body
  }

  const OBJECT_SID := "objectSid"

  predicate SidMatches(have: bytes, want: string, fold: Folding) {
    Sid.TextOf(have).Ok? && fold.same(Sid.TextOf(have).value, want)
  }

  predicate ValueMatches(attr: string, have: bytes, want: string, fold: Folding) {
    if fold.same(attr, OBJECT_SID) then SidMatches(have, want, fold) else Matches(Chars(have), want, fold)
  }

  predicate AnyMatches(attr: string, values: seq<bytes>, want: string, fold: Folding) {
    exists i :: 0 <= i < |values| && ValueMatches(attr, values[i], want, fold)
  }

  predicate MatchTerm(attr: string, want: string, entry: seq<Attr>, fold: Folding) {
    var vals := Lookup(entry, attr, fold);
    vals.Some? && if want == "*" then vals.value != [] else AnyMatches(attr, vals.value, Unescape(want), fold)
  }

  predicate MatchBody(body: string, entry: seq<Attr>, fold: Folding) {
    var plain := Plain(body);
    var i := Find(plain, '=');
    i < |plain| && MatchTerm(plain[..i], plain[i + 1..], entry, fold)
  }

  /** None is the slice panic on a filter that is only an opening. */
  function MatchFilter(filter: string, entry: seq<Attr>, fold: Folding): Option<bool>
    decreases |filter|, 0
  {
    var f := Trim(filter);
    if f == "" then Some(true)
    else if HasPrefix(f, "(&") then
      if |f| < 3 then None else MatchAll(SplitFrom(f[2..|f| - 1], 0, ""), |f| - 3, entry, fold, false)
    else if HasPrefix(f, "(|") then
      if |f| < 3 then None else MatchAll(SplitFrom(f[2..|f| - 1], 0, ""), |f| - 3, entry, fold, true)
    else if HasPrefix(f, "(!") then
      if |f| < 3 then None
      else
        match MatchFilter(f[2..|f| - 1], entry, fold)
        case None => None
        case Some(b) => Some(!b)
    else if !HasPrefix(f, "(") || !HasSuffix(f, ")") || |f| < 2 then Some(false)
    else Some(MatchBody(f[1..|f| - 1], entry, fold))
  }

  /** The terms in turn, up to the first one that answers stop. */
  function MatchAll(terms: seq<string>, n: nat, entry: seq<Attr>, fold: Folding, stop: bool): Option<bool>
    requires forall i :: 0 <= i < |terms| ==> |terms[i]| <= n
    decreases n, |terms| + 1
  {
    if terms == [] then Some(!stop)
    else
      match MatchFilter(terms[0], entry, fold)
      case None => None
      case Some(b) => if b == stop then Some(stop) else MatchAll(terms[1..], n, entry, fold, stop)
  }

  // ---- what the printed filters mean ----

  datatype Filter =
    | And(terms: seq<Filter>)
    | Or(terms: seq<Filter>)
    | Not(term: Filter)
    | Present(attr: string)
    | Equal(attr: string, value: seq<Unit>)

  function Print(f: Filter): string
    decreases f, 1
  {
    "(" + Inner(f) + ")"
  }

  function Inner(f: Filter): string
    decreases f, 0
  {
    match f
    case And(terms) => "&" + PrintAll(terms)
    case Or(terms) => "|" + PrintAll(terms)
    case Not(term) => "!" + Print(term)
    case Present(attr) => attr + "=" + "*"
    case Equal(attr, value) => attr + "=" + PrintUnits(value)
  }

  function PrintAll(fs: seq<Filter>): string
    decreases fs, 2
  {
    if fs == [] then "" else Print(fs[0]) + PrintAll(fs[1..])
  }

  /** An attribute description without the characters of the filter syntax. */
  predicate IsName(attr: string) {
    && (forall i :: 0 <= i < |attr| ==> attr[i] !in "()=:")
    && (attr != "" ==> attr[0] !in "&|!")
  }

  /** A printed value the evaluator takes for the value it is. */
  predicate IsValue(units: seq<Unit>) {
    AllReadable(units) && PrintUnits(units) != "*" && Index(PrintUnits(units), ":=") < 0
  }

  predicate Printable(f: Filter) {
    match f
    case And(terms) => forall i :: 0 <= i < |terms| ==> Printable(terms[i])
    case Or(terms) => forall i :: 0 <= i < |terms| ==> Printable(terms[i])
    case Not(term) => Printable(term)
    case Present(attr) => IsName(attr)
    case Equal(attr, value) => IsName(attr) && IsValue(value)
  }

  predicate Eval(f: Filter, entry: seq<Attr>, fold: Folding) {
    match f
    case And(terms) => forall i :: 0 <= i < |terms| ==> Eval(terms[i], entry, fold)
    case Or(terms) => exists i :: 0 <= i < |terms| && Eval(terms[i], entry, fold)
    case Not(term) => !Eval(term, entry, fold)
    case Present(attr) => Lookup(entry, attr, fold).Some? && Lookup(entry, attr, fold).value != []
    case Equal(attr, value) =>
      Lookup(entry, attr, fold).Some? && Holds(attr, Lookup(entry, attr, fold).value, Value(value), fold)
  }

  /** What a comparison means: of a SID, that its parts written out with dashes are the text asked for; of anything else,
      that some value matches. */
  predicate Holds(attr: string, values: seq<bytes>, want: string, fold: Folding) {
    if fold.same(attr, OBJECT_SID) then
      exists i :: 0 <= i < |values| && Sid.Exact(values[i]) && fold.same(Join(Sid.Parts(values[i]), '-'), want)
    else AnySame(values, want, fold)
  }

  predicate AnySame(values: seq<bytes>, want: string, fold: Folding) {
    exists i :: 0 <= i < |values| && Matches(Chars(values[i]), want, fold)
  }

  /** The evaluator's loop over the values is that. */
  lemma MatchesIsHolds(attr: string, values: seq<bytes>, want: string, fold: Folding)
    ensures AnyMatches(attr, values, want, fold) <==> Holds(attr, values, want, fold)
  {
    forall i | 0 <= i < |values|
      ensures ValueMatches(attr, values[i], want, fold)
              <==> if fold.same(attr, OBJECT_SID) then Sid.Exact(values[i]) && fold.same(Join(Sid.Parts(values[i]), '-'), want)
                   else Matches(Chars(values[i]), want, fold)
    {
    }
  }

  // ---- the printed terms are recovered ----

  predicate NoParens(s: string) {
    forall i :: 0 <= i < |s| ==> s[i] != '(' && s[i] != ')'
  }

  lemma {:induction false} SplitText(s: string, rest: string, depth: int, cur: string)
    requires NoParens(s) && depth > 0
    ensures SplitFrom(s + rest, depth, cur) == SplitFrom(rest, depth, cur + s)
  {
    if s == "" {
      assert s + rest == rest && cur + s == cur;
    } else {
      assert (s + rest)[1..] == s[1..] + rest;
      SplitText(s[1..], rest, depth, cur + [s[0]]);
      assert cur + [s[0]] + s[1..] == cur + s;
    }
  }

  lemma {:induction false} UnitsNoParens(units: seq<Unit>)
    requires AllReadable(units)
    ensures NoParens(PrintUnits(units))
  {
    if units != [] {
      UnitsNoParens(units[1..]);
    }
  }

  /** Inside a term, a printed filter is passed over whole. */
  lemma {:induction false} SplitInner(f: Filter, rest: string, depth: int, cur: string)
    requires Printable(f) && depth > 0
    ensures SplitFrom(Inner(f) + rest, depth, cur) == SplitFrom(rest, depth, cur + Inner(f))
    decreases f, 1
  {
    match f
    case And(terms) =>
      SplitNested("&", terms, rest, depth, cur);
    case Or(terms) =>
      SplitNested("|", terms, rest, depth, cur);
    case Not(term) =>
      Joined("!", Print(term), rest);
      SplitText("!", Print(term) + rest, depth, cur);
      SplitTerm(term, rest, depth, cur + "!");
      Joined(cur, "!", Print(term));
    case Present(attr) => SplitText(Inner(f), rest, depth, cur);
    case Equal(attr, value) =>
      UnitsNoParens(value);
      SplitText(Inner(f), rest, depth, cur);
  }

  lemma {:induction false} SplitNested(op: string, terms: seq<Filter>, rest: string, depth: int, cur: string)
    requires (forall i :: 0 <= i < |terms| ==> Printable(terms[i])) && depth > 0 && NoParens(op)
    ensures SplitFrom(op + PrintAll(terms) + rest, depth, cur) == SplitFrom(rest, depth, cur + (op + PrintAll(terms)))
    decreases terms, 4
  {
    Joined(op, PrintAll(terms), rest);
    SplitText(op, PrintAll(terms) + rest, depth, cur);
    SplitAll(terms, rest, depth, cur + op);
    Joined(cur, op, PrintAll(terms));
  }

  lemma {:induction false} SplitTerm(f: Filter, rest: string, depth: int, cur: string)
    requires Printable(f) && depth > 0
    ensures SplitFrom(Print(f) + rest, depth, cur) == SplitFrom(rest, depth, cur + Print(f))
    decreases f, 2
  {
    var s := Print(f) + rest;
    var close := ")" + rest;
    assert s[0] == '(' && s[1..] == Inner(f) + close;
    SplitInner(f, close, depth + 1, cur + "(");
    assert close[0] == ')' && close[1..] == rest;
    assert cur + "(" + Inner(f) + ")" == cur + Print(f);
  }

  lemma {:induction false} SplitAll(fs: seq<Filter>, rest: string, depth: int, cur: string)
    requires (forall i :: 0 <= i < |fs| ==> Printable(fs[i])) && depth > 0
    ensures SplitFrom(PrintAll(fs) + rest, depth, cur) == SplitFrom(rest, depth, cur + PrintAll(fs))
    decreases fs, 3
  {
    if fs == [] {
      assert PrintAll(fs) + rest == rest && cur + PrintAll(fs) == cur;
    } else {
      Joined(Print(fs[0]), PrintAll(fs[1..]), rest);
      SplitTerm(fs[0], PrintAll(fs[1..]) + rest, depth, cur);
      SplitAll(fs[1..], rest, depth, cur + Print(fs[0]));
      Joined(cur, Print(fs[0]), PrintAll(fs[1..]));
    }
  }

  function Texts(fs: seq<Filter>): (r: seq<string>)
    ensures |r| == |fs|
    ensures forall i :: 0 <= i < |fs| ==> r[i] == Print(fs[i])
  {
    if fs == [] then [] else [Print(fs[0])] + Texts(fs[1..])
  }

  /** Splitting a printed conjunction gives back exactly the printed terms. */
  lemma {:induction false} TermsRecovered(fs: seq<Filter>)
    requires forall i :: 0 <= i < |fs| ==> Printable(fs[i])
    ensures SplitFrom(PrintAll(fs), 0, "") == Texts(fs)
    decreases |fs|
  {
    if fs != [] {
      var f, rest := fs[0], PrintAll(fs[1..]);
      var s := Print(f) + rest;
      var close := ")" + rest;
      assert s[0] == '(' && s[1..] == Inner(f) + close;
      SplitInner(f, close, 1, "(");
      assert close[0] == ')' && close[1..] == rest;
      TermsRecovered(fs[1..]);
    }
  }

  // ---- one printed comparison is recovered ----

  lemma NameCut(attr: string, want: string)
    requires IsName(attr)
    ensures var body := attr + "=" + want;
            Find(body, '=') == |attr| && body[..|attr|] == attr && body[|attr| + 1..] == want
  {
    assert attr + "=" + want == attr + ['='] + want;
    FindAfter(attr, '=', want);
  }

  lemma AssignInValue(attr: string, want: string, i: int)
    requires IsName(attr)
    ensures IsAt(attr + "=" + want, ":=", i) <==> IsAt(want, ":=", i - |attr| - 1)
  {
    var body := attr + "=" + want;
    if IsAt(body, ":=", i) {
      assert body[i..i + 2] == ":=" && body[i] == body[i..i + 2][0];
      assert i > |attr|;
      assert want[i - |attr| - 1..i - |attr| + 1] == body[i..i + 2];
    }
    if IsAt(want, ":=", i - |attr| - 1) {
      assert want[i - |attr| - 1..i - |attr| + 1] == body[i..i + 2];
    }
  }

  /** The evaluator reads a printed comparison as it was printed exactly when the printed value has no ":=". */
  lemma ComparisonRecovered(attr: string, want: string)
    requires IsName(attr)
    ensures Plain(attr + "=" + want) == attr + "=" + want <==> Index(want, ":=") < 0
  {
    var body := attr + "=" + want;
    if Index(want, ":=") >= 0 {
      var i := Index(want, ":=") + |attr| + 1;
      AssignInValue(attr, want, i);
      IndexIsFirst(body, ":=", i);
      var k := Index(body, ":=");
      IsAtStarts(body, ":=", k);
      assert Find(body, ':') <= k;
      assert body[0] != ':';
      assert |Plain(body)| < |body|;
    } else if Index(body, ":=") >= 0 {
      AssignInValue(attr, want, Index(body, ":="));
      IndexIsFirst(want, ":=", Index(body, ":=") - |attr| - 1);
    }
  }

  lemma MatchPrintedBody(attr: string, want: string, entry: seq<Attr>, fold: Folding)
    requires IsName(attr) && Index(want, ":=") < 0
    ensures MatchBody(attr + "=" + want, entry, fold) <==> MatchTerm(attr, want, entry, fold)
  {
    ComparisonRecovered(attr, want);
    NameCut(attr, want);
  }

  // ---- the main result ----

  lemma {:induction false} MatchAllTexts(fs: seq<Filter>, n: nat, entry: seq<Attr>, fold: Folding, stop: bool)
    requires forall i :: 0 <= i < |fs| ==> Printable(fs[i]) && |Print(fs[i])| <= n
    ensures MatchAll(Texts(fs), n, entry, fold, stop)
            == Some(if exists i :: 0 <= i < |fs| && Eval(fs[i], entry, fold) == stop then stop else !stop)
    decreases fs, 1
  {
    if fs != [] {
      MatchIsEval(fs[0], entry, fold);
      MatchAllTexts(fs[1..], n, entry, fold, stop);
      assert Texts(fs)[1..] == Texts(fs[1..]);
      if i :| 0 < i < |fs| && Eval(fs[i], entry, fold) == stop {
        assert Eval(fs[1..][i - 1], entry, fold) == stop;
      }
    }
  }

  lemma OpensWith(text: string, inner: string, opening: string, c: char)
    requires text == "(" + inner + ")" && opening == ['(', c] && c != ')'
    ensures HasPrefix(text, opening) <==> inner != "" && inner[0] == c
    ensures inner != "" ==> text[2..|text| - 1] == inner[1..]
  {
    if inner != "" {
      assert text[..2] == ['(', inner[0]];
    } else {
      assert text[..2] == ['(', ')'];
    }
  }

  lemma Wrapped(text: string, inner: string)
    requires text == "(" + inner + ")"
    ensures Trim(text) == text && |text| == |inner| + 2 && text[1..|text| - 1] == inner
    ensures HasPrefix(text, "(") && HasSuffix(text, ")")
  {
    TrimNothing(text);
  }

  /** A parenthesised text is dispatched on the character after its opening. */
  lemma Dispatch(text: string, inner: string, entry: seq<Attr>, fold: Folding)
    requires text == "(" + inner + ")"
    ensures inner == "" || inner[0] !in "&|!" ==> MatchFilter(text, entry, fold) == Some(MatchBody(inner, entry, fold))
    ensures inner != "" && inner[0] == '&' ==>
              MatchFilter(text, entry, fold) == MatchAll(SplitFrom(inner[1..], 0, ""), |inner| - 1, entry, fold, false)
    ensures inner != "" && inner[0] == '|' ==>
              MatchFilter(text, entry, fold) == MatchAll(SplitFrom(inner[1..], 0, ""), |inner| - 1, entry, fold, true)
    ensures inner != "" && inner[0] == '!' && MatchFilter(inner[1..], entry, fold).Some? ==>
              MatchFilter(text, entry, fold) == Some(!MatchFilter(inner[1..], entry, fold).value)
  {
    Wrapped(text, inner);
    OpensWith(text, inner, "(&", '&');
    OpensWith(text, inner, "(|", '|');
    OpensWith(text, inner, "(!", '!');
  }

  lemma {:induction false} EachFits(fs: seq<Filter>, i: nat)
    requires i < |fs|
    ensures |Print(fs[i])| <= |PrintAll(fs)|
  {
    if i > 0 {
      EachFits(fs[1..], i - 1);
    }
  }

  lemma MatchPrinted(attr: string, want: string, f: Filter, entry: seq<Attr>, fold: Folding)
    requires IsName(attr) && Index(want, ":=") < 0 && Inner(f) == attr + "=" + want
    ensures MatchFilter(Print(f), entry, fold) == Some(MatchTerm(attr, want, entry, fold))
  {
    MatchPrintedBody(attr, want, entry, fold);
    PlainBody(attr, want);
    Dispatch(Print(f), Inner(f), entry, fold);
  }

  lemma MatchJoined(f: Filter, op: char, entry: seq<Attr>, fold: Folding, stop: bool, b: bool)
    requires op == (if stop then '|' else '&') && Inner(f) != "" && Inner(f)[0] == op
    requires MatchAll(SplitFrom(Inner(f)[1..], 0, ""), |Inner(f)| - 1, entry, fold, stop) == Some(b)
    ensures MatchFilter(Print(f), entry, fold) == Some(b)
  {
    Dispatch(Print(f), Inner(f), entry, fold);
  }

  lemma MatchNegated(term: Filter, entry: seq<Attr>, fold: Folding, b: bool)
    requires MatchFilter(Print(term), entry, fold) == Some(b)
    ensures MatchFilter(Print(Not(term)), entry, fold) == Some(!b)
  {
    assert Inner(Not(term))[1..] == Print(term);
    Dispatch(Print(Not(term)), Inner(Not(term)), entry, fold);
  }

  lemma MatchComparison(attr: string, value: seq<Unit>, entry: seq<Attr>, fold: Folding)
    requires IsName(attr) && IsValue(value)
    ensures MatchFilter(Print(Equal(attr, value)), entry, fold) == Some(Eval(Equal(attr, value), entry, fold))
  {
    MatchPrinted(attr, PrintUnits(value), Equal(attr, value), entry, fold);
    UnescapeInvertsPrint(value);
    if Lookup(entry, attr, fold).Some? {
      MatchesIsHolds(attr, Lookup(entry, attr, fold).value, Value(value), fold);
    }
  }

  /** Printing a filter and matching it means what the filter means, for every filter and every entry. */
  lemma {:induction false} MatchIsEval(f: Filter, entry: seq<Attr>, fold: Folding)
    requires Printable(f)
    ensures MatchFilter(Print(f), entry, fold) == Some(Eval(f, entry, fold))
    decreases f, 1
  {
    match f
    case And(terms) =>
      MatchPrintedList(terms, '&', Inner(f), entry, fold, false);
      MatchJoined(f, '&', entry, fold, false, Eval(f, entry, fold));
    case Or(terms) =>
      MatchPrintedList(terms, '|', Inner(f), entry, fold, true);
      MatchJoined(f, '|', entry, fold, true, Eval(f, entry, fold));
    case Not(term) =>
      MatchIsEval(term, entry, fold);
      MatchNegated(term, entry, fold, Eval(term, entry, fold));
    case Present(attr) =>
      NoAssignInStar();
      MatchPrinted(attr, "*", f, entry, fold);
    case Equal(attr, value) =>
      MatchComparison(attr, value, entry, fold);
  }

  lemma {:induction false} MatchPrintedList(fs: seq<Filter>, op: char, inner: string, entry: seq<Attr>, fold: Folding, stop: bool)
    requires (forall i :: 0 <= i < |fs| ==> Printable(fs[i])) && inner == [op] + PrintAll(fs)
    ensures MatchAll(SplitFrom(inner[1..], 0, ""), |inner| - 1, entry, fold, stop)
            == Some(if exists i :: 0 <= i < |fs| && Eval(fs[i], entry, fold) == stop then stop else !stop)
    decreases fs, 2
  {
    assert inner[1..] == PrintAll(fs);
    TermsRecovered(fs);
    forall i | 0 <= i < |fs| ensures |Print(fs[i])| <= |inner| - 1 {
      EachFits(fs, i);
    }
    MatchAllTexts(fs, |inner| - 1, entry, fold, stop);
  }

  lemma NoAssignInStar()
    ensures Index("*", ":=") < 0
  {
  }

  lemma PlainBody(attr: string, want: string)
    requires IsName(attr)
    ensures (attr + "=" + want)[0] !in "&|!"
  {
    if attr == "" {
      assert (attr + "=" + want)[0] == '=';
    } else {
      assert (attr + "=" + want)[0] == attr[0];
    }
  }

  // ---- what a comparison means ----

  const NOT_STAR := (c: char) => c != '*'

  lemma {:induction false} StarsVanish(w: string)
    ensures Glob(w, Keep(w, NOT_STAR))
  {
    if w != "" {
      StarsVanish(w[1..]);
      var t := Keep(w, NOT_STAR);
      if w[0] != '*' {
        assert t[1..] == Keep(w[1..], NOT_STAR);
      }
    }
  }

  predicate MeansItself(w: string, t: string) {
    Glob(w, t) <==> w == t
  }

  /** A comparison is for the value itself exactly when the raw value has no "*": escaping one does not
      keep the evaluator from reading it as a wildcard. */
  lemma LiteralExactlyWithoutStar(w: string)
    ensures (forall t: string :: MeansItself(w, t)) <==> Clean(w, '*')
  {
    if Clean(w, '*') {
      forall t: string ensures MeansItself(w, t) {
        GlobClean(w, t);
      }
    } else {
      StarsVanish(w);
      KeepMembers(w, NOT_STAR);
      var i :| 0 <= i < |w| && w[i] == '*';
      var t := Keep(w, NOT_STAR);
      assert '*' in w && '*' !in t;
      assert !MeansItself(w, t);
    }
  }

  lemma NotSidMatches(attr: string, values: seq<bytes>, want: string, fold: Folding)
    requires !fold.same(attr, OBJECT_SID)
    ensures AnyMatches(attr, values, want, fold) <==> AnySame(values, want, fold)
  {
    MatchesIsHolds(attr, values, want, fold);
  }

  /** The lookup by GUID that the client prints finds exactly the values that the folding takes for the one asked for:
      all bytes are escaped, and Unicode's folding takes many byte strings that are not text for one another. */
  lemma BinaryLookup(attr: string, b: bytes, entry: seq<Attr>, fold: Folding)
    requires IsName(attr) && !fold.same(attr, OBJECT_SID) && b != []
    ensures MatchFilter(Print(Equal(attr, Escaped(b))), entry, fold)
            == Some(Lookup(entry, attr, fold).Some? && AnySame(Lookup(entry, attr, fold).value, Chars(b), fold))
  {
    EscapedIsValue(b);
    MatchIsEval(Equal(attr, Escaped(b)), entry, fold);
    assert Value(Escaped(b)) == Chars(b);
    if Lookup(entry, attr, fold).Some? {
      NotSidMatches(attr, Lookup(entry, attr, fold).value, Chars(b), fold);
    }
  }

  lemma MatchesItself(s: string, fold: Folding)
    requires Equates(fold)
    ensures Matches(s, s, fold)
  {
    GlobItself(fold.lower(s));
  }

  /** The entry that holds the value is always among them. */
  lemma BinaryLookupFinds(attr: string, b: bytes, entry: seq<Attr>, fold: Folding)
    requires IsName(attr) && !fold.same(attr, OBJECT_SID) && b != [] && Equates(fold)
    requires Lookup(entry, attr, fold).Some? && b in Lookup(entry, attr, fold).value
    ensures MatchFilter(Print(Equal(attr, Escaped(b))), entry, fold) == Some(true)
  {
    BinaryLookup(attr, b, entry, fold);
    MatchesItself(Chars(b), fold);
  }

  // ---- wildcards that were escaped ----

  /** What RFC 4515 makes of a printed value: only a star that was not escaped is a wildcard. */
  predicate UnitGlob(units: seq<Unit>, t: string)
    decreases |units| + |t|
  {
    if units == [] then t == ""
    else if units[0] == Lit('*') then UnitGlob(units[1..], t) || (t != "" && UnitGlob(units, t[1..]))
    else t != "" && t[0] == units[0].c && UnitGlob(units[1..], t[1..])
  }

  function LowerUnit(u: Unit): Unit {
    u.(c := LowerChar(u.c))
  }

  function LowerUnits(units: seq<Unit>): (r: seq<Unit>)
    ensures |r| == |units| && Value(r) == Lower(Value(units))
    ensures forall i :: 0 <= i < |units| ==> r[i] == LowerUnit(units[i])
  {
    seq(|units|, i requires 0 <= i < |units| => LowerUnit(units[i]))
  }

  predicate AnyUnitGlob(values: seq<bytes>, units: seq<Unit>) {
    exists i :: 0 <= i < |values| && UnitGlob(units, Lower(Chars(values[i])))
  }

  predicate AnyGlob(values: seq<bytes>, want: string) {
    exists i :: 0 <= i < |values| && Glob(want, Lower(Chars(values[i])))
  }

  predicate Intended(attr: string, units: seq<Unit>, entry: seq<Attr>) {
    var vals := Lookup(entry, attr, ASCII);
    vals.Some? && AnyUnitGlob(vals.value, LowerUnits(units))
  }

  predicate NoEscapedStar(units: seq<Unit>) {
    forall i :: 0 <= i < |units| ==> units[i] != Esc('*')
  }

  lemma {:induction false} UnitsAreGlob(units: seq<Unit>, t: string)
    requires NoEscapedStar(units)
    ensures UnitGlob(units, t) <==> Glob(Value(units), t)
    decreases |units| + |t|
  {
    if units != [] {
      assert Value(units)[1..] == Value(units[1..]);
      if units[0] == Lit('*') {
        UnitsAreGlob(units[1..], t);
        if t != "" {
          UnitsAreGlob(units, t[1..]);
        }
      } else if t != "" {
        assert units[0].c != '*';
        UnitsAreGlob(units[1..], t[1..]);
      }
    }
  }

  lemma {:induction false} EscapedStarNeedsStar(units: seq<Unit>, t: string, i: nat)
    requires UnitGlob(units, t) && i < |units| && units[i] == Esc('*')
    ensures '*' in t
    decreases |units| + |t|
  {
    if units[0] == Lit('*') {
      if UnitGlob(units[1..], t) {
        EscapedStarNeedsStar(units[1..], t, i - 1);
      } else {
        EscapedStarNeedsStar(units, t[1..], i);
      }
    } else if i > 0 {
      EscapedStarNeedsStar(units[1..], t[1..], i - 1);
    }
  }

  predicate MeansIntended(attr: string, units: seq<Unit>, entry: seq<Attr>) {
    MatchFilter(Print(Equal(attr, units)), entry, ASCII) == Some(Intended(attr, units, entry))
  }

  lemma AnySameIsGlob(values: seq<bytes>, want: string)
    ensures AnySame(values, want, ASCII) <==> AnyGlob(values, Lower(want))
  {
    forall i | 0 <= i < |values|
      ensures Matches(Chars(values[i]), want, ASCII) <==> Glob(Lower(want), Lower(Chars(values[i])))
    {
      AsciiMatches(Chars(values[i]), want);
    }
  }

  lemma AnyUnitsAreGlob(values: seq<bytes>, units: seq<Unit>)
    requires NoEscapedStar(units)
    ensures AnyUnitGlob(values, units) <==> AnyGlob(values, Value(units))
  {
    forall i | 0 <= i < |values|
      ensures UnitGlob(units, Lower(Chars(values[i]))) <==> Glob(Value(units), Lower(Chars(values[i])))
    {
      UnitsAreGlob(units, Lower(Chars(values[i])));
    }
  }

  /** What the evaluator makes of the filter: the value as a pattern, its escaped stars included. */
  lemma EqualIsGlob(attr: string, units: seq<Unit>, entry: seq<Attr>)
    requires IsName(attr) && IsValue(units) && !EqualFold(attr, OBJECT_SID)
    ensures var vals := Lookup(entry, attr, ASCII);
            MatchFilter(Print(Equal(attr, units)), entry, ASCII)
            == Some(vals.Some? && AnyGlob(vals.value, Lower(Value(units))))
  {
    MatchIsEval(Equal(attr, units), entry, ASCII);
    var vals := Lookup(entry, attr, ASCII);
    if vals.Some? {
      NotSidMatches(attr, vals.value, Value(units), ASCII);
      AnySameIsGlob(vals.value, Value(units));
    }
  }

  lemma UnescapedIsIntended(attr: string, units: seq<Unit>, entry: seq<Attr>)
    requires IsName(attr) && IsValue(units) && !EqualFold(attr, OBJECT_SID) && NoEscapedStar(units)
    ensures MeansIntended(attr, units, entry)
  {
    EqualIsGlob(attr, units, entry);
    LowerKeepsEscapes(units);
    var vals := Lookup(entry, attr, ASCII);
    if vals.Some? {
      AnyUnitsAreGlob(vals.value, LowerUnits(units));
    }
  }

  lemma LowerKeepsEscapes(units: seq<Unit>)
    requires NoEscapedStar(units)
    ensures NoEscapedStar(LowerUnits(units))
  {
  }

  function Raw(s: string): (b: bytes)
    requires forall i :: 0 <= i < |s| ==> s[i] as int < 0x100
    ensures Chars(b) == s
  {
    seq(|s|, i requires 0 <= i < |s| => s[i] as int)
  }

  /** A lower-case text of bytes without its stars, as a value. */
  lemma StarlessValue(units: seq<Unit>) returns (value: bytes)
    requires forall i :: 0 <= i < |units| ==> units[i].c as int < 0x100
    ensures Lower(Chars(value)) == Keep(Lower(Value(units)), NOT_STAR)
    ensures Glob(Lower(Value(units)), Lower(Chars(value))) && '*' !in Lower(Chars(value))
  {
    var w := Lower(Value(units));
    var t := Keep(w, NOT_STAR);
    StarsVanish(w);
    KeepMembers(w, NOT_STAR);
    forall i | 0 <= i < |t| ensures t[i] as int < 0x100 && LowerChar(t[i]) == t[i] {
      assert t[i] in t;
      var j :| 0 <= j < |w| && w[j] == t[i];
      assert w[j] == LowerChar(units[j].c);
    }
    value := Raw(t);
    assert Lower(Chars(value)) == t;
  }

  lemma LookupOne(attr: string, value: bytes)
    ensures Lookup([Attr(attr, [value])], attr, ASCII) == Some([value])
  {
  }

  lemma OneValue(value: bytes, units: seq<Unit>, want: string)
    ensures AnyGlob([value], want) <==> Glob(want, Lower(Chars(value)))
    ensures AnyUnitGlob([value], units) <==> UnitGlob(units, Lower(Chars(value)))
  {
    assert [value][0] == value;
  }

  /** An escaped star makes the evaluator find a value that has no star at all. */
  lemma EscapedStarFindsTooMuch(attr: string, units: seq<Unit>, k: nat) returns (entry: seq<Attr>)
    requires IsName(attr) && IsValue(units) && !EqualFold(attr, OBJECT_SID)
    requires forall i :: 0 <= i < |units| ==> units[i].c as int < 0x100
    requires k < |units| && units[k] == Esc('*')
    ensures MatchFilter(Print(Equal(attr, units)), entry, ASCII) == Some(true) && !Intended(attr, units, entry)
  {
    var value := StarlessValue(units);
    entry := [Attr(attr, [value])];
    LookupOne(attr, value);
    EqualIsGlob(attr, units, entry);
    OneValue(value, LowerUnits(units), Lower(Value(units)));
    if UnitGlob(LowerUnits(units), Lower(Chars(value))) {
      EscapedStarNeedsStar(LowerUnits(units), Lower(Chars(value)), k);
    }
  }

  /** The evaluator reads a comparison as RFC 4515 does, for every entry, exactly when no star in it was escaped. */
  lemma EscapedStarExactly(attr: string, units: seq<Unit>)
    requires IsName(attr) && IsValue(units) && !EqualFold(attr, OBJECT_SID)
    requires forall i :: 0 <= i < |units| ==> units[i].c as int < 0x100
    ensures (forall entry: seq<Attr> :: MeansIntended(attr, units, entry)) <==> NoEscapedStar(units)
  {
    if NoEscapedStar(units) {
      forall entry: seq<Attr> ensures MeansIntended(attr, units, entry) {
        UnescapedIsIntended(attr, units, entry);
      }
    } else {
      var k :| 0 <= k < |units| && units[k] == Esc('*');
      var entry := EscapedStarFindsTooMuch(attr, units, k);
      assert !MeansIntended(attr, units, entry);
    }
  }

  lemma {:induction false} EscapedHasNoColon(units: seq<Unit>)
    requires forall i :: 0 <= i < |units| ==> units[i].Esc?
    ensures Clean(PrintUnits(units), ':') && (units != [] ==> |PrintUnits(units)| > 1)
  {
    if units != [] {
      EscapedHasNoColon(units[1..]);
    }
  }

  lemma EscapedIsValue(b: bytes)
    requires b != []
    ensures IsValue(Escaped(b))
  {
    EscapedHasNoColon(Escaped(b));
    var s := PrintUnits(Escaped(b));
    if Index(s, ":=") >= 0 {
      IsAtStarts(s, ":=", Index(s, ":="));
    }
  }

  // ---- what is no printed filter ----

  lemma NoOpening(f: string, opening: string)
    requires f != "" && f[0] != '(' && opening != "" && opening[0] == '('
    ensures !HasPrefix(f, opening)
  {
    if |f| >= |opening| {
      assert f[..|opening|][0] == f[0];
    }
  }

  /** Anything that does not start with a parenthesis matches nothing, and nothing but space every entry. */
  lemma OtherTexts(filter: string, entry: seq<Attr>, fold: Folding)
    ensures Trim(filter) == "" ==> MatchFilter(filter, entry, fold) == Some(true)
    ensures Trim(filter) != "" && Trim(filter)[0] != '(' ==> MatchFilter(filter, entry, fold) == Some(false)
  {
    var f := Trim(filter);
    if f != "" && f[0] != '(' {
      NoOpening(f, "(&");
      NoOpening(f, "(|");
      NoOpening(f, "(!");
      NoOpening(f, "(");
    }
  }

  /** An opening alone is the panic; empty lists are what no term decides, and the negation of nothing is false. */
  lemma BareOpenings(filter: string, entry: seq<Attr>, fold: Folding)
    ensures Trim(filter) in {"(&", "(|", "(!"} ==> MatchFilter(filter, entry, fold) == None
    ensures Trim(filter) == "(&)" ==> MatchFilter(filter, entry, fold) == Some(true)
    ensures Trim(filter) == "(|)" ==> MatchFilter(filter, entry, fold) == Some(false)
    ensures Trim(filter) == "(!)" ==> MatchFilter(filter, entry, fold) == Some(false)
  {
  }

  lemma BodyWithoutEquals(body: string, entry: seq<Attr>, fold: Folding)
    requires Clean(body, '=')
    ensures !MatchBody(body, entry, fold)
  {
    FindClean(body, '=');
    NoAssign(body);
  }

  lemma NoAssign(body: string)
    ensures Index(body, ":=") >= 0 ==> !Clean(body, '=')
  {
    var i := Index(body, ":=");
    if i >= 0 {
      assert body[i..i + 2][1] == body[i + 1];
    }
  }

  /** The extensible form "attr:rule:=value", as the chain searches print it. */
  function Extensible(attr: string, rule: string, want: string): string {
    attr + [':'] + (rule + ":=" + want)
  }

  lemma AssignAt(s: string, i: nat)
    requires i + 1 < |s|
    ensures IsAt(s, ":=", i) <==> s[i] == ':' && s[i + 1] == '='
  {
    assert s[i..i + 2] == [s[i], s[i + 1]];
  }

  lemma ExtensibleIndex(attr: string, rule: string, want: string, body: string)
    requires IsName(attr) && Clean(rule, ':') && (rule != "" ==> rule[0] != '=') && body == Extensible(attr, rule, want)
    ensures Index(body, ":=") == |attr| + 1 + |rule|
  {
    var n := |attr| + 1 + |rule|;
    assert body[n] == ':' && body[n + 1] == '=';
    AssignAt(body, n);
    IndexIsFirst(body, ":=", n);
    NoneBefore(attr, rule, want, body, n);
  }

  lemma NoneBefore(attr: string, rule: string, want: string, body: string, n: nat)
    requires IsName(attr) && Clean(rule, ':') && (rule != "" ==> rule[0] != '=') && body == Extensible(attr, rule, want)
    requires n == |attr| + 1 + |rule|
    ensures forall i :: 0 <= i < n ==> !IsAt(body, ":=", i)
  {
    forall i | 0 <= i < n ensures !IsAt(body, ":=", i) {
      AssignAt(body, i);
      if i < |attr| {
        assert body[i] == attr[i];
      } else if i > |attr| {
        assert body[i] == rule[i - |attr| - 1];
      } else {
        assert body[i + 1] == if rule == "" then ':' else rule[0];
      }
    }
  }

  /** It is read as a comparison of the attribute with the value, whatever the rule. */
  lemma ExtensibleReads(attr: string, rule: string, want: string, entry: seq<Attr>, fold: Folding)
    requires IsName(attr) && attr != "" && Clean(rule, ':') && (rule != "" ==> rule[0] != '=')
    ensures MatchFilter("(" + Extensible(attr, rule, want) + ")", entry, fold) == Some(MatchTerm(attr, want, entry, fold))
  {
    var body := Extensible(attr, rule, want);
    ExtensiblePlain(attr, rule, want, body);
    NameCut(attr, want);
    assert body[0] == attr[0];
    Dispatch("(" + body + ")", body, entry, fold);
  }

  lemma ExtensiblePlain(attr: string, rule: string, want: string, body: string)
    requires IsName(attr) && attr != "" && Clean(rule, ':') && (rule != "" ==> rule[0] != '=') && body == Extensible(attr, rule, want)
    ensures Plain(body) == attr + "=" + want
  {
    FindAfter(attr, ':', rule + ":=" + want);
    ExtensibleIndex(attr, rule, want, body);
    ExtensibleCut(attr, rule, want, body);
  }

  lemma ExtensibleCut(attr: string, rule: string, want: string, body: string)
    requires body == Extensible(attr, rule, want)
    ensures body[..|attr|] == attr && body[|attr| + |rule| + 2..] == "=" + want
  {
    assert body == attr + [':'] + rule + [':'] + ("=" + want);
  }
}
