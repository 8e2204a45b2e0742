// Ranged retrieval: the client loop of ranged.go against the paging server of
// internal/adtest/memory.go.
module Ranged {
  import opened Wrappers
  import opened Bytes
  import opened Text
  import opened Integers

  /** The attributes of one entry, by their stored spelling. */
  type Attrs = map<string, seq<bytes>>

  const RANGE := ";range="

  function Want(attr: string, lo: nat): string {
    attr + RANGE + Dec(lo) + "-*"
  }

  // ---- the server ----

  /** The description without its options. */
  function BaseAttr(desc: string): string {
    desc[..Find(desc, ';')]
  }

  predicate Requested(want: seq<string>, k: string) {
    want == [] || exists i :: 0 <= i < |want| && (want[i] == "*" || EqualFold(BaseAttr(want[i]), k))
  }

  function Project(attrs: Attrs, want: seq<string>): Attrs {
    map k | k in attrs && Requested(want, k) :: attrs[k]
  }

  /** The number before the first "-", or 0 when there is none. */
  function StartIn(spec: string): nat {
    var j := Find(spec, '-');
    if j == |spec| then 0
    else
      match ParseInt(spec[..j])
      case None => 0
      case Some(n) => StartNotNegative(spec); n
  }

  /** Where the requested page starts; 0 when the request does not say. */
  function RangeStart(w: string): nat {
    var i := Index(Lower(w), RANGE);
    if i < 0 then 0 else StartIn(w[i + |RANGE|..])
  }

  /** The text before the first "-" never parses as a negative number. */
  lemma StartNotNegative(spec: string)
    requires ParseInt(spec[..Find(spec, '-')]).Some?
    ensures ParseInt(spec[..Find(spec, '-')]).value >= 0
  {
    var s := spec[..Find(spec, '-')];
    if s != "" {
      assert s[0] == spec[0];
    }
  }

  function Min(a: int, b: int): int {
    if a < b then a else b
  }

  function PageSpec(lo: nat, hi: nat, last: bool): string {
    Dec(lo) + ['-'] + if last || hi == 0 then "*" else Dec(hi - 1)
  }

  function PageKey(base: string, lo: nat, hi: nat, last: bool): string {
    base + RANGE + PageSpec(lo, hi, last)
  }

  /** One requested attribute re-keyed as the page it asks for. */
  function PageOne(out: Attrs, attrs: Attrs, w: string, limit: int): Attrs
    requires limit > 0
  {
    var base := BaseAttr(w);
    if base !in attrs || |attrs[base]| <= limit then out
    else
      var vals := attrs[base];
      var lo := Min(RangeStart(w), |vals|);
      var hi := Min(lo + limit, |vals|);
      (out - {base})[PageKey(base, lo, hi, hi == |vals|) := vals[lo..hi]]
  }

  function PageAll(out: Attrs, attrs: Attrs, want: seq<string>, limit: int): Attrs
    requires limit > 0
    decreases |want|
  {
    if want == [] then out else PageAll(PageOne(out, attrs, want[0], limit), attrs, want[1..], limit)
  }

  function Paged(attrs: Attrs, want: seq<string>, limit: int): Attrs {
    if limit <= 0 then attrs else PageAll(attrs, attrs, want, limit)
  }

  method RangePages(attrs: Attrs, want: seq<string>, limit: int) returns (out: Attrs)
    ensures out == Paged(attrs, want, limit)
  {
    if limit <= 0 {
      return attrs;
    }
    out := attrs;
    for n := 0 to |want|
      invariant PageAll(attrs, attrs, want, limit) == PageAll(out, attrs, want[n..], limit)
    {
      assert want[n..][0] == want[n] && want[n..][1..] == want[n + 1..];
      out := PageOne(out, attrs, want[n], limit);
    }
  }

  function Answer(attrs: Attrs, attr: string, lo: nat, limit: int): Attrs {
    Paged(Project(attrs, [Want(attr, lo)]), [Want(attr, lo)], limit)
  }

  // ---- the client ----

  datatype RangeError = MalformedOption | MalformedUpper | SearchFailed

  datatype Found = Found(key: string, last: bool)

  /** Whether a range option marks the last page. */
  function IsLast(spec: string): Result<bool, RangeError> {
    var j := Find(spec, '-');
    if j == |spec| then Err(MalformedOption)
    else if spec[j + 1..] == "*" then Ok(true)
    else if ParseInt(spec[j + 1..]).None? then Err(MalformedUpper)
    else Ok(false)
  }

  predicate IsRanged(k: string, attr: string) {
    HasPrefix(Lower(k), Lower(attr) + RANGE)
  }

  function AtKey(k: string, attr: string): Result<Found, RangeError>
    requires IsRanged(k, attr)
  {
    var last :- IsLast(Lower(k)[|attr| + |RANGE|..]);
    Ok(Found(k, last))
  }

  /** The first key of the iteration that carries a range decides. */
  function Scan(attr: string, order: seq<string>): Result<Found, RangeError> {
    if order == [] then Ok(Found(attr, true))
    else if IsRanged(order[0], attr) then AtKey(order[0], attr)
    else Scan(attr, order[1..])
  }

  function FindIn(attrs: Attrs, attr: string, order: seq<string>): Result<Found, RangeError> {
    if attr in attrs then Ok(Found(attr, true)) else Scan(attr, order)
  }

  /** order: the keys in whatever order the map iteration gives them. */
  method FindRangedAttr(attrs: Attrs, attr: string, order: seq<string>) returns (r: Result<Found, RangeError>)
    ensures r == FindIn(attrs, attr, order)
  {
    if attr in attrs {
      return Ok(Found(attr, true));
    }
    var prefix := Lower(attr) + RANGE;
    for i := 0 to |order|
      invariant Scan(attr, order) == Scan(attr, order[i..])
    {
      var k := order[i];
      assert order[i..][0] == k && order[i..][1..] == order[i + 1..];
      if !IsRanged(k, attr) {
        continue;
      }
      var last := IsLast(Lower(k)[|attr| + |RANGE|..]);
      if last.Err? {
        return Err(last.error);
      }
      return Ok(Found(k, last.value));
    }
    return Ok(Found(attr, true));
  }

  predicate Covers(order: seq<string>, attrs: Attrs) {
    && (forall k :: k in attrs ==> k in order)
    && (forall i :: 0 <= i < |order| ==> order[i] in attrs)
  }

  /** What the entry holds under exactly this spelling. */
  function Values(attrs: Attrs, attr: string): seq<bytes> {
    if attr in attrs then attrs[attr] else []
  }

  /** The loop returns exactly the attribute's values, in order, for every page size and every iteration
      order, unless a search fails; the entry is read while nobody changes it. */
  method RangedValues(attrs: Attrs, attr: string, limit: int, order: (nat, Attrs) -> seq<string>, fails: nat -> bool)
    returns (r: Result<seq<bytes>, RangeError>)
    requires Clean(attr, ';') && |Values(attrs, attr)| < MAX_INT64
    requires forall n: nat, m :: Covers(order(n, m), m)
    ensures r.Ok? ==> r.value == Values(attrs, attr)
    ensures (forall n: nat :: !fails(n)) ==> r.Ok?
    ensures r.Err? ==> r.error == SearchFailed
  {
    var out: seq<bytes> := [];
    var lo, round := 0, 0;
    ghost var vals := Values(attrs, attr);
    while true
      invariant 0 <= lo <= |vals| && out == vals[..lo]
      invariant lo == 0 || 0 < limit < |vals|
      decreases |vals| - lo
    {
      if fails(round) {
        return Err(SearchFailed);
      }
      var e := Answer(attrs, attr, lo, limit);
      var keys := order(round, e);
      AnswerIsThePage(attrs, attr, lo, limit, keys);
      var found := FindRangedAttr(e, attr, keys);
      // Neither malformed-option error can come from this server.
      assert found.Ok?;
      var page := Values(e, found.value.key);
      out := out + page;
      if found.value.last || |page| == 0 {
        return Ok(out);
      }
      lo := lo + |page|;
      round := round + 1;
    }
  }

  // ---- what one request gets ----

  /** Where the page that starts at lo ends. */
  function PageEnd(n: nat, lo: nat, limit: int): (hi: nat)
    requires lo <= n && (lo == 0 || 0 < limit < n)
    ensures lo <= hi <= n
  {
    if limit <= 0 || n <= limit then n else Min(lo + limit, n)
  }

  lemma BaseOfWant(attr: string, lo: nat)
    requires Clean(attr, ';')
    ensures BaseAttr(Want(attr, lo)) == attr && Want(attr, lo) != "*"
  {
    var w, tail := Want(attr, lo), "range=" + Dec(lo) + "-*";
    assert w == attr + [';'] + tail;
    FindAfter(attr, ';', tail);
    assert w[..|attr|] == attr && |w| > 1;
  }

  lemma StartOfSpec(lo: nat, spec: string)
    requires lo <= MAX_INT64 && spec == Dec(lo) + ['-'] + "*"
    ensures StartIn(spec) == lo
  {
    DecClean(lo, '-');
    FindAfter(Dec(lo), '-', "*");
    assert spec[..|Dec(lo)|] == Dec(lo);
    ParseFormatted(lo);
  }

  lemma WantParts(attr: string, lo: nat)
    requires Clean(attr, ';')
    ensures BaseAttr(Want(attr, lo)) == attr && Want(attr, lo) != "*"
    ensures lo <= MAX_INT64 ==> RangeStart(Want(attr, lo)) == lo
  {
    BaseOfWant(attr, lo);
    var w := Want(attr, lo);
    RangeAt(w, attr, Dec(lo) + "-*");
    if lo <= MAX_INT64 {
      assert w[|attr| + |RANGE|..] == Dec(lo) + ['-'] + "*";
      StartOfSpec(lo, w[|attr| + |RANGE|..]);
    }
  }

  /** The option starts right after a base that has no semicolon. */
  lemma RangeAt(w: string, base: string, rest: string)
    requires Clean(base, ';') && w == base + RANGE + rest
    ensures Index(Lower(w), RANGE) == |base|
  {
    var l := Lower(w);
    assert l[|base|..|base| + |RANGE|] == RANGE;
    forall j | 0 <= j < |base| ensures l[j] != ';' {
      assert l[j] == LowerChar(base[j]);
    }
    IndexIsFirst(l, RANGE, |base|);
    IsAtStarts(l, RANGE, Index(l, RANGE));
  }

  lemma SpecOf(attr: string, spec: string)
    requires Lower(spec) == spec
    ensures IsRanged(attr + RANGE + spec, attr)
    ensures Lower(attr + RANGE + spec)[|attr| + |RANGE|..] == spec
  {
    LowerAppend(attr + RANGE, spec);
    LowerAppend(attr, RANGE);
    assert Lower(RANGE) == RANGE;
  }

  lemma SpecIsLower(lo: nat, upper: string)
    requires upper == "*" || AllDigits(upper)
    ensures Lower(Dec(lo) + ['-'] + upper) == Dec(lo) + ['-'] + upper
  {
    DecDigits(lo);
  }

  lemma SpecReadsBack(lo: nat, hi: nat, last: bool)
    requires 0 < hi <= MAX_INT64
    ensures IsLast(PageSpec(lo, hi, last)) == Ok(last)
  {
    var upper := if last then "*" else Dec(hi - 1);
    UpperOf(lo, upper, PageSpec(lo, hi, last));
    DecDigits(hi - 1);
    ParseFormatted(hi - 1);
  }

  lemma UpperOf(lo: nat, upper: string, spec: string)
    requires spec == Dec(lo) + ['-'] + upper
    ensures Find(spec, '-') == |Dec(lo)| && spec[|Dec(lo)| + 1..] == upper
  {
    DecClean(lo, '-');
    FindAfter(Dec(lo), '-', upper);
  }

  /** A printed page key is read back for what it says: the "*" and nothing else marks the last page. */
  lemma KeyReadsBack(attr: string, lo: nat, hi: nat, last: bool)
    requires 0 < hi <= MAX_INT64
    ensures IsRanged(PageKey(attr, lo, hi, last), attr)
    ensures AtKey(PageKey(attr, lo, hi, last), attr) == Ok(Found(PageKey(attr, lo, hi, last), last))
  {
    DecDigits(hi - 1);
    SpecIsLower(lo, if last then "*" else Dec(hi - 1));
    SpecOf(attr, PageSpec(lo, hi, last));
    SpecReadsBack(lo, hi, last);
  }

  lemma SameSpellingIsNotRanged(k: string, attr: string)
    requires |k| == |attr|
    ensures !IsRanged(k, attr)
  {
  }

  lemma {:induction false} ScanNothing(attr: string, order: seq<string>)
    requires forall i :: 0 <= i < |order| ==> !IsRanged(order[i], attr)
    ensures Scan(attr, order) == Ok(Found(attr, true))
  {
    if order != [] {
      ScanNothing(attr, order[1..]);
    }
  }

  lemma {:induction false} ScanOnly(attr: string, order: seq<string>, k: string)
    requires k in order && IsRanged(k, attr)
    requires forall i :: 0 <= i < |order| && IsRanged(order[i], attr) ==> order[i] == k
    ensures Scan(attr, order) == AtKey(k, attr)
  {
    if order[0] != k {
      ScanOnly(attr, order[1..], k);
    }
  }

  lemma Projected(attrs: Attrs, attr: string, lo: nat)
    requires Clean(attr, ';')
    ensures var p := Project(attrs, [Want(attr, lo)]);
            && Values(p, attr) == Values(attrs, attr) && (attr in p <==> attr in attrs)
            && forall k :: k in p ==> |k| == |attr|
  {
    WantParts(attr, lo);
    var want := [Want(attr, lo)];
    var p := Project(attrs, want);
    forall k ensures Requested(want, k) <==> EqualFold(attr, k) {
      assert want[0] == Want(attr, lo);
    }
    forall k | k in p ensures |k| == |attr| {
      assert |Lower(k)| == |Lower(attr)|;
    }
  }

  /** Whatever the iteration order, the client finds the page and knows whether it is the last. */
  lemma AnswerIsThePage(attrs: Attrs, attr: string, lo: nat, limit: int, order: seq<string>)
    requires Clean(attr, ';') && |Values(attrs, attr)| < MAX_INT64
    requires lo <= |Values(attrs, attr)| && (lo == 0 || 0 < limit < |Values(attrs, attr)|)
    requires Covers(order, Answer(attrs, attr, lo, limit))
    ensures var vals, e, found := Values(attrs, attr), Answer(attrs, attr, lo, limit), FindIn(Answer(attrs, attr, lo, limit), attr, order);
            var hi := PageEnd(|vals|, lo, limit);
            && found.Ok?
            && Values(e, found.value.key) == vals[lo..hi]
            && (found.value.last <==> hi == |vals|)
  {
    var vals, e := Values(attrs, attr), Answer(attrs, attr, lo, limit);
    Projected(attrs, attr, lo);
    if attr in attrs && 0 < limit < |vals| {
      AnswerIsAPage(attrs, attr, lo, limit, vals);
      PageIsFound(Project(attrs, [Want(attr, lo)]), attr, vals, lo, PageEnd(|vals|, lo, limit), e, order);
    } else {
      AnswerIsWhole(attrs, attr, lo, limit);
      assert vals[0..|vals|] == vals;
      if attr !in e {
        forall i | 0 <= i < |order| ensures !IsRanged(order[i], attr) {
          SameSpellingIsNotRanged(order[i], attr);
        }
        ScanNothing(attr, order);
      }
    }
  }

  lemma PageOfOne(p: Attrs, w: string, limit: int)
    requires limit > 0
    ensures Paged(p, [w], limit) == PageOne(p, p, w, limit)
  {
    var one := PageOne(p, p, w, limit);
    assert PageAll(p, p, [w], limit) == PageAll(one, p, [w][1..], limit);
    assert PageAll(one, p, [], limit) == one;
    assert [w][1..] == [];
  }

  lemma AnswerIsWhole(attrs: Attrs, attr: string, lo: nat, limit: int)
    requires Clean(attr, ';') && (attr !in attrs || limit <= 0 || |attrs[attr]| <= limit)
    ensures Answer(attrs, attr, lo, limit) == Project(attrs, [Want(attr, lo)])
  {
    Projected(attrs, attr, lo);
    WantParts(attr, lo);
    if limit > 0 {
      var p := Project(attrs, [Want(attr, lo)]);
      PageOfOne(p, Want(attr, lo), limit);
      assert attr in p ==> Values(p, attr) == p[attr] && |p[attr]| <= limit;
    }
  }

  lemma AnswerIsAPage(attrs: Attrs, attr: string, lo: nat, limit: int, vals: seq<bytes>)
    requires Clean(attr, ';') && attr in attrs && attrs[attr] == vals && 0 < limit < |vals| < MAX_INT64
    requires lo <= |vals|
    ensures var hi := PageEnd(|vals|, lo, limit);
            Answer(attrs, attr, lo, limit)
            == (Project(attrs, [Want(attr, lo)]) - {attr})[PageKey(attr, lo, hi, hi == |vals|) := vals[lo..hi]]
  {
    Projected(attrs, attr, lo);
    WantParts(attr, lo);
    PageOfOne(Project(attrs, [Want(attr, lo)]), Want(attr, lo), limit);
  }

  lemma PageIsFound(p: Attrs, attr: string, vals: seq<bytes>, lo: nat, hi: nat, e: Attrs, order: seq<string>)
    requires attr in p && p[attr] == vals && forall k :: k in p ==> |k| == |attr|
    requires lo <= hi <= |vals| < MAX_INT64 && hi > 0
    requires e == (p - {attr})[PageKey(attr, lo, hi, hi == |vals|) := vals[lo..hi]] && Covers(order, e)
    ensures FindIn(e, attr, order) == Ok(Found(PageKey(attr, lo, hi, hi == |vals|), hi == |vals|))
    ensures Values(e, PageKey(attr, lo, hi, hi == |vals|)) == vals[lo..hi]
  {
    var key := PageKey(attr, lo, hi, hi == |vals|);
    KeyReadsBack(attr, lo, hi, hi == |vals|);
    assert |key| > |attr|;
    assert attr !in e;
    forall i | 0 <= i < |order| && IsRanged(order[i], attr) ensures order[i] == key {
      if order[i] != key {
        SameSpellingIsNotRanged(order[i], attr);
      }
    }
    ScanOnly(attr, order, key);
  }

  /** The exact spelling matters: whatever is stored under other cases of the name comes with the answer and is read as none. */
  lemma OtherSpellingReadsEmpty(attrs: Attrs, attr: string, limit: int, order: seq<string>)
    requires Clean(attr, ';') && attr !in attrs
    requires Covers(order, Answer(attrs, attr, 0, limit))
    ensures forall stored :: stored in attrs && EqualFold(attr, stored) ==>
              stored in Answer(attrs, attr, 0, limit) && Answer(attrs, attr, 0, limit)[stored] == attrs[stored]
    ensures FindIn(Answer(attrs, attr, 0, limit), attr, order) == Ok(Found(attr, true))
    ensures Values(Answer(attrs, attr, 0, limit), attr) == []
  {
    Projected(attrs, attr, 0);
    AnswerIsWhole(attrs, attr, 0, limit);
    WantParts(attr, 0);
    var want := [Want(attr, 0)];
    assert want[0] == Want(attr, 0);
    assert forall stored :: EqualFold(attr, stored) ==> Requested(want, stored);
    forall i | 0 <= i < |order| ensures !IsRanged(order[i], attr) {
      SameSpellingIsNotRanged(order[i], attr);
    }
    ScanNothing(attr, order);
  }

  // ---- the wording of the protocol ----

  /** What a page is asked for and answered with: "attr;range=0-*", "attr;range=0-1499", and "attr;range=1500-*" at the end. */
  lemma Wording(attr: string, lo: nat, hi: nat)
    requires hi > 0
    ensures Want(attr, lo) == attr + ";range=" + Dec(lo) + "-*"
    ensures PageKey(attr, lo, hi, false) == attr + ";range=" + Dec(lo) + "-" + Dec(hi - 1)
    ensures PageKey(attr, lo, hi, true) == attr + ";range=" + Dec(lo) + "-*"
  {
    assert attr + ";range=" + (Dec(lo) + ['-'] + Dec(hi - 1)) == attr + ";range=" + Dec(lo) + "-" + Dec(hi - 1);
    assert attr + ";range=" + (Dec(lo) + ['-'] + "*") == attr + ";range=" + Dec(lo) + "-*";
  }

  /** Asking for nothing or for "*" asks for everything; anything else for what it names in any case, without its options. */
  lemma ProjectedExactly(attrs: Attrs, want: seq<string>, k: string)
    ensures k in Project(attrs, want)
            <==> k in attrs && (want == [] || "*" in want || exists i :: 0 <= i < |want| && EqualFold(BaseAttr(want[i]), k))
    ensures k in Project(attrs, want) ==> Project(attrs, want)[k] == attrs[k]
  {
    if "*" in want {
      var i :| 0 <= i < |want| && want[i] == "*";
      assert Requested(want, k);
    }
  }

  /** A start that is no number is read as 0, and so is a request without the option. */
  lemma StartOtherwise(w: string)
    ensures Index(Lower(w), ";range=") < 0 ==> RangeStart(w) == 0
    ensures var i := Index(Lower(w), ";range=");
            i >= 0 && (Find(w[i + 7..], '-') == |w[i + 7..]| || ParseInt(w[i + 7..][..Find(w[i + 7..], '-')]).None?) ==> RangeStart(w) == 0
  {
  }

  /** Without a limit, and for an attribute with no more values than a page, the answer is the whole of it. */
  lemma PagedOne(attrs: Attrs, w: string, limit: int)
    ensures limit <= 0 || BaseAttr(w) !in attrs || |attrs[BaseAttr(w)]| <= limit ==> Paged(attrs, [w], limit) == attrs
  {
    if limit > 0 {
      PageOfOne(attrs, w, limit);
    }
  }

  /** A page key is read for what it says in any case of its letters. */
  lemma KeyInAnyCase(k: string, attr: string, lo: nat, hi: nat, last: bool)
    requires 0 < hi <= MAX_INT64 && EqualFold(k, PageKey(attr, lo, hi, last))
    ensures IsRanged(k, attr) && AtKey(k, attr) == Ok(Found(k, last))
  {
    KeyReadsBack(attr, lo, hi, last);
    assert |Lower(k)| == |k| && |Lower(PageKey(attr, lo, hi, last))| == |PageKey(attr, lo, hi, last)|;
  }
}
