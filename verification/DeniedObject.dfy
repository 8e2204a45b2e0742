// The object-right Deny of internal/secdesc/secdesc.go: deniedObject,
// HasDeniedObjectRight and SetDeniedObjectRight.
module DeniedObject {
  import opened Wrappers
  import opened Bytes
  import opened Lists
  import opened Descriptor
  import opened Dacl
  import opened Protection

  const DENIED_OBJECT := 0x06
  const OBJECT_TYPE := 0x1
  const INHERITED_OBJECT_TYPE := 0x2
  const REVISION_DS := 4

  /** What is denied, on which object type, to whom. */
  datatype Rule = Rule(mask: dword, objectType: bytes, trustees: seq<bytes>)

  predicate TrusteeAt(ace: bytes, off: nat, trustee: bytes) {
    |ace| >= off + |trustee| && ace[off..off + |trustee|] == trustee
  }

  predicate Denies(ace: bytes, mask: dword, objectType: bytes, trustee: bytes) {
    && |ace| >= 12
    && ace[0] == DENIED_OBJECT
    && And(U32(ace, 4), mask) != 0
    && var flags := U32(ace, 8);
       var inherited := if Has(flags, INHERITED_OBJECT_TYPE) then 16 else 0;
       if Has(flags, OBJECT_TYPE) then
         && |ace| >= 28
         && ace[12..28] == objectType
         && TrusteeAt(ace, 28 + inherited, trustee)
       else
         && objectType == []
         && TrusteeAt(ace, 12 + inherited, trustee)
  }

  function DenyAce(mask: dword, objectType: bytes, trustee: bytes): bytes {
    Entry(DENIED_OBJECT, 0, mask, Le32(OBJECT_TYPE) + objectType + trustee)
  }

  function DeniesTo(rule: Rule, trustee: bytes): bytes -> bool {
    a => Denies(a, rule.mask, rule.objectType, trustee)
  }

  predicate MatchedBy(rule: Rule, ace: bytes) {
    exists i :: 0 <= i < |rule.trustees| && Denies(ace, rule.mask, rule.objectType, rule.trustees[i])
  }

  function Matched(rule: Rule): bytes -> bool {
    a => MatchedBy(rule, a)
  }

  function Unmatched(rule: Rule): bytes -> bool {
    a => !MatchedBy(rule, a)
  }

  predicate AnyMatched(list: seq<bytes>, rule: Rule) {
    exists i :: 0 <= i < |list| && MatchedBy(rule, list[i])
  }

  function HasDenied(sd: bytes, rule: Rule): Result<bool, Error> {
    var v :- Read(sd);
    Ok(AnyMatched(v.list, rule))
  }

  /** The loop over the trustees that both entry points run for each entry. */
  method FindTrustee(ace: bytes, rule: Rule) returns (found: bool)
    ensures found == MatchedBy(rule, ace)
  {
    for i := 0 to |rule.trustees|
      invariant forall j :: 0 <= j < i ==> !Denies(ace, rule.mask, rule.objectType, rule.trustees[j])
    {
      if Denies(ace, rule.mask, rule.objectType, rule.trustees[i]) {
        return true;
      }
    }
    return false;
  }

  lemma AnyMatchedStep(list: seq<bytes>, rule: Rule, i: nat)
    requires i < |list| && !AnyMatched(list[..i], rule)
    ensures MatchedBy(rule, list[i]) ==> AnyMatched(list, rule)
    ensures !MatchedBy(rule, list[i]) ==> !AnyMatched(list[..i + 1], rule)
  {
    assert forall j :: 0 <= j < i ==> list[j] == list[..i][j];
  }

  method HasDeniedObjectRight(sd: bytes, rule: Rule) returns (r: Result<bool, Error>)
    ensures r == HasDenied(sd, rule)
  {
    var view := Open(sd);
    if view.Err? {
      return Err(view.error);
    }
    var list := view.value.list;
    for i := 0 to |list|
      invariant !AnyMatched(list[..i], rule)
    {
      var found := FindTrustee(list[i], rule);
      AnyMatchedStep(list, rule, i);
      if found {
        assert AnyMatched(list, rule);
        return Ok(true);
      }
    }
    assert list[..|list|] == list;
    return Ok(false);
  }

  // ---- SetDeniedObjectRight ----

  function DenyFor(rule: Rule): bytes -> bytes {
    t => DenyAce(rule.mask, rule.objectType, t)
  }

  function DenyList(list: seq<bytes>, rule: Rule, on: bool): seq<bytes> {
    (if on then Map(rule.trustees, DenyFor(rule)) else []) + Keep(list, Unmatched(rule))
  }

  /** The early return: nothing to remove, or as many matching entries as there are trustees. */
  predicate DenySettled(list: seq<bytes>, rule: Rule, on: bool) {
    var removed := |list| - |Keep(list, Unmatched(rule))|;
    if on then removed == |rule.trustees| && removed > 0 else removed == 0
  }

  function RaisedRevision(p: Parsed): byte {
    if p.dacl != [] && p.dacl[0] > REVISION_DS then p.dacl[0] else REVISION_DS
  }

  function DenyEdit(sd: bytes, on: bool, rule: Rule): Result<Edit, Error> {
    var v :- Read(sd);
    if DenySettled(v.list, rule, on) then Ok(Edit(sd, false))
    else Ok(Edit(Rewritten(v.parsed, RaisedRevision(v.parsed), DenyList(v.list, rule, on)), true))
  }

  /** The loop that sets matching entries aside and counts them: entries, not trustees. */
  method DropMatched(list: seq<bytes>, rule: Rule) returns (kept: seq<bytes>, removed: nat)
    ensures kept == Keep(list, Unmatched(rule)) && removed == |list| - |kept|
  {
    kept, removed := [], 0;
    for i := 0 to |list|
      invariant kept == Keep(list[..i], Unmatched(rule)) && removed == i - |kept|
    {
      KeepStep(list, i, Unmatched(rule));
      var found := FindTrustee(list[i], rule);
      if found {
        removed := removed + 1;
      } else {
        kept := kept + [list[i]];
      }
    }
    assert list[..|list|] == list;
  }

  method NewDenies(rule: Rule) returns (add: seq<bytes>)
    ensures add == Map(rule.trustees, DenyFor(rule))
  {
    add := [];
    for i := 0 to |rule.trustees|
      invariant add == Map(rule.trustees[..i], DenyFor(rule))
    {
      MapStep(rule.trustees, i, DenyFor(rule));
      add := add + [DenyAce(rule.mask, rule.objectType, rule.trustees[i])];
    }
    assert rule.trustees[..|rule.trustees|] == rule.trustees;
  }

  /** The entries to write, unless nothing needs writing. */
  method NewEntries(list: seq<bytes>, on: bool, rule: Rule) returns (settled: bool, kept: seq<bytes>)
    ensures settled <==> DenySettled(list, rule, on)
    ensures !settled ==> kept == DenyList(list, rule, on)
  {
    var removed;
    kept, removed := DropMatched(list, rule);
    if !on {
      if removed == 0 {
        return true, list;
      }
      assert kept == [] + kept;
      return false, kept;
    }
    if removed == |rule.trustees| && removed > 0 {
      return true, list;
    }
    var add := NewDenies(rule);
    return false, add + kept;
  }

  method SetDeniedObjectRight(sd: bytes, on: bool, rule: Rule) returns (r: Result<Edit, Error>)
    ensures r == DenyEdit(sd, on, rule)
  {
    var view := Open(sd);
    if view.Err? {
      return Err(view.error);
    }
    var View(p, list) := view.value;
    var settled, kept := NewEntries(list, on, rule);
    if settled {
      return Ok(Edit(sd, false));
    }
    var revision: byte := REVISION_DS;
    if |p.dacl| > 0 && p.dacl[0] > REVISION_DS {
      revision := p.dacl[0];
    }
    var out := Close(p, revision, kept);
    return Ok(Edit(out, true));
  }

  // ---- the entries SetDeniedObjectRight writes ----

  lemma DenyAceFields(mask: dword, objectType: bytes, trustee: bytes, ace: bytes)
    requires ace == DenyAce(mask, objectType, trustee)
    ensures |ace| == 12 + |objectType| + |trustee| && ace[0] == DENIED_OBJECT
    ensures U32(ace, 4) == mask && U32(ace, 8) == OBJECT_TYPE
    ensures ace[12..] == objectType + trustee
    ensures Sized(ace) <==> |ace| < 0x1_0000
  {
    var tail := objectType + trustee;
    var body := Le32(OBJECT_TYPE) + tail;
    assert Le32(OBJECT_TYPE) + objectType + trustee == body;
    BodyFields(mask, tail, body, ace);
  }

  lemma BodyFields(mask: dword, tail: bytes, body: bytes, ace: bytes)
    requires body == Le32(OBJECT_TYPE) + tail && ace == Entry(DENIED_OBJECT, 0, mask, body)
    ensures |ace| == 12 + |tail| && ace[0] == DENIED_OBJECT
    ensures U32(ace, 4) == mask && U32(ace, 8) == OBJECT_TYPE && ace[12..] == tail
    ensures Sized(ace) <==> |ace| < 0x1_0000
  {
    EntryFields(DENIED_OBJECT, 0, mask, body, ace);
    WordAfter(ace, body, OBJECT_TYPE, tail);
  }

  /** A 32-bit word that opens an entry's body, and what follows it. */
  lemma WordAfter(ace: bytes, body: bytes, n: dword, tail: bytes)
    requires |ace| >= 8 && ace[8..] == body && body == Le32(n) + tail
    ensures U32(ace, 8) == n && ace[12..] == tail
  {
    Le32Reads(ace[..8], n, tail);
    assert ace == ace[..8] + Le32(n) + tail;
  }

  lemma UntypedFields(mask: dword, trustee: bytes, body: bytes, ace: bytes)
    requires body == Le32(0) + trustee && ace == Entry(DENIED_OBJECT, 0, mask, body)
    ensures |ace| == 12 + |trustee| && ace[0] == DENIED_OBJECT && U32(ace, 4) == mask && U32(ace, 8) == 0
    ensures ace[12..] == trustee
  {
    EntryFields(DENIED_OBJECT, 0, mask, body, ace);
    WordAfter(ace, body, 0, trustee);
  }

  /** An entry without an object type denies no right on a given one, whatever else it says. */
  lemma UntypedEntryDeniesNoType(mask: dword, objectType: bytes, trustee: bytes, ace: bytes)
    requires mask != 0 && ace == Entry(DENIED_OBJECT, 0, mask, Le32(0) + trustee)
    ensures Denies(ace, mask, objectType, trustee) <==> objectType == []
  {
    UntypedFields(mask, trustee, Le32(0) + trustee, ace);
    AndSelf(mask);
    assert ace[12..12 + |trustee|] == ace[12..];
  }

  /** A written Deny is recognised for a trustee it starts with, given a mask and a whole object type. */
  lemma DenyAceDenies(mask: dword, objectType: bytes, written: bytes, asked: bytes)
    ensures Denies(DenyAce(mask, objectType, written), mask, objectType, asked)
            <==> mask != 0 && |objectType| == 16 && asked <= written
  {
    var ace := DenyAce(mask, objectType, written);
    DenyAceFields(mask, objectType, written, ace);
    AndSelf(mask);
    if |objectType| == 16 {
      var tail := objectType + written;
      assert ace[12..28] == tail[..16] == objectType;
      assert ace[28..] == tail[16..] == written;
      if |asked| <= |written| {
        assert ace[28..28 + |asked|] == ace[28..][..|asked|] == written[..|asked|];
      }
    }
  }

  /** The rule can be recognised in what is written for it: a mask, a whole object type, somebody to deny. */
  predicate Recognisable(rule: Rule) {
    rule.mask != 0 && |rule.objectType| == 16 && rule.trustees != []
  }

  lemma WrittenMatches(rule: Rule, i: nat)
    requires i < |rule.trustees|
    ensures MatchedBy(rule, DenyFor(rule)(rule.trustees[i])) <==> Recognisable(rule)
  {
    DenyAceDenies(rule.mask, rule.objectType, rule.trustees[i], rule.trustees[i]);
    if !Recognisable(rule) {
      forall j | 0 <= j < |rule.trustees|
        ensures !Denies(DenyFor(rule)(rule.trustees[i]), rule.mask, rule.objectType, rule.trustees[j])
      {
        DenyAceDenies(rule.mask, rule.objectType, rule.trustees[i], rule.trustees[j]);
      }
    }
  }

  /** All written entries match the rule they were written for, or none does. */
  lemma WrittenKeep(rule: Rule)
    ensures Keep(Map(rule.trustees, DenyFor(rule)), Unmatched(rule))
            == if Recognisable(rule) then [] else Map(rule.trustees, DenyFor(rule))
  {
    var written := Map(rule.trustees, DenyFor(rule));
    forall i | 0 <= i < |written|
      ensures Unmatched(rule)(written[i]) <==> !Recognisable(rule)
    {
      WrittenMatches(rule, i);
    }
    if Recognisable(rule) {
      KeepNone(written, Unmatched(rule));
    } else {
      KeepAll(written, Unmatched(rule));
    }
  }

  lemma AnyMatchedCount(list: seq<bytes>, rule: Rule)
    ensures AnyMatched(list, rule) <==> |Keep(list, Unmatched(rule))| != |list|
  {
    KeepLength(list, Unmatched(rule));
    assert forall i :: 0 <= i < |list| ==> list[i] in list;
  }

  lemma DenyListSized(list: seq<bytes>, rule: Rule, on: bool)
    requires AllSized(list) && Fits(DenyList(list, rule, on))
    ensures AllSized(DenyList(list, rule, on))
  {
    var written := DenyList(list, rule, on);
    KeepSized(list, Unmatched(rule));
    forall i | 0 <= i < |written| ensures Sized(written[i]) {
      EntryFitsList(written, i);
      if on && i < |rule.trustees| {
        DenyAceFields(rule.mask, rule.objectType, rule.trustees[i], written[i]);
      }
    }
  }

  /** What the written list keeps of a filter for foreign entries: the old ones, then what it wrote. */
  lemma DenyListKeep(list: seq<bytes>, rule: Rule, on: bool)
    ensures Keep(DenyList(list, rule, on), Unmatched(rule))
            == (if on && !Recognisable(rule) then Map(rule.trustees, DenyFor(rule)) else [])
               + Keep(list, Unmatched(rule))
  {
    var kept := Keep(list, Unmatched(rule));
    KeepMembers(list, Unmatched(rule));
    KeepAll(kept, Unmatched(rule));
    KeepAppend(if on then Map(rule.trustees, DenyFor(rule)) else [], kept, Unmatched(rule));
    WrittenKeep(rule);
  }

  lemma DenyReads(sd: bytes, v: View, on: bool, rule: Rule)
    requires Read(sd) == Ok(v) && !DenySettled(v.list, rule, on) && Fits(DenyList(v.list, rule, on))
    ensures Read(DenyEdit(sd, on, rule).value.sd)
            == Ok(View(Edited(v.parsed, RaisedRevision(v.parsed), DenyList(v.list, rule, on)), DenyList(v.list, rule, on)))
  {
    ReadFacts(sd);
    DenyListSized(v.list, rule, on);
    EditedReads(v.parsed, RaisedRevision(v.parsed), DenyList(v.list, rule, on));
  }

  /** Lifting leaves the right not denied; denying leaves it denied exactly when the rule is recognisable. */
  lemma SetThenHas(sd: bytes, v: View, on: bool, rule: Rule)
    requires Read(sd) == Ok(v) && Fits(DenyList(v.list, rule, on))
    ensures HasDenied(DenyEdit(sd, on, rule).value.sd, rule)
            == Ok(on && (DenySettled(v.list, rule, true) || Recognisable(rule)))
  {
    AnyMatchedCount(v.list, rule);
    if !DenySettled(v.list, rule, on) {
      var list := DenyList(v.list, rule, on);
      DenyReads(sd, v, on, rule);
      DenyListKeep(v.list, rule, on);
      AnyMatchedCount(list, rule);
    }
  }

  lemma WrittenIsSettled(list: seq<bytes>, on: bool, rule: Rule, written: seq<bytes>)
    requires !DenySettled(list, rule, on) && written == DenyList(list, rule, on)
    ensures DenySettled(written, rule, on) <==> !on || Recognisable(rule)
  {
    DenyListKeep(list, rule, on);
  }

  lemma DenyEditOf(sd: bytes, list: seq<bytes>, on: bool, rule: Rule)
    requires Read(sd).Ok? && Read(sd).value.list == list
    ensures DenyEdit(sd, on, rule) == Ok(Edit(sd, false)) <==> DenySettled(list, rule, on)
  {
  }

  /** After a change, the same request again reports none exactly when the rule is recognisable (or lifted). */
  lemma SecondCallSettles(sd: bytes, v: View, on: bool, rule: Rule)
    requires Read(sd) == Ok(v) && Fits(DenyList(v.list, rule, on)) && !DenySettled(v.list, rule, on)
    ensures var once := DenyEdit(sd, on, rule).value.sd;
            DenyEdit(once, on, rule) == Ok(Edit(once, false)) <==> !on || Recognisable(rule)
  {
    DenyReads(sd, v, on, rule);
    WrittenIsSettled(v.list, on, rule, DenyList(v.list, rule, on));
    DenyEditOf(DenyEdit(sd, on, rule).value.sd, DenyList(v.list, rule, on), on, rule);
  }

  // ---- counting entries instead of trustees ----

  function DenyCount(list: seq<bytes>, rule: Rule, trustee: bytes): nat {
    |Keep(list, DeniesTo(rule, trustee))|
  }

  /** The denials of every trustee, added up. */
  function TotalDenials(list: seq<bytes>, rule: Rule): nat
    decreases |rule.trustees|
  {
    if rule.trustees == [] then 0
    else DenyCount(list, rule, rule.trustees[0]) + TotalDenials(list, rule.(trustees := rule.trustees[1..]))
  }

  /** Trustees none of which starts another: no entry can name two of them. */
  predicate Separable(trustees: seq<bytes>) {
    forall i, j :: 0 <= i < |trustees| && 0 <= j < |trustees| && i != j ==> !(trustees[i] <= trustees[j])
  }

  lemma WholeSidPrefix(a: bytes, b: bytes)
    requires SidLen(a) == Ok(|a|) && SidLen(b) == Ok(|b|)
    ensures a <= b ==> a == b
  {
    if a <= b {
      assert b[..|a|] == a && a[1] == b[1];
      assert b[..|b|] == b;
    }
  }

  /** Different whole SIDs are such trustees, whatever their lengths: the second byte fixes the length. */
  lemma WholeSidsSeparable(trustees: seq<bytes>)
    requires forall i :: 0 <= i < |trustees| ==> SidLen(trustees[i]) == Ok(|trustees[i]|)
    requires forall i, j :: 0 <= i < j < |trustees| ==> trustees[i] != trustees[j]
    ensures Separable(trustees)
  {
    forall i, j | 0 <= i < |trustees| && 0 <= j < |trustees| && i != j ensures !(trustees[i] <= trustees[j]) {
      WholeSidPrefix(trustees[i], trustees[j]);
    }
  }

  predicate AllDenied(list: seq<bytes>, rule: Rule) {
    forall i :: 0 <= i < |rule.trustees| ==> DenyCount(list, rule, rule.trustees[i]) > 0
  }

  lemma {:induction false} KeepDisjoint<T>(s: seq<T>, p: T -> bool, q: T -> bool, both: T -> bool)
    requires forall x :: x in s ==> !(p(x) && q(x))
    requires forall x :: x in s ==> (both(x) <==> p(x) || q(x))
    ensures |Keep(s, both)| == |Keep(s, p)| + |Keep(s, q)|
  {
    if s != [] {
      assert s[0] in s;
      KeepDisjoint(s[1..], p, q, both);
    }
  }

  lemma {:induction false} KeepComplement<T>(s: seq<T>, p: T -> bool, q: T -> bool)
    requires forall x :: x in s ==> (p(x) <==> !q(x))
    ensures |Keep(s, p)| + |Keep(s, q)| == |s|
  {
    if s != [] {
      assert s[0] in s;
      KeepComplement(s[1..], p, q);
    }
  }

  lemma TrusteesNested(ace: bytes, off: nat, a: bytes, b: bytes)
    requires TrusteeAt(ace, off, a) && TrusteeAt(ace, off, b) && |a| <= |b|
    ensures a <= b
  {
    assert b[..|a|] == ace[off..off + |b|][..|a|] == ace[off..off + |a|];
  }

  /** An entry that denies to two trustees denies to one that starts the other. */
  lemma DeniedNested(ace: bytes, mask: dword, objectType: bytes, a: bytes, b: bytes)
    requires Denies(ace, mask, objectType, a) && Denies(ace, mask, objectType, b)
    ensures a <= b || b <= a
  {
    var flags := U32(ace, 8);
    var off := (if Has(flags, OBJECT_TYPE) then 28 else 12) + if Has(flags, INHERITED_OBJECT_TYPE) then 16 else 0;
    if |a| <= |b| {
      TrusteesNested(ace, off, a, b);
    } else {
      TrusteesNested(ace, off, b, a);
    }
  }

  lemma MatchedOr(rule: Rule, rest: Rule, ace: bytes)
    requires rule.trustees != [] && rest == rule.(trustees := rule.trustees[1..])
    ensures MatchedBy(rule, ace) <==> DeniesTo(rule, rule.trustees[0])(ace) || MatchedBy(rest, ace)
  {
    if MatchedBy(rest, ace) {
      var i :| 0 <= i < |rest.trustees| && Denies(ace, rest.mask, rest.objectType, rest.trustees[i]);
      assert rest.trustees[i] == rule.trustees[i + 1];
    }
    if MatchedBy(rule, ace) {
      var i :| 0 <= i < |rule.trustees| && Denies(ace, rule.mask, rule.objectType, rule.trustees[i]);
      assert i > 0 ==> rest.trustees[i - 1] == rule.trustees[i];
    }
  }

  lemma MatchedSplit(rule: Rule, rest: Rule, ace: bytes)
    requires rule.trustees != [] && Separable(rule.trustees) && rest == rule.(trustees := rule.trustees[1..])
    ensures MatchedBy(rule, ace) <==> DeniesTo(rule, rule.trustees[0])(ace) || MatchedBy(rest, ace)
    ensures !(DeniesTo(rule, rule.trustees[0])(ace) && MatchedBy(rest, ace))
  {
    MatchedOr(rule, rest, ace);
    if DeniesTo(rule, rule.trustees[0])(ace) && MatchedBy(rest, ace) {
      var i :| 0 <= i < |rest.trustees| && Denies(ace, rest.mask, rest.objectType, rest.trustees[i]);
      assert rest.trustees[i] == rule.trustees[i + 1];
      DeniedNested(ace, rule.mask, rule.objectType, rule.trustees[0], rule.trustees[i + 1]);
    }
  }

  /** Double counting: the matching entries are the denials of each trustee, added up. */
  lemma {:induction false} MatchedIsTotal(list: seq<bytes>, rule: Rule)
    requires Separable(rule.trustees)
    ensures |Keep(list, Matched(rule))| == TotalDenials(list, rule)
    decreases |rule.trustees|
  {
    if rule.trustees == [] {
      KeepNone(list, Matched(rule));
    } else {
      var rest := rule.(trustees := rule.trustees[1..]);
      forall a | a in list
        ensures Matched(rule)(a) <==> DeniesTo(rule, rule.trustees[0])(a) || Matched(rest)(a)
        ensures !(DeniesTo(rule, rule.trustees[0])(a) && Matched(rest)(a))
      {
        MatchedSplit(rule, rest, a);
      }
      KeepDisjoint(list, DeniesTo(rule, rule.trustees[0]), Matched(rest), Matched(rule));
      MatchedIsTotal(list, rest);
    }
  }

  /** With at most one denial each, n denials of n trustees leave nobody out. */
  lemma {:induction false} Pigeonhole(list: seq<bytes>, rule: Rule)
    requires forall i :: 0 <= i < |rule.trustees| ==> DenyCount(list, rule, rule.trustees[i]) <= 1
    ensures TotalDenials(list, rule) <= |rule.trustees|
    ensures TotalDenials(list, rule) == |rule.trustees| ==> AllDenied(list, rule)
    decreases |rule.trustees|
  {
    if rule.trustees != [] {
      var rest := rule.(trustees := rule.trustees[1..]);
      assert forall i :: 0 <= i < |rest.trustees| ==>
          DenyCount(list, rest, rest.trustees[i]) == DenyCount(list, rule, rule.trustees[i + 1]);
      Pigeonhole(list, rest);
      assert forall i :: 0 < i < |rule.trustees| ==> rule.trustees[i] == rest.trustees[i - 1];
    }
  }

  /** Among the written entries each trustee is named once. */
  lemma {:induction false} WrittenCount(rule: Rule, trustees: seq<bytes>, asked: bytes)
    requires rule.mask != 0 && |rule.objectType| == 16 && Separable(trustees)
    requires forall i :: 0 <= i < |trustees| && asked <= trustees[i] ==> asked == trustees[i]
    ensures DenyCount(Map(trustees, DenyFor(rule)), rule, asked) == if asked in trustees then 1 else 0
  {
    if trustees != [] {
      WrittenCount(rule, trustees[1..], asked);
      DenyAceDenies(rule.mask, rule.objectType, trustees[0], asked);
      assert forall i, j :: 0 <= i < |trustees| - 1 && 0 <= j < |trustees| - 1 ==>
          trustees[1..][i] == trustees[i + 1] && trustees[1..][j] == trustees[j + 1];
      assert asked in trustees[1..] ==> asked != trustees[0];
      assert Map(trustees, DenyFor(rule))[1..] == Map(trustees[1..], DenyFor(rule));
    }
  }

  lemma KeptCount(list: seq<bytes>, rule: Rule, i: nat)
    requires i < |rule.trustees|
    ensures DenyCount(Keep(list, Unmatched(rule)), rule, rule.trustees[i]) == 0
  {
    var kept := Keep(list, Unmatched(rule));
    KeepMembers(list, Unmatched(rule));
    KeepNone(kept, DeniesTo(rule, rule.trustees[i]));
  }

  /** What a denying call leaves: the list untouched, or every trustee denied once ahead of the others' entries. */
  lemma DenyingLeaves(list: seq<bytes>, rule: Rule, i: nat)
    requires Recognisable(rule) && Separable(rule.trustees) && i < |rule.trustees|
    ensures DenyCount(DenyList(list, rule, true), rule, rule.trustees[i]) == 1
  {
    var written := Map(rule.trustees, DenyFor(rule));
    KeepAppend(written, Keep(list, Unmatched(rule)), DeniesTo(rule, rule.trustees[i]));
    WrittenCount(rule, rule.trustees, rule.trustees[i]);
    KeptCount(list, rule, i);
  }

  function AfterDenying(list: seq<bytes>, rule: Rule): seq<bytes> {
    if DenySettled(list, rule, true) then list else DenyList(list, rule, true)
  }

  /** With trustees told apart and none denied twice, each ends up denied exactly once. */
  lemma DenyingIsExact(list: seq<bytes>, rule: Rule, i: nat)
    requires Recognisable(rule) && Separable(rule.trustees) && i < |rule.trustees|
    requires forall k :: 0 <= k < |rule.trustees| ==> DenyCount(list, rule, rule.trustees[k]) <= 1
    ensures DenyCount(AfterDenying(list, rule), rule, rule.trustees[i]) == 1
    ensures Keep(AfterDenying(list, rule), Unmatched(rule)) == Keep(list, Unmatched(rule))
  {
    if DenySettled(list, rule, true) {
      KeepComplement(list, Matched(rule), Unmatched(rule));
      MatchedIsTotal(list, rule);
      Pigeonhole(list, rule);
    } else {
      DenyingLeaves(list, rule, i);
      DenyListKeep(list, rule, true);
    }
  }

  /** Every trustee ends up denied exactly when the count did not coincide by accident. */
  lemma DenyingCoversExactly(list: seq<bytes>, rule: Rule)
    requires Recognisable(rule) && Separable(rule.trustees)
    ensures AllDenied(AfterDenying(list, rule), rule)
            <==> (|Keep(list, Matched(rule))| != |rule.trustees| || AllDenied(list, rule))
  {
    KeepComplement(list, Matched(rule), Unmatched(rule));
    if !DenySettled(list, rule, true) {
      forall i | 0 <= i < |rule.trustees| ensures DenyCount(DenyList(list, rule, true), rule, rule.trustees[i]) > 0 {
        DenyingLeaves(list, rule, i);
      }
    }
  }

  /** The accident: one trustee denied twice hides that the other is not denied at all. */
  lemma CountHidesMissingTrustee(mask: dword, objectType: bytes, denied: bytes, missing: bytes)
    requires mask != 0 && |objectType| == 16 && !(missing <= denied)
    ensures var rule := Rule(mask, objectType, [denied, missing]);
            var list := [DenyAce(mask, objectType, denied), DenyAce(mask, objectType, denied)];
            && DenySettled(list, rule, true)
            && DenyCount(AfterDenying(list, rule), rule, missing) == 0
  {
    var rule := Rule(mask, objectType, [denied, missing]);
    var ace := DenyAce(mask, objectType, denied);
    var list := [ace, ace];
    DenyAceDenies(mask, objectType, denied, denied);
    DenyAceDenies(mask, objectType, denied, missing);
    assert Denies(ace, rule.mask, rule.objectType, rule.trustees[0]);
    KeepNone(list, Unmatched(rule));
    KeepNone(list, DeniesTo(rule, missing));
  }

  // ---- the same on descriptors ----

  function Only(rule: Rule, trustee: bytes): Rule {
    rule.(trustees := [trustee])
  }

  lemma AnyMatchedOnly(list: seq<bytes>, rule: Rule, trustee: bytes)
    ensures AnyMatched(list, Only(rule, trustee)) <==> DenyCount(list, rule, trustee) > 0
  {
    var only := Only(rule, trustee);
    forall a ensures MatchedBy(only, a) <==> DeniesTo(rule, trustee)(a) {
      assert only.trustees[0] == trustee;
    }
    if AnyMatched(list, only) {
      var i :| 0 <= i < |list| && MatchedBy(only, list[i]);
      KeepMembers(list, DeniesTo(rule, trustee));
    } else {
      KeepNone(list, DeniesTo(rule, trustee));
    }
  }

  /** The list a denying call leaves in the descriptor. */
  lemma DenyLeaves(sd: bytes, v: View, rule: Rule)
    requires Read(sd) == Ok(v) && Fits(DenyList(v.list, rule, true))
    ensures DenyEdit(sd, true, rule).Ok? && Read(DenyEdit(sd, true, rule).value.sd).Ok?
    ensures Read(DenyEdit(sd, true, rule).value.sd).value.list == AfterDenying(v.list, rule)
  {
    if !DenySettled(v.list, rule, true) {
      DenyReads(sd, v, true, rule);
    }
  }

  /** After a denying call each trustee, asked about on its own, has the right denied, exactly when the count did not
      coincide by accident. */
  lemma DeniedToEachExactly(sd: bytes, v: View, rule: Rule)
    requires Read(sd) == Ok(v) && Fits(DenyList(v.list, rule, true))
    requires Recognisable(rule) && Separable(rule.trustees)
    ensures var after := DenyEdit(sd, true, rule).value.sd;
            (forall i :: 0 <= i < |rule.trustees| ==> HasDenied(after, Only(rule, rule.trustees[i])) == Ok(true))
            <==> (|Keep(v.list, Matched(rule))| != |rule.trustees| || AllDenied(v.list, rule))
  {
    DenyLeaves(sd, v, rule);
    DenyingCoversExactly(v.list, rule);
    var list := AfterDenying(v.list, rule);
    forall i | 0 <= i < |rule.trustees|
      ensures HasDenied(DenyEdit(sd, true, rule).value.sd, Only(rule, rule.trustees[i])) == Ok(true)
              <==> DenyCount(list, rule, rule.trustees[i]) > 0
    {
      AnyMatchedOnly(list, rule, rule.trustees[i]);
    }
  }

  /** And for a descriptor that holds one Deny twice, the call for a second trustee says that there is nothing to do,
      while asking for that trustee alone says that nothing is denied. */
  lemma MissingTrusteeStaysAllowed(sd: bytes, mask: dword, objectType: bytes, denied: bytes, missing: bytes)
    requires mask != 0 && |objectType| == 16 && !(missing <= denied)
    requires Read(sd).Ok?
    requires Read(sd).value.list == [DenyAce(mask, objectType, denied), DenyAce(mask, objectType, denied)]
    ensures var rule := Rule(mask, objectType, [denied, missing]);
            && DenyEdit(sd, true, rule) == Ok(Edit(sd, false))
            && HasDenied(sd, rule) == Ok(true) && HasDenied(sd, Only(rule, missing)) == Ok(false)
  {
    var rule, list := Rule(mask, objectType, [denied, missing]), Read(sd).value.list;
    CountHidesMissingTrustee(mask, objectType, denied, missing);
    AnyMatchedOnly(list, rule, missing);
    DenyEditOf(sd, list, true, rule);
    AnyMatchedCount(list, rule);
  }

  /** There are such descriptors, around any other content. */
  lemma TwiceDenied(p: Parsed, mask: dword, objectType: bytes, denied: bytes, list: seq<bytes>)
    requires WellFormed(p) && list == [DenyAce(mask, objectType, denied), DenyAce(mask, objectType, denied)] && Fits(list)
    ensures Read(Rewritten(p, REVISION_DS, list)).Ok? && Read(Rewritten(p, REVISION_DS, list)).value.list == list
  {
    var ace := DenyAce(mask, objectType, denied);
    DenyAceFields(mask, objectType, denied, ace);
    FlatAppend([ace], [ace]);
    FlatOne(ace);
    assert list == [ace] + [ace];
    EditedReads(p, REVISION_DS, list);
  }
}
