// DecodeACEs, AddACEs and RemoveACEs of internal/secdesc/ace.go.
module AceEdits {
  import opened Wrappers
  import opened Bytes
  import opened Lists
  import opened Descriptor
  import opened Dacl
  import opened Protection
  import opened DeniedObject
  import opened Ace

  function Listed(d: Option<DecodedAce>): seq<DecodedAce> {
    if d.Some? then [d.value] else []
  }

  function DecodeAll(list: seq<bytes>): Result<seq<DecodedAce>, Error> {
    if list == [] then Ok([])
    else
      var d :- DecodeAce(list[0]);
      Before(Listed(d), DecodeAll(list[1..]))
  }

  function DecodedOf(sd: bytes): Result<seq<DecodedAce>, Error> {
    if sd == [] then Ok([])
    else
      var v :- Read(sd);
      DecodeAll(v.list)
  }

  method DecodeEntries(list: seq<bytes>) returns (r: Result<seq<DecodedAce>, Error>)
    ensures r == DecodeAll(list)
  {
    var out: seq<DecodedAce> := [];
    BeforeNothing(DecodeAll(list));
    for i := 0 to |list|
      invariant DecodeAll(list) == Before(out, DecodeAll(list[i..]))
    {
      assert list[i..][0] == list[i] && list[i..][1..] == list[i + 1..];
      var d := DecodeAce(list[i]);
      if d.Err? {
        return Err(d.error);
      }
      BeforeStep(out, Listed(d.value), DecodeAll(list[i + 1..]));
      out := out + Listed(d.value);
    }
    assert out + [] == out;
    return Ok(out);
  }

  method DecodeACEs(sd: bytes) returns (r: Result<seq<DecodedAce>, Error>)
    ensures r == DecodedOf(sd)
  {
    if |sd| == 0 {
      return Ok([]);
    }
    var view := Open(sd);
    if view.Err? {
      return Err(view.error);
    }
    if |view.value.parsed.dacl| == 0 {
      return Ok([]);
    }
    r := DecodeEntries(view.value.list);
  }

  // ---- AddACEs ----

  predicate HasObjectAce(list: seq<bytes>) {
    exists i :: 0 <= i < |list| && |list[i]| > 0 && IsObjectType(list[i][0])
  }

  function RevisionFor(list: seq<bytes>): byte {
    if HasObjectAce(list) then REVISION_DS else 2
  }

  /** aclRevisionFor: the first object entry decides. */
  method AclRevisionFor(list: seq<bytes>) returns (r: byte)
    requires forall i :: 0 <= i < |list| ==> |list[i]| > 0
    ensures r == RevisionFor(list)
  {
    for i := 0 to |list|
      invariant forall j :: 0 <= j < i ==> !IsObjectType(list[j][0])
    {
      if IsObjectType(list[i][0]) {
        return REVISION_DS;
      }
    }
    return 2;
  }

  const ENCODED := (a: DecodedAce) => EncodeAce(a)

  function AddEdit(sd: bytes, add: seq<DecodedAce>): Result<Edit, Error> {
    if add == [] then Ok(Edit(sd, false))
    else
      var v :- Read(sd);
      var list := v.list + Map(add, ENCODED);
      Ok(Edit(Rewritten(v.parsed, RevisionFor(list), list), true))
  }

  method AppendEncoded(list: seq<bytes>, add: seq<DecodedAce>) returns (out: seq<bytes>)
    ensures out == list + Map(add, ENCODED)
  {
    out := list;
    for i := 0 to |add|
      invariant out == list + Map(add[..i], ENCODED)
    {
      MapStep(add, i, ENCODED);
      out := out + [EncodeAce(add[i])];
    }
    assert add[..|add|] == add;
  }

  method AddACEs(sd: bytes, add: seq<DecodedAce>) returns (r: Result<Edit, Error>)
    ensures r == AddEdit(sd, add)
  {
    if |add| == 0 {
      return Ok(Edit(sd, false));
    }
    var view := Open(sd);
    if view.Err? {
      return Err(view.error);
    }
    ReadFacts(sd);
    var list := AppendEncoded(view.value.list, add);
    var revision := AclRevisionFor(list);
    var out := Close(view.value.parsed, revision, list);
    return Ok(Edit(out, true));
  }

  // ---- RemoveACEs ----

  /** An entry is a candidate only when it decodes and is not inherited. */
  predicate Drops(d: Option<DecodedAce>, matches: DecodedAce -> bool) {
    d.Some? && !d.value.inherited && matches(d.value)
  }

  function Survivors(list: seq<bytes>, matches: DecodedAce -> bool): (r: Result<seq<bytes>, Error>)
    ensures r.Ok? ==> |r.value| <= |list|
  {
    if list == [] then Ok([])
    else
      var d :- DecodeAce(list[0]);
      if Drops(d, matches) then Survivors(list[1..], matches)
      else Before([list[0]], Survivors(list[1..], matches))
  }

  function RemoveEdit(sd: bytes, matches: DecodedAce -> bool): Result<Edit, Error> {
    var v :- Read(sd);
    var kept :- Survivors(v.list, matches);
    if |kept| == |v.list| then Ok(Edit(sd, false))
    else Ok(Edit(Rewritten(v.parsed, RevisionFor(kept), kept), true))
  }

  method DropMatching(list: seq<bytes>, matches: DecodedAce -> bool)
    returns (r: Result<seq<bytes>, Error>, changed: bool)
    ensures r == Survivors(list, matches)
    ensures r.Ok? ==> (changed <==> |r.value| < |list|)
  {
    var kept: seq<bytes>;
    kept, changed := [], false;
    BeforeNothing(Survivors(list, matches));
    for i := 0 to |list|
      invariant Survivors(list, matches) == Before(kept, Survivors(list[i..], matches))
      invariant |kept| <= i && (changed <==> |kept| < i)
    {
      assert list[i..][0] == list[i] && list[i..][1..] == list[i + 1..];
      var d := DecodeAce(list[i]);
      if d.Err? {
        return Err(d.error), changed;
      }
      if d.value.Some? && !d.value.value.inherited && matches(d.value.value) {
        changed := true;
      } else {
        BeforeStep(kept, [list[i]], Survivors(list[i + 1..], matches));
        kept := kept + [list[i]];
      }
    }
    assert kept + [] == kept;
    return Ok(kept), changed;
  }

  method RemoveACEs(sd: bytes, matches: DecodedAce -> bool) returns (r: Result<Edit, Error>)
    ensures r == RemoveEdit(sd, matches)
  {
    var view := Open(sd);
    if view.Err? {
      return Err(view.error);
    }
    var View(p, list) := view.value;
    var kept, changed := DropMatching(list, matches);
    if kept.Err? {
      return Err(kept.error);
    }
    if !changed {
      return Ok(Edit(sd, false));
    }
    ReadFacts(sd);
    SurvivorsSized(list, matches);
    var revision := AclRevisionFor(kept.value);
    var out := Close(p, revision, kept.value);
    return Ok(Edit(out, true));
  }

  // ---- decoded lists follow the edits ----

  predicate AllDecode(list: seq<bytes>) {
    forall i :: 0 <= i < |list| ==> DecodeAce(list[i]).Ok?
  }

  lemma {:induction false} DecodeAllDefined(list: seq<bytes>)
    ensures DecodeAll(list).Ok? <==> AllDecode(list)
  {
    if list != [] {
      DecodeAllDefined(list[1..]);
      assert forall i :: 0 < i < |list| ==> list[i] == list[1..][i - 1];
    }
  }

  lemma {:induction false} DecodeAllAppend(a: seq<bytes>, b: seq<bytes>)
    requires DecodeAll(a).Ok?
    ensures DecodeAll(a + b) == Before(DecodeAll(a).value, DecodeAll(b))
  {
    if a == [] {
      assert a + b == b;
      BeforeNothing(DecodeAll(b));
    } else {
      assert (a + b)[1..] == a[1..] + b;
      DecodeAllAppend(a[1..], b);
      BeforeStep(Listed(DecodeAce(a[0]).value), DecodeAll(a[1..]).value, DecodeAll(b));
    }
  }

  predicate AllEncodable(add: seq<DecodedAce>) {
    forall i :: 0 <= i < |add| ==> Encodable(add[i])
  }

  const STAMP := (a: DecodedAce) => Stamped(a)

  lemma EncodedAreSized(add: seq<DecodedAce>)
    requires AllEncodable(add)
    ensures AllSized(Map(add, ENCODED))
  {
    forall i | 0 <= i < |add| ensures Sized(Map(add, ENCODED)[i]) {
      EncodedFields(add[i], EncodeAce(add[i]));
    }
  }

  lemma {:induction false} DecodeAllEncoded(add: seq<DecodedAce>)
    requires AllEncodable(add)
    ensures DecodeAll(Map(add, ENCODED)) == Ok(Map(add, STAMP)) && AllSized(Map(add, ENCODED))
  {
    EncodedAreSized(add);
    if add != [] {
      DecodeAllEncoded(add[1..]);
      DecodeInvertsEncode(add[0]);
      var list := Map(add, ENCODED);
      assert list[1..] == Map(add[1..], ENCODED);
      assert Before([Stamped(add[0])], DecodeAll(list[1..])) == Ok([Stamped(add[0])] + Map(add[1..], STAMP));
    }
  }

  lemma AddedReads(sd: bytes, v: View, add: seq<DecodedAce>)
    requires Read(sd) == Ok(v) && add != [] && AllEncodable(add) && Fits(v.list + Map(add, ENCODED))
    ensures var list := v.list + Map(add, ENCODED);
            Read(AddEdit(sd, add).value.sd) == Ok(View(Edited(v.parsed, RevisionFor(list), list), list))
  {
    ReadFacts(sd);
    DecodeAllEncoded(add);
    var list := v.list + Map(add, ENCODED);
    EditedReads(v.parsed, RevisionFor(list), list);
  }

  lemma WrittenIsNotEmpty(p: Parsed, revision: byte, list: seq<bytes>)
    ensures Rewritten(p, revision, list) != []
  {
  }

  /** What DecodeACEs sees after an add is what it saw before, then the added entries. */
  lemma AddThenDecode(sd: bytes, v: View, add: seq<DecodedAce>)
    requires Read(sd) == Ok(v) && DecodeAll(v.list).Ok?
    requires add != [] && AllEncodable(add) && Fits(v.list + Map(add, ENCODED))
    ensures DecodedOf(AddEdit(sd, add).value.sd) == Ok(DecodeAll(v.list).value + Map(add, STAMP))
  {
    AddedReads(sd, v, add);
    DecodeAllEncoded(add);
    DecodeAllAppend(v.list, Map(add, ENCODED));
  }

  function Stays(matches: DecodedAce -> bool): DecodedAce -> bool {
    (d: DecodedAce) => d.inherited || !matches(d)
  }

  lemma {:induction false} SurvivorsDecode(list: seq<bytes>, matches: DecodedAce -> bool)
    ensures AllDecode(list) <==> Survivors(list, matches).Ok?
    ensures AllDecode(list) ==> DecodeAll(list).Ok?
    ensures AllDecode(list) ==>
              DecodeAll(Survivors(list, matches).value) == Ok(Keep(DecodeAll(list).value, Stays(matches)))
  {
    if list != [] {
      var rest := list[1..];
      SurvivorsDecode(rest, matches);
      assert AllDecode(list) <==> DecodeAce(list[0]).Ok? && AllDecode(rest) by {
        assert forall i :: 0 < i < |list| ==> list[i] == rest[i - 1];
      }
      if AllDecode(list) {
        var kept := Survivors(rest, matches).value;
        var d := DecodeAce(list[0]).value;
        assert ([list[0]] + kept)[1..] == kept;
        KeepAppend(Listed(d), DecodeAll(rest).value, Stays(matches));
        assert Keep(Listed(d), Stays(matches)) == if Drops(d, matches) then [] else Listed(d);
      }
    }
  }

  lemma {:induction false} SurvivorsSized(list: seq<bytes>, matches: DecodedAce -> bool)
    requires AllSized(list) && Survivors(list, matches).Ok?
    ensures AllSized(Survivors(list, matches).value)
    ensures |Flat(Survivors(list, matches).value)| <= |Flat(list)|
  {
    if list != [] {
      assert Sized(list[0]);
      SurvivorsSized(list[1..], matches);
      var kept := Survivors(list[1..], matches).value;
      assert ([list[0]] + kept)[1..] == kept;
    }
  }

  /** The surviving entries are the old ones untouched, in order, as any filter for foreign entries sees them. */
  lemma {:induction false} SurvivorsKeep(list: seq<bytes>, matches: DecodedAce -> bool, q: bytes -> bool)
    requires Survivors(list, matches).Ok?
    requires forall a :: a in list && q(a) ==> DecodeAce(a).Ok? && !Drops(DecodeAce(a).value, matches)
    ensures Keep(Survivors(list, matches).value, q) == Keep(list, q)
  {
    if list != [] {
      assert list[0] in list;
      SurvivorsKeep(list[1..], matches, q);
      var kept := Survivors(list[1..], matches).value;
      assert ([list[0]] + kept)[1..] == kept;
    }
  }

  lemma RemovedReads(sd: bytes, v: View, matches: DecodedAce -> bool, kept: seq<bytes>)
    requires Read(sd) == Ok(v) && Survivors(v.list, matches) == Ok(kept) && |kept| < |v.list|
    ensures RemoveEdit(sd, matches).Ok? && RemoveEdit(sd, matches).value.changed
    ensures Read(RemoveEdit(sd, matches).value.sd) == Ok(View(Edited(v.parsed, RevisionFor(kept), kept), kept))
  {
    ReadFacts(sd);
    SurvivorsSized(v.list, matches);
    EditedReads(v.parsed, RevisionFor(kept), kept);
  }

  lemma {:induction false} SurvivorsAll(list: seq<bytes>, matches: DecodedAce -> bool)
    requires Survivors(list, matches).Ok? && |Survivors(list, matches).value| == |list|
    ensures Survivors(list, matches) == Ok(list)
  {
    if list != [] {
      SurvivorsAll(list[1..], matches);
      assert [list[0]] + list[1..] == list;
    }
  }

  /** What DecodeACEs sees after a removal is the old list without the explicit matching entries. */
  lemma RemoveThenDecode(sd: bytes, v: View, matches: DecodedAce -> bool)
    requires Read(sd) == Ok(v) && sd != []
    ensures RemoveEdit(sd, matches).Ok? <==> AllDecode(v.list)
    ensures AllDecode(v.list) ==> DecodeAll(v.list).Ok?
    ensures AllDecode(v.list) ==>
              DecodedOf(RemoveEdit(sd, matches).value.sd) == Ok(Keep(DecodeAll(v.list).value, Stays(matches)))
  {
    SurvivorsDecode(v.list, matches);
    if AllDecode(v.list) {
      var kept := Survivors(v.list, matches).value;
      if |kept| == |v.list| {
        SurvivorsAll(v.list, matches);
      } else {
        RemovedReads(sd, v, matches, kept);
      }
    }
  }

  lemma {:induction false} SurvivorsAppend(a: seq<bytes>, b: seq<bytes>, matches: DecodedAce -> bool)
    requires Survivors(a, matches).Ok?
    ensures Survivors(a + b, matches) == Before(Survivors(a, matches).value, Survivors(b, matches))
  {
    if a == [] {
      assert a + b == b;
      BeforeNothing(Survivors(b, matches));
    } else {
      assert (a + b)[1..] == a[1..] + b;
      SurvivorsAppend(a[1..], b, matches);
      BeforeStep([a[0]], Survivors(a[1..], matches).value, Survivors(b, matches));
    }
  }

  lemma {:induction false} SurvivorsOfUnmatched(list: seq<bytes>, matches: DecodedAce -> bool)
    requires AllDecode(list) && forall i :: 0 <= i < |list| ==> !Drops(DecodeAce(list[i]).value, matches)
    ensures Survivors(list, matches) == Ok(list)
  {
    if list != [] {
      SurvivorsOfUnmatched(list[1..], matches);
      assert [list[0]] + list[1..] == list;
    }
  }

  lemma {:induction false} SurvivorsOfMatched(add: seq<DecodedAce>, matches: DecodedAce -> bool)
    requires AllEncodable(add)
    requires forall i :: 0 <= i < |add| ==> !Has(add[i].flags, INHERITED) && matches(Stamped(add[i]))
    ensures Survivors(Map(add, ENCODED), matches) == Ok([])
  {
    if add != [] {
      SurvivorsOfMatched(add[1..], matches);
      DecodeInvertsEncode(add[0]);
      assert Map(add, ENCODED)[1..] == Map(add[1..], ENCODED);
    }
  }

  /** Removing exactly what was added gives the old entry list back, byte for byte. */
  lemma AddThenRemove(sd: bytes, v: View, add: seq<DecodedAce>, matches: DecodedAce -> bool)
    requires Read(sd) == Ok(v) && AllDecode(v.list)
    requires add != [] && AllEncodable(add) && Fits(v.list + Map(add, ENCODED))
    requires forall i :: 0 <= i < |add| ==> !Has(add[i].flags, INHERITED) && matches(Stamped(add[i]))
    requires forall i :: 0 <= i < |v.list| ==> !Drops(DecodeAce(v.list[i]).value, matches)
    ensures var added := AddEdit(sd, add).value.sd;
            && RemoveEdit(added, matches).Ok? && RemoveEdit(added, matches).value.changed
            && Read(RemoveEdit(added, matches).value.sd).Ok?
            && Read(RemoveEdit(added, matches).value.sd).value.list == v.list
  {
    var list := v.list + Map(add, ENCODED);
    AddedReads(sd, v, add);
    SurvivorsOfUnmatched(v.list, matches);
    SurvivorsOfMatched(add, matches);
    SurvivorsAppend(v.list, Map(add, ENCODED), matches);
    assert v.list + [] == v.list;
    assert Survivors(list, matches) == Ok(v.list);
    RemovedReads(AddEdit(sd, add).value.sd, View(Edited(v.parsed, RevisionFor(list), list), list), matches, v.list);
  }
}
