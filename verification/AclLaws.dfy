// What Get, Grant and Revoke of acl.go mean to each other.
module AclLaws {
  import opened Wrappers
  import opened Bytes
  import opened Lists
  import Rights
  import Guid
  import Sid
  import opened Dacl
  import opened Protection
  import opened Ace
  import opened AceEdits
  import opened Acl

  // ---- one rule, there and back ----

  /** Every decoded trustee formats, so the branches that skip an entry are never taken. */
  lemma DecodedTrusteeFormats(ace: bytes)
    requires DecodeAce(ace).Ok? && DecodeAce(ace).value.Some?
    ensures Shown(DecodeAce(ace).value.value).Some?
  {
    DecodedIsEncodable(ace);
  }

  lemma GuidFieldLength(s: string, e: AclError, raw: bytes)
    requires GuidField(s, e) == Ok(raw)
    ensures raw == [] || |raw| == 16
  {
    if s != "" {
      Guid.GuidOfLength(s);
    }
  }

  /** The fields of a rule's binary form, one by one. */
  lemma BinaryParts(rule: Rule, d: DecodedAce)
    requires Binary(rule) == Ok(d)
    ensures Sid.SidOf(rule.trustee) == Ok(d.trustee)
    ensures GuidField(rule.objectType, BadObjectType) == Ok(d.objectType)
    ensures GuidField(rule.inheritedType, BadInheritedType) == Ok(d.inheritedType)
    ensures d.flags == FlagsFor(rule.inheritance) && d.deny == rule.deny && !d.inherited
  {
  }

  lemma FlagsAreExplicit(i: Inheritance)
    ensures !Has(FlagsFor(i), INHERITED) && InheritanceOf(FlagsFor(i)) == i
  {
  }

  lemma TrusteeIsSid(s: string, sid: bytes)
    requires Sid.SidOf(s) == Ok(sid)
    ensures IsSid(sid)
  {
    Sid.AcceptedTextNamesASid(s);
  }

  /** What Binary accepts is encodable and explicit. */
  lemma BinaryIsEncodable(rule: Rule, d: DecodedAce)
    requires Binary(rule) == Ok(d)
    ensures Encodable(d) && !Has(d.flags, INHERITED) && Stamped(d) == d && Shown(d).Some?
  {
    BinaryParts(rule, d);
    TrusteeIsSid(rule.trustee, d.trustee);
    GuidFieldLength(rule.objectType, BadObjectType, d.objectType);
    GuidFieldLength(rule.inheritedType, BadInheritedType, d.inheritedType);
    FlagsAreExplicit(rule.inheritance);
    EncodableIsShown(d);
  }

  lemma EncodableIsShown(d: DecodedAce)
    requires Encodable(d)
    ensures Shown(d).Some?
  {
  }

  lemma GuidBack(raw: bytes, e: AclError)
    requires raw == [] || |raw| == 16
    ensures GuidField(GuidOrEmpty(raw), e).Ok?
    ensures GuidOrEmpty(GuidField(GuidOrEmpty(raw), e).value) == GuidOrEmpty(raw)
  {
    if |raw| == 16 {
      Guid.TextRoundTrip(raw);
    }
  }

  lemma RightsBack(mask: dword)
    ensures Rights.MaskOf(Rights.NamesOf(Rights.BitsOf(mask))).Ok?
    ensures var m := Rights.MaskOf(Rights.NamesOf(Rights.BitsOf(mask))).value;
            Rights.NamesOf(Rights.BitsOf(Rights.WordOf(m))) == Rights.NamesOf(Rights.BitsOf(mask))
  {
    Rights.NamesKeepTheMask(Rights.BitsOf(mask));
    Rights.RenderingIsStable(Rights.BitsOf(mask));
    Rights.WordsAndBits(mask, Rights.BitsOf(mask) * Rights.NAMED);
  }

  lemma ShownParts(d: DecodedAce, rule: Rule)
    requires Shown(d) == Some(rule)
    ensures Sid.TextOf(d.trustee) == Ok(rule.trustee)
    ensures rule.rights == Rights.NamesOf(Rights.BitsOf(d.mask)) && rule.deny == d.deny
    ensures rule.objectType == GuidOrEmpty(d.objectType) && rule.inheritedType == GuidOrEmpty(d.inheritedType)
    ensures rule.inheritance == InheritanceOf(d.flags) && rule.inherited == d.inherited
  {
  }

  /** A rule whose every field reads back is presented the same after being written. */
  lemma WrittenRuleShows(rule: Rule, sid: bytes, mask: Rights.Mask, o: bytes, i: bytes)
    requires Sid.SidOf(rule.trustee) == Ok(sid) && Sid.TextOf(sid) == Ok(rule.trustee)
    requires Rights.MaskOf(rule.rights) == Ok(mask) && Rights.NamesOf(Rights.BitsOf(Rights.WordOf(mask))) == rule.rights
    requires GuidField(rule.objectType, BadObjectType) == Ok(o) && GuidOrEmpty(o) == rule.objectType
    requires GuidField(rule.inheritedType, BadInheritedType) == Ok(i) && GuidOrEmpty(i) == rule.inheritedType
    ensures Binary(rule).Ok? && Shown(Binary(rule).value) == Some(rule.(inherited := false))
  {
    FlagsAreExplicit(rule.inheritance);
  }

  /** A rule as Get presents it, written again, is presented the same: no spelling of it ever drifts. */
  lemma ShownRuleIsStable(d: DecodedAce, rule: Rule)
    requires Encodable(d) && d.trustee[1] <= 15 && Shown(d) == Some(rule)
    ensures Binary(rule).Ok? && Shown(Binary(rule).value) == Some(rule.(inherited := false))
  {
    ShownParts(d, rule);
    SidBack(d.trustee, rule.trustee);
    RightsBack(d.mask);
    GuidBack(d.objectType, BadObjectType);
    GuidBack(d.inheritedType, BadInheritedType);
    WrittenRuleShows(rule, d.trustee, Rights.MaskOf(rule.rights).value,
                     GuidField(rule.objectType, BadObjectType).value,
                     GuidField(rule.inheritedType, BadInheritedType).value);
  }

  lemma SidBack(sid: bytes, text: string)
    requires Sid.TextOf(sid) == Ok(text) && sid[1] <= 15
    ensures Sid.SidOf(text) == Ok(sid)
  {
    Sid.TextRoundTrip(sid);
  }

  // ---- lists of rules ----

  lemma {:induction false} CollectAppend<A, B>(a: seq<A>, b: seq<A>, f: A -> Option<B>)
    ensures Collect(a + b, f) == Collect(a, f) + Collect(b, f)
  {
    if a == [] {
      assert a + b == b;
    } else {
      assert (a + b)[1..] == a[1..] + b;
      CollectAppend(a[1..], b, f);
      var head := if f(a[0]).Some? then [f(a[0]).value] else [];
      assert head + (Collect(a[1..], f) + Collect(b, f)) == (head + Collect(a[1..], f)) + Collect(b, f);
    }
  }

  lemma {:induction false} CollectKeep<A, B>(s: seq<A>, f: A -> Option<B>, p: A -> bool, q: B -> bool)
    requires forall a :: a in s ==> f(a).Some? && (p(a) <==> q(f(a).value))
    ensures Collect(Keep(s, p), f) == Keep(Collect(s, f), q)
  {
    if s != [] {
      assert s[0] in s;
      CollectKeep(s[1..], f, p, q);
      if p(s[0]) {
        assert ([s[0]] + Keep(s[1..], p))[1..] == Keep(s[1..], p);
      }
    }
  }

  /** Everything DecodeAll lists came out of the decoder. */
  lemma {:induction false} DecodedAreEncodable(list: seq<bytes>)
    requires DecodeAll(list).Ok?
    ensures forall d :: d in DecodeAll(list).value ==> Encodable(d) && Shown(d).Some?
  {
    if list != [] {
      DecodedAreEncodable(list[1..]);
      if DecodeAce(list[0]).value.Some? {
        DecodedIsEncodable(list[0]);
        DecodedTrusteeFormats(list[0]);
      }
    }
  }

  // ---- Revoke ----

  function Remains(drop: set<string>, key: Rule -> string): Rule -> bool {
    (r: Rule) => r.inherited || key(r) !in drop
  }

  lemma StaysRemains(d: DecodedAce, drop: set<string>, key: Rule -> string)
    requires Shown(d).Some?
    ensures Stays(Named(drop, key))(d) <==> Remains(drop, key)(Shown(d).value)
  {
    if !d.inherited {
      assert Shown(d).value.(inherited := false) == Shown(d).value;
    }
  }

  /** After Revoke, Get shows the old rules without the explicit ones whose key was named; nothing else moved. */
  lemma RevokeRemovesExactly(sd: bytes, list: seq<Rule>, key: Rule -> string)
    requires list != [] && RulesOf(sd).Ok? && DropKeys(list, key, AS_BINARY).Ok?
    ensures RevokeEdit(sd, list, key).Ok?
    ensures RulesOf(RevokeEdit(sd, list, key).value.sd)
            == Ok(Keep(RulesOf(sd).value, Remains(DropKeys(list, key, AS_BINARY).value, key)))
  {
    var drop := DropKeys(list, key, AS_BINARY).value;
    var v := Read(sd).value;
    var ds := DecodeAll(v.list).value;
    DecodeAllDefined(v.list);
    RemoveThenDecode(sd, v, Named(drop, key));
    DecodedAreEncodable(v.list);
    forall d | d in ds ensures SHOW(d).Some? && (Stays(Named(drop, key))(d) <==> Remains(drop, key)(SHOW(d).value)) {
      StaysRemains(d, drop, key);
    }
    CollectKeep(ds, SHOW, Stays(Named(drop, key)), Remains(drop, key));
    RevokedNotEmpty(sd, v, Named(drop, key));
  }

  lemma RevokedNotEmpty(sd: bytes, v: View, matches: DecodedAce -> bool)
    requires Read(sd) == Ok(v) && sd != [] && RemoveEdit(sd, matches).Ok?
    ensures RemoveEdit(sd, matches).value.sd != []
  {
  }

  lemma RemainsKeys(rules: seq<Rule>, drop: set<string>, key: Rule -> string)
    ensures Keys(Keep(rules, Remains(drop, key)), key) !! drop
  {
    var kept := Keep(rules, Remains(drop, key));
    KeepMembers(rules, Remains(drop, key));
    forall i | 0 <= i < |kept| && !kept[i].inherited ensures key(kept[i]) !in drop {
      assert kept[i] in kept;
    }
  }

  /** In particular no explicit rule with a named key is left. */
  lemma RevokedKeysAreGone(sd: bytes, list: seq<Rule>, key: Rule -> string, drop: set<string>)
    requires list != [] && RulesOf(sd).Ok? && DropKeys(list, key, AS_BINARY) == Ok(drop)
    ensures RevokeEdit(sd, list, key).Ok?
    ensures var after := RulesOf(RevokeEdit(sd, list, key).value.sd);
            after.Ok? && Keys(after.value, key) !! drop
  {
    RevokeRemovesExactly(sd, list, key);
    RemainsKeys(RulesOf(sd).value, drop, key);
  }

  // ---- Grant ----

  /** The key the written entry will be recognised by is the key it was asked for under. */
  predicate Survives(rule: Rule, key: Rule -> string) {
    Binary(rule).Ok? ==>
      Shown(Binary(rule).value).Some? && key(Shown(Binary(rule).value).value) == key(rule)
  }

  /** What Grant writes: explicit entries that decode to themselves and that Get can show. */
  predicate Grantable(d: DecodedAce) {
    Encodable(d) && !Has(d.flags, INHERITED) && Stamped(d) == d && Shown(d).Some?
  }

  ghost predicate Asked<R, B, E>(list: seq<R>, bin: R -> Result<B, E>, d: B) {
    exists i :: 0 <= i < |list| && bin(list[i]) == Ok(d)
  }

  lemma AskedWider<R, B, E>(list: seq<R>, bin: R -> Result<B, E>, d: B)
    requires list != [] && Asked(list[1..], bin, d)
    ensures Asked(list, bin, d)
  {
    var i :| 0 <= i < |list[1..]| && bin(list[1..][i]) == Ok(d);
    assert list[i + 1] == list[1..][i];
  }

  /** Everything Grant writes was asked for. */
  lemma {:induction false} MissingAsked<R, B, E>(list: seq<R>, have: set<string>, key: R -> string,
                                                 bin: R -> Result<B, E>, add: seq<B>, k: nat)
    requires Missing(list, have, key, bin) == Ok(add) && k < |add|
    ensures Asked(list, bin, add[k])
    decreases |list|
  {
    if key(list[0]) in have {
      MissingAsked(list[1..], have, key, bin, add, k);
      AskedWider(list, bin, add[k]);
    } else if k > 0 {
      assert add[1..] == Missing(list[1..], have, key, bin).value;
      MissingAsked(list[1..], have, key, bin, add[1..], k - 1);
      AskedWider(list, bin, add[k]);
    }
  }

  /** Everything asked for and not there is written. */
  lemma {:induction false} MissingCovers<R, B, E>(list: seq<R>, have: set<string>, key: R -> string,
                                                  bin: R -> Result<B, E>, add: seq<B>, k: nat)
    requires Missing(list, have, key, bin) == Ok(add) && k < |list| && key(list[k]) !in have
    ensures bin(list[k]).Ok? && bin(list[k]).value in add
    decreases |list|
  {
    if key(list[0]) in have {
      MissingCovers(list[1..], have, key, bin, add, k - 1);
    } else if k > 0 {
      assert add[1..] == Missing(list[1..], have, key, bin).value;
      MissingCovers(list[1..], have, key, bin, add[1..], k - 1);
    }
  }

  lemma {:induction false} NothingMissing<R, B, E>(list: seq<R>, have: set<string>, key: R -> string, bin: R -> Result<B, E>)
    requires forall i :: 0 <= i < |list| ==> key(list[i]) in have
    ensures Missing(list, have, key, bin) == Ok([])
  {
    if list != [] {
      NothingMissing(list[1..], have, key, bin);
    }
  }

  predicate AllNamed<R>(list: seq<R>, have: set<string>, key: R -> string) {
    forall i :: 0 <= i < |list| ==> key(list[i]) in have
  }

  /** With more keys there, less is missing, and nothing exactly when all of them are. */
  lemma {:induction false} MissingShrinks<R, B, E>(list: seq<R>, have: set<string>, more: set<string>, key: R -> string,
                                                   bin: R -> Result<B, E>)
    requires have <= more && Missing(list, have, key, bin).Ok?
    ensures Missing(list, more, key, bin).Ok?
    ensures Missing(list, more, key, bin).value == [] <==> AllNamed(list, more, key)
  {
    if list != [] {
      MissingShrinks(list[1..], have, more, key, bin);
      assert forall i :: 0 < i < |list| ==> list[i] == list[1..][i - 1];
    }
  }

  lemma AskedIsGrantable(list: seq<Rule>, d: DecodedAce)
    requires Asked(list, AS_BINARY, d)
    ensures Grantable(d)
  {
    var i :| 0 <= i < |list| && AS_BINARY(list[i]) == Ok(d);
    BinaryIsEncodable(list[i], d);
  }

  lemma MissingFacts(list: seq<Rule>, have: set<string>, key: Rule -> string, add: seq<DecodedAce>)
    requires Missing(list, have, key, AS_BINARY) == Ok(add)
    ensures AllEncodable(add) && Map(add, STAMP) == add
    ensures forall d :: d in add ==> Grantable(d)
  {
    forall k | 0 <= k < |add| ensures Grantable(add[k]) {
      MissingAsked(list, have, key, AS_BINARY, add, k);
      AskedIsGrantable(list, add[k]);
    }
    StampSame(add);
  }

  /** Grant over known rules is AddACEs of what is missing from them. */
  lemma GrantIsAdd(sd: bytes, rules: seq<Rule>, list: seq<Rule>, key: Rule -> string, add: seq<DecodedAce>)
    requires RulesOf(sd) == Ok(rules) && list != []
    requires Missing(list, Keys(rules, key), key, AS_BINARY) == Ok(add)
    ensures GrantEdit(sd, list, key) == Lift(AddEdit(sd, add))
    ensures add == [] ==> GrantEdit(sd, list, key) == Ok(Edit(sd, false))
  {
  }

  lemma {:induction false} StampSame(add: seq<DecodedAce>)
    requires forall d :: d in add ==> Stamped(d) == d
    ensures Map(add, STAMP) == add
  {
    if add != [] {
      StampSame(add[1..]);
    }
  }

  /** After Grant, Get shows the old rules and then the ones that were missing. */
  lemma GrantAppends(sd: bytes, v: View, list: seq<Rule>, key: Rule -> string, add: seq<DecodedAce>)
    requires Read(sd) == Ok(v) && RulesOf(sd).Ok? && list != []
    requires Missing(list, Keys(RulesOf(sd).value, key), key, AS_BINARY) == Ok(add) && add != []
    requires Fits(v.list + Map(add, ENCODED))
    ensures GrantEdit(sd, list, key) == Lift(AddEdit(sd, add)) && GrantEdit(sd, list, key).Ok?
    ensures RulesOf(GrantEdit(sd, list, key).value.sd) == Ok(RulesOf(sd).value + Collect(add, SHOW))
  {
    MissingFacts(list, Keys(RulesOf(sd).value, key), key, add);
    AddThenDecode(sd, v, add);
    WrittenIsNotEmpty(v.parsed, RevisionFor(v.list + Map(add, ENCODED)), v.list + Map(add, ENCODED));
    CollectAppend(DecodeAll(v.list).value, add, SHOW);
  }

  lemma {:induction false} CollectHas<A, B>(s: seq<A>, f: A -> Option<B>, a: A)
    requires a in s && f(a).Some?
    ensures f(a).value in Collect(s, f)
  {
    if a != s[0] {
      CollectHas(s[1..], f, a);
    }
  }

  lemma KeysAppend(a: seq<Rule>, b: seq<Rule>, key: Rule -> string)
    ensures Keys(a + b, key) == Keys(a, key) + Keys(b, key)
  {
    forall k | k in Keys(a, key) ensures k in Keys(a + b, key) {
      var i :| 0 <= i < |a| && !a[i].inherited && key(a[i]) == k;
      assert (a + b)[i] == a[i];
    }
    forall k | k in Keys(b, key) ensures k in Keys(a + b, key) {
      var i :| 0 <= i < |b| && !b[i].inherited && key(b[i]) == k;
      assert (a + b)[|a| + i] == b[i];
    }
  }

  lemma GrantedKey(rule: Rule, d: DecodedAce, add: seq<DecodedAce>, key: Rule -> string, shown: Rule)
    requires Binary(rule) == Ok(d) && d in add && Shown(d) == Some(shown) && key(shown) == key(rule)
    ensures key(rule) in Keys(Collect(add, SHOW), key)
  {
    CollectHas(add, SHOW, d);
    ShownExplicit(rule, d, shown);
    var i :| 0 <= i < |Collect(add, SHOW)| && Collect(add, SHOW)[i] == shown;
  }

  /** Every rule's key is one that Get shows once its missing ones are written. */
  lemma GrantedKeys(rules: seq<Rule>, list: seq<Rule>, key: Rule -> string, add: seq<DecodedAce>)
    requires Missing(list, Keys(rules, key), key, AS_BINARY) == Ok(add)
    requires forall r :: r in list ==> Survives(r, key)
    ensures forall k :: 0 <= k < |list| ==> key(list[k]) in Keys(rules + Collect(add, SHOW), key)
  {
    MissingFacts(list, Keys(rules, key), key, add);
    KeysAppend(rules, Collect(add, SHOW), key);
    forall k | 0 <= k < |list| ensures key(list[k]) in Keys(rules + Collect(add, SHOW), key) {
      if key(list[k]) !in Keys(rules, key) {
        MissingCovers(list, Keys(rules, key), key, AS_BINARY, add, k);
        var d := AS_BINARY(list[k]).value;
        assert Survives(list[k], key);
        GrantedKey(list[k], d, add, key, Shown(d).value);
      }
    }
  }

  /** A second Grant of the same rules writes nothing, when each rule's key survives being written. */
  lemma SecondGrantWritesNothing(sd: bytes, v: View, list: seq<Rule>, key: Rule -> string, add: seq<DecodedAce>)
    requires Read(sd) == Ok(v) && RulesOf(sd).Ok? && list != []
    requires Missing(list, Keys(RulesOf(sd).value, key), key, AS_BINARY) == Ok(add) && add != []
    requires Fits(v.list + Map(add, ENCODED))
    requires forall r :: r in list ==> Survives(r, key)
    ensures GrantEdit(sd, list, key).Ok?
    ensures var once := GrantEdit(sd, list, key).value.sd;
            GrantEdit(once, list, key) == Ok(Edit(once, false))
  {
    var rules := RulesOf(sd).value;
    GrantAppends(sd, v, list, key, add);
    GrantedKeys(rules, list, key, add);
    var now := rules + Collect(add, SHOW);
    NothingMissing(list, Keys(now, key), key, AS_BINARY);
    GrantIsAdd(GrantEdit(sd, list, key).value.sd, now, list, key, []);
  }

  /** A second Grant writes nothing exactly when every key is one that was there or one of a rule now shown. */
  lemma GrantIsIdempotentExactly(sd: bytes, v: View, list: seq<Rule>, key: Rule -> string, add: seq<DecodedAce>, once: bytes)
    requires Read(sd) == Ok(v) && RulesOf(sd).Ok? && list != []
    requires Missing(list, Keys(RulesOf(sd).value, key), key, AS_BINARY) == Ok(add) && add != []
    requires Fits(v.list + Map(add, ENCODED))
    requires GrantEdit(sd, list, key) == Ok(Edit(once, true))
    ensures GrantEdit(once, list, key).Ok?
    ensures !GrantEdit(once, list, key).value.changed
            <==> AllNamed(list, Keys(RulesOf(sd).value, key) + Keys(Collect(add, SHOW), key), key)
  {
    var rules, shown := RulesOf(sd).value, Collect(add, SHOW);
    GrantAppends(sd, v, list, key, add);
    KeysAppend(rules, shown, key);
    MissingShrinks(list, Keys(rules, key), Keys(rules + shown, key), key, AS_BINARY);
    var more := Missing(list, Keys(rules + shown, key), key, AS_BINARY).value;
    GrantIsAdd(once, rules + shown, list, key, more);
    AddingIsChange(once, more);
  }

  lemma ShownExplicit(rule: Rule, d: DecodedAce, shown: Rule)
    requires Binary(rule) == Ok(d) && Shown(d) == Some(shown)
    ensures !shown.inherited
  {
    BinaryIsExplicit(rule, d);
    ShownAsItIs(d, shown);
  }

  lemma BinaryIsExplicit(rule: Rule, d: DecodedAce)
    requires Binary(rule) == Ok(d)
    ensures !d.inherited
  {
  }

  lemma ShownAsItIs(d: DecodedAce, shown: Rule)
    requires Shown(d) == Some(shown)
    ensures shown.inherited == d.inherited
  {
  }

  lemma AddingIsChange(sd: bytes, add: seq<DecodedAce>)
    requires RulesOf(sd).Ok?
    ensures AddEdit(sd, add).Ok? && (AddEdit(sd, add).value.changed <==> add != [])
  {
  }

  // ---- Grant, then Revoke ----

  lemma {:induction false} DropHolds<R, B, E>(list: seq<R>, key: R -> string, bin: R -> Result<B, E>, drop: set<string>, i: nat)
    requires DropKeys(list, key, bin) == Ok(drop) && i < |list|
    ensures key(list[i]) in drop
  {
    if i < |list| - 1 {
      DropHolds(list[..|list| - 1], key, bin, DropKeys(list[..|list| - 1], key, bin).value, i);
    }
  }

  /** No explicit entry of the descriptor carries a key of the drop set. */
  lemma {:induction false} ForeignStays(list: seq<bytes>, ds: seq<DecodedAce>, drop: set<string>, key: Rule -> string, i: nat)
    requires DecodeAll(list) == Ok(ds) && i < |list|
    requires forall d :: d in ds && !d.inherited && Shown(d).Some? ==> key(Shown(d).value) !in drop
    ensures DecodeAce(list[i]).Ok? && !Drops(DecodeAce(list[i]).value, Named(drop, key))
    decreases |list|
  {
    var here := Listed(DecodeAce(list[0]).value);
    var rest := DecodeAll(list[1..]).value;
    assert ds == here + rest;
    if i > 0 {
      ForeignStays(list[1..], rest, drop, key, i - 1);
    } else if here != [] {
      assert here[0] in ds;
      if !here[0].inherited && Shown(here[0]).Some? {
        assert Shown(here[0]).value.(inherited := false) == Shown(here[0]).value;
      }
    }
  }

  lemma WrittenIsNamed(list: seq<Rule>, key: Rule -> string, drop: set<string>, d: DecodedAce)
    requires DropKeys(list, key, AS_BINARY) == Ok(drop) && Asked(list, AS_BINARY, d) && Grantable(d)
    requires forall r :: r in list ==> Survives(r, key)
    ensures Named(drop, key)(d)
  {
    var i :| 0 <= i < |list| && AS_BINARY(list[i]) == Ok(d);
    DropHolds(list, key, AS_BINARY, drop, i);
    BinaryParts(list[i], d);
    assert Survives(list[i], key);
    NamedByKey(d, Shown(d).value, drop, key);
  }

  lemma NamedByKey(d: DecodedAce, rule: Rule, drop: set<string>, key: Rule -> string)
    requires Shown(d) == Some(rule) && !rule.inherited
    ensures Named(drop, key)(d) <==> key(rule) in drop
  {
    assert rule.(inherited := false) == rule;
  }

  /** Revoking what was granted gives the old entry list back, byte for byte, when none of it was there before. */
  lemma GrantThenRevoke(sd: bytes, v: View, list: seq<Rule>, key: Rule -> string, add: seq<DecodedAce>, drop: set<string>)
    requires Read(sd) == Ok(v) && RulesOf(sd).Ok? && list != []
    requires Missing(list, Keys(RulesOf(sd).value, key), key, AS_BINARY) == Ok(add) && add != []
    requires Fits(v.list + Map(add, ENCODED))
    requires DropKeys(list, key, AS_BINARY) == Ok(drop) && drop !! Keys(RulesOf(sd).value, key)
    requires forall r :: r in list ==> Survives(r, key)
    ensures GrantEdit(sd, list, key).Ok? && RevokeEdit(GrantEdit(sd, list, key).value.sd, list, key).Ok?
    ensures var back := Read(RevokeEdit(GrantEdit(sd, list, key).value.sd, list, key).value.sd);
            back.Ok? && back.value.list == v.list
  {
    var have := Keys(RulesOf(sd).value, key);
    var matches := Named(drop, key);
    GrantAppends(sd, v, list, key, add);
    MissingFacts(list, have, key, add);
    forall i | 0 <= i < |add| ensures !Has(add[i].flags, INHERITED) && matches(Stamped(add[i])) {
      MissingAsked(list, have, key, AS_BINARY, add, i);
      WrittenIsNamed(list, key, drop, add[i]);
    }
    forall i | 0 <= i < |v.list| ensures DecodeAce(v.list[i]).Ok? && !Drops(DecodeAce(v.list[i]).value, matches) {
      ShownKeys(DecodeAll(v.list).value, key, drop);
      ForeignStays(v.list, DecodeAll(v.list).value, drop, key, i);
    }
    WrittenIsNotEmpty(v.parsed, RevisionFor(v.list + Map(add, ENCODED)), v.list + Map(add, ENCODED));
    AddThenRemove(sd, v, add, matches);
  }

  lemma {:induction false} ShownKeys(ds: seq<DecodedAce>, key: Rule -> string, drop: set<string>)
    requires drop !! Keys(Collect(ds, SHOW), key)
    ensures forall d :: d in ds && !d.inherited && Shown(d).Some? ==> key(Shown(d).value) !in drop
  {
    if ds != [] {
      var here := if Shown(ds[0]).Some? then [Shown(ds[0]).value] else [];
      var rest := Collect(ds[1..], SHOW);
      KeysAppend(here, rest, key);
      ShownKeys(ds[1..], key, drop);
      if here != [] && !ds[0].inherited {
        assert here[0] == Shown(ds[0]).value && key(here[0]) in Keys(here, key);
      }
    }
  }

  // ---- the vocabulary in bits ----

  /** Inheritance as it is written: nothing, or container-inherit and inherit-only, with no-propagate for children. */
  lemma WrittenFlags(i: Inheritance)
    ensures FlagsFor(i) == if i == This then 0x00 else if i == Descendants then 0x0A else 0x0E
    ensures InheritanceOf(FlagsFor(i)) == i
  {
  }

  /** And as it is read, for every flags byte: container-inherit decides whether, no-propagate how far. */
  lemma ReadFlags(flags: byte)
    ensures InheritanceOf(flags) == This <==> flags / 2 % 2 == 0
    ensures InheritanceOf(flags) == Children <==> flags / 2 % 2 == 1 && flags / 4 % 2 == 1
  {
  }

  /** A rule has a binary form exactly when each of its fields does, and the form says the same field by field. */
  lemma BinaryExactly(rule: Rule, d: DecodedAce)
    ensures Binary(rule) == Ok(d)
            <==> && Sid.SidOf(rule.trustee) == Ok(d.trustee) && d.deny == rule.deny
                 && Rights.MaskOf(rule.rights).Ok? && d.mask == Rights.WordOf(Rights.MaskOf(rule.rights).value)
                 && (if rule.objectType == "" then d.objectType == [] else Guid.GuidOf(rule.objectType) == Ok(d.objectType))
                 && (if rule.inheritedType == "" then d.inheritedType == [] else Guid.GuidOf(rule.inheritedType) == Ok(d.inheritedType))
                 && d.flags == (if rule.inheritance == This then 0x00 else if rule.inheritance == Descendants then 0x0A else 0x0E)
                 && !d.inherited
  {
  }

  /** A decoded entry is shown field by field; only a trustee that does not format hides it. */
  lemma ShownExactly(d: DecodedAce, rule: Rule)
    ensures Shown(d) == Some(rule)
            <==> && Sid.TextOf(d.trustee) == Ok(rule.trustee) && rule.deny == d.deny && rule.inherited == d.inherited
                 && rule.rights == Rights.NamesOf(Rights.BitsOf(d.mask)) && rule.inheritance == InheritanceOf(d.flags)
                 && rule.objectType == GuidOrEmpty(d.objectType) && rule.inheritedType == GuidOrEmpty(d.inheritedType)
  {
  }

  const ZEROS: bytes := [0, 0, 0, 0, 0, 0, 0, 0, 0, 0, 0, 0, 0, 0, 0, 0]

  /** A GUID is shown as its text, and as nothing exactly when it is absent or all zeros. */
  lemma GuidShown(raw: bytes)
    ensures |raw| == 16 && Guid.TextOf(raw).value != ZERO_GUID ==> GuidOrEmpty(raw) == Guid.TextOf(raw).value
    ensures GuidOrEmpty(raw) == "" <==> |raw| != 16 || raw == ZEROS
  {
    if |raw| == 16 {
      Guid.ZeroTextExactly(raw, ZEROS);
      Guid.TextIsText(raw);
    }
  }
}
