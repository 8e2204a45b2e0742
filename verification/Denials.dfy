// What internal/secdesc/secdesc.go takes for a denied right, against what internal/secdesc/ace.go
// decodes: the two readers of one entry agree.
module Denials {
  import opened Wrappers
  import opened Bytes
  import opened Lists
  import opened Descriptor
  import opened Dacl
  import opened Protection
  import opened DeniedObject
  import opened Ace
  import opened AceEdits

  /** The decoded entry denies one of the rights on the object type to the trustee. */
  predicate IsDenial(d: DecodedAce, mask: dword, objectType: bytes, trustee: bytes) {
    d.deny && And(d.mask, mask) != 0 && d.objectType == objectType && d.trustee == trustee
  }

  /** The entry is an ACCESS_DENIED_OBJECT that decodes to such a denial. */
  predicate DecodesToDenial(ace: bytes, mask: dword, objectType: bytes, trustee: bytes) {
    && |ace| > 0 && ace[0] == 6
    && DecodeAce(ace).Ok? && DecodeAce(ace).value.Some? && IsDenial(DecodeAce(ace).value.value, mask, objectType, trustee)
  }

  /** A whole SID at an offset is what is read there. */
  lemma SidAt(ace: bytes, off: nat, trustee: bytes)
    requires IsSid(trustee) && off <= |ace|
    ensures TrusteeAt(ace, off, trustee)
            <==> SidLen(ace[off..]).Ok? && ace[off..][..SidLen(ace[off..]).value] == trustee
  {
    var sid := ace[off..];
    if TrusteeAt(ace, off, trustee) {
      assert sid[..|trustee|] == ace[off..off + |trustee|] == trustee;
      assert sid[1] == trustee[1];
    }
    if SidLen(sid).Ok? {
      assert sid[..SidLen(sid).value] == ace[off..off + SidLen(sid).value];
    }
  }

  lemma TypedEntry(ace: bytes, mask: dword, objectType: bytes, trustee: bytes, off: nat)
    requires IsSid(trustee) && |ace| >= 28 && ace[0] == 6 && Has(U32(ace, 8), OBJECT_TYPE) && off == TrusteeOffset(U32(ace, 8))
    ensures Denies(ace, mask, objectType, trustee) <==> DecodesToDenial(ace, mask, objectType, trustee)
  {
    if off <= |ace| {
      SidAt(ace, off, trustee);
    }
  }

  lemma BareEntry(ace: bytes, mask: dword, objectType: bytes, trustee: bytes, off: nat)
    requires IsSid(trustee) && |ace| >= 12 && ace[0] == 6 && !Has(U32(ace, 8), OBJECT_TYPE) && off == TrusteeOffset(U32(ace, 8))
    ensures Denies(ace, mask, objectType, trustee) <==> DecodesToDenial(ace, mask, objectType, trustee)
  {
    if off <= |ace| {
      SidAt(ace, off, trustee);
    }
  }

  /** For a whole SID an entry of any bytes denies exactly when it is of type 6 and decodes to the denial asked about. */
  lemma DeniesExactly(ace: bytes, mask: dword, objectType: bytes, trustee: bytes)
    requires IsSid(trustee)
    ensures Denies(ace, mask, objectType, trustee) <==> DecodesToDenial(ace, mask, objectType, trustee)
  {
    if |ace| >= 12 && ace[0] == 6 {
      if !Has(U32(ace, 8), OBJECT_TYPE) {
        BareEntry(ace, mask, objectType, trustee, TrusteeOffset(U32(ace, 8)));
      } else if |ace| >= 28 {
        TypedEntry(ace, mask, objectType, trustee, TrusteeOffset(U32(ace, 8)));
      }
    }
  }

  predicate AllSids(trustees: seq<bytes>) {
    forall i :: 0 <= i < |trustees| ==> IsSid(trustees[i])
  }

  /** HasDeniedObjectRight is true exactly when some entry of type 6 decodes to a denial to one of the trustees. */
  lemma HasDeniedExactly(sd: bytes, v: View, rule: Rule)
    requires Read(sd) == Ok(v) && AllSids(rule.trustees)
    ensures HasDenied(sd, rule)
            == Ok(exists i, j :: 0 <= i < |v.list| && 0 <= j < |rule.trustees|
                                 && DecodesToDenial(v.list[i], rule.mask, rule.objectType, rule.trustees[j]))
  {
    forall i, j | 0 <= i < |v.list| && 0 <= j < |rule.trustees|
      ensures Denies(v.list[i], rule.mask, rule.objectType, rule.trustees[j])
              <==> DecodesToDenial(v.list[i], rule.mask, rule.objectType, rule.trustees[j])
    {
      DeniesExactly(v.list[i], rule.mask, rule.objectType, rule.trustees[j]);
    }
    if i :| 0 <= i < |v.list| && MatchedBy(rule, v.list[i]) {
      var j :| 0 <= j < |rule.trustees| && Denies(v.list[i], rule.mask, rule.objectType, rule.trustees[j]);
      assert DecodesToDenial(v.list[i], rule.mask, rule.objectType, rule.trustees[j]);
    }
    if i, j :| 0 <= i < |v.list| && 0 <= j < |rule.trustees| && DecodesToDenial(v.list[i], rule.mask, rule.objectType, rule.trustees[j]) {
      assert MatchedBy(rule, v.list[i]);
    }
  }

  predicate SomeDenial(ds: seq<DecodedAce>, rule: Rule) {
    exists k, j :: 0 <= k < |ds| && 0 <= j < |rule.trustees| && IsDenial(ds[k], rule.mask, rule.objectType, rule.trustees[j])
  }

  predicate DenialTo(d: DecodedAce, rule: Rule) {
    exists j :: 0 <= j < |rule.trustees| && IsDenial(d, rule.mask, rule.objectType, rule.trustees[j])
  }

  /** An entry with an object type decodes from an object entry. */
  lemma TypedIsObject(ace: bytes, d: DecodedAce)
    requires DecodeAce(ace) == Ok(Some(d)) && |d.objectType| == 16
    ensures |ace| > 0 && (d.deny <==> ace[0] == 6)
  {
  }

  lemma MatchedIsDenial(ace: bytes, rule: Rule)
    requires AllSids(rule.trustees) && |rule.objectType| == 16 && DecodeAce(ace).Ok?
    ensures MatchedBy(rule, ace) <==> DecodeAce(ace).value.Some? && DenialTo(DecodeAce(ace).value.value, rule)
  {
    forall j | 0 <= j < |rule.trustees|
      ensures Denies(ace, rule.mask, rule.objectType, rule.trustees[j])
              <==> DecodeAce(ace).value.Some? && IsDenial(DecodeAce(ace).value.value, rule.mask, rule.objectType, rule.trustees[j])
    {
      DeniesExactly(ace, rule.mask, rule.objectType, rule.trustees[j]);
      if DecodeAce(ace).value.Some? && IsDenial(DecodeAce(ace).value.value, rule.mask, rule.objectType, rule.trustees[j]) {
        TypedIsObject(ace, DecodeAce(ace).value.value);
      }
    }
  }

  lemma SomeMore(d: DecodedAce, ds: seq<DecodedAce>, rule: Rule)
    ensures SomeDenial([d] + ds, rule) <==> DenialTo(d, rule) || SomeDenial(ds, rule)
  {
    var all := [d] + ds;
    if DenialTo(d, rule) {
      assert all[0] == d;
    }
    if k, j :| 0 <= k < |ds| && 0 <= j < |rule.trustees| && IsDenial(ds[k], rule.mask, rule.objectType, rule.trustees[j]) {
      assert all[k + 1] == ds[k];
    }
  }

  lemma {:induction false} SomeMatched(list: seq<bytes>, ds: seq<DecodedAce>, rule: Rule)
    requires AllSids(rule.trustees) && |rule.objectType| == 16 && DecodeAll(list) == Ok(ds)
    ensures AnyMatched(list, rule) <==> SomeDenial(ds, rule)
  {
    if list != [] {
      var d, rest := DecodeAce(list[0]).value, DecodeAll(list[1..]).value;
      SomeMatched(list[1..], rest, rule);
      MatchedIsDenial(list[0], rule);
      AnyMatchedFirst(list, rule);
      if d.Some? {
        SomeMore(d.value, rest, rule);
      } else {
        assert [] + rest == rest;
      }
    }
  }

  lemma AnyMatchedFirst(list: seq<bytes>, rule: Rule)
    requires list != []
    ensures AnyMatched(list, rule) <==> MatchedBy(rule, list[0]) || AnyMatched(list[1..], rule)
  {
    assert forall i :: 0 < i < |list| ==> list[i] == list[1..][i - 1];
    if i :| 0 <= i < |list[1..]| && MatchedBy(rule, list[1..][i]) {
      assert MatchedBy(rule, list[i + 1]);
    }
  }

  /** On a descriptor DecodeACEs can read, HasDeniedObjectRight and the decoded entries never disagree. */
  lemma QueryIsWhatIsDecoded(sd: bytes, ds: seq<DecodedAce>, rule: Rule)
    requires sd != [] && DecodedOf(sd) == Ok(ds) && AllSids(rule.trustees) && |rule.objectType| == 16
    ensures HasDenied(sd, rule) == Ok(SomeDenial(ds, rule))
  {
    SomeMatched(Read(sd).value.list, ds, rule);
  }

  /** Whatever an entry allows, denies plainly or is of another kind, it is no denial of an object right. */
  lemma OnlyTypeSix(ace: bytes, mask: dword, objectType: bytes, trustee: bytes)
    ensures Denies(ace, mask, objectType, trustee) ==> |ace| >= 12 && ace[0] == 6
  {
  }

  /** An entry written from its decoded form, with an inherited type or without, is a denial exactly of what it says. */
  lemma WrittenDenial(d: DecodedAce, mask: dword, objectType: bytes, trustee: bytes)
    requires Encodable(d) && IsSid(trustee) && |objectType| == 16
    ensures Denies(EncodeAce(d), mask, objectType, trustee) <==> IsDenial(d, mask, objectType, trustee)
  {
    DeniesExactly(EncodeAce(d), mask, objectType, trustee);
    DecodeInvertsEncode(d);
    if d.objectType == objectType {
      TypedIsObject(EncodeAce(d), Stamped(d));
    }
  }

  /** The bytes SetDeniedObjectRight writes for one trustee: this object only, the right, an object type and no
      inherited one. */
  lemma DenyBytes(mask: dword, objectType: bytes, trustee: bytes)
    requires |objectType| == 16
    ensures DenyAce(mask, objectType, trustee)
            == [6, 0] + Le16(28 + |trustee|) + Le32(mask) + [1, 0, 0, 0] + objectType + trustee
  {
    assert Le32(1) == [1, 0, 0, 0];
  }

  lemma DenyListIs(list: seq<bytes>, rule: Rule, now: seq<bytes>)
    requires now == DenyList(list, rule, true) && |rule.objectType| == 16
    ensures |now| >= |rule.trustees| && now[|rule.trustees|..] == Keep(list, Unmatched(rule))
    ensures forall i :: 0 <= i < |rule.trustees| ==>
              now[i] == [6, 0] + Le16(28 + |rule.trustees[i]|) + Le32(rule.mask) + [1, 0, 0, 0] + rule.objectType + rule.trustees[i]
  {
    var written := Map(rule.trustees, DenyFor(rule));
    assert now == written + Keep(list, Unmatched(rule));
    forall i | 0 <= i < |rule.trustees|
      ensures now[i] == [6, 0] + Le16(28 + |rule.trustees[i]|) + Le32(rule.mask) + [1, 0, 0, 0] + rule.objectType + rule.trustees[i]
    {
      DenyBytes(rule.mask, rule.objectType, rule.trustees[i]);
      assert now[i] == written[i];
    }
  }

  /** What a denying call that changes anything leaves: those bytes for each trustee, in order and in front, then every
      entry that was no such denial, in order. */
  lemma DeniedInFront(sd: bytes, v: View, rule: Rule, now: seq<bytes>)
    requires Read(sd) == Ok(v) && !DenySettled(v.list, rule, true) && Fits(DenyList(v.list, rule, true)) && |rule.objectType| == 16
    requires DenyEdit(sd, true, rule).Ok? && Read(DenyEdit(sd, true, rule).value.sd).Ok?
    requires now == Read(DenyEdit(sd, true, rule).value.sd).value.list
    ensures |now| >= |rule.trustees| && now[|rule.trustees|..] == Keep(v.list, Unmatched(rule))
    ensures forall i :: 0 <= i < |rule.trustees| ==>
              now[i] == [6, 0] + Le16(28 + |rule.trustees[i]|) + Le32(rule.mask) + [1, 0, 0, 0] + rule.objectType + rule.trustees[i]
  {
    DenyReads(sd, v, true, rule);
    DenyListIs(v.list, rule, now);
  }
}
