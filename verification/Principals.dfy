// The principal descriptors of internal/secdesc/principals.go.
module Principals {
  import opened Wrappers
  import opened Bytes
  import opened Lists
  import opened Descriptor
  import opened Dacl
  import opened Ace

  const RID_DOMAIN_ADMINS := 512
  const FULL_CONTROL := 0x000F_01FF

  function DomainAdminsSid(domain: bytes): Result<bytes, Error> {
    var n :- SidLen(domain);
    if n != |domain| then Err(SidSizeMismatch)
    else if domain[1] >= 15 then Err(TooManySubAuthorities)
    else Ok(domain[1 := domain[1] + 1] + Le32(RID_DOMAIN_ADMINS))
  }

  function AllowFull(trustee: bytes): bytes {
    Entry(ACCESS_ALLOWED, 0, FULL_CONTROL, trustee)
  }

  const ALLOW_FULL_TO := (t: bytes) => AllowFull(t)

  /** The first principal that is not exactly one SID stops the build. */
  function Allowed(principals: seq<bytes>): Result<seq<bytes>, Error> {
    if principals == [] then Ok([])
    else
      var n :- SidLen(principals[0]);
      if n != |principals[0]| then Err(SidSizeMismatch)
      else Before([AllowFull(principals[0])], Allowed(principals[1..]))
  }

  function PrincipalParts(admins: bytes): Parsed {
    Parsed(1, 0, 0x8004, admins, admins, [], [])
  }

  function PrincipalDescriptor(domain: bytes, principals: seq<bytes>): Result<bytes, Error> {
    var admins :- DomainAdminsSid(domain);
    var list :- Allowed(principals);
    Ok(Rewritten(PrincipalParts(admins), 2, list))
  }

  method BuildPrincipalSD(domain: bytes, principals: seq<bytes>) returns (r: Result<bytes, Error>)
    ensures r == PrincipalDescriptor(domain, principals)
  {
    var admins := DomainAdminsSid(domain);
    if admins.Err? {
      return Err(admins.error);
    }
    var list: seq<bytes> := [];
    BeforeNothing(Allowed(principals));
    for i := 0 to |principals|
      invariant Allowed(principals) == Before(list, Allowed(principals[i..]))
    {
      assert principals[i..][0] == principals[i] && principals[i..][1..] == principals[i + 1..];
      var n := SidLen(principals[i]);
      if n.Err? {
        return Err(n.error);
      }
      if n.value != |principals[i]| {
        return Err(SidSizeMismatch);
      }
      BeforeStep(list, [AllowFull(principals[i])], Allowed(principals[i + 1..]));
      list := list + [AllowFull(principals[i])];
    }
    assert list + [] == list;
    var sd := Close(PrincipalParts(admins.value), 2, list);
    return Ok(sd);
  }

  // ---- reading back ----

  predicate PlainAllow(ace: bytes) {
    |ace| >= 8 && ace[0] == ACCESS_ALLOWED
  }

  function Trustees(list: seq<bytes>): (r: Result<seq<bytes>, Error>)
    ensures r.Ok? ==> |r.value| <= |list|
  {
    if list == [] then Ok([])
    else if !PlainAllow(list[0]) then Trustees(list[1..])
    else
      var sid := list[0][8..];
      if SidLen(sid).Err? then Err(MalformedTrustee)
      else Before([sid[..SidLen(sid).value]], Trustees(list[1..]))
  }

  function PrincipalsOf(sd: bytes): Result<seq<bytes>, Error> {
    if sd == [] then Ok([])
    else
      var v :- Read(sd);
      Trustees(v.list)
  }

  method PrincipalSIDs(sd: bytes) returns (r: Result<seq<bytes>, Error>)
    ensures r == PrincipalsOf(sd)
  {
    if |sd| == 0 {
      return Ok([]);
    }
    var view := Open(sd);
    if view.Err? {
      return Err(view.error);
    }
    if |view.value.parsed.dacl| == 0 {
      return Ok([]);
    }
    var list := view.value.list;
    var out: seq<bytes> := [];
    BeforeNothing(Trustees(list));
    for i := 0 to |list|
      invariant Trustees(list) == Before(out, Trustees(list[i..]))
    {
      assert list[i..][0] == list[i] && list[i..][1..] == list[i + 1..];
      if |list[i]| < 8 || list[i][0] != ACCESS_ALLOWED {
        continue;
      }
      var sid := list[i][8..];
      var n := SidLen(sid);
      if n.Err? {
        return Err(MalformedTrustee);
      }
      BeforeStep(out, [sid[..n.value]], Trustees(list[i + 1..]));
      out := out + [sid[..n.value]];
    }
    assert out + [] == out;
    return Ok(out);
  }

  // ---- the round trip ----

  predicate AllSids(principals: seq<bytes>) {
    forall i :: 0 <= i < |principals| ==> IsSid(principals[i])
  }

  lemma AllowFullFacts(t: bytes)
    requires IsSid(t)
    ensures PlainAllow(AllowFull(t)) && Sized(AllowFull(t)) && AllowFull(t)[8..] == t
  {
    EntryFields(ACCESS_ALLOWED, 0, FULL_CONTROL, t, AllowFull(t));
  }

  lemma {:induction false} AllowedExactly(principals: seq<bytes>)
    ensures Allowed(principals).Ok? <==> AllSids(principals)
    ensures AllSids(principals) ==> Allowed(principals) == Ok(Map(principals, ALLOW_FULL_TO))
  {
    if principals != [] {
      var rest := principals[1..];
      AllowedExactly(rest);
      assert AllSids(principals) <==> IsSid(principals[0]) && AllSids(rest) by {
        assert forall i :: 0 < i < |principals| ==> principals[i] == rest[i - 1];
      }
    }
  }

  lemma {:induction false} TrusteesOfAllowed(principals: seq<bytes>, list: seq<bytes>)
    requires AllSids(principals) && list == Map(principals, ALLOW_FULL_TO)
    ensures AllSized(list) && Trustees(list) == Ok(principals)
  {
    if principals != [] {
      assert IsSid(principals[0]) && forall i :: 0 < i < |principals| ==> principals[i] == principals[1..][i - 1];
      TrusteesOfAllowed(principals[1..], list[1..]);
      AllowFullFacts(principals[0]);
      assert principals[0][..|principals[0]|] == principals[0];
      assert [principals[0]] + principals[1..] == principals;
    }
  }

  lemma AllowedFacts(principals: seq<bytes>)
    ensures Allowed(principals).Ok? <==> AllSids(principals)
    ensures AllSids(principals) ==>
              && Allowed(principals) == Ok(Map(principals, ALLOW_FULL_TO))
              && AllSized(Map(principals, ALLOW_FULL_TO))
              && Trustees(Map(principals, ALLOW_FULL_TO)) == Ok(principals)
  {
    AllowedExactly(principals);
    if AllSids(principals) {
      TrusteesOfAllowed(principals, Map(principals, ALLOW_FULL_TO));
    }
  }

  lemma AdminsExtendDomain(domain: bytes)
    requires IsSid(domain) && domain[1] < 15
    ensures DomainAdminsSid(domain).Ok?
    ensures var admins := DomainAdminsSid(domain).value;
            && IsSid(admins) && |admins| == |domain| + 4
            && admins[0] == domain[0] && admins[2..|domain|] == domain[2..]
            && U32(admins, |domain|) == RID_DOMAIN_ADMINS
  {
    var head := domain[1 := domain[1] + 1];
    Le32Reads(head, RID_DOMAIN_ADMINS, []);
    assert head + Le32(RID_DOMAIN_ADMINS) + [] == head + Le32(RID_DOMAIN_ADMINS);
  }

  /** Building succeeds exactly for whole SIDs with room for one more sub-authority; what it builds names
      the same principals exactly when their entries fit, and is owned by Domain Admins. */
  lemma PrincipalsRoundTrip(domain: bytes, principals: seq<bytes>)
    ensures PrincipalDescriptor(domain, principals).Ok?
            <==> IsSid(domain) && domain[1] < 15 && AllSids(principals)
    ensures PrincipalDescriptor(domain, principals).Ok? ==>
              var sd := PrincipalDescriptor(domain, principals).value;
              && (PrincipalsOf(sd) == Ok(principals) <==> Fits(Map(principals, ALLOW_FULL_TO)))
              && (Fits(Map(principals, ALLOW_FULL_TO)) ==>
                    && Read(sd).Ok?
                    && Read(sd).value.parsed.owner == DomainAdminsSid(domain).value
                    && Read(sd).value.parsed.group == DomainAdminsSid(domain).value)
  {
    AllowedFacts(principals);
    if IsSid(domain) && domain[1] < 15 && AllSids(principals) {
      AdminsExtendDomain(domain);
      BuiltRoundTrip(PrincipalParts(DomainAdminsSid(domain).value), principals);
    }
  }

  lemma BuiltRoundTrip(p: Parsed, principals: seq<bytes>)
    requires WellFormed(p) && AllSids(principals)
    ensures var list := Map(principals, ALLOW_FULL_TO);
            var sd := Rewritten(p, 2, list);
            && (PrincipalsOf(sd) == Ok(principals) <==> Fits(list))
            && (Fits(list) ==> Read(sd) == Ok(View(Edited(p, 2, list), list)))
  {
    var list := Map(principals, ALLOW_FULL_TO);
    var sd := Rewritten(p, 2, list);
    AllowedFacts(principals);
    if Fits(list) {
      EditedReads(p, 2, list);
    } else if |list| < 0x1_0000 {
      OversizedIsUnreadable(p, 2, list);
    } else if Read(sd).Ok? {
      ReadCount(sd);
    }
  }

  // ---- the descriptor on the bytes ----

  /** The entry written for a principal: ACCESS_ALLOWED, this object only, 0x000F01FF. */
  lemma AllowBytes(trustee: bytes)
    ensures AllowFull(trustee) == [0, 0] + Le16(8 + |trustee|) + [0xFF, 0x01, 0x0F, 0x00] + trustee
  {
    assert Le32(0x000F_01FF) == [0xFF, 0x01, 0x0F, 0x00];
  }

  /** The owner's last sub-authority is 512, Domain Admins. */
  lemma AdminsBytes(domain: bytes)
    requires IsSid(domain) && domain[1] < 15
    ensures DomainAdminsSid(domain) == Ok([domain[0], domain[1] + 1] + domain[2..] + [0, 2, 0, 0])
  {
    assert Le32(512) == [0, 2, 0, 0];
    assert domain[1 := domain[1] + 1] == [domain[0], domain[1] + 1] + domain[2..];
  }

  lemma PrincipalWritten(domain: bytes, principals: seq<bytes>, sd: bytes)
    requires PrincipalDescriptor(domain, principals) == Ok(sd)
    ensures DomainAdminsSid(domain).Ok? && Allowed(principals).Ok?
    ensures sd == Rewritten(PrincipalParts(DomainAdminsSid(domain).value), 2, Allowed(principals).value)
  {
  }

  lemma PrincipalView(domain: bytes, principals: seq<bytes>, sd: bytes, list: seq<bytes>)
    requires PrincipalDescriptor(domain, principals) == Ok(sd) && list == Map(principals, ALLOW_FULL_TO) && Fits(list)
    ensures IsSid(domain) && domain[1] < 15
    ensures var p := PrincipalParts(DomainAdminsSid(domain).value);
            Read(sd) == Ok(View(Edited(p, 2, list), list))
  {
    PrincipalsRoundTrip(domain, principals);
    PrincipalWritten(domain, principals, sd);
    AllowedFacts(principals);
    AdminsExtendDomain(domain);
    var admins := DomainAdminsSid(domain).value;
    PartsAreWellFormed(admins);
    BuiltRoundTrip(PrincipalParts(admins), principals);
  }

  lemma PartsAreWellFormed(admins: bytes)
    requires IsSid(admins)
    ensures WellFormed(PrincipalParts(admins))
  {
  }

  lemma PrincipalHeader(admins: bytes, list: seq<bytes>, e: Parsed)
    requires e == Edited(PrincipalParts(admins), 2, list)
    ensures e.revision == 1 && e.sbz1 == 0 && e.control == 0x8004 && e.sacl == [] && e.owner == admins && e.group == admins
    ensures e.dacl != [] && e.dacl[0] == 2
  {
    BuiltFields(2, list);
  }

  /** What is written for principals that fit reads back as: revision 1, self-relative with a DACL, no SACL, Domain Admins
      as owner and group, and one entry each under a DACL of revision 2, there even for no principal. */
  lemma PrincipalBytes(domain: bytes, principals: seq<bytes>, sd: bytes)
    requires PrincipalDescriptor(domain, principals) == Ok(sd) && Fits(Map(principals, ALLOW_FULL_TO))
    ensures Read(sd).Ok?
    ensures var p := Read(sd).value.parsed;
            && p.revision == 1 && p.sbz1 == 0 && p.control == 0x8004 && p.sacl == [] && p.owner == p.group
            && p.dacl != [] && p.dacl[0] == 2
    ensures var list := Read(sd).value.list;
            |list| == |principals| && forall i :: 0 <= i < |list| ==>
              list[i] == [0, 0] + Le16(8 + |principals[i]|) + [0xFF, 0x01, 0x0F, 0x00] + principals[i]
  {
    var list := Map(principals, ALLOW_FULL_TO);
    PrincipalView(domain, principals, sd, list);
    var admins := DomainAdminsSid(domain).value;
    PrincipalHeader(admins, list, Edited(PrincipalParts(admins), 2, list));
    forall i | 0 <= i < |principals|
      ensures list[i] == [0, 0] + Le16(8 + |principals[i]|) + [0xFF, 0x01, 0x0F, 0x00] + principals[i]
    {
      AllowBytes(principals[i]);
    }
  }
}
