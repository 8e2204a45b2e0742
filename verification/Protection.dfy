// The accidental-deletion Deny of internal/secdesc/secdesc.go: IsProtected and SetProtected.
module Protection {
  import opened Wrappers
  import opened Bytes
  import opened Lists
  import opened Descriptor
  import opened Dacl
  import Sid
  import Text

  const ACCESS_DENIED := 0x01
  const PROTECTION_MASK := 0x0001_0040
  const EVERYONE: bytes := [1, 1, 0, 0, 0, 0, 0, 1, 0, 0, 0, 0]

  /** A new descriptor, and whether it differs from the one handed in. */
  datatype Edit = Edit(sd: bytes, changed: bool)

  predicate IsProtectionAce(ace: bytes) {
    && |ace| >= 20
    && ace[0] == ACCESS_DENIED
    && And(U32(ace, 4), PROTECTION_MASK) != 0
    && ace[8..20] == EVERYONE
  }

  function ProtectionAce(): bytes {
    Entry(ACCESS_DENIED, 0, PROTECTION_MASK, EVERYONE)
  }

  lemma ProtectionAceIsOne()
    ensures Sized(ProtectionAce()) && IsProtectionAce(ProtectionAce()) && |ProtectionAce()| == 20
  {
    EntryFields(ACCESS_DENIED, 0, PROTECTION_MASK, EVERYONE, ProtectionAce());
    DeniesEveryone(ProtectionAce(), PROTECTION_MASK);
  }

  lemma DeniesEveryone(ace: bytes, mask: dword)
    requires |ace| == 20 && ace[0] == ACCESS_DENIED && ace[8..] == EVERYONE
    requires mask == PROTECTION_MASK && U32(ace, 4) == mask
    ensures IsProtectionAce(ace)
  {
    AndSelf(mask);
    assert ace[8..20] == ace[8..];
  }

  predicate Protects(list: seq<bytes>) {
    exists i :: 0 <= i < |list| && IsProtectionAce(list[i])
  }

  function Protected(sd: bytes): Result<bool, Error> {
    var v :- Read(sd);
    Ok(Protects(v.list))
  }

  method IsProtected(sd: bytes) returns (r: Result<bool, Error>)
    ensures r == Protected(sd)
  {
    var view := Open(sd);
    if view.Err? {
      return Err(view.error);
    }
    var list := view.value.list;
    for i := 0 to |list|
      invariant !Protects(list[..i])
    {
      ProtectsStep(list, i);
      if IsProtectionAce(list[i]) {
        return Ok(true);
      }
    }
    assert list[..|list|] == list;
    return Ok(false);
  }

  // ---- SetProtected ----

  const NOT_PROTECTION := (a: bytes) => !IsProtectionAce(a)

  /** The entries an edit keeps, and the Deny it puts in front of them. */
  function ProtectionList(list: seq<bytes>, on: bool): seq<bytes> {
    (if on then [ProtectionAce()] else []) + Keep(list, NOT_PROTECTION)
  }

  function KeptRevision(p: Parsed): byte {
    if p.dacl == [] then 2 else p.dacl[0]
  }

  function ProtectionEdit(sd: bytes, on: bool): Result<Edit, Error> {
    var v :- Read(sd);
    if on == Protects(v.list) then Ok(Edit(sd, false))
    else Ok(Edit(Rewritten(v.parsed, KeptRevision(v.parsed), ProtectionList(v.list, on)), true))
  }

  method SetProtected(sd: bytes, on: bool) returns (r: Result<Edit, Error>)
    ensures r == ProtectionEdit(sd, on)
  {
    var view := Open(sd);
    if view.Err? {
      return Err(view.error);
    }
    var View(p, list) := view.value;
    var kept: seq<bytes>, found := [], false;
    for i := 0 to |list|
      invariant kept == Keep(list[..i], NOT_PROTECTION)
      invariant found == Protects(list[..i])
    {
      KeepStep(list, i, NOT_PROTECTION);
      ProtectsStep(list, i);
      if IsProtectionAce(list[i]) {
        found := true;
      } else {
        kept := kept + [list[i]];
      }
    }
    assert list[..|list|] == list;
    if on == found {
      return Ok(Edit(sd, false));
    }
    if on {
      kept := [ProtectionAce()] + kept;
    } else {
      assert kept == [] + kept;
    }
    var revision: byte := 2;
    if |p.dacl| > 0 {
      revision := p.dacl[0];
    }
    var out := Close(p, revision, kept);
    return Ok(Edit(out, true));
  }

  lemma ProtectsStep(list: seq<bytes>, i: nat)
    requires i < |list|
    ensures Protects(list[..i + 1]) <==> Protects(list[..i]) || IsProtectionAce(list[i])
  {
    assert list[..i + 1] == list[..i] + [list[i]];
    if IsProtectionAce(list[i]) {
      assert IsProtectionAce(list[..i + 1][i]);
    } else if Protects(list[..i]) {
      var k :| 0 <= k < i && IsProtectionAce(list[..i][k]);
      assert IsProtectionAce(list[..i + 1][k]);
    }
  }

  // ---- what protecting and unprotecting do ----

  lemma KeptProtects(list: seq<bytes>)
    ensures !Protects(Keep(list, NOT_PROTECTION))
    ensures !Protects(list) ==> Keep(list, NOT_PROTECTION) == list
  {
    KeepMembers(list, NOT_PROTECTION);
    if !Protects(list) {
      KeepAll(list, NOT_PROTECTION);
    }
  }

  lemma ProtectionListFacts(list: seq<bytes>, on: bool)
    requires AllSized(list)
    ensures AllSized(ProtectionList(list, on))
    ensures Protects(ProtectionList(list, on)) <==> on
    ensures |Flat(ProtectionList(list, on))| <= |Flat(list)| + (if on then 20 else 0)
  {
    var kept := Keep(list, NOT_PROTECTION);
    KeptProtects(list);
    KeepSized(list, NOT_PROTECTION);
    ProtectionAceIsOne();
    if on {
      var led := [ProtectionAce()] + kept;
      assert led[0] == ProtectionAce() && led[1..] == kept;
      assert IsProtectionAce(led[0]);
    } else {
      assert ProtectionList(list, on) == kept;
    }
  }

  /** The room SetProtected needs: the Deny it adds must still fit the DACL's size field. */
  predicate RoomToProtect(list: seq<bytes>, on: bool) {
    on && !Protects(list) ==> ACL_HEADER + 20 + |Flat(list)| < 0x1_0000
  }

  lemma ProtectionReads(sd: bytes, on: bool)
    requires Read(sd).Ok? && on != Protects(Read(sd).value.list) && RoomToProtect(Read(sd).value.list, on)
    ensures var v := Read(sd).value;
            var e := Edited(v.parsed, KeptRevision(v.parsed), ProtectionList(v.list, on));
            Read(ProtectionEdit(sd, on).value.sd) == Ok(View(e, ProtectionList(v.list, on)))
  {
    var v := Read(sd).value;
    ReadFacts(sd);
    ProtectionListFacts(v.list, on);
    EditedReads(v.parsed, KeptRevision(v.parsed), ProtectionList(v.list, on));
  }

  /** The result answers IsProtected with what was asked for exactly when there was room. */
  lemma SetThenIsProtected(sd: bytes, on: bool)
    requires Read(sd).Ok?
    ensures Protected(ProtectionEdit(sd, on).value.sd) == Ok(on) <==> RoomToProtect(Read(sd).value.list, on)
  {
    var v := Read(sd).value;
    ReadFacts(sd);
    ProtectionListFacts(v.list, on);
    if on != Protects(v.list) {
      if RoomToProtect(v.list, on) {
        ProtectionReads(sd, on);
      } else {
        KeptProtects(v.list);
        ProtectionAceIsOne();
        var list := ProtectionList(v.list, on);
        assert list[1..] == v.list && |Flat(list)| == 20 + |Flat(v.list)|;
        ReadCount(sd);
        SizedCount(v.list);
        OversizedIsUnreadable(v.parsed, KeptRevision(v.parsed), list);
      }
    }
  }

  /** A change is reported exactly when the descriptor was in the other state; asking again never changes it. */
  lemma SetProtectedIsIdempotent(sd: bytes, on: bool)
    requires Read(sd).Ok? && RoomToProtect(Read(sd).value.list, on)
    ensures ProtectionEdit(sd, on).value.changed <==> Protected(sd) == Ok(!on)
    ensures var once := ProtectionEdit(sd, on).value.sd;
            ProtectionEdit(once, on) == Ok(Edit(once, false))
  {
    SetThenIsProtected(sd, on);
  }

  lemma LiftedList(list: seq<bytes>)
    requires !Protects(list)
    ensures ProtectionList(list, true) == [ProtectionAce()] + list
    ensures ProtectionList(ProtectionList(list, true), false) == list
  {
    KeptProtects(list);
    ProtectionAceIsOne();
    var led := [ProtectionAce()] + list;
    assert led[1..] == list;
    assert [] + Keep(led, NOT_PROTECTION) == list;
  }

  lemma EditedTwice(p: Parsed, revision: byte, first: seq<bytes>, second: seq<bytes>)
    ensures var e := Edited(p, revision, first);
            Edited(e, KeptRevision(e), second) == Edited(p, revision, second)
  {
    BuiltFields(revision, first);
  }

  /** Protecting puts one Deny in front of the old list; lifting that gives the old list back. */
  lemma ProtectThenUnprotect(sd: bytes, v: View, on: bytes)
    requires Read(sd) == Ok(v) && !Protects(v.list) && RoomToProtect(v.list, true)
    requires on == ProtectionEdit(sd, true).value.sd
    ensures Read(on).Ok? && Read(on).value.list == [ProtectionAce()] + v.list
    ensures ProtectionEdit(on, false).Ok? && ProtectionEdit(on, false).value.changed
    ensures Read(ProtectionEdit(on, false).value.sd)
            == Ok(View(Edited(v.parsed, KeptRevision(v.parsed), v.list), v.list))
  {
    ReadFacts(sd);
    ProtectionListFacts(v.list, true);
    LiftedList(v.list);
    ProtectionReads(sd, true);
    ProtectionReads(on, false);
    EditedTwice(v.parsed, KeptRevision(v.parsed), ProtectionList(v.list, true), v.list);
  }

  // ---- the same on the bytes ----

  /** The entry the directory itself writes: an ACCESS_DENIED for this object only, twenty bytes, DELETE and
      DELETE_TREE, for the SID S-1-1-0. */
  const PROTECTING: bytes := [1, 0, 20, 0, 0x40, 0, 1, 0, 1, 1, 0, 0, 0, 0, 0, 1, 0, 0, 0, 0]

  lemma ProtectingBytes()
    ensures ProtectionAce() == PROTECTING
  {
    assert Le16(20) == [20, 0] && Le32(0x1_0040) == [0x40, 0, 1, 0];
  }

  /** The trustee of that entry is everyone. */
  lemma ProtectingEveryone()
    ensures Sid.TextOf(PROTECTING[8..]) == Ok("S-1-1-0")
  {
    assert Le32(0) == [0, 0, 0, 0];
    assert PROTECTING[8..] == [1, 1, 0, 0, 0, 0, 0, 1] + Le32(0);
    Sid.WellKnownReads(1, 0, PROTECTING[8..]);
    assert Text.Dec(1) == "1" && Text.Dec(0) == "0";
    assert "S-1-" + "1" + "-" + "0" == "S-1-1-0";
  }

  /** Protecting a readable descriptor that has room puts exactly that entry in front of the ones it has. */
  lemma ProtectedBytes(sd: bytes, v: View)
    requires Read(sd) == Ok(v) && RoomToProtect(v.list, true) && ProtectionEdit(sd, true).value.changed
    ensures Read(ProtectionEdit(sd, true).value.sd).Ok?
    ensures Read(ProtectionEdit(sd, true).value.sd).value.list
            == [[1, 0, 20, 0, 0x40, 0, 1, 0, 1, 1, 0, 0, 0, 0, 0, 1, 0, 0, 0, 0]] + v.list
  {
    ProtectionReads(sd, true);
    KeptProtects(v.list);
    ProtectingBytes();
  }

  predicate Shares(a: nat, b: nat) {
    And(a, b) != 0
  }

  lemma SharesHalf(a: nat, b: nat, c: nat)
    requires c == 2 * b
    ensures Shares(a, c) <==> Shares(a / 2, b)
  {
    AndEven(a, b);
  }

  lemma SharesEighth(a: nat, b: nat, c: nat)
    requires c == 8 * b
    ensures Shares(a, c) <==> Shares(a / 8, b)
  {
    SharesHalf(a, 4 * b, c);
    SharesHalf(a / 2, 2 * b, 4 * b);
    SharesHalf(a / 2 / 2, b, 2 * b);
  }

  lemma SharesOdd(a: nat, b: nat, c: nat)
    requires c == 2 * b + 1
    ensures Shares(a, c) <==> a % 2 == 1 || Shares(a / 2, b)
  {
    AndHalves(a, c);
  }

  lemma SharesOne(a: nat)
    ensures Shares(a, 1) <==> a % 2 == 1
  {
    AndOne(a);
  }

  lemma SharesTop(y: nat)
    ensures Shares(y, 0x200) <==> y / 0x200 % 2 == 1
  {
    SharesEighth(y, 0x40, 0x200);
    SharesEighth(y / 8, 8, 0x40);
    SharesEighth(y / 8 / 8, 1, 8);
    SharesOne(y / 8 / 8 / 8);
    assert y / 8 / 8 / 8 == y / 0x200;
  }

  lemma DeleteRights(mask: nat)
    ensures And(mask, 0x1_0040) != 0 <==> Has(mask, 0x40) || Has(mask, 0x1_0000)
  {
    SharesEighth(mask, 0x2008, 0x1_0040);
    SharesEighth(mask / 8, 0x401, 0x2008);
    assert mask / 8 / 8 == mask / 0x40;
    SharesOdd(mask / 0x40, 0x200, 0x401);
    SharesTop(mask / 0x40 / 2);
    assert mask / 0x40 / 2 / 0x200 == mask / 0x1_0000;
  }

  /** A Deny of DELETE or of DELETE_TREE, of either, to S-1-1-0 and of whatever flags. */
  predicate DeniesDeletion(ace: bytes) {
    && |ace| >= 20 && ace[0] == 1 && ace[8..20] == [1, 1, 0, 0, 0, 0, 0, 1, 0, 0, 0, 0]
    && (Has(U32(ace, 4), 0x40) || Has(U32(ace, 4), 0x1_0000))
  }

  lemma ProtectsIsDenial(ace: bytes)
    ensures IsProtectionAce(ace) <==> DeniesDeletion(ace)
  {
    if |ace| >= 20 {
      DeleteRights(U32(ace, 4));
    }
  }

  /** IsProtected is true exactly of the descriptors with such an entry. */
  lemma ProtectedExactly(sd: bytes, v: View)
    requires Read(sd) == Ok(v)
    ensures Protected(sd) == Ok(exists i :: 0 <= i < |v.list| && DeniesDeletion(v.list[i]))
  {
    forall i | 0 <= i < |v.list| ensures IsProtectionAce(v.list[i]) <==> DeniesDeletion(v.list[i]) {
      ProtectsIsDenial(v.list[i]);
    }
  }
}
