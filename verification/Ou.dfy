// OU.Update and setProtection of ou.go: protection is lifted before a move and restored after it.
module Ou {
  import opened Wrappers
  import opened Bytes
  import opened Lists
  import opened Descriptor
  import opened Dacl
  import opened Protection

  datatype OuError = DirectoryFailed | DescriptorHidden | BadDescriptor | BadContainer

  /** The requests of one update, any of which the directory may refuse. */
  datatype Request =
    | FirstGet | WriteDescription | ReadForLift | WriteLift | Move
    | SecondGet | ReadForRestore | WriteRestore | LastGet | Replicate

  /** None leaves a field as it is. */
  datatype Spec = Spec(name: string, container: string, description: Option<string>, protected: Option<bool>)

  datatype Model = Model(name: string, container: string, description: string, protected: bool)

  /** What reading the descriptor says; one the account cannot read says unprotected. */
  function ProtectedField(sd: bytes): Result<bool, Error> {
    if sd == [] then Ok(false) else Protected(sd)
  }

  /** The entries an update that succeeds leaves. */
  function FinalList(list: seq<bytes>, moving: bool, want: bool): seq<bytes> {
    var lifted := if moving && Protects(list) then ProtectionList(list, false) else list;
    if Protects(lifted) == want then lifted else ProtectionList(lifted, want)
  }

  /** The descriptor can be read and brought to the wanted protection within its size field. */
  predicate Protectable(sd: bytes, want: bool) {
    sd != [] && Read(sd).Ok? && RoomToProtect(Read(sd).value.list, want)
  }

  /** Everything an update needs: the requests it makes are answered, the descriptor reads, the containers
      compare, and a protection that has to be added has room. */
  predicate Succeeds(name: string, container: string, description: string, sd: bytes,
                     spec: Spec, same: (string, string) -> Option<bool>, fails: Request -> bool) {
    && !fails(FirstGet) && ProtectedField(sd).Ok? && same(spec.container, container).Some?
    && (spec.description.Some? && spec.description.value != description ==> !fails(WriteDescription))
    && Reshapes(spec.name != name || !same(spec.container, container).value, sd,
                spec.protected.UnwrapOr(ProtectedField(sd).value), fails)
  }

  predicate Reshapes(moving: bool, sd: bytes, want: bool, fails: Request -> bool)
    requires ProtectedField(sd).Ok?
  {
    var protected := ProtectedField(sd).value;
    && (moving && protected ==> !fails(ReadForLift) && !fails(WriteLift))
    && (moving ==> !fails(Move))
    && !fails(SecondGet) && !fails(Replicate)
    && ((!moving && protected) != want ==>
          && !fails(ReadForRestore) && !fails(WriteRestore) && !fails(LastGet)
          && (protected || Protectable(sd, want)))
  }

  // ---- what the edits of one update do to the entry list ----

  /** A change that can be read back wrote exactly the new list. */
  lemma EditedList(sd: bytes, v: View, want: bool, after: bytes)
    requires Read(sd) == Ok(v) && ProtectionEdit(sd, want).Ok? && after == ProtectionEdit(sd, want).value.sd
    requires Read(after).Ok?
    ensures Read(after).value.list == if Protects(v.list) == want then v.list else ProtectionList(v.list, want)
  {
    var list := ProtectionList(v.list, want);
    ReadFacts(sd);
    ProtectionListFacts(v.list, want);
    SizedCount(v.list);
    if Protects(v.list) != want {
      if Fits(list) {
        EditedReads(v.parsed, KeptRevision(v.parsed), list);
      } else {
        OversizedIsUnreadable(v.parsed, KeptRevision(v.parsed), list);
      }
    }
  }

  /** Foreign entries are kept in order, and the list protects as wanted. */
  lemma FinalListFacts(list: seq<bytes>, moving: bool, want: bool)
    ensures Keep(FinalList(list, moving, want), NOT_PROTECTION) == Keep(list, NOT_PROTECTION)
    ensures Protects(FinalList(list, moving, want)) == want
  {
    var kept := Keep(list, NOT_PROTECTION);
    var lifted := if moving && Protects(list) then ProtectionList(list, false) else list;
    KeptProtects(list);
    KeepMembers(list, NOT_PROTECTION);
    KeepAll(kept, NOT_PROTECTION);
    assert ProtectionList(list, false) == kept;
    ProtectionAceIsOne();
    FrontProtects(Keep(lifted, NOT_PROTECTION));
    KeptProtects(lifted);
  }

  lemma FrontProtects(kept: seq<bytes>)
    requires forall a :: a in kept ==> !IsProtectionAce(a)
    ensures Protects([ProtectionAce()] + kept)
    ensures Keep([ProtectionAce()] + kept, NOT_PROTECTION) == kept
    ensures [] + kept == kept
  {
    var led := [ProtectionAce()] + kept;
    ProtectionAceIsOne();
    assert IsProtectionAce(led[0]) && led[1..] == kept;
    KeepAll(kept, NOT_PROTECTION);
  }

  /** Every protection entry dropped makes room for the one put back. */
  lemma {:induction false} DroppedMakesRoom(list: seq<bytes>)
    requires AllSized(list) && Protects(list)
    ensures |Flat(Keep(list, NOT_PROTECTION))| + 20 <= |Flat(list)|
  {
    var rest := list[1..];
    if IsProtectionAce(list[0]) {
      KeepSized(rest, NOT_PROTECTION);
    } else {
      assert Protects(rest) by {
        var i :| 0 <= i < |list| && IsProtectionAce(list[i]);
        assert rest[i - 1] == list[i];
      }
      DroppedMakesRoom(rest);
    }
  }

  /** Moving a protected unit that stays protected leaves one leading Deny and the foreign entries, in no more room. */
  lemma MovedList(list: seq<bytes>)
    requires AllSized(list) && Protects(list)
    ensures FinalList(list, true, true) == [ProtectionAce()] + Keep(list, NOT_PROTECTION)
    ensures |Flat(FinalList(list, true, true))| <= |Flat(list)|
  {
    var kept := Keep(list, NOT_PROTECTION);
    KeptProtects(list);
    assert ProtectionList(list, false) == kept;
    KeptProtects(kept);
    ProtectionAceIsOne();
    var led := [ProtectionAce()] + kept;
    assert led[0] == ProtectionAce() && led[1..] == kept;
    DroppedMakesRoom(list);
  }

  lemma RestoredProtects(sd: bytes, want: bool, after: bytes)
    requires Read(sd).Ok? && after == ProtectionEdit(sd, want).value.sd && Read(after).Ok?
    ensures Protected(after) == Ok(want)
  {
    var v := Read(sd).value;
    ReadFacts(sd);
    EditedList(sd, v, want, after);
    ProtectionListFacts(v.list, want);
  }

  lemma LiftReads(sd0: bytes, v: View, sd1: bytes)
    requires Read(sd0) == Ok(v) && Protects(v.list) && sd1 == ProtectionEdit(sd0, false).value.sd
    ensures sd1 != [] && Read(sd1).Ok? && Read(sd1).value.list == Keep(v.list, NOT_PROTECTION)
  {
    ProtectionReads(sd0, false);
    assert ProtectionList(v.list, false) == Keep(v.list, NOT_PROTECTION);
  }

  lemma RestoreReads(sd1: bytes, kept: seq<bytes>, sd2: bytes)
    requires Read(sd1).Ok? && Read(sd1).value.list == kept && !Protects(kept)
    requires ACL_HEADER + 20 + |Flat(kept)| < 0x1_0000 && sd2 == ProtectionEdit(sd1, true).value.sd
    ensures Read(sd2).Ok? && |Read(sd2).value.parsed.dacl| == ACL_HEADER + 20 + |Flat(kept)|
  {
    ProtectionReads(sd1, true);
    LiftedList(kept);
    ProtectionAceIsOne();
    var led := [ProtectionAce()] + kept;
    assert led[1..] == kept;
  }

  /** A protected unit can always be lifted and protected again: neither write overflows or grows the DACL. */
  lemma LiftAndRestoreFit(sd0: bytes, v: View, sd1: bytes, sd2: bytes)
    requires Read(sd0) == Ok(v) && Protects(v.list)
    requires ProtectionEdit(sd0, false) == Ok(Edit(sd1, true)) && ProtectionEdit(sd1, true) == Ok(Edit(sd2, true))
    ensures sd1 != [] && Read(sd1).Ok? && !Protects(Read(sd1).value.list)
    ensures Read(sd2).Ok? && |Read(sd2).value.parsed.dacl| <= |v.parsed.dacl|
  {
    ReadFacts(sd0);
    LiftReads(sd0, v, sd1);
    KeptProtects(v.list);
    DroppedMakesRoom(v.list);
    RestoreReads(sd1, Keep(v.list, NOT_PROTECTION), sd2);
  }

  /** So the descriptor is never what stops a move of a protected unit. */
  lemma MoveCanBeFinished(sd0: bytes, sd1: bytes)
    requires Read(sd0).Ok? && Protected(sd0) == Ok(true) && sd1 == ProtectionEdit(sd0, false).value.sd
    ensures sd1 != [] && Read(sd1).Ok? && Read(ProtectionEdit(sd1, true).value.sd).Ok?
    ensures |Read(ProtectionEdit(sd1, true).value.sd).value.parsed.dacl| <= |Read(sd0).value.parsed.dacl|
  {
    var v := Read(sd0).value;
    LiftReads(sd0, v, sd1);
    KeptProtects(v.list);
    LiftAndRestoreFit(sd0, v, sd1, ProtectionEdit(sd1, true).value.sd);
  }

  /** An edit that changes the protection can be read back exactly when there was room for it. */
  lemma EditReadsExactly(sd: bytes, v: View, want: bool, after: bytes)
    requires Read(sd) == Ok(v) && Protects(v.list) != want && ProtectionEdit(sd, want) == Ok(Edit(after, true))
    ensures after != [] && (Read(after).Ok? <==> RoomToProtect(v.list, want))
    ensures Read(after).Ok? ==> Protected(after) == Ok(want)
  {
    SetThenIsProtected(sd, want);
    if Read(after).Ok? {
      RestoredProtects(sd, want, after);
    }
  }

  /** The descriptor after the lift, if there is one. */
  function Lifted(sd: bytes, moving: bool): bytes
    requires ProtectedField(sd).Ok?
  {
    if moving && ProtectedField(sd).value then ProtectionEdit(sd, false).value.sd else sd
  }

  lemma LiftedFacts(sd0: bytes, moving: bool, want: bool, sd1: bytes)
    requires ProtectedField(sd0).Ok? && sd1 == Lifted(sd0, moving)
    ensures ProtectedField(sd1) == Ok(!moving && ProtectedField(sd0).value)
    ensures ProtectedField(sd1).value != want ==>
              (Protectable(sd1, want) <==> ProtectedField(sd0).value || Protectable(sd0, want))
  {
    if moving && ProtectedField(sd0).value {
      var v := Read(sd0).value;
      LiftReads(sd0, v, sd1);
      KeptProtects(v.list);
      DroppedFits(sd0, v);
    }
  }

  /** The descriptor along an update, sd0 as found, sd1 after the lift and sd2 as left, ends with the final list. */
  lemma UpdatedList(sd0: bytes, sd1: bytes, sd2: bytes, moving: bool, want: bool)
    requires sd0 != [] && ProtectedField(sd0).Ok? && sd1 == Lifted(sd0, moving) && sd1 != []
    requires ProtectedField(sd1).Ok? && ProtectedField(sd2).Ok? && sd2 != []
    requires sd2 == if ProtectedField(sd1).value == want then sd1 else ProtectionEdit(sd1, want).value.sd
    ensures Read(sd0).Ok? && Read(sd2).Ok? && Read(sd2).value.list == FinalList(Read(sd0).value.list, moving, want)
  {
    var v := Read(sd0).value;
    if moving && Protects(v.list) {
      EditedList(sd0, v, false, sd1);
    }
    EditedList(sd1, Read(sd1).value, want, ProtectionEdit(sd1, want).value.sd);
  }

  lemma LiftedStays(sd0: bytes, moving: bool)
    requires ProtectedField(sd0).Ok? && sd0 != []
    ensures Lifted(sd0, moving) != []
  {
    if moving && ProtectedField(sd0).value {
      LiftReads(sd0, Read(sd0).value, Lifted(sd0, moving));
    }
  }

  lemma DroppedFits(sd0: bytes, v: View)
    requires Read(sd0) == Ok(v) && Protects(v.list)
    ensures RoomToProtect(Keep(v.list, NOT_PROTECTION), true)
  {
    ReadFacts(sd0);
    DroppedMakesRoom(v.list);
  }

  /** The directory's own copy of one organizational unit. */
  class Entry {
    var name: string
    var container: string
    var description: string
    // Empty when the account cannot read it.
    var sd: bytes

    constructor (name: string, container: string, description: string, sd: bytes)
      ensures this.name == name && this.container == container && this.description == description && this.sd == sd
    {
      this.name, this.container, this.description, this.sd := name, container, description, sd;
    }

    method Get(fails: bool) returns (r: Result<Model, OuError>)
      ensures r.Ok? <==> !fails && ProtectedField(sd).Ok?
      ensures r.Ok? ==> r.value == Model(name, container, description, ProtectedField(sd).value)
    {
      if fails {
        return Err(DirectoryFailed);
      }
      var protected := false;
      if |sd| > 0 {
        var answer := IsProtected(sd);
        if answer.Err? {
          return Err(BadDescriptor);
        }
        protected := answer.value;
      }
      return Ok(Model(name, container, description, protected));
    }

    /** Read, edit, write back; nothing is written when nothing would change. */
    method SetProtection(want: bool, readFails: bool, writeFails: bool) returns (r: Option<OuError>)
      modifies this`sd
      ensures r.Some? ==> sd == old(sd)
      ensures r.None? ==> old(sd) != [] && ProtectionEdit(old(sd), want).Ok? && sd == ProtectionEdit(old(sd), want).value.sd
      ensures r.None? <==>
                && !readFails && old(sd) != [] && ProtectionEdit(old(sd), want).Ok?
                && (ProtectionEdit(old(sd), want).value.changed ==> !writeFails)
    {
      if readFails {
        return Some(DirectoryFailed);
      }
      var current := sd;
      if |current| == 0 {
        return Some(DescriptorHidden);
      }
      var edit := SetProtected(current, want);
      if edit.Err? {
        return Some(BadDescriptor);
      }
      if !edit.value.changed {
        return None;
      }
      if writeFails {
        return Some(DirectoryFailed);
      }
      sd := edit.value.sd;
      return None;
    }

    /** The middle of Update: a move, with the protection lifted first when there is any. */
    method MoveTo(spec: Spec, sameContainer: bool, protected: bool, fails: Request -> bool)
      returns (r: Option<OuError>)
      requires ProtectedField(sd) == Ok(protected)
      modifies this
      ensures description == old(description)
      ensures r.None? ==> name == spec.name && container == if sameContainer then old(container) else spec.container
      ensures r.None? ==>
                && (sd == if protected then ProtectionEdit(old(sd), false).value.sd else old(sd))
                && (protected ==> ProtectionEdit(old(sd), false).Ok?)
      ensures r.None? <==> (protected ==> !fails(ReadForLift) && !fails(WriteLift)) && !fails(Move)
    {
      if protected {
        var lift := SetProtection(false, fails(ReadForLift), fails(WriteLift));
        if lift.Some? {
          return lift;
        }
      }
      if fails(Move) {
        return Some(DirectoryFailed);
      }
      name := spec.name;
      container := if sameContainer then container else spec.container;
      return None;
    }

    /** The write that brings the protection to what is wanted, and the read that sees it. */
    method Rewrite(want: bool, fails: Request -> bool) returns (r: Result<Model, OuError>)
      requires ProtectedField(sd) == Ok(!want)
      modifies this`sd
      ensures r.Ok? ==>
                && r.value == Model(name, container, description, want) && ProtectedField(sd) == Ok(want)
                && old(sd) != [] && ProtectionEdit(old(sd), want).Ok? && sd == ProtectionEdit(old(sd), want).value.sd
      ensures r.Ok? <==> !fails(ReadForRestore) && !fails(WriteRestore) && !fails(LastGet) && Protectable(old(sd), want)
    {
      var restore := SetProtection(want, fails(ReadForRestore), fails(WriteRestore));
      if restore.Some? {
        return Err(restore.value);
      }
      EditReadsExactly(old(sd), Read(old(sd)).value, want, sd);
      r := Get(fails(LastGet));
    }

    /** The end of Update: read back, and bring the protection to what is wanted. */
    method Restore(want: bool, fails: Request -> bool) returns (r: Result<Model, OuError>)
      modifies this`sd
      ensures r.Ok? ==>
                && ProtectedField(old(sd)).Ok?
                && r.value == Model(name, container, description, want) && ProtectedField(sd) == Ok(want)
                && (ProtectedField(old(sd)).value == want ==> sd == old(sd))
                && (ProtectedField(old(sd)).value != want ==>
                      old(sd) != [] && ProtectionEdit(old(sd), want).Ok? && sd == ProtectionEdit(old(sd), want).value.sd)
      ensures r.Ok? <==>
                && !fails(SecondGet) && ProtectedField(old(sd)).Ok? && !fails(Replicate)
                && (ProtectedField(old(sd)).value != want ==> !fails(ReadForRestore) && !fails(WriteRestore) && !fails(LastGet)
                                                              && Protectable(old(sd), want))
    {
      var updated :- Get(fails(SecondGet));
      if updated.protected != want {
        updated :- Rewrite(want, fails);
      }
      if fails(Replicate) {
        return Err(DirectoryFailed);
      }
      return Ok(updated);
    }

    /** Update from the point where it is known what is wanted. */
    method Reshape(spec: Spec, sameContainer: bool, protected: bool, want: bool, fails: Request -> bool)
      returns (r: Result<Model, OuError>)
      requires ProtectedField(sd) == Ok(protected)
      modifies this
      ensures description == old(description)
      ensures r.Ok? ==> r.value == Model(name, container, description, want) && ProtectedField(sd) == Ok(want)
      ensures r.Ok? ==> name == spec.name && container == if sameContainer then old(container) else spec.container
      ensures r.Ok? && old(sd) == [] ==> sd == [] && !want
      ensures r.Ok? && old(sd) != [] ==>
                && Read(old(sd)).Ok? && Read(sd).Ok?
                && Read(sd).value.list
                   == FinalList(Read(old(sd)).value.list, spec.name != old(name) || !sameContainer, want)
      ensures r.Ok? && protected && want && (spec.name != old(name) || !sameContainer) ==>
                && Read(old(sd)).Ok? && Read(sd).Ok?
                && |Read(sd).value.parsed.dacl| <= |Read(old(sd)).value.parsed.dacl|
      ensures r.Ok? <==> Reshapes(spec.name != old(name) || !sameContainer, old(sd), want, fails)
    {
      var moving := spec.name != name || !sameContainer;
      if moving {
        var moved := MoveTo(spec, sameContainer, protected, fails);
        if moved.Some? {
          return Err(moved.value);
        }
      }
      ghost var lifted := sd;
      LiftedFacts(old(sd), moving, want, lifted);
      if moving && protected {
        MoveCanBeFinished(old(sd), lifted);
      }
      r := Restore(want, fails);
      if r.Ok? && old(sd) != [] {
        LiftedStays(old(sd), moving);
        UpdatedList(old(sd), lifted, sd, moving, want);
      }
    }

    /** same compares two container DNs, or fails on one that is malformed. */
    method Update(spec: Spec, same: (string, string) -> Option<bool>, fails: Request -> bool)
      returns (r: Result<Model, OuError>)
      modifies this
      ensures r.Ok? <==> Succeeds(old(name), old(container), old(description), old(sd), spec, same, fails)
      ensures r.Ok? ==>
                && ProtectedField(old(sd)).Ok? && same(spec.container, old(container)).Some?
                && r.value == Model(name, container, description, spec.protected.UnwrapOr(ProtectedField(old(sd)).value))
                && ProtectedField(sd) == Ok(r.value.protected)
      ensures r.Ok? ==>
                && name == spec.name && description == spec.description.UnwrapOr(old(description))
                && container == if same(spec.container, old(container)).value then old(container) else spec.container
      ensures r.Ok? && old(sd) == [] ==> sd == [] && !r.value.protected
      ensures r.Ok? && old(sd) != [] ==>
                && Read(old(sd)).Ok? && Read(sd).Ok?
                && Read(sd).value.list
                   == FinalList(Read(old(sd)).value.list,
                                spec.name != old(name) || !same(spec.container, old(container)).value, r.value.protected)
      ensures r.Ok? && ProtectedField(old(sd)) == Ok(true) && r.value.protected
              && (spec.name != old(name) || !same(spec.container, old(container)).value) ==>
                && Read(old(sd)).Ok? && Read(sd).Ok?
                && |Read(sd).value.parsed.dacl| <= |Read(old(sd)).value.parsed.dacl|
    {
      var current :- Get(fails(FirstGet));
      if spec.description.Some? && spec.description.value != current.description {
        if fails(WriteDescription) {
          return Err(DirectoryFailed);
        }
        description := spec.description.value;
      }
      var want := spec.protected.UnwrapOr(current.protected);
      var sameContainer := same(spec.container, current.container);
      if sameContainer.None? {
        return Err(BadContainer);
      }
      r := Reshape(spec, sameContainer.value, current.protected, want, fails);
    }
  }
}
