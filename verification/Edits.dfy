// The four descriptor edits as one family: each refines an operation on the entry list,
// and what holds over any sequence of them.
module Edits {
  import opened Wrappers
  import opened Bytes
  import opened Lists
  import opened Descriptor
  import opened Dacl
  import opened Protection
  import opened DeniedObject
  import opened Ace
  import opened AceEdits

  datatype Op =
    | Protect(on: bool)
    | Deny(deny: bool, rule: Rule)
    | Add(add: seq<DecodedAce>)
    | Remove(matches: DecodedAce -> bool)

  function Apply(op: Op, sd: bytes): Result<Edit, Error> {
    match op
    case Protect(on) => ProtectionEdit(sd, on)
    case Deny(deny, rule) => DenyEdit(sd, deny, rule)
    case Add(add) => AddEdit(sd, add)
    case Remove(matches) => RemoveEdit(sd, matches)
  }

  /** The edit as an operation on the entry list alone. */
  function NewList(op: Op, list: seq<bytes>): Result<seq<bytes>, Error> {
    match op
    case Protect(on) => Ok(if on == Protects(list) then list else ProtectionList(list, on))
    case Deny(deny, rule) => Ok(if DenySettled(list, rule, deny) then list else DenyList(list, rule, deny))
    case Add(add) => Ok(list + Map(add, ENCODED))
    case Remove(matches) => Survivors(list, matches)
  }

  function NewRevision(op: Op, p: Parsed, list: seq<bytes>): byte {
    match op
    case Protect(_) => KeptRevision(p)
    case Deny(_, _) => RaisedRevision(p)
    case Add(_) => RevisionFor(list)
    case Remove(_) => RevisionFor(list)
  }

  /** The view an edit leads to when it changes anything. */
  function NewView(op: Op, v: View, list: seq<bytes>): View {
    View(Edited(v.parsed, NewRevision(op, v.parsed, list), list), list)
  }

  lemma AddedSized(list: seq<bytes>, add: seq<DecodedAce>)
    requires AllSized(list) && Fits(list + Map(add, ENCODED))
    ensures AllSized(list + Map(add, ENCODED))
  {
    var all := list + Map(add, ENCODED);
    forall i | |list| <= i < |all| ensures Sized(all[i]) {
      EntryFitsList(all, i);
      EncodedFields(add[i - |list|], all[i]);
    }
  }

  lemma NewListSized(op: Op, list: seq<bytes>, after: seq<bytes>)
    requires AllSized(list) && NewList(op, list) == Ok(after) && Fits(after)
    ensures AllSized(after)
  {
    match op
    case Protect(on) => ProtectionListFacts(list, on);
    case Deny(deny, rule) => if !DenySettled(list, rule, deny) { DenyListSized(list, rule, deny); }
    case Add(add) => AddedSized(list, add);
    case Remove(matches) => SurvivorsSized(list, matches);
  }

  /** On a readable descriptor an edit fails exactly when its list operation does, and otherwise either
      leaves the bytes alone or rewrites them around the new list. */
  lemma ApplyShape(op: Op, sd: bytes, v: View)
    requires Read(sd) == Ok(v)
    ensures Apply(op, sd).Ok? <==> NewList(op, v.list).Ok?
    ensures Apply(op, sd).Ok? ==>
              var after := NewList(op, v.list).value;
              if Apply(op, sd).value.changed
              then Apply(op, sd).value.sd == Rewritten(v.parsed, NewRevision(op, v.parsed, after), after)
              else Apply(op, sd).value.sd == sd && after == v.list
  {
    match op
    case Add(add) => if add == [] { assert v.list + Map(add, ENCODED) == v.list; }
    case Remove(matches) =>
      if Survivors(v.list, matches).Ok? && |Survivors(v.list, matches).value| == |v.list| {
        SurvivorsAll(v.list, matches);
      }
    case _ =>
  }

  /** Every edit refines its list operation: the result reads back as the new list. */
  lemma ApplyReads(op: Op, sd: bytes, v: View, after: seq<bytes>)
    requires Read(sd) == Ok(v) && NewList(op, v.list) == Ok(after) && Fits(after)
    ensures Apply(op, sd).Ok?
    ensures Read(Apply(op, sd).value.sd)
            == Ok(if Apply(op, sd).value.changed then NewView(op, v, after) else v)
    ensures !Apply(op, sd).value.changed ==> after == v.list
  {
    ApplyShape(op, sd, v);
    if Apply(op, sd).value.changed {
      ReadFacts(sd);
      NewListSized(op, v.list, after);
      EditedReads(v.parsed, NewRevision(op, v.parsed, after), after);
    }
  }

  // ---- runs ----

  function Run(ops: seq<Op>, sd: bytes): Result<bytes, Error> {
    if ops == [] then Ok(sd)
    else
      var e :- Apply(ops[0], sd);
      Run(ops[1..], e.sd)
  }

  /** Every list written along the run fits the DACL's size field. */
  predicate RunFits(ops: seq<Op>, sd: bytes) {
    ops != [] && Apply(ops[0], sd).Ok? ==>
      && (Read(sd).Ok? && NewList(ops[0], Read(sd).value.list).Ok? ==> Fits(NewList(ops[0], Read(sd).value.list).value))
      && RunFits(ops[1..], Apply(ops[0], sd).value.sd)
  }

  /** The op neither drops nor writes an entry that q accepts. */
  ghost predicate Spares(op: Op, q: bytes -> bool) {
    match op
    case Protect(_) => forall a :: q(a) ==> !IsProtectionAce(a)
    case Deny(_, rule) =>
      && (forall a :: q(a) ==> !MatchedBy(rule, a))
      && (forall i :: 0 <= i < |rule.trustees| ==> !q(DenyFor(rule)(rule.trustees[i])))
    case Add(add) => forall i :: 0 <= i < |add| ==> !q(EncodeAce(add[i]))
    case Remove(matches) => forall a :: q(a) && DecodeAce(a).Ok? ==> !Drops(DecodeAce(a).value, matches)
  }

  lemma {:induction false} SurvivorsDecodable(list: seq<bytes>, matches: DecodedAce -> bool)
    requires Survivors(list, matches).Ok?
    ensures forall a :: a in list ==> DecodeAce(a).Ok?
  {
    if list != [] {
      SurvivorsDecodable(list[1..], matches);
      assert list == [list[0]] + list[1..];
    }
  }

  /** Spared entries come through one edit byte for byte and in order. */
  lemma SparedSurvive(op: Op, list: seq<bytes>, after: seq<bytes>, q: bytes -> bool)
    requires NewList(op, list) == Ok(after) && Spares(op, q)
    ensures Keep(after, q) == Keep(list, q)
  {
    match op
    case Protect(on) =>
      if on != Protects(list) {
        ProtectionAceIsOne();
        KeepKeep(list, NOT_PROTECTION, q);
        var front := if on then [ProtectionAce()] else [];
        KeepNone(front, q);
        KeepAppend(front, Keep(list, NOT_PROTECTION), q);
      }
    case Deny(deny, rule) =>
      if !DenySettled(list, rule, deny) {
        KeepKeep(list, Unmatched(rule), q);
        var front := if deny then Map(rule.trustees, DenyFor(rule)) else [];
        KeepNone(front, q);
        KeepAppend(front, Keep(list, Unmatched(rule)), q);
      }
    case Add(add) =>
      KeepNone(Map(add, ENCODED), q);
      KeepAppend(list, Map(add, ENCODED), q);
    case Remove(matches) =>
      SurvivorsDecodable(list, matches);
      SurvivorsKeep(list, matches, q);
  }

  /** A DACL that holds an object entry is at a revision the directory accepts. */
  /** An ACCESS_ALLOWED_OBJECT or ACCESS_DENIED_OBJECT entry, types 5 and 6. */
  predicate HoldsObject(list: seq<bytes>) {
    exists i :: 0 <= i < |list| && |list[i]| > 0 && (list[i][0] == 5 || list[i][0] == 6)
  }

  predicate RevisionFitsEntries(v: View) {
    HoldsObject(v.list) ==> v.parsed.dacl != [] && v.parsed.dacl[0] >= 4
  }

  lemma ObjectsAreHeld(list: seq<bytes>)
    ensures HasObjectAce(list) <==> HoldsObject(list)
  {
    if i :| 0 <= i < |list| && |list[i]| > 0 && IsObjectType(list[i][0]) {
      assert list[i][0] == 5 || list[i][0] == 6;
    }
    if i :| 0 <= i < |list| && |list[i]| > 0 && (list[i][0] == 5 || list[i][0] == 6) {
      assert IsObjectType(list[i][0]);
    }
  }

  lemma {:induction false} KeepObjectAce(list: seq<bytes>, p: bytes -> bool)
    ensures HasObjectAce(Keep(list, p)) ==> HasObjectAce(list)
  {
    KeepMembers(list, p);
    if HasObjectAce(Keep(list, p)) {
      var i :| 0 <= i < |Keep(list, p)| && |Keep(list, p)[i]| > 0 && IsObjectType(Keep(list, p)[i][0]);
      assert Keep(list, p)[i] in list;
    }
  }

  lemma ObjectBehind(front: seq<bytes>, kept: seq<bytes>)
    requires forall i :: 0 <= i < |front| ==> |front[i]| > 0 && !IsObjectType(front[i][0])
    ensures HasObjectAce(front + kept) ==> HasObjectAce(kept)
  {
    var all := front + kept;
    if HasObjectAce(all) {
      var i :| 0 <= i < |all| && |all[i]| > 0 && IsObjectType(all[i][0]);
      assert i >= |front| && kept[i - |front|] == all[i];
    }
  }

  /** Protection edits bring in no object entry. */
  lemma ProtectionAddsNoObject(list: seq<bytes>, on: bool)
    ensures HasObjectAce(ProtectionList(list, on)) ==> HasObjectAce(list)
  {
    var front, kept := if on then [ProtectionAce()] else [], Keep(list, NOT_PROTECTION);
    ProtectionAceIsOne();
    KeepObjectAce(list, NOT_PROTECTION);
    ObjectBehind(front, kept);
  }

  lemma WrittenRevision(op: Op, p: Parsed, after: seq<bytes>)
    ensures var e := NewView(op, View(p, []), after).parsed;
            e.dacl != [] && e.dacl[0] == NewRevision(op, p, after)
  {
    BuiltFields(NewRevision(op, p, after), after);
  }

  lemma RevisionKept(op: Op, v: View, after: seq<bytes>)
    requires NewList(op, v.list) == Ok(after) && RevisionFitsEntries(v)
    ensures RevisionFitsEntries(NewView(op, v, after))
  {
    WrittenRevision(op, v.parsed, after);
    ObjectsAreHeld(v.list);
    ObjectsAreHeld(after);
    if op.Protect? {
      ProtectionAddsNoObject(v.list, op.on);
    }
  }

  /** Everything outside the DACL is carried over, and so is every bit of the control word but the DACL-present one,
      which is never taken away. */
  predicate SameOutsideDacl(p: Parsed, q: Parsed) {
    && q.revision == p.revision && q.sbz1 == p.sbz1
    && q.owner == p.owner && q.group == p.group && q.sacl == p.sacl
    && (forall bit :: bit in FLAGS && bit != 0x4 ==> (Has(q.control, bit) <==> Has(p.control, bit)))
    && (Has(p.control, 0x4) ==> Has(q.control, 0x4))
  }

  lemma EditedKeepsOutside(p: Parsed, revision: byte, list: seq<bytes>)
    ensures SameOutsideDacl(p, Edited(p, revision, list)) && Has(Edited(p, revision, list).control, 0x4)
  {
    forall bit | bit in FLAGS && bit != 0x4
      ensures Has(Edited(p, revision, list).control, bit) <==> Has(p.control, bit)
    {
      OtherFlagsStay(p.control, bit);
    }
  }

  /** The revision a change leaves: protecting keeps the DACL's own, or 2 for a first one; denying raises it to 4; the
      two edits of decoded entries choose 4 or 2 by what the new list holds. */
  lemma RevisionLeft(op: Op, sd: bytes, v: View, after: seq<bytes>)
    requires Read(sd) == Ok(v) && NewList(op, v.list) == Ok(after) && Fits(after)
    requires Apply(op, sd).Ok? && Apply(op, sd).value.changed
    ensures Read(Apply(op, sd).value.sd).Ok?
    ensures var now, was := Read(Apply(op, sd).value.sd).value.parsed.dacl, v.parsed.dacl;
            && now != []
            && now[0] == match op
                         case Protect(_) => if was == [] then 2 else was[0]
                         case Deny(_, _) => if was != [] && was[0] > 4 then was[0] else 4
                         case _ => if HoldsObject(after) then 4 else 2
  {
    ApplyReads(op, sd, v, after);
    WrittenRevision(op, v.parsed, after);
    ObjectsAreHeld(after);
  }

  lemma SameOutsideTransitive(p: Parsed, q: Parsed, r: Parsed)
    requires SameOutsideDacl(p, q) && SameOutsideDacl(q, r)
    ensures SameOutsideDacl(p, r)
  {
  }

  lemma OneEdit(op: Op, sd: bytes, v: View, after: seq<bytes>)
    requires Read(sd) == Ok(v) && NewList(op, v.list) == Ok(after) && Fits(after)
    ensures Apply(op, sd).Ok? && Read(Apply(op, sd).value.sd).Ok?
    ensures var w := Read(Apply(op, sd).value.sd).value;
            && SameOutsideDacl(v.parsed, w.parsed) && w.list == after
            && (Apply(op, sd).value.sd == sd || Has(w.parsed.control, 0x4))
            && (RevisionFitsEntries(v) ==> RevisionFitsEntries(w))
  {
    ApplyReads(op, sd, v, after);
    ApplyShape(op, sd, v);
    EditedKeepsOutside(v.parsed, NewRevision(op, v.parsed, after), after);
    if RevisionFitsEntries(v) {
      RevisionKept(op, v, after);
    }
  }

  /** The first step of a run, and the view it leaves for the rest. */
  lemma RunStep(ops: seq<Op>, sd: bytes, v: View)
    requires ops != [] && Read(sd) == Ok(v) && Run(ops, sd).Ok? && RunFits(ops, sd)
    ensures NewList(ops[0], v.list).Ok? && Apply(ops[0], sd).Ok? && Read(Apply(ops[0], sd).value.sd).Ok?
    ensures RunFits(ops[1..], Apply(ops[0], sd).value.sd)
    ensures var w := Read(Apply(ops[0], sd).value.sd).value;
            && SameOutsideDacl(v.parsed, w.parsed) && w.list == NewList(ops[0], v.list).value
            && (Apply(ops[0], sd).value.sd == sd || Has(w.parsed.control, 0x4))
            && (RevisionFitsEntries(v) ==> RevisionFitsEntries(w))
  {
    ApplyShape(ops[0], sd, v);
    OneEdit(ops[0], sd, v, NewList(ops[0], v.list).value);
  }

  /** Over any sequence of edits whose lists fit, what lies outside the DACL stays and the DACL's
      revision stays acceptable for the entries in it. */
  lemma {:induction false} RunKeepsDescriptor(ops: seq<Op>, sd: bytes, v: View)
    requires Read(sd) == Ok(v) && Run(ops, sd).Ok? && RunFits(ops, sd)
    ensures Read(Run(ops, sd).value).Ok?
    ensures SameOutsideDacl(v.parsed, Read(Run(ops, sd).value).value.parsed)
    ensures Run(ops, sd).value == sd || Has(Read(Run(ops, sd).value).value.parsed.control, 0x4)
    ensures RevisionFitsEntries(v) ==> RevisionFitsEntries(Read(Run(ops, sd).value).value)
    decreases |ops|
  {
    if ops != [] {
      RunStep(ops, sd, v);
      var mid := Apply(ops[0], sd).value.sd;
      var w := Read(mid).value;
      RunKeepsDescriptor(ops[1..], mid, w);
      SameOutsideTransitive(v.parsed, w.parsed, Read(Run(ops[1..], mid).value).value.parsed);
    }
  }

  /** Over any such sequence, every entry that no edit drops or writes survives byte for byte, in order. */
  lemma {:induction false} RunSparesForeign(ops: seq<Op>, sd: bytes, v: View, q: bytes -> bool)
    requires Read(sd) == Ok(v) && Run(ops, sd).Ok? && RunFits(ops, sd)
    requires forall i :: 0 <= i < |ops| ==> Spares(ops[i], q)
    ensures Read(Run(ops, sd).value).Ok? && Keep(Read(Run(ops, sd).value).value.list, q) == Keep(v.list, q)
    decreases |ops|
  {
    if ops != [] {
      RunStep(ops, sd, v);
      var mid := Apply(ops[0], sd).value.sd;
      SparedSurvive(ops[0], v.list, NewList(ops[0], v.list).value, q);
      assert forall i :: 0 <= i < |ops[1..]| ==> ops[1..][i] == ops[i + 1];
      RunSparesForeign(ops[1..], mid, Read(mid).value, q);
    }
  }

  // ---- the two Deny features do not see each other ----

  lemma ProtectionIsNotObject(rule: Rule, ace: bytes)
    ensures !(IsProtectionAce(ace) && MatchedBy(rule, ace))
  {
  }

  /** Protection edits leave the answer about a denied right alone. */
  lemma ProtectionSparesDenials(sd: bytes, v: View, on: bool, rule: Rule)
    requires Read(sd) == Ok(v) && RoomToProtect(v.list, on)
    ensures HasDenied(ProtectionEdit(sd, on).value.sd, rule) == HasDenied(sd, rule)
  {
    var q := Matched(rule);
    forall a | q(a) ensures !IsProtectionAce(a) {
      ProtectionIsNotObject(rule, a);
    }
    var after := NewList(Protect(on), v.list).value;
    ReadFacts(sd);
    ProtectionListFacts(v.list, on);
    KeptProtects(v.list);
    OneEdit(Protect(on), sd, v, after);
    SparedSurvive(Protect(on), v.list, after, q);
    AnyMatchedKeep(after, rule);
    AnyMatchedKeep(v.list, rule);
  }

  lemma AnyMatchedKeep(list: seq<bytes>, rule: Rule)
    ensures AnyMatched(list, rule) <==> Keep(list, Matched(rule)) != []
  {
    AnyMatchedCount(list, rule);
    KeepComplement(list, Matched(rule), Unmatched(rule));
  }

  lemma ProtectsKeep(list: seq<bytes>)
    ensures Protects(list) <==> Keep(list, (a: bytes) => IsProtectionAce(a)) != []
  {
    var q := (a: bytes) => IsProtectionAce(a);
    KeepMembers(list, q);
    if Protects(list) {
      var i :| 0 <= i < |list| && IsProtectionAce(list[i]);
      assert list[i] in Keep(list, q);
    } else {
      KeepNone(list, q);
    }
  }

  /** Denying or allowing a right leaves the answer about protection alone. */
  lemma DenialsSpareProtection(sd: bytes, v: View, deny: bool, rule: Rule)
    requires Read(sd) == Ok(v) && Fits(DenyList(v.list, rule, deny))
    ensures Protected(DenyEdit(sd, deny, rule).value.sd) == Protected(sd)
  {
    var q := (a: bytes) => IsProtectionAce(a);
    forall a | q(a) ensures !MatchedBy(rule, a) {
      ProtectionIsNotObject(rule, a);
    }
    forall i | 0 <= i < |rule.trustees| ensures !q(DenyFor(rule)(rule.trustees[i])) {
      DenyAceFields(rule.mask, rule.objectType, rule.trustees[i], DenyFor(rule)(rule.trustees[i]));
    }
    ReadFacts(sd);
    var after := NewList(Deny(deny, rule), v.list).value;
    OneEdit(Deny(deny, rule), sd, v, after);
    SparedSurvive(Deny(deny, rule), v.list, after, q);
    ProtectsKeep(after);
    ProtectsKeep(v.list);
  }
}
