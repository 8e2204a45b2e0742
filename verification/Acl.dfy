// The access-rule operations of acl.go over one descriptor: Get, Grant and Revoke. The
// canonical key of an entry belongs to another library, so it is a parameter.
module Acl {
  import opened Wrappers
  import opened Bytes
  import opened Lists
  import Rights
  import Guid
  import Sid
  import D = Descriptor
  import opened Protection
  import opened Ace
  import opened AceEdits

  const CONTAINER_INHERIT := 0x02
  const NO_PROPAGATE := 0x04
  const INHERIT_ONLY := 0x08

  datatype Inheritance = This | Descendants | Children

  /** One access rule in the contract's terms. */
  datatype Rule = Rule(
    trustee: string, deny: bool, rights: seq<string>,
    objectType: string, inheritedType: string,
    inheritance: Inheritance, inherited: bool)

  datatype AclError =
    | Unreadable
    | BadTrustee(sid: Sid.SidError)
    | BadRight(right: Rights.RightsError)
    | BadObjectType | BadInheritedType
    | BadDescriptor(error: D.Error)

  const ZERO_GUID := "00000000-0000-0000-0000-000000000000"

  function InheritanceOf(flags: byte): Inheritance {
    if !Has(flags, CONTAINER_INHERIT) then This
    else if Has(flags, NO_PROPAGATE) then Children
    else Descendants
  }

  function FlagsFor(inheritance: Inheritance): byte {
    match inheritance
    case This => 0
    case Descendants => CONTAINER_INHERIT + INHERIT_ONLY
    case Children => CONTAINER_INHERIT + NO_PROPAGATE + INHERIT_ONLY
  }

  function GuidOrEmpty(raw: bytes): string {
    if |raw| != 16 || Guid.TextOf(raw).Err? || Guid.TextOf(raw).value == ZERO_GUID then ""
    else Guid.TextOf(raw).value
  }

  /** A decoded entry as Get presents it; None for a trustee that will not format. */
  function Shown(d: DecodedAce): Option<Rule> {
    match Sid.TextOf(d.trustee)
    case Err(_) => None
    case Ok(text) =>
      Some(Rule(text, d.deny, Rights.NamesOf(Rights.BitsOf(d.mask)), GuidOrEmpty(d.objectType),
                GuidOrEmpty(d.inheritedType), InheritanceOf(d.flags), d.inherited))
  }

  const SHOW := (d: DecodedAce) => Shown(d)

  function Lift<T>(r: Result<T, D.Error>): Result<T, AclError> {
    match r
    case Ok(v) => Ok(v)
    case Err(e) => Err(BadDescriptor(e))
  }

  function RulesOf(sd: bytes): Result<seq<Rule>, AclError> {
    if sd == [] then Err(Unreadable)
    else
      var ds :- Lift(DecodedOf(sd));
      Ok(Collect(ds, SHOW))
  }

  method Get(sd: bytes) returns (r: Result<seq<Rule>, AclError>)
    ensures r == RulesOf(sd)
  {
    if |sd| == 0 {
      return Err(Unreadable);
    }
    var decoded := DecodeACEs(sd);
    if decoded.Err? {
      return Err(BadDescriptor(decoded.error));
    }
    var out := CollectEach(decoded.value, SHOW);
    return Ok(out);
  }

  function GuidField(s: string, e: AclError): Result<bytes, AclError> {
    if s == "" then Ok([])
    else
      match Guid.GuidOf(s)
      case Ok(b) => Ok(b)
      case Err(_) => Err(e)
  }

  /** The contract's rule in the binary form an edit works in. */
  function Binary(rule: Rule): Result<DecodedAce, AclError> {
    match Sid.SidOf(rule.trustee)
    case Err(e) => Err(BadTrustee(e))
    case Ok(sid) =>
      match Rights.MaskOf(rule.rights)
      case Err(e) => Err(BadRight(e))
      case Ok(mask) =>
        var objectType :- GuidField(rule.objectType, BadObjectType);
        var inheritedType :- GuidField(rule.inheritedType, BadInheritedType);
        Ok(DecodedAce(sid, rule.deny, Rights.WordOf(mask), objectType, inheritedType, FlagsFor(rule.inheritance), false))
  }

  // ---- Grant ----

  /** The keys of the explicit rules. */
  function Keys(rules: seq<Rule>, key: Rule -> string): set<string> {
    set i | 0 <= i < |rules| && !rules[i].inherited :: key(rules[i])
  }

  const AS_BINARY := (r: Rule) => Binary(r)

  /** The binary forms of what is not there yet; the first rule without one stops the collection. */
  function Missing<R, B, E>(list: seq<R>, have: set<string>, key: R -> string, bin: R -> Result<B, E>): Result<seq<B>, E> {
    if list == [] then Ok([])
    else if key(list[0]) in have then Missing(list[1..], have, key, bin)
    else
      var d :- bin(list[0]);
      Before([d], Missing(list[1..], have, key, bin))
  }

  function GrantEdit(sd: bytes, list: seq<Rule>, key: Rule -> string): Result<Edit, AclError> {
    if list == [] then Ok(Edit(sd, false))
    else
      var existing :- RulesOf(sd);
      var add :- Missing(list, Keys(existing, key), key, AS_BINARY);
      Lift(AddEdit(sd, add))
  }

  method CollectKeys(rules: seq<Rule>, key: Rule -> string) returns (have: set<string>)
    ensures have == Keys(rules, key)
  {
    have := {};
    for i := 0 to |rules|
      invariant have == set j | 0 <= j < i && !rules[j].inherited :: key(rules[j])
    {
      if !rules[i].inherited {
        have := have + {key(rules[i])};
      }
    }
  }

  method CollectMissing(list: seq<Rule>, have: set<string>, key: Rule -> string)
    returns (r: Result<seq<DecodedAce>, AclError>)
    ensures r == Missing(list, have, key, AS_BINARY)
  {
    var add: seq<DecodedAce> := [];
    BeforeNothing(Missing(list, have, key, AS_BINARY));
    for i := 0 to |list|
      invariant Missing(list, have, key, AS_BINARY) == Before(add, Missing(list[i..], have, key, AS_BINARY))
    {
      assert list[i..][0] == list[i] && list[i..][1..] == list[i + 1..];
      if key(list[i]) in have {
        continue;
      }
      var d := AS_BINARY(list[i]);
      if d.Err? {
        return Err(d.error);
      }
      BeforeStep(add, [d.value], Missing(list[i + 1..], have, key, AS_BINARY));
      add := add + [d.value];
    }
    assert add + [] == add;
    return Ok(add);
  }

  method Grant(sd: bytes, list: seq<Rule>, key: Rule -> string) returns (r: Result<Edit, AclError>)
    ensures r == GrantEdit(sd, list, key)
  {
    if |list| == 0 {
      return Ok(Edit(sd, false));
    }
    var existing := Get(sd);
    if existing.Err? {
      return Err(existing.error);
    }
    var have := CollectKeys(existing.value, key);
    var add := CollectMissing(list, have, key);
    if add.Err? {
      return Err(add.error);
    }
    var edit := AddACEs(sd, add.value);
    return Lift(edit);
  }

  // ---- Revoke ----

  /** The key of a decoded entry, asked as if it were explicit. */
  function KeyOf(d: DecodedAce, key: Rule -> string): Option<string> {
    match Shown(d)
    case None => None
    case Some(rule) => Some(key(rule.(inherited := false)))
  }

  function Named(drop: set<string>, key: Rule -> string): DecodedAce -> bool {
    (d: DecodedAce) => KeyOf(d, key).Some? && KeyOf(d, key).value in drop
  }

  /** The keys to drop; every rule is validated before anything is matched. */
  function DropKeys<R, B, E>(list: seq<R>, key: R -> string, bin: R -> Result<B, E>): Result<set<string>, E> {
    if list == [] then Ok({})
    else
      var init :- DropKeys(list[..|list| - 1], key, bin);
      var _ :- bin(list[|list| - 1]);
      Ok(init + {key(list[|list| - 1])})
  }

  function RevokeEdit(sd: bytes, list: seq<Rule>, key: Rule -> string): Result<Edit, AclError> {
    if list == [] then Ok(Edit(sd, false))
    else if sd == [] then Err(Unreadable)
    else
      var drop :- DropKeys(list, key, AS_BINARY);
      Lift(RemoveEdit(sd, Named(drop, key)))
  }

  lemma {:induction false} DropErrorSticks<R, B, E>(list: seq<R>, key: R -> string, bin: R -> Result<B, E>, n: nat)
    requires n <= |list| && DropKeys(list[..n], key, bin).Err?
    ensures DropKeys(list, key, bin) == DropKeys(list[..n], key, bin)
    decreases |list|
  {
    if n == |list| {
      assert list[..n] == list;
    } else {
      var init := list[..|list| - 1];
      assert init[..n] == list[..n];
      DropErrorSticks(init, key, bin, n);
    }
  }

  method Revoke(sd: bytes, list: seq<Rule>, key: Rule -> string) returns (r: Result<Edit, AclError>)
    ensures r == RevokeEdit(sd, list, key)
  {
    if |list| == 0 {
      return Ok(Edit(sd, false));
    }
    if |sd| == 0 {
      return Err(Unreadable);
    }
    var drop: set<string> := {};
    for i := 0 to |list|
      invariant DropKeys(list[..i], key, AS_BINARY) == Ok(drop)
    {
      assert list[..i + 1][..i] == list[..i];
      var d := AS_BINARY(list[i]);
      if d.Err? {
        DropErrorSticks(list, key, AS_BINARY, i + 1);
        return Err(d.error);
      }
      drop := drop + {key(list[i])};
    }
    assert list[..|list|] == list;
    var edit := RemoveACEs(sd, Named(drop, key));
    return Lift(edit);
  }
}
