// The ACE codec of internal/secdesc/ace.go and the two edits built on it: DecodeACEs,
// AddACEs and RemoveACEs.
module Ace {
  import opened Wrappers
  import opened Bytes
  import opened Descriptor
  import opened Dacl
  import opened Protection
  import opened DeniedObject

  const ACCESS_ALLOWED := 0x00
  const ALLOWED_OBJECT := 0x05
  const INHERITED := 0x10

  /** An explicit entry, still in binary terms; an absent GUID is empty. */
  datatype DecodedAce = DecodedAce(
    trustee: bytes, deny: bool, mask: dword,
    objectType: bytes, inheritedType: bytes,
    flags: byte, inherited: bool)

  predicate IsObjectType(kind: byte) {
    kind == ALLOWED_OBJECT || kind == DENIED_OBJECT
  }

  predicate Modelled(kind: byte) {
    kind == ACCESS_ALLOWED || kind == ACCESS_DENIED || IsObjectType(kind)
  }

  /** Where the trustee starts in an object entry, as its flags word says. */
  function TrusteeOffset(objectFlags: dword): nat {
    12 + (if Has(objectFlags, OBJECT_TYPE) then 16 else 0)
    + (if Has(objectFlags, INHERITED_OBJECT_TYPE) then 16 else 0)
  }

  function DecodeFrom(ace: bytes, off: nat, objectType: bytes, inheritedType: bytes): Result<Option<DecodedAce>, Error>
    requires 8 <= off <= |ace|
  {
    var n :- SidLen(ace[off..]);
    Ok(Some(DecodedAce(ace[off..][..n], ace[0] == ACCESS_DENIED || ace[0] == DENIED_OBJECT, U32(ace, 4),
                       objectType, inheritedType, ace[1], Has(ace[1], INHERITED))))
  }

  /** Ok(None) is a type this package does not model. */
  function DecodeAce(ace: bytes): Result<Option<DecodedAce>, Error> {
    if |ace| < 8 then Err(AceHeaderShort)
    else if !Modelled(ace[0]) then Ok(None)
    else if !IsObjectType(ace[0]) then DecodeFrom(ace, 8, [], [])
    else if |ace| < 12 then Err(NoObjectFlags)
    else
      var flags := U32(ace, 8);
      var off := TrusteeOffset(flags);
      if Has(flags, OBJECT_TYPE) && |ace| < 28 then Err(NoObjectType)
      else if Has(flags, INHERITED_OBJECT_TYPE) && |ace| < off then Err(NoInheritedType)
      else DecodeFrom(ace, off,
                      if Has(flags, OBJECT_TYPE) then ace[12..28] else [],
                      if Has(flags, INHERITED_OBJECT_TYPE) then ace[off - 16..off] else [])
  }

  function WholeGuid(g: bytes): bytes {
    if |g| == 16 then g else []
  }

  function ObjectFlags(a: DecodedAce): dword {
    (if |a.objectType| == 16 then OBJECT_TYPE else 0) + (if |a.inheritedType| == 16 then INHERITED_OBJECT_TYPE else 0)
  }

  function EncodedKind(a: DecodedAce): byte {
    if ObjectFlags(a) != 0 then (if a.deny then DENIED_OBJECT else ALLOWED_OBJECT)
    else if a.deny then ACCESS_DENIED else ACCESS_ALLOWED
  }

  function EncodedBody(a: DecodedAce): bytes {
    if ObjectFlags(a) != 0 then
      Le32(ObjectFlags(a)) + (WholeGuid(a.objectType) + WholeGuid(a.inheritedType) + a.trustee)
    else a.trustee
  }

  function EncodeAce(a: DecodedAce): bytes {
    Entry(EncodedKind(a), a.flags, a.mask, EncodedBody(a))
  }

  // ---- the codec's two directions ----

  predicate IsSid(b: bytes) {
    SidLen(b) == Ok(|b|)
  }

  /** What an encoded entry must be to come back whole. */
  predicate Encodable(a: DecodedAce) {
    && IsSid(a.trustee)
    && (a.objectType == [] || |a.objectType| == 16)
    && (a.inheritedType == [] || |a.inheritedType| == 16)
  }

  /** The entry with its Inherited field recomputed from its flags, as decoding does. */
  function Stamped(a: DecodedAce): DecodedAce {
    a.(inherited := Has(a.flags, INHERITED))
  }

  lemma EncodedFields(a: DecodedAce, ace: bytes)
    requires ace == EncodeAce(a)
    ensures |ace| >= 8 && ace[0] == EncodedKind(a) && ace[1] == a.flags && U32(ace, 4) == a.mask
    ensures ace[8..] == EncodedBody(a)
    ensures Sized(ace) <==> |ace| < 0x1_0000
    ensures ObjectFlags(a) != 0 ==> |ace| >= 12 && U32(ace, 8) == ObjectFlags(a)
    ensures ObjectFlags(a) != 0 ==> ace[12..] == WholeGuid(a.objectType) + WholeGuid(a.inheritedType) + a.trustee
  {
    EntryFields(EncodedKind(a), a.flags, a.mask, EncodedBody(a), ace);
    if ObjectFlags(a) != 0 {
      WordAfter(ace, EncodedBody(a), ObjectFlags(a), WholeGuid(a.objectType) + WholeGuid(a.inheritedType) + a.trustee);
    }
  }

  /** The tail of an object entry, taken apart at the offsets its flags word gives. */
  lemma TailParts(ace: bytes, o: bytes, i: bytes, sid: bytes)
    requires |ace| >= 12 && ace[12..] == o + i + sid
    requires (o == [] || |o| == 16) && (i == [] || |i| == 16)
    ensures var off := 12 + |o| + |i|;
            && off <= |ace| && ace[off..] == sid
            && (|o| == 16 ==> ace[12..28] == o)
            && (|i| == 16 ==> ace[off - 16..off] == i)
  {
    var tail := ace[12..];
    var off := 12 + |o| + |i|;
    assert ace[off..] == tail[|o| + |i|..];
    if |o| == 16 {
      assert ace[12..28] == tail[..16];
    }
    if |i| == 16 {
      assert ace[off - 16..off] == tail[|o|..|o| + 16];
    }
  }

  lemma DecodeOfPlain(a: DecodedAce, ace: bytes)
    requires ace == EncodeAce(a) && ObjectFlags(a) == 0
    ensures DecodeAce(ace) == DecodeFrom(ace, 8, [], []) && ace[8..] == a.trustee
  {
    EncodedFields(a, ace);
  }

  lemma ObjectDecodes(ace: bytes, flags: dword, off: nat, o: bytes, i: bytes)
    requires |ace| >= 12 && IsObjectType(ace[0]) && flags == U32(ace, 8) && off == TrusteeOffset(flags) <= |ace|
    requires o == if Has(flags, OBJECT_TYPE) then ace[12..28] else []
    requires i == if Has(flags, INHERITED_OBJECT_TYPE) then ace[off - 16..off] else []
    ensures DecodeAce(ace) == DecodeFrom(ace, off, o, i)
  {
  }

  lemma FlagsOfEncoded(a: DecodedAce, flags: dword)
    requires flags == ObjectFlags(a)
    ensures Has(flags, OBJECT_TYPE) <==> |a.objectType| == 16
    ensures Has(flags, INHERITED_OBJECT_TYPE) <==> |a.inheritedType| == 16
    ensures TrusteeOffset(flags) == 12 + |WholeGuid(a.objectType)| + |WholeGuid(a.inheritedType)|
  {
  }

  lemma DecodeOfObject(a: DecodedAce, ace: bytes, off: nat)
    requires ace == EncodeAce(a) && ObjectFlags(a) != 0
    requires off == 12 + |WholeGuid(a.objectType)| + |WholeGuid(a.inheritedType)|
    ensures off <= |ace| && ace[off..] == a.trustee
    ensures DecodeAce(ace) == DecodeFrom(ace, off, WholeGuid(a.objectType), WholeGuid(a.inheritedType))
  {
    EncodedFields(a, ace);
    TailParts(ace, WholeGuid(a.objectType), WholeGuid(a.inheritedType), a.trustee);
    FlagsOfEncoded(a, ObjectFlags(a));
    ObjectDecodes(ace, ObjectFlags(a), off, WholeGuid(a.objectType), WholeGuid(a.inheritedType));
  }

  /** Decoding from where the trustee was written. */
  lemma FromWritten(a: DecodedAce, ace: bytes, off: nat, o: bytes, i: bytes)
    requires ace == EncodeAce(a) && 8 <= off <= |ace| && ace[off..] == a.trustee
    ensures match SidLen(a.trustee)
            case Err(e) => DecodeFrom(ace, off, o, i) == Err(e)
            case Ok(n) => DecodeFrom(ace, off, o, i)
                          == Ok(Some(Stamped(a.(trustee := a.trustee[..n], objectType := o, inheritedType := i))))
  {
    EncodedFields(a, ace);
  }

  /** Decoding an encoded entry gives its whole GUIDs and whatever the trustee bytes are as a SID. */
  lemma DecodeOfEncoded(a: DecodedAce)
    ensures var r := DecodeAce(EncodeAce(a));
            match SidLen(a.trustee)
            case Err(e) => r == Err(e)
            case Ok(n) => r == Ok(Some(Stamped(a.(trustee := a.trustee[..n], objectType := WholeGuid(a.objectType),
                                                  inheritedType := WholeGuid(a.inheritedType)))))
  {
    var ace, o, i := EncodeAce(a), WholeGuid(a.objectType), WholeGuid(a.inheritedType);
    if ObjectFlags(a) == 0 {
      DecodeOfPlain(a, ace);
      FromWritten(a, ace, 8, [], []);
    } else {
      DecodeOfObject(a, ace, 12 + |o| + |i|);
      FromWritten(a, ace, 12 + |o| + |i|, o, i);
    }
  }

  /** The codec round-trips exactly the entries with a whole SID and absent or 16-byte GUIDs. */
  lemma DecodeInvertsEncode(a: DecodedAce)
    ensures DecodeAce(EncodeAce(a)) == Ok(Some(Stamped(a))) <==> Encodable(a)
  {
    DecodeOfEncoded(a);
    if IsSid(a.trustee) {
      assert a.trustee[..|a.trustee|] == a.trustee;
    }
  }

  /** Where the trustee of a decoded entry lay and which GUIDs came before it. */
  lemma DecodedFrom(ace: bytes) returns (off: nat, o: bytes, i: bytes)
    requires DecodeAce(ace).Ok? && DecodeAce(ace).value.Some?
    ensures 8 <= off <= |ace| && DecodeAce(ace) == DecodeFrom(ace, off, o, i)
    ensures (o == [] || |o| == 16) && (i == [] || |i| == 16)
    ensures o != [] || i != [] ==> off == 12 + |o| + |i|
  {
    if IsObjectType(ace[0]) {
      var flags := U32(ace, 8);
      off := TrusteeOffset(flags);
      o := if Has(flags, OBJECT_TYPE) then ace[12..28] else [];
      i := if Has(flags, INHERITED_OBJECT_TYPE) then ace[off - 16..off] else [];
    } else {
      off, o, i := 8, [], [];
    }
  }

  lemma SidPrefixIsSid(b: bytes, n: nat)
    requires SidLen(b) == Ok(n)
    ensures n <= |b| && IsSid(b[..n])
  {
    assert b[..n][1] == b[1];
  }

  lemma FromIsEncodable(ace: bytes, off: nat, o: bytes, i: bytes, d: DecodedAce)
    requires 8 <= off <= |ace| && DecodeFrom(ace, off, o, i) == Ok(Some(d))
    requires (o == [] || |o| == 16) && (i == [] || |i| == 16)
    ensures Encodable(d) && Stamped(d) == d && d.objectType == o && d.inheritedType == i && |d.trustee| <= |ace| - off
  {
    SidPrefixIsSid(ace[off..], |d.trustee|);
  }

  /** Everything decoded is encodable, so reading, writing and reading again is stable. */
  lemma DecodedIsEncodable(ace: bytes)
    requires DecodeAce(ace).Ok? && DecodeAce(ace).value.Some?
    ensures Encodable(DecodeAce(ace).value.value) && Stamped(DecodeAce(ace).value.value) == DecodeAce(ace).value.value
    ensures DecodeAce(EncodeAce(DecodeAce(ace).value.value)) == DecodeAce(ace)
  {
    var off, o, i := DecodedFrom(ace);
    FromIsEncodable(ace, off, o, i, DecodeAce(ace).value.value);
    DecodeInvertsEncode(DecodeAce(ace).value.value);
  }

  /** No trailing bytes, and an object entry's flags word is one AD gives an object entry. */
  predicate Canonical(ace: bytes)
    requires DecodeAce(ace).Ok? && DecodeAce(ace).value.Some?
  {
    var sid := DecodeAce(ace).value.value.trustee;
    if IsObjectType(ace[0]) then
      && 1 <= U32(ace, 8) <= 3
      && |ace| == TrusteeOffset(U32(ace, 8)) + |sid|
    else |ace| == 8 + |sid|
  }

  lemma EntryOfItself(ace: bytes)
    requires |ace| >= 8 && Sized(ace)
    ensures Entry(ace[0], ace[1], U32(ace, 4), ace[8..]) == ace
  {
    Le16OfU16(ace, 2);
    Le32OfU32(ace, 4);
    assert ace == [ace[0], ace[1]] + ace[2..4] + ace[4..8] + ace[8..];
  }

  /** The parts of an object entry's body, at the offsets its flags word gives. */
  lemma ObjectParts(ace: bytes, d: DecodedAce, flags: dword)
    requires DecodeAce(ace) == Ok(Some(d)) && IsObjectType(ace[0]) && |ace| >= 12 && flags == U32(ace, 8)
    ensures TrusteeOffset(flags) <= |ace|
    ensures d.objectType == if Has(flags, OBJECT_TYPE) then ace[12..28] else []
    ensures d.inheritedType == if Has(flags, INHERITED_OBJECT_TYPE) then ace[TrusteeOffset(flags) - 16..TrusteeOffset(flags)] else []
    ensures d.trustee == ace[TrusteeOffset(flags)..][..|d.trustee|] && |d.trustee| <= |ace| - TrusteeOffset(flags)
  {
  }

  lemma FlagsOf(d: DecodedAce, flags: dword)
    requires |d.objectType| == (if Has(flags, OBJECT_TYPE) then 16 else 0)
    requires |d.inheritedType| == (if Has(flags, INHERITED_OBJECT_TYPE) then 16 else 0)
    ensures ObjectFlags(d) == flags <==> flags <= 3
    ensures TrusteeOffset(flags) == 12 + |d.objectType| + |d.inheritedType|
  {
  }

  /** The body of a canonical object entry is its flags word, its GUIDs and its trustee. */
  lemma BodyOfCanonical(ace: bytes, d: DecodedAce)
    requires DecodeAce(ace) == Ok(Some(d)) && IsObjectType(ace[0]) && Canonical(ace)
    ensures ObjectFlags(d) == U32(ace, 8) && EncodedBody(d) == ace[8..]
  {
    var flags := U32(ace, 8);
    var off := TrusteeOffset(flags);
    ObjectParts(ace, d, flags);
    FlagsOf(d, flags);
    Le32OfU32(ace, 8);
    assert d.trustee == ace[off..];
    BodyJoins(ace, d.objectType, d.inheritedType, off);
  }

  lemma ThreeParts<T>(t: seq<T>, j: nat, k: nat)
    requires j <= k <= |t|
    ensures t[..j] + t[j..k] + t[k..] == t
  {
  }

  lemma BodyJoins(ace: bytes, o: bytes, i: bytes, off: nat)
    requires off == 12 + |o| + |i| <= |ace|
    requires o == ace[12..12 + |o|] && i == ace[off - |i|..off]
    ensures ace[8..] == ace[8..12] + (o + i + ace[off..])
  {
    var t := ace[12..];
    ThreeParts(t, |o|, |o| + |i|);
    assert t[..|o|] == o && t[|o|..|o| + |i|] == i && t[|o| + |i|..] == ace[off..];
    ThreeParts(ace[8..], 0, 4);
    assert ace[8..][0..4] == ace[8..12] && ace[8..][4..] == t && ace[8..][..0] == [];
  }

  lemma CanonicalReencodes(ace: bytes, d: DecodedAce)
    requires DecodeAce(ace) == Ok(Some(d)) && Canonical(ace) && Sized(ace)
    ensures EncodeAce(d) == ace
  {
    EntryOfItself(ace);
    if IsObjectType(ace[0]) {
      BodyOfCanonical(ace, d);
    } else {
      assert d.trustee == ace[8..];
    }
  }

  lemma ReencodedIsCanonical(ace: bytes, d: DecodedAce)
    requires DecodeAce(ace) == Ok(Some(d)) && EncodeAce(d) == ace
    ensures Canonical(ace) && Sized(ace)
  {
    EncodedFields(d, ace);
  }

  lemma ReencodingNeverGrows(ace: bytes, d: DecodedAce)
    requires DecodeAce(ace) == Ok(Some(d))
    ensures |EncodeAce(d)| <= |ace|
  {
    var off, o, i := DecodedFrom(ace);
    FromIsEncodable(ace, off, o, i, d);
  }

  /** Re-encoding what was decoded never grows an entry, and reproduces exactly the canonical ones. */
  lemma ReencodeDecoded(ace: bytes, d: DecodedAce)
    requires DecodeAce(ace) == Ok(Some(d))
    ensures |EncodeAce(d)| <= |ace|
    ensures EncodeAce(d) == ace <==> Canonical(ace) && Sized(ace)
  {
    ReencodingNeverGrows(ace, d);
    if Canonical(ace) && Sized(ace) {
      CanonicalReencodes(ace, d);
    }
    if EncodeAce(d) == ace {
      ReencodedIsCanonical(ace, d);
    }
  }

  // ---- the entry on the bytes ----

  /** What is written for an entry with no GUID: ACCESS_ALLOWED or ACCESS_DENIED, mask, trustee. */
  lemma PlainBytes(a: DecodedAce)
    requires a.objectType == [] && a.inheritedType == []
    ensures EncodeAce(a) == [if a.deny then 1 else 0, a.flags] + Le16(8 + |a.trustee|) + Le32(a.mask) + a.trustee
  {
  }

  /** And with one or two: the object forms, whose flags word says which of them follow. */
  lemma ObjectBytes(a: DecodedAce)
    requires a.objectType == [] || |a.objectType| == 16
    requires a.inheritedType == [] || |a.inheritedType| == 16
    requires a.objectType != [] || a.inheritedType != []
    ensures var present: nat := (if a.objectType != [] then 1 else 0) + (if a.inheritedType != [] then 2 else 0);
            EncodeAce(a)
            == [if a.deny then 6 else 5, a.flags] + Le16(12 + |a.objectType| + |a.inheritedType| + |a.trustee|) + Le32(a.mask)
               + (Le32(present) + (a.objectType + a.inheritedType + a.trustee))
  {
  }

  /** An entry of a kind that is not modelled is skipped, whatever else its bytes are. */
  lemma OthersAreSkipped(ace: bytes)
    requires |ace| >= 8
    ensures DecodeAce(ace) == Ok(None) <==> ace[0] !in {0, 1, 5, 6}
  {
  }

  /** The offset a modelled entry's trustee is read at. */
  function TrusteeAtByte(ace: bytes): nat
    requires |ace| >= 12
  {
    if ace[0] == 0 || ace[0] == 1 then 8
    else 12 + (if ace[8] % 2 == 1 then 16 else 0) + (if ace[8] / 2 % 2 == 1 then 16 else 0)
  }

  lemma LowFlagBits(ace: bytes)
    requires |ace| >= 12
    ensures Has(U32(ace, 8), OBJECT_TYPE) <==> ace[8] % 2 == 1
    ensures Has(U32(ace, 8), INHERITED_OBJECT_TYPE) <==> ace[8] / 2 % 2 == 1
  {
    var rest: nat := ace[9] as int + 0x100 * (ace[10] as int) + 0x1_0000 * (ace[11] as int);
    assert U32(ace, 8) == ace[8] as int + 0x100 * rest;
    LowBits(ace[8], rest, U32(ace, 8));
  }

  lemma LowBits(x: byte, rest: nat, n: nat)
    requires n == x + 0x100 * rest
    ensures n % 2 == x % 2 && n / 2 % 2 == x / 2 % 2
  {
    Half(n, x / 2 + 0x80 * rest, x % 2);
    Half(n / 2, x / 2 / 2 + 0x40 * rest, x / 2 % 2);
  }

  lemma Half(n: nat, front: nat, d: nat)
    requires d < 2 && n == 2 * front + d
    ensures n / 2 == front && n % 2 == d
  {
  }

  /** Decoding fails exactly for what is too short for its header, its flags word, the GUIDs that announces or the SID
      behind them. */
  lemma DecodeFailsExactly(ace: bytes)
    ensures DecodeAce(ace).Err?
            <==> || |ace| < 8
                 || (ace[0] in {5, 6} && |ace| < 12)
                 || (ace[0] in {0, 1} && SidLen(ace[8..]).Err?)
                 || (ace[0] in {5, 6} && |ace| >= 12
                     && (TrusteeAtByte(ace) > |ace| || SidLen(ace[TrusteeAtByte(ace)..]).Err?))
  {
    if |ace| >= 12 {
      LowFlagBits(ace);
    }
  }

  /** What an entry that decodes says: flags from byte 1, of which the fifth bit marks an inherited one. */
  lemma DecodedFlags(ace: bytes, d: DecodedAce)
    requires DecodeAce(ace) == Ok(Some(d))
    ensures |ace| >= 8 && d.flags == ace[1] && (d.inherited <==> ace[1] / 0x10 % 2 == 1)
    ensures d.mask == U32(ace, 4) && (d.deny <==> ace[0] == 1 || ace[0] == 6)
  {
  }
}
