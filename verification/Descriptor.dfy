// The self-relative SECURITY_DESCRIPTOR of internal/secdesc/secdesc.go: its parser and
// printer, and the DACL split into opaque entries and rebuilt around a new list
// (sections 2.4.6, 2.4.5, 2.4.4 and 2.4.2 of MS-DTYP).
module Descriptor {
  import opened Wrappers
  import opened Bytes
  import Sid

  const SD_HEADER := 20
  const ACL_HEADER := 8
  const ACE_HEADER := 4
  const DACL_PRESENT := 0x0004
  const SELF_RELATIVE := 0x8000

  datatype Error =
    | SidTruncated | SidShort
    | AclTruncated | AclShort
    | TooShort | NotSelfRelative | OffsetPastEnd
    | AceCountExceeds | AceShort
    | AceHeaderShort | NoObjectFlags | NoObjectType | NoInheritedType
    | SidSizeMismatch | TooManySubAuthorities | MalformedTrustee

  datatype Parsed = Parsed(
    revision: byte, sbz1: byte, control: word,
    owner: bytes, group: bytes, sacl: bytes, dacl: bytes)

  /** The two self-describing kinds of part a descriptor points at. */
  datatype Part = SidPart | AclPart

  function SidLen(b: bytes): (r: Result<nat, Error>)
    ensures r.Ok? ==> 8 <= r.value <= |b|
  {
    if |b| < 8 then Err(SidTruncated)
    else
      var n: nat := 8 + 4 * (b[1] as int);
      if |b| < n then Err(SidShort) else Ok(n)
  }

  function AclLen(b: bytes): (r: Result<nat, Error>)
    ensures r.Ok? ==> ACL_HEADER <= r.value <= |b|
  {
    if |b| < ACL_HEADER then Err(AclTruncated)
    else
      var n: nat := U16(b, 2);
      if n < ACL_HEADER || |b| < n then Err(AclShort) else Ok(n)
  }

  function PartLen(kind: Part, b: bytes): (r: Result<nat, Error>)
    ensures r.Ok? ==> 8 <= r.value <= |b|
  {
    match kind
    case SidPart => SidLen(b)
    case AclPart => AclLen(b)
  }

  /** A part says how long it is: exactly the prefix of that length says the same, whatever follows it. For a SID
      that is the front that has a text form. */
  lemma StatedLength(kind: Part, b: bytes, n: nat)
    requires n <= |b|
    ensures PartLen(kind, b) == Ok(n) <==> PartLen(kind, b[..n]) == Ok(n)
    ensures kind.SidPart? ==> (PartLen(kind, b) == Ok(n) <==> Sid.TextOf(b[..n]).Ok?)
    ensures kind.AclPart? ==> (PartLen(kind, b) == Ok(n) <==> 8 <= n && b[2] as int + 0x100 * (b[3] as int) == n)
  {
    if n >= 8 {
      assert b[..n][1] == b[1] && b[..n][2] == b[2] && b[..n][3] == b[3];
    }
  }

  function Slice(sd: bytes, off: dword, kind: Part): Result<bytes, Error> {
    if off == 0 then Ok([])
    else if off >= |sd| then Err(OffsetPastEnd)
    else
      var n :- PartLen(kind, sd[off..]);
      Ok(sd[off..off + n])
  }

  function Parse(sd: bytes): Result<Parsed, Error> {
    if |sd| < SD_HEADER then Err(TooShort)
    else if !Has(U16(sd, 2), SELF_RELATIVE) then Err(NotSelfRelative)
    else ParseParts(sd, sd[0], sd[1], U16(sd, 2), U32(sd, 4), U32(sd, 8), U32(sd, 12), U32(sd, 16))
  }

  /** The four parts, read in the order parse reads them. */
  function ParseParts(sd: bytes, revision: byte, sbz1: byte, control: word,
                      ownerAt: dword, groupAt: dword, saclAt: dword, daclAt: dword): Result<Parsed, Error> {
    var owner :- Slice(sd, ownerAt, SidPart);
    var group :- Slice(sd, groupAt, SidPart);
    var sacl :- Slice(sd, saclAt, AclPart);
    var dacl :- Slice(sd, daclAt, AclPart);
    Ok(Parsed(revision, sbz1, control, owner, group, sacl, dacl))
  }

  // ---- printing ----

  /** The offset a part is recorded at: zero for an absent one, cut to the field's 32 bits. */
  function OffsetOf(part: bytes, at: nat): dword {
    if part == [] then 0 else at % 0x1_0000_0000
  }

  function OffsetField(part: bytes, at: nat): (f: bytes)
    ensures |f| == 4
  {
    if part == [] then Le32(0) else Le32(at)
  }

  /** The header of a descriptor whose DACL, owner and group start at d, o and g. */
  function Header(p: Parsed, d: nat, o: nat, g: nat): (h: bytes)
    ensures |h| == SD_HEADER
  {
    [p.revision, p.sbz1] + Le16(p.control)
    + OffsetField(p.owner, o) + OffsetField(p.group, g)
    + OffsetField(p.sacl, SD_HEADER) + OffsetField(p.dacl, d)
  }

  /** What serialize produces: the header, then the ACLs, then the SIDs. */
  function Serialized(p: Parsed): bytes {
    var d := SD_HEADER + |p.sacl|;
    var o := d + |p.dacl|;
    Header(p, d, o, o + |p.owner|) + p.sacl + p.dacl + p.owner + p.group
  }

  function Patch(out: bytes, at: nat, field: bytes): bytes
    requires at + |field| <= |out|
  {
    out[..at] + field + out[at + |field|..]
  }

  /** Four patches of a blank header, each followed by its part, build the whole layout. */
  lemma PatchedLayout(start: bytes, blank: bytes, fs: bytes, fd: bytes, fo: bytes, fg: bytes,
                      sacl: bytes, dacl: bytes, owner: bytes, group: bytes)
    requires |start| == |blank| == |fs| == |fd| == |fo| == |fg| == 4
    ensures var out0 := start + blank + blank + blank + blank;
            var out1 := Patch(out0, 12, fs) + sacl;
            var out2 := Patch(out1, 16, fd) + dacl;
            var out3 := Patch(out2, 4, fo) + owner;
            var out4 := Patch(out3, 8, fg) + group;
            && |out1| == 20 + |sacl| && |out2| == |out1| + |dacl| && |out3| == |out2| + |owner|
            && out4 == start + fo + fg + fs + fd + sacl + dacl + owner + group
  {
    var out0 := start + blank + blank + blank + blank;
    assert Patch(out0, 12, fs) + sacl == start + blank + blank + fs + blank + sacl;
    var out1 := start + blank + blank + fs + blank + sacl;
    assert Patch(out1, 16, fd) + dacl == start + blank + blank + fs + fd + sacl + dacl;
    var out2 := start + blank + blank + fs + fd + sacl + dacl;
    assert Patch(out2, 4, fo) + owner == start + fo + blank + fs + fd + sacl + dacl + owner;
    var out3 := start + fo + blank + fs + fd + sacl + dacl + owner;
    assert Patch(out3, 8, fg) + group == start + fo + fg + fs + fd + sacl + dacl + owner + group;
  }

  /** The put closure of serialize: patch one offset field, append one part. */
  method Put(out: bytes, part: bytes, at: nat) returns (r: bytes)
    requires at + 4 <= |out|
    ensures r == Patch(out, at, OffsetField(part, |out|)) + part
  {
    if |part| == 0 {
      r := out[..at] + Le32(0) + out[at + 4..];
    } else {
      r := out[..at] + Le32(|out|) + out[at + 4..];
      r := r + part;
    }
  }

  method Serialize(p: Parsed) returns (out: bytes)
    ensures out == Serialized(p)
  {
    var start: bytes, blank: bytes := [p.revision, p.sbz1] + Le16(p.control), [0, 0, 0, 0];
    var out0 := start + blank + blank + blank + blank;
    var out1 := Put(out0, p.sacl, 12);
    var out2 := Put(out1, p.dacl, 16);
    var out3 := Put(out2, p.owner, 4);
    out := Put(out3, p.group, 8);
    PatchedLayout(start, blank, OffsetField(p.sacl, |out0|), OffsetField(p.dacl, |out1|),
                  OffsetField(p.owner, |out2|), OffsetField(p.group, |out3|), p.sacl, p.dacl, p.owner, p.group);
  }

  // ---- what the parser and the printer are to each other ----

  /** An absent part, or one whose stated length is its length. */
  predicate Whole(kind: Part, b: bytes) {
    b == [] || PartLen(kind, b) == Ok(|b|)
  }

  predicate WellFormed(p: Parsed) {
    && Has(p.control, SELF_RELATIVE)
    && Whole(SidPart, p.owner) && Whole(SidPart, p.group)
    && Whole(AclPart, p.sacl) && Whole(AclPart, p.dacl)
  }

  /** The offsets of the descriptor fit the header's 32-bit fields. */
  predicate Addressable(p: Parsed) {
    SD_HEADER + |p.sacl| + |p.dacl| + |p.owner| + |p.group| < 0x1_0000_0000
  }

  /** The part's stated length is readable from the part alone, or wrong whatever follows it. */
  predicate Settled(kind: Part, b: bytes) {
    || b == []
    || PartLen(kind, b).Ok?
    || (kind.AclPart? && |b| >= ACL_HEADER && U16(b, 2) < ACL_HEADER)
  }

  /** What the parser makes of a part that was written out. */
  function Cut(kind: Part, b: bytes): Result<bytes, Error> {
    if b == [] then Ok([])
    else
      var n :- PartLen(kind, b);
      Ok(b[..n])
  }

  lemma PartAt(sd: bytes, pre: bytes, part: bytes, post: bytes, kind: Part, at: nat)
    requires sd == pre + part + post && |pre| == at
    requires 0 < at < 0x1_0000_0000
    requires Settled(kind, part)
    ensures Slice(sd, OffsetOf(part, at), kind) == Cut(kind, part)
  {
    if part != [] {
      assert sd[at..] == part + post;
      assert part[..] == part;
      if PartLen(kind, part).Ok? {
        var n := PartLen(kind, part).value;
        assert PartLen(kind, sd[at..]) == Ok(n);
        assert sd[at..at + n] == sd[at..][..n];
        assert (part + post)[..n] == part[..n];
      } else {
        assert U16(sd[at..], 2) == U16(part, 2);
      }
    }
  }

  lemma OffsetReads(pre: bytes, part: bytes, at: nat, post: bytes)
    ensures U32(pre + OffsetField(part, at) + post, |pre|) == OffsetOf(part, at)
  {
    Le32Reads(pre, if part == [] then 0 else at, post);
  }

  /** Where the DACL, the owner and the group of a printed descriptor start. */
  predicate Offsets(p: Parsed, d: nat, o: nat, g: nat) {
    d == SD_HEADER + |p.sacl| && o == d + |p.dacl| && g == o + |p.owner|
  }

  /** The header fields of a printed descriptor read back. */
  lemma HeaderReads(p: Parsed, d: nat, o: nat, g: nat, rest: bytes, sd: bytes)
    requires sd == Header(p, d, o, g) + rest
    ensures sd[0] == p.revision && sd[1] == p.sbz1 && U16(sd, 2) == p.control
    ensures U32(sd, 4) == OffsetOf(p.owner, o) && U32(sd, 8) == OffsetOf(p.group, g)
    ensures U32(sd, 12) == OffsetOf(p.sacl, SD_HEADER) && U32(sd, 16) == OffsetOf(p.dacl, d)
  {
    var c: bytes, w := [p.revision, p.sbz1], Le16(p.control);
    var fo, fg := OffsetField(p.owner, o), OffsetField(p.group, g);
    var fs, fd := OffsetField(p.sacl, SD_HEADER), OffsetField(p.dacl, d);
    FieldsApart(c, w, fo, fg, fs, fd, rest);
    Le16Reads(c, p.control, fo + fg + fs + fd + rest);
    OffsetReads(c + w, p.owner, o, fg + fs + fd + rest);
    OffsetReads(c + w + fo, p.group, g, fs + fd + rest);
    OffsetReads(c + w + fo + fg, p.sacl, SD_HEADER, fd + rest);
    OffsetReads(c + w + fo + fg + fs, p.dacl, d, rest);
  }

  /** One header seen around each of its fields. */
  lemma FieldsApart(c: bytes, w: bytes, fo: bytes, fg: bytes, fs: bytes, fd: bytes, rest: bytes)
    ensures var sd := c + w + fo + fg + fs + fd + rest;
            && sd == c + w + (fo + fg + fs + fd + rest)
            && sd == (c + w) + fo + (fg + fs + fd + rest)
            && sd == (c + w + fo) + fg + (fs + fd + rest)
            && sd == (c + w + fo + fg) + fs + (fd + rest)
            && sd == (c + w + fo + fg + fs) + fd + rest
  {
  }

  /** Every part of a layout is found at its offset. */
  lemma PartsRead(h: bytes, p: Parsed, sd: bytes, d: nat, o: nat, g: nat)
    requires Addressable(p) && |h| == SD_HEADER && Offsets(p, d, o, g)
    requires Settled(SidPart, p.owner) && Settled(SidPart, p.group)
    requires Settled(AclPart, p.sacl) && Settled(AclPart, p.dacl)
    requires sd == h + p.sacl + p.dacl + p.owner + p.group
    ensures Slice(sd, OffsetOf(p.owner, o), SidPart) == Cut(SidPart, p.owner)
    ensures Slice(sd, OffsetOf(p.group, g), SidPart) == Cut(SidPart, p.group)
    ensures Slice(sd, OffsetOf(p.sacl, SD_HEADER), AclPart) == Cut(AclPart, p.sacl)
    ensures Slice(sd, OffsetOf(p.dacl, d), AclPart) == Cut(AclPart, p.dacl)
  {
    var h1, h2, h3 := h + p.sacl, h + p.sacl + p.dacl, h + p.sacl + p.dacl + p.owner;
    Regroup(h, p.sacl, p.dacl, p.owner, p.group);
    PartAt(sd, h, p.sacl, p.dacl + p.owner + p.group, AclPart, SD_HEADER);
    PartAt(sd, h1, p.dacl, p.owner + p.group, AclPart, d);
    PartAt(sd, h2, p.owner, p.group, SidPart, o);
    PartAt(sd, h3, p.group, [], SidPart, g);
  }

  /** The parts of p as the parser would cut them, in the order it reads them. */
  function Recut(p: Parsed): Result<Parsed, Error> {
    var owner :- Cut(SidPart, p.owner);
    var group :- Cut(SidPart, p.group);
    var sacl :- Cut(AclPart, p.sacl);
    var dacl :- Cut(AclPart, p.dacl);
    Ok(p.(owner := owner, group := group, sacl := sacl, dacl := dacl))
  }

  lemma ParseOfLayout(p: Parsed, d: nat, o: nat, g: nat, sd: bytes)
    requires Has(p.control, SELF_RELATIVE) && Addressable(p) && Offsets(p, d, o, g)
    requires Settled(SidPart, p.owner) && Settled(SidPart, p.group)
    requires Settled(AclPart, p.sacl) && Settled(AclPart, p.dacl)
    requires sd == Header(p, d, o, g) + p.sacl + p.dacl + p.owner + p.group
    ensures Parse(sd) == Recut(p)
  {
    assert ParseParts(sd, p.revision, p.sbz1, p.control, OffsetOf(p.owner, o), OffsetOf(p.group, g),
                      OffsetOf(p.sacl, SD_HEADER), OffsetOf(p.dacl, d)) == Recut(p) by {
      PartsRead(Header(p, d, o, g), p, sd, d, o, g);
    }
    var rest := p.sacl + p.dacl + p.owner + p.group;
    Regroup(Header(p, d, o, g), p.sacl, p.dacl, p.owner, p.group);
    HeaderReads(p, d, o, g, rest, sd);
  }

  lemma Regroup(h: bytes, a: bytes, b: bytes, c: bytes, d: bytes)
    ensures h + a + b + c + d == h + (a + b + c + d)
    ensures h + a + b + c + d == h + a + (b + c + d)
    ensures h + a + b + c + d == (h + a) + b + (c + d)
    ensures h + a + b + c + d == (h + a + b + c) + d + []
  {
  }

  /** Parsing a printed descriptor cuts every part at its own stated length. */
  lemma ParseOfSerialized(p: Parsed)
    requires Has(p.control, SELF_RELATIVE) && Addressable(p)
    requires Settled(SidPart, p.owner) && Settled(SidPart, p.group)
    requires Settled(AclPart, p.sacl) && Settled(AclPart, p.dacl)
    ensures Parse(Serialized(p)) == Recut(p)
  {
    var d: nat := SD_HEADER + |p.sacl|;
    var o: nat := d + |p.dacl|;
    var g: nat := o + |p.owner|;
    ParseOfLayout(p, d, o, g, Serialized(p));
  }

  /** A slice the parser accepts is a whole part, wherever in the input it lies. */
  lemma SliceWhole(sd: bytes, off: dword, kind: Part)
    ensures Slice(sd, off, kind).Ok? ==> Whole(kind, Slice(sd, off, kind).value)
  {
    if Slice(sd, off, kind).Ok? && off != 0 {
      var b := sd[off..];
      var n := PartLen(kind, b).value;
      assert sd[off..off + n] == b[..n];
    }
  }

  /** Whatever the parser accepts, overlapping or reordered parts included, is well formed. */
  lemma ParsedIsWellFormed(sd: bytes)
    ensures Parse(sd).Ok? ==> WellFormed(Parse(sd).value)
  {
    if |sd| >= SD_HEADER {
      SliceWhole(sd, U32(sd, 4), SidPart);
      SliceWhole(sd, U32(sd, 8), SidPart);
      SliceWhole(sd, U32(sd, 12), AclPart);
      SliceWhole(sd, U32(sd, 16), AclPart);
    }
  }

  lemma CutOfWhole(kind: Part, b: bytes)
    requires Whole(kind, b)
    ensures Settled(kind, b) && Cut(kind, b) == Ok(b)
  {
    assert b[..|b|] == b;
  }

  lemma WholeIsShort(kind: Part, b: bytes)
    requires Whole(kind, b)
    ensures |b| < 0x1_0000
  {
  }

  /** The printed form reads back as the same descriptor exactly when every part is whole. */
  lemma ParseInvertsSerialize(p: Parsed)
    requires Addressable(p)
    ensures Parse(Serialized(p)) == Ok(p) <==> WellFormed(p)
  {
    if WellFormed(p) {
      CutOfWhole(SidPart, p.owner);
      CutOfWhole(SidPart, p.group);
      CutOfWhole(AclPart, p.sacl);
      CutOfWhole(AclPart, p.dacl);
      ParseOfSerialized(p);
    } else {
      ParsedIsWellFormed(Serialized(p));
    }
  }

  lemma WellFormedIsAddressable(p: Parsed)
    requires WellFormed(p)
    ensures Addressable(p)
  {
    WholeIsShort(SidPart, p.owner);
    WholeIsShort(SidPart, p.group);
    WholeIsShort(AclPart, p.sacl);
    WholeIsShort(AclPart, p.dacl);
  }

  /** Normalising an accepted descriptor loses nothing the parser saw. */
  lemma SerializeKeepsWhatWasParsed(sd: bytes)
    requires Parse(sd).Ok?
    ensures Parse(Serialized(Parse(sd).value)) == Parse(sd)
  {
    ParsedIsWellFormed(sd);
    WellFormedIsAddressable(Parse(sd).value);
    ParseInvertsSerialize(Parse(sd).value);
  }

  // ---- the layout on the bytes ----

  /** The part that the four-byte field at `field` points at: none for zero, else the part that starts there. */
  predicate PointsAt(sd: bytes, field: nat, kind: Part, part: bytes)
    requires |sd| >= 20 && field + 4 <= 20
  {
    var off := U32(sd, field);
    if off == 0 then part == []
    else off < |sd| && part != [] && part <= sd[off..] && PartLen(kind, part) == Ok(|part|)
  }

  lemma SliceIsPointedAt(sd: bytes, field: nat, kind: Part, part: bytes)
    requires |sd| >= 20 && field + 4 <= 20
    ensures Slice(sd, U32(sd, field), kind) == Ok(part) <==> PointsAt(sd, field, kind, part)
  {
    var off := U32(sd, field);
    if 0 < off < |sd| {
      var b := sd[off..];
      if PointsAt(sd, field, kind, part) {
        StatedLength(kind, b, |part|);
        assert b[..|part|] == part && sd[off..off + |part|] == b[..|part|];
      }
      if PartLen(kind, b).Ok? {
        var n := PartLen(kind, b).value;
        StatedLength(kind, b, n);
        assert sd[off..off + n] == b[..n];
      }
    }
  }

  /** What parse accepts, and as what: at least a header, the self-relative bit, and the owner at bytes 4 to 7, the group
      at 8, the SACL at 12 and the DACL at 16, each lying inside and as long as it states. */
  lemma ParseExactly(sd: bytes, p: Parsed)
    ensures Parse(sd) == Ok(p)
            <==> && |sd| >= 20 && sd[3] >= 0x80
                 && p.revision == sd[0] && p.sbz1 == sd[1] && p.control == sd[2] as int + 0x100 * (sd[3] as int)
                 && PointsAt(sd, 4, SidPart, p.owner) && PointsAt(sd, 8, SidPart, p.group)
                 && PointsAt(sd, 12, AclPart, p.sacl) && PointsAt(sd, 16, AclPart, p.dacl)
  {
    if |sd| >= 20 {
      SelfRelativeBit(sd);
      SliceIsPointedAt(sd, 4, SidPart, p.owner);
      SliceIsPointedAt(sd, 8, SidPart, p.group);
      SliceIsPointedAt(sd, 12, AclPart, p.sacl);
      SliceIsPointedAt(sd, 16, AclPart, p.dacl);
    }
  }

  lemma SelfRelativeBit(sd: bytes)
    requires |sd| >= 20
    ensures Has(U16(sd, 2), SELF_RELATIVE) <==> sd[3] >= 0x80
  {
  }

  lemma OffsetStays(part: bytes, at: nat)
    requires at < 0x1_0000_0000
    ensures OffsetOf(part, at) == if part == [] then 0 else at
  {
  }

  /** The header serialize writes: offsets of the parts that are there, in the order SACL, DACL, owner, group. */
  lemma PrintedHeader(p: Parsed, d: nat, o: nat, g: nat)
    requires Addressable(p) && d == 20 + |p.sacl| && o == d + |p.dacl| && g == o + |p.owner|
    ensures var sd := Serialized(p);
            && |sd| >= 20 && sd[0] == p.revision && sd[1] == p.sbz1 && U16(sd, 2) == p.control
            && U32(sd, 4) == (if p.owner == [] then 0 else o) && U32(sd, 8) == (if p.group == [] then 0 else g)
            && U32(sd, 12) == (if p.sacl == [] then 0 else 20) && U32(sd, 16) == (if p.dacl == [] then 0 else d)
  {
    var rest := p.sacl + p.dacl + p.owner + p.group;
    Regroup(Header(p, d, o, g), p.sacl, p.dacl, p.owner, p.group);
    HeaderReads(p, d, o, g, rest, Header(p, d, o, g) + rest);
    OffsetStays(p.owner, o);
    OffsetStays(p.group, g);
    OffsetStays(p.sacl, 20);
    OffsetStays(p.dacl, d);
  }

  /** And the parts, without gaps. */
  lemma PrintedParts(p: Parsed, d: nat, o: nat, g: nat)
    requires Offsets(p, d, o, g)
    ensures var sd := Serialized(p);
            && |sd| == g + |p.group|
            && sd[20..d] == p.sacl && sd[d..o] == p.dacl && sd[o..g] == p.owner && sd[g..] == p.group
  {
    PartsLie(Header(p, d, o, g), p.sacl, p.dacl, p.owner, p.group);
  }

  lemma PartsLie(h: bytes, a: bytes, b: bytes, c: bytes, d: bytes)
    ensures var s := h + a + b + c + d;
            var i, j, k := |h| + |a|, |h| + |a| + |b|, |h| + |a| + |b| + |c|;
            s[|h|..i] == a && s[i..j] == b && s[j..k] == c && s[k..] == d
  {
  }
}
