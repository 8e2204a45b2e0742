// The DACL of internal/secdesc/secdesc.go: aces splits it into opaque entries, buildACL
// reassembles it, and every edit writes its new list through Rewritten below.
module Dacl {
  import opened Wrappers
  import opened Bytes
  import opened Lists
  import opened Descriptor

  /** The four-byte header of an entry states the entry's own length. */
  predicate Sized(ace: bytes) {
    |ace| >= ACE_HEADER && U16(ace, 2) == |ace|
  }

  predicate AllSized(list: seq<bytes>) {
    forall i :: 0 <= i < |list| ==> Sized(list[i])
  }

  function Flat(list: seq<bytes>): bytes {
    if list == [] then [] else list[0] + Flat(list[1..])
  }

  /** The hypothesis every rebuilt DACL needs: buildACL writes its size into sixteen bits. */
  predicate Fits(list: seq<bytes>) {
    ACL_HEADER + |Flat(list)| < 0x1_0000
  }

  // ---- aces ----

  function AcesFrom(acl: bytes, off: nat, count: nat): Result<seq<bytes>, Error>
    requires off <= |acl|
    decreases count
  {
    if count == 0 then Ok([])
    else if off + ACE_HEADER > |acl| then Err(AceCountExceeds)
    else
      var n: nat := U16(acl, off + 2);
      if n < ACE_HEADER || off + n > |acl| then Err(AceShort)
      else
        Before([acl[off..off + n]], AcesFrom(acl, off + n, count - 1))
  }

  function Aces(acl: bytes): Result<seq<bytes>, Error>
    requires acl == [] || |acl| >= ACL_HEADER
  {
    if acl == [] then Ok([]) else AcesFrom(acl, ACL_HEADER, U16(acl, 4))
  }

  method SplitAces(acl: bytes) returns (r: Result<seq<bytes>, Error>)
    requires acl == [] || |acl| >= ACL_HEADER
    ensures r == Aces(acl)
  {
    if |acl| == 0 {
      return Ok([]);
    }
    var count: nat := U16(acl, 4);
    var out: seq<bytes> := [];
    var off := ACL_HEADER;
    BeforeNothing(Aces(acl));
    for i := 0 to count
      invariant ACL_HEADER <= off <= |acl|
      invariant Aces(acl) == Before(out, AcesFrom(acl, off, count - i))
    {
      if off + ACE_HEADER > |acl| {
        return Err(AceCountExceeds);
      }
      var n: nat := U16(acl, off + 2);
      if n < ACE_HEADER || off + n > |acl| {
        return Err(AceShort);
      }
      BeforeStep(out, [acl[off..off + n]], AcesFrom(acl, off + n, count - i - 1));
      out := out + [acl[off..off + n]];
      off := off + n;
    }
    assert out + [] == out;
    return Ok(out);
  }

  // ---- buildACL ----

  function Built(revision: byte, list: seq<bytes>): (acl: bytes)
    ensures |acl| == ACL_HEADER + |Flat(list)|
  {
    [revision, 0] + Le16(ACL_HEADER + |Flat(list)|) + Le16(|list|) + [0, 0] + Flat(list)
  }

  lemma {:induction false} FlatAppend(a: seq<bytes>, b: seq<bytes>)
    ensures Flat(a + b) == Flat(a) + Flat(b)
  {
    if a == [] {
      assert a + b == b;
    } else {
      assert (a + b)[1..] == a[1..] + b;
      FlatAppend(a[1..], b);
    }
  }

  lemma FlatOne(a: bytes)
    ensures Flat([a]) == a
  {
    assert Flat([a]) == a + Flat([a][1..]);
  }

  method BuildACL(revision: byte, list: seq<bytes>) returns (out: bytes)
    ensures out == Built(revision, list)
  {
    var size := ACL_HEADER;
    for i := 0 to |list|
      invariant size == ACL_HEADER + |Flat(list[..i])|
    {
      size := size + |list[i]|;
      assert list[..i + 1] == list[..i] + [list[i]];
      FlatAppend(list[..i], [list[i]]);
      FlatOne(list[i]);
    }
    assert list[..|list|] == list;
    out := [revision, 0] + Le16(size) + Le16(|list|) + [0, 0];
    ghost var header := out;
    for i := 0 to |list|
      invariant out == header + Flat(list[..i])
    {
      out := out + list[i];
      assert list[..i + 1] == list[..i] + [list[i]];
      FlatAppend(list[..i], [list[i]]);
      FlatOne(list[i]);
    }
  }

  // ---- splitting inverts building ----

  /** Every list the splitter returns is laid out where it was found. */
  lemma {:induction false} AcesLayout(acl: bytes, off: nat, count: nat)
    requires off <= |acl| && AcesFrom(acl, off, count).Ok?
    ensures var l := AcesFrom(acl, off, count).value;
            && |l| == count && AllSized(l)
            && off + |Flat(l)| <= |acl| && Flat(l) == acl[off..off + |Flat(l)|]
    decreases count
  {
    if count > 0 {
      var n: nat := U16(acl, off + 2);
      AcesLayout(acl, off + n, count - 1);
      var rest := AcesFrom(acl, off + n, count - 1).value;
      assert ([acl[off..off + n]] + rest)[1..] == rest;
    }
  }

  /** An entry list laid out after a prefix is split back into exactly its entries. */
  lemma {:induction false} AcesOfFlat(pre: bytes, list: seq<bytes>, post: bytes)
    requires AllSized(list)
    ensures AcesFrom(pre + Flat(list) + post, |pre|, |list|) == Ok(list)
    decreases |list|
  {
    if list != [] {
      var a, rest := list[0], list[1..];
      SplitFlat(pre, a, Flat(rest), post);
      AcesOfFlat(pre + a, rest, post);
      assert [a] + rest == list;
    }
  }

  lemma SplitFlat(pre: bytes, a: bytes, tail: bytes, post: bytes)
    requires Sized(a)
    ensures var b := pre + (a + tail) + post;
            && b == (pre + a) + tail + post
            && b[|pre|..|pre| + |a|] == a && U16(b, |pre| + 2) == |a|
  {
    var b := pre + (a + tail) + post;
    assert b[|pre| + 2] == a[2] && b[|pre| + 3] == a[3];
  }

  /** Cutting bytes off the end can make splitting fail, never change what it finds. */
  lemma {:induction false} AcesOfPrefix(acl: bytes, m: nat, off: nat, count: nat)
    requires off <= m <= |acl| && AcesFrom(acl[..m], off, count).Ok?
    ensures AcesFrom(acl, off, count) == AcesFrom(acl[..m], off, count)
    decreases count
  {
    if count > 0 {
      var n: nat := U16(acl[..m], off + 2);
      assert n == U16(acl, off + 2);
      assert acl[..m][off..off + n] == acl[off..off + n];
      AcesOfPrefix(acl, m, off + n, count - 1);
    }
  }

  lemma BuiltFields(revision: byte, list: seq<bytes>)
    ensures var acl := Built(revision, list);
            && acl[0] == revision
            && U16(acl, 2) == (ACL_HEADER + |Flat(list)|) % 0x1_0000
            && U16(acl, 4) == |list| % 0x1_0000
            && acl == acl[..ACL_HEADER] + Flat(list)
  {
    var c: bytes, z: bytes := [revision, 0], [0, 0];
    var s, n, f := Le16(ACL_HEADER + |Flat(list)|), Le16(|list|), Flat(list);
    assert c + s + n + z + f == c + s + (n + z + f);
    assert c + s + n + z + f == (c + s) + n + (z + f);
    Le16Reads(c, ACL_HEADER + |Flat(list)|, n + z + f);
    Le16Reads(c + s, |list|, z + f);
  }

  lemma FlatSplits(pre: bytes, list: seq<bytes>, acl: bytes)
    requires AllSized(list) && acl == pre + Flat(list)
    ensures AcesFrom(acl, |pre|, |list|) == Ok(list)
  {
    assert pre + Flat(list) + [] == acl;
    AcesOfFlat(pre, list, []);
  }

  lemma LaidOutSplits(pre: bytes, list: seq<bytes>, acl: bytes)
    requires |pre| == ACL_HEADER && AllSized(list) && acl == pre + Flat(list) && U16(acl, 4) == |list|
    ensures Aces(acl) == Ok(list)
  {
    FlatSplits(pre, list, acl);
  }

  lemma BuiltSplits(revision: byte, list: seq<bytes>, acl: bytes)
    requires acl == Built(revision, list) && AllSized(list) && |list| < 0x1_0000
    ensures Aces(acl) == Ok(list)
  {
    BuiltFields(revision, list);
    LaidOutSplits(acl[..ACL_HEADER], list, acl);
  }

  /** aces undoes buildACL exactly when every entry states its own length and the count fits. */
  lemma AcesInvertsBuild(revision: byte, list: seq<bytes>)
    ensures Aces(Built(revision, list)) == Ok(list) <==> AllSized(list) && |list| < 0x1_0000
  {
    var acl := Built(revision, list);
    if AllSized(list) && |list| < 0x1_0000 {
      BuiltSplits(revision, list, acl);
    } else if Aces(acl) == Ok(list) {
      AcesLayout(acl, ACL_HEADER, U16(acl, 4));
    }
  }

  lemma {:induction false} SizedCount(list: seq<bytes>)
    requires AllSized(list)
    ensures 4 * |list| <= |Flat(list)| <= 0xFFFF * |list|
  {
    if list != [] {
      assert Sized(list[0]);
      SizedCount(list[1..]);
    }
  }

  // ---- a descriptor and its entries ----

  datatype View = View(parsed: Parsed, list: seq<bytes>)

  /** The opening moves of every edit: parse, then split the DACL. */
  function Read(sd: bytes): Result<View, Error> {
    var p :- Parse(sd);
    ParsedIsWellFormed(sd);
    var list :- Aces(p.dacl);
    Ok(View(p, list))
  }

  function WithDaclPresent(control: word): (c: word)
    ensures Has(c, DACL_PRESENT)
    ensures Has(c, SELF_RELATIVE) <==> Has(control, SELF_RELATIVE)
  {
    if Has(control, DACL_PRESENT) then control else control + DACL_PRESENT
  }

  /** The single bits of a control word. */
  const FLAGS: set<nat> := {0x1, 0x2, 0x4, 0x8, 0x10, 0x20, 0x40, 0x80,
                            0x100, 0x200, 0x400, 0x800, 0x1000, 0x2000, 0x4000, 0x8000}

  /** An edit turns the third bit on and leaves the other fifteen as they are. */
  lemma OtherFlagsStay(control: word, bit: nat)
    requires bit in FLAGS
    ensures bit == 0x4 ==> Has(WithDaclPresent(control), bit)
    ensures bit != 0x4 ==> (Has(WithDaclPresent(control), bit) <==> Has(control, bit))
  {
    if !Has(control, 0x4) {
      if bit < 0x4 {
        LowFlags(control);
      } else if bit > 0x4 {
        HighFlags(control, bit);
      }
    }
  }

  lemma LowFlags(c: nat)
    ensures (c + 4) % 2 == c % 2 && (c + 4) / 2 % 2 == c / 2 % 2
  {
  }

  lemma HighFlags(c: nat, bit: nat)
    requires bit in FLAGS && bit > 4 && c / 4 % 2 == 0
    ensures (c + 4) / bit == c / bit
  {
    assert (c + 4) / 8 == c / 8;
    LowQuotients(c, c + 4);
    HighQuotients(c, c + 4);
  }

  lemma LowQuotients(a: nat, b: nat)
    requires a / 8 == b / 8
    ensures a / 0x10 == b / 0x10 && a / 0x20 == b / 0x20 && a / 0x40 == b / 0x40
    ensures a / 0x80 == b / 0x80 && a / 0x100 == b / 0x100 && a / 0x200 == b / 0x200
  {
    LowHalves(a);
    LowHalves(b);
  }

  lemma HighQuotients(a: nat, b: nat)
    requires a / 0x200 == b / 0x200
    ensures a / 0x400 == b / 0x400 && a / 0x800 == b / 0x800 && a / 0x1000 == b / 0x1000
    ensures a / 0x2000 == b / 0x2000 && a / 0x4000 == b / 0x4000 && a / 0x8000 == b / 0x8000
  {
    HighHalves(a);
    HighHalves(b);
  }

  lemma LowHalves(a: nat)
    ensures a / 0x10 == a / 8 / 2 && a / 0x20 == a / 0x10 / 2 && a / 0x40 == a / 0x20 / 2
    ensures a / 0x80 == a / 0x40 / 2 && a / 0x100 == a / 0x80 / 2 && a / 0x200 == a / 0x100 / 2
  {
  }

  lemma HighHalves(a: nat)
    ensures a / 0x400 == a / 0x200 / 2 && a / 0x800 == a / 0x400 / 2 && a / 0x1000 == a / 0x800 / 2
    ensures a / 0x2000 == a / 0x1000 / 2 && a / 0x4000 == a / 0x2000 / 2 && a / 0x8000 == a / 0x4000 / 2
  {
  }

  /** The closing moves of every edit, before they are printed. */
  function Edited(p: Parsed, revision: byte, list: seq<bytes>): Parsed {
    p.(dacl := Built(revision, list), control := WithDaclPresent(p.control))
  }

  function Rewritten(p: Parsed, revision: byte, list: seq<bytes>): bytes {
    Serialized(Edited(p, revision, list))
  }

  /** What a successful read knows about the descriptor. */
  lemma ReadFacts(sd: bytes)
    requires Read(sd).Ok?
    ensures var v := Read(sd).value;
            WellFormed(v.parsed) && AllSized(v.list) && Fits(v.list)
            && (v.parsed.dacl == [] ==> v.list == [])
            && (v.parsed.dacl != [] ==> ACL_HEADER + |Flat(v.list)| <= |v.parsed.dacl|)
  {
    ParsedIsWellFormed(sd);
    var v := Read(sd).value;
    if v.parsed.dacl != [] {
      AcesLayout(v.parsed.dacl, ACL_HEADER, U16(v.parsed.dacl, 4));
    }
  }

  lemma EditedAddressable(p: Parsed, revision: byte, list: seq<bytes>)
    requires WellFormed(p) && AllSized(list) && |list| < 0x1_0000
    ensures Addressable(Edited(p, revision, list))
  {
    SizedCount(list);
    WholeIsShort(SidPart, p.owner);
    WholeIsShort(SidPart, p.group);
    WholeIsShort(AclPart, p.sacl);
    assert |p.owner| <= 1028 && |p.group| <= 1028;
    assert |Flat(list)| <= 0xFFFF * 0xFFFF;
  }

  /** The size field of a built ACL: right when the list fits, too small otherwise. */
  lemma BuiltSize(revision: byte, list: seq<bytes>, acl: bytes)
    requires acl == Built(revision, list)
    ensures Settled(AclPart, acl)
    ensures Fits(list) ==> Whole(AclPart, acl)
    ensures !Fits(list) && AclLen(acl).Ok? ==> AclLen(acl).value < |acl|
  {
    BuiltFields(revision, list);
  }

  lemma ReadOfParsed(sd: bytes, p: Parsed)
    requires Parse(sd) == Ok(p)
    ensures WellFormed(p)
    ensures Aces(p.dacl).Ok? ==> Read(sd) == Ok(View(p, Aces(p.dacl).value))
    ensures Aces(p.dacl).Err? ==> Read(sd).Err?
  {
    ParsedIsWellFormed(sd);
  }

  lemma EditedReads(p: Parsed, revision: byte, list: seq<bytes>)
    requires WellFormed(p) && AllSized(list) && Fits(list)
    ensures WellFormed(Edited(p, revision, list))
    ensures Read(Rewritten(p, revision, list)) == Ok(View(Edited(p, revision, list), list))
  {
    var e := Edited(p, revision, list);
    SizedCount(list);
    AcesInvertsBuild(revision, list);
    BuiltSize(revision, list, e.dacl);
    WellFormedIsAddressable(e);
    ParseInvertsSerialize(e);
    ReadOfParsed(Serialized(e), e);
  }

  /** Entries that reach past the stated size cannot be split out of the cut ACL. */
  lemma CutAclUnreadable(acl: bytes, list: seq<bytes>, m: nat)
    requires |acl| == ACL_HEADER + |Flat(list)| && ACL_HEADER <= m < |acl|
    requires U16(acl, 4) == |list| && Aces(acl) == Ok(list)
    ensures Aces(acl[..m]).Err?
  {
    assert U16(acl[..m], 4) == U16(acl, 4);
    if Aces(acl[..m]).Ok? {
      AcesOfPrefix(acl, m, ACL_HEADER, |list|);
      AcesLayout(acl[..m], ACL_HEADER, |list|);
      assert false;
    }
  }

  lemma CutDaclUnreadable(e: Parsed, list: seq<bytes>)
    requires Has(e.control, SELF_RELATIVE) && Addressable(e)
    requires Whole(SidPart, e.owner) && Whole(SidPart, e.group) && Whole(AclPart, e.sacl)
    requires |e.dacl| == ACL_HEADER + |Flat(list)| && U16(e.dacl, 4) == |list| && Aces(e.dacl) == Ok(list)
    requires Settled(AclPart, e.dacl) && (AclLen(e.dacl).Ok? ==> AclLen(e.dacl).value < |e.dacl|)
    ensures Read(Serialized(e)).Err?
  {
    CutOfWhole(SidPart, e.owner);
    CutOfWhole(SidPart, e.group);
    CutOfWhole(AclPart, e.sacl);
    ParseOfSerialized(e);
    if AclLen(e.dacl).Ok? {
      var m := AclLen(e.dacl).value;
      CutAclUnreadable(e.dacl, list, m);
      ReadOfParsed(Serialized(e), e.(dacl := e.dacl[..m]));
    }
  }

  /** A list too large for the sixteen-bit size field leaves a DACL nobody can read back. */
  lemma OversizedIsUnreadable(p: Parsed, revision: byte, list: seq<bytes>)
    requires WellFormed(p) && AllSized(list) && !Fits(list) && |list| < 0x1_0000
    ensures Read(Rewritten(p, revision, list)).Err?
  {
    var e := Edited(p, revision, list);
    BuiltSize(revision, list, e.dacl);
    BuiltFields(revision, list);
    AcesInvertsBuild(revision, list);
    EditedAddressable(p, revision, list);
    CutDaclUnreadable(e, list);
  }

  /** An edit reads back as the list it wrote exactly when that list fits the size field. */
  lemma RewrittenReadsBack(p: Parsed, revision: byte, list: seq<bytes>)
    requires WellFormed(p) && AllSized(list)
    ensures (Read(Rewritten(p, revision, list)).Ok? && Read(Rewritten(p, revision, list)).value.list == list)
            <==> Fits(list)
  {
    if Fits(list) {
      EditedReads(p, revision, list);
    } else if |list| < 0x1_0000 {
      OversizedIsUnreadable(p, revision, list);
    } else {
      var sd := Rewritten(p, revision, list);
      if Read(sd).Ok? {
        ReadCount(sd);
      }
    }
  }

  /** A list taken apart after its first c entries, as it lies in an ACL. */
  lemma FirstEntries(pre: bytes, list: seq<bytes>, c: nat, acl: bytes, first: seq<bytes>, tail: bytes)
    requires c <= |list| && acl == pre + Flat(list) && first == list[..c] && tail == Flat(list[c..])
    ensures acl == pre + Flat(first) + tail
  {
    assert list == first + list[c..];
    FlatAppend(first, list[c..]);
  }

  lemma CutCovers(pre: bytes, first: seq<bytes>, tail: bytes, acl: bytes, m: nat)
    requires |pre| == ACL_HEADER && AllSized(first) && acl == pre + Flat(first) + tail
    requires ACL_HEADER + |Flat(first)| <= m <= |acl|
    ensures AcesFrom(acl[..m], ACL_HEADER, |first|) == Ok(first)
  {
    var post := acl[..m][ACL_HEADER + |Flat(first)|..];
    assert acl[..m] == pre + Flat(first) + post;
    AcesOfFlat(pre, first, post);
  }

  lemma CutMisses(pre: bytes, first: seq<bytes>, tail: bytes, acl: bytes, m: nat)
    requires |pre| == ACL_HEADER && AllSized(first) && acl == pre + Flat(first) + tail
    requires ACL_HEADER <= m < ACL_HEADER + |Flat(first)|
    ensures AcesFrom(acl[..m], ACL_HEADER, |first|).Err?
  {
    if AcesFrom(acl[..m], ACL_HEADER, |first|).Ok? {
      AcesOfPrefix(acl, m, ACL_HEADER, |first|);
      AcesOfFlat(pre, first, tail);
      AcesLayout(acl[..m], ACL_HEADER, |first|);
    }
  }

  /** Splitting a cut ACL finds the first entries if all of them are left in it, and fails otherwise. */
  lemma SplitOfCut(pre: bytes, list: seq<bytes>, c: nat, acl: bytes, m: nat, first: seq<bytes>)
    requires |pre| == ACL_HEADER && AllSized(list) && acl == pre + Flat(list) && ACL_HEADER <= m <= |acl|
    requires c <= |list| && first == list[..c]
    ensures AcesFrom(acl[..m], ACL_HEADER, c).Ok? <==> ACL_HEADER + |Flat(first)| <= m
    ensures AcesFrom(acl[..m], ACL_HEADER, c).Ok? ==> AcesFrom(acl[..m], ACL_HEADER, c) == Ok(first)
  {
    FirstEntries(pre, list, c, acl, first, Flat(list[c..]));
    if ACL_HEADER + |Flat(first)| <= m {
      CutCovers(pre, first, Flat(list[c..]), acl, m);
    } else {
      CutMisses(pre, first, Flat(list[c..]), acl, m);
    }
  }

  lemma BuiltCut(revision: byte, list: seq<bytes>, acl: bytes, c: nat, m: nat)
    requires acl == Built(revision, list) && AllSized(list)
    requires c == |list| % 0x1_0000 && m == (ACL_HEADER + |Flat(list)|) % 0x1_0000
    ensures |acl| >= ACL_HEADER && U16(acl, 2) == m <= |acl|
    ensures ACL_HEADER <= m ==> Aces(acl[..m]) == AcesFrom(acl[..m], ACL_HEADER, c)
    ensures ACL_HEADER <= m ==> (Aces(acl[..m]).Ok? <==> ACL_HEADER + |Flat(list[..c])| <= m)
    ensures ACL_HEADER <= m && Aces(acl[..m]).Ok? ==> Aces(acl[..m]) == Ok(list[..c])
  {
    BuiltFields(revision, list);
    if ACL_HEADER <= m {
      assert U16(acl[..m], 4) == U16(acl, 4);
      SplitOfCut(acl[..ACL_HEADER], list, c, acl, m, list[..c]);
    }
  }

  /** What a written list of any size reads back as: count and size are cut to sixteen bits, and the entries counted
      are found if the size left covers them. */
  lemma WrittenListReads(p: Parsed, revision: byte, list: seq<bytes>, c: nat, m: nat)
    requires WellFormed(p) && AllSized(list) && Addressable(Edited(p, revision, list))
    requires c == |list| % 0x1_0000 && m == (ACL_HEADER + |Flat(list)|) % 0x1_0000
    ensures Read(Rewritten(p, revision, list)).Ok? <==> ACL_HEADER <= m && ACL_HEADER + |Flat(list[..c])| <= m
    ensures Read(Rewritten(p, revision, list)).Ok? ==> Read(Rewritten(p, revision, list)).value.list == list[..c]
  {
    var acl := Built(revision, list);
    BuiltSize(revision, list, acl);
    BuiltCut(revision, list, acl, c, m);
    CutReads(Edited(p, revision, list), m);
  }

  /** A printed descriptor is read with its DACL cut at the size the DACL states. */
  lemma CutReads(e: Parsed, m: nat)
    requires Has(e.control, SELF_RELATIVE) && Addressable(e) && |e.dacl| >= ACL_HEADER
    requires Whole(SidPart, e.owner) && Whole(SidPart, e.group) && Whole(AclPart, e.sacl)
    requires Settled(AclPart, e.dacl) && U16(e.dacl, 2) == m <= |e.dacl|
    ensures m < ACL_HEADER ==> Read(Serialized(e)).Err?
    ensures m >= ACL_HEADER ==> Read(Serialized(e)).Ok? == Aces(e.dacl[..m]).Ok?
    ensures m >= ACL_HEADER && Aces(e.dacl[..m]).Ok? ==>
              Read(Serialized(e)).Ok? && Read(Serialized(e)).value.list == Aces(e.dacl[..m]).value
  {
    CutOfWhole(SidPart, e.owner);
    CutOfWhole(SidPart, e.group);
    CutOfWhole(AclPart, e.sacl);
    ParseOfSerialized(e);
    if m >= ACL_HEADER {
      ReadOfParsed(Serialized(e), e.(dacl := e.dacl[..m]));
    }
  }

  lemma ReadCount(sd: bytes)
    requires Read(sd).Ok?
    ensures |Read(sd).value.list| < 0x1_0000
  {
    ParsedIsWellFormed(sd);
    var acl := Read(sd).value.parsed.dacl;
    if acl != [] {
      AcesLayout(acl, ACL_HEADER, U16(acl, 4));
    }
  }

  /** Dropping entries keeps every entry whole and never needs more room. */
  lemma {:induction false} KeepSized(list: seq<bytes>, p: bytes -> bool)
    requires AllSized(list)
    ensures AllSized(Keep(list, p)) && |Flat(Keep(list, p))| <= |Flat(list)|
  {
    if list != [] {
      assert Sized(list[0]);
      KeepSized(list[1..], p);
    }
  }

  lemma {:induction false} EntryFitsList(list: seq<bytes>, i: nat)
    requires i < |list|
    ensures |list[i]| <= |Flat(list)|
  {
    if i > 0 {
      EntryFitsList(list[1..], i - 1);
    }
  }

  // ---- the shape shared by every entry this package writes ----

  /** Type, flags, size and mask, then the body that depends on the type. */
  function Entry(kind: byte, flags: byte, mask: nat, body: bytes): (ace: bytes)
    ensures |ace| == 8 + |body|
  {
    [kind, flags] + Le16(8 + |body|) + Le32(mask) + body
  }

  lemma EntryFields(kind: byte, flags: byte, mask: nat, body: bytes, ace: bytes)
    requires ace == Entry(kind, flags, mask, body)
    ensures ace[0] == kind && ace[1] == flags && ace[8..] == body
    ensures U32(ace, 4) == mask % 0x1_0000_0000
    ensures Sized(ace) <==> |ace| < 0x1_0000
  {
    var c: bytes, w, m := [kind, flags], Le16(8 + |body|), Le32(mask);
    assert ace == c + w + (m + body);
    assert ace == (c + w) + m + body;
    Le16Reads(c, 8 + |body|, m + body);
    Le32Reads(c + w, mask, body);
  }

  // ---- the first and last moves of every edit, as the Go code makes them ----

  method Open(sd: bytes) returns (r: Result<View, Error>)
    ensures r == Read(sd)
  {
    var parsed := Parse(sd);
    if parsed.Err? {
      return Err(parsed.error);
    }
    ParsedIsWellFormed(sd);
    var entries := SplitAces(parsed.value.dacl);
    if entries.Err? {
      return Err(entries.error);
    }
    return Ok(View(parsed.value, entries.value));
  }

  method Close(p: Parsed, revision: byte, list: seq<bytes>) returns (out: bytes)
    ensures out == Rewritten(p, revision, list)
  {
    var dacl := BuildACL(revision, list);
    out := Serialize(p.(dacl := dacl, control := WithDaclPresent(p.control)));
  }

  // ---- the ACL on the bytes ----

  /** Every entry is as long as its bytes 2 and 3 say. */
  predicate StatesLength(ace: bytes) {
    |ace| >= 4 && ace[2] as int + 0x100 * (ace[3] as int) == |ace|
  }

  lemma SizedStates(list: seq<bytes>)
    ensures AllSized(list) <==> forall i :: 0 <= i < |list| ==> StatesLength(list[i])
  {
    forall i | 0 <= i < |list| ensures Sized(list[i]) <==> StatesLength(list[i]) {
    }
  }

  lemma LaidOutIsRead(acl: bytes, list: seq<bytes>)
    requires |acl| >= 8 && |list| == U16(acl, 4) && AllSized(list) && Flat(list) <= acl[8..]
    ensures Aces(acl) == Ok(list)
  {
    AcesOfFlat(acl[..8], list, acl[8 + |Flat(list)|..]);
    assert acl[8..][..|Flat(list)|] == Flat(list);
    assert acl == acl[..8] + Flat(list) + acl[8 + |Flat(list)|..];
  }

  /** What aces accepts, and as what: exactly the counted entries, each as long as its bytes 2 and 3 say, laid end to end
      after the header. */
  lemma AcesExactly(acl: bytes, list: seq<bytes>)
    requires |acl| >= 8
    ensures Aces(acl) == Ok(list)
            <==> && |list| == acl[4] as int + 0x100 * (acl[5] as int)
                 && (forall i :: 0 <= i < |list| ==> StatesLength(list[i]))
                 && Flat(list) <= acl[8..]
  {
    SizedStates(list);
    if Aces(acl) == Ok(list) {
      AcesLayout(acl, ACL_HEADER, U16(acl, 4));
      assert acl[8..][..|Flat(list)|] == acl[8..8 + |Flat(list)|];
    } else if |list| == U16(acl, 4) && AllSized(list) && Flat(list) <= acl[8..] {
      LaidOutIsRead(acl, list);
    }
  }

  /** The header buildACL writes: revision, zero, size and count in sixteen bits, two zeros. */
  lemma BuiltHeader(revision: byte, list: seq<bytes>, acl: bytes)
    requires acl == Built(revision, list)
    ensures |acl| == 8 + |Flat(list)| && acl[8..] == Flat(list)
    ensures acl[0] == revision && acl[1] == 0 && acl[6] == 0 && acl[7] == 0
    ensures U16(acl, 2) == (8 + |Flat(list)|) % 0x1_0000 && U16(acl, 4) == |list| % 0x1_0000
  {
    BuiltFields(revision, list);
  }
}
