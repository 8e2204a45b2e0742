// The SID text form of internal/attrs/attrs.go (section 2.4.2 of MS-DTYP): a big-endian
// authority, little-endian sub-authorities, decimals separated by "-".
module Sid {
  import opened Wrappers
  import opened Bytes
  import opened Text

  datatype SidError = WrongLength | NotASid | BadRevision | BadAuthority | TooManySubs | BadSubAuthority

  const MAX_AUTHORITY := 0x1_0000_0000_0000

  // ---- binary to text ----

  /** The bytes are exactly a header and the sub-authorities it counts. */
  predicate Exact(b: bytes) {
    |b| >= 8 && |b| == 8 + 4 * (b[1] as int)
  }

  function Subs(b: bytes): seq<nat>
    requires Exact(b)
  {
    seq(b[1] as int, i requires 0 <= i < b[1] as int => U32(b, 8 + 4 * i))
  }

  function Decs(ns: seq<nat>): (r: seq<string>)
    ensures |r| == |ns|
    ensures forall i :: 0 <= i < |ns| ==> r[i] == Dec(ns[i])
  {
    seq(|ns|, i requires 0 <= i < |ns| => Dec(ns[i]))
  }

  function Parts(b: bytes): seq<string>
    requires Exact(b)
  {
    ["S", Dec(b[0]), Dec(Fold(b[2..8]))] + Decs(Subs(b))
  }

  function TextOf(b: bytes): Result<string, SidError> {
    if Exact(b) then Ok(Join(Parts(b), '-')) else Err(WrongLength)
  }

  method SIDToString(b: bytes) returns (r: Result<string, SidError>)
    ensures r == TextOf(b)
  {
    if |b| < 8 {
      return Err(WrongLength);
    }
    var count: int := b[1];
    if |b| != 8 + 4 * count {
      return Err(WrongLength);
    }
    var authority: nat := 0;
    for i := 2 to 8
      invariant authority == Fold(b[2..i])
    {
      assert b[2..i + 1][..|b[2..i + 1]| - 1] == b[2..i];
      authority := authority * 0x100 + b[i] as int;
    }
    var text := "S-" + Dec(b[0]) + "-" + Dec(authority);
    ghost var head := ["S", Dec(b[0]), Dec(authority)];
    JoinThree("S", Dec(b[0]), Dec(authority));
    assert head + Decs(Subs(b))[..0] == head;
    for i := 0 to count
      invariant text == Join(head + Decs(Subs(b))[..i], '-')
    {
      JoinNext(head, Decs(Subs(b)), i);
      text := text + "-" + Dec(U32(b, 8 + 4 * i));
    }
    assert head + Decs(Subs(b))[..count] == Parts(b);
    return Ok(text);
  }

  lemma JoinNext(head: seq<string>, parts: seq<string>, i: nat)
    requires |head| >= 1 && i < |parts|
    ensures Join(head + parts[..i + 1], '-') == Join(head + parts[..i], '-') + "-" + parts[i]
  {
    NextPart(head, parts, i);
    JoinSnoc(head + parts[..i], parts[i], '-');
  }

  lemma NextPart<T>(head: seq<T>, parts: seq<T>, i: nat)
    requires i < |parts|
    ensures head + parts[..i + 1] == head + parts[..i] + [parts[i]]
  {
  }

  lemma JoinThree(x: string, y: string, z: string)
    ensures Join([x, y, z], '-') == x + "-" + y + "-" + z
  {
    assert [x, y, z][1..] == [y, z] && [y, z][1..] == [z];
    assert Join([y, z], '-') == y + "-" + z;
    assert x + "-" + (y + "-" + z) == x + "-" + y + "-" + z;
  }

  // ---- text to binary ----

  function PackSubs(subs: seq<string>): Result<bytes, SidError> {
    if subs == [] then Ok([])
    else if ParseUint(subs[0], 0x1_0000_0000).None? then Err(BadSubAuthority)
    else Before(Le32(ParseUint(subs[0], 0x1_0000_0000).value), PackSubs(subs[1..]))
  }

  function SidFields(parts: seq<string>): Result<bytes, SidError>
    requires |parts| >= 1
  {
    if |parts| < 3 || !EqualFold(parts[0], "S") then Err(NotASid)
    else if ParseUint(parts[1], 0x100).None? then Err(BadRevision)
    else if ParseUint(parts[2], MAX_AUTHORITY).None? then Err(BadAuthority)
    else if |parts[3..]| > 15 then Err(TooManySubs)
    else
      var head: bytes := [ParseUint(parts[1], 0x100).value, |parts[3..]|];
      Before(head + BigEndian(ParseUint(parts[2], MAX_AUTHORITY).value, 6), PackSubs(parts[3..]))
  }

  function SidOf(s: string): Result<bytes, SidError> {
    SidFields(Split(Trim(s), '-'))
  }

  method SIDFromString(s: string) returns (r: Result<bytes, SidError>)
    ensures r == SidOf(s)
  {
    var parts := Split(Trim(s), '-');
    if |parts| < 3 || !EqualFold(parts[0], "S") {
      return Err(NotASid);
    }
    var revision := ParseUint(parts[1], 0x100);
    if revision.None? {
      return Err(BadRevision);
    }
    var authority := ParseUint(parts[2], MAX_AUTHORITY);
    if authority.None? {
      return Err(BadAuthority);
    }
    var subs := parts[3..];
    if |subs| > 15 {
      return Err(TooManySubs);
    }
    var out: bytes := [revision.value, |subs|] + BigEndian(authority.value, 6);
    ghost var head := out;
    for i := 0 to |subs|
      invariant Before(head, PackSubs(subs)) == Before(out, PackSubs(subs[i..]))
    {
      assert subs[i..][0] == subs[i] && subs[i..][1..] == subs[i + 1..];
      var v := ParseUint(subs[i], 0x1_0000_0000);
      if v.None? {
        return Err(BadSubAuthority);
      }
      BeforeStep(out, Le32(v.value), PackSubs(subs[i + 1..]));
      out := out + Le32(v.value);
    }
    assert out + [] == out;
    return Ok(out);
  }

  // ---- the two directions ----

  lemma FoldSix(b: bytes)
    requires |b| == 6
    ensures Fold(b) < MAX_AUTHORITY
  {
    assert b[..5][..4] == b[..4] && b[..4][..3] == b[..3] && b[..3][..2] == b[..2] && b[..2][..1] == b[..1];
    assert Fold(b[..1]) < 0x100;
    assert Fold(b[..2]) < 0x1_0000;
    assert Fold(b[..3]) < 0x100_0000;
    assert Fold(b[..4]) < 0x1_0000_0000;
    assert Fold(b[..5]) < 0x100_0000_0000;
  }

  lemma {:induction false} PackOfSubs(b: bytes, i: nat, at: nat, texts: seq<string>)
    requires Exact(b) && i <= b[1] as int && at == 8 + 4 * i && texts == Decs(Subs(b))[i..]
    ensures PackSubs(texts) == Ok(b[at..])
    decreases b[1] as int - i
  {
    if i == b[1] as int {
      assert texts == [] && b[at..] == [];
    } else {
      var v: nat := U32(b, at);
      assert texts[0] == Dec(v);
      PackOfSubs(b, i + 1, at + 4, texts[1..]);
      ParseDec(v, 0x1_0000_0000);
      Le32OfU32(b, at);
      assert b[at..] == b[at..at + 4] + b[at + 4..];
    }
  }

  lemma PartsClean(b: bytes)
    requires Exact(b)
    ensures AllClean(Parts(b), '-') && Trim(Join(Parts(b), '-')) == Join(Parts(b), '-')
  {
    var parts := Parts(b);
    forall i | 0 <= i < |parts| ensures Clean(parts[i], '-') && (i > 0 ==> AllDigits(parts[i])) {
      DecDigits(b[0]);
      DecDigits(Fold(b[2..8]));
      if i >= 3 {
        DecDigits(Subs(b)[i - 3]);
      }
    }
    var text := Join(parts, '-');
    JoinEnds(parts, '-');
    TrimNothing(text);
  }

  /** Text and back is the identity exactly on SIDs of at most fifteen sub-authorities. */
  lemma TextRoundTrip(b: bytes)
    requires Exact(b)
    ensures TextOf(b).Ok?
    ensures SidOf(TextOf(b).value) == Ok(b) <==> b[1] <= 15
  {
    var parts := Parts(b);
    PartsClean(b);
    SplitInvertsJoin(parts, '-');
    assert parts[3..] == Decs(Subs(b));
    ParseDec(b[0], 0x100);
    BigEndianOfFold(b[2..8]);
    FoldSix(b[2..8]);
    ParseDec(Fold(b[2..8]), MAX_AUTHORITY);
    assert Decs(Subs(b))[0..] == Decs(Subs(b));
    PackOfSubs(b, 0, 8, parts[3..]);
    assert b == [b[0], b[1]] + b[2..8] + b[8..];
  }

  lemma DecDecides(a: nat, b: nat)
    requires Dec(a) == Dec(b)
    ensures a == b
  {
    DecDigits(a);
    DecDigits(b);
  }

  lemma SameSubs(b: bytes, c: bytes, i: nat)
    requires Exact(b) && Exact(c) && |b| == |c| && Subs(b) == Subs(c) && 2 <= i < |b| && b[2..8] == c[2..8]
    ensures b[i] == c[i]
  {
    if i < 8 {
      assert b[i] == b[2..8][i - 2];
    } else {
      var k := (i - 8) / 4;
      assert Subs(b)[k] == Subs(c)[k];
      Le32OfU32(b, 8 + 4 * k);
      Le32OfU32(c, 8 + 4 * k);
      assert b[i] == b[8 + 4 * k..12 + 4 * k][i - 8 - 4 * k];
    }
  }

  lemma SameParts(b: bytes, c: bytes)
    requires Exact(b) && Exact(c) && Parts(b) == Parts(c)
    ensures b[0] == c[0] && b[1] == c[1] && b[2..8] == c[2..8] && Subs(b) == Subs(c)
  {
    assert Parts(b)[1] == Dec(b[0]) && Parts(b)[2] == Dec(Fold(b[2..8])) && Parts(b)[3..] == Decs(Subs(b));
    assert Parts(c)[1] == Dec(c[0]) && Parts(c)[2] == Dec(Fold(c[2..8])) && Parts(c)[3..] == Decs(Subs(c));
    DecDecides(b[0], c[0]);
    DecDecides(Fold(b[2..8]), Fold(c[2..8]));
    BigEndianOfFold(b[2..8]);
    BigEndianOfFold(c[2..8]);
    forall k | 0 <= k < |Subs(b)| ensures Subs(b)[k] == Subs(c)[k] {
      assert Decs(Subs(b))[k] == Decs(Subs(c))[k];
      DecDecides(Subs(b)[k], Subs(c)[k]);
    }
  }

  /** Two SIDs of any number of sub-authorities have one text only if they are the same. */
  lemma TextDecides(b: bytes, c: bytes)
    requires Exact(b) && Exact(c) && TextOf(b) == TextOf(c)
    ensures b == c
  {
    PartsClean(b);
    PartsClean(c);
    SplitInvertsJoin(Parts(b), '-');
    SplitInvertsJoin(Parts(c), '-');
    SameParts(b, c);
    forall i | 2 <= i < |b| ensures b[i] == c[i] {
      SameSubs(b, c, i);
    }
  }

  lemma {:induction false} PackLength(subs: seq<string>)
    ensures PackSubs(subs).Ok? ==> |PackSubs(subs).value| == 4 * |subs|
  {
    if subs != [] {
      PackLength(subs[1..]);
    }
  }

  /** Whatever text is accepted names an exact SID, whose own text names it too. */
  lemma AcceptedTextNamesASid(s: string)
    requires SidOf(s).Ok?
    ensures var b := SidOf(s).value;
            && Exact(b) && b[1] <= 15
            && TextOf(b).Ok? && SidOf(TextOf(b).value) == Ok(b)
  {
    PackLength(Split(Trim(s), '-')[3..]);
    TextRoundTrip(SidOf(s).value);
  }

  lemma {:induction false} FoldZeros(b: bytes)
    requires forall i :: 0 <= i < |b| ==> b[i] == 0
    ensures Fold(b) == 0
  {
    if b != [] {
      FoldZeros(b[..|b| - 1]);
    }
  }

  lemma JoinFour(parts: seq<string>)
    requires |parts| == 4
    ensures Join(parts, '-') == parts[0] + "-" + parts[1] + "-" + parts[2] + "-" + parts[3]
  {
    var front := [parts[0], parts[1], parts[2]];
    assert parts == front + [parts[3]];
    JoinThree(parts[0], parts[1], parts[2]);
    JoinSnoc(front, parts[3], '-');
  }

  lemma SmallAuthority(a: bytes, authority: byte)
    requires a == [0, 0, 0, 0, 0, authority]
    ensures Fold(a) == authority as int
  {
    FoldZeros(a[..5]);
    assert a[..|a| - 1] == a[..5];
  }

  lemma OneSub(b: bytes, sub: dword)
    requires Exact(b) && b[1] == 1 && b[8..] == Le32(sub)
    ensures Decs(Subs(b)) == [Dec(sub)]
  {
    assert b == b[..8] + Le32(sub) + [];
    Le32Reads(b[..8], sub, []);
    assert Subs(b) == [sub];
  }

  /** A well-known SID, a small authority and one sub-authority, reads as it is written down. */
  lemma WellKnownReads(authority: byte, sub: dword, b: bytes)
    requires b == [1, 1, 0, 0, 0, 0, 0, authority] + Le32(sub)
    ensures TextOf(b) == Ok("S-1-" + Dec(authority) + "-" + Dec(sub))
  {
    assert b[8..] == Le32(sub);
    OneSub(b, sub);
    assert b[2..8] == [0, 0, 0, 0, 0, authority];
    SmallAuthority(b[2..8], authority);
    assert Dec(1) == "1";
    JoinFour(["S", "1", Dec(authority), Dec(sub)]);
    assert Parts(b) == ["S", "1", Dec(authority), Dec(sub)];
    assert "S" + "-" + "1" + "-" == "S-1-";
  }

  // ---- which texts are accepted ----

  predicate AllWords(subs: seq<string>) {
    forall i :: 0 <= i < |subs| ==> ParseUint(subs[i], 0x1_0000_0000).Some?
  }

  lemma {:induction false} PackExactly(subs: seq<string>)
    ensures PackSubs(subs).Ok? <==> AllWords(subs)
    ensures AllWords(subs) ==> |PackSubs(subs).value| == 4 * |subs|
    ensures AllWords(subs) ==> forall i :: 0 <= i < |subs| ==>
              PackSubs(subs).value[4 * i..4 * i + 4] == Le32(ParseUint(subs[i], 0x1_0000_0000).value)
  {
    if subs != [] {
      PackExactly(subs[1..]);
      assert forall i :: 0 < i < |subs| ==> subs[i] == subs[1..][i - 1];
      if AllWords(subs) {
        PackFirst(subs);
      }
    }
  }

  lemma PackFirst(subs: seq<string>)
    requires subs != [] && AllWords(subs) && PackSubs(subs[1..]).Ok? && |PackSubs(subs[1..]).value| == 4 * |subs[1..]|
    requires forall i :: 0 <= i < |subs[1..]| ==>
               PackSubs(subs[1..]).value[4 * i..4 * i + 4] == Le32(ParseUint(subs[1..][i], 0x1_0000_0000).value)
    ensures PackSubs(subs).Ok? && |PackSubs(subs).value| == 4 * |subs|
    ensures forall i :: 0 <= i < |subs| ==>
              PackSubs(subs).value[4 * i..4 * i + 4] == Le32(ParseUint(subs[i], 0x1_0000_0000).value)
  {
    var first, rest := Le32(ParseUint(subs[0], 0x1_0000_0000).value), PackSubs(subs[1..]).value;
    var all := first + rest;
    assert PackSubs(subs) == Ok(all);
    assert all[0..4] == first;
    forall i | 0 < i < |subs|
      ensures all[4 * i..4 * i + 4] == Le32(ParseUint(subs[i], 0x1_0000_0000).value)
    {
      assert subs[i] == subs[1..][i - 1];
      LaterFour(first, rest, 4 * (i - 1));
    }
  }

  lemma LaterFour(first: bytes, rest: bytes, k: nat)
    requires |first| == 4 && k + 4 <= |rest|
    ensures (first + rest)[k + 4..k + 8] == rest[k..k + 4]
  {
  }

  /** A text is accepted exactly when, trimmed, it is S, a revision of 8 bits, an authority of 48 bits and at most fifteen
      sub-authorities of 32 bits, all decimal and joined by dashes. */
  lemma AcceptedExactly(s: string)
    ensures SidOf(s).Ok?
            <==> var parts := Split(Trim(s), '-');
                 && 3 <= |parts| <= 18 && (parts[0] == "S" || parts[0] == "s")
                 && ParseUint(parts[1], 0x100).Some? && ParseUint(parts[2], 0x1_0000_0000_0000).Some?
                 && AllWords(parts[3..])
  {
    var parts := Split(Trim(s), '-');
    if |parts| >= 3 {
      PackExactly(parts[3..]);
      LetterS(parts[0]);
    }
  }

  lemma LetterS(p: string)
    ensures EqualFold(p, "S") <==> p == "S" || p == "s"
  {
    if EqualFold(p, "S") {
      assert |Lower(p)| == |Lower("S")|;
      assert Lower(p)[0] == LowerChar(p[0]) == Lower("S")[0] == 's';
      assert p == [p[0]];
    }
  }

  /** And the bytes say those numbers: revision, count, the authority most significant byte first, the sub-authorities
      least significant byte first. */
  lemma AcceptedBytes(s: string, b: bytes, parts: seq<string>)
    requires SidOf(s) == Ok(b) && parts == Split(Trim(s), '-')
    ensures |parts| >= 3 && AllWords(parts[3..]) && |b| == 8 + 4 * |parts[3..]|
    ensures ParseUint(parts[1], 0x100) == Some(b[0]) && b[1] as int == |parts[3..]|
    ensures ParseUint(parts[2], MAX_AUTHORITY).Some? && b[2..8] == BigEndian(ParseUint(parts[2], MAX_AUTHORITY).value, 6)
    ensures forall i :: 0 <= i < |parts[3..]| ==> b[8 + 4 * i..12 + 4 * i] == Le32(ParseUint(parts[3..][i], 0x1_0000_0000).value)
  {
    var subs := parts[3..];
    PackExactly(subs);
    var tail := PackSubs(subs).value;
    assert b[8..] == tail;
    forall i | 0 <= i < |subs| ensures b[8 + 4 * i..12 + 4 * i] == Le32(ParseUint(subs[i], 0x1_0000_0000).value) {
      assert b[8 + 4 * i..12 + 4 * i] == tail[4 * i..4 * i + 4];
    }
  }
}
