// The GUID text form of internal/attrs/attrs.go: three little-endian fields, then two
// written as stored.
module Guid {
  import opened Wrappers
  import opened Bytes
  import opened Lists
  import opened Text

  datatype GuidError = WrongLength | NotAGuid

  function U16Big(b: bytes, at: nat): nat
    requires at + 2 <= |b|
  {
    0x100 * (b[at] as int) + b[at + 1] as int
  }

  function HexBytes(b: bytes): string {
    if b == [] then "" else Hex(b[0], 2) + HexBytes(b[1..])
  }

  function TextOf(b: bytes): Result<string, GuidError> {
    if |b| != 16 then Err(WrongLength)
    else Ok(Join([Hex(U32(b, 0), 8), Hex(U16(b, 4), 4), Hex(U16(b, 6), 4), Hex(U16Big(b, 8), 4), HexBytes(b[10..16])], '-'))
  }

  const NOT_DASH := (c: char) => c != '-'

  /** Two hex digits a byte; an error when a digit is not one. */
  function UnhexPairs(s: string): Result<bytes, GuidError>
    requires |s| % 2 == 0
  {
    if s == "" then Ok([])
    else if Unhex(s[0]).None? || Unhex(s[1]).None? then Err(NotAGuid)
    else Before([16 * Unhex(s[0]).value + Unhex(s[1]).value], UnhexPairs(s[2..]))
  }

  /** The stored order of sixteen bytes given in reading order: an involution. */
  function Mixed(flat: bytes): bytes
    requires |flat| == 16
  {
    [flat[3], flat[2], flat[1], flat[0], flat[5], flat[4], flat[7], flat[6]] + flat[8..]
  }

  lemma {:induction false} PairsLength(s: string)
    requires |s| % 2 == 0 && UnhexPairs(s).Ok?
    ensures 2 * |UnhexPairs(s).value| == |s|
  {
    if s != "" {
      PairsLength(s[2..]);
    }
  }

  function GuidOf(s: string): Result<bytes, GuidError> {
    var digits := Keep(Trim(s), NOT_DASH);
    if |digits| != 32 then Err(NotAGuid)
    else
      var flat :- UnhexPairs(digits);
      PairsLength(digits);
      Ok(Mixed(flat))
  }

  lemma GuidOfLength(s: string)
    requires GuidOf(s).Ok?
    ensures |GuidOf(s).value| == 16
  {
    PairsLength(Keep(Trim(s), NOT_DASH));
  }

  method UnhexAll(digits: string) returns (r: Result<bytes, GuidError>)
    requires |digits| % 2 == 0
    ensures r == UnhexPairs(digits)
  {
    var flat: bytes := [];
    BeforeNothing(UnhexPairs(digits));
    for i := 0 to |digits| / 2
      invariant UnhexPairs(digits) == Before(flat, UnhexPairs(digits[2 * i..]))
    {
      assert digits[2 * i..][2..] == digits[2 * i + 2..];
      var hi, lo := Unhex(digits[2 * i]), Unhex(digits[2 * i + 1]);
      if hi.None? || lo.None? {
        return Err(NotAGuid);
      }
      BeforeStep(flat, [16 * hi.value + lo.value], UnhexPairs(digits[2 * i + 2..]));
      flat := flat + [16 * hi.value + lo.value];
    }
    assert digits[|digits|..] == "" && flat + [] == flat;
    return Ok(flat);
  }

  method GUIDToBytes(s: string) returns (r: Result<bytes, GuidError>)
    ensures r == GuidOf(s)
  {
    var digits := Keep(Trim(s), NOT_DASH);
    if |digits| != 32 {
      return Err(NotAGuid);
    }
    var flat := UnhexAll(digits);
    if flat.Err? {
      return flat;
    }
    PairsLength(digits);
    return Ok(Mixed(flat.value));
  }

  // ---- the two directions ----

  lemma HexSplit(n: nat, low: nat, k: nat)
    requires low < 0x100
    ensures Hex(0x100 * n + low, k + 2) == Hex(n, k) + Hex(low, 2)
  {
    var m := 0x100 * n + low;
    assert m / 16 == 16 * n + low / 16 && m / 16 / 16 == n && m % 16 == low % 16;
    assert m / 16 % 16 == low / 16;
    assert Hex(low, 2) == Hex(low / 16 / 16, 0) + [HexDigit(low / 16 % 16)] + [HexDigit(low % 16)];
  }

  lemma {:induction false} HexBytesAppend(a: bytes, b: bytes)
    ensures HexBytes(a + b) == HexBytes(a) + HexBytes(b)
  {
    if a == [] {
      assert a + b == b;
    } else {
      assert (a + b)[1..] == a[1..] + b;
      HexBytesAppend(a[1..], b);
    }
  }

  /** The padded hex of a number is the hex of its bytes, most significant first. */
  lemma {:induction false} HexOfBigEndian(b: bytes, n: nat, k: nat)
    requires n == Fold(b) && k == 2 * |b|
    ensures Hex(n, k) == HexBytes(b)
    decreases |b|
  {
    if b != [] {
      var init, last := b[..|b| - 1], b[|b| - 1];
      HexOfBigEndian(init, Fold(init), k - 2);
      HexSplit(Fold(init), last, k - 2);
      assert b == init + [last];
      HexBytesLast(init, last);
    }
  }

  lemma HexBytesLast(init: bytes, last: byte)
    ensures HexBytes(init + [last]) == HexBytes(init) + Hex(last, 2)
  {
    HexBytesAppend(init, [last]);
    assert [last][1..] == [] && HexBytes([]) == "";
  }

  lemma FoldTwo(x: byte, y: byte)
    ensures Fold([x, y]) == 0x100 * (x as int) + y as int
  {
    assert [x, y][..1] == [x] && [x][..0] == [];
    assert Fold([x]) == x as int;
  }

  lemma FoldFour(x: byte, y: byte, z: byte, w: byte)
    ensures Fold([x, y, z, w]) == 0x100_0000 * (x as int) + 0x1_0000 * (y as int) + 0x100 * (z as int) + w as int
  {
    FoldTwo(x, y);
    assert [x, y, z, w][..3] == [x, y, z] && [x, y, z][..2] == [x, y];
  }

  /** The text of a GUID is the hex of its bytes in reading order, dashed after 4, 6, 8 and 10. */
  function Dashed(flat: bytes): string
    requires |flat| == 16
  {
    Join([HexBytes(flat[..4]), HexBytes(flat[4..6]), HexBytes(flat[6..8]), HexBytes(flat[8..10]), HexBytes(flat[10..])], '-')
  }

  lemma MixedBack(b: bytes)
    requires |b| == 16
    ensures Mixed(Mixed(b)) == b
  {
  }

  lemma MixedFields(b: bytes, f: bytes)
    requires |b| == 16 && f == Mixed(b)
    ensures Fold(f[..4]) == U32(b, 0) && Fold(f[4..6]) == U16(b, 4) && Fold(f[6..8]) == U16(b, 6)
    ensures Fold(f[8..10]) == U16Big(b, 8) && f[10..] == b[10..16]
  {
    assert f[..4] == [b[3], b[2], b[1], b[0]] && f[4..6] == [b[5], b[4]] && f[6..8] == [b[7], b[6]];
    assert f[8..10] == [b[8], b[9]] && f[10..] == b[10..16];
    FoldFour(b[3], b[2], b[1], b[0]);
    FoldTwo(b[5], b[4]);
    FoldTwo(b[7], b[6]);
    FoldTwo(b[8], b[9]);
  }

  lemma TextIsDashed(b: bytes)
    requires |b| == 16
    ensures TextOf(b) == Ok(Dashed(Mixed(b))) && Mixed(Mixed(b)) == b
  {
    var f := Mixed(b);
    MixedBack(b);
    MixedFields(b, f);
    HexOfBigEndian(f[..4], U32(b, 0), 8);
    HexOfBigEndian(f[4..6], U16(b, 4), 4);
    HexOfBigEndian(f[6..8], U16(b, 6), 4);
    HexOfBigEndian(f[8..10], U16Big(b, 8), 4);
  }

  lemma {:induction false} HexBytesDigits(b: bytes)
    ensures |HexBytes(b)| == 2 * |b|
    ensures forall i :: 0 <= i < |HexBytes(b)| ==> Unhex(HexBytes(b)[i]).Some?
    ensures UnhexPairs(HexBytes(b)) == Ok(b)
  {
    if b != [] {
      HexBytesDigits(b[1..]);
      var v: int := b[0];
      UnhexDigit(v / 16);
      UnhexDigit(v % 16);
      assert Hex(v, 2) == [HexDigit(v / 16), HexDigit(v % 16)];
      assert HexBytes(b)[2..] == HexBytes(b[1..]);
      assert [b[0]] + b[1..] == b;
    }
  }

  function Concat(parts: seq<string>): string {
    if parts == [] then "" else parts[0] + Concat(parts[1..])
  }

  /** Dropping the separators of a join leaves its parts run together. */
  lemma {:induction false} StripJoin(parts: seq<string>)
    requires |parts| >= 1 && AllClean(parts, '-')
    ensures Keep(Join(parts, '-'), NOT_DASH) == Concat(parts)
    decreases |parts|
  {
    KeepAll(parts[0], NOT_DASH);
    if |parts| == 1 {
      assert Concat(parts) == parts[0] + Concat(parts[1..]);
    } else {
      StripJoin(parts[1..]);
      KeepAppend(parts[0] + ['-'], Join(parts[1..], '-'), NOT_DASH);
      KeepAppend(parts[0], ['-'], NOT_DASH);
      KeepNone(['-'], NOT_DASH);
    }
  }

  lemma ConcatFive(a: string, b: string, c: string, d: string, e: string)
    ensures Concat([a, b, c, d, e]) == a + b + c + d + e
  {
    var p := [a, b, c, d, e];
    assert p[1..] == [b, c, d, e] && p[1..][1..] == [c, d, e] && p[1..][1..][1..] == [d, e];
    assert [d, e][1..] == [e] && [e][1..] == [];
    assert Concat([e]) == e;
    assert Concat([d, e]) == d + e;
    assert Concat([c, d, e]) == c + (d + e);
    assert Concat([b, c, d, e]) == b + (c + (d + e));
  }

  lemma HexBytesOfSlices(f: bytes)
    requires |f| == 16
    ensures HexBytes(f[..4]) + HexBytes(f[4..6]) + HexBytes(f[6..8]) + HexBytes(f[8..10]) + HexBytes(f[10..]) == HexBytes(f)
  {
    assert f[..6] == f[..4] + f[4..6] && f[..8] == f[..6] + f[6..8];
    assert f[..10] == f[..8] + f[8..10] && f == f[..10] + f[10..];
    HexBytesAppend(f[..4], f[4..6]);
    HexBytesAppend(f[..6], f[6..8]);
    HexBytesAppend(f[..8], f[8..10]);
    HexBytesAppend(f[..10], f[10..]);
  }

  /** Text with no dash in it and no space around it. */
  predicate Bare(s: string) {
    s != "" && Clean(s, '-') && !IsSpace(s[0]) && !IsSpace(s[|s| - 1])
  }

  lemma HexIsBare(b: bytes)
    requires b != []
    ensures Bare(HexBytes(b))
  {
    HexBytesDigits(b);
  }

  lemma TrimParts(parts: seq<string>, t: string)
    requires |parts| >= 1 && (forall i :: 0 <= i < |parts| ==> Bare(parts[i])) && t == Join(parts, '-')
    ensures Trim(t) == t
  {
    JoinEnds(parts, '-');
    var first, last := parts[0], parts[|parts| - 1];
    assert Bare(first) && Bare(last);
    assert t[0] == first[0] && t[|t| - 1] == last[|last| - 1];
    TrimNothing(t);
  }

  lemma StripDashed(f: bytes)
    requires |f| == 16
    ensures Keep(Dashed(f), NOT_DASH) == HexBytes(f) && Trim(Dashed(f)) == Dashed(f)
  {
    HexIsBare(f[..4]);
    HexIsBare(f[4..6]);
    HexIsBare(f[6..8]);
    HexIsBare(f[8..10]);
    HexIsBare(f[10..]);
    StripFive(HexBytes(f[..4]), HexBytes(f[4..6]), HexBytes(f[6..8]), HexBytes(f[8..10]), HexBytes(f[10..]));
    HexBytesOfSlices(f);
  }

  lemma StripFive(a: string, b: string, c: string, d: string, e: string)
    requires Bare(a) && Bare(b) && Bare(c) && Bare(d) && Bare(e)
    ensures var t := Join([a, b, c, d, e], '-');
            Keep(t, NOT_DASH) == a + b + c + d + e && Trim(t) == t
  {
    var parts := [a, b, c, d, e];
    TrimParts(parts, Join(parts, '-'));
    StripJoin(parts);
    ConcatFive(a, b, c, d, e);
  }

  /** Text and back is the identity on every sixteen-byte GUID. */
  lemma TextRoundTrip(b: bytes)
    requires |b| == 16
    ensures TextOf(b).Ok? && GuidOf(TextOf(b).value) == Ok(b)
  {
    TextIsDashed(b);
    StripDashed(Mixed(b));
    HexBytesDigits(Mixed(b));
  }

  lemma {:induction false} HexOfPairs(s: string)
    requires |s| % 2 == 0 && UnhexPairs(s).Ok?
    ensures HexBytes(UnhexPairs(s).value) == Lower(s)
  {
    if s != "" {
      HexOfPairs(s[2..]);
      HexOfPair(s[0], s[1], UnhexPairs(s).value[0]);
      assert s == [s[0], s[1]] + s[2..];
      LowerAppend([s[0], s[1]], s[2..]);
    }
  }

  lemma HexOfPair(a: char, b: char, v: nat)
    requires Unhex(a).Some? && Unhex(b).Some? && v == 16 * Unhex(a).value + Unhex(b).value
    ensures Hex(v, 2) == Lower([a, b])
  {
    var hi, lo := Unhex(a).value, Unhex(b).value;
    assert v / 16 == hi && v % 16 == lo;
    HexOfUnhex(a);
    HexOfUnhex(b);
    HexOfTwo(v, hi, lo);
  }

  lemma HexOfTwo(v: nat, hi: nat, lo: nat)
    requires hi < 16 && lo < 16 && v / 16 == hi && v % 16 == lo
    ensures Hex(v, 2) == [HexDigit(hi), HexDigit(lo)]
  {
    assert Hex(hi, 1) == Hex(hi / 16, 0) + [HexDigit(hi % 16)];
    assert hi / 16 == 0 && hi % 16 == hi;
    assert Hex(v, 2) == Hex(v / 16, 1) + [HexDigit(v % 16)];
    assert "" + [HexDigit(hi)] + [HexDigit(lo)] == [HexDigit(hi), HexDigit(lo)];
  }

  /** Back to text, any accepted spelling becomes the dashed lower-case one with the same digits. */
  lemma AcceptedSpellingIsNormalised(s: string)
    requires GuidOf(s).Ok?
    ensures |GuidOf(s).value| == 16
    ensures var text := TextOf(GuidOf(s).value);
            && text.Ok?
            && Keep(text.value, NOT_DASH) == Lower(Keep(Trim(s), NOT_DASH))
            && (exists flat: bytes :: |flat| == 16 && text.value == Dashed(flat))
  {
    var digits := Keep(Trim(s), NOT_DASH);
    var flat := UnhexPairs(digits).value;
    PairsLength(digits);
    HexOfPairs(digits);
    TextIsDashed(Mixed(flat));
    TextIsDashed(flat);
    StripDashed(flat);
  }

  /** The digits of the text in the order of the stored bytes: the first three groups turned round. */
  lemma TextDigits(b: bytes)
    requires |b| == 16
    ensures TextOf(b).Ok?
    ensures Keep(TextOf(b).value, NOT_DASH)
            == HexBytes([b[3], b[2], b[1], b[0], b[5], b[4], b[7], b[6],
                         b[8], b[9], b[10], b[11], b[12], b[13], b[14], b[15]])
  {
    TextIsDashed(b);
    StripDashed(Mixed(b));
    assert Mixed(b) == [b[3], b[2], b[1], b[0], b[5], b[4], b[7], b[6],
                        b[8], b[9], b[10], b[11], b[12], b[13], b[14], b[15]];
  }

  // ---- the zero GUID ----

  lemma {:induction false} HexOfZero(k: nat)
    ensures forall i :: 0 <= i < k ==> Hex(0, k)[i] == '0'
  {
    if k > 0 {
      HexOfZero(k - 1);
    }
  }

  lemma {:induction false} HexBytesOfZeros(b: bytes)
    requires forall i :: 0 <= i < |b| ==> b[i] == 0
    ensures |HexBytes(b)| == 2 * |b| && forall i :: 0 <= i < |HexBytes(b)| ==> HexBytes(b)[i] == '0'
  {
    if b != [] {
      HexOfZero(2);
      HexBytesOfZeros(b[1..]);
    }
  }

  lemma JoinFive(a: string, b: string, c: string, d: string, e: string)
    ensures Join([a, b, c, d, e], '-') == a + "-" + b + "-" + c + "-" + d + "-" + e
  {
    var p := [a, b, c, d];
    assert [a, b, c] + [d] == p && p + [e] == [a, b, c, d, e] && [a, b] + [c] == [a, b, c] && [a] + [b] == [a, b];
    JoinSnoc([a], b, '-');
    JoinSnoc([a, b], c, '-');
    JoinSnoc([a, b, c], d, '-');
    JoinSnoc(p, e, '-');
  }

  const ZERO_TEXT := "00000000-0000-0000-0000-000000000000"

  lemma ZeroGroups()
    ensures Hex(0, 8) == "00000000" && Hex(0, 4) == "0000"
  {
    HexOfZero(8);
    HexOfZero(4);
  }

  lemma ZeroTail(b: bytes)
    requires |b| == 6 && forall i :: 0 <= i < 6 ==> b[i] == 0
    ensures HexBytes(b) == "000000000000"
  {
    HexBytesOfZeros(b);
  }

  lemma ZeroText(z: bytes)
    requires |z| == 16 && forall i :: 0 <= i < 16 ==> z[i] == 0
    ensures TextOf(z) == Ok(ZERO_TEXT)
  {
    ZeroGroups();
    ZeroTail(z[10..16]);
    JoinFive("00000000", "0000", "0000", "0000", "000000000000");
    assert "00000000" + "-" + "0000" + "-" + "0000" + "-" + "0000" + "-" + "000000000000" == ZERO_TEXT;
  }

  /** Two GUIDs have one text only if they are the same. */
  lemma TextDecides(b: bytes, c: bytes)
    requires |b| == 16 && |c| == 16 && TextOf(b) == TextOf(c)
    ensures b == c
  {
    TextRoundTrip(b);
    TextRoundTrip(c);
  }

  lemma TextIsText(b: bytes)
    requires |b| == 16
    ensures TextOf(b).Ok? && TextOf(b).value != ""
  {
    TextRoundTrip(b);
    EmptyIsNoGuid();
  }

  /** Only the GUID of zeros has the text of zeros. */
  lemma ZeroTextExactly(b: bytes, z: bytes)
    requires |b| == 16 && |z| == 16 && forall i :: 0 <= i < 16 ==> z[i] == 0
    ensures TextOf(b) == Ok(ZERO_TEXT) <==> b == z
  {
    ZeroText(z);
    if TextOf(b) == Ok(ZERO_TEXT) {
      TextDecides(b, z);
    }
  }

  lemma EmptyIsNoGuid()
    ensures GuidOf("").Err?
  {
  }
}
