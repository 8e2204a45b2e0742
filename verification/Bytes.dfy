// Bytes, little-endian words and the bit operations the descriptor code uses.
module Bytes {

  type byte = b: int | 0 <= b < 0x100
  type word = w: int | 0 <= w < 0x1_0000
  type dword = d: int | 0 <= d < 0x1_0000_0000
  type bytes = seq<byte>

  /** PutUint16 after the conversion uint16(n), which drops the high bits. */
  function Le16(n: nat): (b: bytes)
    ensures |b| == 2
  {
    [n % 0x100, n / 0x100 % 0x100]
  }

  /** PutUint32 after the conversion uint32(n), which drops the high bits. */
  function Le32(n: nat): (b: bytes)
    ensures |b| == 4
  {
    [n % 0x100, n / 0x100 % 0x100, n / 0x1_0000 % 0x100, n / 0x100_0000 % 0x100]
  }

  function U16(b: bytes, at: nat): word
    requires at + 2 <= |b|
  {
    b[at] + 0x100 * (b[at + 1] as int)
  }

  function U32(b: bytes, at: nat): dword
    requires at + 4 <= |b|
  {
    b[at] + 0x100 * (b[at + 1] as int) + 0x1_0000 * (b[at + 2] as int) + 0x100_0000 * (b[at + 3] as int)
  }

  /** True when the single bit `bit` (a power of two) is set in `flags`. */
  predicate Has(flags: nat, bit: nat)
    requires bit > 0
  {
    flags / bit % 2 == 1
  }

  /** Bitwise conjunction, by the binary digits of its operands. */
  function And(a: nat, b: nat): nat {
    if a == 0 || b == 0 then 0
    else 2 * And(a / 2, b / 2) + (if a % 2 == 1 && b % 2 == 1 then 1 else 0)
  }

  lemma {:induction false} AndSelf(a: nat)
    ensures And(a, a) == a
  {
    if a > 0 {
      AndSelf(a / 2);
    }
  }

  lemma AndHalves(a: nat, b: nat)
    ensures And(a, b) / 2 == And(a / 2, b / 2)
    ensures And(a, b) % 2 == 1 <==> a % 2 == 1 && b % 2 == 1
  {
  }

  lemma AndEven(a: nat, b: nat)
    ensures And(a, 2 * b) == 2 * And(a / 2, b)
  {
  }

  lemma AndOne(a: nat)
    ensures And(a, 1) == a % 2
  {
  }

  /** The last base-256 digit of a number, and what is left of it. */
  lemma LastByte(n: nat, front: nat, d: byte)
    requires n == front * 0x100 + d
    ensures n / 0x100 == front && n % 0x100 == d
  {
  }

  lemma TwoDigits(n: nat, d0: byte, d1: byte, rest: nat)
    requires n == d0 + 0x100 * (d1 as int) + 0x1_0000 * rest
    ensures n % 0x1_0000 == d0 + 0x100 * (d1 as int)
  {
  }

  lemma SixteenBits(n: nat)
    ensures n % 0x100 + 0x100 * (n / 0x100 % 0x100) == n % 0x1_0000
  {
    var q := n / 0x100;
    TwoDigits(n, n % 0x100, q % 0x100, q / 0x100);
  }

  /** What Le16 wrote at an offset is what U16 reads there, cut to sixteen bits. */
  lemma Le16Reads(pre: bytes, n: nat, post: bytes)
    ensures U16(pre + Le16(n) + post, |pre|) == n % 0x1_0000
  {
    var b, v := pre + Le16(n) + post, Le16(n);
    assert b[|pre|] == v[0] && b[|pre| + 1] == v[1];
    SixteenBits(n);
  }

  lemma DivTwice(n: nat)
    ensures n / 0x1_0000 == n / 0x100 / 0x100 && n / 0x100_0000 == n / 0x100 / 0x100 / 0x100
  {
  }

  lemma FourDigits(n: nat, d0: byte, d1: byte, d2: byte, d3: byte, rest: nat)
    requires n == d0 + 0x100 * (d1 as int) + 0x1_0000 * (d2 as int) + 0x100_0000 * (d3 as int) + 0x1_0000_0000 * rest
    ensures n % 0x1_0000_0000 == d0 + 0x100 * (d1 as int) + 0x1_0000 * (d2 as int) + 0x100_0000 * (d3 as int)
  {
  }

  lemma Le32Value(n: nat)
    ensures U32(Le32(n), 0) == n % 0x1_0000_0000
  {
    var q1 := n / 0x100;
    var q2 := q1 / 0x100;
    var q3 := q2 / 0x100;
    DivTwice(n);
    FourDigits(n, n % 0x100, q1 % 0x100, q2 % 0x100, q3 % 0x100, q3 / 0x100);
  }

  /** What Le32 wrote at an offset is what U32 reads there, cut to thirty-two bits. */
  lemma Le32Reads(pre: bytes, n: nat, post: bytes)
    ensures U32(pre + Le32(n) + post, |pre|) == n % 0x1_0000_0000
  {
    var b := pre + Le32(n) + post;
    var v := Le32(n);
    assert b[|pre|] == v[0] && b[|pre| + 1] == v[1] && b[|pre| + 2] == v[2] && b[|pre| + 3] == v[3];
    Le32Value(n);
  }

  /** A word is determined by its two bytes, so re-encoding what was read changes nothing. */
  lemma Le16OfU16(b: bytes, at: nat)
    requires at + 2 <= |b|
    ensures Le16(U16(b, at)) == b[at..at + 2]
  {
  }

  lemma Le32Digits(n: nat, x: byte, y: byte, z: byte, w: byte)
    requires n == x + 0x100 * (y as int) + 0x1_0000 * (z as int) + 0x100_0000 * (w as int)
    ensures Le32(n) == [x, y, z, w]
  {
    LastByte(n, y + 0x100 * (z as int) + 0x1_0000 * (w as int), x);
    LastByte(n / 0x100, z + 0x100 * (w as int), y);
    LastByte(n / 0x100 / 0x100, w, z);
    DivTwice(n);
  }

  lemma Le32OfU32(b: bytes, at: nat)
    requires at + 4 <= |b|
    ensures Le32(U32(b, at)) == b[at..at + 4]
  {
    Le32Digits(U32(b, at), b[at], b[at + 1], b[at + 2], b[at + 3]);
    assert b[at..at + 4] == [b[at], b[at + 1], b[at + 2], b[at + 3]];
  }

  /** The number a big-endian byte string stands for. */
  function Fold(b: bytes): nat {
    if b == [] then 0 else 0x100 * Fold(b[..|b| - 1]) + b[|b| - 1] as int
  }

  /** k bytes of a number, most significant first. */
  function BigEndian(n: nat, k: nat): (b: bytes)
    ensures |b| == k
  {
    if k == 0 then [] else BigEndian(n / 0x100, k - 1) + [n % 0x100]
  }

  lemma {:induction false} BigEndianOfFold(b: bytes)
    ensures BigEndian(Fold(b), |b|) == b
  {
    if b != [] {
      var init, last: int := b[..|b| - 1], b[|b| - 1];
      BigEndianOfFold(init);
      assert Fold(b) / 0x100 == Fold(init) && Fold(b) % 0x100 == last;
    }
  }
}
