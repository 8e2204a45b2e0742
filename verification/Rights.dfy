// Access-right names of internal/secdesc/rights.go: the greedy rendering of a mask and the
// mask a list of names stands for. A 32-bit mask is handled as the set of its bit
// positions, so & is intersection, | union and &^ difference; WordOf and BitsOf relate the
// two views.
module Rights {
  import opened Wrappers
  import opened Bytes
  import opened Text

  type Mask = set<nat>

  datatype RightEntry = RightEntry(bits: Mask, name: string)

  /** Every name with the bits it sets, by value ascending; composites and single bits alike. */
  const TABLE: seq<RightEntry> := [
    RightEntry({0}, "CreateChild"),
    RightEntry({1}, "DeleteChild"),
    RightEntry({2}, "ListChildren"),
    RightEntry({3}, "Self"),
    RightEntry({4}, "ReadProperty"),
    RightEntry({5}, "WriteProperty"),
    RightEntry({6}, "DeleteTree"),
    RightEntry({7}, "ListObject"),
    RightEntry({8}, "ExtendedRight"),
    RightEntry({16}, "Delete"),
    RightEntry({17}, "ReadControl"),
    RightEntry({2, 17}, "GenericExecute"),  // 0x0002_0004
    RightEntry({3, 5, 17}, "GenericWrite"),  // 0x0002_0028
    RightEntry({2, 4, 7, 17}, "GenericRead"),  // 0x0002_0094
    RightEntry({18}, "WriteDacl"),
    RightEntry({19}, "WriteOwner"),
    RightEntry({0, 1, 2, 3, 4, 5, 6, 7, 8, 16, 17, 18, 19}, "GenericAll"),  // 0x000F_01FF
    RightEntry({20}, "Synchronize"),
    RightEntry({24}, "AccessSystemSecurity")]

  /** The bits that have a name: 0x011F_01FF. */
  const NAMED: Mask := {0, 1, 2, 3, 4, 5, 6, 7, 8, 16, 17, 18, 19, 20, 24}

  // ---- words and bits ----

  /** The set bits among the k low bits of n, the lowest of them at position base. */
  function BitsFrom(n: nat, base: nat, k: nat): (bits: Mask)
    ensures forall b :: b in bits ==> base <= b < base + k
    decreases k
  {
    if k == 0 then {}
    else BitsFrom(n / 2, base + 1, k - 1) + (if n % 2 == 1 then {base} else {})
  }

  function WordFrom(bits: Mask, base: nat, k: nat): nat
    decreases k
  {
    if k == 0 then 0 else (if base in bits then 1 else 0) + 2 * WordFrom(bits, base + 1, k - 1)
  }

  function Pow2(k: nat): (p: nat)
    ensures p > 0
  {
    if k == 0 then 1 else 2 * Pow2(k - 1)
  }

  function BitsOf(n: dword): Mask {
    BitsFrom(n, 0, 32)
  }

  function WordOf(bits: Mask): dword {
    WordBound(bits, 0, 32);
    Pow2Of32();
    WordFrom(bits, 0, 32)
  }

  lemma {:induction false} WordBound(bits: Mask, base: nat, k: nat)
    ensures WordFrom(bits, base, k) < Pow2(k)
    decreases k
  {
    if k > 0 {
      WordBound(bits, base + 1, k - 1);
    }
  }

  lemma Pow2Of32()
    ensures Pow2(32) == 0x1_0000_0000
  {
    assert Pow2(8) == 0x100;
    assert Pow2(16) == 0x1_0000;
    assert Pow2(24) == 0x100_0000;
  }

  lemma {:induction false} WordSame(a: Mask, b: Mask, base: nat, k: nat)
    requires forall i :: base <= i < base + k ==> (i in a <==> i in b)
    ensures WordFrom(a, base, k) == WordFrom(b, base, k)
    decreases k
  {
    if k > 0 {
      WordSame(a, b, base + 1, k - 1);
    }
  }

  lemma {:induction false} WordInvertsBits(n: nat, base: nat, k: nat)
    requires n < Pow2(k)
    ensures WordFrom(BitsFrom(n, base, k), base, k) == n
    decreases k
  {
    if k > 0 {
      WordInvertsBits(n / 2, base + 1, k - 1);
      WordSame(BitsFrom(n, base, k), BitsFrom(n / 2, base + 1, k - 1), base + 1, k - 1);
    }
  }

  lemma {:induction false} BitsInvertWord(bits: Mask, base: nat, k: nat)
    ensures BitsFrom(WordFrom(bits, base, k), base, k) == set b | b in bits && base <= b < base + k
    decreases k
  {
    if k > 0 {
      BitsInvertWord(bits, base + 1, k - 1);
      assert WordFrom(bits, base, k) / 2 == WordFrom(bits, base + 1, k - 1);
    }
  }

  /** A 32-bit word and its bit positions determine each other. */
  lemma WordsAndBits(n: dword, bits: Mask)
    requires forall b :: b in bits ==> b < 32
    ensures WordOf(BitsOf(n)) == n
    ensures BitsOf(WordOf(bits)) == bits
  {
    Pow2Of32();
    WordInvertsBits(n, 0, 32);
    BitsInvertWord(bits, 0, 32);
  }

  // ---- the table in words ----

  /** The masks of the table, entry by entry. */
  const WORDS: seq<dword> := [
    0x1, 0x2, 0x4, 0x8, 0x10, 0x20, 0x40, 0x80, 0x100, 0x1_0000, 0x2_0000, 0x2_0004, 0x2_0028, 0x2_0094,
    0x4_0000, 0x8_0000, 0xF_01FF, 0x10_0000, 0x100_0000]

  lemma {:induction false} WordOfMore(bits: Mask, b: nat, base: nat, k: nat)
    requires b !in bits && base <= b < base + k
    ensures WordFrom(bits + {b}, base, k) == WordFrom(bits, base, k) + Pow2(b - base)
    decreases k
  {
    if b == base {
      WordSame(bits + {b}, bits, base + 1, k - 1);
    } else {
      WordOfMore(bits, b, base + 1, k - 1);
    }
  }

  lemma {:induction false} WordOfNone(base: nat, k: nat)
    ensures WordFrom({}, base, k) == 0
    decreases k
  {
    if k > 0 {
      WordOfNone(base + 1, k - 1);
    }
  }

  lemma OneBitWord(b: nat)
    requires b < 32
    ensures WordOf({b}) == Pow2(b)
  {
    WordOfMore({}, b, 0, 32);
    WordOfNone(0, 32);
    assert {} + {b} == {b};
  }

  /** Bits added to others, one at a time. */
  lemma WordWith(bits: Mask, b: nat, more: Mask)
    requires b !in bits && b < 32 && more == bits + {b}
    ensures WordOf(more) == WordOf(bits) + Pow2(b)
  {
    WordOfMore(bits, b, 0, 32);
  }

  lemma SmallPowers()
    ensures Pow2(0) == 0x1 && Pow2(1) == 0x2 && Pow2(2) == 0x4 && Pow2(3) == 0x8 && Pow2(4) == 0x10
    ensures Pow2(5) == 0x20 && Pow2(6) == 0x40 && Pow2(7) == 0x80 && Pow2(8) == 0x100
  {
  }

  lemma LargePowers()
    ensures Pow2(16) == 0x1_0000 && Pow2(17) == 0x2_0000 && Pow2(18) == 0x4_0000 && Pow2(19) == 0x8_0000
    ensures Pow2(20) == 0x10_0000 && Pow2(24) == 0x100_0000
  {
    assert Pow2(8) == 0x100;
    assert Pow2(12) == 0x1000;
  }

  lemma GenericExecuteWord()
    ensures WordOf({2, 17}) == 0x2_0004
  {
    SmallPowers();
    LargePowers();
    OneBitWord(2);
    WordWith({2}, 17, {2, 17});
  }

  lemma GenericWriteWord()
    ensures WordOf({3, 5, 17}) == 0x2_0028
  {
    SmallPowers();
    LargePowers();
    OneBitWord(3);
    WordWith({3}, 5, {3, 5});
    WordWith({3, 5}, 17, {3, 5, 17});
  }

  lemma GenericReadWord()
    ensures WordOf({2, 4, 7, 17}) == 0x2_0094
  {
    SmallPowers();
    LargePowers();
    OneBitWord(2);
    WordWith({2}, 4, {2, 4});
    WordWith({2, 4}, 7, {2, 4, 7});
    WordWith({2, 4, 7}, 17, {2, 4, 7, 17});
  }

  lemma LowBitsWord()
    ensures WordOf({0, 1, 2, 3, 4, 5, 6, 7, 8}) == 0x1FF
  {
    SmallPowers();
    OneBitWord(0);
    WordWith({0}, 1, {0, 1});
    WordWith({0, 1}, 2, {0, 1, 2});
    WordWith({0, 1, 2}, 3, {0, 1, 2, 3});
    WordWith({0, 1, 2, 3}, 4, {0, 1, 2, 3, 4});
    WordWith({0, 1, 2, 3, 4}, 5, {0, 1, 2, 3, 4, 5});
    WordWith({0, 1, 2, 3, 4, 5}, 6, {0, 1, 2, 3, 4, 5, 6});
    WordWith({0, 1, 2, 3, 4, 5, 6}, 7, {0, 1, 2, 3, 4, 5, 6, 7});
    WordWith({0, 1, 2, 3, 4, 5, 6, 7}, 8, {0, 1, 2, 3, 4, 5, 6, 7, 8});
  }

  lemma HighBitsWord(low: Mask)
    requires forall b :: b in low ==> b < 16
    ensures WordOf(low + {16} + {17} + {18} + {19}) == WordOf(low) + 0xF_0000
  {
    LargePowers();
    WordWith(low, 16, low + {16});
    WordWith(low + {16}, 17, low + {16} + {17});
    WordWith(low + {16} + {17}, 18, low + {16} + {17} + {18});
    WordWith(low + {16} + {17} + {18}, 19, low + {16} + {17} + {18} + {19});
  }

  lemma GenericAllWord()
    ensures WordOf({0, 1, 2, 3, 4, 5, 6, 7, 8, 16, 17, 18, 19}) == 0xF_01FF
  {
    LowBitsWord();
    var low := {0, 1, 2, 3, 4, 5, 6, 7, 8};
    HighBitsWord(low);
    assert low + {16} + {17} + {18} + {19} == {0, 1, 2, 3, 4, 5, 6, 7, 8, 16, 17, 18, 19};
  }

  lemma SingleWord(i: nat, b: nat)
    requires i < |TABLE| && b < 32 && TABLE[i].bits == {b} && WORDS[i] == Pow2(b)
    ensures WordOf(TABLE[i].bits) == WORDS[i]
  {
    OneBitWord(b);
  }

  /** The table's bits are the masks of its entries. */
  lemma TableWords(i: nat)
    requires i < |TABLE|
    ensures |WORDS| == |TABLE| && WordOf(TABLE[i].bits) == WORDS[i]
  {
    if i <= 10 {
      LowWords(i);
    } else if i <= 13 {
      GenericExecuteWord();
      GenericWriteWord();
      GenericReadWord();
    } else {
      HighWords(i);
    }
  }

  lemma LowWords(i: nat)
    requires i <= 10
    ensures WordOf(TABLE[i].bits) == WORDS[i]
  {
    SmallPowers();
    LargePowers();
    SingleWord(i, if i <= 8 then i else i + 7);
  }

  lemma HighWords(i: nat)
    requires 14 <= i < |TABLE|
    ensures WordOf(TABLE[i].bits) == WORDS[i]
  {
    LargePowers();
    match i
    case 14 => OneBitWord(18);
    case 15 => OneBitWord(19);
    case 16 => GenericAllWord();
    case 17 => OneBitWord(20);
    case _ => OneBitWord(24);
  }

  lemma WordsAscend(i: nat, j: nat)
    requires i < j < |WORDS|
    ensures WORDS[i] < WORDS[j]
  {
  }

  /** The table is ordered by value, as the walk from the largest needs. */
  lemma TableAscends(i: nat, j: nat)
    requires i < j < |TABLE|
    ensures WordOf(TABLE[i].bits) < WordOf(TABLE[j].bits)
  {
    TableWords(i);
    TableWords(j);
    WordsAscend(i, j);
  }

  // ---- names to mask ----

  /** The first table entry whose lower-cased name is the key. */
  function Lookup(table: seq<RightEntry>, key: string, from: nat): (i: nat)
    requires from <= |table|
    ensures from <= i <= |table|
    ensures forall j :: from <= j < i ==> Lower(table[j].name) != key
    ensures i < |table| ==> Lower(table[i].name) == key
    decreases |table| - from
  {
    if from == |table| || Lower(table[from].name) == key then from else Lookup(table, key, from + 1)
  }

  function KeyOf(name: string): string {
    Lower(Trim(name))
  }

  datatype RightsError = UnknownRight(name: string)

  function MaskIn(table: seq<RightEntry>, names: seq<string>): Result<Mask, RightsError> {
    if names == [] then Ok({})
    else
      var init :- MaskIn(table, names[..|names| - 1]);
      var name := names[|names| - 1];
      var i := Lookup(table, KeyOf(name), 0);
      if i == |table| then Err(UnknownRight(name)) else Ok(init + table[i].bits)
  }

  function MaskOf(names: seq<string>): Result<Mask, RightsError> {
    MaskIn(TABLE, names)
  }

  /** The two loops of RightsMask, over any table. */
  method FoldNames(table: seq<RightEntry>, names: seq<string>) returns (r: Result<Mask, RightsError>)
    ensures r == MaskIn(table, names)
  {
    var mask: Mask := {};
    for n := 0 to |names|
      invariant MaskIn(table, names[..n]) == Ok(mask)
    {
      assert names[..n + 1][..n] == names[..n];
      var i := 0;
      while i < |table| && Lower(table[i].name) != KeyOf(names[n])
        invariant i <= |table|
        invariant Lookup(table, KeyOf(names[n]), 0) == Lookup(table, KeyOf(names[n]), i)
      {
        i := i + 1;
      }
      if i == |table| {
        ErrorSticks(table, names, n + 1);
        return Err(UnknownRight(names[n]));
      }
      mask := mask + table[i].bits;
    }
    assert names[..|names|] == names;
    return Ok(mask);
  }

  method RightsMask(names: seq<string>) returns (r: Result<Mask, RightsError>)
    ensures r == MaskOf(names)
  {
    r := FoldNames(TABLE, names);
  }

  lemma {:induction false} ErrorSticks(table: seq<RightEntry>, names: seq<string>, n: nat)
    requires n <= |names| && MaskIn(table, names[..n]).Err?
    ensures MaskIn(table, names) == MaskIn(table, names[..n])
    decreases |names|
  {
    if n == |names| {
      assert names[..n] == names;
    } else {
      var init := names[..|names| - 1];
      assert init[..n] == names[..n];
      ErrorSticks(table, init, n);
    }
  }

  // ---- mask to names ----

  /** No entry is empty. */
  predicate Proper(table: seq<RightEntry>) {
    forall i :: 0 <= i < |table| ==> table[i].bits != {}
  }

  /** The bits left once every entry from i upward has been offered, largest first. */
  function Remaining(table: seq<RightEntry>, mask: Mask, i: nat): Mask
    requires i <= |table|
    decreases |table| - i
  {
    if i == |table| then mask
    else
      var r := Remaining(table, mask, i + 1);
      if table[i].bits <= r then r - table[i].bits else r
  }

  predicate Taken(table: seq<RightEntry>, mask: Mask, i: nat)
    requires i < |table|
  {
    table[i].bits <= Remaining(table, mask, i + 1)
  }

  /** The names taken below index n, in table order. */
  function NamesBelow(table: seq<RightEntry>, mask: Mask, n: nat): seq<string>
    requires n <= |table|
  {
    if n == 0 then []
    else NamesBelow(table, mask, n - 1) + (if Taken(table, mask, n - 1) then [table[n - 1].name] else [])
  }

  function NamesOf(mask: Mask): seq<string> {
    NamesBelow(TABLE, mask, |TABLE|)
  }

  /** The two loops of RightsNames, over any table. */
  method GreedyNames(table: seq<RightEntry>, mask: Mask) returns (out: seq<string>)
    requires Proper(table)
    ensures out == NamesBelow(table, mask, |table|)
  {
    var taken := new bool[|table|](_ => false);
    var remaining := mask;
    var i := |table|;
    while i > 0
      invariant 0 <= i <= |table| == taken.Length
      invariant remaining == Remaining(table, mask, i)
      invariant forall j :: 0 <= j < i ==> !taken[j]
      invariant forall j :: i <= j < |table| ==> taken[j] == Taken(table, mask, j)
    {
      i := i - 1;
      var bits := table[i].bits;
      if bits != {} && bits <= remaining {
        taken[i] := true;
        remaining := remaining - bits;
      }
    }
    out := [];
    for j := 0 to |table|
      invariant out == NamesBelow(table, mask, j)
    {
      if taken[j] {
        out := out + [table[j].name];
      }
    }
  }

  method RightsNames(mask: Mask) returns (out: seq<string>)
    ensures out == NamesOf(mask)
  {
    TableProper();
    out := GreedyNames(TABLE, mask);
  }

  lemma TableProper()
    ensures Proper(TABLE)
  {
  }

  // ---- the greedy walk over any table ----

  /** The bits of the entries taken below n. */
  function TakenBits(table: seq<RightEntry>, mask: Mask, n: nat): Mask
    requires n <= |table|
  {
    if n == 0 then {}
    else TakenBits(table, mask, n - 1) + (if Taken(table, mask, n - 1) then table[n - 1].bits else {})
  }

  /** Taken bits leave the mask and nothing else does. */
  lemma {:induction false} TakenBitsAre(table: seq<RightEntry>, mask: Mask, n: nat)
    requires n <= |table|
    ensures Remaining(table, mask, n) == Remaining(table, mask, 0) + TakenBits(table, mask, n)
    ensures Remaining(table, mask, 0) !! TakenBits(table, mask, n)
  {
    if n > 0 {
      TakenBitsAre(table, mask, n - 1);
    }
  }

  lemma {:induction false} RemainingShrinks(table: seq<RightEntry>, mask: Mask, i: nat, j: nat)
    requires i <= j <= |table|
    ensures Remaining(table, mask, i) <= Remaining(table, mask, j)
    decreases j - i
  {
    if i < j {
      RemainingShrinks(table, mask, i + 1, j);
    }
  }

  /** Nothing that could still be taken is left. */
  lemma NothingLeft(table: seq<RightEntry>, mask: Mask, i: nat)
    requires Proper(table) && i < |table|
    ensures !(table[i].bits <= Remaining(table, mask, 0))
  {
    RemainingShrinks(table, mask, 0, i);
    var b :| b in table[i].bits;
    assert Taken(table, mask, i) ==> b !in Remaining(table, mask, i);
  }

  lemma {:induction false} RemainingIs(table: seq<RightEntry>, mask: Mask, n: nat, bits: Mask)
    requires n <= |table|
    ensures bits <= Remaining(table, mask, n)
            <==> bits <= mask && forall j :: n <= j < |table| && Taken(table, mask, j) ==> bits !! table[j].bits
    decreases |table| - n
  {
    if n < |table| {
      RemainingIs(table, mask, n + 1, bits);
    }
  }

  /** An entry is taken exactly when the mask holds all its bits and no larger taken entry uses one of them. */
  lemma TakenExactly(table: seq<RightEntry>, mask: Mask, i: nat)
    requires i < |table|
    ensures Taken(table, mask, i)
            <==> table[i].bits <= mask
                 && forall j :: i + 1 <= j < |table| && Taken(table, mask, j) ==> table[i].bits !! table[j].bits
  {
    RemainingIs(table, mask, i + 1, table[i].bits);
  }

  /** Two taken entries never share a bit. */
  lemma TakenDisjoint(table: seq<RightEntry>, mask: Mask, i: nat, j: nat)
    requires i < j < |table| && Taken(table, mask, i) && Taken(table, mask, j)
    ensures table[i].bits !! table[j].bits
  {
    TakenExactly(table, mask, i);
  }

  /** Bits no entry mentions play no part in the walk. */
  lemma {:induction false} WalkIgnoresOthers(table: seq<RightEntry>, mask: Mask, within: Mask, i: nat)
    requires i <= |table|
    requires forall k :: 0 <= k < |table| ==> table[k].bits <= within
    ensures Remaining(table, mask * within, i) == Remaining(table, mask, i) * within
    decreases |table| - i
  {
    if i < |table| {
      WalkIgnoresOthers(table, mask, within, i + 1);
    }
  }

  lemma {:induction false} SameNames(table: seq<RightEntry>, mask: Mask, within: Mask, n: nat)
    requires n <= |table|
    requires forall k :: 0 <= k < |table| ==> table[k].bits <= within
    ensures NamesBelow(table, mask * within, n) == NamesBelow(table, mask, n)
  {
    if n > 0 {
      SameNames(table, mask, within, n - 1);
      WalkIgnoresOthers(table, mask, within, n);
    }
  }

  lemma {:induction false} TakenWithin(table: seq<RightEntry>, mask: Mask, within: Mask, n: nat)
    requires n <= |table|
    requires forall k :: 0 <= k < |table| ==> table[k].bits <= within
    ensures TakenBits(table, mask, n) <= within
  {
    if n > 0 {
      TakenWithin(table, mask, within, n - 1);
    }
  }

  /** Every name leads back to its own entry. */
  predicate Findable(table: seq<RightEntry>) {
    forall i :: 0 <= i < |table| ==> Finds(table, i)
  }

  predicate Finds(table: seq<RightEntry>, i: nat)
    requires i < |table|
  {
    Lookup(table, KeyOf(table[i].name), 0) == i
  }

  /** A mask from which nothing can be taken has no bit of `within`. */
  ghost predicate Covers(table: seq<RightEntry>, within: Mask) {
    forall r: Mask :: NothingTakable(table, r) ==> r !! within
  }

  predicate NothingTakable(table: seq<RightEntry>, r: Mask) {
    forall i :: 0 <= i < |table| ==> !(table[i].bits <= r)
  }

  lemma MaskSnoc(table: seq<RightEntry>, names: seq<string>, i: nat, m: Mask)
    requires i < |table| && Findable(table) && MaskIn(table, names) == Ok(m)
    ensures MaskIn(table, names + [table[i].name]) == Ok(m + table[i].bits)
  {
    var all := names + [table[i].name];
    assert all[..|all| - 1] == names && Finds(table, i);
  }

  /** One index further, the names and the taken bits grow together or not at all. */
  lemma TakenStep(table: seq<RightEntry>, mask: Mask, n: nat)
    requires n < |table|
    ensures Taken(table, mask, n) ==>
              && NamesBelow(table, mask, n + 1) == NamesBelow(table, mask, n) + [table[n].name]
              && TakenBits(table, mask, n + 1) == TakenBits(table, mask, n) + table[n].bits
    ensures !Taken(table, mask, n) ==>
              && NamesBelow(table, mask, n + 1) == NamesBelow(table, mask, n)
              && TakenBits(table, mask, n + 1) == TakenBits(table, mask, n)
  {
    assert NamesBelow(table, mask, n) + [] == NamesBelow(table, mask, n);
    assert TakenBits(table, mask, n) + {} == TakenBits(table, mask, n);
  }

  lemma MaskOfNext(table: seq<RightEntry>, n: nat, taken: bool, fewer: seq<string>, less: Mask, names: seq<string>, bits: Mask)
    requires n < |table| && Findable(table) && MaskIn(table, fewer) == Ok(less)
    requires taken ==> names == fewer + [table[n].name] && bits == less + table[n].bits
    requires !taken ==> names == fewer && bits == less
    ensures MaskIn(table, names) == Ok(bits)
  {
    if taken {
      MaskSnoc(table, fewer, n, less);
    }
  }

  lemma {:induction false} MaskOfNames(table: seq<RightEntry>, mask: Mask, n: nat)
    requires n <= |table| && Findable(table)
    ensures MaskIn(table, NamesBelow(table, mask, n)) == Ok(TakenBits(table, mask, n))
    decreases n
  {
    if n > 0 {
      MaskOfNames(table, mask, n - 1);
      TakenStep(table, mask, n - 1);
      MaskOfNext(table, n - 1, Taken(table, mask, n - 1), NamesBelow(table, mask, n - 1), TakenBits(table, mask, n - 1),
                 NamesBelow(table, mask, n), TakenBits(table, mask, n));
    }
  }

  lemma NamesKeepMaskIn(table: seq<RightEntry>, mask: Mask, within: Mask)
    requires Proper(table) && Findable(table) && Covers(table, within)
    requires forall k :: 0 <= k < |table| ==> table[k].bits <= within
    ensures MaskIn(table, NamesBelow(table, mask, |table|)) == Ok(mask * within)
  {
    var n := |table|;
    MaskOfNames(table, mask, n);
    TakenBitsAre(table, mask, n);
    forall i | 0 <= i < n ensures !(table[i].bits <= Remaining(table, mask, 0)) {
      NothingLeft(table, mask, i);
    }
    assert NothingTakable(table, Remaining(table, mask, 0));
    TakenWithin(table, mask, within, n);
    assert TakenBits(table, mask, n) == mask * within;
  }

  // ---- this table ----

  lemma TableNamed(i: nat)
    requires i < |TABLE|
    ensures TABLE[i].bits <= NAMED
  {
  }

  /** Every named bit has an entry of its own. */
  lemma TableCovers(r: Mask)
    requires NothingTakable(TABLE, r)
    ensures r !! NAMED
  {
    assert !(TABLE[0].bits <= r) && !(TABLE[1].bits <= r) && !(TABLE[2].bits <= r) && !(TABLE[3].bits <= r);
    assert !(TABLE[4].bits <= r) && !(TABLE[5].bits <= r) && !(TABLE[6].bits <= r) && !(TABLE[7].bits <= r);
    assert !(TABLE[8].bits <= r) && !(TABLE[9].bits <= r) && !(TABLE[10].bits <= r) && !(TABLE[14].bits <= r);
    assert !(TABLE[15].bits <= r) && !(TABLE[17].bits <= r) && !(TABLE[18].bits <= r);
  }

  /** No two names agree on length and first letter, so none can be mistaken for another. */
  lemma NamesApart(i: nat, j: nat)
    requires i < |TABLE| && j < |TABLE| && i != j
    ensures Lower(TABLE[i].name) != Lower(TABLE[j].name)
  {
    DifferentNames(TABLE[i].name, TABLE[j].name);
  }

  lemma DifferentNames(a: string, b: string)
    requires a != "" && b != "" && (|a| != |b| || LowerChar(a[0]) != LowerChar(b[0]))
    ensures Lower(a) != Lower(b)
  {
    assert |Lower(a)| == |a| && |Lower(b)| == |b|;
    assert Lower(a)[0] == LowerChar(a[0]) && Lower(b)[0] == LowerChar(b[0]);
  }

  lemma NameIsTrimmed(i: nat)
    requires i < |TABLE|
    ensures Trim(TABLE[i].name) == TABLE[i].name
  {
    assert TABLE[i].name != "";
    assert !IsSpace(TABLE[i].name[0]) && !IsSpace(TABLE[i].name[|TABLE[i].name| - 1]);
    TrimNothing(TABLE[i].name);
  }

  lemma TableFindable()
    ensures Findable(TABLE)
  {
    forall i | 0 <= i < |TABLE| ensures Finds(TABLE, i) {
      NameIsTrimmed(i);
      var k := Lookup(TABLE, KeyOf(TABLE[i].name), 0);
      if k != i && k < |TABLE| {
        NamesApart(i, k);
      }
    }
  }

  lemma TableFacts()
    ensures Proper(TABLE) && Findable(TABLE) && Covers(TABLE, NAMED)
    ensures forall k :: 0 <= k < |TABLE| ==> TABLE[k].bits <= NAMED
  {
    TableProper();
    TableFindable();
    forall r: Mask | NothingTakable(TABLE, r) ensures r !! NAMED {
      TableCovers(r);
    }
    forall k | 0 <= k < |TABLE| ensures TABLE[k].bits <= NAMED {
      TableNamed(k);
    }
  }

  /** The names of any mask stand for exactly its named bits. */
  lemma NamesKeepTheMask(mask: Mask)
    ensures MaskOf(NamesOf(mask)) == Ok(mask * NAMED)
  {
    TableFacts();
    NamesKeepMaskIn(TABLE, mask, NAMED);
  }

  /** Rendering is stable: the names of the mask of the names are the same names. */
  lemma RenderingIsStable(mask: Mask)
    ensures MaskOf(NamesOf(mask)).Ok? && NamesOf(MaskOf(NamesOf(mask)).value) == NamesOf(mask)
  {
    NamesKeepTheMask(mask);
    TableFacts();
    SameNames(TABLE, mask, NAMED, |TABLE|);
  }

  // ---- the same in terms of words ----

  lemma {:induction false} AndBelow(a: nat, b: nat)
    ensures And(a, b) <= a
  {
    if a > 0 && b > 0 {
      AndBelow(a / 2, b / 2);
    }
  }

  lemma {:induction false} BitsOfAnd(a: nat, b: nat, base: nat, k: nat)
    ensures BitsFrom(And(a, b), base, k) == BitsFrom(a, base, k) * BitsFrom(b, base, k)
    decreases k
  {
    if k > 0 {
      AndHalves(a, b);
      BitsOfAnd(a / 2, b / 2, base + 1, k - 1);
    }
  }

  lemma NamedWord()
    ensures BitsFrom(0x011F_01FF, 0, 32) == NAMED
  {
    NoBits(25, 7);
    assert BitsFrom(0x1, 24, 8) == {24};
    assert BitsFrom(0x11, 20, 12) == {20, 24};
    assert BitsFrom(0x11F, 16, 16) == {16, 17, 18, 19, 20, 24};
    assert BitsFrom(0x11F0, 12, 20) == {16, 17, 18, 19, 20, 24};
    assert BitsFrom(0x11F01, 8, 24) == {8, 16, 17, 18, 19, 20, 24};
    assert BitsFrom(0x11F01F, 4, 28) == {4, 5, 6, 7, 8, 16, 17, 18, 19, 20, 24};
  }

  lemma {:induction false} NoBits(base: nat, k: nat)
    ensures BitsFrom(0, base, k) == {}
    decreases k
  {
    if k > 0 {
      NoBits(base + 1, k - 1);
    }
  }

  /** For every 32-bit mask, the mask of its names is the mask and 0x011F01FF. */
  lemma NamesKeepTheWord(n: dword)
    ensures MaskOf(NamesOf(BitsOf(n))).Ok?
    ensures WordOf(MaskOf(NamesOf(BitsOf(n))).value) == And(n, 0x011F_01FF)
  {
    NamesKeepTheMask(BitsOf(n));
    NamedWord();
    MaskedWord(n, 0x011F_01FF, NAMED);
  }

  lemma MaskedWord(n: dword, w: dword, bits: Mask)
    requires BitsFrom(w, 0, 32) == bits
    ensures WordOf(BitsOf(n) * bits) == And(n, w)
  {
    BitsOfAnd(n, w, 0, 32);
    AndBelow(n, w);
    WordsAndBits(And(n, w), {});
  }

  // ---- what a list of names stands for ----

  /** The names, in the order of their masks in WORDS. */
  const NAMES: seq<string> := [
    "CreateChild", "DeleteChild", "ListChildren", "Self", "ReadProperty", "WriteProperty", "DeleteTree", "ListObject",
    "ExtendedRight", "Delete", "ReadControl", "GenericExecute", "GenericWrite", "GenericRead", "WriteDacl", "WriteOwner",
    "GenericAll", "Synchronize", "AccessSystemSecurity"]

  lemma TableNames(i: nat)
    requires i < |TABLE|
    ensures |NAMES| == |TABLE| && TABLE[i].name == NAMES[i]
  {
  }

  /** The spelling is of the i-th name: in any case, with any space around it. */
  predicate Spells(s: string, i: nat)
    requires i < |NAMES|
  {
    Lower(Trim(s)) == Lower(NAMES[i])
  }

  lemma LookupSpelling(s: string, i: nat)
    requires i < |NAMES| && Spells(s, i)
    ensures Lookup(TABLE, KeyOf(s), 0) == i
  {
    TableNames(i);
    TableFindable();
    assert Finds(TABLE, i);
    NameIsTrimmed(i);
  }

  lemma LookupUnknown(s: string)
    ensures Lookup(TABLE, KeyOf(s), 0) == |TABLE| <==> forall i :: 0 <= i < |NAMES| ==> !Spells(s, i)
  {
    if i :| 0 <= i < |NAMES| && Spells(s, i) {
      LookupSpelling(s, i);
      TableNames(i);
    }
    var k := Lookup(TABLE, KeyOf(s), 0);
    if k < |TABLE| {
      TableNames(k);
      assert Spells(s, k);
    }
  }

  predicate Known(s: string) {
    exists i :: 0 <= i < |NAMES| && Spells(s, i)
  }

  predicate AllKnown(names: seq<string>) {
    forall k :: 0 <= k < |names| ==> Known(names[k])
  }

  /** The bits of the entry the name spells. */
  function BitsNamed(s: string): Mask {
    set i, b | 0 <= i < |NAMES| && Spells(s, i) && b in TABLE[i].bits :: b
  }

  function BitsOfAll(names: seq<string>): Mask {
    if names == [] then {} else BitsOfAll(names[..|names| - 1]) + BitsNamed(names[|names| - 1])
  }

  /** The mask of a list is there exactly when every name is known in some spelling, and has the bits of all of them. */
  lemma {:induction false} MaskExactly(names: seq<string>)
    ensures MaskOf(names).Ok? <==> AllKnown(names)
    ensures AllKnown(names) ==> MaskOf(names) == Ok(BitsOfAll(names))
  {
    if names != [] {
      var init, last := names[..|names| - 1], names[|names| - 1];
      MaskExactly(init);
      NamedIsLookedUp(last);
      MaskSnocIs(names, init, last);
      LastKnown(names, init, last);
    }
  }

  lemma NamedIsLookedUp(s: string)
    ensures Lookup(TABLE, KeyOf(s), 0) < |TABLE| <==> Known(s)
    ensures Known(s) ==> BitsNamed(s) == TABLE[Lookup(TABLE, KeyOf(s), 0)].bits
  {
    LookupUnknown(s);
    TableNames(0);
    var k := Lookup(TABLE, KeyOf(s), 0);
    if k < |TABLE| {
      TableNames(k);
      assert Spells(s, k);
      forall i | 0 <= i < |NAMES| && Spells(s, i) ensures i == k {
        LookupSpelling(s, i);
      }
    }
  }

  lemma MaskSnocIs(names: seq<string>, init: seq<string>, last: string)
    requires names != [] && init == names[..|names| - 1] && last == names[|names| - 1]
    ensures var k := Lookup(TABLE, KeyOf(last), 0);
            MaskOf(names) == if MaskOf(init).Err? then MaskOf(init)
                             else if k == |TABLE| then Err(UnknownRight(last))
                             else Ok(MaskOf(init).value + TABLE[k].bits)
  {
  }

  lemma LastKnown(names: seq<string>, init: seq<string>, last: string)
    requires names != [] && init == names[..|names| - 1] && last == names[|names| - 1]
    ensures AllKnown(names) <==> AllKnown(init) && Known(last)
  {
    assert forall k :: 0 <= k < |init| ==> names[k] == init[k];
  }
}
