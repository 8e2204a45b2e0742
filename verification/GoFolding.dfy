// The lookup by GUID of search.go under the folding of strings.EqualFold and strings.ToLower: any table of
// simple folds and lower cases, applied to the runes that Go reads.
module GoFolding {
  import opened Wrappers
  import opened Bytes
  import opened Text
  import opened Wildcard
  import opened Filter
  import opened Exactness
  import opened Utf8

  type RuneMap = Scalar -> Scalar

  function Mapped(rs: seq<Scalar>, f: RuneMap): (r: seq<Scalar>)
    ensures |r| == |rs|
  {
    seq(|rs|, i requires 0 <= i < |rs| => f(rs[i]))
  }

  function EncodeAll(rs: seq<Scalar>): string {
    if rs == [] then "" else Encode(rs[0]) + EncodeAll(rs[1..])
  }

  function ToLower(s: string, lower: RuneMap): string {
    EncodeAll(Mapped(Runes(s), lower))
  }

  /** Fold sends each rune to one of those it is the same as in another case. */
  function Go(fold: RuneMap, lower: RuneMap): Folding {
    Folding((a, b) => Mapped(Runes(a), fold) == Mapped(Runes(b), fold), s => ToLower(s, lower))
  }

  const STAR: Scalar := '*' as int

  lemma GoEquates(fold: RuneMap, lower: RuneMap)
    ensures Equates(Go(fold, lower))
  {
  }

  lemma {:induction false} EncodeAppend(a: seq<Scalar>, b: seq<Scalar>)
    ensures EncodeAll(a + b) == EncodeAll(a) + EncodeAll(b)
  {
    if a == [] {
      assert a + b == b;
    } else {
      assert (a + b)[1..] == a[1..] + b;
      EncodeAppend(a[1..], b);
    }
  }

  lemma MappedAppend(a: seq<Scalar>, b: seq<Scalar>, f: RuneMap)
    ensures Mapped(a + b, f) == Mapped(a, f) + Mapped(b, f)
  {
  }

  /** Lower-casing goes on from either side of an ASCII character. */
  lemma LowerAround(p: string, c: char, q: string, lower: RuneMap)
    requires (c as int) < 0x80
    ensures ToLower(p + [c] + q, lower) == ToLower(p, lower) + Encode(lower(c as int)) + ToLower(q, lower)
  {
    var x: seq<Scalar> := [c as int];
    RunesAround(p, c, q);
    MappedAppend(Runes(p) + x, Runes(q), lower);
    MappedAppend(Runes(p), x, lower);
    EncodeAppend(Mapped(Runes(p), lower) + Mapped(x, lower), Mapped(Runes(q), lower));
    EncodeAppend(Mapped(Runes(p), lower), Mapped(x, lower));
    assert Mapped(x, lower) == [lower(c as int)];
    assert EncodeAll([lower(c as int)]) == Encode(lower(c as int)) + EncodeAll([]);
  }

  lemma StarAround(s: string) returns (p: string, q: string)
    requires Find(s, '*') < |s|
    ensures s == p + ['*'] + q && p == s[..Find(s, '*')]
  {
    var i := Find(s, '*');
    p, q := s[..i], s[i + 1..];
  }

  /** So wildcards are kept, as the substring matcher needs. */
  lemma GoKeepsStars(fold: RuneMap, lower: RuneMap)
    requires lower(STAR) == STAR
    ensures KeepsStars(Go(fold, lower))
  {
    forall s: string | Find(s, '*') < |s|
      ensures Find(ToLower(s, lower), '*') < |ToLower(s, lower)|
    {
      var p, q := StarAround(s);
      LowerAround(p, '*', q, lower);
      assert ToLower(s, lower)[|ToLower(p, lower)|] == '*';
      FindClean(ToLower(s, lower), '*');
    }
  }

  // ---- a star among the bytes ----

  lemma {:induction false} GlobAfter(a: string, p: string, t: string)
    requires Glob(p, t)
    ensures Glob(a + p, a + t)
  {
    if a == "" {
      assert a + p == p && a + t == t;
    } else {
      GlobAfter(a[1..], p, t);
      assert (a + p)[1..] == a[1..] + p && (a + t)[1..] == a[1..] + t;
      if a[0] == '*' {
        StarOne(a + p, a + t);
      }
    }
  }

  /** A star takes any text between the same ends. */
  lemma GlobAround(a: string, x: string, b: string)
    ensures Glob(a + "*" + b, a + x + b)
  {
    var p, t := "*" + b, x + b;
    assert p[1..] == b && t[|x|..] == b;
    GlobItself(b);
    StarDrops(p, t, |x|);
    GlobAfter(a, p, t);
    assert a + p == a + "*" + b && a + t == a + x + b;
  }

  lemma CharsUpdated(b: bytes, i: nat, x: byte)
    requires i < |b|
    ensures Chars(b) == Chars(b)[..i] + [b[i] as char] + Chars(b)[i + 1..]
    ensures Chars(b[i := x]) == Chars(b)[..i] + [x as char] + Chars(b)[i + 1..]
  {
  }

  lemma StarIsMistaken(b: bytes, i: nat, fold: RuneMap, lower: RuneMap) returns (other: bytes)
    requires i < |b| && b[i] == '*' as int && lower(STAR) == STAR
    ensures |other| == |b| && Mistaken(b, other, Go(fold, lower))
  {
    other := b[i := 0x41];
    var p, q := Chars(b)[..i], Chars(b)[i + 1..];
    CharsUpdated(b, i, 0x41);
    LowerAround(p, '*', q, lower);
    LowerAround(p, 'A', q, lower);
    GlobAround(ToLower(p, lower), Encode(lower('A' as int)), ToLower(q, lower));
    assert Chars(b)[i] == '*';
    FindClean(Chars(b), '*');
    assert other[i] != b[i];
  }

  // ---- bytes that are no text ----

  predicate AreBytes(s: string) {
    forall i :: 0 <= i < |s| ==> (s[i] as int) < 0x100
  }

  lemma CharsDecide(b: bytes, other: bytes)
    ensures Chars(b) == Chars(other) <==> b == other
  {
    if Chars(b) == Chars(other) {
      assert |b| == |other|;
      forall i | 0 <= i < |b| ensures b[i] == other[i] {
        assert Chars(b)[i] == Chars(other)[i];
      }
    }
  }

  /** Texts of the same runes, in any case, are taken for one another when there is no star. */
  lemma SameRunesMistaken(b: bytes, t: string, fold: RuneMap, lower: RuneMap) returns (other: bytes)
    requires Clean(Chars(b), '*') && AreBytes(t) && t != Chars(b) && Mapped(Runes(t), fold) == Mapped(Runes(Chars(b)), fold)
    ensures Chars(other) == t && Mistaken(b, other, Go(fold, lower))
  {
    other := Raw(t);
    CharsDecide(b, other);
    FindClean(Chars(b), '*');
  }

  lemma {:induction false} BlurBytes(s: string)
    requires AreBytes(s)
    ensures AreBytes(Blur(s))
  {
    if s != "" {
      BlurBytes(s[Step(s)..]);
    }
  }

  /** Bytes that are no UTF-8 are taken for other such bytes, as many. */
  lemma InvalidIsMistaken(b: bytes, fold: RuneMap, lower: RuneMap) returns (other: bytes)
    requires Clean(Chars(b), '*') && !Valid(Chars(b))
    ensures |other| == |b| && Mistaken(b, other, Go(fold, lower))
  {
    var s := Chars(b);
    BlurReadsSame(s);
    BlurDiffers(s);
    BlurBytes(s);
    other := SameRunesMistaken(b, Blur(s), fold, lower);
    assert |Chars(other)| == |other|;
  }

  // ---- runes in another case ----

  /** A text that reads as the one rune, whatever follows it. */
  ghost predicate Reads(x: string, r: Scalar) {
    AreBytes(x) && forall rest: string :: Runes(x + rest) == [r] + Runes(rest)
  }

  /** Valid text with its k-th rune replaced. */
  function Swapped(s: string, k: nat, x: string): string
    requires Valid(s)
  {
    if s == "" then ""
    else if k == 0 then x + s[Size(s)..]
    else s[..Size(s)] + Swapped(s[Size(s)..], k - 1, x)
  }

  lemma UpdateFirst<T>(all: seq<T>, first: T, rest: seq<T>, r: T)
    requires all == [first] + rest
    ensures [r] + rest == all[0 := r]
  {
  }

  lemma UpdateLater<T>(all: seq<T>, changed: seq<T>, first: T, rest: seq<T>, k: nat, r: T)
    requires 0 < k < |all| && all == [first] + rest && changed == [first] + rest[k - 1 := r]
    ensures changed == all[k := r]
  {
  }

  /** What follows a first valid rune is read on its own. */
  lemma ValidFirst(s: string, t: string)
    requires s != "" && Size(s) > 0
    ensures Runes(s) == [Rune(s)] + Runes(s[Size(s)..])
    ensures Runes(s[..Size(s)] + t) == [Rune(s)] + Runes(t)
  {
    var n := Size(s);
    SizeAlone(s, s[..n], n);
    RunesAfter(s[..n], t);
  }

  lemma SwappedLater(s: string, k: nat, x: string)
    requires Valid(s) && 0 < k < |Runes(s)|
    ensures Runes(s) == [Rune(s)] + Runes(s[Size(s)..])
    ensures Runes(Swapped(s, k, x)) == [Rune(s)] + Runes(Swapped(s[Size(s)..], k - 1, x))
  {
    ValidFirst(s, Swapped(s[Size(s)..], k - 1, x));
  }

  lemma SwappedFirst(s: string, x: string, r: Scalar)
    requires Valid(s) && s != "" && Reads(x, r)
    ensures Runes(s) == [Rune(s)] + Runes(s[Size(s)..])
    ensures Runes(Swapped(s, 0, x)) == [r] + Runes(s[Size(s)..])
  {
    ValidFirst(s, "");
  }

  lemma {:induction false} SwappedReads(s: string, k: nat, x: string, r: Scalar, rs: seq<Scalar>)
    requires Valid(s) && rs == Runes(s) && k < |rs| && Reads(x, r)
    ensures Runes(Swapped(s, k, x)) == rs[k := r]
  {
    var rest := s[Size(s)..];
    if k == 0 {
      SwappedFirst(s, x, r);
      UpdateFirst(rs, Rune(s), Runes(rest), r);
    } else {
      SwappedLater(s, k, x);
      SwappedReads(rest, k - 1, x, r, Runes(rest));
      UpdateLater(rs, Runes(Swapped(s, k, x)), Rune(s), Runes(rest), k, r);
    }
  }

  lemma {:induction false} SwappedBytes(s: string, k: nat, x: string)
    requires Valid(s) && AreBytes(s) && AreBytes(x)
    ensures AreBytes(Swapped(s, k, x))
  {
    if s != "" && k > 0 {
      SwappedBytes(s[Size(s)..], k - 1, x);
    }
  }

  lemma EncodeBytes(r: Scalar)
    ensures AreBytes(Encode(r))
  {
  }

  lemma EncodeReads(r: Scalar)
    ensures Reads(Encode(r), r)
  {
    EncodeBytes(r);
    EncodedReads(r);
    forall rest: string ensures Runes(Encode(r) + rest) == [r] + Runes(rest) {
      RunesAfter(Encode(r), rest);
    }
  }

  const NO_RUNE := [255 as char]

  lemma NoRuneReads()
    ensures Reads(NO_RUNE, RUNE_ERROR)
  {
    forall rest: string ensures Runes(NO_RUNE + rest) == [RUNE_ERROR] + Runes(rest) {
      var s := NO_RUNE + rest;
      assert s[0] == 255 as char && Size(s) == 0 && s[1..] == rest;
    }
  }

  lemma {:induction false} SwappedInvalid(s: string, k: nat)
    requires Valid(s) && k < |Runes(s)|
    ensures !Valid(Swapped(s, k, NO_RUNE))
  {
    var n := Size(s);
    var t := Swapped(s, k, NO_RUNE);
    if k == 0 {
      assert t[0] == 255 as char && Size(t) == 0;
    } else {
      SwappedInvalid(s[n..], k - 1);
      assert t[..n] == s[..n] && t[n..] == Swapped(s[n..], k - 1, NO_RUNE);
      SizeAlone(s, t, n);
    }
  }

  /** No other rune is the same in another case, and it is not the one that bytes that are no text read as. */
  ghost predicate Alone(r: Scalar, fold: RuneMap) {
    r != RUNE_ERROR && forall q: Scalar :: fold(q) == fold(r) ==> q == r
  }

  lemma MappedSwap(rs: seq<Scalar>, k: nat, q: Scalar, f: RuneMap)
    requires k < |rs| && f(q) == f(rs[k])
    ensures Mapped(rs[k := q], f) == Mapped(rs, f)
  {
  }

  lemma NotAloneIsMistaken(b: bytes, k: nat, fold: RuneMap, lower: RuneMap) returns (other: bytes)
    requires Clean(Chars(b), '*') && Valid(Chars(b)) && k < |Runes(Chars(b))| && !Alone(Runes(Chars(b))[k], fold)
    ensures Mistaken(b, other, Go(fold, lower))
  {
    var s := Chars(b);
    var r := Runes(s)[k];
    if r == RUNE_ERROR {
      NoRuneReads();
      SwappedReads(s, k, NO_RUNE, r, Runes(s));
      SwappedBytes(s, k, NO_RUNE);
      SwappedInvalid(s, k);
      MappedSwap(Runes(s), k, r, fold);
      other := SameRunesMistaken(b, Swapped(s, k, NO_RUNE), fold, lower);
    } else {
      var q: Scalar :| fold(q) == fold(r) && q != r;
      EncodeReads(q);
      SwappedReads(s, k, Encode(q), q, Runes(s));
      SwappedBytes(s, k, Encode(q));
      MappedSwap(Runes(s), k, q, fold);
      assert Runes(s)[k := q][k] == q;
      other := SameRunesMistaken(b, Swapped(s, k, Encode(q)), fold, lower);
    }
  }

  // ---- the exact condition ----

  /** Bytes that nothing else is taken for: no star, and valid text of runes that have no other case. */
  ghost predicate Unmistakable(b: bytes, fold: RuneMap) {
    && Clean(Chars(b), '*') && Valid(Chars(b))
    && forall k :: 0 <= k < |Runes(Chars(b))| ==> Alone(Runes(Chars(b))[k], fold)
  }

  lemma UnmistakableIsItself(b: bytes, other: bytes, fold: RuneMap, lower: RuneMap)
    requires Unmistakable(b, fold)
    ensures !Mistaken(b, other, Go(fold, lower))
  {
    FindClean(Chars(b), '*');
    var rs, qs := Runes(Chars(b)), Runes(Chars(other));
    if Mapped(qs, fold) == Mapped(rs, fold) {
      assert |qs| == |rs|;
      forall k | 0 <= k < |rs| ensures qs[k] == rs[k] {
        assert fold(qs[k]) == Mapped(qs, fold)[k] == Mapped(rs, fold)[k] == fold(rs[k]);
        assert Alone(rs[k], fold);
      }
      assert RUNE_ERROR !in rs;
      RunesDecide(Chars(b), Chars(other));
      CharsDecide(b, other);
    }
  }

  lemma SomeAreMistaken(b: bytes, fold: RuneMap, lower: RuneMap) returns (other: bytes)
    requires !Unmistakable(b, fold) && lower(STAR) == STAR
    ensures Mistaken(b, other, Go(fold, lower))
    ensures !Clean(Chars(b), '*') || !Valid(Chars(b)) ==> |other| == |b|
  {
    if i :| 0 <= i < |b| && b[i] == '*' as int {
      other := StarIsMistaken(b, i, fold, lower);
    } else {
      assert Clean(Chars(b), '*');
      if Valid(Chars(b)) {
        var k :| 0 <= k < |Runes(Chars(b))| && !Alone(Runes(Chars(b))[k], fold);
        other := NotAloneIsMistaken(b, k, fold, lower);
      } else {
        other := InvalidIsMistaken(b, fold, lower);
      }
    }
  }

  /** Under Go's folding the lookup by GUID finds exactly the entries that hold it, exactly when the GUID has no star and
      is valid text of runes without another case. */
  lemma GoLookupExactly(attr: string, b: bytes, fold: RuneMap, lower: RuneMap)
    requires IsName(attr) && !Go(fold, lower).same(attr, OBJECT_SID) && b != [] && lower(STAR) == STAR
    ensures (forall entry: seq<Attr> :: FindsJust(attr, b, entry, Go(fold, lower))) <==> Unmistakable(b, fold)
  {
    GoEquates(fold, lower);
    OthersDecide(attr, b, Go(fold, lower));
    if Unmistakable(b, fold) {
      forall other: bytes ensures !Mistaken(b, other, Go(fold, lower)) {
        UnmistakableIsItself(b, other, fold, lower);
      }
    } else {
      var other := SomeAreMistaken(b, fold, lower);
    }
  }

  /** A GUID with a star, or whose bytes are not all UTF-8, finds an entry that holds only another GUID. */
  lemma OtherGuidIsFound(attr: string, b: bytes, fold: RuneMap, lower: RuneMap) returns (other: bytes)
    requires IsName(attr) && !Go(fold, lower).same(attr, OBJECT_SID) && b != [] && lower(STAR) == STAR
    requires !Clean(Chars(b), '*') || !Valid(Chars(b))
    ensures |other| == |b| && other != b
    ensures MatchFilter(Print(Equal(attr, Escaped(b))), [Attr(attr, [other])], Go(fold, lower)) == Some(true)
  {
    GoEquates(fold, lower);
    other := SomeAreMistaken(b, fold, lower);
    MistakenIsFound(attr, b, other, Go(fold, lower));
  }
}
