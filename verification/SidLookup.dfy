// The lookup by SID of search.go, which asks for objectSid in its text form.
module SidLookup {
  import opened Wrappers
  import opened Bytes
  import opened Text
  import opened Wildcard
  import opened Filter
  import opened Exactness
  import Sid

  /** An entry that holds the SID is found, under any folding, by any printed form of its text. */
  lemma SidIsFound(attr: string, b: bytes, units: seq<Unit>, entry: seq<Attr>, fold: Folding)
    requires fold.same(attr, "objectSid") && IsName(attr) && IsValue(units)
    requires Sid.Exact(b) && Equates(fold) && fold.same(Sid.TextOf(b).value, Value(units))
    requires Lookup(entry, attr, fold).Some? && b in Lookup(entry, attr, fold).value
    ensures MatchFilter(Print(Equal(attr, units)), entry, fold) == Some(true)
  {
    MatchIsEval(Equal(attr, units), entry, fold);
    var values := Lookup(entry, attr, fold).value;
    var i :| 0 <= i < |values| && values[i] == b;
    assert Sid.Exact(values[i]) && fold.same(Join(Sid.Parts(values[i]), '-'), Value(units));
  }

  predicate NoLowerCase(s: string) {
    forall i :: 0 <= i < |s| ==> !('a' <= s[i] <= 'z')
  }

  lemma SidTextIsUpper(b: bytes)
    requires Sid.Exact(b)
    ensures NoLowerCase(Sid.TextOf(b).value)
  {
    var text := Sid.TextOf(b).value;
    forall k | 0 <= k < |text| ensures !('a' <= text[k] <= 'z') {
      if 'a' <= text[k] <= 'z' {
        SidTextHasNo(b, text[k]);
      }
    }
  }

  lemma UpperDecides(a: string, b: string)
    requires NoLowerCase(a) && NoLowerCase(b) && EqualFold(a, b)
    ensures a == b
  {
    assert |Lower(a)| == |a| && |Lower(b)| == |b|;
    forall i | 0 <= i < |a| ensures a[i] == b[i] {
      assert LowerChar(a[i]) == Lower(a)[i] == Lower(b)[i] == LowerChar(b[i]);
    }
  }

  /** In any case of its letters the text of a SID is that of no other SID. */
  lemma SameSidText(b: bytes, c: bytes, want: string)
    requires Sid.Exact(b) && EqualFold(Sid.TextOf(b).value, want)
    ensures Sid.Exact(c) && EqualFold(Join(Sid.Parts(c), '-'), want) <==> c == b
  {
    if Sid.Exact(c) && EqualFold(Join(Sid.Parts(c), '-'), want) {
      SidTextIsUpper(b);
      SidTextIsUpper(c);
      UpperDecides(Sid.TextOf(b).value, Sid.TextOf(c).value);
      Sid.TextDecides(b, c);
    }
  }

  lemma HoldsTheSid(attr: string, values: seq<bytes>, b: bytes, want: string)
    requires EqualFold(attr, "objectSid") && Sid.Exact(b) && EqualFold(Sid.TextOf(b).value, want)
    ensures Holds(attr, values, want, ASCII) <==> b in values
  {
    forall i | 0 <= i < |values|
      ensures Sid.Exact(values[i]) && EqualFold(Join(Sid.Parts(values[i]), '-'), want) <==> values[i] == b
    {
      SameSidText(b, values[i], want);
    }
  }

  lemma SidTextStarts(b: bytes)
    requires Sid.Exact(b)
    ensures Sid.TextOf(b).value != "" && Sid.TextOf(b).value[0] == 'S'
  {
    var parts := Sid.Parts(b);
    assert parts[0] == "S" && |parts| > 1;
    assert Join(parts, '-') == parts[0] + ['-'] + Join(parts[1..], '-');
  }

  lemma SidTextIsAscii(b: bytes)
    requires Sid.Exact(b)
    ensures forall i :: 0 <= i < |Sid.TextOf(b).value| ==> Sid.TextOf(b).value[i] as int < 0x80
  {
    var text := Sid.TextOf(b).value;
    forall k | 0 <= k < |text| ensures text[k] as int < 0x80 {
      if text[k] as int >= 0x80 {
        SidTextHasNo(b, text[k]);
      }
    }
  }

  lemma AsciiInAnyCase(text: string, want: string)
    requires EqualFold(text, want) && forall i :: 0 <= i < |text| ==> text[i] as int < 0x80
    ensures forall i :: 0 <= i < |want| ==> want[i] as int < 0x100
  {
    assert |Lower(text)| == |text| && |Lower(want)| == |want|;
    forall i | 0 <= i < |want| ensures want[i] as int < 0x100 {
      assert LowerChar(text[i]) == Lower(text)[i] == Lower(want)[i] == LowerChar(want[i]);
    }
  }

  lemma StarIsNoSid(text: string)
    requires text != "" && text[0] == 'S'
    ensures !EqualFold(text, "*")
  {
    assert Lower(text)[0] == 's' && Lower("*")[0] == '*';
  }

  /** A value that means a SID's text, however it is escaped, is bytes and more than a star. */
  lemma SidValue(units: seq<Unit>, b: bytes)
    requires AllReadable(units) && Sid.Exact(b) && EqualFold(Sid.TextOf(b).value, Value(units))
    ensures PrintUnits(units) != "*" && forall i :: 0 <= i < |units| ==> units[i].c as int < 0x100
  {
    SidTextStarts(b);
    StarIsNoSid(Sid.TextOf(b).value);
    UnescapeInvertsPrint(units);
    UnescapeNothing("*");
    SidTextIsAscii(b);
    AsciiInAnyCase(Sid.TextOf(b).value, Value(units));
    assert forall i :: 0 <= i < |units| ==> Value(units)[i] == units[i].c;
  }

  /** The lookup by SID finds exactly the entries that hold it: for every SID, every case its text is given in, every way
      of escaping it and every entry. */
  lemma SidLookupExactly(attr: string, b: bytes, units: seq<Unit>, entry: seq<Attr>)
    requires EqualFold(attr, "objectSid") && IsName(attr) && AllReadable(units)
    requires Sid.Exact(b) && EqualFold(Sid.TextOf(b).value, Value(units))
    ensures var vals := Lookup(entry, attr, ASCII);
            MatchFilter(Print(Equal(attr, units)), entry, ASCII) == Some(vals.Some? && b in vals.value)
  {
    SidValue(units, b);
    ComparisonExactly(attr, units);
    assert AsMeant(attr, units, entry);
    var vals := Lookup(entry, attr, ASCII);
    if vals.Some? {
      HoldsTheSid(attr, vals.value, b, Value(units));
    }
  }
}
