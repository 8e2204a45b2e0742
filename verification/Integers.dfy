// Integer attributes of internal/attrs/attrs.go: FILETIME values and the signed decimal
// form of 32-bit words.
module Integers {
  import opened Wrappers
  import opened Bytes
  import opened Text

  const MAX_INT64 := 0x7FFF_FFFF_FFFF_FFFF
  type int64 = n: int | -MAX_INT64 - 1 <= n <= MAX_INT64

  /** Two's-complement wrap-around of 64-bit arithmetic. */
  function Wrap64(n: int): int64 {
    (n + 0x8000_0000_0000_0000) % 0x1_0000_0000_0000_0000 - 0x8000_0000_0000_0000
  }

  lemma WrapInside(n: int)
    requires -MAX_INT64 - 1 <= n <= MAX_INT64
    ensures Wrap64(n) == n
  {
  }

  /** Go's integer division, which truncates toward zero. */
  function Quo(n: int, d: int): int
    requires d > 0
  {
    if n < 0 then -(-n / d) else n / d
  }

  /** strconv.FormatInt in base 10. */
  function FormatInt(n: int): string {
    if n < 0 then "-" + Dec(-n) else Dec(n)
  }

  /** strconv.ParseInt in base 10: an optional sign, digits, and a value of 64 bits. */
  function ParseInt(s: string): Option<int64> {
    var signed := s != "" && (s[0] == '-' || s[0] == '+');
    match ParseUint(if signed then s[1..] else s, 0x1_0000_0000_0000_0000)
    case None => None
    case Some(v) =>
      var n: int := if signed && s[0] == '-' then 0 - v else v;
      if -MAX_INT64 - 1 <= n <= MAX_INT64 then Some(n) else None
  }

  lemma ParseNegative(m: nat)
    requires 0 < m <= MAX_INT64 + 1
    ensures ParseInt("-" + Dec(m)) == Some(0 - m)
  {
    ParseDec(m, 0x1_0000_0000_0000_0000);
    assert ("-" + Dec(m))[1..] == Dec(m);
  }

  lemma ParsePositive(m: nat)
    requires m <= MAX_INT64
    ensures ParseInt(Dec(m)) == Some(m)
  {
    ParseDec(m, 0x1_0000_0000_0000_0000);
    DecDigits(m);
    assert IsDigit(Dec(m)[0]);
  }

  lemma ParseFormatted(n: int64)
    ensures ParseInt(FormatInt(n)) == Some(n)
  {
    if n < 0 {
      ParseNegative(0 - n);
    } else {
      ParsePositive(n);
    }
  }

  lemma FormatInjective(a: int64, b: int64)
    requires FormatInt(a) == FormatInt(b)
    ensures a == b
  {
    ParseFormatted(a);
    ParseFormatted(b);
  }

  // ---- FILETIME ----

  const FILETIME_NEVER: int64 := MAX_INT64
  const EPOCH_OFFSET := 116444736000000000
  const FIRST_FILETIME := 24211015631452242
  const LAST_FILETIME := 208678456368547758

  /** A time is its UnixNano, which Go defines for the times that fit 64 bits. */
  function TimeToFileTime(unixNano: int64): string {
    FormatInt(Wrap64(Quo(unixNano, 100) + EPOCH_OFFSET))
  }

  datatype FileTimeError = NotAFileTime

  /** Ok(None) is "never". */
  function FileTimeToTime(s: string): Result<Option<int64>, FileTimeError> {
    if s == "" then Ok(None)
    else
      match ParseInt(s)
      case None => Err(NotAFileTime)
      case Some(v) =>
        if v == 0 || v == FILETIME_NEVER then Ok(None)
        else Ok(Some(Wrap64(Wrap64(v - EPOCH_OFFSET) * 100)))
  }

  /** Every representable time encodes inside a fixed range, clear of both "never" values and of overflow. */
  lemma EncodedRange(unixNano: int64)
    ensures var v := Quo(unixNano, 100) + EPOCH_OFFSET;
            FIRST_FILETIME <= v <= LAST_FILETIME && Wrap64(v) == v && v != 0 && v != FILETIME_NEVER
  {
  }

  /** Decoding an encoded time drops less than 100 nanoseconds, toward the Unix epoch. */
  lemma DecodeOfEncodedTime(unixNano: int64)
    ensures FileTimeToTime(TimeToFileTime(unixNano)) == Ok(Some(Quo(unixNano, 100) * 100))
    ensures var t := Quo(unixNano, 100) * 100;
            if unixNano < 0 then unixNano <= t < unixNano + 100 && t <= 0 else unixNano - 100 < t <= unixNano && 0 <= t
  {
    EncodedRange(unixNano);
    DecodeInRange(Quo(unixNano, 100) + EPOCH_OFFSET);
    QuoTruncates(unixNano);
  }

  lemma QuoTruncates(n: int)
    ensures var t := Quo(n, 100) * 100;
            if n < 0 then n <= t < n + 100 && t <= 0 else n - 100 < t <= n && 0 <= t
  {
  }

  lemma DecodeInRange(v: int64)
    requires FIRST_FILETIME <= v <= LAST_FILETIME
    ensures FileTimeToTime(FormatInt(v)) == Ok(Some((v - EPOCH_OFFSET) * 100))
  {
    ParseFormatted(v);
    WrapInside(v - EPOCH_OFFSET);
    WrapInside((v - EPOCH_OFFSET) * 100);
    assert FormatInt(v) != "";
  }

  lemma QuoOfMultiple(n: int)
    ensures Quo(n * 100, 100) == n
  {
  }

  lemma DecodeAnyway(v: int64)
    requires v != 0 && v != FILETIME_NEVER
    ensures FileTimeToTime(FormatInt(v)) == Ok(Some(Wrap64(Wrap64(v - EPOCH_OFFSET) * 100)))
  {
    ParseFormatted(v);
  }

  lemma NoTimeOutside(v: int64, t: int64)
    requires !(FIRST_FILETIME <= v <= LAST_FILETIME)
    ensures TimeToFileTime(t) != FormatInt(v)
  {
    EncodedRange(t);
    if TimeToFileTime(t) == FormatInt(v) {
      FormatInjective(Quo(t, 100) + EPOCH_OFFSET, v);
    }
  }

  lemma TimeInside(v: int64)
    requires FIRST_FILETIME <= v <= LAST_FILETIME
    ensures FileTimeToTime(FormatInt(v)) == Ok(Some((v - EPOCH_OFFSET) * 100))
    ensures TimeToFileTime((v - EPOCH_OFFSET) * 100) == FormatInt(v)
  {
    DecodeInRange(v);
    QuoOfMultiple(v - EPOCH_OFFSET);
    WrapInside(v);
  }

  /** A stored FILETIME comes back unchanged exactly when it lies in the range times encode to. */
  lemma StoredFileTimeRoundTrip(v: int64)
    requires v != 0 && v != FILETIME_NEVER
    ensures FileTimeToTime(FormatInt(v)).Ok? && FileTimeToTime(FormatInt(v)).value.Some?
    ensures TimeToFileTime(FileTimeToTime(FormatInt(v)).value.value) == FormatInt(v)
            <==> FIRST_FILETIME <= v <= LAST_FILETIME
  {
    DecodeAnyway(v);
    if FIRST_FILETIME <= v <= LAST_FILETIME {
      TimeInside(v);
    } else {
      NoTimeOutside(v, FileTimeToTime(FormatInt(v)).value.value);
    }
  }

  // ---- signed decimal words ----

  function Signed32(v: dword): int64 {
    if v < 0x8000_0000 then v else v - 0x1_0000_0000
  }

  /** GroupTypeString and Uint32String. */
  function WordText(v: dword): string {
    FormatInt(Signed32(v))
  }

  /** ParseGroupType and ParseUint32: parsed signed, cut to 32 bits. */
  function WordOf(s: string): Option<dword> {
    match ParseInt(Trim(s))
    case None => None
    case Some(n) => Some(n % 0x1_0000_0000)
  }

  lemma FormattedIsTrim(n: int64)
    ensures Trim(FormatInt(n)) == FormatInt(n)
  {
    var m: nat := if n < 0 then 0 - n else n;
    var d := Dec(m);
    DecDigits(m);
    assert FormatInt(n) == (if n < 0 then "-" else "") + d;
    assert IsDigit(d[0]) && IsDigit(d[|d| - 1]);
    TrimNothing(FormatInt(n));
  }

  /** Every word survives its signed decimal form, the ones with the high bit set included. */
  lemma WordRoundTrip(v: dword)
    ensures WordOf(WordText(v)) == Some(v)
  {
    WordOfFormatted(Signed32(v));
    SignedWord(v);
  }

  lemma WordOfFormatted(n: int64)
    ensures WordOf(FormatInt(n)) == Some(n % 0x1_0000_0000)
  {
    FormattedIsTrim(n);
    ParseFormatted(n);
  }

  lemma SignedWord(v: dword)
    ensures Signed32(v) % 0x1_0000_0000 == v
  {
  }

  // ---- what the values mean ----

  /** Units of 100 ns since 1601: the Unix epoch is 116444736000000000 of them after it. */
  lemma FileTimeCounts(unixNano: int64, v: int64)
    requires v == Quo(unixNano, 100) + 116444736000000000
    ensures TimeToFileTime(unixNano) == FormatInt(v)
  {
    EncodedRange(unixNano);
  }

  /** "Never" is written in three ways: nothing, zero and the largest value. */
  lemma NeverExactly(s: string)
    ensures FileTimeToTime(s) == Ok(None)
            <==> s == "" || ParseInt(s) == Some(0) || ParseInt(s) == Some(0x7FFF_FFFF_FFFF_FFFF)
    ensures FileTimeToTime(s).Err? <==> s != "" && ParseInt(s).None?
  {
  }

  /** The text of a word: its own digits below 2^31, and minus the complement's from there on. */
  lemma WordTextIs(v: dword)
    ensures WordText(v) == if v < 0x8000_0000 then Dec(v) else "-" + Dec(0x1_0000_0000 - v)
  {
  }

  /** And with space around its text. */
  lemma SpacedWordReads(s: string, v: dword)
    requires Trim(s) == WordText(v)
    ensures WordOf(s) == Some(v)
  {
    WordRoundTrip(v);
    FormattedIsTrim(Signed32(v));
  }
}
