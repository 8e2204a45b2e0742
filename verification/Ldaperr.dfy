// Failure classification of internal/ldaperr/classify.go. The table behind adcore.ClassifyCode
// belongs to another library, so it is a parameter.
module Ldaperr {
  import opened Wrappers
  import opened Bytes
  import opened Text

  datatype Kind =
    | Unknown | NotFound | AlreadyExists | Denied | Constraint | InvalidAttribute
    | TooManyResults | Referral | Transient | Transport

  /** One error of a chain, as errors.Is and errors.As meet it while unwrapping. */
  datatype Link =
    | ContextError                                  // context.Canceled or context.DeadlineExceeded
    | CredentialRejected
    | RawError(resultCode: word, diagnostic: string)
    | OwnError(kind: Kind)                          // an *adcore.Error the operation made itself
    | Other

  /** An error as its chain, outermost first; the empty chain is nil. */
  type Chain = seq<Link>

  predicate IsContext(err: Chain) {
    ContextError in err
  }

  /** errors.As for a *conn.RawError: the outermost one. */
  function AsRaw(err: Chain): (r: Option<Link>)
    ensures r.Some? ==> r.value.RawError?
  {
    if err == [] then None else if err[0].RawError? then Some(err[0]) else AsRaw(err[1..])
  }

  // ---- the code in the diagnostic ----

  function HexValue(s: string): Option<nat> {
    if s == "" then Some(0)
    else
      match (HexValue(s[..|s| - 1]), Unhex(s[|s| - 1]))
      case (Some(n), Some(d)) => Some(16 * n + d)
      case _ => None
  }

  function Win32Code(diagnostic: string): Option<nat> {
    if |diagnostic| < 9 || diagnostic[8] != ':' then None else HexValue(diagnostic[..8])
  }

  method ExtractWin32Code(diagnostic: string) returns (r: Option<nat>)
    ensures r == Win32Code(diagnostic)
  {
    if |diagnostic| < 9 || diagnostic[8] != ':' {
      return None;
    }
    var head := diagnostic[..8];
    var value: nat := 0;
    for i := 0 to |head|
      invariant HexValue(head[..i]) == Some(value)
    {
      assert head[..i + 1][..i] == head[..i];
      var d := Unhex(head[i]);
      if d.None? {
        HexFails(head, i + 1);
        return None;
      }
      value := 16 * value + d.value;
    }
    assert head[..|head|] == head;
    return Some(value);
  }

  lemma {:induction false} HexFails(s: string, n: nat)
    requires n <= |s| && HexValue(s[..n]).None?
    ensures HexValue(s).None?
    decreases |s|
  {
    if n == |s| {
      assert s[..n] == s;
    } else {
      assert s[..|s| - 1][..n] == s[..n];
      HexFails(s[..|s| - 1], n);
    }
  }

  lemma {:induction false} HexValueOfHex(n: nat, k: nat, bound: nat)
    requires n < bound && bound == Power16(k)
    ensures HexValue(Hex(n, k)) == Some(n)
  {
    if k > 0 {
      HexValueOfHex(n / 16, k - 1, Power16(k - 1));
      var s := Hex(n, k);
      assert s[..|s| - 1] == Hex(n / 16, k - 1);
      UnhexDigit(n % 16);
    }
  }

  function Power16(k: nat): (p: nat)
    ensures p > 0
  {
    if k == 0 then 1 else 16 * Power16(k - 1)
  }

  lemma {:induction false} HexOfHexValue(s: string, n: nat, k: nat)
    requires HexValue(s) == Some(n) && k == |s|
    ensures Hex(n, k) == Lower(s) && n < Power16(k)
  {
    if s != "" {
      var init, d := s[..|s| - 1], Unhex(s[|s| - 1]).value;
      var m := HexValue(init).value;
      HexOfHexValue(init, m, k - 1);
      assert n / 16 == m && n % 16 == d;
      HexOfUnhex(s[|s| - 1]);
      assert s == init + [s[|s| - 1]];
    }
  }

  /** A diagnostic carries code n exactly when it starts with the eight hex digits of n, in any case, and a colon. */
  lemma CodeIsTheLeadingHex(diagnostic: string, n: nat, width: nat)
    requires width == 8
    ensures Win32Code(diagnostic) == Some(n)
            <==> |diagnostic| > width && diagnostic[width] == ':' && n < Power16(width) && Lower(diagnostic[..width]) == Hex(n, width)
  {
    if |diagnostic| > width && diagnostic[width] == ':' {
      var head := diagnostic[..width];
      if HexValue(head) == Some(n) {
        HexOfHexValue(head, n, width);
      }
      if n < Power16(width) && Lower(head) == Hex(n, width) {
        HexValueOfHex(n, width, Power16(width));
        HexValueLower(head);
      }
    }
  }

  lemma {:induction false} HexValueLower(s: string)
    ensures HexValue(Lower(s)) == HexValue(s)
  {
    if s != "" {
      var init := s[..|s| - 1];
      HexValueLower(init);
      assert Lower(s)[..|s| - 1] == Lower(init);
      assert Unhex(LowerChar(s[|s| - 1])) == Unhex(s[|s| - 1]);
    }
  }

  // ---- the kind of a failure ----

  /** The fallback by LDAP result code; what it does not list is unknown. */
  function ByResultCode(code: word): Kind {
    if code == 4 then TooManyResults
    else if code in {8, 49, 50} then Denied
    else if code == 10 then Referral
    else if code in {16, 19, 20, 34, 53, 64, 65, 66, 67} then Constraint
    else if code in {17, 21} then InvalidAttribute
    else if code == 32 then NotFound
    else if code in {51, 52} then Transient
    else if code == 68 then AlreadyExists
    else Unknown
  }

  type CodeTable = int -> Option<Kind>

  /** None for nil; otherwise the Kind that Classify stamps on the error. */
  function Classified(err: Chain, table: CodeTable): Option<Kind> {
    if err == [] then None
    else if IsContext(err) then Some(Transport)
    else
      match AsRaw(err)
      case None => Some(Transport)
      case Some(raw) =>
        match Win32Code(raw.diagnostic)
        case Some(code) =>
          (match table(code)
           case Some(kind) => Some(kind)
           case None => Some(ByResultCode(raw.resultCode)))
        case None => Some(ByResultCode(raw.resultCode))
  }

  method Classify(err: Chain, table: CodeTable) returns (r: Option<Kind>)
    ensures r == Classified(err, table)
  {
    if |err| == 0 {
      return None;
    }
    if ContextError in err {
      return Some(Transport);
    }
    var raw := AsRaw(err);
    if raw.None? {
      return Some(Transport);
    }
    var code := ExtractWin32Code(raw.value.diagnostic);
    if code.Some? {
      var kind := table(code.value);
      if kind.Some? {
        return kind;
      }
    }
    return Some(ByResultCode(raw.value.resultCode));
  }

  /** Only Transient is retryable: its contract is the only one that says nothing was executed. */
  predicate Retryable(kind: Kind) {
    kind == Transient
  }

  /** The server answered, with a diagnostic whose code the table calls transient, or else with busy or unavailable. */
  predicate SaidBusy(err: Chain, table: CodeTable) {
    var raw := AsRaw(err);
    raw.Some? &&
    var code := Win32Code(raw.value.diagnostic);
    if code.Some? && table(code.value).Some? then table(code.value) == Some(Transient)
    else raw.value.resultCode in {51, 52}
  }

  /** An error without a server's answer in it becomes a transport failure, whatever kind the operation gave it. */
  lemma OwnErrorsBecomeTransport(err: Chain, table: CodeTable)
    requires err != [] && forall i :: 0 <= i < |err| ==> !err[i].RawError?
    ensures Classified(err, table) == Some(Transport)
  {
    NoAnswer(err);
  }

  lemma {:induction false} NoAnswer(err: Chain)
    ensures AsRaw(err).None? <==> forall i :: 0 <= i < |err| ==> !err[i].RawError?
  {
    if err != [] {
      NoAnswer(err[1..]);
      assert forall i :: 0 < i < |err| ==> err[i] == err[1..][i - 1];
    }
  }

  /** An error the operation made itself keeps the kind it gave exactly when that is the kind of what it wraps, or when
      it wraps nothing and says transport. */
  lemma OwnErrorKeepsItsKind(kind: Kind, cause: Chain, table: CodeTable)
    ensures Classified([OwnError(kind)] + cause, table) == Some(kind)
            <==> if cause == [] then kind == Transport else Classified(cause, table) == Some(kind)
  {
    if cause == [] {
      assert [OwnError(kind)] + cause == [OwnError(kind)];
      OwnErrorsBecomeTransport([OwnError(kind)], table);
    } else {
      WrappingKeepsTheKind(OwnError(kind), cause, table);
    }
  }

  /** The kind a server's answer has, from the table if it prints a code the table knows and from its result otherwise. */
  function AnswerKind(code: nat, resultCode: word, table: CodeTable): Kind {
    match table(code)
    case Some(kind) => kind
    case None => ByResultCode(resultCode)
  }

  /** The outermost server answer in a chain is its i-th link. */
  predicate FirstRaw(err: Chain, i: nat) {
    i < |err| && err[i].RawError? && forall j :: 0 <= j < i ==> !err[j].RawError?
  }

  /** The kind of an answer: by the code its diagnostic starts with if the table knows that, else by its result. */
  function KindOfAnswer(resultCode: word, diagnostic: string, table: CodeTable): Kind {
    match Win32Code(diagnostic)
    case None => ByResultCode(resultCode)
    case Some(code) => AnswerKind(code, resultCode, table)
  }

  lemma {:induction false} AsRawIsFirst(err: Chain, i: nat)
    requires FirstRaw(err, i)
    ensures AsRaw(err) == Some(err[i])
  {
    if i > 0 {
      assert err[1..][i - 1] == err[i] && forall j :: 0 <= j < i - 1 ==> err[1..][j] == err[j + 1];
      AsRawIsFirst(err[1..], i - 1);
    }
  }

  /** What decides a failure: a cancellation anywhere in it first, then its outermost answer. */
  lemma ClassifiedExactly(err: Chain, table: CodeTable, i: nat)
    requires err != []
    ensures ContextError in err ==> Classified(err, table) == Some(Transport)
    ensures ContextError !in err && FirstRaw(err, i) ==>
              Classified(err, table) == Some(KindOfAnswer(err[i].resultCode, err[i].diagnostic, table))
    ensures (forall j :: 0 <= j < |err| ==> !err[j].RawError?) ==> Classified(err, table) == Some(Transport)
  {
    if FirstRaw(err, i) {
      AsRawIsFirst(err, i);
    }
    NoAnswer(err);
  }

  /** The kinds of the answers whose diagnostic carries no code, result by result; any other result is unknown. */
  lemma ResultKinds(resultCode: word, diagnostic: string, table: CodeTable)
    requires |diagnostic| < 9 || diagnostic[8] != ':'
    ensures var kind := Classified([RawError(resultCode, diagnostic)], table).value;
            && (kind == TooManyResults <==> resultCode == 4)
            && (kind == Denied <==> resultCode == 8 || resultCode == 49 || resultCode == 50)
            && (kind == Referral <==> resultCode == 10)
            && (kind == Constraint <==> resultCode in {16, 19, 20, 34, 53} || 64 <= resultCode <= 67)
            && (kind == InvalidAttribute <==> resultCode == 17 || resultCode == 21)
            && (kind == NotFound <==> resultCode == 32)
            && (kind == Transient <==> resultCode == 51 || resultCode == 52)
            && (kind == AlreadyExists <==> resultCode == 68)
            && kind != Transport
  {
    var err := [RawError(resultCode, diagnostic)];
    assert AsRaw(err) == Some(err[0]);
  }

  /** A diagnostic as the directory prints it, eight digits, a colon and any text, is classified by its code, however
      the answer is wrapped. */
  lemma PrintedCodeDecides(code: nat, width: nat, rest: string, resultCode: word, outer: Chain, inner: Chain, table: CodeTable)
    requires width == 8 && code < Power16(width)
    requires forall i :: 0 <= i < |outer| ==> !outer[i].RawError? && !outer[i].ContextError?
    requires !IsContext(inner)
    ensures Classified(outer + [RawError(resultCode, Hex(code, width) + ":" + rest)] + inner, table)
            == Some(AnswerKind(code, resultCode, table))
  {
    var d := Hex(code, width) + ":" + rest;
    var answer := RawError(resultCode, d);
    PrintedCode(code, width, rest, d);
    FirstAnswer(outer, answer, inner);
    var err := outer + [answer] + inner;
    forall i | 0 <= i < |err| ensures err[i] != ContextError {
      if i > |outer| {
        assert err[i] == inner[i - |outer| - 1];
      }
    }
  }

  lemma PrintedCode(code: nat, width: nat, rest: string, diagnostic: string)
    requires width == 8 && code < Power16(width) && diagnostic == Hex(code, width) + ":" + rest
    ensures Win32Code(diagnostic) == Some(code)
  {
    assert diagnostic[..width] == Hex(code, width);
    HexValueOfHex(code, width, Power16(width));
  }

  lemma {:induction false} FirstAnswer(outer: Chain, answer: Link, inner: Chain)
    requires answer.RawError? && forall i :: 0 <= i < |outer| ==> !outer[i].RawError?
    ensures AsRaw(outer + [answer] + inner) == Some(answer)
  {
    if outer != [] {
      assert (outer + [answer] + inner)[1..] == outer[1..] + [answer] + inner;
      FirstAnswer(outer[1..], answer, inner);
    }
  }

  /** A failure may be retried exactly when the server said so and no cancellation is anywhere in it. */
  lemma RetriedExactly(err: Chain, table: CodeTable)
    requires err != []
    ensures Retryable(Classified(err, table).value) <==> !IsContext(err) && SaidBusy(err, table)
  {
    if AsRaw(err).Some? {
      ResultCodeTransient(AsRaw(err).value.resultCode);
    }
  }

  lemma ResultCodeTransient(code: word)
    ensures ByResultCode(code) == Transient <==> code in {51, 52}
  {
  }

  /** Whatever wraps an error, its kind stays what the outermost server answer in it makes it, unless the wrapping cancels. */
  lemma WrappingKeepsTheKind(outer: Link, err: Chain, table: CodeTable)
    requires err != [] && !outer.RawError?
    ensures Classified([outer] + err, table)
            == if outer == ContextError then Some(Transport) else Classified(err, table)
  {
    assert ([outer] + err)[1..] == err;
  }
}
