/** Entity tags and conditional puts. */
module Api {
  import opened Base
  import opened Model
  import opened Protocol
  import opened ProtocolPlay
  import opened ProtocolRuns
  import opened Text

  predicate IsQuote(c: char)
  {
    c == '"'
  }

  /** The characters a header value may hold to be read as text. */
  predicate VisibleAscii(s: string)
  {
    forall i :: 0 <= i < |s| ==> ' ' <= s[i] <= '~' || s[i] == '\t'
  }

  /** `str::parse::<u64>`: an optional plus sign, then at least one digit, within range. */
  function ParseU64(s: string): Option<U64>
  {
    var digits := if |s| > 1 && s[0] == '+' then s[1..] else s;
    if digits == "" || !Digits(digits) then None
    else if DigitsValue(digits) > MAX_U64 then None
    else Some(DigitsValue(digits))
  }

  function ParseIfMatch(header: Option<string>): Result<U64>
  {
    if header.None? then Err(PreconditionRequired)
    else if !VisibleAscii(header.value) then Err(InvalidInput("invalid If-Match header"))
    else
      var revision := ParseU64(Trim(IsQuote, Trim(RustSpace, header.value)));
      if revision.None? then Err(InvalidInput("If-Match must be an integer revision")) else Ok(revision.value)
  }

  function EtagFor(revision: U64): string
  {
    "\"" + Decimal(revision) + "\""
  }

  /** The tag of a revision is its decimal notation in double quotes. */
  lemma EtagExact(revision: U64)
    ensures var tag := EtagFor(revision);
            && |tag| > 2 && tag[0] == '"' && tag[|tag| - 1] == '"' && tag[1..|tag| - 1] == Decimal(revision)
  {
    hide Decimal;
    assert ("\"" + Decimal(revision) + "\"")[1..|Decimal(revision)| + 1] == Decimal(revision);
  }

  lemma TrimQuotes(body: string)
    requires body != "" && !IsQuote(body[0]) && !IsQuote(body[|body| - 1])
    ensures Trim(IsQuote, "\"" + body + "\"") == body
  {
    TrimUnique(IsQuote, "\"", body, "\"");
  }

  lemma ParseDecimal(n: U64)
    ensures ParseU64(Decimal(n)) == Some(n)
  {
    DecimalRoundTrip(n);
  }

  /** The tag of a revision, sent back as a precondition, names that revision, for every 64-bit revision. */
  lemma EtagRoundTrip(revision: U64)
    ensures ParseIfMatch(Some(EtagFor(revision))) == Ok(revision)
  {
    hide RustSpace, Trim, ParseU64, Decimal;
    QuoteIsNoSpace();
    TrimIdle(RustSpace, EtagFor(revision));
    TrimQuotes(Decimal(revision));
    ParseDecimal(revision);
  }

  lemma QuoteIsNoSpace()
    ensures !RustSpace('"')
  {
  }

  // ----- which headers are accepted -----

  /** A number as `parse` reads it: an optional plus sign and at least one digit. */
  ghost predicate Numeral(s: string, n: nat)
  {
    exists digits ::
      (s == digits || s == "+" + digits) && digits != "" && Digits(digits) && DigitsValue(digits) == n
  }

  lemma NumeralIff(s: string, n: U64)
    ensures ParseU64(s) == Some(n) <==> Numeral(s, n)
  {
    hide DigitsValue;
    if |s| > 1 && s[0] == '+' {
      assert s == "+" + s[1..];
      forall digits | s == "+" + digits ensures digits == s[1..] { assert digits == ("+" + digits)[1..]; }
      assert !Digits(s);
    }
  }

  /** A numeral in any quotes, in any spaces. */
  ghost predicate Written(header: string, n: nat)
  {
    exists a, q, m, q', b ::
      && header == a + (q + m + q') + b && Numeral(m, n)
      && AllSpace(RustSpace, a) && AllSpace(RustSpace, b) && AllSpace(IsQuote, q) && AllSpace(IsQuote, q')
  }

  lemma NumeralEnds(m: string, n: nat)
    requires Numeral(m, n)
    ensures m != "" && !IsQuote(m[0]) && !IsQuote(m[|m| - 1]) && !RustSpace(m[0]) && !RustSpace(m[|m| - 1])
  {
    hide DigitsValue;
    var digits :| (m == digits || m == "+" + digits) && digits != "" && Digits(digits) && DigitsValue(digits) == n;
    assert m[|m| - 1] == digits[|digits| - 1];
    assert m[0] == '+' || m[0] == digits[0];
  }

  lemma QuotedEnds(q: string, m: string, q': string)
    requires AllSpace(IsQuote, q) && AllSpace(IsQuote, q') && m != "" && !RustSpace(m[0]) && !RustSpace(m[|m| - 1])
    ensures var s := q + m + q'; !RustSpace(s[0]) && !RustSpace(s[|s| - 1])
  {
    QuoteIsNoSpace();
    hide RustSpace;
    var s := q + m + q';
    assert s[0] == if q == "" then m[0] else q[0];
    assert s[|s| - 1] == if q' == "" then m[|m| - 1] else q'[|q'| - 1];
  }

  lemma WrittenTrims(header: string, n: nat)
    requires Written(header, n)
    ensures Numeral(Trim(IsQuote, Trim(RustSpace, header)), n)
  {
    hide RustSpace, Numeral, IsQuote, Trim, AllSpace;
    var a, q, m, q', b :|
      && header == a + (q + m + q') + b && Numeral(m, n)
      && AllSpace(RustSpace, a) && AllSpace(RustSpace, b) && AllSpace(IsQuote, q) && AllSpace(IsQuote, q');
    NumeralEnds(m, n);
    QuotedEnds(q, m, q');
    TrimUnique(RustSpace, a, q + m + q', b);
    TrimUnique(IsQuote, q, m, q');
  }

  lemma TrimsWritten(header: string, n: nat)
    requires Numeral(Trim(IsQuote, Trim(RustSpace, header)), n)
    ensures Written(header, n)
  {
    hide RustSpace, Numeral, IsQuote, Trim, AllSpace;
    var outer := Trim(RustSpace, header);
    var a, b := TrimExact(RustSpace, header);
    var q, q' := TrimExact(IsQuote, outer);
    assert header == a + (q + Trim(IsQuote, outer) + q') + b;
  }

  lemma VisibleIff(s: string)
    ensures VisibleAscii(s) <==> forall c :: c in s ==> c == '\t' || ' ' <= c <= '~'
  {
    if VisibleAscii(s) {
      forall c | c in s ensures c == '\t' || ' ' <= c <= '~' { var i :| 0 <= i < |s| && s[i] == c; }
    } else {
      var i :| 0 <= i < |s| && !(' ' <= s[i] <= '~' || s[i] == '\t');
      assert s[i] in s;
    }
  }

  /** A precondition names revision `n` exactly if it is readable and is a numeral for `n` in any quotes and spaces. */
  lemma IfMatchIff(header: string, n: U64)
    ensures ParseIfMatch(Some(header)) == Ok(n) <==>
              (forall c :: c in header ==> c == '\t' || ' ' <= c <= '~') && Written(header, n)
    ensures ParseIfMatch(Some(header)).Err? ==> ParseIfMatch(Some(header)).error.InvalidInput?
    ensures ParseIfMatch(None) == Err(PreconditionRequired)
  {
    VisibleIff(header);
    hide RustSpace, ParseU64, Numeral, VisibleAscii, Written, Trim;
    NumeralIff(Trim(IsQuote, Trim(RustSpace, header)), n);
    if Written(header, n) {
      WrittenTrims(header, n);
    }
    if Numeral(Trim(IsQuote, Trim(RustSpace, header)), n) {
      TrimsWritten(header, n);
    }
  }

  /** `PUT /v1/state`. */
  function PutRequest(cfg: Config, current: ControlPlaneState, header: Option<string>,
                      draft: ControlPlaneState): Result<ControlPlaneState>
  {
    match ParseIfMatch(header)
    case Err(e) => Err(e)
    case Ok(expected) => PutOutcome(cfg, current, expected, draft)
  }

  /** A put without a readable precondition is refused for that, whatever the draft and the state. */
  lemma PutNeedsPrecondition(cfg: Config, current: ControlPlaneState, header: Option<string>, draft: ControlPlaneState)
    ensures PutRequest(cfg, current, None, draft) == Err(PreconditionRequired)
    ensures ParseIfMatch(header).Err? ==> PutRequest(cfg, current, header, draft) == Err(ParseIfMatch(header).error)
    ensures forall n :: ParseIfMatch(header) == Ok(n) ==>
              PutRequest(cfg, current, header, draft) == PutOutcome(cfg, current, n, draft)
  {
    hide PutOutcome;
  }

  /**
   A draft sent with the tag of the state read at `i` is refused as a conflict at `j` exactly when
   another state was adopted in between; otherwise, if it is acceptable, it becomes the next revision.
   */
  lemma OptimisticConcurrency(cfg: Config, tr: seq<Sys>, acts: seq<Action>, i: nat, j: nat, draft: ControlPlaneState)
    requires History(cfg, tr, acts) && i <= j < |tr|
    ensures var r := PutRequest(cfg, tr[j].mem, Some(EtagFor(tr[i].mem.revision)), draft);
            && (r.Err? && r.error.Conflict? <==> exists m :: i <= m < j && Adopts(tr[m], acts[m]))
            && (r.Ok? ==>
                  && cfg.accepts(r.value)
                  && r.value == ControlPlaneState(tr[j].mem.schemaVersion, (tr[i].mem.revision + 1) % (MAX_U64 + 1),
                                                  draft.updatedBy, draft.servers))
  {
    hide ParseIfMatch, EtagFor, PutOutcome;
    EtagRoundTrip(tr[i].mem.revision);
    ConflictIffOvertaken(cfg, tr, acts, i, j, draft);
    PutOutcomeExact(cfg, tr[j].mem, tr[i].mem.revision, draft);
  }
}
