/**
 The creation endpoint: gate on the method, sweep expired rows, validate the
 body, allocate an unused random short code within ten attempts, name the
 record after the newest one, insert it and answer with its public URL.
 `Math.random` is a stream of draws and `Date.now()` is `now`.
 */
module CreateQr {
  import opened Options
  import opened Text
  import opened QrStore
  import opened Http

  // ---------------------------------------------------------------------
  // generateShortCode
  // ---------------------------------------------------------------------

  const CodeLength := 8
  const AlphabetSize := 62
  const MaxAttempts := 10

  /** Character `k` of "ABCDEFGHIJKLMNOPQRSTUVWXYZabcdefghijklmnopqrstuvwxyz0123456789". */
  function AlphabetChar(k: nat): (c: char)
    requires k < AlphabetSize
    ensures IsAlnum(c)
  {
    if k < 26 then ('A' as int + k) as char
    else if k < 52 then ('a' as int + (k - 26)) as char
    else ('0' as int + (k - 52)) as char
  }

  /** Every alphanumeric character has its place in the alphabet. */
  function AlphabetIndex(c: char): (k: nat)
    requires IsAlnum(c)
    ensures k < AlphabetSize && AlphabetChar(k) == c
  {
    if 'A' <= c <= 'Z' then c as int - 'A' as int
    else if 'a' <= c <= 'z' then c as int - 'a' as int + 26
    else c as int - '0' as int + 52
  }

  /** A value `Math.random()` can return. */
  predicate IsRandomDraw(x: real) {
    0.0 <= x < 1.0
  }

  /** `chars.charAt(Math.floor(x * chars.length))` */
  function CharOfDraw(x: real): (c: char)
    requires IsRandomDraw(x)
    ensures IsAlnum(c)
  {
    AlphabetChar((x * AlphabetSize as real).Floor)
  }

  /** `generateShortCode`, given the eight draws it consumes: exactly eight
      characters, each from the 62-symbol alphabet. */
  function GenerateShortCode(draws: seq<real>): (code: string)
    requires |draws| == CodeLength
    requires forall k :: 0 <= k < |draws| ==> IsRandomDraw(draws[k])
    ensures |code| == CodeLength
    ensures forall k :: 0 <= k < |code| ==> IsAlnum(code[k])
  {
    seq(CodeLength, k requires 0 <= k < CodeLength => CharOfDraw(draws[k]))
  }

  /** Conversely, every eight-character alphanumeric string is a possible
      code: draw `k/62` to get character `k`. */
  lemma EveryCodeIsGenerable(code: string)
    requires |code| == CodeLength
    requires forall k :: 0 <= k < |code| ==> IsAlnum(code[k])
    ensures exists draws: seq<real> ::
              && |draws| == CodeLength
              && (forall k :: 0 <= k < |draws| ==> IsRandomDraw(draws[k]))
              && GenerateShortCode(draws) == code
  {
    var draws := seq(CodeLength, k requires 0 <= k < CodeLength => AlphabetIndex(code[k]) as real / AlphabetSize as real);
    forall k | 0 <= k < CodeLength
      ensures IsRandomDraw(draws[k]) && CharOfDraw(draws[k]) == code[k]
    {
      var i := AlphabetIndex(code[k]);
      assert draws[k] * AlphabetSize as real == i as real;
    }
    assert GenerateShortCode(draws) == code;
  }

  // ---------------------------------------------------------------------
  // The allocation loop
  // ---------------------------------------------------------------------

  /** A prefix of the `Math.random()` stream long enough for every attempt. */
  predicate ValidDraws(draws: seq<real>) {
    && |draws| >= MaxAttempts * CodeLength
    && forall k :: 0 <= k < |draws| ==> IsRandomDraw(draws[k])
  }

  /** The code generated on attempt `attempt` (counting from 0). */
  function Candidate(draws: seq<real>, attempt: nat): (code: string)
    requires ValidDraws(draws) && attempt < MaxAttempts
    ensures |code| == CodeLength && forall k :: 0 <= k < |code| ==> IsAlnum(code[k])
  {
    GenerateShortCode(draws[attempt * CodeLength..(attempt + 1) * CodeLength])
  }

  /** The existence check `select('id').eq('short_code', code).single()`
      returns a row. */
  predicate Taken(rs: seq<QrRecord>, code: string) {
    Single(rs, code).Some?
  }

  /** The answers of the existence checks for the ten candidates. Each
      check is a read of a store nothing else writes meanwhile, so asking all
      ten up front changes only how many are asked, which `FirstFree`
      counts. */
  function CheckAll(rs: seq<QrRecord>, draws: seq<real>): (taken: seq<bool>)
    requires ValidDraws(draws)
    ensures |taken| == MaxAttempts
    ensures forall k :: 0 <= k < MaxAttempts ==> taken[k] == Taken(rs, Candidate(draws, k))
  {
    seq(MaxAttempts, k requires 0 <= k < MaxAttempts => Taken(rs, Candidate(draws, k)))
  }

  /** The loop over the check answers from attempt `attempt` on: the first
      attempt whose code is free, or `|taken|` when every one is taken. */
  function FirstFree(taken: seq<bool>, attempt: nat): (k: nat)
    requires attempt <= |taken|
    ensures attempt <= k <= |taken|
    ensures k < |taken| ==> !taken[k]
    ensures forall j :: attempt <= j < k ==> taken[j]
    decreases |taken| - attempt
  {
    if attempt == |taken| || !taken[attempt] then attempt else FirstFree(taken, attempt + 1)
  }

  /** The result of the loop with the number of existence checks it made. */
  datatype Allocation = Allocated(code: string, checks: nat) | Exhausted(checks: nat)

  /** The `while (!isUnique && attempts < 10)` loop: the first candidate not
      in use, found with one check per attempt, or failure after ten. */
  function Allocate(rs: seq<QrRecord>, draws: seq<real>): (a: Allocation)
    requires ValidDraws(draws)
    ensures 1 <= a.checks <= MaxAttempts
    ensures a.Allocated? ==> a.code == Candidate(draws, a.checks - 1) && !Taken(rs, a.code)
    ensures a.Allocated? ==> forall k :: 0 <= k < a.checks - 1 ==> Taken(rs, Candidate(draws, k))
    ensures a.Exhausted? ==> a.checks == MaxAttempts
    ensures a.Exhausted? ==> forall k :: 0 <= k < MaxAttempts ==> Taken(rs, Candidate(draws, k))
  {
    var taken := CheckAll(rs, draws);
    var k := FirstFree(taken, 0);
    if k < MaxAttempts then Allocated(Candidate(draws, k), k + 1) else Exhausted(MaxAttempts)
  }

  /** In a store with unique codes the allocated code is in no row. */
  lemma AllocatedCodeIsFresh(rs: seq<QrRecord>, draws: seq<real>)
    requires UniqueCodes(rs) && ValidDraws(draws)
    requires Allocate(rs, draws).Allocated?
    ensures forall i :: 0 <= i < |rs| ==> rs[i].shortCode != Allocate(rs, draws).code
  {
    var code := Allocate(rs, draws).code;
    forall i | 0 <= i < |rs|
      ensures rs[i].shortCode != code
    {
      if rs[i].shortCode == code {
        SingleFindsPresentCode(rs, code, i);
      }
    }
  }

  /** On an empty table the first candidate is taken after one check. */
  lemma EmptyTableAllocatesFirstCandidate(draws: seq<real>)
    requires ValidDraws(draws)
    ensures Allocate([], draws) == Allocated(Candidate(draws, 0), 1)
  {
    assert !Taken([], Candidate(draws, 0));
  }

  // ---------------------------------------------------------------------
  // getNextName
  // ---------------------------------------------------------------------

  const NamePrefix := "QR-"
  const FirstName := "QR-001"

  /** `parseInt(name.split('-')[1]) || 0`: the number in the second
      '-'-separated field; no such field, no leading digits or zero all give 0. */
  function NameNumber(name: string): int {
    var parts := Split(name, '-');
    if |parts| < 2 then 0
    else
      match ParseInt(parts[1])
      case None => 0
      case Some(n) => n
  }

  /** `'QR-' + (n + 1).toString().padStart(3, '0')` */
  function NameAfter(n: int): string {
    NamePrefix + PadStart(IntString(n + 1), 3, '0')
  }

  /** For a count of -1 or more the name carries the next count in digits,
      zero-padded. */
  lemma NameAfterDigits(n: int)
    requires n >= -1
    ensures var field := NameAfter(n)[3..];
            AllDigits(field) && DecimalValue(field) == n + 1
  {
    var d := DecimalString(n + 1);
    var p := PadStart(d, 3, '0');
    DecimalValueIgnoresLeadingZeros(|p| - |d|, d);
    DecimalValueOfDecimalString(n + 1);
    assert NameAfter(n)[3..] == p;
  }

  /** The second field never holds a '-', so the number read from it is
      never negative. */
  lemma NameNumberIsNatural(name: string)
    ensures NameNumber(name) >= 0
  {
    var parts := Split(name, '-');
    if |parts| >= 2 {
      ParseIntWithoutMinus(parts[1]);
    }
  }

  /** `getNextName`, given the name of the newest row if there is one. */
  function NextName(newest: Option<string>): (name: string)
    ensures newest.None? ==> name == FirstName
    ensures |name| >= 6 && name[..3] == NamePrefix
    ensures newest.Some? ==>
              && AllDigits(name[3..])
              && DecimalValue(name[3..]) == NameNumber(newest.value) + 1
    // padded to three digits and no further
    ensures |name| > 6 ==> name[3] != '0'
  {
    match newest
    case None => FirstName
    case Some(last) =>
      NameNumberIsNatural(last);
      NameAfterDigits(NameNumber(last));
      NameAfterPadsToThree(NameNumber(last));
      NameAfter(NameNumber(last))
  }

  /** A numeral of three or more digits is written without padding, so it
      does not start with '0'. */
  lemma NameAfterPadsToThree(n: int)
    requires n >= 0
    ensures |NameAfter(n)| > 6 ==> NameAfter(n)[3] != '0'
  {
    var d := DecimalString(n + 1);
    var p := PadStart(d, 3, '0');
    assert NameAfter(n) == NamePrefix + p;
    if |p| > 3 {
      assert Repeat('0', 0) + d == d;
      assert p == d;
      assert NameAfter(n)[3] == d[0];
    }
  }

  lemma NameAfterZero()
    ensures NameAfter(0) == FirstName
  {
    assert DecimalString(1) == "1";
    assert PadStart("1", 3, '0') == "001";
  }

  lemma SplitOfNamePrefix()
    ensures Split(NamePrefix, '-') == ["QR", ""]
  {
    SplitWithoutSeparator("QR", '-');
    assert NamePrefix[..2] == "QR" && NamePrefix[2] == '-';
  }

  /** `name.split('-')` of "QR-" followed by a field without '-'. */
  lemma SplitOfPrefixedName(field: string)
    requires forall k :: 0 <= k < |field| ==> field[k] != '-'
    ensures Split(NamePrefix + field, '-') == ["QR", field]
  {
    SplitOfNamePrefix();
    SplitExtendsLastPiece(NamePrefix, field, '-');
    assert "" + field == field;
  }

  /** The name written for number `n` reads back as `n + 1`: the sequence of
      names counts up by one, padded to at least three digits and never cut. */
  lemma NameNumberOfNameAfter(n: int)
    requires n >= -1
    ensures NameNumber(NameAfter(n)) == n + 1
  {
    var d := DecimalString(n + 1);
    var p := PadStart(d, 3, '0');
    DecimalValueIgnoresLeadingZeros(|p| - |d|, d);
    assert forall k :: 0 <= k < |p| ==> p[k] != '-' by {
      assert AllDigits(p);
    }
    SplitOfPrefixedName(p);
    ParseIntOfPaddedDecimal(n + 1, 3);
    assert NameAfter(n) == NamePrefix + p;
    assert Split(NameAfter(n), '-')[1] == p;
  }

  /** Every name the handler writes reads back as one more than the newest
      name's number; the first name reads back as 1. */
  lemma NextNameCountsUp(newest: Option<string>)
    ensures NameNumber(NextName(newest)) == if newest.None? then 1 else NameNumber(newest.value) + 1
  {
    match newest
    case None =>
      NameAfterZero();
      NameNumberOfNameAfter(0);
    case Some(last) =>
      NameNumberIsNatural(last);
      NameNumberOfNameAfter(NameNumber(last));
  }

  /** The count passes 999 without wrapping or truncation. */
  lemma NextNameAfter999()
    ensures NextName(Some("QR-999")) == "QR-1000"
  {
    NameNumberOf999();
    NameAfter999();
  }

  lemma NameAfter999()
    ensures NameAfter(999) == "QR-1000"
  {
    DecimalStringOf1000();
    assert PadStart("1000", 3, '0') == "1000";
    assert NamePrefix + "1000" == "QR-1000";
  }

  lemma NameNumberOf999()
    ensures NameNumber("QR-999") == 999
  {
    SplitOfPrefixedName("999");
    assert NamePrefix + "999" == "QR-999";
    ParseIntOfDigits("999");
    DecimalValueOf999();
  }

  lemma DecimalValueOf999()
    ensures DecimalValue("999") == 999
  {
    assert "999"[..2] == "99" && "99"[..1] == "9" && "9"[..0] == "";
    assert DecimalValue("9") == 9;
    assert DecimalValue("99") == 99;
  }

  lemma DecimalStringOf1000()
    ensures IntString(1000) == "1000"
  {
    assert DigitChar(0) == '0' && DigitChar(1) == '1';
    assert DecimalString(1) == "1";
    assert DecimalString(10) == "10";
    assert DecimalString(100) == "100";
    assert DecimalString(1000) == "1000";
  }

  /** A newest name without a '-' restarts the count at 1. */
  lemma NextNameWithoutNumber(name: string)
    requires forall k :: 0 <= k < |name| ==> name[k] != '-'
    ensures NextName(Some(name)) == FirstName
  {
    SplitWithoutSeparator(name, '-');
    NameAfterZero();
  }

  // ---------------------------------------------------------------------
  // The handler
  // ---------------------------------------------------------------------

  /** The JSON body; an absent or falsy field is "" or 0. */
  datatype CreateBody = CreateBody(originalUrl: string, expiresInMinutes: int)

  /** `body` is `None` when `JSON.parse(event.body)` throws. */
  datatype CreateRequest = CreateRequest(
    httpMethod: string,
    body: Option<CreateBody>,
    host: string,
    forwardedProto: string)

  const MinuteMs := 60 * 1000

  /** The largest magnitude of a valid `Date` time value; `toISOString`
      throws a RangeError beyond it. */
  const MaxTimeValue := 8_640_000_000_000_000

  /** `Date.now() + expiresInMinutes * 60 * 1000`. */
  function ExpiryTime(b: CreateBody, now: int): int {
    now + b.expiresInMinutes * MinuteMs
  }

  predicate IsTimeValue(t: int) {
    -MaxTimeValue <= t <= MaxTimeValue
  }

  const CreateHeaders := CorsHeaders("POST, OPTIONS")

  function JsonError(status: int, message: string): Response {
    Response(status, CreateHeaders, ErrorJson(message))
  }

  /** `${protocol}://${host}/r/${shortCode}`, where an absent
      `x-forwarded-proto` means https and an absent `host` means localhost. */
  function QrUrl(req: CreateRequest, code: string): (url: string)
    // the URL ends with the redirect path of the code
    ensures |url| >= |"/r/" + code| && url[|url| - |"/r/" + code|..] == "/r/" + code
    ensures req.forwardedProto == "" && req.host == "" ==> url == "https://localhost/r/" + code
    // a missing protocol header alone still gives https
    ensures req.forwardedProto == "" ==> |url| >= 8 && url[..8] == "https://"
    ensures req.forwardedProto != "" ==>
              |req.forwardedProto| + 3 <= |url| && url[..|req.forwardedProto| + 3] == req.forwardedProto + "://"
    // a missing host header alone still gives localhost
    ensures req.host == "" ==>
              var at := |url| - |"/r/" + code| - 9;
              at >= 0 && url[at..|url| - |"/r/" + code|] == "localhost"
    ensures req.host != "" ==>
              var at := |url| - |"/r/" + code| - |req.host|;
              at >= 0 && url[at..|url| - |"/r/" + code|] == req.host
    // nothing else is in the URL
    ensures |url| == (if req.forwardedProto != "" then |req.forwardedProto| else 5) + 3
                     + (if req.host != "" then |req.host| else 9) + 3 + |code|
  {
    var protocol := if req.forwardedProto != "" then req.forwardedProto else "https";
    var host := if req.host != "" then req.host else "localhost";
    var url := protocol + "://" + host + "/r/" + code;
    assert url == (protocol + "://") + host + ("/r/" + code);
    url
  }

  function NewestName(rs: seq<QrRecord>): Option<string> {
    match Newest(rs)
    case None => None
    case Some(r) => Some(r.name)
  }

  /** The body passes the `!originalUrl || !expiresInMinutes` check. Only
      truthiness is tested, so a negative number of minutes passes. */
  predicate ValidBody(b: CreateBody) {
    b.originalUrl != "" && b.expiresInMinutes != 0
  }

  /** The row inserted for `code`: named after the newest row, created now,
      active, never scanned. */
  predicate IsNewRecord(s: Store, rec: QrRecord, code: string, b: CreateBody, now: int) {
    && rec.id == |s.records|
    && rec.shortCode == code
    && rec.originalUrl == b.originalUrl
    && rec.name == NextName(NewestName(s.records))
    && rec.createdAt == now
    && rec.expiresAt == ExpiryTime(b, now)
    && rec.isActive && rec.scanCount == 0 && rec.lastScannedAt.None?
  }

  /** Naming, the expiry and the insert of a row for an allocated code. */
  function InsertCode(s: Store, req: CreateRequest, b: CreateBody, code: string, now: int, insertFails: bool): (out: Outcome)
    ensures out.store.logs == s.logs
    ensures out.response.status != 200 ==> out.response.status == 500 && out.store == s
    // `toISOString` throws before the insert is sent, whatever the store would answer
    ensures !IsTimeValue(ExpiryTime(b, now)) ==>
              out == Outcome(JsonError(500, "Internal server error"), s)
    ensures IsTimeValue(ExpiryTime(b, now)) && insertFails ==>
              out == Outcome(JsonError(500, "Database error"), s)
    ensures IsTimeValue(ExpiryTime(b, now)) && !insertFails ==>
              out.response.status == 200
    ensures out.response.status == 200 ==>
              && |out.store.records| == |s.records| + 1
              && out.store.records[..|s.records|] == s.records
              && IsNewRecord(s, out.store.records[|s.records|], code, b, now)
              && out.response.body == CreatedJson(code, out.store.records[|s.records|].name,
                                                  out.store.records[|s.records|].expiresAt, QrUrl(req, code))
  {
    var name := NextName(NewestName(s.records));
    var expiresAt := ExpiryTime(b, now);
    if !IsTimeValue(expiresAt) then Outcome(JsonError(500, "Internal server error"), s)
    else if insertFails then Outcome(JsonError(500, "Database error"), s)
    else
      var rec := QrRecord(|s.records|, code, b.originalUrl, name, now, expiresAt, true, 0, None);
      var t := Store(s.records + [rec], s.logs);
      assert t.records[..|s.records|] == s.records && t.records[|s.records|] == rec;
      Outcome(Response(200, CreateHeaders, CreatedJson(code, name, expiresAt, QrUrl(req, code))), t)
  }

  /** What follows validation: allocation, naming, the expiry, the insert. */
  function Insert(s: Store, req: CreateRequest, b: CreateBody, now: int, draws: seq<real>, insertFails: bool): (out: Outcome)
    requires ValidDraws(draws)
    ensures out.store.logs == s.logs
    ensures |out.store.records| == |s.records| + 1 <==> out.response.status == 200
    ensures out.response.status != 200 ==> out.response.status == 500 && out.store == s
    ensures Allocate(s.records, draws).Exhausted? ==>
              out.response == JsonError(500, "Unable to generate unique short code")
    ensures Allocate(s.records, draws).Allocated? && !IsTimeValue(ExpiryTime(b, now)) ==>
              out.response == JsonError(500, "Internal server error")
    ensures Allocate(s.records, draws).Allocated? && IsTimeValue(ExpiryTime(b, now)) && insertFails ==>
              out.response == JsonError(500, "Database error")
    ensures Allocate(s.records, draws).Allocated? && IsTimeValue(ExpiryTime(b, now)) && !insertFails ==>
              out.response.status == 200
    ensures out.response.status == 200 ==>
              && Allocate(s.records, draws).Allocated?
              && out.store.records[..|s.records|] == s.records
              && IsNewRecord(s, out.store.records[|s.records|], Allocate(s.records, draws).code, b, now)
              && out.response.body == CreatedJson(Allocate(s.records, draws).code, out.store.records[|s.records|].name,
                                                  out.store.records[|s.records|].expiresAt, QrUrl(req, Allocate(s.records, draws).code))
  {
    match Allocate(s.records, draws)
    case Exhausted(_) => Outcome(JsonError(500, "Unable to generate unique short code"), s)
    case Allocated(code, _) => InsertCode(s, req, b, code, now, insertFails)
  }

  /** A POST after the sweep: parse, validate, then insert. */
  function Post(s: Store, req: CreateRequest, now: int, draws: seq<real>, insertFails: bool): (out: Outcome)
    requires ValidDraws(draws)
    ensures out.store.logs == s.logs
    ensures |out.store.records| == |s.records| + 1 <==> out.response.status == 200
    ensures out.response.status != 200 ==> out.store == s
    ensures out.response.status == 400 <==> req.body.Some? && !ValidBody(req.body.value)
    ensures out.response.status == 400 ==> out.response == JsonError(400, "Missing required fields")
    ensures req.body.None? ==> out.response == JsonError(500, "Internal server error")
    ensures req.body.Some? && ValidBody(req.body.value) ==> out == Insert(s, req, req.body.value, now, draws, insertFails)
  {
    match req.body
    case None => Outcome(JsonError(500, "Internal server error"), s)
    case Some(b) =>
      if !ValidBody(b) then Outcome(JsonError(400, "Missing required fields"), s)
      else Insert(s, req, b, now, draws, insertFails)
  }

  /** The create handler at time `now`. */
  function Create(s: Store, req: CreateRequest, now: int, draws: seq<real>, insertFails: bool): (out: Outcome)
    requires ValidDraws(draws)
    // method gating, before the store is touched
    ensures req.httpMethod == "OPTIONS" ==> out == Outcome(Response(200, CreateHeaders, EmptyBody), s)
    ensures req.httpMethod != "OPTIONS" && req.httpMethod != "POST" ==>
              out == Outcome(JsonError(405, "Method not allowed"), s)
    // a POST always sweeps first and then inserts at most one row
    ensures req.httpMethod == "POST" ==>
              && out.store.logs == s.logs
              && |s.records| <= |out.store.records| <= |s.records| + 1
              && out.store.records[..|s.records|] == Sweep(s, now).records
    // validation precedes allocation and insertion
    ensures out.response.status == 400 <==>
              req.httpMethod == "POST" && req.body.Some? && !ValidBody(req.body.value)
    ensures out.response.status == 400 ==>
              out == Outcome(JsonError(400, "Missing required fields"), Sweep(s, now))
    // a row is inserted exactly when the answer is 200 to a POST
    ensures req.httpMethod == "POST" ==>
              (|out.store.records| == |s.records| + 1 <==> out.response.status == 200)
    ensures req.httpMethod == "POST" && out.response.status == 200 ==>
              && req.body.Some? && ValidBody(req.body.value) && Allocate(s.records, draws).Allocated?
              && IsNewRecord(Sweep(s, now), out.store.records[|s.records|], Allocate(s.records, draws).code,
                             req.body.value, now)
              && out.response.body == CreatedJson(Allocate(s.records, draws).code, out.store.records[|s.records|].name,
                                                  out.store.records[|s.records|].expiresAt,
                                                  QrUrl(req, Allocate(s.records, draws).code))
    // a valid POST succeeds exactly when a code is free, the expiry is a
    // valid date and the insert lands
    ensures req.httpMethod == "POST" && req.body.Some? && ValidBody(req.body.value)
              && Allocate(s.records, draws).Allocated?
              && IsTimeValue(ExpiryTime(req.body.value, now)) && !insertFails ==>
              out.response.status == 200
    // the three ways a POST with a valid body fails with 500
    ensures req.httpMethod == "POST" && req.body.Some? && ValidBody(req.body.value)
              && Allocate(s.records, draws).Exhausted? ==>
              out == Outcome(JsonError(500, "Unable to generate unique short code"), Sweep(s, now))
    ensures req.httpMethod == "POST" && req.body.Some? && ValidBody(req.body.value)
              && Allocate(s.records, draws).Allocated?
              && !IsTimeValue(ExpiryTime(req.body.value, now)) ==>
              out == Outcome(JsonError(500, "Internal server error"), Sweep(s, now))
    ensures req.httpMethod == "POST" && req.body.Some? && ValidBody(req.body.value)
              && Allocate(s.records, draws).Allocated?
              && IsTimeValue(ExpiryTime(req.body.value, now)) && insertFails ==>
              out == Outcome(JsonError(500, "Database error"), Sweep(s, now))
    ensures req.httpMethod == "POST" && req.body.None? ==>
              out == Outcome(JsonError(500, "Internal server error"), Sweep(s, now))
  {
    if req.httpMethod == "OPTIONS" then Outcome(Response(200, CreateHeaders, EmptyBody), s)
    else if req.httpMethod != "POST" then Outcome(JsonError(405, "Method not allowed"), s)
    else
      var swept := Sweep(s, now);
      assert swept.records[..|s.records|] == swept.records;
      AllocateIgnoresSweep(s, now, draws);
      Post(swept, req, now, draws, insertFails)
  }

  /** The sweep does not touch short codes, so the allocator sees the same
      codes before and after it. */
  lemma AllocateIgnoresSweep(s: Store, now: int, draws: seq<real>)
    requires ValidDraws(draws)
    ensures Allocate(Sweep(s, now).records, draws) == Allocate(s.records, draws)
  {
    AllocateDependsOnCodes(Sweep(s, now).records, s.records, draws);
  }

  /** The allocator reads nothing of the rows but their short codes. */
  lemma AllocateDependsOnCodes(a: seq<QrRecord>, b: seq<QrRecord>, draws: seq<real>)
    requires ValidDraws(draws)
    requires |a| == |b| && forall i :: 0 <= i < |a| ==> a[i].shortCode == b[i].shortCode
    ensures Allocate(a, draws) == Allocate(b, draws)
  {
    forall k | 0 <= k < MaxAttempts
      ensures CheckAll(a, draws)[k] == CheckAll(b, draws)[k]
    {
      SingleIgnoresOtherFields(a, b, Candidate(draws, k));
    }
    assert CheckAll(a, draws) == CheckAll(b, draws);
  }

}
