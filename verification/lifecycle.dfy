/**
 Properties of the short-link lifecycle that span the three handlers: every
 handler keeps the store well formed and only moves it forward, a created
 link resolves to its URL until it expires, a deleted or expired link is a
 404, the expiry instant is treated the same way everywhere, and scans are
 counted one by one.
 */
module Lifecycle {
  import opened Options
  import opened Text
  import opened QrStore
  import opened Http
  import opened Redirect
  import opened CreateQr
  import opened ManageQr

  // ---------------------------------------------------------------------
  // Every handler keeps the store well formed and only moves it forward
  // ---------------------------------------------------------------------

  lemma SweepPreservesWellFormed(s: Store, now: int)
    requires WellFormed(s)
    ensures WellFormed(Sweep(s, now)) && Evolves(s, Sweep(s, now))
  {
    assert s.logs[..|s.logs|] == s.logs;
  }

  lemma LogScanPreservesWellFormed(s: Store, i: nat, req: RedirectRequest, now: int, w: ScanWrite)
    requires WellFormed(s) && i < |s.records|
    ensures var t := LogScan(s, s.records[i], req, now, w);
            WellFormed(t) && Evolves(s, t)
  {
    var rec := s.records[i];
    var logged := if w.logInserted then Store(s.records, s.logs + [ScanEntry(rec, req, now)]) else s;
    assert logged.logs[..|s.logs|] == s.logs;
    assert WellFormed(logged);
    var t := LogScan(s, rec, req, now, w);
    assert forall k :: 0 <= k < |s.records| && s.records[k].id == rec.id ==> k == i;
    assert forall k :: 0 <= k < |s.records| ==> t.records[k] == s.records[k] || k == i;
  }

  lemma DeactivatePreservesWellFormed(s: Store, id: nat)
    requires WellFormed(s)
    ensures WellFormed(DeactivateId(s, id)) && Evolves(s, DeactivateId(s, id))
  {
    assert s.logs[..|s.logs|] == s.logs;
  }

  lemma ResolvePreservesWellFormed(s: Store, req: RedirectRequest, now: int, lookupFails: bool, w: ScanWrite)
    requires WellFormed(s)
    ensures var t := Resolve(s, req, now, lookupFails, w).store;
            WellFormed(t) && Evolves(s, t)
  {
    match Lookup(s, req, lookupFails)
    case None =>
      EvolvesReflexive(s);
    case Some(i) =>
      var rec := s.records[i];
      if Live(rec, now) {
        LogScanPreservesWellFormed(s, i, req, now, w);
      } else if rec.isActive {
        DeactivatePreservesWellFormed(s, rec.id);
      } else {
        EvolvesReflexive(s);
      }
  }

  /** Appending a row with a fresh code and the next id keeps the store
      well formed. */
  lemma AppendPreservesWellFormed(s: Store, t: Store)
    requires WellFormed(s)
    requires t.logs == s.logs && |t.records| == |s.records| + 1 && t.records[..|s.records|] == s.records
    requires t.records[|s.records|].id == |s.records|
    requires forall k :: 0 <= k < |s.records| ==> s.records[k].shortCode != t.records[|s.records|].shortCode
    ensures WellFormed(t) && Evolves(s, t)
  {
    assert forall k :: 0 <= k < |s.records| ==> t.records[k] == s.records[k];
    assert s.logs[..|s.logs|] == s.logs;
  }

  lemma CreatedRowPreservesWellFormed(s: Store, req: CreateRequest, now: int, draws: seq<real>, insertFails: bool)
    requires WellFormed(s) && ValidDraws(draws)
    requires req.httpMethod == "POST" && Create(s, req, now, draws, insertFails).response.status == 200
    ensures var t := Create(s, req, now, draws, insertFails).store;
            WellFormed(t) && Evolves(Sweep(s, now), t)
  {
    var out := Create(s, req, now, draws, insertFails);
    var t := out.store;
    var swept := Sweep(s, now);
    var code := Allocate(s.records, draws).code;
    assert |t.records| == |s.records| + 1 && t.logs == s.logs;
    assert IsNewRecord(swept, t.records[|s.records|], code, req.body.value, now);
    SweepPreservesWellFormed(s, now);
    AllocateIgnoresSweep(s, now, draws);
    AllocatedCodeIsFresh(swept.records, draws);
    AppendPreservesWellFormed(swept, t);
  }

  lemma CreatePreservesWellFormed(s: Store, req: CreateRequest, now: int, draws: seq<real>, insertFails: bool)
    requires WellFormed(s) && ValidDraws(draws)
    ensures var t := Create(s, req, now, draws, insertFails).store;
            WellFormed(t) && Evolves(s, t)
  {
    var out := Create(s, req, now, draws, insertFails);
    if req.httpMethod != "POST" {
      EvolvesReflexive(s);
    } else {
      var swept := Sweep(s, now);
      SweepPreservesWellFormed(s, now);
      if out.response.status == 200 {
        CreatedRowPreservesWellFormed(s, req, now, draws, insertFails);
        EvolvesTransitive(s, swept, out.store);
      } else {
        assert out.store.records == out.store.records[..|s.records|] == swept.records;
      }
    }
  }

  lemma ManagePreservesWellFormed(s: Store, req: ManageRequest, now: int, queryFails: bool)
    requires WellFormed(s)
    ensures var t := Manage(s, req, now, queryFails).store;
            WellFormed(t) && Evolves(s, t)
  {
    assert s.logs[..|s.logs|] == s.logs;
  }

  /** A request to one of the three handlers, with its clock reading and the
      outcomes of the calls the model takes as inputs. */
  datatype Op =
    | CreateOp(createReq: CreateRequest, createNow: int, draws: seq<real>, insertFails: bool)
    | ResolveOp(resolveReq: RedirectRequest, resolveNow: int, lookupFails: bool, write: ScanWrite)
    | ManageOp(manageReq: ManageRequest, manageNow: int, queryFails: bool)

  predicate ValidOp(op: Op) {
    op.CreateOp? ==> ValidDraws(op.draws)
  }

  function Step(s: Store, op: Op): Outcome
    requires ValidOp(op)
  {
    match op
    case CreateOp(req, now, draws, insertFails) => Create(s, req, now, draws, insertFails)
    case ResolveOp(req, now, lookupFails, w) => Resolve(s, req, now, lookupFails, w)
    case ManageOp(req, now, queryFails) => Manage(s, req, now, queryFails)
  }

  /** The store after the requests `ops`, handled one after the other. */
  function Run(s: Store, ops: seq<Op>): Store
    requires forall k :: 0 <= k < |ops| ==> ValidOp(ops[k])
    decreases |ops|
  {
    if |ops| == 0 then s else Run(Step(s, ops[0]).store, ops[1..])
  }

  lemma StepPreservesWellFormed(s: Store, op: Op)
    requires WellFormed(s) && ValidOp(op)
    ensures WellFormed(Step(s, op).store) && Evolves(s, Step(s, op).store)
  {
    match op
    case CreateOp(req, now, draws, insertFails) => CreatePreservesWellFormed(s, req, now, draws, insertFails);
    case ResolveOp(req, now, lookupFails, w) => ResolvePreservesWellFormed(s, req, now, lookupFails, w);
    case ManageOp(req, now, queryFails) => ManagePreservesWellFormed(s, req, now, queryFails);
  }

  /** Any sequence of requests keeps the store well formed: codes stay
      unique, rows are never removed or re-identified, and a row once
      inactive is never active again. */
  lemma {:induction false} RunPreservesWellFormed(s: Store, ops: seq<Op>)
    requires WellFormed(s)
    requires forall k :: 0 <= k < |ops| ==> ValidOp(ops[k])
    ensures WellFormed(Run(s, ops)) && Evolves(s, Run(s, ops))
    decreases |ops|
  {
    if |ops| == 0 {
      EvolvesReflexive(s);
    } else {
      var t := Step(s, ops[0]).store;
      StepPreservesWellFormed(s, ops[0]);
      RunPreservesWellFormed(t, ops[1..]);
      assert Run(s, ops) == Run(t, ops[1..]);
      EvolvesTransitive(s, t, Run(t, ops[1..]));
    }
  }

  // ---------------------------------------------------------------------
  // Create, then resolve
  // ---------------------------------------------------------------------

  /** The shape of every route prefix: a '/', a lower-case word, a '/'. */
  lemma PrefixShape(j: nat)
    requires j < |Prefixes|
    ensures var p := Prefixes[j];
            |p| >= 3 && p[0] == '/' && p[|p| - 1] == '/' && (|p| == 3 ==> p[1] != 'r')
  {
  }

  /** The '/' characters of "/r/<code>" are the first and the third. */
  lemma RoutePathSlashes(code: string)
    requires forall k :: 0 <= k < |code| ==> IsAlnum(code[k])
    ensures forall k :: 0 <= k < |"/r/" + code| && ("/r/" + code)[k] == '/' ==> k == 0 || k == 2
  {
    var path := "/r/" + code;
    forall k | 0 <= k < |path| && path[k] == '/'
      ensures k == 0 || k == 2
    {
    }
  }

  /** None of the route patterns matches a "/r/" path. */
  lemma RoutePathMatchesNoPattern(code: string, j: nat)
    requires forall k :: 0 <= k < |code| ==> IsAlnum(code[k])
    requires j < |Prefixes|
    ensures MatchPattern("/r/" + code, Prefixes[j]).None?
  {
    var path := "/r/" + code;
    var p := Prefixes[j];
    PrefixShape(j);
    RoutePathSlashes(code);
    forall i: nat
      ensures !PrefixMatchAt(path, p, i)
    {
    }
  }

  /** The run after the last '/' is everything after it. */
  lemma {:induction false} TrailingRunAfterSlash(a: string, b: string)
    requires forall k :: 0 <= k < |b| ==> b[k] != '/'
    ensures TrailingRun(a + "/" + b) == b
    decreases |b|
  {
    var x := a + "/" + b;
    if |b| == 0 {
      assert x[|x| - 1] == '/';
    } else {
      var b' := b[..|b| - 1];
      TrailingRunAfterSlash(a, b');
      assert x[..|x| - 1] == a + "/" + b';
      assert x[|x| - 1] == b[|b| - 1];
      assert b' + [b[|b| - 1]] == b;
    }
  }

  /** The last segment of "/r/<code>" is the code. */
  lemma LastSegmentOfRoutePath(code: string)
    requires |code| > 0
    requires forall k :: 0 <= k < |code| ==> IsAlnum(code[k])
    ensures LastSegment("/r/" + code) == Some(code)
  {
    var path := "/r/" + code;
    assert path == "/r" + "/" + code;
    assert path[|path| - 1] == code[|code| - 1];
    assert TrimTrailingSlashes(path) == path;
    TrailingRunAfterSlash("/r", code);
  }

  /** The URL handed out by the create handler leads back to its code: the
      path "/r/<code>" matches no route pattern and its last segment is the
      code. */
  lemma ExtractShortCodeOfRoutePath(code: string)
    requires |code| > 0
    requires forall k :: 0 <= k < |code| ==> IsAlnum(code[k])
    ensures ExtractShortCode("/r/" + code) == Some(code)
  {
    var path := "/r/" + code;
    forall j | 0 <= j < |Prefixes|
      ensures MatchPattern(path, Prefixes[j]).None?
    {
      RoutePathMatchesNoPattern(code, j);
    }
    assert NoMatchFrom(path, 0);
    LastSegmentOfRoutePath(code);
  }

  /** Whatever the headers, the path of the URL handed out for an
      alphanumeric code leads back to that code. */
  lemma QrUrlLeadsBack(req: CreateRequest, code: string)
    requires |code| > 0
    requires forall k :: 0 <= k < |code| ==> IsAlnum(code[k])
    ensures var url := QrUrl(req, code);
            var path := url[|url| - |"/r/" + code|..];
            path == "/r/" + code && ExtractShortCode(path) == Some(code)
  {
    ExtractShortCodeOfRoutePath(code);
  }

  /** The create-to-resolve round trip: right after a successful creation,
      resolving the handed-out path at any time up to the expiry answers
      with the submitted URL, as a 302 or, inside WeChat, an interstitial. */
  lemma CreateThenResolve(
    s: Store, req: CreateRequest, now: int, draws: seq<real>,
    ua: string, ip: string, later: int, w: ScanWrite)
    requires WellFormed(s) && ValidDraws(draws)
    requires req.httpMethod == "POST"
    requires Create(s, req, now, draws, false).response.status == 200
    ensures var out := Create(s, req, now, draws, false);
            var created := out.response.body;
            && created.CreatedJson?
            && created.qrUrl == QrUrl(req, created.shortCode)
            && (later <= created.expiresAt ==>
                  var visit := RedirectRequest("/r/" + created.shortCode, "", ua, ip, "");
                  var answer := Resolve(out.store, visit, later, false, w).response;
                  && answer == CreateWeChatFriendlyRedirect(req.body.value.originalUrl, ua)
                  && (!IsWeChatEnvironment(ua) ==>
                        answer.status == 302 && answer.headers["Location"] == req.body.value.originalUrl))
  {
    var out := Create(s, req, now, draws, false);
    var t := out.store;
    var rec := t.records[|s.records|];
    CreatePreservesWellFormed(s, req, now, draws, false);
    var code := rec.shortCode;
    assert |code| == CodeLength;
    ExtractShortCodeOfRoutePath(code);
    var visit := RedirectRequest("/r/" + code, "", ua, ip, "");
    assert RequestPath(visit) == "/r/" + code;
    SingleFindsPresentCode(t.records, code, |s.records|);
    assert Lookup(t, visit, false) == Some(|s.records|);
  }

  // ---------------------------------------------------------------------
  // Deleted and expired links
  // ---------------------------------------------------------------------

  /** After a successful DELETE every request for that code is the 404 page,
      even before the link would have expired. */
  lemma DeleteThenResolve(
    s: Store, code: string, now: int, req: RedirectRequest, later: int, lookupFails: bool, w: ScanWrite)
    requires Manage(s, ManageRequest("DELETE", Some(code)), now, false).response.status == 200
    requires ExtractShortCode(RequestPath(req)) == Some(code)
    ensures var t := Manage(s, ManageRequest("DELETE", Some(code)), now, false).store;
            Resolve(t, req, later, lookupFails, w) == Outcome(NotFoundResponse, t)
  {
  }

  /** A lookup that finds a row past its expiry answers 404 and leaves the
      row inactive: the expiry is made durable on first access. */
  lemma ExpiredLinkIsDeactivated(s: Store, req: RedirectRequest, now: int, lookupFails: bool, w: ScanWrite)
    requires Lookup(s, req, lookupFails).Some?
    requires now > s.records[Lookup(s, req, lookupFails).value].expiresAt
    ensures var out := Resolve(s, req, now, lookupFails, w);
            && out.response == NotFoundResponse
            && !out.store.records[Lookup(s, req, lookupFails).value].isActive
  {
  }

  /** At the expiry instant itself a link is still live everywhere: the
      sweep keeps it, the listing shows it and the redirect follows it. One
      millisecond later the sweep switches it off, the listing drops it and
      the redirect answers 404. */
  lemma ExpiryBoundary(s: Store, i: nat, req: RedirectRequest, w: ScanWrite)
    requires i < |s.records| && s.records[i].isActive
    requires Lookup(s, req, false) == Some(i)
    ensures var at := s.records[i].expiresAt;
            && Sweep(s, at).records[i].isActive
            && Sweep(s, at).records[i] in ListActive(Sweep(s, at).records, at)
            && Resolve(s, req, at, false, w).response != NotFoundResponse
    ensures var after := s.records[i].expiresAt + 1;
            && !Sweep(s, after).records[i].isActive
            && Sweep(s, after).records[i] !in ListActive(Sweep(s, after).records, after)
            && Resolve(s, req, after, false, w).response == NotFoundResponse
  {
  }

  // ---------------------------------------------------------------------
  // Scan logging
  // ---------------------------------------------------------------------

  /** A successful resolution with both writes landing appends exactly one
      bounded log row and raises that row's count by one; nothing else
      changes. */
  lemma ResolutionLogsOneScan(s: Store, req: RedirectRequest, now: int)
    requires WellFormed(s)
    requires Lookup(s, req, false).Some? && Live(s.records[Lookup(s, req, false).value], now)
    ensures var i := Lookup(s, req, false).value;
            var t := Resolve(s, req, now, false, ScanWrite(true, true)).store;
            && |t.records| == |s.records|
            && |t.logs| == |s.logs| + 1 && t.logs[..|s.logs|] == s.logs
            && t.logs[|s.logs|].qrCodeId == i
            && t.logs[|s.logs|].userAgent == req.userAgent[..if |req.userAgent| <= 500 then |req.userAgent| else 500]
            && t.logs[|s.logs|].ipAddress == ClientIp(req)[..if |ClientIp(req)| <= 100 then |ClientIp(req)| else 100]
            && t.logs[|s.logs|].scannedAt == now
            && t.logs[|s.logs|].isWeChat == (if req.userAgent == "" then EmptyText else Flag(IsWeChatEnvironment(req.userAgent)))
            && t.records[i] == s.records[i].(scanCount := s.records[i].scanCount + 1, lastScannedAt := Some(now))
            && forall k :: 0 <= k < |s.records| && k != i ==> t.records[k] == s.records[k]
  {
    var i := Lookup(s, req, false).value;
    var t := Resolve(s, req, now, false, ScanWrite(true, true)).store;
    assert t.logs[..|s.logs|] == s.logs;
  }

  /** The store after resolving the same request at each of `times` in
      turn, with every scan write landing. */
  function ResolveAt(s: Store, req: RedirectRequest, times: seq<int>): Store
    decreases |times|
  {
    if |times| == 0 then s
    else Resolve(ResolveAt(s, req, times[..|times| - 1]), req, times[|times| - 1], false, ScanWrite(true, true)).store
  }

  /** Logging leaves every short code where it was, so the same request
      keeps finding the same row. */
  lemma LookupSurvivesLogging(s: Store, req: RedirectRequest, now: int)
    requires WellFormed(s)
    ensures var t := Resolve(s, req, now, false, ScanWrite(true, true)).store;
            Lookup(t, req, false) == Lookup(s, req, false)
  {
    var t := Resolve(s, req, now, false, ScanWrite(true, true)).store;
    ResolvePreservesWellFormed(s, req, now, false, ScanWrite(true, true));
    match ExtractShortCode(RequestPath(req))
    case None =>
    case Some(code) =>
      SingleIgnoresOtherFields(t.records, s.records, code);
  }

  /** One successful resolution as `ScansAreCounted` sees it. */
  lemma ResolveStep(s: Store, req: RedirectRequest, now: int)
    requires WellFormed(s)
    requires Lookup(s, req, false).Some? && Live(s.records[Lookup(s, req, false).value], now)
    ensures var i := Lookup(s, req, false).value;
            var t := Resolve(s, req, now, false, ScanWrite(true, true)).store;
            && WellFormed(t)
            && Lookup(t, req, false) == Some(i)
            && |t.records| == |s.records| && |t.logs| == |s.logs| + 1
            && t.records[i].isActive && t.records[i].expiresAt == s.records[i].expiresAt
            && t.records[i].scanCount == s.records[i].scanCount + 1
            && t.records[i].lastScannedAt == Some(now)
  {
    ResolutionLogsOneScan(s, req, now);
    ResolvePreservesWellFormed(s, req, now, false, ScanWrite(true, true));
    LookupSurvivesLogging(s, req, now);
  }

  /** `n` successful resolutions of a live link raise its count by exactly
      `n`, add `n` log rows and leave the time of the last one as its last
      scan; the link stays active and is found again each time. */
  lemma {:induction false} ScansAreCounted(s: Store, req: RedirectRequest, times: seq<int>)
    requires WellFormed(s)
    requires Lookup(s, req, false).Some?
    requires var r := s.records[Lookup(s, req, false).value];
             r.isActive && forall k :: 0 <= k < |times| ==> times[k] <= r.expiresAt
    ensures var i := Lookup(s, req, false).value;
            var t := ResolveAt(s, req, times);
            && WellFormed(t)
            && Lookup(t, req, false) == Some(i)
            && |t.records| == |s.records|
            && |t.logs| == |s.logs| + |times|
            && t.records[i].isActive && t.records[i].expiresAt == s.records[i].expiresAt
            && t.records[i].scanCount == s.records[i].scanCount + |times|
            && (|times| > 0 ==> t.records[i].lastScannedAt == Some(times[|times| - 1]))
    decreases |times|
  {
    if |times| > 0 {
      var earlier := times[..|times| - 1];
      ScansAreCounted(s, req, earlier);
      ResolveStep(ResolveAt(s, req, earlier), req, times[|times| - 1]);
    }
  }

}
