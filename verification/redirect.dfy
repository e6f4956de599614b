/**
 The resolution endpoint: pull a short code out of the request path, look it
 up, refuse inactive or expired rows with one uniform 404, log the scan, and
 answer with a 302 redirect or, inside WeChat, with an interstitial page.
 */
module Redirect {
  import opened Options
  import opened Text
  import opened QrStore
  import opened Http

  // ---------------------------------------------------------------------
  // extractShortCode
  // ---------------------------------------------------------------------

  /** The route prefixes, in the order they are tried. Each stands for the
      unanchored pattern `prefix([a-zA-Z0-9]+)`. */
  const Prefixes: seq<string> := ["/go/", "/share/", "/s/", "/link/", "/l/", "/view/", "/v/", "/article/", "/a/"]

  /** `prefix` occurs at `i` and at least one alphanumeric character follows it. */
  predicate PrefixMatchAt(path: string, prefix: string, i: nat) {
    i + |prefix| < |path| && OccursAt(path, prefix, i) && IsAlnum(path[i + |prefix|])
  }

  /** The length of the longest alphanumeric run starting at `i`. */
  function AlnumRun(s: string, i: nat): (n: nat)
    requires i <= |s|
    ensures i + n <= |s|
    ensures forall k :: i <= k < i + n ==> IsAlnum(s[k])
    ensures i + n == |s| || !IsAlnum(s[i + n])
    decreases |s| - i
  {
    if i < |s| && IsAlnum(s[i]) then 1 + AlnumRun(s, i + 1) else 0
  }

  /** The leftmost position at or after `from` where the pattern matches. */
  function LeftmostMatch(path: string, prefix: string, from: nat): (r: Option<nat>)
    requires from <= |path|
    ensures r.Some? ==> from <= r.value < |path| && PrefixMatchAt(path, prefix, r.value)
    ensures r.Some? ==> forall k :: from <= k < r.value ==> !PrefixMatchAt(path, prefix, k)
    ensures r.None? ==> forall k: nat :: from <= k ==> !PrefixMatchAt(path, prefix, k)
    decreases |path| - from
  {
    if from == |path| then None
    else if PrefixMatchAt(path, prefix, from) then Some(from)
    else LeftmostMatch(path, prefix, from + 1)
  }

  /** `capture` is group 1 of the leftmost match of `prefix([a-zA-Z0-9]+)`,
      which sits at `i`: the greedy, hence maximal, alphanumeric run after
      the prefix. */
  ghost predicate CapturesAt(path: string, prefix: string, i: nat, capture: string) {
    && PrefixMatchAt(path, prefix, i)
    && (forall k: nat :: k < i ==> !PrefixMatchAt(path, prefix, k))
    && var start := i + |prefix|;
    && start + |capture| <= |path|
    && path[start..start + |capture|] == capture
    && |capture| > 0
    && (forall k :: 0 <= k < |capture| ==> IsAlnum(capture[k]))
    && (start + |capture| == |path| || !IsAlnum(path[start + |capture|]))
  }

  /** `path.match(pattern)` followed by `match[1]`. */
  function MatchPattern(path: string, prefix: string): (r: Option<string>)
    ensures r.None? <==> forall k: nat :: !PrefixMatchAt(path, prefix, k)
    ensures r.Some? ==> exists i: nat :: CapturesAt(path, prefix, i, r.value)
  {
    match LeftmostMatch(path, prefix, 0)
    case None => None
    case Some(i) =>
      var start := i + |prefix|;
      var capture := path[start..start + AlnumRun(path, start)];
      assert CapturesAt(path, prefix, i, capture);
      Some(capture)
  }

  /** Pattern `j` is the first of those from index `from` on that matches. */
  ghost predicate FirstMatchFrom(path: string, from: nat, j: nat) {
    && from <= j < |Prefixes|
    && MatchPattern(path, Prefixes[j]).Some?
    && forall m :: from <= m < j ==> MatchPattern(path, Prefixes[m]).None?
  }

  /** None of the patterns from index `from` on matches. */
  ghost predicate NoMatchFrom(path: string, from: nat) {
    forall m :: from <= m < |Prefixes| ==> MatchPattern(path, Prefixes[m]).None?
  }

  /** The patterns from index `k` on, then the last-segment fallback. */
  function ExtractFrom(path: string, k: nat): (r: Option<string>)
    requires k <= |Prefixes|
    ensures forall j: nat :: FirstMatchFrom(path, k, j) ==> r == MatchPattern(path, Prefixes[j])
    ensures NoMatchFrom(path, k) ==> r == LastSegment(path)
    ensures r.Some? ==> |r.value| > 0
    decreases |Prefixes| - k
  {
    if k == |Prefixes| then LastSegment(path)
    else
      match MatchPattern(path, Prefixes[k])
      case Some(capture) =>
        assert forall j: nat :: FirstMatchFrom(path, k, j) ==> j == k;
        Some(capture)
      case None =>
        assert forall j: nat :: FirstMatchFrom(path, k, j) ==> FirstMatchFrom(path, k + 1, j);
        ExtractFrom(path, k + 1)
  }

  /** `extractShortCode`: the capture of the first pattern in `Prefixes` that
      matches anywhere in the path, wherever later patterns match; failing
      all of them, the last non-empty segment. */
  function ExtractShortCode(path: string): (r: Option<string>)
    ensures forall j: nat :: FirstMatchFrom(path, 0, j) ==> r == MatchPattern(path, Prefixes[j])
    ensures NoMatchFrom(path, 0) ==> r == LastSegment(path)
    ensures r.Some? ==> |r.value| > 0
  {
    ExtractFrom(path, 0)
  }

  // ---------------------------------------------------------------------
  // The last-segment fallback
  // ---------------------------------------------------------------------

  function TrimTrailingSlashes(s: string): (t: string)
    ensures |t| <= |s| && t == s[..|t|]
    ensures forall k :: |t| <= k < |s| ==> s[k] == '/'
    ensures |t| == 0 || t[|t| - 1] != '/'
  {
    if |s| > 0 && s[|s| - 1] == '/' then TrimTrailingSlashes(s[..|s| - 1]) else s
  }

  /** The longest suffix of `s` without a '/'. */
  function TrailingRun(s: string): (t: string)
    ensures |t| <= |s| && t == s[|s| - |t|..]
    ensures forall k :: 0 <= k < |t| ==> t[k] != '/'
    ensures |t| == |s| || s[|s| - |t| - 1] == '/'
  {
    if |s| > 0 && s[|s| - 1] != '/' then TrailingRun(s[..|s| - 1]) + [s[|s| - 1]] else []
  }

  /** `segment` ends at `e` in `path`: it starts the path or follows a '/',
      and nothing but '/' comes after it. */
  ghost predicate SegmentEndsAt(path: string, segment: string, e: nat) {
    && |segment| <= e <= |path|
    && path[e - |segment|..e] == segment
    && (e == |segment| || path[e - |segment| - 1] == '/')
    && (forall k :: e <= k < |path| ==> path[k] == '/')
  }

  /** The last non-empty '/'-separated segment of `path`, if any. */
  function LastSegment(path: string): (r: Option<string>)
    ensures r.None? <==> forall k :: 0 <= k < |path| ==> path[k] == '/'
    ensures r.Some? ==> |r.value| > 0 && forall k :: 0 <= k < |r.value| ==> r.value[k] != '/'
    ensures r.Some? ==> SegmentEndsAt(path, r.value, |TrimTrailingSlashes(path)|)
  {
    var t := TrimTrailingSlashes(path);
    if |t| == 0 then None
    else
      var seg := TrailingRun(t);
      assert t == path[..|t|];
      assert path[|t| - |seg|..|t|] == t[|t| - |seg|..];
      assert |t| == |seg| || path[|t| - |seg| - 1] == t[|t| - |seg| - 1];
      Some(seg)
  }

  /** `.filter(Boolean)` on strings: drop the empty ones. */
  function NonEmpty(parts: seq<string>): (r: seq<string>)
    ensures forall k :: 0 <= k < |r| ==> r[k] != ""
  {
    if |parts| == 0 then []
    else NonEmpty(parts[..|parts| - 1]) + (if parts[|parts| - 1] == "" then [] else [parts[|parts| - 1]])
  }

  /** `segments[segments.length - 1]`, undefined on an empty array. */
  function LastOf(xs: seq<string>): Option<string> {
    if |xs| == 0 then None else Some(xs[|xs| - 1])
  }

  lemma {:induction false} LastSplitPieceIsTrailingRun(s: string)
    ensures Split(s, '/')[|Split(s, '/')| - 1] == TrailingRun(s)
    decreases |s|
  {
    if |s| > 0 {
      LastSplitPieceIsTrailingRun(s[..|s| - 1]);
    }
  }

  /** The fallback agrees with `path.split('/').filter(Boolean)` and taking
      the last element. */
  lemma {:induction false} LastSegmentIsLastSplitPiece(path: string)
    ensures LastSegment(path) == LastOf(NonEmpty(Split(path, '/')))
    decreases |path|
  {
    if |path| > 0 {
      var p := path[..|path| - 1];
      var c := path[|path| - 1];
      var init := Split(p, '/');
      SplitLastCharacter(path, '/');
      if c == '/' {
        LastSegmentIsLastSplitPiece(p);
        assert Split(path, '/') == init + [""];
        assert (init + [""])[..|init|] == init;
        assert TrimTrailingSlashes(path) == TrimTrailingSlashes(p);
      } else {
        LastSplitPieceIsTrailingRun(p);
        var parts := init[..|init| - 1] + [init[|init| - 1] + [c]];
        assert Split(path, '/') == parts;
        assert parts[..|parts| - 1] == init[..|init| - 1];
        assert TrimTrailingSlashes(path) == path;
        assert TrailingRun(path) == TrailingRun(p) + [c];
      }
    }
  }

  // ---------------------------------------------------------------------
  // WeChat detection and the response shape
  // ---------------------------------------------------------------------

  const WeChatMarker := "micromessenger"

  /** The user agent spells the WeChat marker at `i`, in any letter case. */
  predicate MarkerAt(ua: string, i: nat) {
    i + |WeChatMarker| <= |ua|
    && forall j :: 0 <= j < |WeChatMarker| ==> LowerChar(ua[i + j]) == WeChatMarker[j]
  }

  /** `isWeChatEnvironment`: a non-empty user agent whose lower-case form
      contains "micromessenger". */
  function IsWeChatEnvironment(userAgent: string): (r: bool)
    ensures r <==> |userAgent| > 0 && exists i: nat :: MarkerAt(userAgent, i)
  {
    var low := Lower(userAgent);
    assert forall i: nat :: OccursAt(low, WeChatMarker, i) <==> MarkerAt(userAgent, i) by {
      forall i: nat
        ensures OccursAt(low, WeChatMarker, i) <==> MarkerAt(userAgent, i)
      {
        if i + |WeChatMarker| <= |low| {
          var w := low[i..i + |WeChatMarker|];
          assert forall j :: 0 <= j < |WeChatMarker| ==> w[j] == LowerChar(userAgent[i + j]);
        }
      }
    }
    |userAgent| > 0 && Contains(low, WeChatMarker)
  }

  /** `createWeChatFriendlyRedirect`, headers and status: an interstitial
      page inside WeChat, a plain 302 to the stored URL elsewhere; neither
      may be cached. */
  function CreateWeChatFriendlyRedirect(originalUrl: string, userAgent: string): (resp: Response)
    ensures IsWeChatEnvironment(userAgent) ==>
              && resp.status == 200
              && resp.body == InterstitialPage(originalUrl)
              && "Content-Type" in resp.headers && resp.headers["Content-Type"] == HtmlType
              && "Location" !in resp.headers
              && "X-Frame-Options" in resp.headers && resp.headers["X-Frame-Options"] == "SAMEORIGIN"
              && "X-Content-Type-Options" in resp.headers && resp.headers["X-Content-Type-Options"] == "nosniff"
    ensures !IsWeChatEnvironment(userAgent) ==>
              && resp.status == 302
              && resp.body == EmptyBody
              && "Location" in resp.headers && resp.headers["Location"] == originalUrl
    ensures "Cache-Control" in resp.headers && resp.headers["Cache-Control"] == NoCache
    ensures "Pragma" in resp.headers && resp.headers["Pragma"] == "no-cache"
    ensures "Expires" in resp.headers && resp.headers["Expires"] == "0"
  {
    if IsWeChatEnvironment(userAgent) then
      Response(200, map[
        "Content-Type" := HtmlType,
        "Cache-Control" := NoCache,
        "Pragma" := "no-cache",
        "Expires" := "0",
        "X-Frame-Options" := "SAMEORIGIN",
        "X-Content-Type-Options" := "nosniff"], InterstitialPage(originalUrl))
    else
      Response(302, map[
        "Location" := originalUrl,
        "Cache-Control" := NoCache,
        "Pragma" := "no-cache",
        "Expires" := "0"], EmptyBody)
  }

  // ---------------------------------------------------------------------
  // The handler
  // ---------------------------------------------------------------------

  /** The parts of the incoming event the handler reads; an absent header or
      field is the empty string, which the handler treats the same way. */
  datatype RedirectRequest = RedirectRequest(
    path: string,
    rawUrl: string,
    userAgent: string,
    forwardedFor: string,
    bbIp: string)

  /** `event.path || event.rawUrl || ''`: the first non-empty candidate. */
  function RequestPath(req: RedirectRequest): (path: string)
    ensures req.path != "" ==> path == req.path
    ensures req.path == "" ==> path == req.rawUrl
    ensures path == "" <==> req.path == "" && req.rawUrl == ""
  {
    if req.path != "" then req.path else req.rawUrl
  }

  /** `x-forwarded-for || x-bb-ip || ''`: the first non-empty header. */
  function ClientIp(req: RedirectRequest): (ip: string)
    ensures req.forwardedFor != "" ==> ip == req.forwardedFor
    ensures req.forwardedFor == "" ==> ip == req.bbIp
    ensures ip == "" <==> req.forwardedFor == "" && req.bbIp == ""
  {
    if req.forwardedFor != "" then req.forwardedFor else req.bbIp
  }

  /** How far the un-awaited `logScan` got. Its two writes land or fail
      independently: a rejected insert is reported, not thrown, so the count
      update still runs after it. */
  datatype ScanWrite = ScanWrite(logInserted: bool, countUpdated: bool)

  const MaxUserAgent := 500
  const MaxIpAddress := 100

  /** The `scan_logs` row of one successful resolution. */
  function ScanEntry(rec: QrRecord, req: RedirectRequest, now: int): (log: ScanLog)
    ensures log.qrCodeId == rec.id && log.scannedAt == now
    // the first 500 characters of the user agent and the first 100 of the address
    ensures |log.userAgent| == (if |req.userAgent| <= MaxUserAgent then |req.userAgent| else MaxUserAgent)
    ensures |log.userAgent| <= |req.userAgent| && log.userAgent == req.userAgent[..|log.userAgent|]
    ensures |log.ipAddress| == (if |ClientIp(req)| <= MaxIpAddress then |ClientIp(req)| else MaxIpAddress)
    ensures |log.ipAddress| <= |ClientIp(req)| && log.ipAddress == ClientIp(req)[..|log.ipAddress|]
    // `is_wechat` is the empty string for an empty user agent, else the WeChat test
    ensures log.isWeChat.EmptyText? <==> req.userAgent == ""
    ensures log.isWeChat.Flag? ==> log.isWeChat.value == IsWeChatEnvironment(req.userAgent)
  {
    ScanLog(rec.id, Truncate(req.userAgent, MaxUserAgent), Truncate(ClientIp(req), MaxIpAddress),
            WeChatField(req.userAgent), now)
  }

  /** The value of `isWeChatEnvironment(userAgent)` itself rather than its
      truthiness: `&&` returns its left operand when that is falsy. */
  function WeChatField(userAgent: string): WeChatValue {
    if userAgent == "" then EmptyText else Flag(IsWeChatEnvironment(userAgent))
  }

  /** `logScan`: append the log row, then write back the count read at
      lookup time plus one. */
  function LogScan(s: Store, rec: QrRecord, req: RedirectRequest, now: int, w: ScanWrite): (t: Store)
    // one log row is added exactly when the insert lands
    ensures w.logInserted ==> t.logs == s.logs + [ScanEntry(rec, req, now)]
    ensures !w.logInserted ==> t.logs == s.logs
    // the scanned row gets the count read at lookup plus one exactly when the update lands
    ensures |t.records| == |s.records|
    ensures forall i :: 0 <= i < |s.records| && s.records[i].id == rec.id ==>
              t.records[i] == if w.countUpdated
                              then s.records[i].(scanCount := rec.scanCount + 1, lastScannedAt := Some(now))
                              else s.records[i]
    ensures forall i :: 0 <= i < |s.records| && s.records[i].id != rec.id ==> t.records[i] == s.records[i]
  {
    var logged := if w.logInserted then Store(s.records, s.logs + [ScanEntry(rec, req, now)]) else s;
    if w.countUpdated then SetScanCount(logged, rec.id, rec.scanCount + 1, now) else logged
  }

  /** The row the lookup produces: none when no code is extracted, when the
      query fails, or when `.single()` does not find exactly one row. */
  function Lookup(s: Store, req: RedirectRequest, lookupFails: bool): (r: Option<nat>)
    ensures r.Some? <==>
              && ExtractShortCode(RequestPath(req)).Some? && !lookupFails
              && Single(s.records, ExtractShortCode(RequestPath(req)).value).Some?
    ensures r.Some? ==>
              && r.value < |s.records|
              && s.records[r.value].shortCode == ExtractShortCode(RequestPath(req)).value
              && forall j :: 0 <= j < |s.records| && s.records[j].shortCode == s.records[r.value].shortCode ==> j == r.value
  {
    match ExtractShortCode(RequestPath(req))
    case None => None
    case Some(code) => if lookupFails then None else Single(s.records, code)
  }

  /** The handler follows a row only when it is active and `now` is not past
      its expiry; `now == expiresAt` still resolves. */
  predicate Live(r: QrRecord, now: int) {
    r.isActive && now <= r.expiresAt
  }

  /** The redirect handler at time `now`. Every failure, whatever its cause,
      is the same 404; only a live row gets the WeChat-aware redirect. */
  function Resolve(s: Store, req: RedirectRequest, now: int, lookupFails: bool, w: ScanWrite): (out: Outcome)
    ensures out.response.status == 404 <==> out.response == NotFoundResponse
    ensures out.response != NotFoundResponse <==>
              Lookup(s, req, lookupFails).Some? && Live(s.records[Lookup(s, req, lookupFails).value], now)
    ensures match Lookup(s, req, lookupFails)
              case None => out.store == s
              case Some(i) =>
                var rec := s.records[i];
                if Live(rec, now) then
                  out.response == CreateWeChatFriendlyRedirect(rec.originalUrl, req.userAgent)
                  && out.store == LogScan(s, rec, req, now, w)
                else if rec.isActive then out.store == DeactivateId(s, rec.id)
                else out.store == s
  {
    match Lookup(s, req, lookupFails)
    case None => Outcome(NotFoundResponse, s)
    case Some(i) =>
      var rec := s.records[i];
      if !rec.isActive || now > rec.expiresAt then
        var s' := if rec.isActive && now > rec.expiresAt then DeactivateId(s, rec.id) else s;
        Outcome(NotFoundResponse, s')
      else
        Outcome(CreateWeChatFriendlyRedirect(rec.originalUrl, req.userAgent), LogScan(s, rec, req, now, w))
  }

}
