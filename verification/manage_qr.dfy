/**
 The management endpoint: after the sweep, GET lists the live rows newest
 first and DELETE switches off every row with a given short code.
 */
module ManageQr {
  import opened Options
  import opened QrStore
  import opened Http

  // ---------------------------------------------------------------------
  // The listing
  // ---------------------------------------------------------------------

  /** The filter `.eq('is_active', true).gte('expires_at', now)`. A row
      expiring exactly now is listed. */
  predicate Listed(r: QrRecord, now: int) {
    r.isActive && r.expiresAt >= now
  }

  function FilterListed(rs: seq<QrRecord>, now: int): (r: seq<QrRecord>)
    ensures forall x :: x in r <==> x in rs && Listed(x, now)
    ensures multiset(r) <= multiset(rs)
    ensures forall x :: Listed(x, now) ==> multiset(r)[x] == multiset(rs)[x]
  {
    if |rs| == 0 then []
    else
      var rest := FilterListed(rs[1..], now);
      assert rs == [rs[0]] + rs[1..];
      if Listed(rs[0], now) then [rs[0]] + rest else rest
  }

  /** `order('created_at', {ascending: false})` */
  predicate NewestFirst(rs: seq<QrRecord>) {
    forall i, j :: 0 <= i < j < |rs| ==> rs[i].createdAt >= rs[j].createdAt
  }

  /** Every row of a rearrangement of `rest` and `x` is created no later
      than `bound` when every row of `rest` and `x` itself are. */
  lemma CreatedNoLater(r: seq<QrRecord>, rest: seq<QrRecord>, x: QrRecord, bound: int)
    requires multiset(r) == multiset(rest) + multiset{x}
    requires x.createdAt <= bound
    requires forall k :: 0 <= k < |rest| ==> rest[k].createdAt <= bound
    ensures forall k :: 0 <= k < |r| ==> r[k].createdAt <= bound
  {
    forall k | 0 <= k < |r|
      ensures r[k].createdAt <= bound
    {
      assert r[k] in multiset(r);
      if r[k] != x {
        assert r[k] in multiset(rest);
        var j :| 0 <= j < |rest| && rest[j] == r[k];
      }
    }
  }

  function InsertByCreation(x: QrRecord, rs: seq<QrRecord>): (r: seq<QrRecord>)
    requires NewestFirst(rs)
    ensures NewestFirst(r)
    ensures multiset(r) == multiset(rs) + multiset{x}
  {
    if |rs| == 0 || x.createdAt >= rs[0].createdAt then
      [x] + rs
    else
      var tail := InsertByCreation(x, rs[1..]);
      assert rs == [rs[0]] + rs[1..];
      CreatedNoLater(tail, rs[1..], x, rs[0].createdAt);
      [rs[0]] + tail
  }

  /** Rows of equal creation time may come in any order; this model keeps
      one of them, which the contract does not pin down. */
  function SortNewestFirst(rs: seq<QrRecord>): (r: seq<QrRecord>)
    ensures NewestFirst(r)
    ensures multiset(r) == multiset(rs)
  {
    if |rs| == 0 then []
    else
      assert rs == [rs[0]] + rs[1..];
      InsertByCreation(rs[0], SortNewestFirst(rs[1..]))
  }

  /** The GET answer: exactly the listed rows, each as often as it is
      stored, newest first. */
  function ListActive(rs: seq<QrRecord>, now: int): (r: seq<QrRecord>)
    ensures NewestFirst(r)
    ensures forall x :: x in r <==> x in rs && Listed(x, now)
    ensures forall x :: Listed(x, now) ==> multiset(r)[x] == multiset(rs)[x]
  {
    var f := FilterListed(rs, now);
    var r := SortNewestFirst(f);
    assert forall x :: x in r <==> x in multiset(r);
    assert forall x :: x in f <==> x in multiset(f);
    r
  }

  // ---------------------------------------------------------------------
  // The handler
  // ---------------------------------------------------------------------

  /** `body` is `None` when `JSON.parse(event.body)` throws; an absent
      `shortCode` is the empty string. */
  datatype ManageRequest = ManageRequest(httpMethod: string, body: Option<string>)

  const ManageHeaders := CorsHeaders("GET, DELETE, OPTIONS")

  function JsonError(status: int, message: string): Response {
    Response(status, ManageHeaders, ErrorJson(message))
  }

  /** The manage handler at time `now`; `queryFails` is a rejected list or
      update query, which the handler rethrows into its generic 500. */
  function Manage(s: Store, req: ManageRequest, now: int, queryFails: bool): (out: Outcome)
    ensures req.httpMethod == "OPTIONS" ==> out == Outcome(Response(200, ManageHeaders, EmptyBody), s)
    // every other request sweeps first, even those answered 400, 405 or 500
    ensures req.httpMethod != "OPTIONS" && !(req.httpMethod == "DELETE" && out.response.status == 200) ==>
              out.store == Sweep(s, now)
    ensures req.httpMethod != "OPTIONS" && req.httpMethod != "GET" && req.httpMethod != "DELETE" ==>
              out.response == JsonError(405, "Method not allowed")
    ensures req.httpMethod == "GET" && !queryFails ==>
              out.response == Response(200, ManageHeaders, ListJson(ListActive(Sweep(s, now).records, now)))
    ensures req.httpMethod == "GET" && queryFails ==>
              out == Outcome(JsonError(500, "Internal server error"), Sweep(s, now))
    ensures req.httpMethod == "DELETE" && (req.body.None? || (req.body.value != "" && queryFails)) ==>
              out == Outcome(JsonError(500, "Internal server error"), Sweep(s, now))
    ensures out.response.status == 500 ==>
              out.response == JsonError(500, "Internal server error")
              && (queryFails || (req.httpMethod == "DELETE" && req.body.None?))
    ensures req.httpMethod == "DELETE" && req.body == Some("") ==>
              out.response == JsonError(400, "Missing shortCode")
    ensures req.httpMethod == "DELETE" && out.response.status == 200 ==>
              && req.body.Some? && req.body.value != "" && !queryFails
              && out.response.body == SuccessJson
              && out.store == SoftDelete(Sweep(s, now), req.body.value)
    ensures req.httpMethod == "DELETE" && req.body.Some? && req.body.value != "" && !queryFails ==>
              out.response.status == 200
  {
    if req.httpMethod == "OPTIONS" then Outcome(Response(200, ManageHeaders, EmptyBody), s)
    else
      var swept := Sweep(s, now);
      if req.httpMethod == "GET" then
        if queryFails then Outcome(JsonError(500, "Internal server error"), swept)
        else Outcome(Response(200, ManageHeaders, ListJson(ListActive(swept.records, now))), swept)
      else if req.httpMethod == "DELETE" then
        match req.body
        case None => Outcome(JsonError(500, "Internal server error"), swept)
        case Some(code) =>
          if code == "" then Outcome(JsonError(400, "Missing shortCode"), swept)
          else if queryFails then Outcome(JsonError(500, "Internal server error"), swept)
          else Outcome(Response(200, ManageHeaders, SuccessJson), SoftDelete(swept, code))
      else Outcome(JsonError(405, "Method not allowed"), swept)
  }

  /** Right after the sweep the expiry filter of the listing is redundant:
      every active row is listed. */
  lemma ListingAfterSweepIsActiveRows(s: Store, now: int)
    ensures forall x :: x in ListActive(Sweep(s, now).records, now) <==> x in Sweep(s, now).records && x.isActive
  {
  }

  /** The handler reads the clock twice, after the awaited sweep and again
      for the filter. With the sweep at `swept` and the filter at a later
      `listed`, a row is listed exactly when it was active before the sweep
      and has not expired by `listed`; a row expiring in between stays
      active in the table but is not listed. */
  lemma ListingAfterEarlierSweep(s: Store, swept: int, listed: int)
    requires swept <= listed
    ensures var rs := Sweep(s, swept).records;
            forall x :: x in ListActive(rs, listed) <==>
              exists i :: 0 <= i < |s.records| && x == rs[i] && s.records[i].isActive && listed <= s.records[i].expiresAt
    ensures var rs := Sweep(s, swept).records;
            forall i :: 0 <= i < |s.records| && s.records[i].isActive && swept <= s.records[i].expiresAt < listed ==>
              rs[i].isActive && rs[i] !in ListActive(rs, listed)
  {
  }

}
