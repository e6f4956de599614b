/**
 The two tables the handlers share, as one immutable value: the `qr_codes`
 rows in insertion order and the append-only `scan_logs` rows. Rows are never
 removed; every handler only appends rows or rewrites fields of existing ones.
 Timestamps are milliseconds since the epoch.
 */
module QrStore {
  import opened Options

  /** A `qr_codes` row. `id` is assigned by the store on insert; `isActive`
      and `scanCount` take the column defaults `true` and `0`. */
  datatype QrRecord = QrRecord(
    id: nat,
    shortCode: string,
    originalUrl: string,
    name: string,
    createdAt: int,
    expiresAt: int,
    isActive: bool,
    scanCount: nat,
    lastScannedAt: Option<int>)

  /** The JavaScript value written to `is_wechat`: `userAgent && …` is the
      empty string itself when the user agent is empty, a boolean otherwise. */
  datatype WeChatValue = EmptyText | Flag(value: bool)

  /** A `scan_logs` row. */
  datatype ScanLog = ScanLog(
    qrCodeId: nat,
    userAgent: string,
    ipAddress: string,
    isWeChat: WeChatValue,
    scannedAt: int)

  datatype Store = Store(records: seq<QrRecord>, logs: seq<ScanLog>)

  const EmptyStore := Store([], [])

  // ---------------------------------------------------------------------
  // Invariants and the evolution relation
  // ---------------------------------------------------------------------

  predicate UniqueCodes(rs: seq<QrRecord>) {
    forall i, j :: 0 <= i < j < |rs| ==> rs[i].shortCode != rs[j].shortCode
  }

  /** The shape every store reachable through the three handlers has: short
      codes are unique, ids are positions, and every log refers to a row. */
  predicate WellFormed(s: Store) {
    && UniqueCodes(s.records)
    && (forall i :: 0 <= i < |s.records| ==> s.records[i].id == i)
    && (forall k :: 0 <= k < |s.logs| ==> s.logs[k].qrCodeId < |s.records|)
  }

  /** The fields no handler ever rewrites after the insert. */
  predicate SameIdentity(a: QrRecord, b: QrRecord) {
    && a.id == b.id
    && a.shortCode == b.shortCode
    && a.originalUrl == b.originalUrl
    && a.name == b.name
    && a.createdAt == b.createdAt
    && a.expiresAt == b.expiresAt
  }

  /** `t` is a possible later state of `s`: rows and logs are only appended,
      existing rows keep their identity, `isActive` never goes back from
      false to true and `scanCount` never decreases. */
  predicate Evolves(s: Store, t: Store) {
    && |s.records| <= |t.records|
    && |s.logs| <= |t.logs|
    && s.logs == t.logs[..|s.logs|]
    && forall i :: 0 <= i < |s.records| ==>
         && SameIdentity(s.records[i], t.records[i])
         && (t.records[i].isActive ==> s.records[i].isActive)
         && s.records[i].scanCount <= t.records[i].scanCount
  }

  lemma EvolvesReflexive(s: Store)
    ensures Evolves(s, s)
  {
  }

  lemma EvolvesTransitive(s: Store, t: Store, u: Store)
    requires Evolves(s, t) && Evolves(t, u)
    ensures Evolves(s, u)
  {
    assert t.logs[..|s.logs|] == u.logs[..|s.logs|];
  }

  // ---------------------------------------------------------------------
  // Lookup by short code
  // ---------------------------------------------------------------------

  /** The first row at or after `from` whose short code is `code`. */
  function FindCode(rs: seq<QrRecord>, code: string, from: nat): (r: Option<nat>)
    requires from <= |rs|
    ensures r.Some? ==> from <= r.value < |rs| && rs[r.value].shortCode == code
    ensures r.Some? ==> forall j :: from <= j < r.value ==> rs[j].shortCode != code
    ensures r.None? ==> forall j :: from <= j < |rs| ==> rs[j].shortCode != code
    decreases |rs| - from
  {
    if from == |rs| then None
    else if rs[from].shortCode == code then Some(from)
    else FindCode(rs, code, from + 1)
  }

  /** `.eq('short_code', code).single()`: the position of the row with that
      code when there is exactly one, and nothing when there are none or
      several (the query then reports an error and no data). */
  function Single(rs: seq<QrRecord>, code: string): (r: Option<nat>)
    ensures r.Some? ==> r.value < |rs| && rs[r.value].shortCode == code
    ensures r.Some? ==> forall j :: 0 <= j < |rs| && rs[j].shortCode == code ==> j == r.value
    ensures r.None? ==>
              || (forall i :: 0 <= i < |rs| ==> rs[i].shortCode != code)
              || (exists i, j :: 0 <= i < j < |rs| && rs[i].shortCode == code && rs[j].shortCode == code)
  {
    match FindCode(rs, code, 0)
    case None => None
    case Some(i) =>
      match FindCode(rs, code, i + 1)
      case None => Some(i)
      case Some(j) => None
  }

  /** Under unique codes `.single()` finds a code exactly when some row has it. */
  lemma SingleFindsPresentCode(rs: seq<QrRecord>, code: string, i: nat)
    requires UniqueCodes(rs) && i < |rs| && rs[i].shortCode == code
    ensures Single(rs, code) == Some(i)
  {
  }

  /** Rewriting fields other than the short code does not change what
      `.single()` returns. */
  lemma SingleIgnoresOtherFields(a: seq<QrRecord>, b: seq<QrRecord>, code: string)
    requires |a| == |b|
    requires forall i :: 0 <= i < |a| ==> a[i].shortCode == b[i].shortCode
    ensures Single(a, code) == Single(b, code)
  {
    var ra, rb := Single(a, code), Single(b, code);
    if ra.Some? && rb.None? {
      assert b[ra.value].shortCode == code;
    } else if ra.None? && rb.Some? {
      assert a[rb.value].shortCode == code;
    }
  }

  // ---------------------------------------------------------------------
  // Whole-table updates
  // ---------------------------------------------------------------------

  /** A record past its expiry that the sweep switches off. */
  predicate SweptAway(r: QrRecord, now: int) {
    r.isActive && r.expiresAt < now
  }

  function Expire(r: QrRecord, now: int): QrRecord {
    if SweptAway(r, now) then r.(isActive := false) else r
  }

  /** `cleanupExpired`: `update({is_active: false})` on the rows with
      `expires_at < now` and `is_active = true`. Strictly earlier: a row
      expiring exactly now is kept. */
  function Sweep(s: Store, now: int): (t: Store)
    ensures |t.records| == |s.records| && t.logs == s.logs
    ensures forall i :: 0 <= i < |s.records| ==>
              t.records[i].isActive == (s.records[i].isActive && now <= s.records[i].expiresAt)
    ensures forall i :: 0 <= i < |s.records| ==>
              t.records[i] == s.records[i].(isActive := t.records[i].isActive)
  {
    Store(seq(|s.records|, i requires 0 <= i < |s.records| => Expire(s.records[i], now)), s.logs)
  }

  /** After a sweep no active row has expired before `now`. */
  lemma SweepLeavesNoStaleActive(s: Store, now: int)
    ensures forall i :: 0 <= i < |s.records| ==> !SweptAway(Sweep(s, now).records[i], now)
  {
  }

  /** Two sweeps do what one sweep at the later time does; in particular a
      sweep repeated at the same time changes nothing. */
  lemma SweepsCompose(s: Store, a: int, b: int)
    ensures Sweep(Sweep(s, a), b) == Sweep(s, if a <= b then b else a)
  {
    var l, r := Sweep(Sweep(s, a), b).records, Sweep(s, if a <= b then b else a).records;
    assert forall i :: 0 <= i < |l| ==> l[i] == r[i];
  }

  lemma SweepIdempotent(s: Store, now: int)
    ensures Sweep(Sweep(s, now), now) == Sweep(s, now)
  {
    SweepsCompose(s, now, now);
  }

  /** `update({is_active: false}).eq('short_code', code)` of the DELETE request. */
  function SoftDelete(s: Store, code: string): (t: Store)
    ensures |t.records| == |s.records| && t.logs == s.logs
    ensures forall i :: 0 <= i < |s.records| ==>
              t.records[i].isActive == (s.records[i].isActive && s.records[i].shortCode != code)
    ensures forall i :: 0 <= i < |s.records| ==>
              t.records[i] == s.records[i].(isActive := t.records[i].isActive)
  {
    Store(seq(|s.records|, i requires 0 <= i < |s.records| =>
            if s.records[i].shortCode == code then s.records[i].(isActive := false) else s.records[i]),
          s.logs)
  }

  lemma SoftDeleteIdempotent(s: Store, code: string)
    ensures SoftDelete(SoftDelete(s, code), code) == SoftDelete(s, code)
  {
    var l, r := SoftDelete(SoftDelete(s, code), code).records, SoftDelete(s, code).records;
    assert forall i :: 0 <= i < |l| ==> l[i] == r[i];
  }

  /** `update({is_active: false}).eq('id', id)`: the lazy deactivation of the
      redirect handler. */
  function DeactivateId(s: Store, id: nat): (t: Store)
    ensures |t.records| == |s.records| && t.logs == s.logs
    ensures forall i :: 0 <= i < |s.records| ==>
              t.records[i].isActive == (s.records[i].isActive && s.records[i].id != id)
    ensures forall i :: 0 <= i < |s.records| ==>
              t.records[i] == s.records[i].(isActive := t.records[i].isActive)
  {
    Store(seq(|s.records|, i requires 0 <= i < |s.records| =>
            if s.records[i].id == id then s.records[i].(isActive := false) else s.records[i]),
          s.logs)
  }

  /** `update({scan_count: count, last_scanned_at: now}).eq('id', id)`. */
  function SetScanCount(s: Store, id: nat, count: nat, now: int): (t: Store)
    ensures |t.records| == |s.records| && t.logs == s.logs
    ensures forall i :: 0 <= i < |s.records| && s.records[i].id == id ==>
              t.records[i] == s.records[i].(scanCount := count, lastScannedAt := Some(now))
    ensures forall i :: 0 <= i < |s.records| && s.records[i].id != id ==> t.records[i] == s.records[i]
  {
    Store(seq(|s.records|, i requires 0 <= i < |s.records| =>
            if s.records[i].id == id then s.records[i].(scanCount := count, lastScannedAt := Some(now))
            else s.records[i]),
          s.logs)
  }

  /** The row `order('created_at', {ascending: false}).limit(1)` returns: one
      with the latest creation time (which one among equals is left open). */
  function Newest(rs: seq<QrRecord>): (r: Option<QrRecord>)
    ensures r.None? <==> |rs| == 0
    ensures r.Some? ==> r.value in rs
    ensures r.Some? ==> forall k :: 0 <= k < |rs| ==> rs[k].createdAt <= r.value.createdAt
  {
    if |rs| == 0 then None
    else
      match Newest(rs[..|rs| - 1])
      case None => Some(rs[|rs| - 1])
      case Some(p) => if rs[|rs| - 1].createdAt >= p.createdAt then Some(rs[|rs| - 1]) else Some(p)
  }

}
