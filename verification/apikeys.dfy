/** The API key store: the `api_keys` table as a map from key to row, and
    the operations that create, verify, count and deactivate keys. Time is
    a number of microseconds supplied by the caller. */
module ApiKeys {
  import opened Wrappers

  /** `datetime` resolves time to the microsecond. */
  const MicrosPerDay: int := 86400 * 1_000_000

  /** Request defaults: 30 days of validity, no usage limit. */
  const DefaultExpiresInDays: int := 30
  const DefaultUsageLimit: int := -1

  /** HTTP status raised by the key check. */
  const Forbidden: int := 403

  /** Instants are microseconds since 0001-01-01 00:00:00, the first
      instant a `datetime` can hold; `MaxInstant` is the last one it can
      hold, 9999-12-31 23:59:59.999999 (day number 3652059). */
  const MaxInstant: int := 3652059 * MicrosPerDay - 1
  type Instant = t: int | 0 <= t <= MaxInstant

  /** The range of an SQLite INTEGER, a signed 64-bit value. */
  const MinSqlInteger: int := -0x8000_0000_0000_0000
  const MaxSqlInteger: int := 0x7fff_ffff_ffff_ffff

  predicate FitsSqlInteger(n: int) {
    MinSqlInteger <= n <= MaxSqlInteger
  }

  /** Adding `days` days to `now` leaves the range of `datetime`; only a
      positive lifetime is added at all. */
  predicate ExpiryOverflows(days: int, now: Instant) {
    days > 0 && now + days * MicrosPerDay > MaxInstant
  }

  /** One row of `api_keys`. */
  datatype KeyRecord = KeyRecord(
    id: int,
    key: string,
    userEmail: string,
    userName: string,
    createdAt: int,
    expiresAt: Option<int>,
    usageCount: int,
    usageLimit: int,
    isActive: bool)

  /** The table, keyed by its UNIQUE `key` column, with the next
      AUTOINCREMENT id. */
  datatype Store = Store(rows: map<string, KeyRecord>, nextId: int)

  /** Rows are filed under their own key and carry distinct ids below
      `nextId`. */
  predicate Valid(st: Store) {
    && 1 <= st.nextId
    && (forall k :: k in st.rows ==> st.rows[k].key == k && 1 <= st.rows[k].id < st.nextId)
    && (forall k1, k2 :: k1 in st.rows && k2 in st.rows && k1 != k2 ==> st.rows[k1].id != st.rows[k2].id)
  }

  function EmptyStore(): (st: Store)
    ensures Valid(st) && st.rows == map[]
  {
    Store(map[], 1)
  }

  /** The body of a create request. `expiresInDays` is `None` when the
      client sent an explicit null. */
  datatype CreateRequest = CreateRequest(
    userEmail: string,
    userName: string,
    expiresInDays: Option<int>,
    usageLimit: int)

  /** A request that relies on both defaults. */
  function DefaultRequest(userEmail: string, userName: string): CreateRequest {
    CreateRequest(userEmail, userName, Some(DefaultExpiresInDays), DefaultUsageLimit)
  }

  datatype CreateError =
    | ExpiryNotComparable  // `None > 0` raises a TypeError
    | DateOutOfRange       // the expiry lies past year 9999: OverflowError
    | IntegerOutOfRange    // sqlite3 cannot bind the limit as a 64-bit INTEGER: OverflowError
    | KeyTaken             // the UNIQUE constraint on `key` rejects the insert

  /** `create_api_key` with the generated token `key` and the clock `now`.
      The errors come in the order the source meets them: the lifetime
      comparison, the expiry sum, binding the INSERT's parameters, and
      finally the constraint check of the INSERT itself. */
  function Create(st: Store, req: CreateRequest, key: string, now: Instant): (r: Result<(Store, KeyRecord), CreateError>)
    ensures req.expiresInDays.None? ==> r == Failure(ExpiryNotComparable)
    ensures req.expiresInDays.Some? && ExpiryOverflows(req.expiresInDays.value, now) ==>
      r == Failure(DateOutOfRange)
    ensures req.expiresInDays.Some? && !ExpiryOverflows(req.expiresInDays.value, now) && !FitsSqlInteger(req.usageLimit) ==>
      r == Failure(IntegerOutOfRange)
    ensures r == Failure(KeyTaken) <==>
      && req.expiresInDays.Some? && !ExpiryOverflows(req.expiresInDays.value, now)
      && FitsSqlInteger(req.usageLimit) && key in st.rows
    ensures r.Success? <==>
      && req.expiresInDays.Some? && !ExpiryOverflows(req.expiresInDays.value, now)
      && FitsSqlInteger(req.usageLimit) && key !in st.rows
    ensures r.Success? ==>
      var (st', rec) := r.value;
      && st'.rows == st.rows[key := rec]
      && st'.nextId == st.nextId + 1
      && rec.id == st.nextId
      && rec.key == key && rec.userEmail == req.userEmail && rec.userName == req.userName
      && rec.createdAt == now
      && rec.usageCount == 0 && rec.isActive
      && rec.usageLimit == req.usageLimit
      && (req.expiresInDays.value > 0 ==> rec.expiresAt == Some(now + req.expiresInDays.value * MicrosPerDay))
      && (req.expiresInDays.value <= 0 ==> rec.expiresAt.None?)
      && (rec.expiresAt.Some? ==> rec.createdAt < rec.expiresAt.value <= MaxInstant)
  {
    match req.expiresInDays
    case None => Failure(ExpiryNotComparable)
    case Some(days) =>
      if ExpiryOverflows(days, now) then Failure(DateOutOfRange)
      else
        var expiresAt := if days > 0 then Some(now + days * MicrosPerDay) else None;
        if !FitsSqlInteger(req.usageLimit) then Failure(IntegerOutOfRange)
        else if key in st.rows then Failure(KeyTaken)
        else
          var rec := KeyRecord(st.nextId, key, req.userEmail, req.userName, now, expiresAt, 0, req.usageLimit, true);
          Success((Store(st.rows[key := rec], st.nextId + 1), rec))
  }

  /** `APIKeyManager.get_api_key`: the row for `key`, if any. */
  function Lookup(st: Store, key: string): (r: Option<KeyRecord>)
    ensures r.Some? <==> key in st.rows
    ensures r.Some? ==> r.value == st.rows[key]
  {
    if key in st.rows then Some(st.rows[key]) else None
  }

  /** `st'` differs from `st` at most in the row of `key`. */
  predicate OnlyRowChanged(st: Store, st': Store, key: string) {
    && st'.nextId == st.nextId
    && st'.rows.Keys == st.rows.Keys
    && forall k :: k in st.rows && k != key ==> st'.rows[k] == st.rows[k]
  }

  /** `increment_usage`: add one to the usage count of `key`'s row; an
      unknown key updates no row. */
  function IncrementUsage(st: Store, key: string): (st': Store)
    ensures OnlyRowChanged(st, st', key)
    ensures key !in st.rows ==> st' == st
    ensures key in st.rows ==>
      && st'.rows[key].usageCount == st.rows[key].usageCount + 1
      && st'.rows[key] == st.rows[key].(usageCount := st'.rows[key].usageCount)
  {
    if key in st.rows then
      var rec := st.rows[key];
      st.(rows := st.rows[key := rec.(usageCount := rec.usageCount + 1)])
    else st
  }

  /** `deactivate_api_key`: clear `is_active` on `key`'s row and report
      whether the UPDATE matched a row. */
  function Deactivate(st: Store, key: string): (r: (bool, Store))
    ensures r.0 <==> key in st.rows
    ensures OnlyRowChanged(st, r.1, key)
    ensures key !in st.rows ==> r.1 == st
    ensures key in st.rows ==> r.1.rows[key] == st.rows[key].(isActive := false)
  {
    if key in st.rows then
      (true, st.(rows := st.rows[key := st.rows[key].(isActive := false)]))
    else (false, st)
  }

  /** The row has passed its expiry instant. */
  predicate Expired(rec: KeyRecord, now: int) {
    rec.expiresAt.Some? && now > rec.expiresAt.value
  }

  /** The row has used up a positive usage limit; a limit of 0 or below
      means unlimited. */
  predicate Exhausted(rec: KeyRecord) {
    rec.usageLimit > 0 && rec.usageCount >= rec.usageLimit
  }

  datatype Verdict = Verdict(valid: bool, store: Store)

  /** `verify_api_key` at time `now`. */
  function Verify(st: Store, key: string, now: int): (v: Verdict)
    ensures v.valid <==>
      key in st.rows && st.rows[key].isActive && !Expired(st.rows[key], now) && !Exhausted(st.rows[key])
    ensures OnlyRowChanged(st, v.store, key)
    ensures key !in st.rows || !st.rows[key].isActive ==> v.store == st
    ensures key in st.rows && st.rows[key].isActive && Expired(st.rows[key], now) ==>
      v.store.rows[key] == st.rows[key].(isActive := false)
    ensures key in st.rows && st.rows[key].isActive && !Expired(st.rows[key], now) && Exhausted(st.rows[key]) ==>
      v.store == st
    ensures v.valid ==> v.store.rows[key] == st.rows[key].(usageCount := st.rows[key].usageCount + 1)
  {
    match Lookup(st, key)
    case None => Verdict(false, st)
    case Some(rec) =>
      if !rec.isActive then Verdict(false, st)
      else if Expired(rec, now) then Verdict(false, Deactivate(st, key).1)
      else if Exhausted(rec) then Verdict(false, st)
      else Verdict(true, IncrementUsage(st, key))
  }

  /** Python truthiness of an optional string: present and non-empty. */
  predicate Given(s: Option<string>) {
    s.Some? && s.value != ""
  }

  /** `api_key_header or api_key_query`. */
  function ChosenKey(header: Option<string>, query: Option<string>): (k: Option<string>)
    ensures Given(header) ==> k == header
    ensures !Given(header) ==> k == query
  {
    if Given(header) then header else query
  }

  /** The `get_api_key` dependency: the chosen key if it verifies,
      otherwise HTTP 403. */
  function Authenticate(st: Store, header: Option<string>, query: Option<string>, now: int)
    : (r: (Result<string, int>, Store))
    ensures !Given(ChosenKey(header, query)) ==> r == (Failure(Forbidden), st)
    ensures Given(ChosenKey(header, query)) ==>
      var v := Verify(st, ChosenKey(header, query).value, now);
      && r.1 == v.store
      && (v.valid ==> r.0 == Success(ChosenKey(header, query).value))
      && (!v.valid ==> r.0 == Failure(Forbidden))
    ensures r.0.Success? ==> r.0.value != "" && r.0.value in st.rows && st.rows[r.0.value].isActive
  {
    var chosen := ChosenKey(header, query);
    if !Given(chosen) then (Failure(Forbidden), st)
    else
      var v := Verify(st, chosen.value, now);
      if v.valid then (Success(chosen.value), v.store) else (Failure(Forbidden), v.store)
  }

  /** The rows `list_api_keys(active_only)` selects. */
  predicate Selected(rec: KeyRecord, activeOnly: bool) {
    !activeOnly || rec.isActive
  }

  /** `list_api_keys`: every selected row exactly once, in no particular
      order (the query has no ORDER BY). */
  method ListKeys(st: Store, activeOnly: bool) returns (rs: seq<KeyRecord>)
    requires Valid(st)
    ensures forall i :: 0 <= i < |rs| ==> rs[i].key in st.rows && rs[i] == st.rows[rs[i].key] && Selected(rs[i], activeOnly)
    ensures forall k :: k in st.rows && Selected(st.rows[k], activeOnly) ==> st.rows[k] in rs
    ensures forall i, j :: 0 <= i < j < |rs| ==> rs[i].key != rs[j].key
  {
    rs := [];
    var remaining := st.rows.Keys;
    while remaining != {}
      invariant remaining <= st.rows.Keys
      invariant forall i :: 0 <= i < |rs| ==>
        rs[i].key in st.rows && rs[i].key !in remaining && rs[i] == st.rows[rs[i].key] && Selected(rs[i], activeOnly)
      invariant forall k :: k in st.rows && k !in remaining && Selected(st.rows[k], activeOnly) ==> st.rows[k] in rs
      invariant forall i, j :: 0 <= i < j < |rs| ==> rs[i].key != rs[j].key
      decreases remaining
    {
      var k :| k in remaining;
      if Selected(st.rows[k], activeOnly) {
        rs := rs + [st.rows[k]];
      }
      remaining := remaining - {k};
    }
  }

  /** Creating a key keeps the table well formed. */
  lemma CreatePreservesValid(st: Store, req: CreateRequest, key: string, now: Instant)
    requires Valid(st)
    requires Create(st, req, key, now).Success?
    ensures Valid(Create(st, req, key, now).value.0)
  {
    var st' := Create(st, req, key, now).value.0;
    assert forall k :: k in st'.rows && k != key ==> st'.rows[k] == st.rows[k];
    forall k1, k2 | k1 in st'.rows && k2 in st'.rows && k1 != k2
      ensures st'.rows[k1].id != st'.rows[k2].id
    {
      if k1 != key && k2 != key {
        assert st.rows[k1].id != st.rows[k2].id;
      }
    }
  }

  /** Updating one row in place, without touching its key or id, keeps
      the table well formed. */
  lemma RowUpdatePreservesValid(st: Store, st': Store, key: string)
    requires Valid(st) && OnlyRowChanged(st, st', key)
    requires key in st.rows ==> st'.rows[key].key == key && st'.rows[key].id == st.rows[key].id
    ensures Valid(st')
  {
    assert forall k :: k in st'.rows ==> st'.rows[k].key == st.rows[k].key && st'.rows[k].id == st.rows[k].id;
  }

  lemma UpdatesPreserveValid(st: Store, key: string, now: int)
    requires Valid(st)
    ensures Valid(Verify(st, key, now).store)
    ensures Valid(Deactivate(st, key).1)
    ensures Valid(IncrementUsage(st, key))
  {
    RowUpdatePreservesValid(st, Verify(st, key, now).store, key);
    RowUpdatePreservesValid(st, Deactivate(st, key).1, key);
    RowUpdatePreservesValid(st, IncrementUsage(st, key), key);
  }

  /** No key with a positive limit has been used more often than it. */
  predicate WithinLimits(st: Store) {
    forall k :: k in st.rows && st.rows[k].usageLimit > 0 ==> st.rows[k].usageCount <= st.rows[k].usageLimit
  }

  /** One verification never pushes a key past its usage limit. */
  lemma VerifyKeepsLimits(st: Store, key: string, now: int)
    requires WithinLimits(st)
    ensures WithinLimits(Verify(st, key, now).store)
  {
    var v := Verify(st, key, now);
    forall k | k in v.store.rows && v.store.rows[k].usageLimit > 0
      ensures v.store.rows[k].usageCount <= v.store.rows[k].usageLimit
    {
      if k != key {
        assert v.store.rows[k] == st.rows[k];
      }
    }
  }

  /** Verification never pushes a key past its usage limit, and a new key
      starts within it. */
  lemma LimitsRespected(st: Store, req: CreateRequest, key: string, now: Instant)
    requires WithinLimits(st)
    ensures WithinLimits(Verify(st, key, now).store)
    ensures Create(st, req, key, now).Success? ==> WithinLimits(Create(st, req, key, now).value.0)
    ensures WithinLimits(Deactivate(st, key).1)
  {
    VerifyKeepsLimits(st, key, now);
  }

  /** Verify the calls `(key, now)` one after another; the final table and
      each call's answer. */
  function VerifyMany(st: Store, calls: seq<(string, int)>): (r: (Store, seq<bool>))
    ensures |r.1| == |calls|
    decreases |calls|
  {
    if |calls| == 0 then (st, [])
    else
      var v := Verify(st, calls[0].0, calls[0].1);
      var rest := VerifyMany(v.store, calls[1..]);
      (rest.0, [v.valid] + rest.1)
  }

  /** How many of the calls for `key` succeeded. */
  function Successes(calls: seq<(string, int)>, answers: seq<bool>, key: string): nat
    requires |answers| == |calls|
  {
    if |calls| == 0 then 0
    else (if calls[0].0 == key && answers[0] then 1 else 0) + Successes(calls[1..], answers[1..], key)
  }

  /** A key's usage count grows by exactly the number of its successful
      verifications; keys are neither added nor removed. */
  lemma {:induction false} UsageCountsSuccesses(st: Store, calls: seq<(string, int)>, key: string)
    requires key in st.rows
    ensures var r := VerifyMany(st, calls);
      && r.0.rows.Keys == st.rows.Keys
      && r.0.rows[key].usageCount == st.rows[key].usageCount + Successes(calls, r.1, key)
    decreases |calls|
  {
    if |calls| > 0 {
      var v := Verify(st, calls[0].0, calls[0].1);
      UsageCountsSuccesses(v.store, calls[1..], key);
      var r := VerifyMany(st, calls);
      assert r.1[1..] == VerifyMany(v.store, calls[1..]).1;
    }
  }

  /** Verifications served one after another keep every key within its
      usage limit, however many there are. */
  lemma {:induction false} VerifyManyWithinLimits(st: Store, calls: seq<(string, int)>)
    requires WithinLimits(st)
    ensures WithinLimits(VerifyMany(st, calls).0)
    decreases |calls|
  {
    if |calls| > 0 {
      VerifyKeepsLimits(st, calls[0].0, calls[0].1);
      VerifyManyWithinLimits(Verify(st, calls[0].0, calls[0].1).store, calls[1..]);
    }
  }

  /** The write a verification performs after deciding on the row it read
      from `snapshot`: the relative increment or the deactivation, applied
      to the table as it is at the time of writing, `cur`. */
  function WriteBack(cur: Store, snapshot: Store, key: string, now: int): (st': Store)
    ensures OnlyRowChanged(cur, st', key)
    ensures snapshot == cur ==> st' == Verify(cur, key, now).store
    ensures Verify(snapshot, key, now).valid && key in cur.rows ==>
      st'.rows[key].usageCount == cur.rows[key].usageCount + 1
  {
    match Lookup(snapshot, key)
    case None => cur
    case Some(rec) =>
      if !rec.isActive then cur
      else if Expired(rec, now) then Deactivate(cur, key).1
      else if Exhausted(rec) then cur
      else IncrementUsage(cur, key)
  }

  /** Two verifications of `key` served concurrently, each with its own
      connection: both read the row before either writes back. Both
      answers and the final table. */
  function RacingVerify(st: Store, key: string, now: int): (r: (bool, bool, Store))
    ensures r.0 == r.1 == Verify(st, key, now).valid
    ensures r.2.rows.Keys == st.rows.Keys
    ensures r.0 && key in st.rows ==> r.2.rows[key].usageCount == st.rows[key].usageCount + 2
  {
    var first := Verify(st, key, now).valid;
    var second := Verify(st, key, now).valid;
    (first, second, WriteBack(WriteBack(st, st, key, now), st, key, now))
  }

  /** A key limited to one use, used by two requests at once: both are
      accepted and the key ends up used twice. */
  lemma RaceExceedsLimit()
    ensures var st := Store(map["k" := KeyRecord(1, "k", "", "", 0, None, 0, 1, true)], 2);
      var r := RacingVerify(st, "k", 0);
      && Valid(st) && WithinLimits(st)
      && r.0 && r.1
      && r.2.rows["k"].usageCount == 2
      && !WithinLimits(r.2)
  {
    var st := Store(map["k" := KeyRecord(1, "k", "", "", 0, None, 0, 1, true)], 2);
    assert Verify(st, "k", 0).valid;
  }

  /** Once a key is inactive no verification succeeds for it and it stays
      inactive. */
  lemma {:induction false} InactiveIsFinal(st: Store, calls: seq<(string, int)>, key: string)
    requires key in st.rows && !st.rows[key].isActive
    ensures var r := VerifyMany(st, calls);
      && key in r.0.rows
      && !r.0.rows[key].isActive
      && Successes(calls, r.1, key) == 0
    decreases |calls|
  {
    if |calls| > 0 {
      var v := Verify(st, calls[0].0, calls[0].1);
      assert v.store.rows[key].isActive == st.rows[key].isActive;
      InactiveIsFinal(v.store, calls[1..], key);
      var r := VerifyMany(st, calls);
      assert r.1[1..] == VerifyMany(v.store, calls[1..]).1;
    }
  }

  /** A key created with a positive lifetime stops verifying once it has
      expired, and is deactivated by the first attempt. */
  lemma ExpiredKeyRejected(st: Store, req: CreateRequest, key: string, created: Instant, now: int)
    requires Create(st, req, key, created).Success?
    requires req.expiresInDays.value > 0
    requires now > created + req.expiresInDays.value * MicrosPerDay
    ensures var st' := Create(st, req, key, created).value.0;
      var v := Verify(st', key, now);
      !v.valid && !v.store.rows[key].isActive && v.store.rows[key].usageCount == 0
  {
  }

  /** A key created with the default (negative) usage limit is never
      refused for its usage. */
  lemma DefaultLimitNeverExhausts(st: Store, userEmail: string, userName: string, key: string,
                                  created: Instant, uses: int)
    requires Create(st, DefaultRequest(userEmail, userName), key, created).Success?
    ensures var rec := Create(st, DefaultRequest(userEmail, userName), key, created).value.1;
      !Exhausted(rec.(usageCount := uses))
  {
  }

  /** From the first instant of 2026, a lifetime reaching 9999-12-31 is
      stored, one day more overflows, and a limit of 2^64 cannot be
      bound. */
  lemma CreateRangeExamples(st: Store, key: string)
    requires key !in st.rows
    ensures var now := 739616 * MicrosPerDay;
      && Create(st, CreateRequest("", "", Some(2912442), -1), key, now).Success?
      && Create(st, CreateRequest("", "", Some(2912443), -1), key, now) == Failure(DateOutOfRange)
      && Create(st, CreateRequest("", "", Some(30), 0x1_0000_0000_0000_0000), key, now) == Failure(IntegerOutOfRange)
  {
  }

  /** Expiry is decided to the microsecond: a key created 1000.7 s after
      the epoch with a lifetime of one day is refused, and deactivated,
      at 87400.8 s, a tenth of a second past its expiry. */
  lemma SubSecondExpiry()
    ensures var st := Create(EmptyStore(), CreateRequest("", "", Some(1), -1), "k", 1000_700_000).value.0;
      var v := Verify(st, "k", 87400_800_000);
      && st.rows["k"].expiresAt == Some(87400_700_000)
      && !v.valid && !v.store.rows["k"].isActive
  {
  }
}
