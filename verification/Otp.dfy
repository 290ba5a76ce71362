/**
 One-time passwords: issuing under rate limits, a budget of guesses, single use.
 Times are milliseconds of one clock.
 */
module Otp {
  import opened Common

  const REGISTER_TTL := 900_000
  const LOGIN_TTL := 300_000
  const MAX_VERIFY_ATTEMPTS := 5
  const RESEND_MIN := 60_000
  const HOUR := 3_600_000
  const RESEND_HOURLY_LIMIT := 5

  datatype Purpose = Register | Login
  datatype Key = Key(phone: string, purpose: Purpose)

  datatype OtpRow = OtpRow(key: Key, code: string, createdAt: int, expiresAt: int, attempts: nat,
                           used: bool, superseded: bool)

  function Ttl(p: Purpose): int {
    if p.Register? then REGISTER_TTL else LOGIN_TTL
  }

  datatype Outcome =
    | Issued(id: nat) | RateLimited | NotSent
    | Verified(id: nat) | WrongGuess(id: nat, locked: bool) | NotFound | AlreadyUsed | Expired | Locked

  // ----- Queries -----

  /** The row of this key with the greatest creation time, among all rows or the open ones. */
  function Newest(rows: seq<OtpRow>, key: Key, openOnly: bool): (r: Option<nat>)
    ensures r.Some? ==> r.value < |rows| && rows[r.value].key == key && (openOnly ==> !rows[r.value].superseded)
    ensures forall j | 0 <= j < |rows| && rows[j].key == key && (openOnly ==> !rows[j].superseded) ::
              r.Some? && rows[j].createdAt <= rows[r.value].createdAt
  {
    if rows == [] then None
    else
      var last := |rows| - 1;
      var earlier := Newest(rows[..last], key, openOnly);
      if rows[last].key == key && (openOnly ==> !rows[last].superseded)
         && (earlier.None? || rows[earlier.value].createdAt <= rows[last].createdAt)
      then Some(last) else earlier
  }

  /** How many rows of this key were created at or after a moment. */
  function Recent(rows: seq<OtpRow>, key: Key, since: int): nat {
    if rows == [] then 0
    else
      var last := rows[|rows| - 1];
      Recent(rows[..|rows| - 1], key, since) + if last.key == key && since <= last.createdAt then 1 else 0
  }

  /** How many rows of this key were created within the hour that begins at a moment, ends included. */
  function HourCount(rows: seq<OtpRow>, key: Key, from: int): nat {
    if rows == [] then 0
    else
      var last := rows[|rows| - 1];
      HourCount(rows[..|rows| - 1], key, from) + if last.key == key && from <= last.createdAt <= from + HOUR then 1 else 0
  }

  // ----- Steps -----

  /** The moments at which one request reads the clock, in order. */
  datatype Moments = Moments(cooldown: int, count: int, expiry: int, insert: int)

  datatype Op =
    | Request(key: Key, at: Moments, code: string, sent: bool)
    | Verify(key: Key, now: int, guess: string)

  predicate Limited(rows: seq<OtpRow>, key: Key, at: Moments) {
    var latest := Newest(rows, key, false);
    || (latest.Some? && at.cooldown - rows[latest.value].createdAt < RESEND_MIN)
    || Recent(rows, key, at.count - HOUR) >= RESEND_HOURLY_LIMIT
  }

  function Supersede(rows: seq<OtpRow>, key: Key): (r: seq<OtpRow>)
    ensures |r| == |rows|
    ensures forall i | 0 <= i < |rows| ::
              r[i] == if rows[i].key == key && !rows[i].used && !rows[i].superseded
                      then rows[i].(superseded := true) else rows[i]
  {
    seq(|rows|, i requires 0 <= i < |rows| =>
      if rows[i].key == key && !rows[i].used && !rows[i].superseded then rows[i].(superseded := true) else rows[i])
  }

  function StepRequest(rows: seq<OtpRow>, op: Op): (seq<OtpRow>, Outcome)
    requires op.Request?
  {
    if Limited(rows, op.key, op.at) then (rows, RateLimited)
    else if !op.sent then (rows, NotSent)
    else
      (Supersede(rows, op.key)
         + [OtpRow(op.key, op.code, op.at.insert, op.at.expiry + Ttl(op.key.purpose), 0, false, false)],
       Issued(|rows|))
  }

  function StepVerify(rows: seq<OtpRow>, op: Op): (seq<OtpRow>, Outcome)
    requires op.Verify?
  {
    var found := Newest(rows, op.key, true);
    if found.None? then (rows, NotFound)
    else
      var id := found.value;
      var row := rows[id];
      if row.used then (rows, AlreadyUsed)
      else if row.expiresAt < op.now then (rows, Expired)
      else if row.attempts >= MAX_VERIFY_ATTEMPTS then (rows, Locked)
      else if op.guess != row.code then
        (rows[id := row.(attempts := row.attempts + 1)], WrongGuess(id, row.attempts + 1 >= MAX_VERIFY_ATTEMPTS))
      else (rows[id := row.(used := true)], Verified(id))
  }

  function Step(rows: seq<OtpRow>, op: Op): (seq<OtpRow>, Outcome) {
    if op.Request? then StepRequest(rows, op) else StepVerify(rows, op)
  }

  function Start(op: Op): int {
    if op.Request? then op.at.cooldown else op.now
  }

  function End(op: Op): int {
    if op.Request? then op.at.insert else op.now
  }

  predicate Ordered(op: Op) {
    op.Request? ==> op.at.cooldown <= op.at.count <= op.at.expiry <= op.at.insert
  }

  // ----- The invariant -----

  function Failures(log: seq<Outcome>): nat {
    if log == [] then 0 else Failures(log[..|log| - 1]) + if log[|log| - 1].WrongGuess? then 1 else 0
  }

  function FailuresOn(log: seq<Outcome>, id: nat): nat {
    if log == [] then 0
    else
      var last := log[|log| - 1];
      FailuresOn(log[..|log| - 1], id) + if last.WrongGuess? && last.id == id then 1 else 0
  }

  function SuccessesOn(log: seq<Outcome>, id: nat): nat {
    if log == [] then 0
    else SuccessesOn(log[..|log| - 1], id) + if log[|log| - 1] == Verified(id) then 1 else 0
  }

  function TotalAttempts(rows: seq<OtpRow>): nat {
    if rows == [] then 0 else TotalAttempts(rows[..|rows| - 1]) + rows[|rows| - 1].attempts
  }

  ghost predicate Spaced(rows: seq<OtpRow>) {
    forall i, j | 0 <= i < j < |rows| ::
      && rows[i].createdAt <= rows[j].createdAt
      && (rows[i].key == rows[j].key ==>
            && rows[j].createdAt - rows[i].createdAt >= RESEND_MIN
            && (rows[i].used || rows[i].superseded))
  }

  ghost predicate NewestOpen(rows: seq<OtpRow>) {
    forall i | 0 <= i < |rows| && rows[i].superseded :: exists j | i < j < |rows| :: rows[j].key == rows[i].key
  }

  ghost predicate WindowsBounded(rows: seq<OtpRow>) {
    forall key, from :: HourCount(rows, key, from) <= RESEND_HOURLY_LIMIT
  }

  ghost predicate RowAccounted(rows: seq<OtpRow>, log: seq<Outcome>, i: nat) {
    && FailuresOn(log, i) == (if i < |rows| then rows[i].attempts else 0)
    && SuccessesOn(log, i) == (if i < |rows| && rows[i].used then 1 else 0)
    && (i < |rows| ==> rows[i].attempts <= MAX_VERIFY_ATTEMPTS)
  }

  ghost predicate Accounted(rows: seq<OtpRow>, log: seq<Outcome>) {
    && TotalAttempts(rows) == Failures(log)
    && (forall i: nat :: RowAccounted(rows, log, i))
  }

  ghost predicate Inv(rows: seq<OtpRow>, log: seq<Outcome>, clock: int) {
    && Spaced(rows) && NewestOpen(rows) && WindowsBounded(rows) && Accounted(rows, log)
    && (forall i | 0 <= i < |rows| :: rows[i].createdAt <= clock)
  }

  lemma LogGrows(log: seq<Outcome>, o: Outcome, i: nat)
    ensures Failures(log + [o]) == Failures(log) + if o.WrongGuess? then 1 else 0
    ensures FailuresOn(log + [o], i) == FailuresOn(log, i) + if o.WrongGuess? && o.id == i then 1 else 0
    ensures SuccessesOn(log + [o], i) == SuccessesOn(log, i) + if o == Verified(i) then 1 else 0
  {
    assert (log + [o])[..|log|] == log;
  }

  lemma NothingIssued(clock: int)
    ensures Inv([], [], clock)
  {
    forall key, from ensures HourCount([], key, from) <= RESEND_HOURLY_LIMIT {}
    forall i: nat ensures RowAccounted([], [], i) {}
  }

  // ----- Queries under the invariant -----

  /** The newest open row is the last one issued for its key. */
  lemma NewestIsLast(rows: seq<OtpRow>, key: Key, openOnly: bool)
    requires Spaced(rows) && NewestOpen(rows)
    ensures var r := Newest(rows, key, openOnly);
            && (r.None? ==> forall j | 0 <= j < |rows| :: rows[j].key != key)
            && (r.Some? ==> forall j | r.value < j < |rows| :: rows[j].key != key)
  {
    var r := Newest(rows, key, openOnly);
    forall j | 0 <= j < |rows| && rows[j].key == key
      ensures r.Some? && j <= r.value
    {
      var last := LastOf(rows, key, j);
    }
  }

  lemma LastOf(rows: seq<OtpRow>, key: Key, j: nat) returns (last: nat)
    requires j < |rows| && rows[j].key == key
    ensures j <= last < |rows| && rows[last].key == key
    ensures forall k | last < k < |rows| :: rows[k].key != key
  {
    last := j;
    for k := j + 1 to |rows|
      invariant j <= last < k && rows[last].key == key
      invariant forall m | last < m < k :: rows[m].key != key
    {
      if rows[k].key == key { last := k; }
    }
  }

  /** Whatever an hour contains that ends no earlier than now was seen by the limit check. */
  lemma {:induction false} HourWithinRecent(rows: seq<OtpRow>, key: Key, from: int, since: int)
    requires since <= from
    ensures HourCount(rows, key, from) <= Recent(rows, key, since)
    decreases |rows|
  {
    if rows != [] {
      HourWithinRecent(rows[..|rows| - 1], key, from, since);
    }
  }

  /** Counting looks at keys and creation times only. */
  lemma {:induction false} CountIgnoresState(rows: seq<OtpRow>, rows': seq<OtpRow>, key: Key, from: int)
    requires |rows| == |rows'|
    requires forall i | 0 <= i < |rows| :: rows'[i].key == rows[i].key && rows'[i].createdAt == rows[i].createdAt
    ensures HourCount(rows', key, from) == HourCount(rows, key, from)
    decreases |rows|
  {
    if rows != [] {
      CountIgnoresState(rows[..|rows| - 1], rows'[..|rows| - 1], key, from);
    }
  }

  lemma {:induction false} TotalIgnoresState(rows: seq<OtpRow>, rows': seq<OtpRow>)
    requires |rows| == |rows'| && forall i | 0 <= i < |rows| :: rows'[i].attempts == rows[i].attempts
    ensures TotalAttempts(rows') == TotalAttempts(rows)
    decreases |rows|
  {
    if rows != [] {
      TotalIgnoresState(rows[..|rows| - 1], rows'[..|rows| - 1]);
    }
  }

  lemma {:induction false} TotalAfterUpdate(rows: seq<OtpRow>, id: nat, row: OtpRow)
    requires id < |rows|
    ensures TotalAttempts(rows[id := row]) == TotalAttempts(rows) - rows[id].attempts + row.attempts
    decreases |rows|
  {
    var n := |rows| - 1;
    if id == n {
      assert rows[id := row][..n] == rows[..n];
    } else {
      assert rows[id := row][..n] == rows[..n][id := row];
      TotalAfterUpdate(rows[..n], id, row);
    }
  }

  // ----- Steps keep the invariant -----

  lemma IssueKeepsWindows(rows: seq<OtpRow>, op: Op, rows': seq<OtpRow>)
    requires op.Request? && Ordered(op) && WindowsBounded(rows)
    requires forall i | 0 <= i < |rows| :: rows[i].createdAt <= op.at.cooldown
    requires !Limited(rows, op.key, op.at) && op.sent && rows' == StepRequest(rows, op).0
    ensures WindowsBounded(rows')
  {
    forall key, from
      ensures HourCount(rows', key, from) <= RESEND_HOURLY_LIMIT
    {
      assert rows'[..|rows|] == Supersede(rows, op.key);
      CountIgnoresState(rows, Supersede(rows, op.key), key, from);
      if key == op.key && from <= op.at.insert <= from + HOUR {
        HourWithinRecent(rows, key, from, op.at.count - HOUR);
      }
    }
  }

  lemma IssueKeepsAccounts(rows: seq<OtpRow>, log: seq<Outcome>, op: Op, rows': seq<OtpRow>)
    requires op.Request? && Accounted(rows, log)
    requires !Limited(rows, op.key, op.at) && op.sent && rows' == StepRequest(rows, op).0
    ensures Accounted(rows', log + [Issued(|rows|)])
  {
    assert rows'[..|rows|] == Supersede(rows, op.key);
    TotalIgnoresState(rows, Supersede(rows, op.key));
    LogGrows(log, Issued(|rows|), 0);
    forall i: nat ensures RowAccounted(rows', log + [Issued(|rows|)], i) {
      assert RowAccounted(rows, log, i);
      LogGrows(log, Issued(|rows|), i);
    }
  }

  lemma IdleKeepsAccounts(rows: seq<OtpRow>, log: seq<Outcome>, o: Outcome)
    requires Accounted(rows, log) && !o.WrongGuess? && !o.Verified?
    ensures Accounted(rows, log + [o])
  {
    LogGrows(log, o, 0);
    forall i: nat ensures RowAccounted(rows, log + [o], i) {
      assert RowAccounted(rows, log, i);
      LogGrows(log, o, i);
    }
  }

  lemma IssueKeepsSpacing(rows: seq<OtpRow>, op: Op, rows': seq<OtpRow>)
    requires Spaced(rows) && NewestOpen(rows) && op.Request? && Ordered(op)
    requires forall i | 0 <= i < |rows| :: rows[i].createdAt <= op.at.cooldown
    requires !Limited(rows, op.key, op.at) && op.sent && rows' == StepRequest(rows, op).0
    ensures Spaced(rows') && NewestOpen(rows')
  {
    var n := |rows|;
    forall i | 0 <= i < n && rows'[i].superseded
      ensures exists j | i < j <= n :: rows'[j].key == rows'[i].key
    {
      if rows[i].superseded {
        var j :| i < j < n && rows[j].key == rows[i].key;
        assert rows'[j].key == rows'[i].key;
      } else {
        assert rows'[n].key == rows'[i].key;
      }
    }
  }

  /** Marking one row as tried or used moves nothing in time. */
  lemma TouchKeepsShape(rows: seq<OtpRow>, id: nat, row: OtpRow)
    requires Spaced(rows) && NewestOpen(rows) && WindowsBounded(rows) && id < |rows|
    requires row.key == rows[id].key && row.createdAt == rows[id].createdAt && row.superseded == rows[id].superseded
    requires rows[id].used ==> row.used
    ensures Spaced(rows[id := row]) && NewestOpen(rows[id := row]) && WindowsBounded(rows[id := row])
  {
    var rows' := rows[id := row];
    forall key, from ensures HourCount(rows', key, from) <= RESEND_HOURLY_LIMIT {
      CountIgnoresState(rows, rows', key, from);
    }
    forall i | 0 <= i < |rows| && rows'[i].superseded
      ensures exists j | i < j < |rows| :: rows'[j].key == rows'[i].key
    {
      var j :| i < j < |rows| && rows[j].key == rows[i].key;
      assert rows'[j].key == rows'[i].key;
    }
  }

  lemma CompareKeepsAccounts(rows: seq<OtpRow>, log: seq<Outcome>, id: nat, ok: bool, locked: bool)
    requires Accounted(rows, log) && id < |rows| && !rows[id].used && rows[id].attempts < MAX_VERIFY_ATTEMPTS
    ensures var row := rows[id];
            if ok then Accounted(rows[id := row.(used := true)], log + [Verified(id)])
            else Accounted(rows[id := row.(attempts := row.attempts + 1)], log + [WrongGuess(id, locked)])
  {
    var row := if ok then rows[id].(used := true) else rows[id].(attempts := rows[id].attempts + 1);
    var outcome := if ok then Verified(id) else WrongGuess(id, locked);
    TotalAfterUpdate(rows, id, row);
    LogGrows(log, outcome, 0);
    var rows', log' := rows[id := row], log + [outcome];
    forall i: nat ensures RowAccounted(rows', log', i) {
      assert RowAccounted(rows, log, i);
      LogGrows(log, outcome, i);
    }
  }

  lemma IdleKeepsInv(rows: seq<OtpRow>, log: seq<Outcome>, clock: int, o: Outcome, now: int)
    requires Inv(rows, log, clock) && !o.WrongGuess? && !o.Verified? && clock <= now
    ensures Inv(rows, log + [o], now)
  {
    IdleKeepsAccounts(rows, log, o);
  }

  lemma IssueKeepsInv(rows: seq<OtpRow>, log: seq<Outcome>, clock: int, op: Op)
    requires Inv(rows, log, clock) && op.Request? && Ordered(op) && clock <= Start(op)
    requires !Limited(rows, op.key, op.at) && op.sent
    ensures Inv(StepRequest(rows, op).0, log + [Issued(|rows|)], End(op))
  {
    var rows' := StepRequest(rows, op).0;
    IssueKeepsWindows(rows, op, rows');
    IssueKeepsAccounts(rows, log, op, rows');
    IssueKeepsSpacing(rows, op, rows');
  }

  lemma RequestKeepsInv(rows: seq<OtpRow>, log: seq<Outcome>, clock: int, op: Op)
    requires Inv(rows, log, clock) && op.Request? && Ordered(op) && clock <= Start(op)
    ensures var (rows', outcome) := StepRequest(rows, op);
            Inv(rows', log + [outcome], End(op))
  {
    var outcome := StepRequest(rows, op).1;
    if outcome.Issued? {
      IssueKeepsInv(rows, log, clock, op);
    } else {
      IdleKeepsInv(rows, log, clock, outcome, End(op));
    }
  }

  lemma CompareKeepsInv(rows: seq<OtpRow>, log: seq<Outcome>, clock: int, id: nat, ok: bool,
                        locked: bool, now: int)
    requires Inv(rows, log, clock) && clock <= now
    requires id < |rows| && !rows[id].used && rows[id].attempts < MAX_VERIFY_ATTEMPTS
    ensures var row := rows[id];
            if ok then Inv(rows[id := row.(used := true)], log + [Verified(id)], now)
            else Inv(rows[id := row.(attempts := row.attempts + 1)], log + [WrongGuess(id, locked)], now)
  {
    TouchKeepsShape(rows, id, if ok then rows[id].(used := true) else rows[id].(attempts := rows[id].attempts + 1));
    CompareKeepsAccounts(rows, log, id, ok, locked);
  }

  lemma VerifyKeepsInv(rows: seq<OtpRow>, log: seq<Outcome>, clock: int, op: Op)
    requires Inv(rows, log, clock) && op.Verify? && clock <= op.now
    ensures var (rows', outcome) := StepVerify(rows, op);
            Inv(rows', log + [outcome], End(op))
  {
    var (rows', outcome) := StepVerify(rows, op);
    match outcome
    case Verified(id) =>
      assert rows' == rows[id := rows[id].(used := true)];
      CompareKeepsInv(rows, log, clock, id, true, false, op.now);
    case WrongGuess(id, locked) =>
      assert rows' == rows[id := rows[id].(attempts := rows[id].attempts + 1)];
      CompareKeepsInv(rows, log, clock, id, false, locked, op.now);
    case _ =>
      assert rows' == rows;
      IdleKeepsInv(rows, log, clock, outcome, op.now);
  }

  // ----- Runs -----

  /** Operations one after the other, on a clock that never goes back. */
  ghost predicate Timely(ops: seq<Op>, clock: int)
    decreases |ops|
  {
    ops == [] || (Ordered(ops[0]) && clock <= Start(ops[0]) && Timely(ops[1..], End(ops[0])))
  }

  ghost function Run(rows: seq<OtpRow>, log: seq<Outcome>, ops: seq<Op>): (seq<OtpRow>, seq<Outcome>)
    decreases |ops|
  {
    if ops == [] then (rows, log)
    else
      var (rows', outcome) := Step(rows, ops[0]);
      Run(rows', log + [outcome], ops[1..])
  }

  lemma {:induction false} RunKeepsInv(rows: seq<OtpRow>, log: seq<Outcome>, clock: int, ops: seq<Op>) returns (clock': int)
    requires Inv(rows, log, clock) && Timely(ops, clock)
    ensures var (rows', log') := Run(rows, log, ops);
            Inv(rows', log', clock')
    decreases |ops|
  {
    if ops == [] {
      clock' := clock;
    } else {
      if ops[0].Request? { RequestKeepsInv(rows, log, clock, ops[0]); } else { VerifyKeepsInv(rows, log, clock, ops[0]); }
      var (rows', outcome) := Step(rows, ops[0]);
      clock' := RunKeepsInv(rows', log + [outcome], End(ops[0]), ops[1..]);
    }
  }

  /** The rows of a key created between two moments, ends included. */
  function Created(rows: seq<OtpRow>, key: Key, from: int, to: int): set<nat> {
    set j: nat | j < |rows| && rows[j].key == key && from <= rows[j].createdAt <= to
  }

  lemma CreatedStep(rows: seq<OtpRow>, key: Key, from: int, to: int)
    requires rows != []
    ensures var last := rows[|rows| - 1];
            |Created(rows, key, from, to)|
            == |Created(rows[..|rows| - 1], key, from, to)| + if last.key == key && from <= last.createdAt <= to then 1 else 0
  {
    var n := |rows| - 1;
    var earlier := Created(rows[..n], key, from, to);
    var last := rows[n];
    assert Created(rows, key, from, to) == earlier + if last.key == key && from <= last.createdAt <= to then {n} else {};
  }

  lemma {:induction false} HourCountIs(rows: seq<OtpRow>, key: Key, from: int)
    ensures HourCount(rows, key, from) == |Created(rows, key, from, from + 3_600_000)|
    decreases |rows|
  {
    if rows != [] {
      HourCountIs(rows[..|rows| - 1], key, from);
      CreatedStep(rows, key, from, from + 3_600_000);
    }
  }

  lemma {:induction false} RecentIs(rows: seq<OtpRow>, key: Key, since: int, now: int)
    requires forall i | 0 <= i < |rows| :: rows[i].createdAt <= now
    ensures Recent(rows, key, since) == |Created(rows, key, since, now)|
    decreases |rows|
  {
    if rows != [] {
      RecentIs(rows[..|rows| - 1], key, since, now);
      CreatedStep(rows, key, since, now);
    }
  }

  /** Rate limits: never more than five in any hour, never two within a minute. */
  lemma IssuingIsLimited(ops: seq<Op>, start: int, key: Key, from: int, i: nat, j: nat)
    requires Timely(ops, start)
    ensures var rows := Run([], [], ops).0;
            && |Created(rows, key, from, from + 3_600_000)| <= 5
            && (i < j < |rows| && rows[i].key == rows[j].key ==> rows[j].createdAt - rows[i].createdAt >= 60_000)
  {
    NothingIssued(start);
    var _ := RunKeepsInv([], [], start, ops);
    HourCountIs(Run([], [], ops).0, key, from);
  }

  /**
   After any run a request is turned away if and only if a row of its key is less than a minute old, or
   five were created in the hour up to now; and any other request whose message is sent gets a row.
   */
  lemma RequestAnswer(ops: seq<Op>, start: int, op: Op)
    requires Timely(ops + [op], start) && op.Request?
    ensures var rows := Run([], [], ops).0; var outcome := StepRequest(rows, op).1;
            && (outcome == RateLimited
                <==> || (exists j :: 0 <= j < |rows| && rows[j].key == op.key && op.at.cooldown - rows[j].createdAt < 60_000)
                     || |Created(rows, op.key, op.at.count - 3_600_000, op.at.count)| >= 5)
            && (outcome != RateLimited ==> outcome == if op.sent then Issued(|rows|) else NotSent)
  {
    var rows := Run([], [], ops).0;
    NothingIssued(start);
    RunUntil([], [], start, ops, op);
    RecentIs(rows, op.key, op.at.count - HOUR, op.at.count);
  }

  /** The clock has not passed the next operation. */
  lemma {:induction false} RunUntil(rows: seq<OtpRow>, log: seq<Outcome>, clock: int, ops: seq<Op>, op: Op)
    requires Inv(rows, log, clock) && Timely(ops + [op], clock)
    ensures var (rows', log') := Run(rows, log, ops); Ordered(op) && Inv(rows', log', Start(op))
    decreases |ops|
  {
    if ops == [] {
      assert ops + [op] == [op];
    } else {
      assert (ops + [op])[0] == ops[0] && (ops + [op])[1..] == ops[1..] + [op];
      if ops[0].Request? { RequestKeepsInv(rows, log, clock, ops[0]); } else { VerifyKeepsInv(rows, log, clock, ops[0]); }
      var (rows', outcome) := Step(rows, ops[0]);
      RunUntil(rows', log + [outcome], End(ops[0]), ops[1..], op);
    }
  }

  /** Guesses are budgeted and counted; each password is accepted at most once. */
  lemma GuessesAreBudgeted(ops: seq<Op>, start: int, id: nat)
    requires Timely(ops, start)
    ensures var (rows, log) := Run([], [], ops);
            && SuccessesOn(log, id) <= 1
            && FailuresOn(log, id) <= 5
            && Failures(log) == TotalAttempts(rows) <= 5 * |rows|
  {
    NothingIssued(start);
    var _ := RunKeepsInv([], [], start, ops);
    var (rows, log) := Run([], [], ops);
    assert RowAccounted(rows, log, id);
    forall i | 0 <= i < |rows| ensures rows[i].attempts <= MAX_VERIFY_ATTEMPTS { assert RowAccounted(rows, log, i); }
    TotalBounded(rows);
  }

  lemma {:induction false} TotalBounded(rows: seq<OtpRow>)
    requires forall i | 0 <= i < |rows| :: rows[i].attempts <= MAX_VERIFY_ATTEMPTS
    ensures TotalAttempts(rows) <= MAX_VERIFY_ATTEMPTS * |rows|
    decreases |rows|
  {
    if rows != [] { TotalBounded(rows[..|rows| - 1]); }
  }

  /**
   After any run, a guess is accepted exactly when it matches the last password issued for its
   phone and purpose, before that one expired, was used, or drew five wrong guesses.
   */
  lemma AcceptedIff(ops: seq<Op>, start: int, op: Op, id: nat)
    requires Timely(ops, start) && op.Verify?
    ensures var (rows, log) := Run([], [], ops);
            StepVerify(rows, op).1 == Verified(id)
            <==> && id < |rows| && rows[id].key == op.key && op.guess == rows[id].code
                 && (forall j | id < j < |rows| :: rows[j].key != op.key)
                 && op.now <= rows[id].expiresAt
                 && SuccessesOn(log, id) == 0 && FailuresOn(log, id) < 5
  {
    NothingIssued(start);
    var _ := RunKeepsInv([], [], start, ops);
    var (rows, log) := Run([], [], ops);
    assert RowAccounted(rows, log, id);
    AcceptedOn(rows, log, op, id);
  }

  lemma AcceptedOn(rows: seq<OtpRow>, log: seq<Outcome>, op: Op, id: nat)
    requires Spaced(rows) && NewestOpen(rows) && RowAccounted(rows, log, id) && op.Verify?
    ensures StepVerify(rows, op).1 == Verified(id)
            <==> && id < |rows| && rows[id].key == op.key && op.guess == rows[id].code
                 && (forall j | id < j < |rows| :: rows[j].key != op.key)
                 && op.now <= rows[id].expiresAt
                 && SuccessesOn(log, id) == 0 && FailuresOn(log, id) < 5
  {
    NewestIsLast(rows, op.key, true);
    VerifiedByNewest(rows, op, id);
  }

  lemma VerifiedByNewest(rows: seq<OtpRow>, op: Op, id: nat)
    requires op.Verify?
    ensures StepVerify(rows, op).1 == Verified(id)
            <==> && Newest(rows, op.key, true) == Some(id) && !rows[id].used && op.now <= rows[id].expiresAt
                 && rows[id].attempts < 5 && op.guess == rows[id].code
  {}

  /**
   And the answer to any guess: the last row issued for the phone and purpose decides, by whether it was
   ever accepted, its expiry, its five failures and its code; the fifth failure locks it.
   */
  lemma VerifyAnswer(ops: seq<Op>, start: int, op: Op, id: nat)
    requires Timely(ops, start) && op.Verify?
    requires var rows := Run([], [], ops).0;
             id < |rows| && rows[id].key == op.key && forall j | id < j < |rows| :: rows[j].key != op.key
    ensures var (rows, log) := Run([], [], ops);
            StepVerify(rows, op).1 == if SuccessesOn(log, id) > 0 then AlreadyUsed
                                      else if op.now > rows[id].expiresAt then Expired
                                      else if FailuresOn(log, id) >= 5 then Locked
                                      else if op.guess == rows[id].code then Verified(id)
                                      else WrongGuess(id, FailuresOn(log, id) == 4)
  {
    NothingIssued(start);
    var _ := RunKeepsInv([], [], start, ops);
    var (rows, log) := Run([], [], ops);
    NewestIsLast(rows, op.key, true);
    assert Newest(rows, op.key, true) == Some(id);
    assert RowAccounted(rows, log, id);
    VerifyOfRow(rows, log, op, id);
  }

  lemma VerifyOfRow(rows: seq<OtpRow>, log: seq<Outcome>, op: Op, id: nat)
    requires op.Verify? && Newest(rows, op.key, true) == Some(id) && RowAccounted(rows, log, id)
    ensures StepVerify(rows, op).1 == if SuccessesOn(log, id) > 0 then AlreadyUsed
                                      else if op.now > rows[id].expiresAt then Expired
                                      else if FailuresOn(log, id) >= 5 then Locked
                                      else if op.guess == rows[id].code then Verified(id)
                                      else WrongGuess(id, FailuresOn(log, id) == 4)
  {}

  /** No row at all is the only way not to be found. */
  lemma NotFoundIff(ops: seq<Op>, start: int, op: Op)
    requires Timely(ops, start) && op.Verify?
    ensures var rows := Run([], [], ops).0;
            StepVerify(rows, op).1 == NotFound <==> forall j | 0 <= j < |rows| :: rows[j].key != op.key
  {
    NothingIssued(start);
    var _ := RunKeepsInv([], [], start, ops);
    NotFoundAmong(Run([], [], ops).0, op);
  }

  lemma NotFoundAmong(rows: seq<OtpRow>, op: Op)
    requires Spaced(rows) && NewestOpen(rows) && op.Verify?
    ensures StepVerify(rows, op).1 == NotFound <==> forall j | 0 <= j < |rows| :: rows[j].key != op.key
  {
    NotFoundByNewest(rows, op);
    NewestIsLast(rows, op.key, true);
  }

  lemma NotFoundByNewest(rows: seq<OtpRow>, op: Op)
    requires op.Verify?
    ensures StepVerify(rows, op).1 == NotFound <==> Newest(rows, op.key, true).None?
  {}

  /** Nothing outlives its purpose: a row expires at most fifteen or five minutes after it was created. */
  ghost predicate ShortLived(rows: seq<OtpRow>) {
    forall i | 0 <= i < |rows| ::
      rows[i].expiresAt <= rows[i].createdAt + (if rows[i].key.purpose.Register? then 900_000 else 300_000)
  }

  lemma {:induction false} RunKeepsShortLived(rows: seq<OtpRow>, log: seq<Outcome>, clock: int, ops: seq<Op>)
    requires ShortLived(rows) && Timely(ops, clock)
    ensures ShortLived(Run(rows, log, ops).0)
    decreases |ops|
  {
    if ops != [] {
      var (rows', outcome) := Step(rows, ops[0]);
      RunKeepsShortLived(rows', log + [outcome], End(ops[0]), ops[1..]);
    }
  }

  /** So a code is accepted only within that time of the request that created it. */
  lemma AcceptedInTime(ops: seq<Op>, start: int, op: Op, id: nat)
    requires Timely(ops, start) && op.Verify?
    ensures var rows := Run([], [], ops).0;
            StepVerify(rows, op).1 == Verified(id) ==>
              id < |rows| && op.now <= rows[id].createdAt + (if op.key.purpose.Register? then 900_000 else 300_000)
  {
    RunKeepsShortLived([], [], start, ops);
    AcceptedIff(ops, start, op, id);
  }

  // ----- Rows and the requests that issued them -----

  /** The row that a request writes, with the lifetimes of the two purposes spelled out. */
  predicate WrittenBy(row: OtpRow, op: Op) {
    && op.Request? && row.key == op.key && row.code == op.code && row.createdAt == op.at.insert
    && row.expiresAt == op.at.expiry + (if op.key.purpose.Register? then 900_000 else 300_000)
  }

  /** A step adds at most one row, the one it answers with, and rewrites no row that was there. */
  lemma StepWrites(rows: seq<OtpRow>, op: Op)
    ensures var (next, outcome) := Step(rows, op);
            && |next| == |rows| + (if outcome.Issued? then 1 else 0)
            && (outcome.Issued? ==> outcome.id == |rows| && WrittenBy(next[|rows|], op))
            && forall id, writer | 0 <= id < |rows| && WrittenBy(rows[id], writer) :: WrittenBy(next[id], writer)
  {}

  /** The rows after some operations, and their answers. */
  ghost function Final(rows: seq<OtpRow>, ops: seq<Op>): seq<OtpRow>
    decreases |ops|
  {
    if ops == [] then rows else Final(Step(rows, ops[0]).0, ops[1..])
  }

  ghost function Answers(rows: seq<OtpRow>, ops: seq<Op>): (answers: seq<Outcome>)
    ensures |answers| == |ops|
    decreases |ops|
  {
    if ops == [] then [] else [Step(rows, ops[0]).1] + Answers(Step(rows, ops[0]).0, ops[1..])
  }

  lemma {:induction false} RunIs(rows: seq<OtpRow>, log: seq<Outcome>, ops: seq<Op>)
    ensures Run(rows, log, ops) == (Final(rows, ops), log + Answers(rows, ops))
    decreases |ops|
  {
    if ops == [] {
      assert log + [] == log;
    } else {
      var (next, outcome) := Step(rows, ops[0]);
      RunIs(next, log + [outcome], ops[1..]);
      assert log + [outcome] + Answers(next, ops[1..]) == log + ([outcome] + Answers(next, ops[1..]));
    }
  }

  lemma {:induction false} RowsKeepOrigin(rows: seq<OtpRow>, ops: seq<Op>, id: nat, op: Op)
    requires id < |rows| && WrittenBy(rows[id], op)
    ensures var rows' := Final(rows, ops); id < |rows'| && WrittenBy(rows'[id], op)
    decreases |ops|
  {
    if ops != [] {
      StepWrites(rows, ops[0]);
      RowsKeepOrigin(Step(rows, ops[0]).0, ops[1..], id, op);
    }
  }

  /** When operation k was answered with a new row, that row is the one it wrote, for ever after. */
  lemma {:induction false} IssuedByRequest(rows: seq<OtpRow>, ops: seq<Op>, k: nat, id: nat)
    requires k < |ops| && Answers(rows, ops)[k] == Issued(id)
    ensures var rows' := Final(rows, ops); |rows| <= id < |rows'| && WrittenBy(rows'[id], ops[k])
    decreases |ops|
  {
    StepWrites(rows, ops[0]);
    var next := Step(rows, ops[0]).0;
    if k == 0 {
      RowsKeepOrigin(next, ops[1..], id, ops[0]);
    } else {
      IssuedByRequest(next, ops[1..], k - 1, id);
    }
  }

  /** Later requests write later rows. */
  lemma {:induction false} IssuedInOrder(rows: seq<OtpRow>, ops: seq<Op>, k: nat, m: nat, a: nat, b: nat)
    requires k < m < |ops| && Answers(rows, ops)[k] == Issued(a) && Answers(rows, ops)[m] == Issued(b)
    ensures a < b
    decreases |ops|
  {
    StepWrites(rows, ops[0]);
    var next := Step(rows, ops[0]).0;
    if k == 0 {
      IssuedByRequest(next, ops[1..], m - 1, b);
    } else {
      IssuedInOrder(next, ops[1..], k - 1, m - 1, a, b);
    }
  }

  /** And every row was written by some request. */
  lemma {:induction false} IssueOf(rows: seq<OtpRow>, ops: seq<Op>, id: nat) returns (k: nat)
    requires |rows| <= id < |Final(rows, ops)|
    ensures k < |ops| && Answers(rows, ops)[k] == Issued(id)
    decreases |ops|
  {
    StepWrites(rows, ops[0]);
    var next := Step(rows, ops[0]).0;
    if id < |next| {
      k := 0;
    } else {
      var m := IssueOf(next, ops[1..], id);
      k := m + 1;
    }
  }

  /** No request after operation k was answered with a new row for this key. */
  ghost predicate LastIssue(ops: seq<Op>, log: seq<Outcome>, k: nat, key: Key)
    requires |log| == |ops|
  {
    forall m | k < m < |ops| && log[m].Issued? :: ops[m].key != key
  }

  /** The last issue of a key is its last row. */
  lemma LastIssueIsLastRow(ops: seq<Op>, k: nat, id: nat, key: Key)
    requires k < |ops| && Answers([], ops)[k] == Issued(id)
    ensures LastIssue(ops, Answers([], ops), k, key) <==> forall j | id < j < |Final([], ops)| :: Final([], ops)[j].key != key
  {
    var rows, log := Final([], ops), Answers([], ops);
    forall j | id < j < |rows| ensures exists m :: k < m < |ops| && log[m] == Issued(j) && ops[m].key == rows[j].key {
      var m := IssueOf([], ops, j);
      IssuedByRequest([], ops, m, j);
      if m < k { IssuedInOrder([], ops, m, k, j, id); }
    }
    forall m | k < m < |ops| && log[m].Issued? ensures id < log[m].id < |rows| && rows[log[m].id].key == ops[m].key {
      IssuedByRequest([], ops, m, log[m].id);
      IssuedInOrder([], ops, k, m, id, log[m].id);
    }
  }

  /**
   After any run a guess is accepted on the row that operation k was answered with if and only if
   it is the code of that request, no later request for the same phone and purpose was answered
   with a row, at most fifteen minutes (registration) or five (login) have passed since the request
   computed its expiry, and the row was never accepted and failed fewer than five guesses.
   */
  lemma {:induction false} AcceptedIffIssued(ops: seq<Op>, start: int, op: Op, k: nat, id: nat)
    requires Timely(ops, start) && op.Verify?
    requires var log := Run([], [], ops).1; |log| == |ops| && k < |ops| && log[k] == Issued(id)
    ensures var (rows, log) := Run([], [], ops);
            StepVerify(rows, op).1 == Verified(id)
            <==> && ops[k].Request? && ops[k].key == op.key && op.guess == ops[k].code
                 && LastIssue(ops, log, k, op.key)
                 && op.now <= ops[k].at.expiry + (if op.key.purpose.Register? then 900_000 else 300_000)
                 && SuccessesOn(log, id) == 0 && FailuresOn(log, id) < 5
  {
    RunIs([], [], ops);
    assert [] + Answers([], ops) == Answers([], ops);
    IssuedByRequest([], ops, k, id);
    LastIssueIsLastRow(ops, k, id, op.key);
    AcceptedIff(ops, start, op, id);
  }

  // ----- The service -----

  class OtpService {
    var rows: seq<OtpRow>

    constructor ()
      ensures rows == []
    {
      rows := [];
    }

    method EnforceResendLimits(key: Key, at: Moments) returns (limited: bool)
      ensures limited == Limited(rows, key, at)
    {
      var latest := Newest(rows, key, false);
      if latest.Some? && at.cooldown - rows[latest.value].createdAt < RESEND_MIN {
        return true;
      }
      return Recent(rows, key, at.count - HOUR) >= RESEND_HOURLY_LIMIT;
    }

    method RequestOtp(key: Key, at: Moments, code: string, sent: bool) returns (outcome: Outcome)
      modifies this
      ensures (rows, outcome) == Step(old(rows), Request(key, at, code, sent))
    {
      var limited := EnforceResendLimits(key, at);
      if limited {
        return RateLimited;
      }
      if !sent {
        return NotSent;
      }
      outcome := Issued(|rows|);
      rows := Supersede(rows, key);
      rows := rows + [OtpRow(key, code, at.insert, at.expiry + Ttl(key.purpose), 0, false, false)];
    }

    method VerifyOtp(key: Key, now: int, guess: string) returns (outcome: Outcome)
      modifies this
      ensures (rows, outcome) == Step(old(rows), Verify(key, now, guess))
    {
      var found := Newest(rows, key, true);
      if found.None? {
        return NotFound;
      }
      var id := found.value;
      var row := rows[id];
      if row.used {
        return AlreadyUsed;
      }
      if row.expiresAt < now {
        return Expired;
      }
      if row.attempts >= MAX_VERIFY_ATTEMPTS {
        return Locked;
      }
      if guess != row.code {
        rows := rows[id := row.(attempts := row.attempts + 1)];
        return WrongGuess(id, row.attempts + 1 >= MAX_VERIFY_ATTEMPTS);
      }
      rows := rows[id := row.(used := true)];
      return Verified(id);
    }
  }
}
