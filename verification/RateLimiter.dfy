/**
 The request rate limiter of src/testnet_node.cpp, with one clock in whole seconds: a window count,
 a ban after too many requests, and eviction of old records when too many addresses are tracked.
 */
module RateLimiting {

  const MAX_REQUESTS_PER_MINUTE := 120
  const BAN_DURATION_SECONDS := 60
  const MAX_TRACKED_IPS := 10000
  const WINDOW_SECONDS := 60
  const EVICT_AGE := 300

  datatype IPRecord = IPRecord(requestCount: nat, windowStart: nat, blockedUntil: nat)

  const FRESH := IPRecord(0, 0, 0)

  /** What one request does to the record of its address, and whether it is allowed. */
  function Step(rec: IPRecord, now: nat): (r: (bool, IPRecord)) {
    if rec.blockedUntil > 0 && now < rec.blockedUntil then (false, rec) else
      var unbanned := if rec.blockedUntil > 0 then IPRecord(0, rec.windowStart, 0) else rec;
      var current :=
        if now - unbanned.windowStart >= WINDOW_SECONDS then unbanned.(requestCount := 0, windowStart := now)
        else unbanned;
      var counted := current.(requestCount := current.requestCount + 1);
      if counted.requestCount > MAX_REQUESTS_PER_MINUTE
      then (false, counted.(blockedUntil := now + BAN_DURATION_SECONDS))
      else (true, counted)
  }

  function RecordOf(records: map<string, IPRecord>, ip: string): IPRecord {
    if ip in records then records[ip] else FRESH
  }

  datatype Request = Request(ip: string, time: nat)

  ghost predicate Ordered(requests: seq<Request>) {
    forall i, j :: 0 <= i < j < |requests| ==> requests[i].time <= requests[j].time
  }

  // ------------------------------------------------ the limiter that never evicts

  ghost function RecordsAfter(requests: seq<Request>): map<string, IPRecord> {
    if requests == [] then map[] else
      var before, last := RecordsAfter(requests[..|requests| - 1]), requests[|requests| - 1];
      before[last.ip := Step(RecordOf(before, last.ip), last.time).1]
  }

  /** Its answer to the last request. */
  ghost function AllowsLast(requests: seq<Request>): bool
    requires requests != []
  {
    var before, last := RecordsAfter(requests[..|requests| - 1]), requests[|requests| - 1];
    Step(RecordOf(before, last.ip), last.time).0
  }

  // ------------------------------------------------ what a record can look like

  /** A ban ends at least one and at most two windows after the window in which it was given. */
  ghost predicate RecordOk(rec: IPRecord, now: nat) {
    rec.windowStart <= now && rec.requestCount <= MAX_REQUESTS_PER_MINUTE + 1 &&
    (rec.requestCount > MAX_REQUESTS_PER_MINUTE ==> rec.blockedUntil > 0) &&
    (rec.blockedUntil > 0 ==>
     rec.windowStart + WINDOW_SECONDS <= rec.blockedUntil <= rec.windowStart + WINDOW_SECONDS + BAN_DURATION_SECONDS)
  }

  lemma StepKeepsRecordOk(rec: IPRecord, now: nat)
    requires RecordOk(rec, now)
    ensures RecordOk(Step(rec, now).1, now)
    ensures Step(rec, now).1.windowStart == rec.windowStart ||
            Step(rec, now).1.windowStart == now >= rec.windowStart + WINDOW_SECONDS
    ensures Step(rec, now).0 ==> now < Step(rec, now).1.windowStart + WINDOW_SECONDS
  {
  }

  /** Old enough to be evicted. */
  ghost predicate Aged(rec: IPRecord, now: nat) {
    now - rec.windowStart > EVICT_AGE
  }

  /** An aged record answers, and goes on, exactly like no record at all. */
  lemma AgedIsFresh(rec: IPRecord, earlier: nat, now: nat)
    requires RecordOk(rec, earlier) && Aged(rec, earlier) && earlier <= now
    ensures Step(rec, now) == Step(FRESH, now)
  {
  }

  /** The record of an allowed request is not aged. */
  lemma StepIsRecent(rec: IPRecord, now: nat)
    ensures Step(rec, now).0 ==> !Aged(Step(rec, now).1, now)
  {
  }

  // ------------------------------------------------ the limiter of the source

  /** The evicting records agree with the full ones, except that aged ones may be missing. */
  ghost predicate Simulates(records: map<string, IPRecord>, full: map<string, IPRecord>, now: nat) {
    (forall ip :: ip in full ==> RecordOk(full[ip], now)) &&
    (forall ip :: ip in records ==> ip in full && records[ip] == full[ip]) &&
    (forall ip :: ip in full && ip !in records ==> Aged(full[ip], now))
  }

  class RateLimiter {
    var records: map<string, IPRecord>

    constructor ()
      ensures records == map[]
    {
      records := map[];
    }

    method Allow(ip: string, now: nat) returns (ok: bool)
      modifies this
      ensures ok == Step(RecordOf(old(records), ip), now).0
      ensures ip in records && records[ip] == Step(RecordOf(old(records), ip), now).1
      ensures forall k :: k in records && k != ip ==> k in old(records) && records[k] == old(records)[k]
      ensures forall k :: k in old(records) && k !in records ==> Aged(old(records)[k], now)
      // records are dropped only when there are too many, and then down to half the limit or until none is aged
      ensures var updated := old(records)[ip := Step(RecordOf(old(records), ip), now).1];
              if ok && |updated| > MAX_TRACKED_IPS
              then |records| == MAX_TRACKED_IPS / 2 ||
                  (|records| > MAX_TRACKED_IPS / 2 && forall k :: k in records ==> !Aged(records[k], now))
              else records == updated
    {
      ok := Count(ip, now);
      StepIsRecent(RecordOf(old(records), ip), now);
      if ok && |records| > MAX_TRACKED_IPS {
        hide Step;
        Evict(now);
      }
    }

    /** The part of allow before the clean-up: ban, window and count of one address. */
    method Count(ip: string, now: nat) returns (ok: bool)
      modifies this
      ensures var (allowed, rec) := Step(RecordOf(old(records), ip), now);
              ok == allowed && records == old(records)[ip := rec]
    {
      if ip !in records { records := records[ip := FRESH]; }
      var rec := records[ip];
      if rec.blockedUntil > 0 {
        if now < rec.blockedUntil { return false; }
        rec := rec.(blockedUntil := 0, requestCount := 0);
      }
      if now - rec.windowStart >= WINDOW_SECONDS {
        rec := rec.(requestCount := 0, windowStart := now);
      }
      rec := rec.(requestCount := rec.requestCount + 1);
      if rec.requestCount > MAX_REQUESTS_PER_MINUTE {
        rec := rec.(blockedUntil := now + BAN_DURATION_SECONDS);
        records := records[ip := rec];
        return false;
      }
      records := records[ip := rec];
      return true;
    }

    /** Drop aged records, in some order, until half the limit is left or all have been looked at. */
    method Evict(now: nat)
      modifies this
      ensures forall k :: k in records ==> k in old(records) && records[k] == old(records)[k]
      ensures forall k :: k in old(records) && k !in records ==> Aged(old(records)[k], now)
      ensures |old(records)| > MAX_TRACKED_IPS / 2 ==>
                |records| == MAX_TRACKED_IPS / 2 ||
                (|records| > MAX_TRACKED_IPS / 2 && forall k :: k in records ==> !Aged(records[k], now))
    {
      var ahead := records.Keys;
      while ahead != {} && |records| > MAX_TRACKED_IPS / 2
        invariant ahead <= records.Keys && forall k :: k in records && k !in ahead ==> !Aged(records[k], now)
        invariant |old(records)| > MAX_TRACKED_IPS / 2 ==> |records| >= MAX_TRACKED_IPS / 2
        invariant forall k :: k in records ==> k in old(records) && records[k] == old(records)[k]
        invariant forall k :: k in old(records) && k !in records ==> Aged(old(records)[k], now)
        decreases ahead
      {
        var k :| k in ahead;
        ahead := ahead - {k};
        if now - records[k].windowStart > EVICT_AGE {
          records := records - {k};
        }
      }
    }

    /** Request number i of a run is answered as the limiter that never evicts would. */
    method ServeNext(requests: seq<Request>, i: nat) returns (ok: bool)
      requires Ordered(requests) && i < |requests|
      requires Simulates(records, RecordsAfter(requests[..i]), TimeBefore(requests, i))
      modifies this
      ensures ok == AllowsLast(requests[..i + 1])
      ensures Simulates(records, RecordsAfter(requests[..i + 1]), TimeBefore(requests, i + 1))
    {
      hide Step, Simulates, RecordsAfter, AllowsLast;
      var req := requests[i];
      ok := Allow(req.ip, req.time);
      SimulationStep(old(records), RecordsAfter(requests[..i]), TimeBefore(requests, i), records, req);
      PrefixStep(requests, i);
    }

    /** So serving any time-ordered requests from the start gives, one by one, its answers. */
    method ServeAll(requests: seq<Request>) returns (answers: seq<bool>)
      requires Ordered(requests) && records == map[]
      modifies this
      ensures |answers| == |requests|
      ensures forall i :: 0 <= i < |requests| ==> answers[i] == AllowsLast(requests[..i + 1])
    {
      answers := [];
      assert requests[..0] == [] && Simulates(records, RecordsAfter([]), 0);
      hide Simulates, RecordsAfter, AllowsLast;
      for i := 0 to |requests|
        invariant |answers| == i && forall k :: 0 <= k < i ==> answers[k] == AllowsLast(requests[..k + 1])
        invariant Simulates(records, RecordsAfter(requests[..i]), TimeBefore(requests, i))
      {
        var ok := ServeNext(requests, i);
        answers := answers + [ok];
      }
    }
  }

  /** The time of the request before number i. */
  ghost function TimeBefore(requests: seq<Request>, i: nat): nat
    requires i <= |requests|
  {
    if i == 0 then 0 else requests[i - 1].time
  }

  lemma PrefixStep(requests: seq<Request>, i: nat)
    requires i < |requests|
    ensures var before, req := RecordsAfter(requests[..i]), requests[i];
            RecordsAfter(requests[..i + 1]) == before[req.ip := Step(RecordOf(before, req.ip), req.time).1] &&
            AllowsLast(requests[..i + 1]) == Step(RecordOf(before, req.ip), req.time).0
  {
    assert requests[..i + 1][..i] == requests[..i];
  }

  /** One step of the simulation: same answer, and the records stay related. */
  lemma SimulationStep(before: map<string, IPRecord>, full: map<string, IPRecord>, earlier: nat,
                       records: map<string, IPRecord>, req: Request)
    requires Simulates(before, full, earlier) && earlier <= req.time
    requires req.ip in records && records[req.ip] == Step(RecordOf(before, req.ip), req.time).1
    requires forall k :: k in records && k != req.ip ==> k in before && records[k] == before[k]
    requires forall k :: k in before && k !in records ==> Aged(before[k], req.time)
    ensures Step(RecordOf(before, req.ip), req.time) == Step(RecordOf(full, req.ip), req.time)
    ensures Simulates(records, full[req.ip := Step(RecordOf(full, req.ip), req.time).1], req.time)
  {
    SameRecord(before, full, earlier, req);
    OthersSimulate(before, full, earlier, records, req);
    hide Step, Aged;
  }

  /** The request finds the same record on both sides, or one that answers the same. */
  lemma SameRecord(before: map<string, IPRecord>, full: map<string, IPRecord>, earlier: nat, req: Request)
    requires Simulates(before, full, earlier) && earlier <= req.time
    ensures Step(RecordOf(before, req.ip), req.time) == Step(RecordOf(full, req.ip), req.time)
    ensures RecordOk(Step(RecordOf(full, req.ip), req.time).1, req.time)
  {
    if req.ip in full {
      if req.ip !in before { AgedIsFresh(full[req.ip], earlier, req.time); }
      StepKeepsRecordOk(full[req.ip], req.time);
    } else {
      StepKeepsRecordOk(FRESH, req.time);
    }
  }

  lemma OthersSimulate(before: map<string, IPRecord>, full: map<string, IPRecord>, earlier: nat,
                       records: map<string, IPRecord>, req: Request)
    requires Simulates(before, full, earlier) && earlier <= req.time
    requires forall k :: k in records && k != req.ip ==> k in before && records[k] == before[k]
    requires forall k :: k in before && k !in records ==> Aged(before[k], req.time)
    ensures forall ip :: ip in full && ip != req.ip ==> RecordOk(full[ip], req.time)
    ensures forall ip :: ip in records && ip != req.ip ==> ip in full && records[ip] == full[ip]
    ensures forall ip :: ip in full && ip != req.ip && ip !in records ==> Aged(full[ip], req.time)
  {
  }

  // ------------------------------------------------ bounds over whole runs

  /** Allowed requests of one address in the 60 seconds from a moment on. */
  ghost function AllowedSince(requests: seq<Request>, ip: string, from: nat): nat {
    if requests == [] then 0 else
      var last := requests[|requests| - 1];
      AllowedSince(requests[..|requests| - 1], ip, from) +
      (if last.ip == ip && from <= last.time < from + WINDOW_SECONDS && AllowsLast(requests) then 1 else 0)
  }

  /** Allowed requests of one address in the window that started at a given moment. */
  ghost function AllowedInWindow(requests: seq<Request>, ip: string, start: nat): nat {
    if requests == [] then 0 else
      var last := requests[|requests| - 1];
      AllowedInWindow(requests[..|requests| - 1], ip, start) +
      (if last.ip == ip && AllowsLast(requests) && RecordsAfter(requests)[ip].windowStart == start then 1 else 0)
  }

  function AtMostLimit(n: nat): nat {
    if n > MAX_REQUESTS_PER_MINUTE then MAX_REQUESTS_PER_MINUTE else n
  }

  /** What the current record says about the allowed requests of the window that started at w. */
  function InWindowAtMost(rec: IPRecord, w: nat): nat {
    if w > rec.windowStart then 0
    else if w == rec.windowStart then AtMostLimit(rec.requestCount)
    else MAX_REQUESTS_PER_MINUTE
  }

  /** What it says about the allowed requests of the 60 seconds from a moment on. */
  function SinceAtMost(rec: IPRecord, from: nat): nat {
    if rec.windowStart < from then AtMostLimit(rec.requestCount)
    else if rec.windowStart < from + WINDOW_SECONDS then MAX_REQUESTS_PER_MINUTE + AtMostLimit(rec.requestCount)
    else 2 * MAX_REQUESTS_PER_MINUTE
  }

  /** What the last request did to the record of an address. */
  lemma LastStep(requests: seq<Request>, ip: string)
    requires requests != []
    ensures var front, last := requests[..|requests| - 1], requests[|requests| - 1];
            var rec, after := RecordOf(RecordsAfter(front), ip), RecordOf(RecordsAfter(requests), ip);
            if last.ip == ip
            then (AllowsLast(requests), after) == Step(rec, last.time) && RecordsAfter(requests)[ip] == after
            else after == rec
  {
  }

  lemma {:induction false} RecordOkAfter(requests: seq<Request>, ip: string)
    requires Ordered(requests)
    ensures RecordOk(RecordOf(RecordsAfter(requests), ip), TimeBefore(requests, |requests|))
  {
    if requests != [] {
      hide Step, RecordsAfter, AllowsLast;
      var front, last := requests[..|requests| - 1], requests[|requests| - 1];
      RecordOkAfter(front, ip);
      LastStep(requests, ip);
      StepKeepsRecordOk(RecordOf(RecordsAfter(front), ip), last.time);
    }
  }

  /** The accounting for one window, in terms of the address's current record. */
  lemma {:induction false} WindowAccounting(requests: seq<Request>, ip: string, w: nat)
    requires Ordered(requests)
    ensures AllowedInWindow(requests, ip, w) <= InWindowAtMost(RecordOf(RecordsAfter(requests), ip), w)
  {
    if requests != [] {
      hide Step, RecordsAfter, AllowsLast, InWindowAtMost;
      var front, last := requests[..|requests| - 1], requests[|requests| - 1];
      WindowAccounting(front, ip, w);
      LastStep(requests, ip);
      RecordOkAfter(front, ip);
      WindowStep(RecordOf(RecordsAfter(front), ip), last.time, w, AllowedInWindow(front, ip, w));
    }
  }

  lemma WindowStep(rec: IPRecord, now: nat, w: nat, allowed: nat)
    requires RecordOk(rec, now) && allowed <= InWindowAtMost(rec, w)
    ensures var (ok, r) := Step(rec, now);
            allowed + (if ok && r.windowStart == w then 1 else 0) <= InWindowAtMost(r, w)
  {
  }

  /** The accounting for the 60 seconds from a moment on. */
  lemma {:induction false} SinceAccounting(requests: seq<Request>, ip: string, from: nat)
    requires Ordered(requests)
    ensures TimeBefore(requests, |requests|) < from ==> AllowedSince(requests, ip, from) == 0
    ensures AllowedSince(requests, ip, from) <= SinceAtMost(RecordOf(RecordsAfter(requests), ip), from)
  {
    if requests != [] {
      hide Step, RecordsAfter, AllowsLast, SinceAtMost;
      var front, last := requests[..|requests| - 1], requests[|requests| - 1];
      SinceAccounting(front, ip, from);
      LastStep(requests, ip);
      RecordOkAfter(front, ip);
      if last.ip == ip {
        SinceStep(RecordOf(RecordsAfter(front), ip), TimeBefore(front, |front|), last.time, from,
                  AllowedSince(front, ip, from));
      }
    }
  }

  lemma SinceStep(rec: IPRecord, earlier: nat, now: nat, from: nat, allowed: nat)
    requires RecordOk(rec, earlier) && earlier <= now && (earlier < from ==> allowed == 0)
    requires allowed <= SinceAtMost(rec, from)
    ensures var (ok, r) := Step(rec, now);
            allowed + (if ok && from <= now < from + WINDOW_SECONDS then 1 else 0) <= SinceAtMost(r, from)
  {
  }

  /** No address gets more than 120 requests in a window, nor more than 240 in any 60 seconds. */
  lemma LimitsHold(requests: seq<Request>, ip: string, from: nat, start: nat)
    requires Ordered(requests)
    ensures AllowedInWindow(requests, ip, start) <= MAX_REQUESTS_PER_MINUTE
    ensures AllowedSince(requests, ip, from) <= 2 * MAX_REQUESTS_PER_MINUTE
  {
    WindowAccounting(requests, ip, start);
    SinceAccounting(requests, ip, from);
  }

  // ------------------------------------------------ who is refused, and for how long

  /** The answer to the last request of an address; nobody is refused before asking. */
  ghost function LastAnswer(requests: seq<Request>, ip: string): bool {
    if requests == [] then true else
      if requests[|requests| - 1].ip == ip then AllowsLast(requests)
      else LastAnswer(requests[..|requests| - 1], ip)
  }

  /** The requests of one address in the 60 seconds from a moment on, answered either way. */
  ghost function SentSince(requests: seq<Request>, ip: string, from: nat): nat {
    if requests == [] then 0 else
      var last := requests[|requests| - 1];
      SentSince(requests[..|requests| - 1], ip, from) +
      (if last.ip == ip && from <= last.time < from + 60 then 1 else 0)
  }

  /** Request number k is refused although the one before it of the same address was not. */
  ghost predicate StartsBan(requests: seq<Request>, k: nat)
    requires k < |requests|
  {
    LastAnswer(requests[..k], requests[k].ip) && !AllowsLast(requests[..k + 1])
  }

  /** The record of an address is marked as blocked exactly while its last request was refused. */
  lemma {:induction false} BlockedExactly(requests: seq<Request>, ip: string)
    requires Ordered(requests)
    ensures var rec := RecordOf(RecordsAfter(requests), ip);
            (LastAnswer(requests, ip) <==> rec.blockedUntil == 0) &&
            (rec.blockedUntil == 0 ==> rec.requestCount <= AllowedSince(requests, ip, rec.windowStart))
  {
    if requests != [] {
      hide Step, RecordsAfter, AllowsLast;
      var front, last := requests[..|requests| - 1], requests[|requests| - 1];
      BlockedExactly(front, ip);
      LastStep(requests, ip);
      RecordOkAfter(front, ip);
      StepCounts(RecordOf(RecordsAfter(front), ip), last.time);
    }
  }

  lemma StepCounts(rec: IPRecord, now: nat)
    requires RecordOk(rec, now)
    ensures var (ok, r) := Step(rec, now);
            (ok <==> r.blockedUntil == 0) && (!ok ==> now < r.blockedUntil) &&
            (ok ==> r.windowStart <= now < r.windowStart + 60) &&
            (ok ==> r.requestCount == 1 || (r.windowStart == rec.windowStart && r.requestCount == rec.requestCount + 1))
    ensures rec.blockedUntil > 0 ==>
              var (ok, r) := Step(rec, now);
              (ok <==> rec.blockedUntil <= now) && (!ok ==> r == rec)
    ensures rec.blockedUntil == 0 && !Step(rec, now).0 ==>
              Step(rec, now).1.blockedUntil == now + 60 && rec.requestCount >= 120 &&
              rec.windowStart <= now < rec.windowStart + 60
  {
  }

  /** After a ban has begun, the record of the address stays as it is until a request 60 seconds later. */
  lemma {:induction false} BanStays(requests: seq<Request>, k: nat, n: nat)
    requires Ordered(requests) && k < n <= |requests| && StartsBan(requests, k)
    requires forall m :: k < m < n && requests[m].ip == requests[k].ip ==> requests[m].time < requests[k].time + 60
    ensures RecordOf(RecordsAfter(requests[..n]), requests[k].ip).blockedUntil == requests[k].time + 60
    decreases n
  {
    hide Step, RecordsAfter, AllowsLast;
    var ip := requests[k].ip;
    PrefixStep(requests, n - 1);
    RecordOkAfter(requests[..n - 1], ip);
    StepCounts(RecordOf(RecordsAfter(requests[..n - 1]), ip), requests[n - 1].time);
    if k == n - 1 {
      BlockedExactly(requests[..k], ip);
    } else {
      BanStays(requests, k, n - 1);
    }
  }

  /** A ban refuses everything for 60 seconds from the request that began it, and then ends. */
  lemma BanLastsExactly(requests: seq<Request>, k: nat, i: nat)
    requires Ordered(requests) && k < i < |requests| && StartsBan(requests, k) && requests[i].ip == requests[k].ip
    requires forall m :: k < m < i && requests[m].ip == requests[k].ip ==> requests[m].time < requests[k].time + 60
    ensures AllowsLast(requests[..i + 1]) <==> requests[i].time >= requests[k].time + 60
  {
    hide Step, RecordsAfter, AllowsLast;
    var ip := requests[k].ip;
    BanStays(requests, k, i);
    PrefixStep(requests, i);
    RecordOkAfter(requests[..i], ip);
    StepCounts(RecordOf(RecordsAfter(requests[..i]), ip), requests[i].time);
  }

  /** A request that begins a ban comes after 120 allowed ones in the same 60 seconds. */
  lemma BanHasReason(requests: seq<Request>, k: nat) returns (w: nat)
    requires Ordered(requests) && k < |requests| && StartsBan(requests, k)
    ensures w <= requests[k].time < w + 60 && AllowedSince(requests[..k], requests[k].ip, w) >= 120
  {
    hide Step, RecordsAfter, AllowsLast;
    var rec := RecordOf(RecordsAfter(requests[..k]), requests[k].ip);
    w := rec.windowStart;
    BlockedExactly(requests[..k], requests[k].ip);
    PrefixStep(requests, k);
    RecordOkAfter(requests[..k], requests[k].ip);
    StepCounts(rec, requests[k].time);
  }

  /** While the last request of an address was refused, the ban that refused it began less than 60 seconds before. */
  lemma {:induction false} BanBegan(requests: seq<Request>, i: nat) returns (k: nat)
    requires Ordered(requests) && i < |requests| && !AllowsLast(requests[..i + 1])
    ensures k <= i && StartsBan(requests, k)
    ensures requests[k].ip == requests[i].ip && requests[i].time < requests[k].time + 60
  {
    hide Step, RecordsAfter, AllowsLast;
    var ip := requests[i].ip;
    if LastAnswer(requests[..i], ip) {
      k := i;
    } else {
      var p := LastRefused(requests, i, ip);
      k := BanBegan(requests, p);
      forall m | k < m < i && requests[m].ip == ip ensures requests[m].time < requests[k].time + 60 {
        assert m <= p;
      }
      BanLastsExactly(requests, k, i);
    }
  }

  /** The last request of an address among the first n. */
  lemma {:induction false} LastRefused(requests: seq<Request>, n: nat, ip: string) returns (p: nat)
    requires n <= |requests| && !LastAnswer(requests[..n], ip)
    ensures p < n && requests[p].ip == ip && !AllowsLast(requests[..p + 1])
    ensures forall m :: p < m < n ==> requests[m].ip != ip
  {
    hide AllowsLast;
    if requests[n - 1].ip == ip {
      p := n - 1;
    } else {
      assert requests[..n][..n - 1] == requests[..n - 1];
      p := LastRefused(requests, n - 1, ip);
    }
  }

  /** Refused requests, too, are sent. */
  lemma {:induction false} AllowedAreSent(requests: seq<Request>, n: nat, ip: string, from: nat)
    requires n <= |requests|
    ensures AllowedSince(requests[..n], ip, from) <= SentSince(requests[..n], ip, from) <= SentSince(requests, ip, from)
    decreases |requests|, n
  {
    hide AllowsLast;
    if n < |requests| {
      assert requests[..|requests| - 1][..n] == requests[..n];
      AllowedAreSent(requests[..|requests| - 1], n, ip, from);
    } else {
      assert requests[..n] == requests;
      if n > 0 {
        assert requests[..n - 1][..n - 1] == requests[..n - 1];
        AllowedAreSent(requests[..n - 1], n - 1, ip, from);
      }
    }
  }

  /** An address that never sends more than 120 requests in 60 seconds is never refused. */
  lemma ModestIsServed(requests: seq<Request>, ip: string, i: nat)
    requires Ordered(requests) && i < |requests| && requests[i].ip == ip
    requires forall from: nat :: SentSince(requests, ip, from) <= 120
    ensures AllowsLast(requests[..i + 1])
  {
    hide Step, RecordsAfter, AllowsLast;
    if !AllowsLast(requests[..i + 1]) {
      var k := BanBegan(requests, i);
      var w := BanHasReason(requests, k);
      assert requests[..k + 1][..k] == requests[..k];
      AllowedAreSent(requests, k, ip, w);
      AllowedAreSent(requests, k + 1, ip, w);
      assert false;
    }
  }
}
