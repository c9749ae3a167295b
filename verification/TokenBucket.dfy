/**
 The token bucket of deploy/shield/proxy.cpp and its use in filter_rate, over exact reals and an
 arbitrary clock that does not run backwards.
 */
module TokenBuckets {

  /** What the refill rate yields over an interval. */
  function Earned(rate: real, interval: real): real {
    interval * rate
  }

  lemma EarnedFacts(rate: real, a: real, b: real)
    ensures Earned(rate, a + b) == Earned(rate, a) + Earned(rate, b)
    ensures rate >= 0.0 && a >= 0.0 ==> Earned(rate, a) >= 0.0
    ensures Earned(rate, 0.0) == 0.0
  {
  }

  function Min(a: real, b: real): real {
    if a < b then a else b
  }

  /** The changing part of a bucket. */
  datatype Bucket = Bucket(tokens: real, lastRefill: real)

  /** A request for n tokens at some time. */
  datatype Request = Request(time: real, n: real)

  function Refilled(b: Bucket, max: real, rate: real, now: real): real {
    Min(max, b.tokens + Earned(rate, now - b.lastRefill))
  }

  predicate Grants(b: Bucket, max: real, rate: real, r: Request) {
    Refilled(b, max, rate, r.time) >= r.n
  }

  /** What a request takes. */
  function Taken(b: Bucket, max: real, rate: real, r: Request): real {
    if Grants(b, max, rate, r) then r.n else 0.0
  }

  function After(b: Bucket, max: real, rate: real, r: Request): Bucket {
    Bucket(Refilled(b, max, rate, r.time) - Taken(b, max, rate, r), r.time)
  }

  class TokenBucket {
    var tokens: real
    var maxTokens: real
    var refillRate: real
    var lastRefill: real

    constructor (maxT: real, rate: real, now: real)
      ensures tokens == maxTokens == maxT && refillRate == rate && lastRefill == now
    {
      tokens, maxTokens, refillRate, lastRefill := maxT, maxT, rate, now;
    }

    ghost function Now(): Bucket
      reads this
    {
      Bucket(tokens, lastRefill)
    }

    method Consume(n: real, now: real) returns (ok: bool)
      modifies this`tokens, this`lastRefill
      ensures var refilled := Min(maxTokens, old(tokens) + Earned(refillRate, now - old(lastRefill)));
              ok == (refilled >= n) && tokens == if ok then refilled - n else refilled
      ensures lastRefill == now
      ensures ok == Grants(old(Now()), maxTokens, refillRate, Request(now, n))
      ensures Now() == After(old(Now()), maxTokens, refillRate, Request(now, n))
    {
      var elapsed := now - lastRefill;
      tokens := Min(maxTokens, tokens + elapsed * refillRate);
      lastRefill := now;
      if tokens >= n {
        tokens := tokens - n;
        return true;
      }
      return false;
    }

    /** Any requests, one after the other. */
    method ConsumeAll(requests: seq<Request>) returns (answers: seq<bool>)
      modifies this`tokens, this`lastRefill
      ensures Now() == StateAfter(old(Now()), maxTokens, refillRate, requests) && |answers| == |requests|
      ensures forall i :: 0 <= i < |requests| ==>
                            answers[i] == GrantsAt(old(Now()), maxTokens, refillRate, requests, i)
    {
      hide After, Grants;
      answers := [];
      for i := 0 to |requests|
        invariant Now() == StateAfter(old(Now()), maxTokens, refillRate, requests[..i]) && |answers| == i
        invariant forall k :: 0 <= k < i ==>
                                answers[k] == GrantsAt(old(Now()), maxTokens, refillRate, requests, k)
      {
        assert requests[..i + 1][..i] == requests[..i];
        var ok := Consume(requests[i].n, requests[i].time);
        answers := answers + [ok];
      }
      assert requests[..|requests|] == requests;
    }

    /** filter_rate sets both limits to the configured message rate before each message. */
    method FilterRate(msgPerSec: real, now: real) returns (ok: bool)
      modifies this
      ensures maxTokens == refillRate == msgPerSec
      ensures Now() == After(old(Now()), msgPerSec, msgPerSec, Request(now, 1.0))
      ensures ok == Grants(old(Now()), msgPerSec, msgPerSec, Request(now, 1.0))
    {
      maxTokens := msgPerSec;
      refillRate := msgPerSec;
      ok := Consume(1.0, now);
    }
  }

  // ------------------------------------------------ runs

  ghost predicate Ordered(requests: seq<Request>) {
    forall i, j :: 0 <= i < j < |requests| ==> requests[i].time <= requests[j].time
  }

  ghost function StateAfter(b: Bucket, max: real, rate: real, requests: seq<Request>): Bucket {
    if requests == [] then b
    else After(StateAfter(b, max, rate, requests[..|requests| - 1]), max, rate, requests[|requests| - 1])
  }

  /** Request number i of a run is granted. */
  ghost predicate GrantsAt(b: Bucket, max: real, rate: real, requests: seq<Request>, i: nat)
    requires i < |requests|
  {
    Grants(StateAfter(b, max, rate, requests[..i]), max, rate, requests[i])
  }

  /** How many tokens the requests from number k on are granted. */
  ghost function GrantedFrom(b: Bucket, max: real, rate: real, requests: seq<Request>, k: nat): real
    requires k <= |requests|
  {
    if |requests| == k then 0.0 else
      var front, last := requests[..|requests| - 1], requests[|requests| - 1];
      GrantedFrom(b, max, rate, front, k) + Taken(StateAfter(b, max, rate, front), max, rate, last)
  }

  /** What one request takes and leaves comes out of the bucket and the refill, and fits the bucket. */
  lemma OneRequest(b: Bucket, max: real, rate: real, r: Request)
    ensures var left := After(b, max, rate, r).tokens;
            Taken(b, max, rate, r) + left <= max &&
            Taken(b, max, rate, r) + left <= b.tokens + Earned(rate, r.time - b.lastRefill) &&
            (max >= 0.0 && rate >= 0.0 && b.tokens >= 0.0 && r.time >= b.lastRefill ==> left >= 0.0)
    ensures After(b, max, rate, r).lastRefill == r.time
  {
    EarnedFacts(rate, r.time - b.lastRefill, 0.0);
    hide Earned;
  }

  /** Whatever came before, from request k on at most a full bucket and the refill of the interval are granted. */
  lemma {:induction false} GrantBound(b: Bucket, max: real, rate: real, requests: seq<Request>, k: nat)
    requires k < |requests| && Ordered(requests)
    ensures var last := requests[|requests| - 1].time;
            GrantedFrom(b, max, rate, requests, k) + StateAfter(b, max, rate, requests).tokens <=
            max + Earned(rate, last - requests[k].time)
    ensures StateAfter(b, max, rate, requests).lastRefill == requests[|requests| - 1].time
  {
    var front, last := requests[..|requests| - 1], requests[|requests| - 1];
    var s := StateAfter(b, max, rate, front);
    OneRequest(s, max, rate, last);
    assert GrantedFrom(b, max, rate, requests, k) == GrantedFrom(b, max, rate, front, k) + Taken(s, max, rate, last);
    hide Taken, After, Earned;
    if |requests| - 1 > k {
      GrantBound(b, max, rate, front, k);
      EarnedFacts(rate, s.lastRefill - requests[k].time, last.time - s.lastRefill);
    } else {
      EarnedFacts(rate, 0.0, 0.0);
    }
  }

  /** Tokens never go below zero, so the bound is on the grants alone. */
  lemma AtMostBurstPlusRefill(b: Bucket, max: real, rate: real, requests: seq<Request>, k: nat)
    requires max >= 0.0 && rate >= 0.0 && b.tokens >= 0.0
    requires k < |requests| && Ordered(requests) && b.lastRefill <= requests[0].time
    ensures GrantedFrom(b, max, rate, requests, k) <=
            max + Earned(rate, requests[|requests| - 1].time - requests[k].time)
  {
    GrantBound(b, max, rate, requests, k);
    TokensStayNonNegative(b, max, rate, requests);
  }

  lemma {:induction false} TokensStayNonNegative(b: Bucket, max: real, rate: real, requests: seq<Request>)
    requires max >= 0.0 && rate >= 0.0 && b.tokens >= 0.0
    requires Ordered(requests) && (requests != [] ==> b.lastRefill <= requests[0].time)
    ensures StateAfter(b, max, rate, requests).tokens >= 0.0
    ensures requests != [] ==> StateAfter(b, max, rate, requests).lastRefill == requests[|requests| - 1].time
  {
    if requests != [] {
      var front := requests[..|requests| - 1];
      TokensStayNonNegative(b, max, rate, front);
      OneRequest(StateAfter(b, max, rate, front), max, rate, requests[|requests| - 1]);
    }
  }

  // ------------------------------------------------ who is never refused

  /** How many tokens the requests from number k on ask for. */
  ghost function Asked(requests: seq<Request>, k: nat): real
    requires k <= |requests|
  {
    if |requests| == k then 0.0 else Asked(requests[..|requests| - 1], k) + requests[|requests| - 1].n
  }

  /**
   Up to the last request no more is asked for than what the bucket held and has earned since, and from no
   request on more than a full bucket and what it has earned since.
   */
  ghost predicate Conforms(b: Bucket, max: real, rate: real, requests: seq<Request>)
    requires requests != []
  {
    var now := requests[|requests| - 1].time;
    Asked(requests, 0) <= b.tokens + Earned(rate, now - b.lastRefill) &&
    forall k :: 0 <= k < |requests| ==> Asked(requests, k) <= max + Earned(rate, now - requests[k].time)
  }

  ghost predicate AllGranted(b: Bucket, max: real, rate: real, requests: seq<Request>) {
    forall i :: 0 <= i < |requests| ==> GrantsAt(b, max, rate, requests, i)
  }

  lemma AllGrantedFront(b: Bucket, max: real, rate: real, requests: seq<Request>)
    requires requests != []
    ensures var front, last := requests[..|requests| - 1], requests[|requests| - 1];
            AllGranted(b, max, rate, requests) <==>
            AllGranted(b, max, rate, front) && Grants(StateAfter(b, max, rate, front), max, rate, last)
  {
    hide Grants, StateAfter;
    var front := requests[..|requests| - 1];
    forall i | 0 <= i < |front|
      ensures GrantsAt(b, max, rate, front, i) <==> GrantsAt(b, max, rate, requests, i)
    {
      assert front[..i] == requests[..i];
    }
    assert GrantsAt(b, max, rate, requests, |front|) <==>
           Grants(StateAfter(b, max, rate, front), max, rate, requests[|front|]);
  }

  /** The refill of the bucket after granted requests is the least of what these bounds leave over. */
  lemma {:induction false} LeftOver(b: Bucket, max: real, rate: real, requests: seq<Request>, now: real)
    requires AllGranted(b, max, rate, requests)
    ensures var s := StateAfter(b, max, rate, requests);
            var left := s.tokens + Earned(rate, now - s.lastRefill);
            var start := b.tokens + Earned(rate, now - b.lastRefill) - Asked(requests, 0);
            left <= start &&
            (forall k :: 0 <= k < |requests| ==>
                           left <= max + Earned(rate, now - requests[k].time) - Asked(requests, k)) &&
            (left == start || exists k :: 0 <= k < |requests| &&
                                          left == max + Earned(rate, now - requests[k].time) - Asked(requests, k))
  {
    if requests != [] {
      var front, last := requests[..|requests| - 1], requests[|requests| - 1];
      AllGrantedFront(b, max, rate, requests);
      LeftOver(b, max, rate, front, last.time);
      var s := StateAfter(b, max, rate, front);
      GrantLeaves(s, max, rate, last, now);
      hide Earned, Grants, Min, After, AllGranted;
      var e := Earned(rate, now - last.time);
      EarnedFacts(rate, last.time - b.lastRefill, now - last.time);
      assert last.time - b.lastRefill + (now - last.time) == now - b.lastRefill;
      forall k | 0 <= k < |front|
        ensures Earned(rate, now - requests[k].time) == Earned(rate, last.time - front[k].time) + e
        ensures Asked(requests, k) == Asked(front, k) + last.n
      {
        EarnedFacts(rate, last.time - front[k].time, now - last.time);
        assert last.time - front[k].time + (now - last.time) == now - requests[k].time;
      }
      assert Asked(requests, |front|) == last.n;
    }
  }

  lemma GrantLeaves(s: Bucket, max: real, rate: real, r: Request, now: real)
    requires Grants(s, max, rate, r)
    ensures var t, held := After(s, max, rate, r), s.tokens + Earned(rate, r.time - s.lastRefill);
            t.lastRefill == r.time && t.tokens == (if max < held then max else held) - r.n
  {
    hide Earned;
  }

  /** One more request is granted exactly if the run with it still conforms. */
  lemma NextGranted(b: Bucket, max: real, rate: real, requests: seq<Request>)
    requires requests != [] && AllGranted(b, max, rate, requests[..|requests| - 1])
    ensures Grants(StateAfter(b, max, rate, requests[..|requests| - 1]), max, rate, requests[|requests| - 1]) <==>
            Conforms(b, max, rate, requests)
  {
    var front, last := requests[..|requests| - 1], requests[|requests| - 1];
    LeftOver(b, max, rate, front, last.time);
    EarnedFacts(rate, 0.0, 0.0);
    hide Earned, StateAfter, AllGranted;
    assert Asked(requests, |front|) == last.n;
    assert forall k :: 0 <= k < |front| ==> Asked(requests, k) == Asked(front, k) + last.n && front[k] == requests[k];
  }

  /** A run is granted as a whole exactly if it conforms at every request. */
  lemma {:induction false} GrantedExactly(b: Bucket, max: real, rate: real, requests: seq<Request>)
    ensures (forall i :: 0 <= i < |requests| ==> GrantsAt(b, max, rate, requests, i)) <==>
            (forall n :: 0 < n <= |requests| ==> Conforms(b, max, rate, requests[..n]))
  {
    hide Conforms, Grants, StateAfter, GrantsAt;
    if requests != [] {
      var front := requests[..|requests| - 1];
      GrantedExactly(b, max, rate, front);
      AllGrantedFront(b, max, rate, requests);
      if AllGranted(b, max, rate, front) { NextGranted(b, max, rate, requests); }
      assert requests[..|requests|] == requests;
      forall n | 0 < n <= |front| ensures requests[..n] == front[..n] {
      }
    }
  }

  // ------------------------------------------------ messages

  /** How many of the requests from number k on are granted. */
  ghost function CountFrom(b: Bucket, max: real, rate: real, requests: seq<Request>, k: nat): nat
    requires k <= |requests|
  {
    if |requests| == k then 0 else
      var front, last := requests[..|requests| - 1], requests[|requests| - 1];
      CountFrom(b, max, rate, front, k) + (if Grants(StateAfter(b, max, rate, front), max, rate, last) then 1 else 0)
  }

  lemma {:induction false} CountIsGranted(b: Bucket, max: real, rate: real, requests: seq<Request>, k: nat)
    requires k <= |requests| && forall i :: 0 <= i < |requests| ==> requests[i].n == 1.0
    ensures GrantedFrom(b, max, rate, requests, k) == CountFrom(b, max, rate, requests, k) as real
  {
    if k < |requests| {
      hide Grants, StateAfter;
      CountIsGranted(b, max, rate, requests[..|requests| - 1], k);
    }
  }

  /** filter_rate: one token a message, and one number for both limits. */
  lemma FilterRateBound(b: Bucket, msgPerSec: real, messages: seq<Request>, k: nat)
    requires msgPerSec >= 0.0 && b.tokens >= 0.0 && forall i :: 0 <= i < |messages| ==> messages[i].n == 1.0
    requires k < |messages| && Ordered(messages) && b.lastRefill <= messages[0].time
    ensures CountFrom(b, msgPerSec, msgPerSec, messages, k) as real <=
            msgPerSec + Earned(msgPerSec, messages[|messages| - 1].time - messages[k].time)
  {
    AtMostBurstPlusRefill(b, msgPerSec, msgPerSec, messages, k);
    CountIsGranted(b, msgPerSec, msgPerSec, messages, k);
  }
}
