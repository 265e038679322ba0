/**
 The fixed-window rate limiter that guards the publishing endpoint.

 The process keeps one window per client key (the forwarded-for address):
 how many requests it has admitted and when the window closes. Windows are
 replaced once they close and are never evicted. The clock is a parameter.
 */
module RateLimit {

  /** Length of one window in milliseconds. */
  const WindowMs: int := 60000
  /** Requests admitted per key per window. */
  const MaxRequests: nat := 10
  const RetryMessage: string := "Rate limit exceeded. Try again in 1 minute."

  datatype Window = Window(count: nat, resetAt: int)

  type Limits = map<string, Window>

  datatype Decision = Allowed | Rejected(message: string)

  /** The key has a window that has not yet closed at time `now`. */
  predicate IsLive(limits: Limits, key: string, now: int) {
    key in limits && limits[key].resetAt > now
  }

  /**
   `checkRateLimit`. A key without a live window gets a fresh one holding this
   request; a live window below the ceiling counts this request; a full live
   window rejects it and nothing changes. No other key is ever touched.
   */
  function CheckRateLimit(limits: Limits, key: string, now: int): (r: (Decision, Limits))
    ensures r.1 - {key} == limits - {key}
    ensures r.1.Keys == limits.Keys + {key}
    ensures !IsLive(limits, key, now) ==>
      r.0 == Allowed && r.1[key] == Window(1, now + WindowMs)
    ensures IsLive(limits, key, now) && limits[key].count < MaxRequests ==>
      r.0 == Allowed && r.1[key] == Window(limits[key].count + 1, limits[key].resetAt)
    ensures IsLive(limits, key, now) && limits[key].count >= MaxRequests ==>
      r.0 == Rejected(RetryMessage) && r.1 == limits
  {
    if IsLive(limits, key, now) then
      var w := limits[key];
      if w.count >= MaxRequests then
        (Rejected(RetryMessage), limits)
      else
        (Allowed, limits[key := w.(count := w.count + 1)])
    else
      (Allowed, limits[key := Window(1, now + WindowMs)])
  }

  /** Every window holds between one and `MaxRequests` admitted requests. */
  ghost predicate Bounded(limits: Limits) {
    forall k :: k in limits ==> 1 <= limits[k].count <= MaxRequests
  }

  /** The bound holds from the empty map and every check preserves it. */
  lemma CheckPreservesBound(limits: Limits, key: string, now: int)
    requires Bounded(limits)
    ensures Bounded(CheckRateLimit(limits, key, now).1)
  {
  }

  /** A request is admitted exactly when its key has no full live window. */
  lemma AllowedIff(limits: Limits, key: string, now: int)
    ensures CheckRateLimit(limits, key, now).0 == Allowed <==>
      !(IsLive(limits, key, now) && limits[key].count >= MaxRequests)
  {
  }

  /** The decisions for a sequence of requests from one key, and the final map. */
  function Replay(limits: Limits, key: string, times: seq<int>): (r: (seq<Decision>, Limits))
    ensures |r.0| == |times|
    decreases |times|
  {
    if times == [] then
      ([], limits)
    else
      var step := CheckRateLimit(limits, key, times[0]);
      var rest := Replay(step.1, key, times[1..]);
      ([step.0] + rest.0, rest.1)
  }

  /**
   Inside one live window that has already admitted `k` requests, the next
   requests are admitted while the count stays below the ceiling and
   rejected from then on.
   */
  lemma {:induction false} ReplayInLiveWindow(limits: Limits, key: string, times: seq<int>, k: nat, resetAt: int)
    requires key in limits && limits[key] == Window(k, resetAt)
    requires 1 <= k <= MaxRequests
    requires forall i :: 0 <= i < |times| ==> times[i] < resetAt
    ensures forall i :: 0 <= i < |times| ==>
      (Replay(limits, key, times).0[i] == Allowed <==> k + i < MaxRequests)
  {
    if times != [] {
      var step := CheckRateLimit(limits, key, times[0]);
      var k' := if k < MaxRequests then k + 1 else k;
      assert step.1[key] == Window(k', resetAt);
      ReplayInLiveWindow(step.1, key, times[1..], k', resetAt);
      var ds := Replay(limits, key, times).0;
      assert ds == [step.0] + Replay(step.1, key, times[1..]).0;
      forall i | 0 < i < |times|
        ensures ds[i] == Allowed <==> k + i < MaxRequests
      {
        assert ds[i] == Replay(step.1, key, times[1..]).0[i - 1];
        assert times[1..][i - 1] == times[i];
      }
    }
  }

  /**
   A burst from one key that opens a fresh window: every request that arrives
   before the window closes is admitted if it is among the first ten and
   rejected otherwise. In particular the eleventh request is rejected.
   */
  lemma BurstInOneWindow(limits: Limits, key: string, times: seq<int>)
    requires |times| >= 1
    requires !IsLive(limits, key, times[0])
    requires forall i :: 0 < i < |times| ==> times[i] < times[0] + WindowMs
    ensures forall i :: 0 <= i < |times| ==>
      (Replay(limits, key, times).0[i] == Allowed <==> i < MaxRequests)
  {
    var step := CheckRateLimit(limits, key, times[0]);
    var rest := times[1..];
    assert forall i :: 0 <= i < |rest| ==> rest[i] == times[i + 1];
    ReplayInLiveWindow(step.1, key, rest, 1, times[0] + WindowMs);
    var ds := Replay(limits, key, times).0;
    forall i | 0 < i < |times|
      ensures ds[i] == Allowed <==> i < MaxRequests
    {
      assert ds[i] == Replay(step.1, key, rest).0[i - 1];
    }
  }

  /** Once the window has closed, the next request is admitted and opens a new window of one. */
  lemma FreshWindowAfterExpiry(limits: Limits, key: string, now: int)
    requires key in limits && limits[key].resetAt <= now
    ensures CheckRateLimit(limits, key, now) ==
      (Allowed, limits[key := Window(1, now + WindowMs)])
  {
  }
}
