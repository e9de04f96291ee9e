/**
 * The per-IP admission controller of config.go: a fixed-count window per
 * client IP, anchored at the last allowed request. Times are nanoseconds on
 * Go's monotonic clock, passed in explicitly; each call is atomic (the source
 * holds one mutex for the whole decision).
 */
module RateLimit {
  import opened Common

  /** maxRequests: requests allowed inside one window. */
  const MaxRequests: int := 30
  /** timeWindow: 5 * time.Second, in nanoseconds. */
  const TimeWindow: int := 5_000_000_000

  /** RequestInfo: when the IP was last let through, and how many requests it made since. */
  datatype RequestInfo = RequestInfo(lastAccess: int, count: int)

  /**
   * The decision for one request at time `now`, given the IP's record (None
   * when it has none yet): whether it is allowed, and the record afterwards.
   */
  function Decide(prior: Option<RequestInfo>, now: int): (r: (bool, RequestInfo))
    ensures r.0 <==> r.1.count <= MaxRequests
    ensures r.0 ==> r.1.lastAccess == now
    ensures !r.0 ==> prior.Some? && now - prior.value.lastAccess <= TimeWindow && r.1 == prior.value.(count := prior.value.count + 1)
  {
    match prior
    case None => (true, RequestInfo(now, 1))
    case Some(info) =>
      if now - info.lastAccess > TimeWindow then (true, RequestInfo(now, 1))
      else if info.count + 1 > MaxRequests then (false, info.(count := info.count + 1))
      else (true, RequestInfo(now, info.count + 1))
  }

  /** requestInfoMap together with the middleware that consults it. */
  class Limiter {
    var requests: map<string, RequestInfo>

    ghost predicate Valid()
      reads this
    {
      forall ip :: ip in requests ==> requests[ip].count >= 1
    }

    constructor ()
      ensures Valid() && requests == map[]
    {
      requests := map[];
    }

    function Lookup(ip: string): Option<RequestInfo>
      reads this
    {
      if ip in requests then Some(requests[ip]) else None
    }

    /** RateLimitMiddleware: true lets the request through, false answers 429 Too Many Requests. */
    method Admit(ip: string, now: int) returns (allowed: bool)
      requires Valid()
      modifies this
      ensures Valid()
      ensures requests.Keys == old(requests).Keys + {ip}
      ensures (allowed, requests[ip]) == Decide(old(Lookup(ip)), now)
      ensures forall other :: other in old(requests) && other != ip ==> requests[other] == old(requests)[other]
    {
      if ip !in requests {
        requests := requests[ip := RequestInfo(now, 1)];
        return true;
      }
      var info := requests[ip];
      if now - info.lastAccess > TimeWindow {
        info := info.(count := 1, lastAccess := now);
        requests := requests[ip := info];
        return true;
      }
      info := info.(count := info.count + 1);
      if info.count > MaxRequests {
        requests := requests[ip := info];
        return false;
      }
      info := info.(lastAccess := now);
      requests := requests[ip := info];
      allowed := true;
    }
  }

  /** An IP without a record is let through and starts a window of one request at `now`. */
  lemma FirstRequestAllowed(now: int)
    ensures Decide(None, now) == (true, RequestInfo(now, 1))
  {
  }

  /**
   * Strictly more than five seconds after the last allowed request the window
   * restarts, whatever the count; at exactly five seconds it does not.
   */
  lemma WindowExpiry(info: RequestInfo, now: int)
    ensures now - info.lastAccess > TimeWindow ==> Decide(Some(info), now) == (true, RequestInfo(now, 1))
    ensures now - info.lastAccess == TimeWindow ==> Decide(Some(info), now).1.count == info.count + 1
  {
  }

  /**
   * Inside the window the count grows by exactly one; the request is denied
   * iff the new count exceeds 30, and a denial keeps the old timestamp while
   * an allowed request moves it to `now`.
   */
  lemma InWindowCounting(info: RequestInfo, now: int)
    requires now - info.lastAccess <= TimeWindow
    ensures var (allowed, next) := Decide(Some(info), now);
      && next.count == info.count + 1
      && (allowed <==> next.count <= MaxRequests)
      && next.lastAccess == (if allowed then now else info.lastAccess)
  {
  }

  /** Every record the limiter writes has a count of at least one. */
  lemma DecideCountPositive(prior: Option<RequestInfo>, now: int)
    requires prior.Some? ==> prior.value.count >= 1
    ensures Decide(prior, now).1.count >= 1
  {
  }

  /** The decisions for consecutive requests from one IP. */
  function Replay(prior: Option<RequestInfo>, times: seq<int>): (decisions: seq<bool>)
    ensures |decisions| == |times|
    decreases |times|
  {
    if times == [] then []
    else
      var (allowed, next) := Decide(prior, times[0]);
      [allowed] + Replay(Some(next), times[1..])
  }

  /** All of `times` fall between `start` and five seconds after it. */
  predicate WithinWindowOf(times: seq<int>, start: int) {
    forall k :: 0 <= k < |times| ==> start <= times[k] <= start + TimeWindow
  }

  /**
   * Each request arrives at most five seconds after the last allowed one: the
   * window re-anchors at every allowed request (a denial keeps the timestamp),
   * so no reset ever happens along `times`.
   */
  predicate Chained(info: RequestInfo, times: seq<int>)
    decreases |times|
  {
    times == [] ||
      (times[0] - info.lastAccess <= TimeWindow && Chained(Decide(Some(info), times[0]).1, times[1..]))
  }

  /** Consecutive requests are at most five seconds apart. */
  predicate GapsWithin(times: seq<int>) {
    forall k :: 0 < k < |times| ==> times[k] - times[k - 1] <= TimeWindow
  }

  /** Along a chained run, the k-th request is allowed iff c + k + 1 <= 30. */
  lemma {:induction false} ReplayInWindow(info: RequestInfo, times: seq<int>)
    requires Chained(info, times)
    ensures forall k :: 0 <= k < |times| ==> Replay(Some(info), times)[k] == (info.count + k + 1 <= MaxRequests)
    decreases |times|
  {
    if times != [] {
      var (allowed, next) := Decide(Some(info), times[0]);
      assert next.count == info.count + 1;
      ReplayInWindow(next, times[1..]);
      forall k | 0 <= k < |times|
        ensures Replay(Some(info), times)[k] == (info.count + k + 1 <= MaxRequests)
      {
        if k > 0 {
          assert Replay(Some(info), times)[k] == Replay(Some(next), times[1..])[k - 1];
        }
      }
    }
  }

  /** A run that stays within five seconds of a start no later than the record is chained. */
  lemma {:induction false} WithinWindowChained(info: RequestInfo, times: seq<int>, start: int)
    requires start <= info.lastAccess
    requires WithinWindowOf(times, start)
    ensures Chained(info, times)
    decreases |times|
  {
    if times != [] {
      var next := Decide(Some(info), times[0]).1;
      assert start <= next.lastAccess;
      assert WithinWindowOf(times[1..], start) by {
        forall k | 0 <= k < |times[1..]| ensures start <= times[1..][k] <= start + TimeWindow {
          assert times[1..][k] == times[k + 1];
        }
      }
      WithinWindowChained(next, times[1..], start);
    }
  }

  /**
   * While every request but the last is still allowed, gaps of at most five
   * seconds keep the run chained: the window follows the requests.
   */
  lemma {:induction false} GapsChained(info: RequestInfo, times: seq<int>)
    requires times != [] ==> times[0] - info.lastAccess <= TimeWindow
    requires GapsWithin(times)
    requires info.count + |times| <= MaxRequests + 1
    ensures Chained(info, times)
    decreases |times|
  {
    if |times| > 1 {
      var (allowed, next) := Decide(Some(info), times[0]);
      assert allowed && next.lastAccess == times[0];
      assert times[1] - times[0] <= TimeWindow;
      assert GapsWithin(times[1..]) by {
        forall k | 0 < k < |times[1..]| ensures times[1..][k] - times[1..][k - 1] <= TimeWindow {
          assert times[1..][k] == times[k + 1] && times[1..][k - 1] == times[k];
        }
      }
      GapsChained(next, times[1..]);
    }
  }

  /**
   * A burst from a new IP in which every request comes within five seconds of
   * the last allowed one: the first 30 requests are allowed, every later one
   * is denied.
   */
  lemma {:induction false} BurstAllowsThirty(times: seq<int>)
    requires |times| > 0 && Chained(RequestInfo(times[0], 1), times[1..])
    ensures forall k :: 0 <= k < |times| ==> Replay(None, times)[k] == (k < MaxRequests)
  {
    var (_, first) := Decide(None, times[0]);
    ReplayInWindow(first, times[1..]);
    forall k | 0 <= k < |times| ensures Replay(None, times)[k] == (k < MaxRequests) {
      if k > 0 {
        assert Replay(None, times)[k] == Replay(Some(first), times[1..])[k - 1];
      }
    }
  }

  /** A burst that stays within five seconds of its first request is such a burst. */
  lemma BurstWithinWindow(times: seq<int>)
    requires |times| > 0 && WithinWindowOf(times, times[0])
    ensures forall k :: 0 <= k < |times| ==> Replay(None, times)[k] == (k < MaxRequests)
  {
    assert WithinWindowOf(times[1..], times[0]) by {
      forall k | 0 <= k < |times[1..]| ensures times[0] <= times[1..][k] <= times[0] + TimeWindow {
        assert times[1..][k] == times[k + 1];
      }
    }
    WithinWindowChained(RequestInfo(times[0], 1), times[1..], times[0]);
    BurstAllowsThirty(times);
  }

  /**
   * 31 requests from a new IP, each at most five seconds after the previous
   * one (so spanning up to 150 s): requests 1 to 30 pass, the 31st is denied.
   */
  lemma ThirtyFirstDenied(times: seq<int>)
    requires |times| == MaxRequests + 1 && GapsWithin(times)
    ensures forall k :: 0 <= k < MaxRequests ==> Replay(None, times)[k]
    ensures !Replay(None, times)[MaxRequests]
  {
    assert GapsWithin(times[1..]) by {
      forall k | 0 < k < |times[1..]| ensures times[1..][k] - times[1..][k - 1] <= TimeWindow {
        assert times[1..][k] == times[k + 1] && times[1..][k - 1] == times[k];
      }
    }
    assert times[1] - times[0] <= TimeWindow;
    GapsChained(RequestInfo(times[0], 1), times[1..]);
    BurstAllowsThirty(times);
  }

  /** Requests one second apart: the 31st, 30 s after the first, is denied. */
  lemma OneSecondApart(t0: int)
    ensures var times := seq(MaxRequests + 1, k => t0 + k * 1_000_000_000);
      !Replay(None, times)[MaxRequests] && Replay(None, times)[MaxRequests - 1]
  {
    var times := seq(MaxRequests + 1, k => t0 + k * 1_000_000_000);
    assert GapsWithin(times) by {
      forall k | 0 < k < |times| ensures times[k] - times[k - 1] <= TimeWindow {
        assert times[k] - times[k - 1] == 1_000_000_000;
      }
    }
    ThirtyFirstDenied(times);
  }
}
