/** The per-IP sliding window rate limiter. */
module RateLimiter {
  import opened Options
  import opened RateLimitSteps
  import opened RateLimitRuns

  class RateLimiter {
    const limit: int
    const window: int
    const maxIPs: int
    var requests: Table
    ghost var log: seq<Event>
    ghost var clock: int

    /** The table matches the history of requests and cleanup ticks, the last of them at `clock`. */
    ghost predicate Valid()
      reads this
    {
      Inv(Cfg(), log, requests, clock)
    }

    constructor (limit: int, window: int, maxIPs: int)
      ensures this.limit == limit && this.window == window && this.maxIPs == maxIPs
      ensures requests == map[] && log == [] && clock == 0
      ensures limit >= 1 && window >= 0 ==> Valid()
    {
      this.limit := limit;
      this.window := window;
      this.maxIPs := maxIPs;
      requests := map[];
      log := [];
      clock := 0;
    }

    function Cfg(): Config { Config(limit, window, maxIPs) }

    /**
     Decides one request: it is allowed exactly when fewer than `limit` of all the requests accepted from
     this IP since it was last evicted lie inside the window.
     */
    method Allow(ip: IP, now: int) returns (allowed: bool, remaining: int, reset: int, retryAfter: int)
      requires Valid() && clock <= now
      modifies this
      ensures Valid() && clock == now
      ensures allowed <==> |Since(Accepted(old(log), ip), now - window)| < limit
      ensures var recent := Since(Accepted(old(log), ip), now - window);
              && remaining == (if allowed then limit - |recent| - 1 else 0)
              && reset == now + window
              && retryAfter == if allowed then 0 else recent[0] + window - now
      ensures NeverExceeded(Cfg(), log)
      ensures exists evicted :: var e := Request(ip, now, Answer(allowed, remaining, reset, retryAfter), evicted);
                log == old(log) + [e] && Step(Cfg(), old(requests), e, requests)
    {
      hide Inv, Step, NeverExceeded, Accepted, Since;
      InvHasLimit(Cfg(), log, requests, clock);
      ghost var e;
      var panicked;
      panicked, allowed, remaining, reset, retryAfter, e := Decide(ip, now);
      RequestKeepsInv(Cfg(), log, old(requests), clock, e, requests);
      log, clock := log + [e], now;
      InvNeverExceeded(Cfg(), log, requests, clock);
    }

    /** The body of Allow, for any limit: it panics where it takes the front of an empty list. */
    method Decide(ip: IP, now: int)
      returns (panicked: bool, allowed: bool, remaining: int, reset: int, retryAfter: int, ghost e: Event)
      modifies this`requests
      ensures panicked <==> Panics(Cfg(), old(requests), ip, now)
      ensures panicked ==> requests == old(requests)[ip := []]
      ensures !panicked ==>
                && e.Request? && e == Request(ip, now, Answer(allowed, remaining, reset, retryAfter), e.evicted)
                && Step(Cfg(), old(requests), e, requests)
      ensures var recent := Trim(Stored(old(requests), ip), now - window);
              !panicked ==>
                && (allowed <==> |recent| < limit)
                && remaining == (if allowed then limit - |recent| - 1 else 0)
                && reset == now + window
                && retryAfter == if allowed then 0 else recent[0] + window - now
    {
      hide EvictStep, Trim;
      panicked, allowed, remaining, retryAfter := false, false, 0, 0;
      var windowStart := now - window;
      reset := now + window;

      if ip !in requests {
        requests := requests[ip := []];
      }
      var l := RemoveOld(requests[ip], windowStart);
      requests := requests[ip := l];
      assert requests == old(requests)[ip := l];

      if |l| >= limit {
        if l == [] {
          panicked, e := true, Sweep(now);
          return;
        }
        retryAfter := window - (now - l[0]);
        e := Request(ip, now, Answer(allowed, remaining, reset, retryAfter), None);
        return;
      }

      l := l + [now];
      requests := requests[ip := l];
      assert requests == old(requests)[ip := l];
      allowed := true;
      remaining := limit - |l|;

      var evicted := None;
      if maxIPs > 0 && |requests| > maxIPs {
        evicted := EvictOldest();
      } else {
        NoEvictionBelow(Cfg(), requests, None, requests);
      }
      e := Request(ip, now, Answer(allowed, remaining, reset, retryAfter), evicted);
    }

    method RemoveOld(times: seq<int>, windowStart: int) returns (l: seq<int>)
      ensures l == Trim(times, windowStart)
    {
      l := times;
      while l != [] && l[0] < windowStart
        invariant Trim(l, windowStart) == Trim(times, windowStart)
      {
        l := l[1..];
      }
    }

    /** Scans the table, in whatever order the map yields it, for an IP with a minimal oldest time. */
    method EvictOldest() returns (evicted: Option<IP>)
      requires maxIPs > 0 && |requests| > maxIPs
      modifies this`requests
      ensures EvictStep(Cfg(), old(requests), evicted, requests)
      ensures requests == map ip | ip in old(requests) && old(requests)[ip] != [] && evicted != Some(ip)
                            :: old(requests)[ip]
      ensures evicted.Some? ==>
                && evicted.value in old(requests) && old(requests)[evicted.value] != []
                && forall ip | ip in old(requests) && old(requests)[ip] != [] ::
                     old(requests)[evicted.value][0] <= old(requests)[ip][0]
    {
      var oldestIP, oldestTime, first := "", 0, true;
      ghost var full := NonEmpty(requests);
      var rest := requests.Keys;
      while rest != {}
        invariant rest <= old(requests).Keys
        invariant requests == map k | k in old(requests) && (k in rest || k in full) :: old(requests)[k]
        invariant first ==> oldestIP == "" && forall k | k in full :: k in rest
        invariant !first ==>
                    && oldestIP in full && oldestIP !in rest && full[oldestIP][0] == oldestTime
                    && forall k | k in full && k !in rest :: oldestTime <= full[k][0]
      {
        var ipKey :| ipKey in rest;
        rest := rest - {ipKey};
        var ipList := requests[ipKey];
        if |ipList| == 0 {
          requests := requests - {ipKey};
          continue;
        }
        var t := ipList[0];
        if first || t < oldestTime {
          oldestTime := t;
          oldestIP := ipKey;
          first := false;
        }
      }
      assert requests == full;
      if oldestIP != "" {
        requests := requests - {oldestIP};
        return Some(oldestIP);
      }
      return None;
    }

    /** One tick of the cleanup loop. */
    method Cleanup(now: int)
      requires Valid() && clock <= now
      modifies this
      ensures Valid() && clock == now
      ensures log == old(log) + [Sweep(now)]
      ensures Step(Cfg(), old(requests), Sweep(now), requests)
    {
      DropStale(now);
      CleanupKeepsInv(Cfg(), log, old(requests), clock, Sweep(now), requests);
      log, clock := log + [Sweep(now)], now;
    }

    /** Looks only at the oldest time of each list. */
    method DropStale(now: int)
      modifies this`requests
      ensures Step(Cfg(), old(requests), Sweep(now), requests)
      ensures forall ip :: ip in requests <==>
                ip in old(requests) && old(requests)[ip] != [] && old(requests)[ip][0] >= now - 2 * window
      ensures forall ip | ip in requests :: requests[ip] == old(requests)[ip]
    {
      var cutoff := now - 2 * window;
      ghost var before := requests;
      var rest := requests.Keys;
      while rest != {}
        invariant rest <= before.Keys
        invariant requests == map k | k in before && (k in rest || (before[k] != [] && before[k][0] >= cutoff))
                                :: before[k]
      {
        var ip :| ip in rest;
        rest := rest - {ip};
        var l := requests[ip];
        if |l| == 0 {
          requests := requests - {ip};
          continue;
        }
        if l[0] < cutoff {
          requests := requests - {ip};
        }
      }
    }
  }
}
