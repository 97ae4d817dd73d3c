/** What eviction does to the limit: an IP that is evicted starts again, though its requests still lie in the window. */
module RateLimitEviction {
  import opened Options
  import opened RateLimitSteps
  import opened RateLimitRuns

  /** When ip was allowed, whether or not it has been evicted since. */
  function AcceptedEver(log: seq<Event>, ip: IP): seq<int> {
    if log == [] then []
    else
      var e := log[|log| - 1];
      AcceptedEver(log[..|log| - 1], ip) + if e.Request? && e.ip == ip && e.answer.allowed then [e.now] else []
  }

  lemma EverAfter(log: seq<Event>, e: Event, ip: IP)
    ensures AcceptedEver(log + [e], ip)
         == AcceptedEver(log, ip) + if e.Request? && e.ip == ip && e.answer.allowed then [e.now] else []
  {
    assert (log + [e])[..|log + [e]| - 1] == log;
  }

  /**
   In every run with requests from these IPs alone, each is allowed at most `limit` times in every closed
   interval as long as the window.
   */
  ghost predicate LimitHolds(cfg: Config, ips: set<IP>) {
    forall log: seq<Event>, states: seq<Table>, ip, a, b |
        IsRun(cfg, log, states) && From(log, ips) && b == a + cfg.window ::
      |Within(AcceptedEver(log, ip), a, b)| <= cfg.limit
  }

  // ---------------------------------------------------------------------------
  // Few IPs
  // ---------------------------------------------------------------------------

  lemma FewNeverEvict(cfg: Config, t: Table, e: Event, after: Table, ips: set<IP>)
    requires e.Request? && Step(cfg, t, e, after)
    requires t.Keys <= ips && e.ip in ips && (cfg.maxIPs <= 0 || |ips| <= cfg.maxIPs)
    ensures e.evicted == None
  {
    hide Trim, AnswerFor, Panics, NonEmpty, Oldest;
    if e.answer.allowed {
      var middle := t[e.ip := Trim(Stored(t, e.ip), e.now - cfg.window) + [e.now]];
      assert middle.Keys <= ips;
      SubsetFits(middle.Keys, ips);
    }
  }

  /** IPs that fit into the table are never evicted. */
  lemma {:induction false} NothingEvicted(cfg: Config, log: seq<Event>, states: seq<Table>, ips: set<IP>, ip: IP)
    requires IsRun(cfg, log, states) && From(log, ips) && (cfg.maxIPs <= 0 || |ips| <= cfg.maxIPs)
    ensures AcceptedEver(log, ip) == Accepted(log, ip)
  {
    if log != [] {
      hide Step;
      var n := |log| - 1;
      var front, e := log[..n], log[n];
      assert log == front + [e] && e in log && forall f | f in front :: f in log;
      RunPrefix(cfg, log, states, n);
      NothingEvicted(cfg, front, states[..n + 1], ips, ip);
      KeysHaveAsked(cfg, front, states[..n + 1], ips);
      if e.Request? {
        FewNeverEvict(cfg, states[n], e, states[n + 1], ips);
      }
      EverAfter(front, e, ip);
      AcceptedAfter(front, e, ip);
      assert Accepted(front, ip) + [] == Accepted(front, ip);
    }
  }

  // ---------------------------------------------------------------------------
  // Too many IPs: a run in which all requests come at time 0
  // ---------------------------------------------------------------------------

  function Zeros(n: nat): seq<int> {
    seq(n, _ => 0)
  }

  lemma {:induction false} ZerosAreWithin(n: nat, window: int)
    requires window >= 0
    ensures Within(Zeros(n), 0, window) == Zeros(n)
  {
    if n > 0 {
      ZerosAreWithin(n - 1, window);
      assert Zeros(n)[..n - 1] == Zeros(n - 1);
    }
  }

  /** A run with requests from these IPs, all at time 0. */
  ghost predicate Instant(cfg: Config, ips: set<IP>, log: seq<Event>, states: seq<Table>) {
    IsRun(cfg, log, states) && From(log, ips) && forall e | e in log :: e.now == 0
  }

  lemma RunGoesOn(cfg: Config, log: seq<Event>, states: seq<Table>, e: Event, after: Table)
    requires IsRun(cfg, log, states) && Step(cfg, states[|log|], e, after)
    requires forall f | f in log :: f.now <= e.now
    ensures IsRun(cfg, log + [e], states + [after])
  {
    hide Step;
  }

  /** One more request is allowed. */
  lemma Admit(cfg: Config, ips: set<IP>, log0: seq<Event>, states0: seq<Table>,
              ip: IP, k: nat, evicted: Option<IP>, after: Table)
    returns (log: seq<Event>, states: seq<Table>)
    requires Instant(cfg, ips, log0, states0) && ip in ips
    requires Stored(states0[|log0|], ip) == Zeros(k) && k < cfg.limit
    requires EvictStep(cfg, states0[|log0|][ip := Zeros(k + 1)], evicted, after)
    ensures Instant(cfg, ips, log, states) && states[|log|] == after
    ensures forall v :: AcceptedEver(log, v) == AcceptedEver(log0, v) + if v == ip then [0] else []
  {
    var e := Request(ip, 0, AnswerFor(cfg, Zeros(k), 0), evicted);
    log, states := log0 + [e], states0 + [after];
    assert Step(cfg, states0[|log0|], e, after) by {
      hide EvictStep, AnswerFor;
      assert Trim(Zeros(k), 0 - cfg.window) == Zeros(k);
      assert Zeros(k) + [0] == Zeros(k + 1);
      assert AnswerFor(cfg, Zeros(k), 0).allowed by {
        AllowedBelowLimit(cfg, k);
      }
    }
    hide Step, EvictStep, AnswerFor;
    RunGoesOn(cfg, log0, states0, e, after);
    AllowedBelowLimit(cfg, k);
    forall v
      ensures AcceptedEver(log, v) == AcceptedEver(log0, v) + if v == ip then [0] else []
    {
      EverAfter(log0, e, v);
    }
  }

  lemma AllowedBelowLimit(cfg: Config, k: nat)
    requires k < cfg.limit
    ensures AnswerFor(cfg, Zeros(k), 0).allowed
  {}

  /** v asks n times. */
  lemma {:induction false} Fill(cfg: Config, ips: set<IP>, v: IP, n: nat)
    returns (log: seq<Event>, states: seq<Table>)
    requires cfg.window >= 0 && cfg.maxIPs > 0 && v in ips && 1 <= n <= cfg.limit
    ensures Instant(cfg, ips, log, states) && states[|log|] == map[v := Zeros(n)]
    ensures AcceptedEver(log, v) == Zeros(n)
  {
    hide Instant, AcceptedEver;
    log, states := [], [map[]];
    var t := map[];
    if n > 1 {
      log, states := Fill(cfg, ips, v, n - 1);
      t := map[v := Zeros(n - 1)];
    }
    assert Instant(cfg, ips, [], [map[]]) && AcceptedEver([], v) == [] by {
      NoRequests(cfg, ips, v);
    }
    assert t[v := Zeros(n)] == map[v := Zeros(n)];
    log, states := Admit(cfg, ips, log, states, v, n - 1, None, map[v := Zeros(n)]);
    assert Zeros(n - 1) + [0] == Zeros(n);
  }

  lemma NoRequests(cfg: Config, ips: set<IP>, v: IP)
    requires cfg.limit >= 1 && cfg.window >= 0
    ensures Instant(cfg, ips, [], [map[]]) && AcceptedEver([], v) == []
  {}

  /** v has asked n times and the others once each. */
  function Crowd(v: IP, n: nat, others: seq<IP>): Table {
    if others == [] then map[v := Zeros(n)]
    else Crowd(v, n, others[..|others| - 1])[others[|others| - 1] := [0]]
  }

  lemma {:induction false} CrowdHolds(v: IP, n: nat, others: seq<IP>)
    requires Distinct(others) && v !in others && n >= 1
    ensures var t := Crowd(v, n, others);
            && |t| == |others| + 1 && v in t && (forall ip | ip in t && ip != v :: ip in others)
            && forall ip | ip in t :: t[ip] != [] && t[ip][0] == 0
  {
    if others != [] {
      var m := |others| - 1;
      var before := Crowd(v, n, others[..m]);
      assert others == others[..m] + [others[m]];
      CrowdHolds(v, n, others[..m]);
      assert others[m] !in before;
      assert Crowd(v, n, others).Keys == before.Keys + {others[m]};
    }
  }

  /** One IP more than the table holds, all of the same age: any non-empty one can be the one evicted. */
  lemma EvictsVictim(cfg: Config, t: Table, v: IP)
    requires 0 < cfg.maxIPs < |t| && v != "" && v in t
    requires forall ip | ip in t :: t[ip] != [] && t[ip][0] == 0
    ensures EvictStep(cfg, t, Some(v), t - {v})
  {
    assert NonEmpty(t) == t;
  }

  /** v fills its limit, and then the others come, all of them but the last without an eviction. */
  lemma {:induction false} Gather(cfg: Config, ips: set<IP>, v: IP, others: seq<IP>)
    returns (log: seq<Event>, states: seq<Table>)
    requires cfg.window >= 0 && cfg.limit >= 1 && v in ips && (forall ip | ip in others :: ip in ips)
    requires Distinct(others) && v !in others && v != "" && |others| <= cfg.maxIPs && cfg.maxIPs > 0
    ensures Instant(cfg, ips, log, states) && AcceptedEver(log, v) == Zeros(cfg.limit)
    ensures states[|log|] == After(cfg, v, others)
  {
    if others == [] {
      hide Instant, AcceptedEver;
      log, states := Fill(cfg, ips, v, cfg.limit);
    } else {
      hide Instant, AcceptedEver, EvictStep, Crowd, Stored, After, Zeros;
      var m := |others| - 1;
      var front, ip := others[..m], others[m];
      assert ip in others && Distinct(front) && v !in front && forall k | k in front :: k in ips;
      hide Distinct;
      log, states := Gather(cfg, ips, v, front);
      NextComes(cfg, v, others);
      var evicted := if |others| < cfg.maxIPs then None else Some(v);
      ghost var all := AcceptedEver(log, v);
      log, states := Admit(cfg, ips, log, states, ip, 0, evicted, After(cfg, v, others));
      assert all + [] == all;
    }
  }

  /** The table once the others have come. */
  function After(cfg: Config, v: IP, others: seq<IP>): Table
    requires cfg.limit >= 1
  {
    var t := Crowd(v, cfg.limit, others);
    if |others| < cfg.maxIPs then t else t - {v}
  }

  lemma NextComes(cfg: Config, v: IP, others: seq<IP>)
    requires cfg.limit >= 1 && 0 < |others| <= cfg.maxIPs && Distinct(others) && v !in others && v != ""
    ensures var front, ip := others[..|others| - 1], others[|others| - 1];
            var before := After(cfg, v, front);
            && Stored(before, ip) == Zeros(0)
            && EvictStep(cfg, before[ip := Zeros(1)], if |others| < cfg.maxIPs then None else Some(v),
                         After(cfg, v, others))
  {
    hide EvictStep, Crowd;
    var m := |others| - 1;
    var t := Crowd(v, cfg.limit, others);
    assert others == others[..m] + [others[m]];
    CrowdHolds(v, cfg.limit, others[..m]);
    CrowdHolds(v, cfg.limit, others);
    CrowdGrows(v, cfg.limit, others);
    assert Zeros(1) == [0];
    if |others| < cfg.maxIPs {
      NoEvictionBelow(cfg, t, None, t);
    } else {
      EvictsVictim(cfg, t, v);
    }
  }

  lemma CrowdGrows(v: IP, n: nat, others: seq<IP>)
    requires others != []
    ensures var m := |others| - 1;
            Crowd(v, n, others) == Crowd(v, n, others[..m])[others[m] := [0]]
  {}

  lemma VictimReturns(cfg: Config, v: IP, others: seq<IP>)
    requires cfg.limit >= 1 && 0 < |others| == cfg.maxIPs && Distinct(others) && v !in others && v != ""
    ensures var t := After(cfg, v, others);
            Stored(t, v) == Zeros(0) && EvictStep(cfg, t[v := Zeros(1)], Some(v), t)
  {
    hide EvictStep, Crowd;
    var t := Crowd(v, cfg.limit, others);
    CrowdHolds(v, cfg.limit, others);
    var back := (t - {v})[v := Zeros(1)];
    assert back.Keys == t.Keys && |back.Keys| == |t.Keys|;
    assert back - {v} == t - {v};
    EvictsVictim(cfg, back, v);
  }

  /** Pushed out by maxIPs others, v is allowed once more than the limit at one instant. */
  lemma EvictionForgets(cfg: Config, ips: set<IP>, v: IP, others: seq<IP>)
    returns (log: seq<Event>, states: seq<Table>)
    requires cfg.window >= 0 && cfg.limit >= 1 && v in ips && (forall ip | ip in others :: ip in ips)
    requires Distinct(others) && v !in others && v != "" && |others| == cfg.maxIPs > 0
    ensures IsRun(cfg, log, states) && From(log, ips)
    ensures Within(AcceptedEver(log, v), 0, cfg.window) == Zeros(cfg.limit + 1)
  {
    hide AcceptedEver, EvictStep, Crowd, IsRun, From, After, Within;
    log, states := Gather(cfg, ips, v, others);
    VictimReturns(cfg, v, others);
    log, states := Admit(cfg, ips, log, states, v, 0, Some(v), After(cfg, v, others));
    assert Zeros(cfg.limit) + [0] == Zeros(cfg.limit + 1);
    ZerosAreWithin(cfg.limit + 1, cfg.window);
  }

  /** The limit holds for a set of IPs exactly if the table is unbounded or they all fit into it. */
  lemma LimitHoldsExactly(cfg: Config, ips: set<IP>)
    requires cfg.limit >= 1 && cfg.window >= 0
    ensures LimitHolds(cfg, ips) <==> cfg.maxIPs <= 0 || |ips| <= cfg.maxIPs
  {
    hide IsRun, From, Within;
    if cfg.maxIPs <= 0 || |ips| <= cfg.maxIPs {
      forall log: seq<Event>, states: seq<Table>, ip, a, b |
          IsRun(cfg, log, states) && From(log, ips) && b == a + cfg.window
        ensures |Within(AcceptedEver(log, ip), a, b)| <= cfg.limit
      {
        NothingEvicted(cfg, log, states, ips, ip);
        WindowIsNeverExceeded(cfg, log, states, ip, a);
      }
    } else {
      var v := NonEmptyIP(ips);
      var rest := InSomeOrder(ips - {v});
      assert |ips - {v}| == |ips| - 1;
      var others := rest[..cfg.maxIPs];
      assert forall ip | ip in others :: ip in rest;
      var log, states := EvictionForgets(cfg, ips, v, others);
      assert |Within(AcceptedEver(log, v), 0, 0 + cfg.window)| == cfg.limit + 1;
    }
  }

  lemma NonEmptyIP(ips: set<IP>) returns (v: IP)
    requires |ips| >= 2
    ensures v in ips && v != ""
  {
    assert |ips - {""}| >= 1;
    v :| v in ips - {""};
  }
}
