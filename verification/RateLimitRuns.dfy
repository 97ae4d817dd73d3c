/** Runs of the rate limiter: any sequence of requests and cleanup ticks under a clock that never goes back. */
module RateLimitRuns {
  import opened Options
  import opened RateLimitSteps

  // ---------------------------------------------------------------------------
  // Lists of times
  // ---------------------------------------------------------------------------

  predicate Ascending(l: seq<int>) {
    forall i, j | 0 <= i < j < |l| :: l[i] <= l[j]
  }

  /** The times of l from `lo` to `hi`, both included. */
  function Within(l: seq<int>, lo: int, hi: int): seq<int> {
    if l == [] then []
    else
      var x := l[|l| - 1];
      Within(l[..|l| - 1], lo, hi) + if lo <= x <= hi then [x] else []
  }

  function Since(l: seq<int>, lo: int): seq<int> {
    if l == [] then []
    else
      var x := l[|l| - 1];
      Since(l[..|l| - 1], lo) + if lo <= x then [x] else []
  }

  function Occurrences(l: seq<int>, x: int): nat {
    multiset(l)[x]
  }

  lemma OccurrencesAppend(l: seq<int>, y: int, x: int)
    ensures Occurrences(l + [y], x) == Occurrences(l, x) + if x == y then 1 else 0
  {}

  /** Both pick every time in their range as often as it occurs, and no other. */
  lemma {:induction false} RangesPickExactly(l: seq<int>, lo: int, hi: int, x: int)
    ensures Occurrences(Within(l, lo, hi), x) == if lo <= x <= hi then Occurrences(l, x) else 0
    ensures Occurrences(Since(l, lo), x) == if lo <= x then Occurrences(l, x) else 0
  {
    hide Occurrences;
    if l == [] {
      NoOccurrences(x);
    } else {
      var rest, y := l[..|l| - 1], l[|l| - 1];
      RangesPickExactly(rest, lo, hi, x);
      assert l == rest + [y];
      OccurrencesAppend(rest, y, x);
      OccurrencesAppend(Within(rest, lo, hi), y, x);
      OccurrencesAppend(Since(rest, lo), y, x);
      assert Within(rest, lo, hi) + [] == Within(rest, lo, hi) && Since(rest, lo) + [] == Since(rest, lo);
    }
  }

  lemma NoOccurrences(x: int)
    ensures Occurrences([], x) == 0
  {}

  lemma {:induction false} SinceKeepsAll(l: seq<int>, lo: int)
    requires forall i | 0 <= i < |l| :: lo <= l[i]
    ensures Since(l, lo) == l
  {
    if l != [] {
      SinceKeepsAll(l[..|l| - 1], lo);
    }
  }

  lemma {:induction false} SinceDropsAll(l: seq<int>, lo: int)
    requires forall i | 0 <= i < |l| :: l[i] < lo
    ensures Since(l, lo) == []
  {
    if l != [] {
      SinceDropsAll(l[..|l| - 1], lo);
    }
  }

  lemma {:induction false} SinceConcat(a: seq<int>, b: seq<int>, lo: int)
    ensures Since(a + b, lo) == Since(a, lo) + Since(b, lo)
  {
    if b == [] {
      assert a + b == a;
    } else {
      assert (a + b)[..|a + b| - 1] == a + b[..|b| - 1];
      SinceConcat(a, b[..|b| - 1], lo);
    }
  }

  /** On an ascending list, trimming the front removes every time before `lo`. */
  lemma {:induction false} TrimIsSince(l: seq<int>, lo: int)
    requires Ascending(l)
    ensures Trim(l, lo) == Since(l, lo)
  {
    if l != [] && l[0] < lo {
      TrimIsSince(l[1..], lo);
      assert l == [l[0]] + l[1..];
      SinceConcat([l[0]], l[1..], lo);
      SinceDropsAll([l[0]], lo);
    } else {
      SinceKeepsAll(l, lo);
    }
  }

  lemma {:induction false} TrimIsSuffix(l: seq<int>, lo: int)
    ensures var r := Trim(l, lo);
            && |r| <= |l| && r == l[|l| - |r|..]
            && (forall i | 0 <= i < |l| - |r| :: l[i] < lo)
            && (r != [] ==> r[0] >= lo)
  {
    if l != [] && l[0] < lo {
      TrimIsSuffix(l[1..], lo);
      var r := Trim(l, lo);
      assert l[|l| - |r|..] == l[1..][|l[1..]| - |r|..];
      assert forall i | 1 <= i < |l| - |r| :: l[i] == l[1..][i - 1];
    }
  }

  /** Any time comes more than a window after the one `limit` places before it. */
  predicate Spaced(cfg: Config, l: seq<int>)
    requires cfg.limit >= 1
  {
    forall i | cfg.limit <= i < |l| :: l[i] - l[i - cfg.limit] > cfg.window
  }

  lemma {:induction false} WithinAtMost(l: seq<int>, lo: int, hi: int, k: nat)
    requires k <= |l| && forall i | 0 <= i < k :: l[i] < lo
    ensures |Within(l, lo, hi)| <= |l| - k
  {
    if l != [] {
      WithinAtMost(l[..|l| - 1], lo, hi, if k == |l| then k - 1 else k);
    }
  }

  /** A spaced list has at most `limit` times in any closed interval as long as the window. */
  lemma {:induction false} SpacedFitsWindow(cfg: Config, l: seq<int>, a: int)
    requires cfg.limit >= 1 && Ascending(l) && Spaced(cfg, l)
    ensures |Within(l, a, a + cfg.window)| <= cfg.limit
  {
    var n := |l|;
    if n > 0 && a <= l[n - 1] <= a + cfg.window {
      var k := if n <= cfg.limit then 0 else n - cfg.limit;
      if k > 0 {
        assert l[n - 1] - l[k - 1] > cfg.window;
      }
      WithinAtMost(l, a, a + cfg.window, k);
    } else if n > 0 {
      SpacedFitsWindow(cfg, l[..n - 1], a);
    }
  }

  // ---------------------------------------------------------------------------
  // Histories
  // ---------------------------------------------------------------------------

  /** When ip was allowed, since it was last evicted. */
  function Accepted(log: seq<Event>, ip: IP): seq<int> {
    if log == [] then []
    else
      var before := Accepted(log[..|log| - 1], ip);
      match log[|log| - 1]
      case Sweep(_) => before
      case Request(from, now, answer, evicted) =>
        if evicted == Some(ip) then []
        else if from == ip && answer.allowed then before + [now]
        else before
  }

  ghost predicate ClockNeverGoesBack(log: seq<Event>) {
    forall i, j | 0 <= i < j < |log| :: log[i].now <= log[j].now
  }

  /** states[i] is the table before event i. */
  ghost predicate IsRun(cfg: Config, log: seq<Event>, states: seq<Table>) {
    && cfg.limit >= 1 && cfg.window >= 0
    && |states| == |log| + 1 && states[0] == map[]
    && ClockNeverGoesBack(log)
    && forall i | 0 <= i < |log| :: Step(cfg, states[i], log[i], states[i + 1])
  }

  lemma RunPrefix(cfg: Config, log: seq<Event>, states: seq<Table>, n: nat)
    requires IsRun(cfg, log, states) && n <= |log|
    ensures IsRun(cfg, log[..n], states[..n + 1])
  {}

  // ---------------------------------------------------------------------------
  // The invariant
  // ---------------------------------------------------------------------------

  /** l is what is left of the accepted times; everything that was dropped is before `bound`. */
  predicate Tracks(accepted: seq<int>, l: seq<int>, bound: int) {
    && |l| <= |accepted| && l == accepted[|accepted| - |l|..]
    && forall i | 0 <= i < |accepted| - |l| :: accepted[i] < bound
  }

  /** The stored list of one IP against its accepted times, at time `clock`. */
  ghost predicate InvFor(cfg: Config, accepted: seq<int>, l: seq<int>, clock: int)
    requires cfg.limit >= 1
  {
    && Ascending(accepted) && Spaced(cfg, accepted)
    && (forall i | 0 <= i < |accepted| :: accepted[i] <= clock)
    && Tracks(accepted, l, clock - cfg.window)
    && |l| <= cfg.limit
    && (l != [] ==> l[|l| - 1] - l[0] <= cfg.window)
  }

  ghost predicate Inv(cfg: Config, log: seq<Event>, t: Table, clock: int) {
    && cfg.limit >= 1 && cfg.window >= 0
    && (forall ip | ip in t :: t[ip] != [])
    && (forall ip :: InvFor(cfg, Accepted(log, ip), Stored(t, ip), clock))
  }

  lemma InvHasLimit(cfg: Config, log: seq<Event>, t: Table, clock: int)
    requires Inv(cfg, log, t, clock)
    ensures cfg.limit >= 1
  {}

  lemma InvForLater(cfg: Config, accepted: seq<int>, l: seq<int>, clock: int, now: int)
    requires cfg.limit >= 1 && InvFor(cfg, accepted, l, clock) && clock <= now
    ensures InvFor(cfg, accepted, l, now)
  {}

  lemma TrimKeepsTrack(accepted: seq<int>, l: seq<int>, lo: int)
    requires Tracks(accepted, l, lo)
    ensures Tracks(accepted, Trim(l, lo), lo)
  {
    TrimIsSuffix(l, lo);
    var recent := Trim(l, lo);
    assert recent == accepted[|accepted| - |recent|..];
    forall i | |accepted| - |l| <= i < |accepted| - |recent|
      ensures accepted[i] < lo
    {
      assert accepted[i] == l[i - (|accepted| - |l|)];
    }
  }

  lemma TrackedSince(accepted: seq<int>, l: seq<int>, lo: int)
    requires Tracks(accepted, l, lo) && Ascending(accepted)
    ensures Trim(l, lo) == Since(accepted, lo)
  {
    var dropped := accepted[..|accepted| - |l|];
    assert accepted == dropped + l;
    SinceConcat(dropped, l, lo);
    SinceDropsAll(dropped, lo);
    TrimIsSince(l, lo);
  }

  /** Trimming to the window leaves the accepted times inside it. */
  lemma TrimmedIsRecent(cfg: Config, accepted: seq<int>, l: seq<int>, now: int)
    requires cfg.limit >= 1 && cfg.window >= 0 && InvFor(cfg, accepted, l, now)
    ensures var recent := Trim(l, now - cfg.window);
            recent == Since(accepted, now - cfg.window) && InvFor(cfg, accepted, recent, now)
  {
    hide Spaced, Tracks, Trim, Since;
    TrackedSince(accepted, l, now - cfg.window);
    TrimKeepsTrack(accepted, l, now - cfg.window);
    TrackedTimes(accepted, l, now - cfg.window, now);
    TrimmedSpan(cfg, l, now);
  }

  lemma TrackedTimes(accepted: seq<int>, l: seq<int>, bound: int, clock: int)
    requires Tracks(accepted, l, bound) && forall i | 0 <= i < |accepted| :: accepted[i] <= clock
    ensures forall i | 0 <= i < |l| :: l[i] <= clock
  {
    assert forall i | 0 <= i < |l| :: l[i] == accepted[|accepted| - |l| + i];
  }

  lemma TrimmedSpan(cfg: Config, l: seq<int>, now: int)
    requires forall i | 0 <= i < |l| :: l[i] <= now
    ensures var r := Trim(l, now - cfg.window);
            |r| <= |l| && (r != [] ==> r[|r| - 1] - r[0] <= cfg.window)
  {
    TrimIsSuffix(l, now - cfg.window);
  }

  lemma PushKeepsSpacing(cfg: Config, accepted: seq<int>, l: seq<int>, now: int)
    requires cfg.limit >= 1 && Spaced(cfg, accepted) && |l| < cfg.limit
    requires Tracks(accepted, l, now - cfg.window)
    ensures Spaced(cfg, accepted + [now])
  {
    var next := accepted + [now];
    forall i | cfg.limit <= i < |next|
      ensures next[i] - next[i - cfg.limit] > cfg.window
    {
      assert next[i - cfg.limit] == accepted[i - cfg.limit];
      if i == |accepted| {
        assert accepted[i - cfg.limit] < now - cfg.window;
      }
    }
  }

  lemma PushKeepsTrack(accepted: seq<int>, l: seq<int>, bound: int, now: int)
    requires Tracks(accepted, l, bound)
    ensures Tracks(accepted + [now], l + [now], bound)
  {
    assert (accepted + [now])[|accepted| - |l|..] == accepted[|accepted| - |l|..] + [now];
  }

  /** Allowing a request keeps the invariant: fewer than `limit` accepted times are inside the window. */
  lemma PushKeepsInv(cfg: Config, accepted: seq<int>, recent: seq<int>, now: int)
    requires cfg.limit >= 1 && cfg.window >= 0 && InvFor(cfg, accepted, recent, now)
    requires |recent| < cfg.limit && (recent != [] ==> recent[0] >= now - cfg.window)
    ensures InvFor(cfg, accepted + [now], recent + [now], now)
  {
    hide Spaced, Tracks;
    PushKeepsSpacing(cfg, accepted, recent, now);
    PushKeepsTrack(accepted, recent, now - cfg.window, now);
    assert recent != [] ==> (recent + [now])[0] == recent[0];
  }

  lemma EvictionFits(t: Table, ip: IP)
    requires ip in t
    ensures |t - {ip}| == |t| - 1
  {
    assert (t - {ip}).Keys == t.Keys - {ip};
  }

  lemma InsertFits(t: Table, ip: IP, l: seq<int>)
    ensures |t[ip := l]| <= |t| + 1
  {
    assert t[ip := l].Keys == t.Keys + {ip};
  }

  /** Dropping a whole list whose oldest time is two windows old drops nothing that still counts. */
  lemma SweepKeepsInv(cfg: Config, accepted: seq<int>, l: seq<int>, now: int)
    requires cfg.limit >= 1 && cfg.window >= 0 && InvFor(cfg, accepted, l, now)
    requires l != [] && l[0] < now - 2 * cfg.window
    ensures InvFor(cfg, accepted, [], now)
  {
    var k := |accepted| - |l|;
    forall i | 0 <= i < |accepted|
      ensures accepted[i] < now - cfg.window
    {
      if i >= k {
        assert accepted[i] == l[i - k];
        assert accepted[i] <= accepted[|accepted| - 1] == l[|l| - 1];
      }
    }
  }

  lemma InvForNothing(cfg: Config, clock: int)
    requires cfg.limit >= 1
    ensures InvFor(cfg, [], [], clock)
  {}

  lemma AcceptedAfter(log: seq<Event>, e: Event, ip: IP)
    ensures Accepted(log + [e], ip)
         == if e.Request? && e.evicted == Some(ip) then []
            else if e.Request? && e.ip == ip && e.answer.allowed then Accepted(log, ip) + [e.now]
            else Accepted(log, ip)
  {
    assert (log + [e])[..|log + [e]| - 1] == log;
  }

  /** With no empty lists, eviction removes at most the evicted IP. */
  lemma EvictionIsExact(cfg: Config, t: Table, evicted: Option<IP>, after: Table)
    requires EvictStep(cfg, t, evicted, after) && t != map[] && forall ip | ip in t :: t[ip] != []
    ensures after == if evicted == None then t else t - {evicted.value}
    ensures evicted.Some? ==> Oldest(t, evicted.value)
    ensures evicted.Some? ==> forall ip | ip in t :: t[evicted.value][0] <= t[ip][0]
    ensures |after| == if evicted == None then |t| else |t| - 1
    ensures cfg.maxIPs > 0 && |t| > cfg.maxIPs && "" !in t ==> evicted.Some?
  {
    assert NonEmpty(t) == t;
    if evicted.Some? {
      EvictionFits(t, evicted.value);
    }
  }

  lemma RequestKeepsInv(cfg: Config, log: seq<Event>, t: Table, clock: int, e: Event, after: Table)
    requires Inv(cfg, log, t, clock) && clock <= e.now
    requires e.Request? && Step(cfg, t, e, after)
    ensures Inv(cfg, log + [e], after, e.now)
    ensures e.answer == AnswerFor(cfg, Since(Accepted(log, e.ip), e.now - cfg.window), e.now)
  {
    hide InvFor, Accepted, EvictStep, Trim, Since;
    var accepted, l := Accepted(log, e.ip), Stored(t, e.ip);
    var recent := Trim(l, e.now - cfg.window);
    assert InvFor(cfg, accepted, l, clock);
    RecentKeepsInv(cfg, accepted, l, clock, e.now);
    RequestShape(cfg, t, e, after);
    forall k
      ensures InvFor(cfg, Accepted(log + [e], k), Stored(after, k), e.now)
    {
      AcceptedAfter(log, e, k);
      assert InvFor(cfg, Accepted(log, k), Stored(t, k), clock);
      InvForLater(cfg, Accepted(log, k), Stored(t, k), clock, e.now);
      InvForNothing(cfg, e.now);
    }
  }

  /** What a request leaves in the table: its IP's list trimmed and perhaps extended, the evicted IP gone. */
  lemma RequestShape(cfg: Config, t: Table, e: Event, after: Table)
    requires cfg.limit >= 1 && e.Request? && Step(cfg, t, e, after)
    requires forall ip | ip in t :: t[ip] != []
    ensures var l := Trim(Stored(t, e.ip), e.now - cfg.window) + if e.answer.allowed then [e.now] else [];
            after == if e.evicted == None then t[e.ip := l] else t[e.ip := l] - {e.evicted.value}
    ensures forall ip | ip in after :: after[ip] != []
    ensures e.evicted.Some? ==> e.answer.allowed
  {
    hide EvictStep, Trim, Stored;
    var recent := Trim(Stored(t, e.ip), e.now - cfg.window);
    if e.answer.allowed {
      var middle := t[e.ip := recent + [e.now]];
      assert e.ip in middle && middle != map[];
      AllowedShape(cfg, middle, e.evicted, after);
    } else {
      assert recent + [] == recent && recent != [];
    }
  }

  lemma AllowedShape(cfg: Config, t: Table, evicted: Option<IP>, after: Table)
    requires EvictStep(cfg, t, evicted, after) && t != map[] && forall ip | ip in t :: t[ip] != []
    ensures after == if evicted == None then t else t - {evicted.value}
    ensures forall ip | ip in after :: after[ip] != []
  {
    hide EvictStep;
    EvictionIsExact(cfg, t, evicted, after);
  }

  lemma RecentKeepsInv(cfg: Config, accepted: seq<int>, l: seq<int>, clock: int, now: int)
    requires cfg.limit >= 1 && cfg.window >= 0 && InvFor(cfg, accepted, l, clock) && clock <= now
    ensures var recent := Trim(l, now - cfg.window);
            && recent == Since(accepted, now - cfg.window)
            && InvFor(cfg, accepted, recent, now)
            && (|recent| < cfg.limit ==> InvFor(cfg, accepted + [now], recent + [now], now))
  {
    hide InvFor;
    InvForLater(cfg, accepted, l, clock, now);
    TrimmedIsRecent(cfg, accepted, l, now);
    var recent := Trim(l, now - cfg.window);
    TrimIsSuffix(l, now - cfg.window);
    if |recent| < cfg.limit {
      PushKeepsInv(cfg, accepted, recent, now);
    }
  }

  lemma CleanupKeepsInv(cfg: Config, log: seq<Event>, t: Table, clock: int, e: Event, after: Table)
    requires Inv(cfg, log, t, clock) && clock <= e.now
    requires e.Sweep? && Step(cfg, t, e, after)
    ensures Inv(cfg, log + [e], after, e.now) && after.Keys <= t.Keys
  {
    hide InvFor, Accepted;
    forall k
      ensures InvFor(cfg, Accepted(log + [e], k), Stored(after, k), e.now)
    {
      AcceptedAfter(log, e, k);
      InvForLater(cfg, Accepted(log, k), Stored(t, k), clock, e.now);
      if k in t && k !in after {
        SweepKeepsInv(cfg, Accepted(log, k), Stored(t, k), e.now);
      }
    }
  }

  // ---------------------------------------------------------------------------
  // Theorems about runs
  // ---------------------------------------------------------------------------

  function Clock(log: seq<Event>): int {
    if log == [] then 0 else log[|log| - 1].now
  }

  /** Every reachable table matches its history. */
  lemma {:induction false} RunKeepsInv(cfg: Config, log: seq<Event>, states: seq<Table>)
    requires IsRun(cfg, log, states)
    ensures Inv(cfg, log, states[|log|], Clock(log))
  {
    if log != [] {
      var n := |log| - 1;
      RunPrefix(cfg, log, states, n);
      RunKeepsInv(cfg, log[..n], states[..n + 1]);
      var e := log[n];
      assert log == log[..n] + [e];
      var clock := if n == 0 then e.now else Clock(log[..n]);
      if n == 0 {
        EmptyInv(cfg, clock);
      }
      if e.Request? {
        RequestKeepsInv(cfg, log[..n], states[n], clock, e, states[n + 1]);
      } else {
        CleanupKeepsInv(cfg, log[..n], states[n], clock, e, states[n + 1]);
      }
    } else {
      EmptyInv(cfg, 0);
    }
  }

  lemma EmptyInv(cfg: Config, clock: int)
    requires cfg.limit >= 1 && cfg.window >= 0
    ensures Inv(cfg, [], map[], clock)
  {}

  lemma ListIsWellFormed(cfg: Config, accepted: seq<int>, l: seq<int>, clock: int)
    requires cfg.limit >= 1 && InvFor(cfg, accepted, l, clock)
    ensures Ascending(l) && |l| <= cfg.limit && (l != [] ==> l[|l| - 1] - l[0] <= cfg.window)
  {
    assert forall i | 0 <= i < |l| :: l[i] == accepted[|accepted| - |l| + i];
  }

  /** Every list kept is non-empty, ascending, at most `limit` long, and spans at most one window. */
  lemma StoredListsAreWellFormed(cfg: Config, log: seq<Event>, states: seq<Table>, ip: IP)
    requires IsRun(cfg, log, states) && ip in states[|log|]
    ensures var l := states[|log|][ip];
            l != [] && Ascending(l) && |l| <= cfg.limit && l[|l| - 1] - l[0] <= cfg.window
  {
    hide Step, Accepted, Inv;
    RunKeepsInv(cfg, log, states);
    var l := Stored(states[|log|], ip);
    NoEmptyLists(cfg, log, states, |log|);
    InvHolds(cfg, log, states[|log|], Clock(log), ip);
    ListIsWellFormed(cfg, Accepted(log, ip), l, Clock(log));
  }

  /** The invariant at a moment just before event i. */
  lemma InvBefore(cfg: Config, log: seq<Event>, states: seq<Table>, i: nat) returns (clock: int)
    requires IsRun(cfg, log, states) && i < |log|
    ensures Inv(cfg, log[..i], states[i], clock) && clock <= log[i].now
  {
    RunPrefix(cfg, log, states, i);
    RunKeepsInv(cfg, log[..i], states[..i + 1]);
    clock := if i == 0 then log[0].now else Clock(log[..i]);
    if i == 0 {
      EmptyInv(cfg, clock);
    }
  }

  /** Each answer is the one that counting the whole accepted history inside the window gives. */
  lemma AnswersAreExact(cfg: Config, log: seq<Event>, states: seq<Table>, i: nat)
    requires IsRun(cfg, log, states) && i < |log| && log[i].Request?
    ensures var e := log[i];
            e.answer == AnswerFor(cfg, Since(Accepted(log[..i], e.ip), e.now - cfg.window), e.now)
  {
    hide Inv;
    var clock := InvBefore(cfg, log, states, i);
    RequestKeepsInv(cfg, log[..i], states[i], clock, log[i], states[i + 1]);
  }

  lemma InvBoundsWindow(cfg: Config, log: seq<Event>, t: Table, clock: int, ip: IP, a: int)
    requires Inv(cfg, log, t, clock)
    ensures |Within(Accepted(log, ip), a, a + cfg.window)| <= cfg.limit
  {
    assert InvFor(cfg, Accepted(log, ip), Stored(t, ip), clock);
    SpacedFitsWindow(cfg, Accepted(log, ip), a);
  }

  /** In every closed interval as long as the window, no IP was allowed more than `limit` times. */
  ghost predicate NeverExceeded(cfg: Config, log: seq<Event>) {
    forall ip, a, b | b == a + cfg.window :: |Within(Accepted(log, ip), a, b)| <= cfg.limit
  }

  lemma InvNeverExceeded(cfg: Config, log: seq<Event>, t: Table, clock: int)
    requires Inv(cfg, log, t, clock)
    ensures NeverExceeded(cfg, log)
  {
    forall ip, a, b | b == a + cfg.window
      ensures |Within(Accepted(log, ip), a, b)| <= cfg.limit
    {
      InvBoundsWindow(cfg, log, t, clock, ip, a);
    }
  }

  /** In every closed interval as long as the window, an IP that is not evicted is allowed at most `limit` times. */
  lemma WindowIsNeverExceeded(cfg: Config, log: seq<Event>, states: seq<Table>, ip: IP, a: int)
    requires IsRun(cfg, log, states)
    ensures |Within(Accepted(log, ip), a, a + cfg.window)| <= cfg.limit
  {
    RunKeepsInv(cfg, log, states);
    InvBoundsWindow(cfg, log, states[|log|], Clock(log), ip, a);
  }

  lemma SubsetFits<T>(a: set<T>, b: set<T>)
    requires a <= b
    ensures |a| <= |b|
  {
    assert b == a + (b - a);
  }

  lemma CapacityStep(cfg: Config, t: Table, e: Event, after: Table)
    requires cfg.limit >= 1 && cfg.maxIPs > 0 && |t| <= cfg.maxIPs && "" !in t
    requires (forall ip | ip in t :: t[ip] != []) && (e.Request? ==> e.ip != "") && Step(cfg, t, e, after)
    ensures |after| <= cfg.maxIPs && "" !in after
  {
    hide EvictStep, Trim;
    if e.Request? {
      var recent := Trim(Stored(t, e.ip), e.now - cfg.window);
      if e.answer.allowed {
        var middle := t[e.ip := recent + [e.now]];
        InsertFits(t, e.ip, recent + [e.now]);
        assert e.ip in middle && middle != map[];
        EvictionIsExact(cfg, middle, e.evicted, after);
      } else {
        assert recent != [] && e.ip in t by {
          TrimIsSuffix(Stored(t, e.ip), e.now - cfg.window);
        }
        assert after.Keys == t.Keys && |after.Keys| == |after|;
      }
    } else {
      assert after.Keys <= t.Keys;
      SubsetFits(after.Keys, t.Keys);
    }
  }

  /** With non-empty IP strings, no reachable table holds more than maxIPs entries. */
  lemma {:induction false} CapacityHolds(cfg: Config, log: seq<Event>, states: seq<Table>)
    requires IsRun(cfg, log, states) && cfg.maxIPs > 0
    requires forall e | e in log && e.Request? :: e.ip != ""
    ensures |states[|log|]| <= cfg.maxIPs && "" !in states[|log|]
  {
    hide Step;
    if log != [] {
      var n := |log| - 1;
      assert log[n] in log;
      RunPrefix(cfg, log, states, n);
      CapacityHolds(cfg, log[..n], states[..n + 1]);
      NoEmptyLists(cfg, log, states, n);
      CapacityStep(cfg, states[n], log[n], states[n + 1]);
    }
  }

  /** Every request of the log comes from one of these IPs. */
  predicate From(log: seq<Event>, ips: set<IP>) {
    forall e | e in log && e.Request? :: e.ip in ips
  }

  /** A table never holds an IP that has not asked. */
  lemma {:induction false} KeysHaveAsked(cfg: Config, log: seq<Event>, states: seq<Table>, ips: set<IP>)
    requires IsRun(cfg, log, states) && From(log, ips)
    ensures states[|log|].Keys <= ips
  {
    if log != [] {
      var n := |log| - 1;
      assert log[n] in log;
      RunPrefix(cfg, log, states, n);
      assert From(log[..n], ips) by {
        assert forall e | e in log[..n] :: e in log;
      }
      KeysHaveAsked(cfg, log[..n], states[..n + 1], ips);
      if log[n].Request? {
        NoEmptyLists(cfg, log, states, n);
        RequestShape(cfg, states[n], log[n], states[n + 1]);
      } else {
        SweepShrinks(cfg, states[n], log[n], states[n + 1]);
      }
    }
  }

  // A run in which each IP asks once, at the time that is its position.

  function OnceTable(ips: seq<IP>): Table {
    if ips == [] then map[]
    else OnceTable(ips[..|ips| - 1])[ips[|ips| - 1] := [|ips| - 1]]
  }

  function OnceRequest(cfg: Config, ip: IP, now: nat): Event
    requires cfg.limit >= 1
  {
    Request(ip, now, AnswerFor(cfg, [], now), None)
  }

  function OnceLog(cfg: Config, ips: seq<IP>): seq<Event>
    requires cfg.limit >= 1
  {
    seq(|ips|, i requires 0 <= i < |ips| => OnceRequest(cfg, ips[i], i))
  }

  function OnceStates(ips: seq<IP>): seq<Table> {
    seq(|ips| + 1, i requires 0 <= i <= |ips| => OnceTable(ips[..i]))
  }

  predicate Distinct(ips: seq<IP>) {
    forall i, j | 0 <= i < j < |ips| :: ips[i] != ips[j]
  }

  lemma {:induction false} OnceTableHolds(ips: seq<IP>)
    requires Distinct(ips)
    ensures forall ip :: ip in OnceTable(ips) <==> ip in ips
    ensures forall i | 0 <= i < |ips| :: ips[i] in OnceTable(ips) && OnceTable(ips)[ips[i]] == [i]
    ensures |OnceTable(ips)| == |ips|
  {
    if ips != [] {
      var n := |ips| - 1;
      var before := OnceTable(ips[..n]);
      OnceTableHolds(ips[..n]);
      assert ips == ips[..n] + [ips[n]];
      assert ips[n] !in before;
      assert OnceTable(ips).Keys == before.Keys + {ips[n]};
      forall i | 0 <= i < |ips|
        ensures ips[i] in OnceTable(ips) && OnceTable(ips)[ips[i]] == [i]
      {
        if i < n {
          assert ips[..n][i] == ips[i];
        }
      }
    }
  }

  /** While the empty string is oldest, a new IP is let in and nothing is evicted. */
  lemma NewIPEnters(cfg: Config, t: Table, ip: IP, now: nat)
    requires cfg.limit >= 1 && ip !in t
    requires forall k | k in t :: t[k] != []
    requires Oldest(t[ip := [now]], "")
    ensures Step(cfg, t, OnceRequest(cfg, ip, now), t[ip := [now]])
  {
    hide Oldest;
    var after := t[ip := [now]];
    assert Stored(t, ip) == [] && [] + [now] == [now];
    assert NonEmpty(after) == after;
    assert EvictStep(cfg, after, None, after);
  }

  lemma OnceStep(cfg: Config, ips: seq<IP>, i: nat)
    requires cfg.limit >= 1 && Distinct(ips) && i < |ips| && ips[0] == ""
    ensures Step(cfg, OnceTable(ips[..i]), OnceRequest(cfg, ips[i], i), OnceTable(ips[..i + 1]))
  {
    hide Step, OnceTable;
    var t, after := OnceTable(ips[..i]), OnceTable(ips[..i + 1]);
    OnceTableHolds(ips[..i]);
    OnceTableHolds(ips[..i + 1]);
    OnceTableGrows(ips, i);
    assert ips[..i + 1][0] == "" && after[""] == [0];
    forall k | k in after
      ensures after[k] != [] && 0 <= after[k][0]
    {
      var j :| 0 <= j < |ips[..i + 1]| && ips[..i + 1][j] == k;
    }
    forall k | k in t
      ensures t[k] != []
    {
      var j :| 0 <= j < |ips[..i]| && ips[..i][j] == k;
    }
    NewIPEnters(cfg, t, ips[i], i);
  }

  lemma OnceTableGrows(ips: seq<IP>, i: nat)
    requires i < |ips|
    ensures OnceTable(ips[..i + 1]) == OnceTable(ips[..i])[ips[i] := [i]]
  {
    assert ips[..i + 1][..i] == ips[..i];
  }

  /** Any IPs, the empty string first, can fill the table however many they are and whatever maxIPs is. */
  lemma EmptyIPDefeatsCapacity(cfg: Config, ips: seq<IP>)
    requires cfg.limit >= 1 && cfg.window >= 0 && Distinct(ips) && ips != [] && ips[0] == ""
    ensures IsRun(cfg, OnceLog(cfg, ips), OnceStates(ips)) && From(OnceLog(cfg, ips), set ip | ip in ips)
    ensures |OnceStates(ips)[|ips|]| == |ips|
  {
    var log, states := OnceLog(cfg, ips), OnceStates(ips);
    forall i | 0 <= i < |log|
      ensures Step(cfg, states[i], log[i], states[i + 1])
    {
      OnceStep(cfg, ips, i);
    }
    assert ips[..|ips|] == ips;
    OnceTableHolds(ips);
  }

  lemma {:induction false} InSomeOrder(ips: set<IP>) returns (order: seq<IP>)
    ensures Distinct(order) && |order| == |ips| && forall ip :: ip in order <==> ip in ips
  {
    order := [];
    if ips != {} {
      var ip :| ip in ips;
      var rest := InSomeOrder(ips - {ip});
      order := rest + [ip];
    }
  }

  /** In every run with requests from these IPs alone, the table stays within maxIPs. */
  ghost predicate StaysWithin(cfg: Config, ips: set<IP>) {
    forall log: seq<Event>, states: seq<Table> | IsRun(cfg, log, states) && From(log, ips) ::
      |states[|log|]| <= cfg.maxIPs
  }

  /** The capacity holds exactly for sets of IPs without the empty string, or no larger than maxIPs. */
  lemma CapacityExactly(cfg: Config, ips: set<IP>)
    requires cfg.limit >= 1 && cfg.window >= 0 && cfg.maxIPs > 0
    ensures StaysWithin(cfg, ips) <==> "" !in ips || |ips| <= cfg.maxIPs
  {
    if "" !in ips || |ips| <= cfg.maxIPs {
      forall log: seq<Event>, states: seq<Table> | IsRun(cfg, log, states) && From(log, ips)
        ensures |states[|log|]| <= cfg.maxIPs
      {
        if "" !in ips {
          CapacityHolds(cfg, log, states);
        } else {
          KeysHaveAsked(cfg, log, states, ips);
          SubsetFits(states[|log|].Keys, ips);
        }
      }
    } else {
      var rest := InSomeOrder(ips - {""});
      var order := [""] + rest;
      EmptyIPDefeatsCapacity(cfg, order);
      assert (set ip | ip in order) == ips;
      var log, states := OnceLog(cfg, order), OnceStates(order);
      assert IsRun(cfg, log, states) && From(log, ips) && |log| == |order|;
    }
  }

  // ---------------------------------------------------------------------------
  // Cleanup
  // ---------------------------------------------------------------------------

  function Requests(log: seq<Event>): seq<Event> {
    if log == [] then []
    else Requests(log[..|log| - 1]) + if log[|log| - 1].Request? then [log[|log| - 1]] else []
  }

  /** Who asked and when, without the answers. */
  function Calls(log: seq<Event>): seq<(IP, int)> {
    if log == [] then []
    else
      var e := log[|log| - 1];
      Calls(log[..|log| - 1]) + if e.Request? then [(e.ip, e.now)] else []
  }

  lemma {:induction false} AcceptedOfRequests(log: seq<Event>, ip: IP)
    ensures Accepted(log, ip) == Accepted(Requests(log), ip)
  {
    if log != [] {
      var rest, e := log[..|log| - 1], log[|log| - 1];
      AcceptedOfRequests(rest, ip);
      assert log == rest + [e];
      AcceptedAfter(rest, e, ip);
      if e.Request? {
        AcceptedAfter(Requests(rest), e, ip);
      } else {
        assert Requests(log) == Requests(rest);
      }
    }
  }

  /** Nothing is evicted, because the tables never outgrow maxIPs. */
  ghost predicate Uncrowded(cfg: Config, log: seq<Event>, states: seq<Table>) {
    && (forall e | e in log && e.Request? :: e.evicted == None)
    && (cfg.maxIPs > 0 ==> forall t | t in states :: |t| <= cfg.maxIPs)
  }

  lemma SameCall(log1: seq<Event>, log2: seq<Event>)
    requires log1 != [] && log2 != [] && Calls(log1) == Calls(log2)
    requires log1[|log1| - 1].Request? && log2[|log2| - 1].Request?
    ensures var e, f := log1[|log1| - 1], log2[|log2| - 1];
            e.ip == f.ip && e.now == f.now
    ensures Calls(log1[..|log1| - 1]) == Calls(log2[..|log2| - 1])
  {
    var a, b := Calls(log1[..|log1| - 1]), Calls(log2[..|log2| - 1]);
    var e, f := log1[|log1| - 1], log2[|log2| - 1];
    assert a + [(e.ip, e.now)] == b + [(f.ip, f.now)];
    assert a == (a + [(e.ip, e.now)])[..|a|] && b == (b + [(f.ip, f.now)])[..|b|];
    assert (a + [(e.ip, e.now)])[|a|] == (b + [(f.ip, f.now)])[|b|];
  }

  lemma NoEvictionBelow(cfg: Config, t: Table, evicted: Option<IP>, after: Table)
    requires cfg.maxIPs > 0 ==> |t| <= cfg.maxIPs
    ensures EvictStep(cfg, t, evicted, after) <==> evicted == None && after == t
  {}

  lemma SmallerTableNeverEvicts(cfg: Config, t1: Table, e: Event, after1: Table, t2: Table, f: Event, after2: Table)
    requires cfg.limit >= 1 && e.Request? && f.Request?
    requires e.ip == f.ip && e.now == f.now && e.answer == f.answer && f.evicted == None
    requires Step(cfg, t1, e, after1) && Step(cfg, t2, f, after2) && t1.Keys <= t2.Keys
    requires forall k | k in t2 :: t2[k] != []
    requires cfg.maxIPs > 0 ==> |after2| <= cfg.maxIPs
    ensures e.evicted == None && after1.Keys <= after2.Keys
  {
    hide EvictStep, Trim, AnswerFor;
    if e.answer.allowed {
      var lo := e.now - cfg.window;
      var m1 := t1[e.ip := Trim(Stored(t1, e.ip), lo) + [e.now]];
      var m2 := t2[e.ip := Trim(Stored(t2, e.ip), lo) + [e.now]];
      assert e.ip in m2 && m2 != map[];
      EvictionIsExact(cfg, m2, None, after2);
      assert m1.Keys <= m2.Keys;
      SubsetFits(m1.Keys, m2.Keys);
      NoEvictionBelow(cfg, m1, e.evicted, after1);
    }
  }

  lemma CleanupStep(cfg: Config, log1: seq<Event>, states1: seq<Table>, log2: seq<Event>, states2: seq<Table>)
    requires IsRun(cfg, log1, states1) && IsRun(cfg, log2, states2) && Uncrowded(cfg, log2, states2)
    requires log1 != [] && log2 != []
    requires var n, m := |log1| - 1, |log2| - 1;
             && log1[n].Request? && log2[m].Request?
             && log1[n].ip == log2[m].ip && log1[n].now == log2[m].now
             && Requests(log1[..n]) == Requests(log2[..m]) && states1[n].Keys <= states2[m].Keys
    ensures log1[|log1| - 1] == log2[|log2| - 1]
    ensures states1[|log1|].Keys <= states2[|log2|].Keys
  {
    hide Step, Inv, AnswerFor, Requests, Accepted, Since, ClockNeverGoesBack;
    var n, m := |log1| - 1, |log2| - 1;
    var e, f := log1[n], log2[m];
    AcceptedOfRequests(log1[..n], e.ip);
    AcceptedOfRequests(log2[..m], e.ip);
    AnswersAreExact(cfg, log1, states1, n);
    AnswersAreExact(cfg, log2, states2, m);
    assert f in log2 && states2[m + 1] in states2;
    NoEmptyLists(cfg, log2, states2, m);
    SmallerTableNeverEvicts(cfg, states1[n], e, states1[n + 1], states2[m], f, states2[m + 1]);
  }

  lemma NoEmptyLists(cfg: Config, log: seq<Event>, states: seq<Table>, i: nat)
    requires IsRun(cfg, log, states) && i <= |log|
    ensures forall k | k in states[i] :: states[i][k] != []
  {
    RunPrefix(cfg, log, states, i);
    RunKeepsInv(cfg, log[..i], states[..i + 1]);
  }

  lemma SweepShrinks(cfg: Config, t: Table, e: Event, after: Table)
    requires cfg.limit >= 1 && e.Sweep? && Step(cfg, t, e, after)
    ensures after.Keys <= t.Keys
  {}

  /**
   Cleanup cannot be observed: given the same requests, a limiter with cleanup ticks answers exactly
   like one without, as long as the latter never has to evict.
   */
  lemma {:induction false} CleanupIsInvisible(cfg: Config, log1: seq<Event>, states1: seq<Table>,
                                              log2: seq<Event>, states2: seq<Table>)
    requires IsRun(cfg, log1, states1) && IsRun(cfg, log2, states2)
    requires (forall e | e in log2 :: e.Request?) && Uncrowded(cfg, log2, states2)
    requires Calls(log1) == Calls(log2)
    ensures Requests(log1) == Requests(log2)
    ensures states1[|log1|].Keys <= states2[|log2|].Keys
    decreases |log1|
  {
    hide Step, ClockNeverGoesBack;
    if log2 != [] {
      assert log2[|log2| - 1] in log2;
    }
    if log1 != [] {
      var n := |log1| - 1;
      var e := log1[n];
      RunPrefix(cfg, log1, states1, n);
      if e.Sweep? {
        SweepShrinks(cfg, states1[n], e, states1[n + 1]);
        CleanupIsInvisible(cfg, log1[..n], states1[..n + 1], log2, states2);
      } else {
        assert log2 != [];
        var m := |log2| - 1;
        var f := log2[m];
        assert f in log2;
        RunPrefix(cfg, log2, states2, m);
        SameCall(log1, log2);
        CleanupIsInvisible(cfg, log1[..n], states1[..n + 1], log2[..m], states2[..m + 1]);
        CleanupStep(cfg, log1, states1, log2, states2);
      }
    }
  }

  // ---------------------------------------------------------------------------
  // Retry-after
  // ---------------------------------------------------------------------------

  lemma {:induction false} SinceBounds(l: seq<int>, lo: int)
    ensures forall i | 0 <= i < |Since(l, lo)| :: Since(l, lo)[i] >= lo && Since(l, lo)[i] in l
  {
    if l != [] {
      SinceBounds(l[..|l| - 1], lo);
    }
  }

  lemma {:induction false} SinceTwice(l: seq<int>, lo: int, hi: int)
    requires lo <= hi
    ensures Since(Since(l, lo), hi) == Since(l, hi)
  {
    if l != [] {
      var rest, x := l[..|l| - 1], l[|l| - 1];
      SinceTwice(rest, lo, hi);
      SinceConcat(Since(rest, lo), if lo <= x then [x] else [], hi);
    }
  }

  lemma {:induction false} SinceAscends(l: seq<int>, lo: int)
    requires Ascending(l)
    ensures Ascending(Since(l, lo))
  {
    if l != [] {
      var rest := l[..|l| - 1];
      SinceAscends(rest, lo);
      SinceBounds(rest, lo);
    }
  }

  /** What a denial says about later moments, while nothing more is accepted. */
  lemma DenialLasts(cfg: Config, accepted: seq<int>, now: int, later: int)
    requires cfg.limit >= 1 && cfg.window >= 0 && Ascending(accepted) && now <= later
    requires forall i | 0 <= i < |accepted| :: accepted[i] <= now
    requires |Since(accepted, now - cfg.window)| == cfg.limit
    ensures var answer := AnswerFor(cfg, Since(accepted, now - cfg.window), now);
            && !answer.allowed && 0 <= answer.retryAfter <= cfg.window
            && AnswerFor(cfg, Since(accepted, later - cfg.window), later).allowed
                 == (later > now + answer.retryAfter)
  {
    hide Since;
    var recent := Since(accepted, now - cfg.window);
    SinceBounds(accepted, now - cfg.window);
    SinceAscends(accepted, now - cfg.window);
    assert recent[0] in accepted;
    SinceTwice(accepted, now - cfg.window, later - cfg.window);
    SinceOfFull(recent, later - cfg.window);
  }

  /** Of an ascending list, all times remain until the first is too old. */
  lemma SinceOfFull(l: seq<int>, lo: int)
    requires l != [] && Ascending(l)
    ensures |Since(l, lo)| == |l| <==> l[0] >= lo
    ensures |Since(l, lo)| <= |l|
  {
    if l[0] >= lo {
      SinceKeepsAll(l, lo);
    } else {
      assert l == [l[0]] + l[1..];
      SinceConcat([l[0]], l[1..], lo);
      SinceDropsAll([l[0]], lo);
      SinceShrinks(l[1..], lo);
    }
  }

  lemma {:induction false} SinceShrinks(l: seq<int>, lo: int)
    ensures |Since(l, lo)| <= |l|
  {
    if l != [] {
      SinceShrinks(l[..|l| - 1], lo);
    }
  }

  /** From i up to j, ip is not evicted and none of its requests is allowed. */
  ghost predicate Quiet(log: seq<Event>, ip: IP, i: nat, j: nat) {
    forall k | i <= k < j && k < |log| && log[k].Request? ::
      log[k].evicted != Some(ip) && (log[k].ip == ip ==> !log[k].answer.allowed)
  }

  lemma {:induction false} QuietKeepsAccepted(log: seq<Event>, ip: IP, i: nat, j: nat)
    requires i <= j <= |log| && Quiet(log, ip, i, j)
    ensures Accepted(log[..j], ip) == Accepted(log[..i], ip)
    decreases j
  {
    if i < j {
      QuietKeepsAccepted(log, ip, i, j - 1);
      assert log[..j] == log[..j - 1] + [log[j - 1]];
      AcceptedAfter(log[..j - 1], log[j - 1], ip);
    }
  }

  /**
   retryAfter is exact. After a denial, barring eviction, every request of that IP up to and including
   now + retryAfter is denied, and the first one after that moment is allowed.
   */
  lemma {:induction false} RetryAfterIsExact(cfg: Config, log: seq<Event>, states: seq<Table>, i: nat, j: nat)
    requires IsRun(cfg, log, states) && i < j < |log|
    requires log[i].Request? && !log[i].answer.allowed
    requires log[j].Request? && log[j].ip == log[i].ip
    requires forall k | i <= k < j && log[k].Request? :: log[k].evicted != Some(log[i].ip)
    ensures 0 <= log[i].answer.retryAfter <= cfg.window
    ensures var end := log[i].now + log[i].answer.retryAfter;
            && (log[j].now <= end ==> !log[j].answer.allowed)
            && (log[j].now > end
                && (forall k | i < k < j && log[k].Request? && log[k].ip == log[i].ip :: log[k].now <= end)
                ==> log[j].answer.allowed)
    decreases j
  {
    hide Step, Since, Accepted, AnswerFor;
    var e, ip, end := log[i], log[i].ip, log[i].now + log[i].answer.retryAfter;
    var accepted := Accepted(log[..i], ip);
    if forall k | i < k < j && log[k].Request? && log[k].ip == ip :: log[k].now <= end {
      forall k | i < k < j && log[k].Request? && log[k].ip == ip
        ensures !log[k].answer.allowed
      {
        RetryAfterIsExact(cfg, log, states, i, k);
      }
      assert Quiet(log, ip, i, j);
      QuietKeepsAccepted(log, ip, i, j);
      AnswersAreExact(cfg, log, states, i);
      AnswersAreExact(cfg, log, states, j);
      HistoryAtDenial(cfg, log, states, i);
      DenialLasts(cfg, accepted, e.now, log[j].now);
    } else {
      HistoryAtDenial(cfg, log, states, i);
      AnswersAreExact(cfg, log, states, i);
      DenialLasts(cfg, accepted, e.now, e.now);
    }
  }

  lemma HistoryAtDenial(cfg: Config, log: seq<Event>, states: seq<Table>, i: nat)
    requires IsRun(cfg, log, states) && i < |log| && log[i].Request? && !log[i].answer.allowed
    ensures var accepted := Accepted(log[..i], log[i].ip);
            && Ascending(accepted) && (forall k | 0 <= k < |accepted| :: accepted[k] <= log[i].now)
            && |Since(accepted, log[i].now - cfg.window)| == cfg.limit
  {
    hide Inv, Step, InvFor, Since, Accepted, Trim;
    var e := log[i];
    var clock := InvBefore(cfg, log, states, i);
    AnswersAreExact(cfg, log, states, i);
    var accepted, l := Accepted(log[..i], e.ip), Stored(states[i], e.ip);
    assert InvFor(cfg, accepted, l, clock) by {
      InvHolds(cfg, log[..i], states[i], clock, e.ip);
    }
    RecentKeepsInv(cfg, accepted, l, clock, e.now);
    FullWhenDenied(cfg, accepted, Trim(l, e.now - cfg.window), e.now);
  }

  lemma InvHolds(cfg: Config, log: seq<Event>, t: Table, clock: int, ip: IP)
    requires Inv(cfg, log, t, clock)
    ensures InvFor(cfg, Accepted(log, ip), Stored(t, ip), clock)
  {}

  lemma FullWhenDenied(cfg: Config, accepted: seq<int>, recent: seq<int>, now: int)
    requires cfg.limit >= 1 && InvFor(cfg, accepted, recent, now) && !AnswerFor(cfg, recent, now).allowed
    ensures Ascending(accepted) && (forall k | 0 <= k < |accepted| :: accepted[k] <= now)
    ensures |recent| == cfg.limit
  {}
}
