/**
 The metrics recorder. A call of ObserveRequest takes the lock twice, so it is two atomic steps, and the
 steps of concurrent calls interleave freely. Counters are unbounded; durations are exact, in seconds.
 */
module Metrics {
  import opened MetricsKeys
  import opened Sequences

  datatype Call = Call(verb: string, host: string, status: int, duration: real)

  datatype Histogram = Histogram(counts: seq<int>, sum: real, count: int)

  const BOUNDS: seq<real> := [0.005, 0.01, 0.025, 0.05, 0.1, 0.25, 0.5, 1.0, 2.5, 5.0, 10.0]

  // ---------------------------------------------------------------------------
  // Counting calls
  // ---------------------------------------------------------------------------

  /** How many of the calls have this request key. */
  function Requested(calls: seq<Call>, key: string): nat {
    if calls == [] then 0
    else
      var c := calls[|calls| - 1];
      Requested(calls[..|calls| - 1], key) + if ReqKey(c.verb, c.host, c.status) == key then 1 else 0
  }

  /** How many of the calls are for this method and host. */
  function CallsFor(calls: seq<Call>, verb: string, host: string): nat {
    if calls == [] then 0
    else
      var c := calls[|calls| - 1];
      CallsFor(calls[..|calls| - 1], verb, host) + if c.verb == verb && c.host == host then 1 else 0
  }

  /** The durations of the calls with this duration key, in order. */
  function Durations(calls: seq<Call>, key: string): seq<real> {
    if calls == [] then []
    else
      var c := calls[|calls| - 1];
      Durations(calls[..|calls| - 1], key) + if DurKey(c.verb, c.host) == key then [c.duration] else []
  }

  function AtMost(durations: seq<real>, bound: real): nat {
    if durations == [] then 0
    else AtMost(durations[..|durations| - 1], bound) + if durations[|durations| - 1] <= bound then 1 else 0
  }

  function Total(durations: seq<real>): real {
    if durations == [] then 0.0
    else Total(durations[..|durations| - 1]) + durations[|durations| - 1]
  }

  /** The histogram of a list of durations. */
  function HistogramOf(durations: seq<real>): Histogram {
    Histogram(seq(|BOUNDS|, i requires 0 <= i < |BOUNDS| => AtMost(durations, BOUNDS[i])),
              Total(durations), |durations|)
  }

  /** Each counter holds the number of counted calls with its key; a missing one stands for zero. */
  ghost predicate CountersMatch(m: map<string, int>, counted: seq<Call>) {
    forall key :: Requested(counted, key) == if key in m then m[key] else 0
  }

  /** There is a histogram for each key that has been recorded, and it is the one of its durations. */
  ghost predicate HistogramsMatch(m: map<string, Histogram>, recorded: seq<Call>) {
    && (forall key :: Durations(recorded, key) != [] <==> key in m)
    && (forall key | key in m :: m[key] == HistogramOf(Durations(recorded, key)))
  }

  ghost predicate SumsMatch(m: map<string, real>, recorded: seq<Call>) {
    && (forall key :: Durations(recorded, key) != [] <==> key in m)
    && (forall key | key in m :: m[key] == Total(Durations(recorded, key)))
  }

  lemma CountersStep(m: map<string, int>, counted: seq<Call>, call: Call)
    requires CountersMatch(m, counted)
    ensures var key := ReqKey(call.verb, call.host, call.status);
            CountersMatch(m[key := (if key in m then m[key] else 0) + 1], counted + [call])
  {
    assert (counted + [call])[..|counted|] == counted;
  }

  lemma DurationsStep(recorded: seq<Call>, call: Call, key: string)
    ensures Durations(recorded + [call], key)
         == Durations(recorded, key) + if key == DurKey(call.verb, call.host) then [call.duration] else []
  {
    assert (recorded + [call])[..|recorded|] == recorded;
  }

  lemma HistogramsStep(m: map<string, Histogram>, recorded: seq<Call>, call: Call, h: Histogram)
    requires HistogramsMatch(m, recorded)
    requires h == HistogramOf(Durations(recorded, DurKey(call.verb, call.host)) + [call.duration])
    ensures HistogramsMatch(m[DurKey(call.verb, call.host) := h], recorded + [call])
  {
    hide HistogramOf, DurKey, Durations;
    forall key
      ensures Durations(recorded + [call], key)
           == Durations(recorded, key) + if key == DurKey(call.verb, call.host) then [call.duration] else []
    {
      DurationsStep(recorded, call, key);
    }
    assert forall l: seq<real> :: l + [] == l;
  }

  lemma SumsStep(m: map<string, real>, recorded: seq<Call>, call: Call)
    requires SumsMatch(m, recorded)
    ensures var key := DurKey(call.verb, call.host);
            SumsMatch(m[key := (if key in m then m[key] else 0.0) + call.duration], recorded + [call])
  {
    hide DurKey, Durations;
    forall key
      ensures Durations(recorded + [call], key)
           == Durations(recorded, key) + if key == DurKey(call.verb, call.host) then [call.duration] else []
    {
      DurationsStep(recorded, call, key);
    }
    var l := Durations(recorded, DurKey(call.verb, call.host));
    assert (l + [call.duration])[..|l|] == l;
    assert Total(l + [call.duration]) == Total(l) + call.duration;
    assert l == [] ==> Total(l) == 0.0;
    assert forall l: seq<real> :: l + [] == l;
  }

  lemma CallMoves(counted: seq<Call>, recorded: seq<Call>, between: seq<Call>, i: nat)
    requires i < |between| && multiset(counted) == multiset(recorded) + multiset(between)
    ensures multiset(counted) == multiset(recorded + [between[i]]) + multiset(Without(between, i))
    ensures multiset(Without(between, i)) == multiset(between) - multiset{between[i]}
  {
    hide Without;
    WithoutRemovesOne(between, i);
  }

  lemma CallEnters(counted: seq<Call>, recorded: seq<Call>, between: seq<Call>, call: Call)
    requires multiset(counted) == multiset(recorded) + multiset(between)
    ensures multiset(counted + [call]) == multiset(recorded) + multiset(between + [call])
  {}

  /** Under one key, each bucket with a bound of at least d, the count and both sums grow; nothing else changes. */
  predicate AddsDuration(h0: map<string, Histogram>, s0: map<string, real>,
                         h1: map<string, Histogram>, s1: map<string, real>, key: string, d: real)
  {
    && h1.Keys == h0.Keys + {key} && s1.Keys == s0.Keys + {key}
    && (forall k | k in h0 && k != key :: h1[k] == h0[k]) && (forall k | k in s0 && k != key :: s1[k] == s0[k])
    && s1[key] == (if key in s0 then s0[key] else 0.0) + d
    && var before := if key in h0 then h0[key] else Histogram(seq(|BOUNDS|, _ => 0), 0.0, 0);
       && h1[key].count == before.count + 1 && h1[key].sum == before.sum + d
       && |h1[key].counts| == |before.counts| == |BOUNDS|
       && forall i | 0 <= i < |BOUNDS| ::
            h1[key].counts[i] == before.counts[i] + if d <= BOUNDS[i] then 1 else 0
  }

  class Metrics {
    var requestsTotal: map<string, int>
    var requestDurations: map<string, Histogram>
    var requestDurationSum: map<string, real>

    /** The calls that have been through their first critical section, and through their second. */
    ghost var counted: seq<Call>
    ghost var recorded: seq<Call>

    /** The calls between their two critical sections. */
    ghost var between: seq<Call>

    ghost predicate Valid()
      reads this
    {
      && multiset(counted) == multiset(recorded) + multiset(between)
      && CountersMatch(requestsTotal, counted)
      && HistogramsMatch(requestDurations, recorded)
      && SumsMatch(requestDurationSum, recorded)
    }

    constructor ()
      ensures Valid() && counted == [] && recorded == [] && between == []
    {
      requestsTotal := map[];
      requestDurations := map[];
      requestDurationSum := map[];
      counted, recorded, between := [], [], [];
    }

    /** The first critical section. */
    method CountRequest(call: Call)
      requires Valid()
      modifies this
      ensures Valid()
      ensures counted == old(counted) + [call] && between == old(between) + [call] && recorded == old(recorded)
      ensures requestDurations == old(requestDurations) && requestDurationSum == old(requestDurationSum)
      ensures var key := call.verb + "|" + call.host + "|" + Itoa(call.status);
              requestsTotal == old(requestsTotal)[key := 1 + if key in old(requestsTotal) then old(requestsTotal)[key]
                                                             else 0]
    {
      hide CountersMatch, HistogramsMatch, SumsMatch, Itoa;
      var reqKey := ReqKey(call.verb, call.host, call.status);
      assert reqKey == call.verb + "|" + call.host + "|" + Itoa(call.status);
      hide ReqKey;
      CountersStep(requestsTotal, counted, call);
      CallEnters(counted, recorded, between, call);
      requestsTotal := requestsTotal[reqKey := (if reqKey in requestsTotal then requestsTotal[reqKey] else 0) + 1];
      counted, between := counted + [call], between + [call];
    }

    /** The second critical section, of any call that is between the two. */
    method RecordDuration(call: Call)
      requires Valid() && call in between
      modifies this
      ensures Valid()
      ensures recorded == old(recorded) + [call] && counted == old(counted)
      ensures multiset(between) == multiset(old(between)) - multiset{call}
      ensures requestsTotal == old(requestsTotal)
      ensures AddsDuration(old(requestDurations), old(requestDurationSum), requestDurations, requestDurationSum,
                           call.verb + "|" + call.host, call.duration)
    {
      hide CountersMatch, HistogramsMatch, SumsMatch, Without, AddsDuration;
      AddDuration(call);
      ghost var i :| 0 <= i < |between| && between[i] == call;
      CallMoves(counted, recorded, between, i);
      recorded, between := recorded + [call], Without(between, i);
    }

    method AddDuration(call: Call)
      requires HistogramsMatch(requestDurations, recorded) && SumsMatch(requestDurationSum, recorded)
      modifies this`requestDurations, this`requestDurationSum
      ensures HistogramsMatch(requestDurations, recorded + [call])
      ensures SumsMatch(requestDurationSum, recorded + [call])
      ensures AddsDuration(old(requestDurations), old(requestDurationSum), requestDurations, requestDurationSum,
                           call.verb + "|" + call.host, call.duration)
    {
      hide HistogramsMatch, SumsMatch, Durations, HistogramOf;
      var durKey, durSec := DurKey(call.verb, call.host), call.duration;
      SumsStep(requestDurationSum, recorded, call);
      requestDurationSum := requestDurationSum[
        durKey := (if durKey in requestDurationSum then requestDurationSum[durKey] else 0.0) + durSec];
      var hb := FindHistogram(durKey);
      hb := Observe(hb, durSec, Durations(recorded, durKey));
      HistogramsStep(requestDurations, recorded, call, hb);
      requestDurations := requestDurations[durKey := hb];
    }

    /** The histogram of a key, or an empty one. */
    method FindHistogram(durKey: string) returns (hb: Histogram)
      requires HistogramsMatch(requestDurations, recorded)
      ensures hb == HistogramOf(Durations(recorded, durKey))
      ensures hb == if durKey in requestDurations then requestDurations[durKey]
                    else Histogram(seq(|BOUNDS|, _ => 0), 0.0, 0)
    {
      if durKey in requestDurations {
        return requestDurations[durKey];
      }
      return Histogram(seq(|BOUNDS|, _ => 0), 0.0, 0);
    }

    /** Increments every bucket whose bound the duration does not exceed. */
    method Observe(hb: Histogram, durSec: real, ghost durations: seq<real>) returns (r: Histogram)
      requires hb == HistogramOf(durations)
      ensures r == HistogramOf(durations + [durSec])
      ensures |hb.counts| == |r.counts| == |BOUNDS|
      ensures r.count == hb.count + 1 && r.sum == hb.sum + durSec
      ensures forall i | 0 <= i < |BOUNDS| :: r.counts[i] == hb.counts[i] + if durSec <= BOUNDS[i] then 1 else 0
    {
      ghost var after := durations + [durSec];
      assert after[..|after| - 1] == durations;
      var counts := hb.counts;
      for i := 0 to |BOUNDS|
        invariant |counts| == |BOUNDS|
        invariant forall k | 0 <= k < i :: counts[k] == AtMost(after, BOUNDS[k])
        invariant forall k | i <= k < |BOUNDS| :: counts[k] == hb.counts[k]
        invariant forall k | 0 <= k < i :: counts[k] == hb.counts[k] + if durSec <= BOUNDS[k] then 1 else 0
      {
        if durSec <= BOUNDS[i] {
          counts := counts[i := counts[i] + 1];
        }
      }
      return Histogram(counts, hb.sum + durSec, hb.count + 1);
    }

    /** One call by itself. */
    method ObserveRequest(verb: string, host: string, status: int, duration: real)
      requires Valid()
      modifies this
      ensures Valid()
      ensures var call := Call(verb, host, status, duration);
              counted == old(counted) + [call] && recorded == old(recorded) + [call]
      ensures multiset(between) == multiset(old(between))
    {
      var call := Call(verb, host, status, duration);
      CountRequest(call);
      assert call in between;
      RecordDuration(call);
    }

    /** The sum over all statuses of the request counter of one method and host. */
    ghost function RequestsOf(verb: string, host: string): int
      reads this
    {
      SumOver(requestsTotal, KeysOf(requestsTotal, verb, host))
    }

    ghost function HistogramCount(verb: string, host: string): int
      reads this
    {
      var key := DurKey(verb, host);
      if key in requestDurations then requestDurations[key].count else 0
    }

    /**
     In every state that any interleaving reaches: for a method and host free of pipes, the request
     counters exceed the histogram's count by the number of their calls between the two sections,
     whatever other methods and hosts, with pipes or without, have been recorded.
     */
    lemma CountersDifferByCallsInFlight(verb: string, host: string)
      requires Valid() && PipeFree(verb) && PipeFree(host)
      ensures RequestsOf(verb, host) - HistogramCount(verb, host) == CallsFor(between, verb, host)
    {
      var key := DurKey(verb, host);
      SumCountsCalls(requestsTotal, counted, verb, host);
      DurationsCountCalls(recorded, verb, host);
      CallsForMultiset(counted, recorded + between, verb, host);
      CallsForConcat(recorded, between, verb, host);
    }

    /** Each bucket counts the recorded durations up to its bound; buckets never decrease, nor exceed the count. */
    lemma BucketsAreCumulative(key: string, i: nat, j: nat)
      requires Valid() && key in requestDurations && i <= j < |BOUNDS|
      ensures var h := requestDurations[key];
              && |h.counts| == |BOUNDS|
              && h.counts[i] == AtMost(Durations(recorded, key), BOUNDS[i])
              && 0 <= h.counts[i] <= h.counts[j] <= h.count
              && h.sum == requestDurationSum[key]
              && h.counts[i] == |ShortCalls(recorded, key, BOUNDS[i])|
    {
      AtMostCounts(recorded, key, BOUNDS[i]);
      AtMostGrows(Durations(recorded, key), BOUNDS[i], BOUNDS[j]);
    }
  }

  /** The places of the calls under a key whose duration does not exceed the bound. */
  function ShortCalls(calls: seq<Call>, key: string, bound: real): set<nat> {
    set i: nat | i < |calls| && calls[i].verb + "|" + calls[i].host == key && calls[i].duration <= bound
  }

  lemma {:induction false} AtMostCounts(calls: seq<Call>, key: string, bound: real)
    ensures AtMost(Durations(calls, key), bound) == |ShortCalls(calls, key, bound)|
  {
    if calls != [] {
      var n := |calls| - 1;
      var rest, c := calls[..n], calls[n];
      AtMostCounts(rest, key, bound);
      var l := Durations(rest, key);
      assert (l + [c.duration])[..|l|] == l && l + [] == l;
      assert ShortCalls(calls, key, bound)
          == ShortCalls(rest, key, bound) + if c.verb + "|" + c.host == key && c.duration <= bound then {n} else {};
    }
  }

  lemma {:induction false} AtMostGrows(durations: seq<real>, a: real, b: real)
    requires a <= b
    ensures AtMost(durations, a) <= AtMost(durations, b) <= |durations|
  {
    if durations != [] {
      AtMostGrows(durations[..|durations| - 1], a, b);
    }
  }

  // ---------------------------------------------------------------------------
  // Sums over keys
  // ---------------------------------------------------------------------------

  /** The request keys of one method and host, over all statuses. */
  ghost function KeysOf(m: map<string, int>, verb: string, host: string): set<string> {
    set key | key in m && exists status :: key == ReqKey(verb, host, status)
  }

  ghost function SumOver(m: map<string, int>, keys: set<string>): int
    requires keys <= m.Keys
  {
    if keys == {} then 0
    else
      var key :| key in keys;
      m[key] + SumOver(m, keys - {key})
  }

  ghost function SumRequested(calls: seq<Call>, keys: set<string>): int
    decreases keys
  {
    if keys == {} then 0
    else
      var key :| key in keys;
      Requested(calls, key) + SumRequested(calls, keys - {key})
  }

  lemma {:induction false} SumRequestedRemove(calls: seq<Call>, keys: set<string>, key: string)
    requires key in keys
    ensures SumRequested(calls, keys) == Requested(calls, key) + SumRequested(calls, keys - {key})
  {
    var first :| first in keys
      && SumRequested(calls, keys) == Requested(calls, first) + SumRequested(calls, keys - {first});
    if first != key {
      SumRequestedRemove(calls, keys - {first}, key);
      SumRequestedRemove(calls, keys - {key}, first);
      assert keys - {first} - {key} == keys - {key} - {first};
    }
  }

  lemma {:induction false} SumOverIsRequested(m: map<string, int>, calls: seq<Call>, keys: set<string>)
    requires keys <= m.Keys && forall key | key in m :: m[key] == Requested(calls, key)
    ensures SumOver(m, keys) == SumRequested(calls, keys)
  {
    if keys != {} {
      var key :| key in keys && SumOver(m, keys) == m[key] + SumOver(m, keys - {key});
      SumOverIsRequested(m, calls, keys - {key});
      SumRequestedRemove(calls, keys, key);
    }
  }

  /** One more call adds one to a sum of counters that includes its key. */
  lemma {:induction false} SumRequestedStep(calls: seq<Call>, c: Call, keys: set<string>)
    ensures SumRequested(calls + [c], keys)
         == SumRequested(calls, keys) + if ReqKey(c.verb, c.host, c.status) in keys then 1 else 0
  {
    if keys != {} {
      var key :| key in keys
        && SumRequested(calls + [c], keys) == Requested(calls + [c], key) + SumRequested(calls + [c], keys - {key});
      SumRequestedStep(calls, c, keys - {key});
      SumRequestedRemove(calls, keys, key);
      assert (calls + [c])[..|calls|] == calls;
      assert Requested(calls + [c], key)
          == Requested(calls, key) + if ReqKey(c.verb, c.host, c.status) == key then 1 else 0;
    }
  }

  lemma {:induction false} SumRequestedNone(keys: set<string>)
    ensures SumRequested([], keys) == 0
  {
    if keys != {} {
      var key :| key in keys && SumRequested([], keys) == Requested([], key) + SumRequested([], keys - {key});
      SumRequestedNone(keys - {key});
      assert Requested([], key) == 0;
    }
  }

  /** Over keys that are exactly the calls' own, counting by key is counting calls. */
  lemma {:induction false} SumRequestedIsCallsFor(calls: seq<Call>, keys: set<string>, verb: string, host: string)
    requires forall c | c in calls :: ReqKey(c.verb, c.host, c.status) in keys <==> c.verb == verb && c.host == host
    ensures SumRequested(calls, keys) == CallsFor(calls, verb, host)
  {
    if calls == [] {
      SumRequestedNone(keys);
    } else {
      var rest, c := calls[..|calls| - 1], calls[|calls| - 1];
      assert calls == rest + [c] && c in calls;
      SumRequestedIsCallsFor(rest, keys, verb, host);
      SumRequestedStep(rest, c, keys);
    }
  }

  lemma {:induction false} RequestedIfCalled(calls: seq<Call>, c: Call)
    requires c in calls
    ensures Requested(calls, ReqKey(c.verb, c.host, c.status)) > 0
  {
    if c != calls[|calls| - 1] {
      RequestedIfCalled(calls[..|calls| - 1], c);
    }
  }

  lemma SumCountsCalls(m: map<string, int>, counted: seq<Call>, verb: string, host: string)
    requires PipeFree(verb) && PipeFree(host)
    requires forall key :: Requested(counted, key) == if key in m then m[key] else 0
    ensures SumOver(m, KeysOf(m, verb, host)) == CallsFor(counted, verb, host)
  {
    var keys := KeysOf(m, verb, host);
    forall c | c in counted
      ensures ReqKey(c.verb, c.host, c.status) in keys <==> c.verb == verb && c.host == host
    {
      RequestedIfCalled(counted, c);
      if ReqKey(c.verb, c.host, c.status) in keys {
        var status :| ReqKey(c.verb, c.host, c.status) == ReqKey(verb, host, status);
        ReqKeyIsOwn(verb, host, status, c.verb, c.host, c.status);
      }
    }
    SumOverIsRequested(m, counted, keys);
    SumRequestedIsCallsFor(counted, keys, verb, host);
  }

  lemma {:induction false} DurationsCountCalls(calls: seq<Call>, verb: string, host: string)
    requires PipeFree(verb) && PipeFree(host)
    ensures |Durations(calls, DurKey(verb, host))| == CallsFor(calls, verb, host)
  {
    if calls != [] {
      var c := calls[|calls| - 1];
      DurationsCountCalls(calls[..|calls| - 1], verb, host);
      DurKeyIsOwn(verb, host, c.verb, c.host);
    }
  }

  lemma {:induction false} CallsForConcat(a: seq<Call>, b: seq<Call>, verb: string, host: string)
    ensures CallsFor(a + b, verb, host) == CallsFor(a, verb, host) + CallsFor(b, verb, host)
  {
    if b == [] {
      assert a + b == a;
    } else {
      assert (a + b)[..|a + b| - 1] == a + b[..|b| - 1];
      CallsForConcat(a, b[..|b| - 1], verb, host);
    }
  }

  lemma CallsForWithout(calls: seq<Call>, i: nat, verb: string, host: string)
    requires i < |calls|
    ensures CallsFor(calls, verb, host) == CallsFor(Without(calls, i), verb, host) + CallsFor([calls[i]], verb, host)
  {
    hide CallsFor;
    var front, back := calls[..i], calls[i + 1..];
    assert calls == (front + [calls[i]]) + back;
    CallsForConcat(front + [calls[i]], back, verb, host);
    CallsForConcat(front, [calls[i]], verb, host);
    CallsForConcat(front, back, verb, host);
  }

  lemma Cancel(a: multiset<Call>, b: multiset<Call>, c: multiset<Call>)
    requires a + c == b + c
    ensures a == b
  {
    assert a == (a + c) - c && b == (b + c) - c;
  }

  /** The number of calls does not depend on their order. */
  lemma {:induction false} CallsForMultiset(a: seq<Call>, b: seq<Call>, verb: string, host: string)
    requires multiset(a) == multiset(b)
    ensures CallsFor(a, verb, host) == CallsFor(b, verb, host)
  {
    if a == [] {
      assert |b| == |multiset(b)| == 0;
    } else {
      hide CallsFor, Without;
      var rest, c := a[..|a| - 1], a[|a| - 1];
      assert a == rest + [c];
      assert c in multiset(b);
      var i :| 0 <= i < |b| && b[i] == c;
      WithoutRemovesOne(b, i);
      assert multiset(a) == multiset(rest) + multiset{c};
      Cancel(multiset(rest), multiset(Without(b, i)), multiset{c});
      CallsForMultiset(rest, Without(b, i), verb, host);
      CallsForConcat(rest, [c], verb, host);
      CallsForWithout(b, i, verb, host);
    }
  }
}
