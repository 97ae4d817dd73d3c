/** The evaluation engine: one flag, or all flags, of a ruleset for one user. */
module Engine {
  import opened Options
  import opened Domain
  import opened Murmur
  import opened Rules
  import opened Variants
  import opened MutexGroups
  import P = Prerequisites

  // ---------------------------------------------------------------------------
  // Specification
  // ---------------------------------------------------------------------------

  predicate Expired(flag: Flag, now: int) {
    flag.expiresAt.Some? && flag.expiresAt.value != 0 && flag.expiresAt.value < now
  }

  predicate Enabled(rs: Ruleset, key: Key) {
    key in rs.states && rs.states[key].enabled
  }

  function FlagDefault(rt: Runtime, rs: Ruleset, key: Key): Value
    requires key in rs.flags
  {
    ParseJSONValue(rt, rs.flags[key].defaultValue)
  }

  /** The state's default value, or the flag's where the state has none. */
  function StateDefault(rt: Runtime, rs: Ruleset, key: Key): Value
    requires key in rs.flags && key in rs.states
  {
    ParseJSONValue(rt, if rs.states[key].defaultValue == None then rs.flags[key].defaultValue
                       else rs.states[key].defaultValue)
  }

  /** What a flag serves by its own rules, rollout and variants, once past its gate. */
  function Serve(rt: Runtime, rs: Ruleset, ctx: EvalContext, key: Key): EvalResult
    requires key in rs.flags && key in rs.states
  {
    var state := rs.states[key];
    var bucket := Bucket(key, ctx.key);
    match Pick(rt, rs.segments, ctx, state.rules, bucket)
    case Some(rule) =>
      Result(key, ParseJSONValue(rt, rule.value),
             if rule.percentage >= 10000 then ReasonTargeted else ReasonRollout)
    case None => ServeDefault(rt, rs, key, bucket)
  }

  function ServeDefault(rt: Runtime, rs: Ruleset, key: Key, bucket: nat): EvalResult
    requires key in rs.flags && key in rs.states
  {
    var state := rs.states[key];
    if state.percentageRollout > 0 then
      if bucket < state.percentageRollout then Result(key, StateDefault(rt, rs, key), ReasonRollout)
      else Result(key, FlagDefault(rt, rs, key), ReasonFallthrough)
    else if rs.flags[key].flagType.FlagTypeAB? && state.variants != [] then
      VariantResult(rt, key, state.variants[Assigned(state.variants, bucket)])
    else Result(key, StateDefault(rt, rs, key), ReasonFallthrough)
  }

  /** A flag as its dependents' gates see it. */
  ghost function NodeOf(rt: Runtime, rs: Ruleset, ctx: EvalContext, key: Key): P.Node
    requires key in rs.flags
  {
    var flag := rs.flags[key];
    var off := FlagDefault(rt, rs, key);
    if Expired(flag, rt.now) || !Enabled(rs, key) then P.Settled(Result(key, off, ReasonDisabled))
    else if flag.mutualExclusionGroup != [] && !Wins(rs, flag.mutualExclusionGroup, ctx.key, key) then
      P.Settled(Result(key, off, ReasonMutuallyExcluded))
    else P.Gated(flag.prerequisites, Result(key, off, ReasonPrerequisiteFailed), Serve(rt, rs, ctx, key))
  }

  ghost function View(rt: Runtime, rs: Ruleset, ctx: EvalContext): (g: P.Graph)
    ensures g.Keys == rs.flags.Keys
  {
    map key | key in rs.flags :: NodeOf(rt, rs, ctx, key)
  }

  /** The result of a top-level evaluation. */
  ghost function Evaluated(rt: Runtime, rs: Ruleset, ctx: EvalContext, key: Key): EvalResult {
    P.Evaluate(View(rt, rs, ctx), key, {}).result
  }

  // ---------------------------------------------------------------------------
  // The evaluator
  // ---------------------------------------------------------------------------

  /** The map of visited flags, shared by the recursive calls of one evaluation. */
  class VisitedSet {
    var keys: set<Key>

    constructor ()
      ensures keys == {}
    {
      keys := {};
    }
  }

  /** sort.Slice: rearranges the rules in place. */
  method SortSlice(rt: Runtime, rules: array<TargetingRule>)
    requires SortsByPriority(rt.sortRules)
    modifies rules
    ensures rules[..] == rt.sortRules(old(rules[..]))
  {
    var sorted := rt.sortRules(rules[..]);
    assert |sorted| == |multiset(sorted)| == |multiset(rules[..])| == rules.Length;
    for i := 0 to rules.Length
      invariant rules[..i] == sorted[..i]
    {
      rules[i] := sorted[i];
    }
  }

  method ServeFlag(rt: Runtime, rs: Ruleset, ctx: EvalContext, flagKey: Key) returns (r: EvalResult)
    requires SortsByPriority(rt.sortRules)
    requires flagKey in rs.flags && flagKey in rs.states
    ensures r == Serve(rt, rs, ctx, flagKey)
  {
    hide Bucket, RuleMatches;
    var flag, state := rs.flags[flagKey], rs.states[flagKey];
    ghost var b := Bucket(flagKey, ctx.key);

    var rules := new TargetingRule[|state.rules|](i requires 0 <= i < |state.rules| => state.rules[i]);
    assert rules[..] == state.rules;
    SortSlice(rt, rules);
    ghost var sorted := rules[..];
    for i := 0 to rules.Length
      invariant rules[..] == sorted
      invariant FirstServing(rt, rs.segments, ctx, sorted, b) == FirstServing(rt, rs.segments, ctx, sorted[i..], b)
    {
      var rule := rules[i];
      assert sorted[i..][0] == rule && sorted[i..][1..] == sorted[i + 1..];
      var matched := MatchRule(rt, rs.segments, ctx, rule);
      if matched {
        if rule.percentage >= 10000 {
          return Result(flagKey, ParseJSONValue(rt, rule.value), ReasonTargeted);
        }
        if rule.percentage > 0 {
          var bucket := BucketUser(flagKey, ctx.key);
          if bucket < rule.percentage {
            return Result(flagKey, ParseJSONValue(rt, rule.value), ReasonRollout);
          }
        }
      }
    }

    if state.percentageRollout > 0 {
      var bucket := BucketUser(flagKey, ctx.key);
      if bucket < state.percentageRollout {
        var defaultVal := state.defaultValue;
        if defaultVal == None {
          defaultVal := flag.defaultValue;
        }
        return Result(flagKey, ParseJSONValue(rt, defaultVal), ReasonRollout);
      }
      return Result(flagKey, ParseJSONValue(rt, flag.defaultValue), ReasonFallthrough);
    }
    if flag.flagType == FlagTypeAB && |state.variants| > 0 {
      r := EvaluateVariant(rt, flagKey, ctx, state.variants);
      return;
    }
    var defaultVal := state.defaultValue;
    if defaultVal == None {
      defaultVal := flag.defaultValue;
    }
    return Result(flagKey, ParseJSONValue(rt, defaultVal), ReasonFallthrough);
  }

  ghost function Keys(visited: VisitedSet?): set<Key>
    reads visited
  {
    if visited == null then {} else visited.keys
  }

  /**
   The recursive evaluator. The set of visited flags is made by the first flag that has prerequisites
   and is passed down, changed, to every evaluation below it. `calls` counts the invocations.
   */
  method EvaluateVisiting(rt: Runtime, flagKey: Key, ctx: EvalContext, rs: Ruleset, visited: VisitedSet?)
    returns (r: EvalResult, ghost calls: nat)
    requires SortsByPriority(rt.sortRules)
    requires flagKey !in Keys(visited)
    modifies visited
    ensures var o := P.Evaluate(View(rt, rs, ctx), flagKey, old(Keys(visited)));
            r == o.result && calls == o.calls && (visited != null ==> visited.keys == o.visited)
    decreases rs.flags.Keys - Keys(visited), 0
  {
    hide Wins, Serve;
    ghost var g := View(rt, rs, ctx);
    calls := 1;
    if flagKey !in rs.flags {
      return Result(flagKey, Nil, ReasonNotFound), calls;
    }
    var flag := rs.flags[flagKey];
    assert g[flagKey] == NodeOf(rt, rs, ctx, flagKey);

    if flag.expiresAt.Some? && flag.expiresAt.value != 0 && flag.expiresAt.value < rt.now {
      return Result(flagKey, ParseJSONValue(rt, flag.defaultValue), ReasonDisabled), calls;
    }
    if flagKey !in rs.states || !rs.states[flagKey].enabled {
      return Result(flagKey, ParseJSONValue(rt, flag.defaultValue), ReasonDisabled), calls;
    }
    if flag.mutualExclusionGroup != [] {
      var wins := WinsMutexGroup(flagKey, flag.mutualExclusionGroup, ctx, rs);
      if !wins {
        return Result(flagKey, ParseJSONValue(rt, flag.defaultValue), ReasonMutuallyExcluded), calls;
      }
    }

    var prereqs := flag.prerequisites;
    assert g[flagKey].Gated? && g[flagKey].prereqs == prereqs;
    if |prereqs| > 0 {
      var marks := visited;
      if marks == null {
        marks := new VisitedSet();
      }
      marks.keys := marks.keys + {flagKey};
      var passed;
      ghost var below;
      passed, below := CheckPrerequisites(rt, prereqs, ctx, rs, marks);
      calls := calls + below;
      if !passed {
        return Result(flagKey, ParseJSONValue(rt, flag.defaultValue), ReasonPrerequisiteFailed), calls;
      }
    }

    r := ServeFlag(rt, rs, ctx, flagKey);
  }

  /** The loop over the prerequisites of a flag that has just been marked. */
  method CheckPrerequisites(rt: Runtime, prereqs: seq<Key>, ctx: EvalContext, rs: Ruleset, marks: VisitedSet)
    returns (passed: bool, ghost calls: nat)
    requires SortsByPriority(rt.sortRules)
    modifies marks
    ensures P.GateOutcome(passed, marks.keys, calls) == P.Gate(View(rt, rs, ctx), prereqs, old(marks.keys))
    decreases rs.flags.Keys - marks.keys, 1
  {
    hide View;
    ghost var g := View(rt, rs, ctx);
    calls := 0;
    for i := 0 to |prereqs|
      invariant old(marks.keys) <= marks.keys
      invariant var gate, rest := P.Gate(g, prereqs, old(marks.keys)), P.Gate(g, prereqs[i..], marks.keys);
                gate == P.GateOutcome(rest.passed, rest.visited, calls + rest.calls)
    {
      assert prereqs[i..][1..] == prereqs[i + 1..];
      if prereqs[i] in marks.keys {
        return false, calls;
      }
      var prereqResult;
      ghost var below;
      prereqResult, below := EvaluateVisiting(rt, prereqs[i], ctx, rs, marks);
      calls := calls + below;
      if prereqResult.reason == ReasonNotFound || prereqResult.reason == ReasonDisabled {
        return false, calls;
      }
      if prereqResult.value.Boolean? && !prereqResult.value.b {
        return false, calls;
      }
    }
    return true, calls;
  }

  method Evaluate(rt: Runtime, flagKey: Key, ctx: EvalContext, rs: Ruleset) returns (r: EvalResult)
    requires SortsByPriority(rt.sortRules)
    ensures r == Evaluated(rt, rs, ctx, flagKey)
  {
    ghost var calls;
    r, calls := EvaluateVisiting(rt, flagKey, ctx, rs, null);
  }

  /** Flags are evaluated in whatever order the map yields them. */
  method EvaluateAll(rt: Runtime, ctx: EvalContext, rs: Ruleset) returns (results: map<Key, EvalResult>)
    requires SortsByPriority(rt.sortRules)
    ensures results.Keys == rs.flags.Keys
    ensures forall key | key in results :: results[key] == Evaluated(rt, rs, ctx, key)
  {
    results := map[];
    var rest := rs.flags.Keys;
    while rest != {}
      invariant rest <= rs.flags.Keys
      invariant results.Keys == rs.flags.Keys - rest
      invariant forall key | key in results :: results[key] == Evaluated(rt, rs, ctx, key)
    {
      var key :| key in rest;
      var r := Evaluate(rt, key, ctx, rs);
      results := results[key := r];
      rest := rest - {key};
    }
  }
}
