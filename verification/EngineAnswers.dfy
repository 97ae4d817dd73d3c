/**
 The answer of a top-level evaluation, case by case, read off the stored flag, state and rules: the value,
 the reason and the variant. The cases are exhaustive.
 */
module EngineAnswers {
  import opened Bytes
  import opened Options
  import opened Domain
  import opened Murmur
  import opened Rules
  import opened Variants
  import opened MutexGroups
  import opened Engine
  import opened EngineTheorems

  /** Found, with no expiry in the past, and enabled. */
  predicate Current(rt: Runtime, rs: Ruleset, key: Key) {
    && key in rs.flags && key in rs.states && rs.states[key].enabled
    && match rs.flags[key].expiresAt
       case None => true
       case Some(t) => t == 0 || t >= rt.now
  }

  /** Another enabled flag of the group has a lower bucket for the user, or the same bucket and a smaller key. */
  ghost predicate Beaten(rs: Ruleset, user: Key, key: Key)
    requires key in rs.flags
  {
    exists other :: other != key && other in rs.flags && other in rs.states && rs.states[other].enabled
      && rs.flags[other].mutualExclusionGroup == rs.flags[key].mutualExclusionGroup
      && (Bucket(other, user) < Bucket(key, user) || (Bucket(other, user) == Bucket(key, user) && Less(other, key)))
  }

  lemma OpenExactly(rt: Runtime, rs: Ruleset, ctx: EvalContext, key: Key)
    ensures Open(rt, rs, ctx, key) <==>
              Current(rt, rs, key) && (rs.flags[key].mutualExclusionGroup != [] ==> !Beaten(rs, ctx.key, key))
  {
    hide Bucket;
    if Current(rt, rs, key) && rs.flags[key].mutualExclusionGroup != [] {
      var group := rs.flags[key].mutualExclusionGroup;
      forall other | Competes(rs, group, other) && other != key && Beats(ctx.key, other, key)
        ensures Beaten(rs, ctx.key, key)
      {}
      if Beaten(rs, ctx.key, key) {
        var other :| other != key && other in rs.flags && other in rs.states && rs.states[other].enabled
          && rs.flags[other].mutualExclusionGroup == rs.flags[key].mutualExclusionGroup
          && (Bucket(other, ctx.key) < Bucket(key, ctx.key)
              || (Bucket(other, ctx.key) == Bucket(key, ctx.key) && Less(other, key)));
        assert Competes(rs, group, other) && Beats(ctx.key, other, key);
      }
    }
  }

  /** A flag that is missing, not current, excluded or held up by its gate answers with its own default value. */
  lemma AnswersBeforeRules(rt: Runtime, rs: Ruleset, ctx: EvalContext, key: Key)
    ensures key !in rs.flags ==> Evaluated(rt, rs, ctx, key) == EvalResult(key, Nil, ReasonNotFound, [])
    ensures key in rs.flags && !PastGate(rt, rs, ctx, key) ==>
              Evaluated(rt, rs, ctx, key) == EvalResult(
                key, ParseJSONValue(rt, rs.flags[key].defaultValue),
                if !Current(rt, rs, key) then ReasonDisabled
                else if rs.flags[key].mutualExclusionGroup != [] && Beaten(rs, ctx.key, key)
                  then ReasonMutuallyExcluded
                else ReasonPrerequisiteFailed, [])
  {
    hide Serve, Beaten, PastGate, Wins;
    OpenExactly(rt, rs, ctx, key);
    if Open(rt, rs, ctx, key) {
      GateDecides(rt, rs, ctx, key);
    }
  }

  /** The rule matches the user, whose bucket is below its percentage. */
  predicate Applies(rt: Runtime, rs: Ruleset, ctx: EvalContext, key: Key, rule: TargetingRule) {
    RuleMatches(rt, rs.segments, ctx, rule) && Bucket(key, ctx.key) < rule.percentage
  }

  /**
   Past the gate, the value of the applying rule with the lowest priority number is served, by any sort;
   a rule of full percentage is called targeting, any other a rollout.
   */
  lemma RuleAnswers(rt: Runtime, rs: Ruleset, ctx: EvalContext, key: Key, rule: TargetingRule)
    requires SortsByPriority(rt.sortRules) && PastGate(rt, rs, ctx, key)
    requires rule in rs.states[key].rules && Applies(rt, rs, ctx, key, rule)
    requires forall s | s in rs.states[key].rules && Applies(rt, rs, ctx, key, s) ::
               s == rule || rule.priority < s.priority
    ensures Evaluated(rt, rs, ctx, key)
         == EvalResult(key, ParseJSONValue(rt, rule.value),
                       if rule.percentage >= 10000 then ReasonTargeted else ReasonRollout, [])
  {
    GateDecides(rt, rs, ctx, key);
    hide PastGate, Bucket, Pick, RuleMatches, Evaluated;
    var rules, bucket := rs.states[key].rules, Bucket(key, ctx.key);
    PickIsLowest(rt, rs.segments, ctx, rules, bucket);
    var r := Pick(rt, rs.segments, ctx, rules, bucket);
    assert r.Some? && Applies(rt, rs, ctx, key, r.value) by {
      assert ServesUser(rt, rs.segments, ctx, rule, bucket);
    }
    assert r.value == rule;
  }

  /**
   Where no rule applies, a positive rollout serves the state's default below it and the flag's from it on;
   otherwise an AB flag serves a variant, and any other the state's default. A state without a default
   has the flag's.
   */
  lemma DefaultAnswers(rt: Runtime, rs: Ruleset, ctx: EvalContext, key: Key)
    requires SortsByPriority(rt.sortRules) && PastGate(rt, rs, ctx, key)
    requires forall s | s in rs.states[key].rules :: !Applies(rt, rs, ctx, key, s)
    ensures var flag, state, r := rs.flags[key], rs.states[key], Evaluated(rt, rs, ctx, key);
            var on := if state.defaultValue.Some? then state.defaultValue else flag.defaultValue;
            if state.percentageRollout > 0 then
              r == if Bucket(key, ctx.key) < state.percentageRollout
                   then EvalResult(key, ParseJSONValue(rt, on), ReasonRollout, [])
                   else EvalResult(key, ParseJSONValue(rt, flag.defaultValue), ReasonFallthrough, [])
            else if flag.flagType == FlagTypeAB && state.variants != [] then
              exists k: nat :: FirstAbove(state.variants, Bucket(key, ctx.key), k)
                && r == EvalResult(key, ParseJSONValue(rt, state.variants[k].value), ReasonVariant,
                                   state.variants[k].key)
            else r == EvalResult(key, ParseJSONValue(rt, on), ReasonFallthrough, [])
  {
    GateDecides(rt, rs, ctx, key);
    hide PastGate, Bucket, Pick, RuleMatches, FirstAbove, Assigned, Evaluated;
    var state, bucket := rs.states[key], Bucket(key, ctx.key);
    PickIsLowest(rt, rs.segments, ctx, state.rules, bucket);
    assert Pick(rt, rs.segments, ctx, state.rules, bucket) == None;
    if state.variants != [] {
      AssignedIsFirstAbove(state.variants, bucket, Assigned(state.variants, bucket));
    }
  }
}
