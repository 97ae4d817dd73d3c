/** Targeting rules: matching a user, priority order, and which rule serves. */
module Rules {
  import opened Options
  import opened Domain
  import opened Sequences

  // ---------------------------------------------------------------------------
  // Matching
  // ---------------------------------------------------------------------------

  /** What a condition list means under a match type; an unknown or unset type matches no non-empty list. */
  predicate ConditionsHold(rt: Runtime, conditions: seq<Condition>, ctx: EvalContext, matchType: MatchType) {
    conditions == [] ||
    match matchType
    case MatchAll => forall c | c in conditions :: rt.matchCondition(c, ctx)
    case MatchAny => exists c | c in conditions :: rt.matchCondition(c, ctx)
    case _ => false
  }

  method MatchConditions(rt: Runtime, conditions: seq<Condition>, ctx: EvalContext, matchType: MatchType)
    returns (r: bool)
    ensures r == ConditionsHold(rt, conditions, ctx, matchType)
  {
    if |conditions| == 0 {
      return true;
    }
    for i := 0 to |conditions|
      invariant matchType.MatchAll? ==> forall j | 0 <= j < i :: rt.matchCondition(conditions[j], ctx)
      invariant matchType.MatchAny? ==> forall j | 0 <= j < i :: !rt.matchCondition(conditions[j], ctx)
    {
      var matched := rt.matchCondition(conditions[i], ctx);
      if matchType == MatchAny && matched {
        return true;
      }
      if matchType == MatchAll && !matched {
        return false;
      }
    }
    return matchType == MatchAll;
  }

  predicate SegmentMatches(rt: Runtime, segments: map<Key, Segment>, ctx: EvalContext, key: Key) {
    key in segments && ConditionsHold(rt, segments[key].rules, ctx, segments[key].matchType)
  }

  /** A rule matches through any one of its segments, if it has some, and through its own conditions. */
  predicate RuleMatches(rt: Runtime, segments: map<Key, Segment>, ctx: EvalContext, rule: TargetingRule) {
    && (rule.segmentKeys == [] || exists key | key in rule.segmentKeys :: SegmentMatches(rt, segments, ctx, key))
    && ConditionsHold(rt, rule.conditions, ctx,
                      if rule.matchType == MatchUnset then MatchAll else rule.matchType)
  }

  method MatchRule(rt: Runtime, segments: map<Key, Segment>, ctx: EvalContext, rule: TargetingRule)
    returns (r: bool)
    ensures r == RuleMatches(rt, segments, ctx, rule)
  {
    if |rule.segmentKeys| > 0 {
      var segmentMatched := false;
      for i := 0 to |rule.segmentKeys|
        invariant !segmentMatched
        invariant forall j | 0 <= j < i :: !SegmentMatches(rt, segments, ctx, rule.segmentKeys[j])
      {
        var segKey := rule.segmentKeys[i];
        if segKey !in segments {
          continue;
        }
        var seg := segments[segKey];
        var matched := MatchConditions(rt, seg.rules, ctx, seg.matchType);
        if matched {
          assert segKey in rule.segmentKeys && SegmentMatches(rt, segments, ctx, segKey);
          segmentMatched := true;
          break;
        }
      }
      if !segmentMatched {
        return false;
      }
    }
    if |rule.conditions| > 0 {
      var matchType := if rule.matchType == MatchUnset then MatchAll else rule.matchType;
      var matched := MatchConditions(rt, rule.conditions, ctx, matchType);
      if !matched {
        return false;
      }
    }
    return true;
  }

  /** "All" asks every part of a list, "any" one part of it; a single condition is asked itself. */
  lemma ConditionsCombine(rt: Runtime, a: seq<Condition>, b: seq<Condition>, ctx: EvalContext, c: Condition)
    ensures ConditionsHold(rt, a + b, ctx, MatchAll) <==>
              ConditionsHold(rt, a, ctx, MatchAll) && ConditionsHold(rt, b, ctx, MatchAll)
    ensures a != [] && b != [] ==>
              (ConditionsHold(rt, a + b, ctx, MatchAny) <==>
                 ConditionsHold(rt, a, ctx, MatchAny) || ConditionsHold(rt, b, ctx, MatchAny))
    ensures forall t :: ConditionsHold(rt, [c], ctx, t) <==> (t.MatchAll? || t.MatchAny?) && rt.matchCondition(c, ctx)
    ensures forall t :: ConditionsHold(rt, [], ctx, t)
  {
    assert forall d :: d in a + b <==> d in a || d in b;
    assert forall d :: d in [c] <==> d == c;
    if a == [] || b == [] {
      assert a + b == if a == [] then b else a;
    }
  }

  /** Segments are alternatives, a missing one matches nobody, and a rule asks for them and its conditions. */
  lemma SegmentsAreAlternatives(rt: Runtime, segments: map<Key, Segment>, ctx: EvalContext,
                                rule: TargetingRule, a: seq<Key>, b: seq<Key>, key: Key)
    ensures a != [] && b != [] ==>
              (RuleMatches(rt, segments, ctx, rule.(segmentKeys := a + b)) <==>
                 || RuleMatches(rt, segments, ctx, rule.(segmentKeys := a))
                 || RuleMatches(rt, segments, ctx, rule.(segmentKeys := b)))
    ensures RuleMatches(rt, segments, ctx, rule.(segmentKeys := [key])) <==>
              && key in segments && ConditionsHold(rt, segments[key].rules, ctx, segments[key].matchType)
              && RuleMatches(rt, segments, ctx, rule.(segmentKeys := []))
    ensures rule.matchType != MatchUnset ==>
              (RuleMatches(rt, segments, ctx, rule.(segmentKeys := [])) <==>
                 ConditionsHold(rt, rule.conditions, ctx, rule.matchType))
    ensures RuleMatches(rt, segments, ctx, rule.(matchType := MatchUnset))
       <==> RuleMatches(rt, segments, ctx, rule.(matchType := MatchAll))
  {
    hide ConditionsHold;
    assert forall k :: k in a + b <==> k in a || k in b;
    assert key in [key];
  }

  /**
   Only a rule's own unset match type defaults to "all". A segment with conditions and an unset match
   type, which validation lets through, matches nobody.
   */
  lemma UnsetSegmentMatchesNobody(rt: Runtime, segments: map<Key, Segment>, key: Key)
    requires key in segments && segments[key].matchType == MatchUnset
    ensures (exists ctx :: SegmentMatches(rt, segments, ctx, key)) <==> segments[key].rules == []
  {
    if segments[key].rules == [] {
      assert SegmentMatches(rt, segments, EvalContext([], map[]), key);
    }
  }

  // ---------------------------------------------------------------------------
  // Priority order
  // ---------------------------------------------------------------------------

  predicate InPriorityOrder(rules: seq<TargetingRule>) {
    forall i, j | 0 <= i < j < |rules| :: rules[i].priority <= rules[j].priority
  }

  /** All that is known of sort.Slice: some permutation of the rules, in priority order. */
  ghost predicate SortsByPriority(sort: seq<TargetingRule> -> seq<TargetingRule>) {
    forall rules :: multiset(sort(rules)) == multiset(rules) && InPriorityOrder(sort(rules))
  }

  predicate DistinctPriorities(rules: seq<TargetingRule>) {
    forall i, j | 0 <= i < j < |rules| :: rules[i].priority != rules[j].priority
  }

  lemma SameElements(a: seq<TargetingRule>, b: seq<TargetingRule>)
    requires multiset(a) == multiset(b)
    ensures forall x :: x in a <==> x in b
  {
    assert forall x :: x in a <==> x in multiset(a);
    assert forall x :: x in b <==> x in multiset(b);
  }

  function Insert(rule: TargetingRule, rules: seq<TargetingRule>): seq<TargetingRule> {
    if rules == [] || rule.priority < rules[0].priority then [rule] + rules
    else [rules[0]] + Insert(rule, rules[1..])
  }

  /** One sort that meets the assumption. */
  function InsertionSort(rules: seq<TargetingRule>): seq<TargetingRule> {
    if rules == [] then [] else Insert(rules[0], InsertionSort(rules[1..]))
  }

  lemma {:induction false} InsertAdds(rule: TargetingRule, rules: seq<TargetingRule>)
    ensures multiset(Insert(rule, rules)) == multiset([rule] + rules)
  {
    if rules != [] && rule.priority >= rules[0].priority {
      InsertAdds(rule, rules[1..]);
      assert rules == [rules[0]] + rules[1..];
      assert multiset([rule] + rules) == multiset([rules[0]]) + multiset([rule] + rules[1..]);
    }
  }

  lemma {:induction false} InsertStaysAbove(rule: TargetingRule, rules: seq<TargetingRule>, m: int)
    requires m <= rule.priority && forall i | 0 <= i < |rules| :: m <= rules[i].priority
    ensures forall i | 0 <= i < |Insert(rule, rules)| :: m <= Insert(rule, rules)[i].priority
  {
    if rules != [] && rule.priority >= rules[0].priority {
      InsertStaysAbove(rule, rules[1..], m);
    }
  }

  lemma {:induction false} InsertKeepsOrder(rule: TargetingRule, rules: seq<TargetingRule>)
    requires InPriorityOrder(rules)
    ensures InPriorityOrder(Insert(rule, rules))
  {
    if rules != [] && rule.priority >= rules[0].priority {
      InsertKeepsOrder(rule, rules[1..]);
      InsertStaysAbove(rule, rules[1..], rules[0].priority);
    }
  }

  lemma {:induction false} InsertionSortSorts(rules: seq<TargetingRule>)
    ensures multiset(InsertionSort(rules)) == multiset(rules) && InPriorityOrder(InsertionSort(rules))
  {
    if rules != [] {
      var rest := InsertionSort(rules[1..]);
      InsertionSortSorts(rules[1..]);
      InsertKeepsOrder(rules[0], rest);
      InsertAdds(rules[0], rest);
      assert rules == [rules[0]] + rules[1..];
    }
  }

  lemma SortsExist()
    ensures SortsByPriority(InsertionSort)
  {
    forall rules: seq<TargetingRule>
      ensures multiset(InsertionSort(rules)) == multiset(rules) && InPriorityOrder(InsertionSort(rules))
    {
      InsertionSortSorts(rules);
    }
  }

  // ---------------------------------------------------------------------------
  // The rule that serves
  // ---------------------------------------------------------------------------

  predicate ServesUser(rt: Runtime, segments: map<Key, Segment>, ctx: EvalContext, rule: TargetingRule, bucket: nat) {
    RuleMatches(rt, segments, ctx, rule) && bucket < rule.percentage
  }

  /** The first serving rule of a list. */
  function FirstServing(rt: Runtime, segments: map<Key, Segment>, ctx: EvalContext,
                        rules: seq<TargetingRule>, bucket: nat): Option<TargetingRule>
  {
    if rules == [] then None
    else if ServesUser(rt, segments, ctx, rules[0], bucket) then Some(rules[0])
    else FirstServing(rt, segments, ctx, rules[1..], bucket)
  }

  lemma {:induction false} FirstServingIsLowest(rt: Runtime, segments: map<Key, Segment>, ctx: EvalContext,
                                                rules: seq<TargetingRule>, bucket: nat)
    requires InPriorityOrder(rules)
    ensures var r := FirstServing(rt, segments, ctx, rules, bucket);
            && (r == None <==> forall s | s in rules :: !ServesUser(rt, segments, ctx, s, bucket))
            && (r.Some? ==>
                  && r.value in rules && ServesUser(rt, segments, ctx, r.value, bucket)
                  && forall s | s in rules && ServesUser(rt, segments, ctx, s, bucket) ::
                       r.value.priority <= s.priority)
  {
    if rules != [] {
      FirstServingIsLowest(rt, segments, ctx, rules[1..], bucket);
      assert rules == [rules[0]] + rules[1..];
    }
  }

  /** The rule served to a user: rules are taken in the order the library sort leaves them. */
  function Pick(rt: Runtime, segments: map<Key, Segment>, ctx: EvalContext,
                rules: seq<TargetingRule>, bucket: nat): Option<TargetingRule>
  {
    FirstServing(rt, segments, ctx, rt.sortRules(rules), bucket)
  }

  /** With any sort, the pick is a serving rule of the lowest priority number. */
  lemma PickIsLowest(rt: Runtime, segments: map<Key, Segment>, ctx: EvalContext,
                     rules: seq<TargetingRule>, bucket: nat)
    requires SortsByPriority(rt.sortRules)
    ensures var r := Pick(rt, segments, ctx, rules, bucket);
            && (r == None <==> forall s | s in rules :: !ServesUser(rt, segments, ctx, s, bucket))
            && (r.Some? ==>
                  && r.value in rules && ServesUser(rt, segments, ctx, r.value, bucket)
                  && forall s | s in rules && ServesUser(rt, segments, ctx, s, bucket) ::
                       r.value.priority <= s.priority)
  {
    FirstServingIsLowest(rt, segments, ctx, rt.sortRules(rules), bucket);
    SameElements(rt.sortRules(rules), rules);
  }

  lemma SamePriority(rules: seq<TargetingRule>, r: TargetingRule, s: TargetingRule)
    requires DistinctPriorities(rules) && r in rules && s in rules && r.priority == s.priority
    ensures r == s
  {
    var i :| 0 <= i < |rules| && rules[i] == r;
    var j :| 0 <= j < |rules| && rules[j] == s;
    assert !(i < j) && !(j < i);
  }

  /** With distinct priorities, the pick depends neither on the order of the rules nor on the sort. */
  lemma PickIgnoresOrder(rt1: Runtime, rt2: Runtime, segments: map<Key, Segment>, ctx: EvalContext,
                         rules1: seq<TargetingRule>, rules2: seq<TargetingRule>, bucket: nat)
    requires SortsByPriority(rt1.sortRules) && SortsByPriority(rt2.sortRules)
    requires rt1.matchCondition == rt2.matchCondition
    requires multiset(rules1) == multiset(rules2) && DistinctPriorities(rules1)
    ensures Pick(rt1, segments, ctx, rules1, bucket) == Pick(rt2, segments, ctx, rules2, bucket)
  {
    PickIsLowest(rt1, segments, ctx, rules1, bucket);
    PickIsLowest(rt2, segments, ctx, rules2, bucket);
    SameElements(rules1, rules2);
    assert forall s :: ServesUser(rt1, segments, ctx, s, bucket) <==> ServesUser(rt2, segments, ctx, s, bucket);
    var r1, r2 := Pick(rt1, segments, ctx, rules1, bucket), Pick(rt2, segments, ctx, rules2, bucket);
    if r1.Some? && r2.Some? {
      SamePriority(rules1, r1.value, r2.value);
    }
  }

  /** Rule j is shadowed by rule i if i comes first, matches whenever j does, and has at least its percentage. */
  ghost predicate Shadowed(rt: Runtime, segments: map<Key, Segment>, rules: seq<TargetingRule>, j: nat) {
    && j < |rules|
    && exists i | 0 <= i < |rules| ::
         && rules[i].priority < rules[j].priority
         && rules[i].percentage >= rules[j].percentage
         && forall ctx :: RuleMatches(rt, segments, ctx, rules[j]) ==> RuleMatches(rt, segments, ctx, rules[i])
  }

  /** Deleting a shadowed rule changes no pick, since all rules of a flag share one bucket. */
  lemma ShadowedRuleIsDead(rt: Runtime, segments: map<Key, Segment>, ctx: EvalContext,
                           rules: seq<TargetingRule>, bucket: nat, j: nat)
    requires SortsByPriority(rt.sortRules) && DistinctPriorities(rules)
    requires Shadowed(rt, segments, rules, j)
    ensures Pick(rt, segments, ctx, Without(rules, j), bucket) == Pick(rt, segments, ctx, rules, bucket)
  {
    hide Pick, Without, RuleMatches, ServesUser;
    var fewer := Without(rules, j);
    var p, q := Pick(rt, segments, ctx, rules, bucket), Pick(rt, segments, ctx, fewer, bucket);
    PickIsLowest(rt, segments, ctx, rules, bucket);
    PickIsLowest(rt, segments, ctx, fewer, bucket);
    if ServesUser(rt, segments, ctx, rules[j], bucket) {
      ShadowerServes(rt, segments, ctx, rules, bucket, j);
    }
    if p.Some? {
      WithoutElements(rules, j, p.value);
      assert p.value in fewer;
    }
    if q.Some? {
      WithoutElements(rules, j, q.value);
      SamePriority(rules, p.value, q.value);
    }
  }

  lemma ShadowerServes(rt: Runtime, segments: map<Key, Segment>, ctx: EvalContext,
                       rules: seq<TargetingRule>, bucket: nat, j: nat)
    requires Shadowed(rt, segments, rules, j) && ServesUser(rt, segments, ctx, rules[j], bucket)
    ensures exists s | s in rules :: ServesUser(rt, segments, ctx, s, bucket) && s.priority < rules[j].priority
  {
    var i :| 0 <= i < |rules| && rules[i].priority < rules[j].priority
      && rules[i].percentage >= rules[j].percentage
      && forall c :: RuleMatches(rt, segments, c, rules[j]) ==> RuleMatches(rt, segments, c, rules[i]);
    assert rules[i] in rules && ServesUser(rt, segments, ctx, rules[i], bucket);
  }
}
