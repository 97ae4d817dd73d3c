/** What evaluating a ruleset means, for every ruleset, user, clock reading and sort. */
module EngineTheorems {
  import opened Bytes
  import opened Options
  import opened Domain
  import opened Murmur
  import opened Sequences
  import opened Rules
  import opened MutexGroups
  import opened Variants
  import opened Engine
  import P = Prerequisites

  // ---------------------------------------------------------------------------
  // Prerequisites
  // ---------------------------------------------------------------------------

  /** A gate can see the flag's default value: the flag may fail its own gate or lose its group. */
  predicate DefaultCounts(rs: Ruleset, key: Key) {
    key in rs.flags && (rs.flags[key].prerequisites != [] || rs.flags[key].mutualExclusionGroup != [])
  }

  /** Every default value that a gate can see is the boolean false. */
  predicate DefaultsFalse(rt: Runtime, rs: Ruleset) {
    forall key | key in rs.flags && DefaultCounts(rs, key) :: FlagDefault(rt, rs, key) == Boolean(false)
  }

  /** The flag is found, current, enabled and not excluded. */
  ghost predicate Open(rt: Runtime, rs: Ruleset, ctx: EvalContext, key: Key) {
    && key in rs.flags && !Expired(rs.flags[key], rt.now) && Enabled(rs, key)
    && (rs.flags[key].mutualExclusionGroup != [] ==>
          Wins(rs, rs.flags[key].mutualExclusionGroup, ctx.key, key))
  }

  /** The flag is open and got past its gate: it was not answered before its own rules were consulted. */
  ghost predicate PastGate(rt: Runtime, rs: Ruleset, ctx: EvalContext, key: Key) {
    Open(rt, rs, ctx, key) && P.Gate(View(rt, rs, ctx), rs.flags[key].prerequisites, {key}).passed
  }

  lemma ViewDefaultsOff(rt: Runtime, rs: Ruleset, ctx: EvalContext)
    requires DefaultsFalse(rt, rs)
    ensures P.DefaultsOff(View(rt, rs, ctx))
  {
    hide Wins, Serve;
  }

  /** A flag past its gate answers from its own rules; any other open flag answers PREREQUISITE_FAILED. */
  lemma GateDecides(rt: Runtime, rs: Ruleset, ctx: EvalContext, key: Key)
    requires Open(rt, rs, ctx, key)
    ensures Evaluated(rt, rs, ctx, key)
         == if PastGate(rt, rs, ctx, key) then Serve(rt, rs, ctx, key)
            else Result(key, FlagDefault(rt, rs, key), ReasonPrerequisiteFailed)
  {
    hide Wins, Serve;
    assert {} + {key} == {key};
  }

  // ---------------------------------------------------------------------------
  // Prerequisites as they are stored
  // ---------------------------------------------------------------------------

  /** The flag reached from key by taking, at each step, the listed prerequisite at the given position. */
  function Listed(rs: Ruleset, key: Key, path: seq<nat>): Option<Key>
    decreases |path|
  {
    if path == [] then Some(key)
    else if key in rs.flags && path[0] < |rs.flags[key].prerequisites| then
      Listed(rs, rs.flags[key].prerequisites[path[0]], path[1..])
    else None
  }

  /** `target` is a direct or transitive prerequisite of key, by the given positions. */
  ghost predicate Requires(rs: Ruleset, key: Key, path: seq<nat>, target: Key) {
    path != [] && Listed(rs, key, path) == Some(target)
  }

  predicate HasPrerequisites(rs: Ruleset, key: Key) {
    key in rs.flags && rs.flags[key].prerequisites != []
  }

  /** Some flag with prerequisites is listed from key along two different paths. */
  ghost predicate ListedTwice(rs: Ruleset, key: Key) {
    exists p, q, target :: p != q && HasPrerequisites(rs, target)
      && Listed(rs, key, p) == Some(target) && Listed(rs, key, q) == Some(target)
  }

  /** Every transitive prerequisite is open and serves, by its own rules, a value that is on. */
  ghost predicate AllRequiredServe(rt: Runtime, rs: Ruleset, ctx: EvalContext, key: Key) {
    forall path, target | Requires(rs, key, path, target) ::
      Open(rt, rs, ctx, target) && Serve(rt, rs, ctx, target).value != Boolean(false)
  }

  lemma {:induction false} ListedCompose(rs: Ruleset, key: Key, p: seq<nat>, middle: Key, q: seq<nat>)
    requires Listed(rs, key, p) == Some(middle)
    ensures Listed(rs, key, p + q) == Listed(rs, middle, q)
    decreases |p|
  {
    if p == [] {
      assert p + q == q;
    } else {
      ListedCompose(rs, rs.flags[key].prerequisites[p[0]], p[1..], middle, q);
      assert (p + q)[1..] == p[1..] + q;
    }
  }

  /** What an evaluation can reach is listed. */
  lemma {:induction false} ReachedIsListed(rt: Runtime, rs: Ruleset, ctx: EvalContext,
                                           key: Key, path: seq<nat>, target: Key)
    requires P.Reaches(View(rt, rs, ctx), key, path, target)
    ensures Listed(rs, key, path) == Some(target)
    decreases |path|
  {
    hide Wins, Serve;
    if path != [] {
      ReachedIsListed(rt, rs, ctx, rs.flags[key].prerequisites[path[0]], path[1..], target);
    }
  }

  /** What is listed can be reached, as long as everything reached is open. */
  lemma {:induction false} ListedIsReached(rt: Runtime, rs: Ruleset, ctx: EvalContext,
                                           key: Key, path: seq<nat>, target: Key)
    requires Open(rt, rs, ctx, key) && Listed(rs, key, path) == Some(target)
    requires forall p, t | p != [] && P.Reaches(View(rt, rs, ctx), key, p, t) :: Open(rt, rs, ctx, t)
    ensures P.Reaches(View(rt, rs, ctx), key, path, target)
    decreases |path|
  {
    hide Wins, Serve;
    if path != [] {
      var g := View(rt, rs, ctx);
      assert g[key].Gated? && g[key].prereqs == rs.flags[key].prerequisites;
      var i, next := path[0], rs.flags[key].prerequisites[path[0]];
      assert P.Reaches(g, next, [], next);
      P.StepInto(g, key, i, [], next);
      forall p, t | p != [] && P.Reaches(g, next, p, t)
        ensures Open(rt, rs, ctx, t)
      {
        P.StepInto(g, key, i, p, t);
        assert [i] + p != [];
      }
      assert [i] + [] != [];
      ListedIsReached(rt, rs, ctx, next, path[1..], target);
      P.StepInto(g, key, i, path[1..], target);
      assert [i] + path[1..] == path;
    }
  }

  lemma ServesMeansOpen(rt: Runtime, rs: Ruleset, ctx: EvalContext)
    ensures forall k :: P.Serves(View(rt, rs, ctx), k) <==>
              Open(rt, rs, ctx, k) && Serve(rt, rs, ctx, k).value != Boolean(false)
  {
    hide Wins, Serve;
    forall k | Open(rt, rs, ctx, k)
      ensures P.On(Serve(rt, rs, ctx, k)) <==> Serve(rt, rs, ctx, k).value != Boolean(false)
    {
      OnMeansNotFalse(rt, rs, ctx, k);
    }
  }

  /** For a value that a flag serves, whatever rule or rollout it comes from, on means not false. */
  lemma OnMeansNotFalse(rt: Runtime, rs: Ruleset, ctx: EvalContext, key: Key)
    requires key in rs.flags && key in rs.states
    ensures P.On(Serve(rt, rs, ctx, key)) <==> Serve(rt, rs, ctx, key).value != Boolean(false)
  {
    hide Pick, Bucket;
  }

  /** Everything reached from the flag serves a value that is on. */
  ghost predicate AllReachedServe(g: P.Graph, key: Key) {
    forall path, target | path != [] && P.Reaches(g, key, path, target) :: P.Serves(g, target)
  }

  /** For an open flag, the stored lists and the graph of the evaluation tell the same. */
  lemma ListsMatchGraph(rt: Runtime, rs: Ruleset, ctx: EvalContext, key: Key)
    requires Open(rt, rs, ctx, key)
    ensures AllRequiredServe(rt, rs, ctx, key) <==> AllReachedServe(View(rt, rs, ctx), key)
    ensures AllRequiredServe(rt, rs, ctx, key) ==>
              (P.Lone(View(rt, rs, ctx), [key]) <==> !ListedTwice(rs, key))
  {
    var g := View(rt, rs, ctx);
    ServesMeansOpen(rt, rs, ctx);
    hide Open, Serve, P.Serves, View, P.Follow, Listed;
    forall path, target | P.Reaches(g, key, path, target)
      ensures Listed(rs, key, path) == Some(target)
    {
      ReachedIsListed(rt, rs, ctx, key, path, target);
    }
    if AllReachedServe(g, key) {
      assert forall path, target | path != [] && P.Reaches(g, key, path, target) :: Open(rt, rs, ctx, target);
      forall path, target | Listed(rs, key, path) == Some(target)
        ensures P.Reaches(g, key, path, target)
      {
        ListedIsReached(rt, rs, ctx, key, path, target);
      }
      UniquePathsMatch(rt, rs, ctx, key);
    } else {
      var path, target :| path != [] && P.Reaches(g, key, path, target) && !P.Serves(g, target);
      assert Requires(rs, key, path, target);
    }
  }

  lemma UniquePathsMatch(rt: Runtime, rs: Ruleset, ctx: EvalContext, key: Key)
    requires Open(rt, rs, ctx, key)
    requires forall path, target | path != [] && P.Reaches(View(rt, rs, ctx), key, path, target) ::
               Open(rt, rs, ctx, target)
    requires forall path, target | Listed(rs, key, path) == Some(target) ::
               P.Reaches(View(rt, rs, ctx), key, path, target)
    requires forall path, target | P.Reaches(View(rt, rs, ctx), key, path, target) ::
               Listed(rs, key, path) == Some(target)
    ensures P.Lone(View(rt, rs, ctx), [key]) <==> !ListedTwice(rs, key)
  {
    var g := View(rt, rs, ctx);
    forall target
      ensures P.Inner(g, target) <==> Open(rt, rs, ctx, target) && HasPrerequisites(rs, target)
    {
      NodeShapes(rt, rs, ctx, target);
    }
    hide Open, View, P.Follow, Listed, P.Inner, HasPrerequisites;
    if ListedTwice(rs, key) {
      var p, q, target :| p != q && HasPrerequisites(rs, target)
        && Listed(rs, key, p) == Some(target) && Listed(rs, key, q) == Some(target);
      assert P.Reaches(g, [key][0], p, target) && P.Reaches(g, [key][0], q, target);
      assert p != [] || q != [];
    }
    if !P.Lone(g, [key]) {
      var i, j, p, q, target :| 0 <= i < 1 && 0 <= j < 1 && P.Inner(g, target)
        && P.Reaches(g, [key][i], p, target) && P.Reaches(g, [key][j], q, target) && !(i == j && p == q);
      assert Listed(rs, key, p) == Some(target) && Listed(rs, key, q) == Some(target);
    }
  }

  /**
   The gate, read off the stored ruleset: with false defaults, an open flag gets past its gate exactly
   when every transitive prerequisite is open and serves, by its own rules, a value that is on, and no
   flag with prerequisites is listed along two paths.
   */
  lemma GateMeaning(rt: Runtime, rs: Ruleset, ctx: EvalContext, key: Key)
    requires DefaultsFalse(rt, rs) && Open(rt, rs, ctx, key)
    ensures PastGate(rt, rs, ctx, key) <==> AllRequiredServe(rt, rs, ctx, key) && !ListedTwice(rs, key)
  {
    var g := View(rt, rs, ctx);
    assert g[key].Gated? && g[key].prereqs == rs.flags[key].prerequisites by {
      hide Wins, Serve;
    }
    hide Open, View, P.Serves, P.Lone, P.DefaultsOff, P.Gate, P.Reaches, AllRequiredServe, ListedTwice;
    ViewDefaultsOff(rt, rs, ctx);
    P.GatePassesByPaths(g, key);
    ListsMatchGraph(rt, rs, ctx, key);
  }

  /** With false defaults, every transitive prerequisite of a flag past its gate is on when evaluated alone. */
  lemma TransitivePrerequisitesHold(rt: Runtime, rs: Ruleset, ctx: EvalContext,
                                    key: Key, path: seq<nat>, target: Key)
    requires DefaultsFalse(rt, rs) && PastGate(rt, rs, ctx, key) && Requires(rs, key, path, target)
    ensures Active(Evaluated(rt, rs, ctx, target)) && Evaluated(rt, rs, ctx, target).value != Boolean(false)
  {
    RequiredPassesToo(rt, rs, ctx, key, path, target);
    ActiveMeansOpen(rt, rs, ctx, target);
    GateDecides(rt, rs, ctx, target);
  }

  /** What a flag past its gate requires is itself past its gate. */
  lemma RequiredPassesToo(rt: Runtime, rs: Ruleset, ctx: EvalContext, key: Key, path: seq<nat>, target: Key)
    requires DefaultsFalse(rt, rs) && PastGate(rt, rs, ctx, key) && Requires(rs, key, path, target)
    ensures PastGate(rt, rs, ctx, target) && Serve(rt, rs, ctx, target).value != Boolean(false)
  {
    GateMeaning(rt, rs, ctx, key);
    hide Serve, Open, ListedTwice, PastGate, DefaultsFalse;
    assert Requires(rs, key, path, target);
    forall q, u | Requires(rs, target, q, u)
      ensures Open(rt, rs, ctx, u) && Serve(rt, rs, ctx, u).value != Boolean(false)
    {
      ListedCompose(rs, key, path, target, q);
      assert Requires(rs, key, path + q, u);
    }
    TwiceBelow(rs, key, path, target);
    GateMeaning(rt, rs, ctx, target);
  }

  lemma TwiceBelow(rs: Ruleset, key: Key, path: seq<nat>, target: Key)
    requires Listed(rs, key, path) == Some(target)
    ensures ListedTwice(rs, target) ==> ListedTwice(rs, key)
  {
    if ListedTwice(rs, target) {
      var p, q, u :| p != q && HasPrerequisites(rs, u)
        && Listed(rs, target, p) == Some(u) && Listed(rs, target, q) == Some(u);
      ListedCompose(rs, key, path, target, p);
      ListedCompose(rs, key, path, target, q);
      assert p == (path + p)[|path|..] && q == (path + q)[|path|..];
    }
  }

  /** Where it serves a boolean, on means true. */
  lemma TransitivePrerequisitesAreTrue(rt: Runtime, rs: Ruleset, ctx: EvalContext,
                                       key: Key, path: seq<nat>, target: Key)
    requires DefaultsFalse(rt, rs) && PastGate(rt, rs, ctx, key) && Requires(rs, key, path, target)
    requires target in rs.flags && target in rs.states ==> Serve(rt, rs, ctx, target).value.Boolean?
    ensures Evaluated(rt, rs, ctx, target).value == Boolean(true)
  {
    RequiredPassesToo(rt, rs, ctx, key, path, target);
    GateDecides(rt, rs, ctx, target);
  }

  /**
   With false defaults, a flag on a prerequisite cycle, or leading to one, never gets past its gate,
   whether the flags on the way are open or not.
   */
  lemma CyclesStayShut(rt: Runtime, rs: Ruleset, ctx: EvalContext,
                       key: Key, path: seq<nat>, onCycle: Key, cycle: seq<nat>)
    requires DefaultsFalse(rt, rs)
    requires Listed(rs, key, path) == Some(onCycle)
    requires cycle != [] && Listed(rs, onCycle, cycle) == Some(onCycle)
    ensures !PastGate(rt, rs, ctx, key)
  {
    ListedCompose(rs, key, path, onCycle, cycle);
    assert |path + cycle| != |path|;
    assert HasPrerequisites(rs, onCycle);
    assert ListedTwice(rs, key);
    if Open(rt, rs, ctx, key) {
      GateMeaning(rt, rs, ctx, key);
    }
  }

  /** Plain recursion over the ruleset, without the shared set, comes to an end with result r. */
  ghost predicate PlainEvaluated(rt: Runtime, rs: Ruleset, ctx: EvalContext, key: Key, r: EvalResult) {
    P.PlainReturns(View(rt, rs, ctx), key, r)
  }

  /**
   Whatever the defaults, if no flag with prerequisites is listed twice, plain recursion comes to an end
   and gives the evaluator's result.
   */
  lemma ListedOnceMeansPlain(rt: Runtime, rs: Ruleset, ctx: EvalContext, key: Key)
    requires !ListedTwice(rs, key)
    ensures PlainEvaluated(rt, rs, ctx, key, Evaluated(rt, rs, ctx, key))
  {
    var g := View(rt, rs, ctx);
    if !P.Lone(g, [key]) {
      var i, j, p, q, target :| 0 <= i < 1 && 0 <= j < 1 && P.Inner(g, target)
        && P.Reaches(g, [key][i], p, target) && P.Reaches(g, [key][j], q, target) && !(i == j && p == q);
      ReachedIsListed(rt, rs, ctx, key, p, target);
      ReachedIsListed(rt, rs, ctx, key, q, target);
      NodeShapes(rt, rs, ctx, target);
      assert false;
    }
    P.LoneMeansPlain(g, key);
  }

  /**
   With false defaults, whenever plain recursion comes to an end, the evaluator gives another result in
   one case only: the flag is open, everything it requires serves on, and a flag with prerequisites is
   listed twice.
   */
  lemma PlainRecursionAgrees(rt: Runtime, rs: Ruleset, ctx: EvalContext, key: Key, r: EvalResult)
    requires DefaultsFalse(rt, rs) && PlainEvaluated(rt, rs, ctx, key, r)
    ensures Evaluated(rt, rs, ctx, key) == r <==>
              !(Open(rt, rs, ctx, key) && AllRequiredServe(rt, rs, ctx, key) && ListedTwice(rs, key))
  {
    var g := View(rt, rs, ctx);
    ViewDefaultsOff(rt, rs, ctx);
    P.PlainAgreesExactly(g, key, r);
    NodeShapes(rt, rs, ctx, key);
    if Open(rt, rs, ctx, key) {
      ListsMatchGraph(rt, rs, ctx, key);
      if P.Inner(g, key) {
        P.PrerequisitesAreReached(g, key);
      } else {
        NothingListedTwice(rs, key);
      }
    }
  }

  lemma NodeShapes(rt: Runtime, rs: Ruleset, ctx: EvalContext, key: Key)
    ensures var g := View(rt, rs, ctx);
            && (P.Inner(g, key) <==> Open(rt, rs, ctx, key) && HasPrerequisites(rs, key))
            && (P.Inner(g, key) ==> g[key].failed != g[key].served)
  {
    hide Wins, Bucket, Pick;
  }

  lemma NothingListedTwice(rs: Ruleset, key: Key)
    requires !HasPrerequisites(rs, key)
    ensures !ListedTwice(rs, key)
  {
    forall p, t | Listed(rs, key, p) == Some(t)
      ensures p == []
    {}
  }

  /** One evaluation walks each prerequisite list at most once, so it ends on every ruleset. */
  lemma EvaluationIsLinear(rt: Runtime, rs: Ruleset, ctx: EvalContext, key: Key)
    ensures P.Evaluate(View(rt, rs, ctx), key, {}).calls <= 1 + PrerequisiteTotal(rs, rs.flags.Keys)
  {
    P.EvaluationCost(View(rt, rs, ctx), key);
    EdgesAtMostTotal(rt, rs, ctx, rs.flags.Keys);
  }

  /** The sum of the lengths of the flags' prerequisite lists. */
  ghost function PrerequisiteTotal(rs: Ruleset, keys: set<Key>): nat
    requires keys <= rs.flags.Keys
  {
    if keys == {} then 0
    else
      var key :| key in keys;
      |rs.flags[key].prerequisites| + PrerequisiteTotal(rs, keys - {key})
  }

  lemma {:induction false} EdgesAtMostTotal(rt: Runtime, rs: Ruleset, ctx: EvalContext, keys: set<Key>)
    requires keys <= rs.flags.Keys
    ensures P.Edges(View(rt, rs, ctx), keys) <= PrerequisiteTotal(rs, keys)
  {
    hide Wins, Serve;
    if keys != {} {
      var key :| key in keys && PrerequisiteTotal(rs, keys)
        == |rs.flags[key].prerequisites| + PrerequisiteTotal(rs, keys - {key});
      P.EdgesRemove(View(rt, rs, ctx), keys, key);
      EdgesAtMostTotal(rt, rs, ctx, keys - {key});
    }
  }

  // ---------------------------------------------------------------------------
  // Locality
  // ---------------------------------------------------------------------------

  /** keys contains the prerequisites of each of its flags. */
  ghost predicate PrerequisiteClosed(rs: Ruleset, keys: set<Key>) {
    forall key, p | key in keys && key in rs.flags && p in rs.flags[key].prerequisites :: p in keys
  }

  /**
   The two rulesets agree on the flags and states of `keys`, on the segments, and on which flags
   compete in the groups that `keys` touches.
   */
  ghost predicate AgreeNear(rs1: Ruleset, rs2: Ruleset, keys: set<Key>) {
    && rs1.segments == rs2.segments
    && (forall key | key in keys ::
          && (key in rs1.flags <==> key in rs2.flags) && (key in rs1.states <==> key in rs2.states)
          && (key in rs1.flags ==> rs1.flags[key] == rs2.flags[key])
          && (key in rs1.states ==> rs1.states[key] == rs2.states[key]))
    && (forall key, other | key in keys && key in rs1.flags && rs1.flags[key].mutualExclusionGroup != [] ::
          var group := rs1.flags[key].mutualExclusionGroup;
          Competes(rs1, group, other) <==> Competes(rs2, group, other))
  }

  /** Evaluation is local: what lies outside the prerequisite closure and its groups has no influence. */
  lemma EvaluationIsLocal(rt: Runtime, rs1: Ruleset, rs2: Ruleset, ctx: EvalContext, keys: set<Key>, key: Key)
    requires PrerequisiteClosed(rs1, keys) && AgreeNear(rs1, rs2, keys) && key in keys
    ensures Evaluated(rt, rs1, ctx, key) == Evaluated(rt, rs2, ctx, key)
  {
    hide Bucket, Pick;
    var g1, g2 := View(rt, rs1, ctx), View(rt, rs2, ctx);
    forall k | k in keys
      ensures k in g1 <==> k in g2
      ensures k in g1 ==> g1[k] == g2[k]
    {
      if k in rs1.flags {
        SameNode(rt, rs1, rs2, ctx, keys, k);
      }
    }
    assert P.Closed(g1, keys);
    P.EvaluateIsLocal(g1, g2, keys, key, {});
  }

  lemma SameNode(rt: Runtime, rs1: Ruleset, rs2: Ruleset, ctx: EvalContext, keys: set<Key>, key: Key)
    requires AgreeNear(rs1, rs2, keys) && key in keys && key in rs1.flags
    ensures key in rs2.flags && NodeOf(rt, rs1, ctx, key) == NodeOf(rt, rs2, ctx, key)
  {
    hide Bucket, Pick, Beats;
  }

  /** Adding or removing a flag that is neither a prerequisite nor a rival changes nothing. */
  lemma UnrelatedFlagIsInvisible(rt: Runtime, rs: Ruleset, ctx: EvalContext, keys: set<Key>, key: Key, other: Key)
    requires PrerequisiteClosed(rs, keys) && key in keys && other !in keys
    requires forall k | k in keys && k in rs.flags && rs.flags[k].mutualExclusionGroup != [] ::
               !Competes(rs, rs.flags[k].mutualExclusionGroup, other)
    ensures Evaluated(rt, rs.(flags := rs.flags - {other}), ctx, key) == Evaluated(rt, rs, ctx, key)
  {
    EvaluationIsLocal(rt, rs, rs.(flags := rs.flags - {other}), ctx, keys, key);
  }

  // ---------------------------------------------------------------------------
  // Rules
  // ---------------------------------------------------------------------------

  /** The same ruleset up to the rules of each state. */
  ghost predicate SameButRules(rs1: Ruleset, rs2: Ruleset) {
    && rs1.flags == rs2.flags && rs1.segments == rs2.segments && rs1.states.Keys == rs2.states.Keys
    && forall key | key in rs1.states :: rs1.states[key].(rules := []) == rs2.states[key].(rules := [])
  }

  /** The two runtimes may differ in their sort. */
  ghost predicate SameButSort(rt1: Runtime, rt2: Runtime) {
    rt1.now == rt2.now && rt1.matchCondition == rt2.matchCondition && rt1.decodeJSON == rt2.decodeJSON
  }

  ghost predicate SamePick(rt1: Runtime, rt2: Runtime, rs1: Ruleset, rs2: Ruleset, ctx: EvalContext, key: Key)
    requires key in rs1.states && key in rs2.states
  {
    Pick(rt1, rs1.segments, ctx, rs1.states[key].rules, Bucket(key, ctx.key))
      == Pick(rt2, rs2.segments, ctx, rs2.states[key].rules, Bucket(key, ctx.key))
  }

  lemma SamePicksSameResults(rt1: Runtime, rt2: Runtime, rs1: Ruleset, rs2: Ruleset, ctx: EvalContext, key: Key)
    requires SameButSort(rt1, rt2) && SameButRules(rs1, rs2)
    requires forall k | k in rs1.states :: SamePick(rt1, rt2, rs1, rs2, ctx, k)
    ensures Evaluated(rt1, rs1, ctx, key) == Evaluated(rt2, rs2, ctx, key)
  {
    hide Bucket, Pick;
    var g1, g2 := View(rt1, rs1, ctx), View(rt2, rs2, ctx);
    forall k | k in rs1.flags
      ensures g1[k] == g2[k]
    {
      SamePickSameNode(rt1, rt2, rs1, rs2, ctx, k);
    }
    assert g1 == g2;
  }

  lemma SamePickSameNode(rt1: Runtime, rt2: Runtime, rs1: Ruleset, rs2: Ruleset, ctx: EvalContext, key: Key)
    requires SameButSort(rt1, rt2) && SameButRules(rs1, rs2) && key in rs1.flags
    requires key in rs1.states ==> SamePick(rt1, rt2, rs1, rs2, ctx, key)
    ensures NodeOf(rt1, rs1, ctx, key) == NodeOf(rt2, rs2, ctx, key)
  {
    hide Bucket, Pick, Wins;
    SameRivals(rs1, rs2, ctx.key);
    if key in rs1.states {
      var a, b := rs1.states[key], rs2.states[key];
      assert a.(rules := []) == b.(rules := []);
      assert a.defaultValue == b.defaultValue && a.percentageRollout == b.percentageRollout
        && a.variants == b.variants;
      assert Serve(rt1, rs1, ctx, key) == Serve(rt2, rs2, ctx, key);
    }
  }

  lemma SameRivals(rs1: Ruleset, rs2: Ruleset, user: Key)
    requires SameButRules(rs1, rs2)
    ensures forall k :: Enabled(rs1, k) <==> Enabled(rs2, k)
    ensures forall group, k :: Wins(rs1, group, user, k) <==> Wins(rs2, group, user, k)
  {
    hide Beats;
    forall k
      ensures Enabled(rs1, k) <==> Enabled(rs2, k)
    {
      if k in rs1.states {
        assert rs1.states[k].(rules := []) == rs2.states[k].(rules := []);
      }
    }
    assert forall group, k :: Competes(rs1, group, k) <==> Competes(rs2, group, k);
  }

  /** With distinct priorities, neither the stored order of the rules nor the sort can be observed. */
  lemma RuleOrderIsInvisible(rt1: Runtime, rt2: Runtime, rs1: Ruleset, rs2: Ruleset, ctx: EvalContext, key: Key)
    requires SortsByPriority(rt1.sortRules) && SortsByPriority(rt2.sortRules)
    requires SameButSort(rt1, rt2) && SameButRules(rs1, rs2)
    requires forall k | k in rs1.states ::
               DistinctPriorities(rs1.states[k].rules)
               && multiset(rs1.states[k].rules) == multiset(rs2.states[k].rules)
    ensures Evaluated(rt1, rs1, ctx, key) == Evaluated(rt2, rs2, ctx, key)
  {
    hide Bucket, Pick, Evaluated;
    forall k | k in rs1.states
      ensures SamePick(rt1, rt2, rs1, rs2, ctx, k)
    {
      PickIgnoresOrder(rt1, rt2, rs1.segments, ctx, rs1.states[k].rules, rs2.states[k].rules, Bucket(k, ctx.key));
    }
    SamePicksSameResults(rt1, rt2, rs1, rs2, ctx, key);
  }

  function DeleteRule(rs: Ruleset, owner: Key, j: nat): Ruleset
    requires owner in rs.states && j < |rs.states[owner].rules|
  {
    var state := rs.states[owner];
    rs.(states := rs.states[owner := state.(rules := Without(state.rules, j))])
  }

  /** Deleting a shadowed rule changes no result, of any flag, for any user. */
  lemma ShadowedRuleIsInvisible(rt: Runtime, rs: Ruleset, ctx: EvalContext, owner: Key, j: nat, key: Key)
    requires SortsByPriority(rt.sortRules)
    requires owner in rs.states && DistinctPriorities(rs.states[owner].rules)
    requires Shadowed(rt, rs.segments, rs.states[owner].rules, j)
    ensures Evaluated(rt, DeleteRule(rs, owner, j), ctx, key) == Evaluated(rt, rs, ctx, key)
  {
    hide Bucket, Pick, Evaluated, Without;
    ShadowedRuleIsDead(rt, rs.segments, ctx, rs.states[owner].rules, Bucket(owner, ctx.key), j);
    SamePicksSameResults(rt, rt, DeleteRule(rs, owner, j), rs, ctx, key);
  }

  // ---------------------------------------------------------------------------
  // Mutual exclusion
  // ---------------------------------------------------------------------------

  /** The flag was neither disabled nor excluded. */
  predicate Active(r: EvalResult) {
    !r.reason.ReasonDisabled? && !r.reason.ReasonMutuallyExcluded? && !r.reason.ReasonNotFound?
  }

  lemma ActiveMeansOpen(rt: Runtime, rs: Ruleset, ctx: EvalContext, key: Key)
    ensures Active(Evaluated(rt, rs, ctx, key)) <==> Open(rt, rs, ctx, key)
  {
    hide Wins, Bucket, Pick;
    if Open(rt, rs, ctx, key) {
      GateDecides(rt, rs, ctx, key);
    }
  }

  /** Of the flags in the group, the winner alone is active, and it is active unless it has expired. */
  ghost predicate OnlyActive(rt: Runtime, rs: Ruleset, ctx: EvalContext, group: ByteString, winner: Key) {
    forall key | key in rs.flags && rs.flags[key].mutualExclusionGroup == group ::
      Active(Evaluated(rt, rs, ctx, key)) <==> key == winner && !Expired(rs.flags[key], rt.now)
  }

  /**
   In a group with an enabled flag, a single flag can be active for a user: the winner. The winner is
   chosen among expired flags too, and an expired winner leaves the whole group inactive.
   */
  lemma OneActiveFlagPerGroup(rt: Runtime, rs: Ruleset, ctx: EvalContext, group: ByteString)
    requires group != [] && exists key :: Competes(rs, group, key)
    ensures exists winner :: OnlyWinner(rs, group, ctx.key, winner) && OnlyActive(rt, rs, ctx, group, winner)
  {
    hide Wins, Evaluated;
    ExactlyOneWinner(rs, group, ctx.key);
    var winner :| OnlyWinner(rs, group, ctx.key, winner);
    forall key | key in rs.flags && rs.flags[key].mutualExclusionGroup == group
      ensures Active(Evaluated(rt, rs, ctx, key)) <==> key == winner && !Expired(rs.flags[key], rt.now)
    {
      ActiveMeansOpen(rt, rs, ctx, key);
    }
    assert OnlyActive(rt, rs, ctx, group, winner);
  }

  /** No flag of the group is active for the user. */
  ghost predicate GroupShut(rt: Runtime, rs: Ruleset, ctx: EvalContext, group: ByteString) {
    forall key | key in rs.flags && rs.flags[key].mutualExclusionGroup == group ::
      !Active(Evaluated(rt, rs, ctx, key))
  }

  /**
   So a group can be shut for some user by an expired flag: if the smallest key among the competing flags
   has expired, there is a user for whom no flag of the group is active.
   */
  lemma ExpiredFlagShutsGroup(rt: Runtime, rs: Ruleset, group: ByteString, key: Key)
    requires group != [] && Competes(rs, group, key) && Expired(rs.flags[key], rt.now)
    requires forall other | Competes(rs, group, other) && other != key :: Less(key, other)
    ensures exists ctx :: GroupShut(rt, rs, ctx, group)
  {
    hide Bucket, Evaluated;
    EveryBucketIsReached(key, 0);
    var user :| Bucket(key, user) == 0;
    var ctx := EvalContext(user, map[]);
    forall other | Competes(rs, group, other) && other != key
      ensures !Beats(user, other, key)
    {
      LessIsAsymmetric(key, other);
    }
    assert Wins(rs, group, user, key);
    OneActiveFlagPerGroup(rt, rs, ctx, group);
    var winner :| OnlyWinner(rs, group, ctx.key, winner) && OnlyActive(rt, rs, ctx, group, winner);
    assert winner == key;
    assert GroupShut(rt, rs, ctx, group);
  }

  // ---------------------------------------------------------------------------
  // Rollouts
  // ---------------------------------------------------------------------------

  function WithRollout(rs: Ruleset, key: Key, percentage: int): Ruleset
    requires key in rs.states
  {
    rs.(states := rs.states[key := rs.states[key].(percentageRollout := percentage)])
  }

  /** A flag's own rollout is not looked at before its gate. */
  lemma GateIgnoresOwnRollout(rt: Runtime, rs: Ruleset, ctx: EvalContext, key: Key, p: int)
    requires key in rs.flags && key in rs.states
    ensures PastGate(rt, WithRollout(rs, key, p), ctx, key) <==> PastGate(rt, rs, ctx, key)
    ensures Open(rt, WithRollout(rs, key, p), ctx, key) <==> Open(rt, rs, ctx, key)
  {
    hide Serve, Beats;
    var rp := WithRollout(rs, key, p);
    var g, h := View(rt, rp, ctx), View(rt, rs, ctx);
    assert forall group, k :: Competes(rp, group, k) <==> Competes(rs, group, k);
    forall k | k !in {key} && k in rs.flags
      ensures g[k] == h[k]
    {
      SameServe(rt, rs, ctx, key, p, k);
    }
    P.GateIgnoresVisited(g, h, rs.flags[key].prerequisites, {key});
  }

  lemma SameServe(rt: Runtime, rs: Ruleset, ctx: EvalContext, key: Key, p: int, other: Key)
    requires key in rs.states && other in rs.flags && other != key
    ensures other in rs.states ==> Serve(rt, WithRollout(rs, key, p), ctx, other) == Serve(rt, rs, ctx, other)
  {
    hide Bucket, Pick;
  }

  /** No rule of the flag serves the user, so the rollout decides. */
  ghost predicate Unruled(rt: Runtime, rs: Ruleset, ctx: EvalContext, key: Key)
    requires key in rs.states
  {
    Pick(rt, rs.segments, ctx, rs.states[key].rules, Bucket(key, ctx.key)) == None
  }

  /** The result of the flag when its rollout is set to p. */
  ghost function AtRollout(rt: Runtime, rs: Ruleset, ctx: EvalContext, key: Key, p: int): EvalResult
    requires key in rs.states
  {
    Evaluated(rt, WithRollout(rs, key, p), ctx, key)
  }

  /**
   Raising a rollout that has begun moves, of the users it decides for, those and only those whose bucket
   lies between the old and the new percentage.
   */
  lemma RolloutOnlyGrows(rt: Runtime, rs: Ruleset, ctx: EvalContext, key: Key, p: int, q: int)
    requires key in rs.flags && key in rs.states && 0 < p <= q
    ensures AtRollout(rt, rs, ctx, key, q) != AtRollout(rt, rs, ctx, key, p) <==>
              PastGate(rt, rs, ctx, key) && Unruled(rt, rs, ctx, key) && p <= Bucket(key, ctx.key) < q
  {
    RolloutResult(rt, rs, ctx, key, p);
    RolloutResult(rt, rs, ctx, key, q);
  }

  lemma RolloutResult(rt: Runtime, rs: Ruleset, ctx: EvalContext, key: Key, p: int)
    requires key in rs.flags && key in rs.states && 0 <= p
    ensures !Open(rt, rs, ctx, key) ==> AtRollout(rt, rs, ctx, key, p) == Evaluated(rt, rs, ctx, key)
    ensures Open(rt, rs, ctx, key) && !PastGate(rt, rs, ctx, key) ==>
              AtRollout(rt, rs, ctx, key, p) == Result(key, FlagDefault(rt, rs, key), ReasonPrerequisiteFailed)
    ensures PastGate(rt, rs, ctx, key) && !Unruled(rt, rs, ctx, key) ==>
              AtRollout(rt, rs, ctx, key, p) == Serve(rt, rs, ctx, key)
    ensures PastGate(rt, rs, ctx, key) && Unruled(rt, rs, ctx, key) && p > 0 ==>
              AtRollout(rt, rs, ctx, key, p)
                == if Bucket(key, ctx.key) < p then Result(key, StateDefault(rt, rs, key), ReasonRollout)
                   else Result(key, FlagDefault(rt, rs, key), ReasonFallthrough)
    ensures PastGate(rt, rs, ctx, key) && Unruled(rt, rs, ctx, key) && p == 0 ==>
              AtRollout(rt, rs, ctx, key, p).value == ValueAtZero(rt, rs, key, Bucket(key, ctx.key))
  {
    hide Bucket, Pick, Wins, P.Gate, Evaluated;
    var rp := WithRollout(rs, key, p);
    GateIgnoresOwnRollout(rt, rs, ctx, key, p);
    if Open(rt, rs, ctx, key) {
      GateDecides(rt, rp, ctx, key);
    } else {
      ShutResult(rt, rs, ctx, key, p);
    }
  }

  lemma ShutResult(rt: Runtime, rs: Ruleset, ctx: EvalContext, key: Key, p: int)
    requires key in rs.flags && key in rs.states && !Open(rt, rs, ctx, key)
    ensures AtRollout(rt, rs, ctx, key, p) == Evaluated(rt, rs, ctx, key)
  {
    hide Serve, Beats;
    var rp := WithRollout(rs, key, p);
    assert forall group, k :: Competes(rp, group, k) <==> Competes(rs, group, k);
    assert View(rt, rp, ctx)[key] == View(rt, rs, ctx)[key];
  }

  predicate ServesVariants(rs: Ruleset, key: Key)
    requires key in rs.flags && key in rs.states
  {
    rs.flags[key].flagType.FlagTypeAB? && rs.states[key].variants != []
  }

  /** What a rollout of 0 gives to a bucket: its variant, if the flag serves variants. */
  function ValueAtZero(rt: Runtime, rs: Ruleset, key: Key, bucket: nat): Value
    requires key in rs.flags && key in rs.states
  {
    var variants := rs.states[key].variants;
    if ServesVariants(rs, key) then ParseJSONValue(rt, variants[Assigned(variants, bucket)].value)
    else StateDefault(rt, rs, key)
  }

  /** What a rollout of p gives to it. */
  function ValueAt(rt: Runtime, rs: Ruleset, key: Key, p: int, bucket: nat): Value
    requires key in rs.flags && key in rs.states
  {
    if bucket < p then StateDefault(rt, rs, key) else FlagDefault(rt, rs, key)
  }

  /**
   A rollout of 0 is not a small rollout: it gives everyone it decides for the state's default, or a
   variant. Raising it to p leaves every user's value alone exactly when it does so for each of them; unless
   variants are served, when the two defaults are the same or no bucket of p or more is decided for.
   */
  lemma ZeroRolloutIsSpecial(rt: Runtime, rs: Ruleset, key: Key, p: int)
    requires key in rs.flags && key in rs.states && 0 < p
    ensures NobodyMoves(rt, rs, key, p) <==>
              forall ctx | PastGate(rt, rs, ctx, key) && Unruled(rt, rs, ctx, key) ::
                ValueAt(rt, rs, key, p, Bucket(key, ctx.key)) == ValueAtZero(rt, rs, key, Bucket(key, ctx.key))
    ensures !ServesVariants(rs, key) ==> (NobodyMoves(rt, rs, key, p) <==>
              || FlagDefault(rt, rs, key) == StateDefault(rt, rs, key)
              || forall ctx | PastGate(rt, rs, ctx, key) && Unruled(rt, rs, ctx, key) :: Bucket(key, ctx.key) < p)
  {
    hide Bucket, Unruled, PastGate, Open, AtRollout, StateDefault, FlagDefault;
    forall ctx
      ensures AtRollout(rt, rs, ctx, key, p).value == AtRollout(rt, rs, ctx, key, 0).value <==>
                || !(PastGate(rt, rs, ctx, key) && Unruled(rt, rs, ctx, key))
                || ValueAt(rt, rs, key, p, Bucket(key, ctx.key)) == ValueAtZero(rt, rs, key, Bucket(key, ctx.key))
    {
      RolloutResult(rt, rs, ctx, key, p);
      RolloutResult(rt, rs, ctx, key, 0);
    }
  }

  /** Raising the rollout from 0 to p changes the value of no user. */
  ghost predicate NobodyMoves(rt: Runtime, rs: Ruleset, key: Key, p: int)
    requires key in rs.states
  {
    forall ctx :: AtRollout(rt, rs, ctx, key, p).value == AtRollout(rt, rs, ctx, key, 0).value
  }

  /**
   Without rules, prerequisites and group the rollout decides for everyone, and every bucket has a user in
   it; so 0 can be raised without moving anyone only if all 10000 buckets agree, and then, unless variants
   are served, only to the full 10000 or if the two defaults are the same.
   */
  lemma ZeroRolloutMovesUsers(rt: Runtime, rs: Ruleset, key: Key, p: int)
    requires SortsByPriority(rt.sortRules)
    requires key in rs.flags && key in rs.states && 0 < p
    requires !Expired(rs.flags[key], rt.now) && Enabled(rs, key) && rs.states[key].rules == []
    requires rs.flags[key].prerequisites == [] && rs.flags[key].mutualExclusionGroup == []
    ensures NobodyMoves(rt, rs, key, p) <==>
              forall bucket: nat | bucket < 10000 ::
                ValueAt(rt, rs, key, p, bucket) == ValueAtZero(rt, rs, key, bucket)
    ensures !ServesVariants(rs, key) ==>
              (NobodyMoves(rt, rs, key, p) <==> p >= 10000 || FlagDefault(rt, rs, key) == StateDefault(rt, rs, key))
  {
    ZeroRolloutIsSpecial(rt, rs, key, p);
    forall ctx
      ensures PastGate(rt, rs, ctx, key) && Unruled(rt, rs, ctx, key)
    {
      hide Bucket, Pick;
      PickIsLowest(rt, rs.segments, ctx, [], Bucket(key, ctx.key));
    }
    hide Bucket, AtRollout, StateDefault, FlagDefault, PastGate, Unruled, NobodyMoves, ValueAtZero, ValueAt;
    if NobodyMoves(rt, rs, key, p) {
      forall bucket: nat | bucket < 10000
        ensures ValueAt(rt, rs, key, p, bucket) == ValueAtZero(rt, rs, key, bucket)
      {
        var ctx := SomeoneIn(key, bucket);
        assert PastGate(rt, rs, ctx, key) && Unruled(rt, rs, ctx, key);
      }
    }
    if p < 10000 {
      var ctx := SomeoneIn(key, p);
      assert PastGate(rt, rs, ctx, key) && Unruled(rt, rs, ctx, key);
    }
  }

  lemma SomeoneIn(key: Key, bucket: nat) returns (ctx: EvalContext)
    requires bucket < 10000
    ensures Bucket(key, ctx.key) == bucket
  {
    EveryBucketIsReached(key, bucket);
    var user :| Bucket(key, user) == bucket;
    ctx := EvalContext(user, map[]);
  }
}
