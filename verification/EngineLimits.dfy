/** Where the engine parts from what its documentation suggests: the inputs, and the general case. */
module EngineLimits {
  import opened Bytes
  import opened Options
  import opened Domain
  import opened Murmur
  import opened Rules
  import opened MutexGroups
  import opened Engine
  import opened EngineTheorems
  import P = Prerequisites

  const A: Key := [0x61]
  const B: Key := [0x62]
  const C: Key := [0x63]

  /** The bytes of "true" and "false". */
  const TRUE: RawMessage := Some([0x74, 0x72, 0x75, 0x65])
  const FALSE: RawMessage := Some([0x66, 0x61, 0x6c, 0x73, 0x65])

  function DecodeBoolean(json: ByteString): Option<Value> {
    if Some(json) == TRUE then Some(Boolean(true))
    else if Some(json) == FALSE then Some(Boolean(false))
    else None
  }

  /** No condition matches, and no message but the two booleans decodes. */
  function PlainRuntime(): Runtime {
    Runtime(0, (c, ctx) => false, DecodeBoolean, InsertionSort)
  }

  /** A boolean flag in no group. */
  function FlagWith(default: RawMessage, prerequisites: seq<Key>): Flag {
    Flag(FlagTypeBoolean, default, None, prerequisites, [])
  }

  /** Without rules or rollout, serving true. */
  function StateWith(enabled: bool): FlagState {
    FlagState([1], [1], enabled, TRUE, [], 0, [])
  }

  function TrueFor(key: Key): EvalResult { Result(key, Boolean(true), ReasonFallthrough) }

  /** An enabled flag in no group, as its dependents see it. */
  lemma SeenAs(rs: Ruleset, ctx: EvalContext, key: Key, default: RawMessage, prerequisites: seq<Key>)
    requires key in rs.flags && key in rs.states && rs.states[key] == StateWith(true)
    requires rs.flags[key] == FlagWith(default, prerequisites) && default in {TRUE, FALSE}
    ensures View(PlainRuntime(), rs, ctx)[key]
         == P.Gated(prerequisites, Result(key, Boolean(default == TRUE), ReasonPrerequisiteFailed),
                    TrueFor(key))
  {
    hide Bucket;
    SortsExist();
    PickIsLowest(PlainRuntime(), rs.segments, ctx, [], Bucket(key, ctx.key));
  }

  // ---------------------------------------------------------------------------
  // Repeated prerequisites
  // ---------------------------------------------------------------------------

  /**
   The set of visited flags takes any second visit for a cycle: a flag that lists an open flag with
   prerequisites twice never gets past its gate, whatever the defaults and the rest of the ruleset.
   */
  lemma RepeatedPrerequisiteFails(rt: Runtime, rs: Ruleset, ctx: EvalContext, key: Key, i: nat, j: nat)
    requires Open(rt, rs, ctx, key)
    requires var ps := rs.flags[key].prerequisites;
             i < j < |ps| && ps[i] == ps[j] && Open(rt, rs, ctx, ps[i]) && HasPrerequisites(rs, ps[i])
    ensures Evaluated(rt, rs, ctx, key).reason == ReasonPrerequisiteFailed
  {
    hide Wins, Serve, Bucket;
    var g, ps := View(rt, rs, ctx), rs.flags[key].prerequisites;
    NodeShapes(rt, rs, ctx, ps[i]);
    if P.Gate(g, ps, {key}).passed {
      P.PassingListsAreDistinct(g, ps, {key});
      assert false;
    }
    GateDecides(rt, rs, ctx, key);
  }

  /** A requires B twice, B requires C, and every flag is enabled and serves true. */
  function Repeated(): Ruleset {
    Ruleset(map[A := FlagWith(FALSE, [B, B]), B := FlagWith(FALSE, [C]), C := FlagWith(FALSE, [])],
            map[A := StateWith(true), B := StateWith(true), C := StateWith(true)], map[])
  }

  lemma PlainPassesTwice(g: P.Graph, failed: seq<EvalResult>)
    requires A in g && B in g && C in g && |failed| == 3
    requires g[A] == P.Gated([B, B], failed[0], TrueFor(A))
    requires g[B] == P.Gated([C], failed[1], TrueFor(B))
    requires g[C] == P.Gated([], failed[2], TrueFor(C))
    ensures P.Plain(g, A, 3) == Some(TrueFor(A))
  {
    assert P.Plain(g, C, 1) == Some(TrueFor(C));
    assert [C][1..] == [] && [B, B][1..] == [B] && [B][1..] == [];
    assert P.PlainGate(g, [C], 1) == P.PlainGate(g, [], 1) == Some(true);
    assert P.Plain(g, B, 2) == Some(TrueFor(B));
    assert P.PlainGate(g, [B], 2) == P.PlainGate(g, [], 2) == Some(true);
    assert P.PlainGate(g, [B, B], 2) == P.PlainGate(g, [B], 2);
  }

  /** Such a flag fails although plain recursion ends and turns it on. */
  lemma RepeatedIsNotPlain(ctx: EvalContext)
    ensures Evaluated(PlainRuntime(), Repeated(), ctx, A).reason == ReasonPrerequisiteFailed
    ensures P.PlainReturns(View(PlainRuntime(), Repeated(), ctx), A, TrueFor(A))
  {
    hide Serve, Wins, Bucket, NodeOf, View, StateWith;
    var rt, rs := PlainRuntime(), Repeated();
    SeenAs(rs, ctx, A, FALSE, [B, B]);
    SeenAs(rs, ctx, B, FALSE, [C]);
    SeenAs(rs, ctx, C, FALSE, []);
    var g := View(rt, rs, ctx);
    PlainPassesTwice(g, [g[A].failed, g[B].failed, g[C].failed]);
    RepeatFails(g);
  }

  lemma RepeatFails(g: P.Graph)
    requires A in g && g[A].Gated? && g[A].prereqs == [B, B]
    requires B in g && g[B].Gated? && g[B].prereqs == [C]
    ensures P.Evaluate(g, A, {}).result == g[A].failed
  {
    var marked := {} + {A};
    var first := P.Evaluate(g, B, marked);
    assert B in first.visited;
    assert [B, B][1..] == [B];
    assert !P.Gate(g, [B], first.visited).passed;
    assert !P.Gate(g, [B, B], marked).passed;
  }

  // ---------------------------------------------------------------------------
  // Defaults that count as on
  // ---------------------------------------------------------------------------

  /** What is marked when the gate of `a` comes to the prerequisite at position i. */
  ghost function MarkedBefore(rt: Runtime, rs: Ruleset, ctx: EvalContext, a: Key, i: nat): set<Key>
    requires a in rs.flags && i < |rs.flags[a].prerequisites|
  {
    P.Gate(View(rt, rs, ctx), rs.flags[a].prerequisites[..i], {a}).visited
  }

  /** Whatever the prerequisite at position i turns out to be, the gate of `a` is held up by no other. */
  ghost predicate OthersPass(rt: Runtime, rs: Ruleset, ctx: EvalContext, a: Key, i: nat)
    requires a in rs.flags && i < |rs.flags[a].prerequisites|
  {
    var g, ps, marked := View(rt, rs, ctx), rs.flags[a].prerequisites, MarkedBefore(rt, rs, ctx, a, i);
    && P.Gate(g, ps[..i], {a}).passed && ps[i] !in marked
    && P.Gate(g, ps[i + 1..], P.Evaluate(g, ps[i], marked).visited).passed
  }

  /** Then that prerequisite decides the gate by whether it is on. */
  lemma OnePrerequisiteDecides(rt: Runtime, rs: Ruleset, ctx: EvalContext, a: Key, i: nat)
    requires Open(rt, rs, ctx, a) && i < |rs.flags[a].prerequisites| && OthersPass(rt, rs, ctx, a, i)
    ensures PastGate(rt, rs, ctx, a) <==>
              P.On(P.Evaluate(View(rt, rs, ctx), rs.flags[a].prerequisites[i], MarkedBefore(rt, rs, ctx, a, i)).result)
  {
    hide View;
    var g, ps := View(rt, rs, ctx), rs.flags[a].prerequisites;
    P.GateSplits(g, ps[..i], ps[i..], {a});
    assert ps[..i] + ps[i..] == ps && ps[i..][1..] == ps[i + 1..];
  }

  /**
   Without prerequisites of its own it passes exactly if it serves anything but the boolean false, for
   whatever reason it serves it; and one that is off never does, whatever its default.
   */
  lemma LeafDecides(rt: Runtime, rs: Ruleset, ctx: EvalContext, a: Key, i: nat, b: Key)
    requires Open(rt, rs, ctx, a) && i < |rs.flags[a].prerequisites| && rs.flags[a].prerequisites[i] == b
    requires OthersPass(rt, rs, ctx, a, i)
    ensures Open(rt, rs, ctx, b) && !HasPrerequisites(rs, b) ==>
              (PastGate(rt, rs, ctx, a) <==> Serve(rt, rs, ctx, b).value != Boolean(false))
    ensures Off(rt, rs, b) ==> !PastGate(rt, rs, ctx, a)
  {
    OnePrerequisiteDecides(rt, rs, ctx, a, i);
    hide Wins, PastGate, Bucket, Pick, Serve;
    if Open(rt, rs, ctx, b) {
      OnMeansNotFalse(rt, rs, ctx, b);
    }
  }

  /** An open flag without prerequisites that serves on. */
  ghost predicate Ordinary(rt: Runtime, rs: Ruleset, ctx: EvalContext, key: Key) {
    Open(rt, rs, ctx, key) && !HasPrerequisites(rs, key) && Serve(rt, rs, ctx, key).value != Boolean(false)
  }

  /** It is so where all the others are ordinary; in particular where there are no others. */
  lemma OrdinaryOthersPass(rt: Runtime, rs: Ruleset, ctx: EvalContext, a: Key, i: nat)
    requires Open(rt, rs, ctx, a) && i < |rs.flags[a].prerequisites| && rs.flags[a].prerequisites[i] != a
    requires forall j | 0 <= j < |rs.flags[a].prerequisites| && j != i ::
               Ordinary(rt, rs, ctx, rs.flags[a].prerequisites[j])
    ensures OthersPass(rt, rs, ctx, a, i) && MarkedBefore(rt, rs, ctx, a, i) == {a}
  {
    var g, ps := View(rt, rs, ctx), rs.flags[a].prerequisites;
    assert HasPrerequisites(rs, a);
    forall j | 0 <= j < |ps| && j != i
      ensures P.OnLeaf(g, ps[j]) && ps[j] != a
    {
      OrdinaryIsLeaf(rt, rs, ctx, ps[j]);
    }
    hide View, Open, Ordinary, P.OnLeaf;
    P.LeavesAroundPass(g, ps, i, a);
  }

  lemma OrdinaryIsLeaf(rt: Runtime, rs: Ruleset, ctx: EvalContext, key: Key)
    requires Ordinary(rt, rs, ctx, key)
    ensures P.OnLeaf(View(rt, rs, ctx), key) && !HasPrerequisites(rs, key)
  {
    hide Wins, Serve;
    OnMeansNotFalse(rt, rs, ctx, key);
  }

  /**
   A prerequisite that fails its own gate is judged by its default value alone: it stops its dependent if
   and only if that is the boolean false.
   */
  lemma FailedPrerequisiteIsItsDefault(rt: Runtime, rs: Ruleset, ctx: EvalContext, a: Key, i: nat, b: Key)
    requires Open(rt, rs, ctx, a) && i < |rs.flags[a].prerequisites| && rs.flags[a].prerequisites[i] == b
    requires OthersPass(rt, rs, ctx, a, i) && Open(rt, rs, ctx, b) && HasPrerequisites(rs, b)
    requires !P.Gate(View(rt, rs, ctx), rs.flags[b].prerequisites, MarkedBefore(rt, rs, ctx, a, i) + {b}).passed
    ensures PastGate(rt, rs, ctx, a) <==> FlagDefault(rt, rs, b) != Boolean(false)
  {
    hide Wins, Serve, PastGate;
    OnePrerequisiteDecides(rt, rs, ctx, a, i);
  }

  /** So is a prerequisite that lost its group. */
  lemma ExcludedPrerequisiteIsItsDefault(rt: Runtime, rs: Ruleset, ctx: EvalContext, a: Key, i: nat, b: Key)
    requires Open(rt, rs, ctx, a) && i < |rs.flags[a].prerequisites| && rs.flags[a].prerequisites[i] == b
    requires OthersPass(rt, rs, ctx, a, i)
    requires b in rs.flags && !Expired(rs.flags[b], rt.now) && Enabled(rs, b)
    requires rs.flags[b].mutualExclusionGroup != [] && !Wins(rs, rs.flags[b].mutualExclusionGroup, ctx.key, b)
    ensures PastGate(rt, rs, ctx, a) <==> FlagDefault(rt, rs, b) != Boolean(false)
  {
    hide Wins, Serve, PastGate;
    OnePrerequisiteDecides(rt, rs, ctx, a, i);
  }

  /** The flag is missing, expired, without state or switched off. */
  predicate Off(rt: Runtime, rs: Ruleset, key: Key) {
    key !in rs.flags || Expired(rs.flags[key], rt.now) || !Enabled(rs, key)
  }

  /**
   So a chain breaks exactly at the defaults: if b requires a flag that is off, its dependent a gets past
   its gate, although a requires that flag too, if and only if the default of b is not the boolean false.
   */
  lemma ChainBreaksAtDefault(rt: Runtime, rs: Ruleset, ctx: EvalContext, a: Key, i: nat, b: Key, j: nat)
    requires Open(rt, rs, ctx, a) && i < |rs.flags[a].prerequisites| && rs.flags[a].prerequisites[i] == b
    requires OthersPass(rt, rs, ctx, a, i)
    requires Open(rt, rs, ctx, b) && j < |rs.flags[b].prerequisites| && Off(rt, rs, rs.flags[b].prerequisites[j])
    ensures PastGate(rt, rs, ctx, a) <==> FlagDefault(rt, rs, b) != Boolean(false)
    ensures Requires(rs, a, [i, j], rs.flags[b].prerequisites[j])
  {
    hide Wins, Serve, OthersPass, MarkedBefore;
    var g, ps := View(rt, rs, ctx), rs.flags[b].prerequisites;
    forall visited | ps[j] !in visited
      ensures !P.On(P.Evaluate(g, ps[j], visited).result)
    {}
    OffStopsGate(g, ps, MarkedBefore(rt, rs, ctx, a, i) + {b}, j);
    FailedPrerequisiteIsItsDefault(rt, rs, ctx, a, i, b);
    assert [i, j][1..] == [j] && [j][1..] == [];
    assert Listed(rs, ps[j], []) == Some(ps[j]);
    assert Listed(rs, b, [j]) == Some(ps[j]);
  }

  lemma {:induction false} OffStopsGate(g: P.Graph, keys: seq<Key>, visited: set<Key>, i: nat)
    requires i < |keys|
    requires forall seen | keys[i] !in seen :: !P.On(P.Evaluate(g, keys[i], seen).result)
    ensures !P.Gate(g, keys, visited).passed
  {
    if i > 0 && keys[0] !in visited {
      OffStopsGate(g, keys[1..], P.Evaluate(g, keys[0], visited).visited, i - 1);
    }
  }

  /** A requires B, whose default is true; B requires C, which is disabled. */
  function DefaultOn(): Ruleset {
    Ruleset(map[A := FlagWith(FALSE, [B]), B := FlagWith(TRUE, [C]), C := FlagWith(FALSE, [])],
            map[A := StateWith(true), B := StateWith(true), C := StateWith(false)], map[])
  }

  /** Such a ruleset: A serves true although C, which it requires, is off. */
  lemma FailedPrerequisiteCountsAsOn(ctx: EvalContext)
    ensures Evaluated(PlainRuntime(), DefaultOn(), ctx, A) == TrueFor(A)
    ensures Requires(DefaultOn(), A, [0, 0], C) && Off(PlainRuntime(), DefaultOn(), C)
  {
    hide Serve, Wins, Bucket;
    var rt, rs := PlainRuntime(), DefaultOn();
    assert A != B && B != C && A != C;
    SeenAs(rs, ctx, A, FALSE, [B]);
    OrdinaryOthersPass(rt, rs, ctx, A, 0);
    ChainBreaksAtDefault(rt, rs, ctx, A, 0, B, 0);
    GateDecides(rt, rs, ctx, A);
  }
}
