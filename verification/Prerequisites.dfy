/**
 The prerequisite gate, on a graph. One evaluation of a ruleset for one user sees each flag either
 settled before its gate (expired, disabled, excluded) or gated by its prerequisites; the recursion
 over prerequisites, with its shared `visited` set, depends on nothing else.
 */
module Prerequisites {
  import opened Options
  import opened Domain

  datatype Node = Settled(result: EvalResult)
                | Gated(prereqs: seq<Key>, failed: EvalResult, served: EvalResult)

  type Graph = map<Key, Node>

  /** calls counts the invocations of the evaluator, this one included. */
  datatype Outcome = Outcome(result: EvalResult, visited: set<Key>, calls: nat)

  datatype GateOutcome = GateOutcome(passed: bool, visited: set<Key>, calls: nat)

  /** Whether a prerequisite with this result lets its dependent through. */
  predicate On(r: EvalResult) {
    !r.reason.ReasonNotFound? && !r.reason.ReasonDisabled? && r.value != Boolean(false)
  }

  function Missing(key: Key): EvalResult {
    Result(key, Nil, ReasonNotFound)
  }

  /** The evaluator: a flag with prerequisites is marked, and stays marked, before they are evaluated. */
  function Evaluate(g: Graph, key: Key, visited: set<Key>): (o: Outcome)
    requires key !in visited
    ensures visited <= o.visited
    decreases g.Keys - visited, 0
  {
    if key !in g then Outcome(Missing(key), visited, 1)
    else
      match g[key]
      case Settled(result) => Outcome(result, visited, 1)
      case Gated(prereqs, failed, served) =>
        if prereqs == [] then Outcome(served, visited, 1)
        else
          var gate := Gate(g, prereqs, visited + {key});
          Outcome(if gate.passed then served else failed, gate.visited, 1 + gate.calls)
  }

  function Gate(g: Graph, prereqs: seq<Key>, visited: set<Key>): (o: GateOutcome)
    ensures visited <= o.visited
    decreases g.Keys - visited, 1 + |prereqs|
  {
    if prereqs == [] then GateOutcome(true, visited, 0)
    else if prereqs[0] in visited then GateOutcome(false, visited, 0)
    else
      var first := Evaluate(g, prereqs[0], visited);
      if !On(first.result) then GateOutcome(false, first.visited, first.calls)
      else
        var rest := Gate(g, prereqs[1..], first.visited);
        GateOutcome(rest.passed, rest.visited, first.calls + rest.calls)
  }

  // ---------------------------------------------------------------------------
  // Paths
  // ---------------------------------------------------------------------------

  /** Has prerequisites that an evaluation may look at. */
  predicate Inner(g: Graph, key: Key) {
    key in g && g[key].Gated? && g[key].prereqs != []
  }

  /** The flag reached from key by taking, at each step, the prerequisite at the given position. */
  function Follow(g: Graph, key: Key, path: seq<nat>): Option<Key>
    decreases |path|
  {
    if path == [] then Some(key)
    else if Inner(g, key) && path[0] < |g[key].prereqs| then Follow(g, g[key].prereqs[path[0]], path[1..])
    else None
  }

  ghost predicate Reaches(g: Graph, key: Key, path: seq<nat>, target: Key) {
    Follow(g, key, path) == Some(target)
  }

  /** From the listed flags, each flag with prerequisites is reached along only one path. */
  ghost predicate Lone(g: Graph, keys: seq<Key>) {
    forall i, j, p, q, target |
        0 <= i < |keys| && 0 <= j < |keys| && Inner(g, target)
        && Reaches(g, keys[i], p, target) && Reaches(g, keys[j], q, target) ::
      i == j && p == q
  }

  /** No flag with prerequisites that is reached from the listed flags has been visited. */
  ghost predicate Fresh(g: Graph, keys: seq<Key>, visited: set<Key>) {
    forall i, p, target | 0 <= i < |keys| && Inner(g, target) && Reaches(g, keys[i], p, target) ::
      target !in visited
  }

  /** Everything reached from the listed flags exists, is open, and serves a value that is on. */
  ghost predicate AllServe(g: Graph, keys: seq<Key>) {
    forall i, p, target | 0 <= i < |keys| && Reaches(g, keys[i], p, target) :: Serves(g, target)
  }

  predicate Serves(g: Graph, key: Key) {
    key in g && g[key].Gated? && On(g[key].served)
  }

  /** A flag that is excluded or fails its gate does not count as on; without prerequisites none can fail. */
  ghost predicate DefaultsOff(g: Graph) {
    forall key | key in g :: match g[key]
                             case Settled(result) => !On(result)
                             case Gated(prereqs, failed, _) => prereqs == [] || !On(failed)
  }

  ghost predicate ReachedFrom(g: Graph, keys: seq<Key>, target: Key) {
    exists i, p :: 0 <= i < |keys| && Reaches(g, keys[i], p, target)
  }

  lemma StepInto(g: Graph, key: Key, i: nat, p: seq<nat>, target: Key)
    requires Inner(g, key) && i < |g[key].prereqs| && Reaches(g, g[key].prereqs[i], p, target)
    ensures Reaches(g, key, [i] + p, target)
  {
    assert ([i] + p)[1..] == p;
  }

  /** A flag's paths are the empty one and those through its prerequisites. */
  lemma LoneNode(g: Graph, key: Key)
    requires Inner(g, key)
    ensures Lone(g, [key]) <==> Lone(g, g[key].prereqs) && Fresh(g, g[key].prereqs, {key})
  {
    var ps := g[key].prereqs;
    if Lone(g, [key]) {
      assert Reaches(g, [key][0], [], key);
      forall i, j, p, q, t | 0 <= i < |ps| && 0 <= j < |ps| && Inner(g, t)
          && Reaches(g, ps[i], p, t) && Reaches(g, ps[j], q, t)
        ensures i == j && p == q && t != key
      {
        StepInto(g, key, i, p, t);
        StepInto(g, key, j, q, t);
        assert Reaches(g, [key][0], [i] + p, t) && Reaches(g, [key][0], [j] + q, t);
        assert [i] + p == [j] + q;
        assert ([i] + p)[0] == i && ([j] + q)[0] == j;
        assert ([i] + p)[1..] == p && ([j] + q)[1..] == q;
      }
    }
    if Lone(g, ps) && Fresh(g, ps, {key}) {
      forall i, j, p, q, t | 0 <= i < 1 && 0 <= j < 1 && Inner(g, t)
          && Reaches(g, [key][i], p, t) && Reaches(g, [key][j], q, t)
        ensures i == j && p == q
      {
        if p != [] {
          assert Reaches(g, ps[p[0]], p[1..], t);
        }
        if q != [] {
          assert Reaches(g, ps[q[0]], q[1..], t);
        }
        if p != [] && q != [] {
          assert p == [p[0]] + p[1..] && q == [q[0]] + q[1..];
        }
      }
    }
  }

  /** No flag with prerequisites is reached both from key and from the listed flags. */
  ghost predicate Apart(g: Graph, key: Key, keys: seq<Key>) {
    forall p, j, q, target | 0 <= j < |keys| && Inner(g, target) ::
      !(Reaches(g, key, p, target) && Reaches(g, keys[j], q, target))
  }

  lemma LoneCons(g: Graph, keys: seq<Key>)
    requires keys != []
    ensures Lone(g, keys) <==> Lone(g, [keys[0]]) && Lone(g, keys[1..]) && Apart(g, keys[0], keys[1..])
  {
    var rest := keys[1..];
    if Lone(g, keys) {
      forall i, j, p, q, t | 0 <= i < |rest| && 0 <= j < |rest| && Inner(g, t)
          && Reaches(g, rest[i], p, t) && Reaches(g, rest[j], q, t)
        ensures i == j && p == q
      {
        assert rest[i] == keys[i + 1] && rest[j] == keys[j + 1];
      }
      forall p, j, q, t | 0 <= j < |rest| && Inner(g, t)
        ensures !(Reaches(g, keys[0], p, t) && Reaches(g, rest[j], q, t))
      {
        assert rest[j] == keys[j + 1];
      }
    }
    if Lone(g, [keys[0]]) && Lone(g, rest) && Apart(g, keys[0], rest) {
      forall i, j, p, q, t | 0 <= i < |keys| && 0 <= j < |keys| && Inner(g, t)
          && Reaches(g, keys[i], p, t) && Reaches(g, keys[j], q, t)
        ensures i == j && p == q
      {
        if i > 0 {
          assert rest[i - 1] == keys[i];
        } else {
          assert Reaches(g, [keys[0]][0], p, t);
        }
        if j > 0 {
          assert rest[j - 1] == keys[j];
        } else {
          assert Reaches(g, [keys[0]][0], q, t);
        }
      }
    }
  }

  // ---------------------------------------------------------------------------
  // What it takes to pass the gate
  // ---------------------------------------------------------------------------

  /** Every flag with prerequisites that is reached from the listed flags has been visited. */
  ghost predicate Covers(g: Graph, keys: seq<Key>, visited: set<Key>) {
    forall i, p, target | 0 <= i < |keys| && Inner(g, target) && Reaches(g, keys[i], p, target) ::
      target in visited
  }

  lemma {:induction false} OnIsSound(g: Graph, key: Key, visited: set<Key>)
    requires DefaultsOff(g) && key !in visited && On(Evaluate(g, key, visited).result)
    ensures AllServe(g, [key]) && Lone(g, [key]) && Fresh(g, [key], visited)
    ensures Covers(g, [key], Evaluate(g, key, visited).visited)
    decreases g.Keys - visited, 0
  {
    assert key in g && g[key].Gated?;
    if Inner(g, key) {
      var ps := g[key].prereqs;
      PassingIsSound(g, ps, visited + {key});
      LoneNode(g, key);
      forall p, target | Reaches(g, key, p, target) && p != []
        ensures Serves(g, target)
        ensures Inner(g, target) ==> target !in visited && target in Evaluate(g, key, visited).visited
      {
        assert Reaches(g, ps[p[0]], p[1..], target);
      }
    }
  }

  lemma {:induction false} PassingIsSound(g: Graph, keys: seq<Key>, visited: set<Key>)
    requires DefaultsOff(g) && Gate(g, keys, visited).passed
    ensures AllServe(g, keys) && Lone(g, keys) && Fresh(g, keys, visited)
    ensures Covers(g, keys, Gate(g, keys, visited).visited)
    decreases g.Keys - visited, 1 + |keys|
  {
    if keys != [] {
      var first, rest := Evaluate(g, keys[0], visited), keys[1..];
      OnIsSound(g, keys[0], visited);
      PassingIsSound(g, rest, first.visited);
      LoneCons(g, keys);
      forall i, p, target | 0 <= i < |keys| && Reaches(g, keys[i], p, target)
        ensures Serves(g, target)
        ensures Inner(g, target) ==> target !in visited && target in Gate(g, keys, visited).visited
      {
        if i == 0 {
          assert Reaches(g, [keys[0]][0], p, target);
        } else {
          assert rest[i - 1] == keys[i];
        }
      }
      forall p, j, q, target | 0 <= j < |rest| && Inner(g, target)
        ensures !(Reaches(g, keys[0], p, target) && Reaches(g, rest[j], q, target))
      {
        assert Reaches(g, keys[0], p, target) ==> Reaches(g, [keys[0]][0], p, target);
      }
    }
  }

  // ---------------------------------------------------------------------------
  // Plain recursion
  // ---------------------------------------------------------------------------

  /** The recursion without `visited`, to a bounded depth; None when the bound is reached. */
  function Plain(g: Graph, key: Key, depth: nat): Option<EvalResult>
    decreases depth, 0
  {
    if depth == 0 then None
    else if key !in g then Some(Missing(key))
    else
      match g[key]
      case Settled(result) => Some(result)
      case Gated(prereqs, failed, served) =>
        match PlainGate(g, prereqs, depth - 1)
        case None => None
        case Some(passed) => Some(if passed then served else failed)
  }

  function PlainGate(g: Graph, keys: seq<Key>, depth: nat): Option<bool>
    decreases depth, 1 + |keys|
  {
    if keys == [] then Some(true)
    else
      match Plain(g, keys[0], depth)
      case None => None
      case Some(r) => if On(r) then PlainGate(g, keys[1..], depth) else Some(false)
  }

  /** Plain recursion from key comes to an end with result r. */
  ghost predicate PlainReturns(g: Graph, key: Key, r: EvalResult) {
    exists depth: nat :: Plain(g, key, depth) == Some(r)
  }

  lemma {:induction false} PlainIsStable(g: Graph, key: Key, d: nat, e: nat)
    requires d <= e && Plain(g, key, d).Some?
    ensures Plain(g, key, e) == Plain(g, key, d)
    decreases d, 0
  {
    if key in g && g[key].Gated? {
      PlainGateIsStable(g, g[key].prereqs, d - 1, e - 1);
    }
  }

  lemma {:induction false} PlainGateIsStable(g: Graph, keys: seq<Key>, d: nat, e: nat)
    requires d <= e && PlainGate(g, keys, d).Some?
    ensures PlainGate(g, keys, e) == PlainGate(g, keys, d)
    decreases d, 1 + |keys|
  {
    if keys != [] {
      PlainIsStable(g, keys[0], d, e);
      if On(Plain(g, keys[0], d).value) {
        PlainGateIsStable(g, keys[1..], d, e);
      }
    }
  }

  /** Only flags with prerequisites have been marked, and only ones reached from the listed flags. */
  ghost predicate MarksWithin(g: Graph, keys: seq<Key>, before: set<Key>, after: set<Key>) {
    forall target | target in after && target !in before :: Inner(g, target) && ReachedFrom(g, keys, target)
  }

  ghost predicate InnerOnly(g: Graph, visited: set<Key>) {
    forall key | key in visited :: Inner(g, key)
  }

  lemma {:induction false} LoneIsPlain(g: Graph, key: Key, visited: set<Key>) returns (depth: nat)
    requires key !in visited && InnerOnly(g, visited) && Lone(g, [key]) && Fresh(g, [key], visited)
    ensures Plain(g, key, depth) == Some(Evaluate(g, key, visited).result)
    ensures MarksWithin(g, [key], visited, Evaluate(g, key, visited).visited)
    decreases g.Keys - visited, 0
  {
    depth := 1;
    if Inner(g, key) {
      var ps := g[key].prereqs;
      LoneNode(g, key);
      assert Reaches(g, [key][0], [], key);
      forall i, p, target | 0 <= i < |ps| && Inner(g, target) && Reaches(g, ps[i], p, target)
        ensures Reaches(g, [key][0], [i] + p, target) && target !in visited + {key}
      {
        StepInto(g, key, i, p, target);
      }
      var d := LoneGateIsPlain(g, ps, visited + {key});
      depth := d + 1;
    }
  }

  lemma {:induction false} LoneGateIsPlain(g: Graph, keys: seq<Key>, visited: set<Key>) returns (depth: nat)
    requires InnerOnly(g, visited) && Lone(g, keys) && Fresh(g, keys, visited)
    ensures PlainGate(g, keys, depth) == Some(Gate(g, keys, visited).passed)
    ensures MarksWithin(g, keys, visited, Gate(g, keys, visited).visited)
    decreases g.Keys - visited, 1 + |keys|
  {
    depth := 0;
    if keys != [] {
      var rest := keys[1..];
      LoneCons(g, keys);
      assert Reaches(g, keys[0], [], keys[0]);
      assert keys[0] !in visited;
      var first := Evaluate(g, keys[0], visited);
      var d := LoneIsPlain(g, keys[0], visited);
      forall target | target in first.visited && target !in visited
        ensures exists p :: Reaches(g, keys[0], p, target)
      {
        assert ReachedFrom(g, [keys[0]], target);
      }
      depth := d;
      if On(first.result) {
        forall i, p, target | 0 <= i < |rest| && Inner(g, target) && Reaches(g, rest[i], p, target)
          ensures target !in first.visited
        {
          assert rest[i] == keys[i + 1];
        }
        var e := LoneGateIsPlain(g, rest, first.visited);
        depth := if d < e then e else d;
        PlainIsStable(g, keys[0], d, depth);
        PlainGateIsStable(g, rest, e, depth);
        forall target | target in Gate(g, rest, first.visited).visited && target !in first.visited
          ensures ReachedFrom(g, keys, target)
        {
          var i, p :| 0 <= i < |rest| && Reaches(g, rest[i], p, target);
          assert Reaches(g, keys[i + 1], p, target);
        }
      }
    }
  }

  lemma {:induction false} PlainServes(g: Graph, key: Key, depth: nat)
    requires AllServe(g, [key]) && Plain(g, key, depth).Some?
    ensures On(Plain(g, key, depth).value)
    decreases depth, 0
  {
    assert Reaches(g, [key][0], [], key);
    var ps := g[key].prereqs;
    forall i, p, target | 0 <= i < |ps| && Reaches(g, ps[i], p, target)
      ensures Serves(g, target)
    {
      StepInto(g, key, i, p, target);
      assert Reaches(g, [key][0], [i] + p, target);
    }
    PlainGateServes(g, ps, depth - 1);
  }

  lemma {:induction false} PlainGateServes(g: Graph, keys: seq<Key>, depth: nat)
    requires AllServe(g, keys) && PlainGate(g, keys, depth).Some?
    ensures PlainGate(g, keys, depth) == Some(true)
    decreases depth, 1 + |keys|
  {
    if keys != [] {
      assert AllServe(g, [keys[0]]) by {
        assert forall p, target :: Reaches(g, [keys[0]][0], p, target) ==> Reaches(g, keys[0], p, target);
      }
      PlainServes(g, keys[0], depth);
      forall i, p, target | 0 <= i < |keys[1..]| && Reaches(g, keys[1..][i], p, target)
        ensures Serves(g, target)
      {
        assert Reaches(g, keys[i + 1], p, target);
      }
      PlainGateServes(g, keys[1..], depth);
    }
  }

  // ---------------------------------------------------------------------------
  // Theorems about the gate
  // ---------------------------------------------------------------------------

  /**
   With defaults off, the whole recursion has a declarative meaning: a flag is on for its dependents
   exactly when it and everything it reaches serve a value that is on, and no flag with prerequisites
   is reached along two paths.
   */
  lemma OnExactly(g: Graph, key: Key)
    requires DefaultsOff(g)
    ensures On(Evaluate(g, key, {}).result) <==> AllServe(g, [key]) && Lone(g, [key])
  {
    if On(Evaluate(g, key, {}).result) {
      OnIsSound(g, key, {});
    }
    if AllServe(g, [key]) && Lone(g, [key]) {
      var depth := LoneIsPlain(g, key, {});
      PlainServes(g, key, depth);
    }
  }

  /** The same for getting past the gate, where the flag's own value does not matter. */
  lemma GatePassesExactly(g: Graph, key: Key)
    requires DefaultsOff(g) && Inner(g, key)
    ensures Gate(g, g[key].prereqs, {key}).passed <==> AllServe(g, g[key].prereqs) && Lone(g, [key])
  {
    var ps := g[key].prereqs;
    LoneNode(g, key);
    if Gate(g, ps, {key}).passed {
      PassingIsSound(g, ps, {key});
    }
    if AllServe(g, ps) && Lone(g, [key]) {
      var depth := LoneGateIsPlain(g, ps, {key});
      PlainGateServes(g, ps, depth);
    }
  }

  /** The same in terms of paths from the flag itself, for a flag with or without prerequisites. */
  lemma GatePassesByPaths(g: Graph, key: Key)
    requires DefaultsOff(g) && key in g && g[key].Gated?
    ensures Gate(g, g[key].prereqs, {key}).passed <==>
              && (forall path, target | path != [] && Reaches(g, key, path, target) :: Serves(g, target))
              && Lone(g, [key])
  {
    if Inner(g, key) {
      GatePassesExactly(g, key);
      PrerequisitesAreReached(g, key);
    }
  }

  /** The flags reached from a flag's prerequisites are those reached from it by at least one step. */
  lemma PrerequisitesAreReached(g: Graph, key: Key)
    requires Inner(g, key)
    ensures AllServe(g, g[key].prereqs) <==>
              forall path, target | path != [] && Reaches(g, key, path, target) :: Serves(g, target)
  {
    var ps := g[key].prereqs;
    forall i, p, target | 0 <= i < |ps| && Reaches(g, ps[i], p, target)
      ensures [i] + p != [] && Reaches(g, key, [i] + p, target)
    {
      StepInto(g, key, i, p, target);
    }
    assert forall path, target | path != [] && Reaches(g, key, path, target) ::
      0 <= path[0] < |ps| && Reaches(g, ps[path[0]], path[1..], target);
  }

  lemma {:induction false} PathsCompose(g: Graph, key: Key, p: seq<nat>, middle: Key, q: seq<nat>, target: Key)
    requires Reaches(g, key, p, middle) && Reaches(g, middle, q, target)
    ensures Reaches(g, key, p + q, target)
    decreases |p|
  {
    if p == [] {
      assert p + q == q;
    } else {
      PathsCompose(g, g[key].prereqs[p[0]], p[1..], middle, q, target);
      assert (p + q)[1..] == p[1..] + q;
    }
  }

  /** Past the gate, every transitive prerequisite is on when evaluated on its own. */
  lemma TransitivePrerequisitesAreOn(g: Graph, key: Key, path: seq<nat>, target: Key)
    requires DefaultsOff(g) && Inner(g, key) && Gate(g, g[key].prereqs, {key}).passed
    requires path != [] && Reaches(g, key, path, target)
    ensures On(Evaluate(g, target, {}).result)
  {
    GatePassesExactly(g, key);
    var ps := g[key].prereqs;
    forall q, u | Reaches(g, [target][0], q, u)
      ensures Serves(g, u)
    {
      PathsCompose(g, ps[path[0]], path[1..], target, q, u);
    }
    forall q, r, u | Inner(g, u) && Reaches(g, [target][0], q, u) && Reaches(g, [target][0], r, u)
      ensures q == r
    {
      PathsCompose(g, key, path, target, q, u);
      PathsCompose(g, key, path, target, r, u);
      assert Reaches(g, [key][0], path + q, u) && Reaches(g, [key][0], path + r, u);
      assert path + q == path + r;
      assert q == (path + q)[|path|..] && r == (path + r)[|path|..];
    }
    OnExactly(g, target);
  }

  /** A flag that lies on a prerequisite cycle, or reaches one, never gets past its gate. */
  lemma CyclesNeverPass(g: Graph, key: Key, path: seq<nat>, onCycle: Key, cycle: seq<nat>)
    requires DefaultsOff(g)
    requires Reaches(g, key, path, onCycle)
    requires cycle != [] && Reaches(g, onCycle, cycle, onCycle)
    ensures Inner(g, key) && !Gate(g, g[key].prereqs, {key}).passed
  {
    assert Inner(g, onCycle);
    PathsCompose(g, key, path, onCycle, cycle, onCycle);
    assert Reaches(g, [key][0], path, onCycle) && Reaches(g, [key][0], path + cycle, onCycle);
    assert |path + cycle| > |path|;
    GatePassesExactly(g, key);
  }

  /** Where paths are unique, sharing `visited` changes nothing: plain recursion returns the same. */
  lemma LoneMeansPlain(g: Graph, key: Key)
    requires Lone(g, [key])
    ensures PlainReturns(g, key, Evaluate(g, key, {}).result)
  {
    var depth := LoneIsPlain(g, key, {});
  }

  /** If everything served is on, it is also the only case in which the two agree. */
  lemma PlainExactlyWhenLone(g: Graph, key: Key)
    requires DefaultsOff(g) && AllServe(g, [key])
    ensures PlainReturns(g, key, Evaluate(g, key, {}).result) <==> Lone(g, [key])
  {
    if PlainReturns(g, key, Evaluate(g, key, {}).result) {
      var depth :| Plain(g, key, depth) == Some(Evaluate(g, key, {}).result);
      PlainServes(g, key, depth);
      OnIsSound(g, key, {});
    }
    if Lone(g, [key]) {
      LoneMeansPlain(g, key);
    }
  }

  lemma {:induction false} PlainOnMeansServing(g: Graph, key: Key, depth: nat)
    requires DefaultsOff(g) && Plain(g, key, depth).Some? && On(Plain(g, key, depth).value)
    ensures AllServe(g, [key])
    decreases depth, 0
  {
    assert key in g && g[key].Gated?;
    var ps := g[key].prereqs;
    PlainGatePassesMeansServing(g, ps, depth - 1);
    forall p, target | Reaches(g, [key][0], p, target)
      ensures Serves(g, target)
    {
      if p != [] {
        assert Reaches(g, ps[p[0]], p[1..], target);
      }
    }
  }

  lemma {:induction false} PlainGatePassesMeansServing(g: Graph, keys: seq<Key>, depth: nat)
    requires DefaultsOff(g) && PlainGate(g, keys, depth) == Some(true)
    ensures AllServe(g, keys)
    decreases depth, 1 + |keys|
  {
    if keys != [] {
      PlainOnMeansServing(g, keys[0], depth);
      PlainGatePassesMeansServing(g, keys[1..], depth);
      forall i, p, target | 0 <= i < |keys| && Reaches(g, keys[i], p, target)
        ensures Serves(g, target)
      {
        if i > 0 {
          assert keys[i] == keys[1..][i - 1];
        } else {
          assert Reaches(g, [keys[0]][0], p, target);
        }
      }
    }
  }

  /**
   With defaults off, whenever plain recursion comes to an end the two agree exactly if not everything
   required serves on, or paths are unique, or passing and failing look the same.
   */
  lemma PlainAgreesExactly(g: Graph, key: Key, r: EvalResult)
    requires DefaultsOff(g) && PlainReturns(g, key, r)
    ensures Evaluate(g, key, {}).result == r <==>
              (Inner(g, key) ==> (AllServe(g, g[key].prereqs) ==> Lone(g, [key])) || g[key].failed == g[key].served)
  {
    var depth: nat :| Plain(g, key, depth) == Some(r);
    assert depth > 0;
    if !Inner(g, key) {
      if key in g && g[key].Gated? {
        assert PlainGate(g, g[key].prereqs, depth - 1) == Some(true);
      }
    } else {
      hide Lone, AllServe, DefaultsOff, Gate, PlainGate;
      var passed := PlainGate(g, g[key].prereqs, depth - 1);
      assert passed.Some? && r == if passed.value then g[key].served else g[key].failed;
      assert {} + {key} == {key};
      GatePassesExactly(g, key);
      PlainGateExactly(g, g[key].prereqs, depth - 1);
    }
  }

  lemma PlainGateExactly(g: Graph, keys: seq<Key>, depth: nat)
    requires DefaultsOff(g) && PlainGate(g, keys, depth).Some?
    ensures PlainGate(g, keys, depth).value <==> AllServe(g, keys)
  {
    if AllServe(g, keys) {
      PlainGateServes(g, keys, depth);
    }
    if PlainGate(g, keys, depth).value {
      PlainGatePassesMeansServing(g, keys, depth);
    }
  }

  /** With defaults off, sharing `visited` never turns on a flag that plain recursion leaves off. */
  lemma SharingOnlyTurnsOff(g: Graph, key: Key)
    requires DefaultsOff(g) && On(Evaluate(g, key, {}).result)
    ensures PlainReturns(g, key, Evaluate(g, key, {}).result)
  {
    OnIsSound(g, key, {});
    LoneMeansPlain(g, key);
  }

  /** Whatever the defaults, a list that passes has marked its members with prerequisites, and repeats none. */
  lemma {:induction false} PassingListsAreDistinct(g: Graph, keys: seq<Key>, visited: set<Key>)
    requires Gate(g, keys, visited).passed
    ensures forall i | 0 <= i < |keys| :: keys[i] !in visited
    ensures forall i, j | 0 <= i < j < |keys| && Inner(g, keys[i]) :: keys[i] != keys[j]
    decreases |keys|
  {
    if keys != [] {
      PassingListsAreDistinct(g, keys[1..], Evaluate(g, keys[0], visited).visited);
    }
  }

  // ---------------------------------------------------------------------------
  // One member of a list
  // ---------------------------------------------------------------------------

  /** A list passes if its front does, and then its back does from what the front has marked. */
  lemma {:induction false} GateSplits(g: Graph, front: seq<Key>, back: seq<Key>, visited: set<Key>)
    ensures Gate(g, front + back, visited).passed <==>
              Gate(g, front, visited).passed && Gate(g, back, Gate(g, front, visited).visited).passed
    decreases |front|
  {
    if front == [] {
      assert front + back == back;
    } else {
      assert (front + back)[1..] == front[1..] + back;
      if front[0] !in visited {
        GateSplits(g, front[1..], back, Evaluate(g, front[0], visited).visited);
      }
    }
  }

  /** Without prerequisites of its own and serving on: the gate sees no more of it than that. */
  predicate OnLeaf(g: Graph, key: Key) {
    Serves(g, key) && g[key].prereqs == []
  }

  lemma {:induction false} LeavesPass(g: Graph, keys: seq<Key>, visited: set<Key>)
    requires forall key | key in keys :: OnLeaf(g, key) && key !in visited
    ensures Gate(g, keys, visited).passed && Gate(g, keys, visited).visited == visited
    decreases |keys|
  {
    if keys != [] {
      LeavesPass(g, keys[1..], visited);
    }
  }

  /** Only flags with prerequisites are ever marked. */
  lemma {:induction false} MarksAreInner(g: Graph, key: Key, visited: set<Key>)
    requires key !in visited
    ensures forall k | k in Evaluate(g, key, visited).visited && k !in visited :: Inner(g, k)
    decreases g.Keys - visited, 0
  {
    if Inner(g, key) {
      GateMarksAreInner(g, g[key].prereqs, visited + {key});
    }
  }

  lemma {:induction false} GateMarksAreInner(g: Graph, keys: seq<Key>, visited: set<Key>)
    ensures forall k | k in Gate(g, keys, visited).visited && k !in visited :: Inner(g, k)
    decreases g.Keys - visited, 1 + |keys|
  {
    if keys != [] && keys[0] !in visited {
      MarksAreInner(g, keys[0], visited);
      var first := Evaluate(g, keys[0], visited);
      if On(first.result) {
        GateMarksAreInner(g, keys[1..], first.visited);
      }
    }
  }

  lemma LeafIsNotInner(g: Graph, key: Key)
    requires OnLeaf(g, key)
    ensures !Inner(g, key)
  {}

  lemma LeavesAroundPass(g: Graph, keys: seq<Key>, i: nat, root: Key)
    requires i < |keys| && keys[i] != root
    requires forall j | 0 <= j < |keys| && j != i :: OnLeaf(g, keys[j]) && keys[j] != root
    ensures Gate(g, keys[..i], {root}).passed && Gate(g, keys[..i], {root}).visited == {root}
    ensures Gate(g, keys[i + 1..], Evaluate(g, keys[i], {root}).visited).passed
  {
    hide OnLeaf, Inner, Gate, Evaluate;
    LeavesPass(g, keys[..i], {root});
    var after := Evaluate(g, keys[i], {root}).visited;
    MarksAreInner(g, keys[i], {root});
    forall k | k in keys[i + 1..]
      ensures OnLeaf(g, k) && k !in after
    {
      LeafIsNotInner(g, k);
    }
    LeavesPass(g, keys[i + 1..], after);
  }

  // ---------------------------------------------------------------------------
  // Cost
  // ---------------------------------------------------------------------------

  function PrereqCount(g: Graph, key: Key): nat {
    if Inner(g, key) then |g[key].prereqs| else 0
  }

  /** The total length of the prerequisite lists of a set of flags. */
  ghost function Edges(g: Graph, keys: set<Key>): nat {
    if keys == {} then 0
    else
      var key :| key in keys;
      PrereqCount(g, key) + Edges(g, keys - {key})
  }

  lemma {:induction false} EdgesRemove(g: Graph, keys: set<Key>, key: Key)
    requires key in keys
    ensures Edges(g, keys) == PrereqCount(g, key) + Edges(g, keys - {key})
  {
    var first :| first in keys && Edges(g, keys) == PrereqCount(g, first) + Edges(g, keys - {first});
    if first != key {
      EdgesRemove(g, keys - {first}, key);
      EdgesRemove(g, keys - {key}, first);
      assert keys - {first} - {key} == keys - {key} - {first};
    }
  }

  lemma {:induction false} EdgesUnion(g: Graph, a: set<Key>, b: set<Key>)
    requires a !! b
    ensures Edges(g, a + b) == Edges(g, a) + Edges(g, b)
  {
    if a == {} {
      assert a + b == b;
    } else {
      var key :| key in a;
      EdgesRemove(g, a, key);
      EdgesRemove(g, a + b, key);
      assert a + b - {key} == (a - {key}) + b;
      EdgesUnion(g, a - {key}, b);
    }
  }

  lemma {:induction false} CallsBounded(g: Graph, key: Key, visited: set<Key>)
    requires key !in visited
    ensures var o := Evaluate(g, key, visited);
            o.calls <= 1 + Edges(g, o.visited - visited)
    ensures Evaluate(g, key, visited).visited <= visited + g.Keys
    decreases g.Keys - visited, 0
  {
    if Inner(g, key) {
      var marked := visited + {key};
      var o := Gate(g, g[key].prereqs, marked);
      GateCallsBounded(g, g[key].prereqs, marked);
      assert key in o.visited - visited;
      EdgesRemove(g, o.visited - visited, key);
      assert o.visited - visited - {key} == o.visited - marked;
    }
  }

  lemma {:induction false} GateCallsBounded(g: Graph, keys: seq<Key>, visited: set<Key>)
    ensures var o := Gate(g, keys, visited);
            o.calls <= |keys| + Edges(g, o.visited - visited)
    ensures Gate(g, keys, visited).visited <= visited + g.Keys
    decreases g.Keys - visited, 1 + |keys|
  {
    if keys != [] && keys[0] !in visited {
      var first := Evaluate(g, keys[0], visited);
      CallsBounded(g, keys[0], visited);
      if On(first.result) {
        var rest := Gate(g, keys[1..], first.visited);
        GateCallsBounded(g, keys[1..], first.visited);
        EdgesUnion(g, first.visited - visited, rest.visited - first.visited);
        assert rest.visited - visited == (first.visited - visited) + (rest.visited - first.visited);
      }
    }
  }

  /** On every graph, cyclic ones included, each prerequisite list is walked at most once. */
  lemma EvaluationCost(g: Graph, key: Key)
    ensures Evaluate(g, key, {}).calls <= 1 + Edges(g, g.Keys)
  {
    CallsBounded(g, key, {});
    var o := Evaluate(g, key, {});
    EdgesUnion(g, o.visited, g.Keys - o.visited);
    assert o.visited - {} == o.visited;
    assert g.Keys == o.visited + (g.Keys - o.visited);
  }

  // ---------------------------------------------------------------------------
  // Locality
  // ---------------------------------------------------------------------------

  /** A set of flags that contains the prerequisites of its members. */
  ghost predicate Closed(g: Graph, keys: set<Key>) {
    forall key, i | key in keys && Inner(g, key) && 0 <= i < |g[key].prereqs| :: g[key].prereqs[i] in keys
  }

  ghost predicate AgreeOn(g: Graph, h: Graph, keys: set<Key>) {
    forall key | key in keys :: (key in g <==> key in h) && (key in g ==> g[key] == h[key])
  }

  lemma {:induction false} EvaluateIsLocal(g: Graph, h: Graph, keys: set<Key>, key: Key, visited: set<Key>)
    requires Closed(g, keys) && AgreeOn(g, h, keys) && key in keys && key !in visited
    ensures Evaluate(g, key, visited) == Evaluate(h, key, visited)
    decreases g.Keys - visited, 0
  {
    if Inner(g, key) {
      GateIsLocal(g, h, keys, g[key].prereqs, visited + {key});
    }
  }

  lemma {:induction false} GateIsLocal(g: Graph, h: Graph, keys: set<Key>, list: seq<Key>, visited: set<Key>)
    requires Closed(g, keys) && AgreeOn(g, h, keys) && forall i | 0 <= i < |list| :: list[i] in keys
    ensures Gate(g, list, visited) == Gate(h, list, visited)
    decreases g.Keys - visited, 1 + |list|
  {
    if list != [] && list[0] !in visited {
      EvaluateIsLocal(g, h, keys, list[0], visited);
      if On(Evaluate(g, list[0], visited).result) {
        GateIsLocal(g, h, keys, list[1..], Evaluate(g, list[0], visited).visited);
      }
    }
  }

  /** A flag that has been visited is not looked at again, so what it would answer has no influence. */
  ghost predicate AgreeOutside(g: Graph, h: Graph, visited: set<Key>) {
    forall key | key !in visited :: (key in g <==> key in h) && (key in g ==> g[key] == h[key])
  }

  lemma {:induction false} EvaluateIgnoresVisited(g: Graph, h: Graph, key: Key, visited: set<Key>)
    requires AgreeOutside(g, h, visited) && key !in visited
    ensures Evaluate(g, key, visited) == Evaluate(h, key, visited)
    decreases g.Keys - visited, 0
  {
    if Inner(g, key) {
      GateIgnoresVisited(g, h, g[key].prereqs, visited + {key});
    }
  }

  lemma {:induction false} GateIgnoresVisited(g: Graph, h: Graph, keys: seq<Key>, visited: set<Key>)
    requires AgreeOutside(g, h, visited)
    ensures Gate(g, keys, visited) == Gate(h, keys, visited)
    decreases g.Keys - visited, 1 + |keys|
  {
    if keys != [] && keys[0] !in visited {
      EvaluateIgnoresVisited(g, h, keys[0], visited);
      GateIgnoresVisited(g, h, keys[1..], Evaluate(g, keys[0], visited).visited);
    }
  }
}
