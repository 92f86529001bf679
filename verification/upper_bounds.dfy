/**
 * The upper bound of every feature of a rule: how often a serialized object
 * may assign the feature. Kept components that contain a state assigning the
 * feature make it unbounded; every other feature gets the longest-path count
 * from the start state, computed depth-first with one memo per feature and
 * with every kept component treated as a single node.
 *
 * The computation is written once, over an `Arith` record of the four
 * integer operations it uses (`0`, `MAX`, adding the increment and
 * `Math.max`). Two records instantiate it: `Saturating`, where `MAX` absorbs
 * every addition, and the 32-bit integers of the original, defined in
 * `JavaIntBounds`.
 */
module UpperBounds {
  import opened StateGraph
  import opened Tarjan
  import opened TarjanProof

  /** A bound on the number of assignments: a number, or no bound at all. */
  datatype Bound = Finite(n: nat) | Max

  /** Adds `k` to a bound; no bound stays no bound. */
  function Plus(b: Bound, k: nat): Bound {
    match b
    case Max => Max
    case Finite(n) => Finite(n + k)
  }

  /** The larger of two bounds. */
  function MaxB(a: Bound, b: Bound): Bound {
    match a
    case Max => Max
    case Finite(x) =>
      match b
      case Max => Max
      case Finite(y) => Finite(if x >= y then x else y)
  }

  /** The operations the computation performs on distances: the start value
      `0`, the marker `MAX`, adding an increment, and `Math.max`. */
  datatype Arith<!T> = Arith(zero: T, top: T, add: (T, nat) -> T, max: (T, T) -> T)

  /** Distances that cannot overflow: `MAX` absorbs every addition. */
  const Saturating: Arith<Bound> := Arith(Finite(0), Max, Plus, MaxB)

  /** What `computeComponents` returns: exactly the reachable states whose
      component has at least two states are mapped, each to its component,
      and all states of a component to the same sequence. */
  ghost predicate ValidComponents(g: Nfa, cycles: map<nat, seq<nat>>) {
    && (forall u :: u in cycles <==> Reach(g, g.start, u) && |Scc(g, u)| >= 2)
    && (forall u | u in cycles :: SetOf(cycles[u]) == Scc(g, u))
    && (forall u, x | u in cycles && x in cycles[u] :: x in cycles && cycles[x] == cycles[u])
  }

  /** `cycle` is one of the components of the map, represented by its first
      state. */
  ghost predicate IsCycle(cycles: map<nat, seq<nat>>, cycle: seq<nat>) {
    cycle != [] && cycle[0] in cycles && cycles[cycle[0]] == cycle
  }

  /** The increment of a state: one when it assigns the feature. */
  function Increment(g: Nfa, f: int, u: nat): nat
    requires u < |g.featureIds|
  {
    if g.featureIds[u] == f then 1 else 0
  }

  /** Stores `d` for every state of the component. */
  function Remember<T>(memo: map<nat, T>, cycle: seq<nat>, d: T): (r: map<nat, T>)
    ensures r.Keys == memo.Keys + SetOf(cycle)
    ensures forall x | x in cycle :: r[x] == d
    ensures forall x | x in memo && x !in cycle :: r[x] == memo[x]
  {
    memo + map x | x in cycle :: d
  }

  // ---------------------------------------------------------------------------
  // Why the search terminates
  // ---------------------------------------------------------------------------

  lemma SubsetCard(a: set<nat>, b: set<nat>)
    requires a <= b
    ensures |a| <= |b| && (a < b ==> |a| < |b|)
  {
    assert b == a + (b - a);
    assert a * (b - a) == {};
    if a < b {
      var x :| x in b && x !in a;
      assert x in b - a;
    }
  }

  /** The states of a kept component are states, the component is not empty,
      holds `u`, and its first state reaches what `u` reaches. */
  lemma CycleFacts(g: Nfa, cycles: map<nat, seq<nat>>, u: nat)
    requires WellFormed(g) && ValidComponents(g, cycles) && u in cycles
    ensures IsCycle(cycles, cycles[u]) && u in cycles[u]
    ensures ReachSet(g, cycles[u][0]) == ReachSet(g, u)
    ensures forall x | x in cycles[u] :: x < Size(g)
  {
    var cycle := cycles[u];
    assert Reach(g, g.start, u);
    ReachInRange(g, g.start, u);
    SccSelf(g, u);
    assert u in SetOf(cycle);
    var c := cycle[0];
    assert c in SetOf(cycle);
    assert c in Scc(g, u);
    forall v | v in ReachSet(g, c)
      ensures v in ReachSet(g, u)
    {
      ReachTrans(g, u, c, v);
    }
    forall v | v in ReachSet(g, u)
      ensures v in ReachSet(g, c)
    {
      ReachTrans(g, c, u, v);
    }
    forall x | x in cycle
      ensures x < Size(g)
    {
      assert x in SetOf(cycle);
    }
  }

  /** The states of a component are states. */
  lemma CycleMembers(g: Nfa, cycles: map<nat, seq<nat>>, cycle: seq<nat>, x: nat)
    requires WellFormed(g) && ValidComponents(g, cycles) && IsCycle(cycles, cycle) && x in cycle
    ensures x < Size(g) && x in Scc(g, cycle[0])
  {
    assert x in SetOf(cycles[cycle[0]]);
  }

  /** A follower outside a kept component cannot reach back into it. */
  lemma ExitShrinks(g: Nfa, cycles: map<nat, seq<nat>>, cycle: seq<nat>, x: nat, w: nat)
    requires WellFormed(g) && ValidComponents(g, cycles) && IsCycle(cycles, cycle)
    requires x in cycle && Edge(g, x, w) && w !in cycle
    ensures Reach(g, g.start, w) && |ReachSet(g, w)| < |ReachSet(g, cycle[0])|
  {
    var c := cycle[0];
    CycleMembers(g, cycles, cycle, x);
    ReachInRange(g, g.start, c);
    ReachEdge(g, x, w);
    ReachTrans(g, c, x, w);
    ReachTrans(g, g.start, c, w);
    assert w < Size(g);
    assert Reach(g, w, c) ==> w in SetOf(cycle);
    ReachSetShrinks(g, c, w);
    SubsetCard(ReachSet(g, w), ReachSet(g, c));
  }

  /** Two different states that reach each other make a component of at
      least two states. */
  lemma SccPair(g: Nfa, u: nat, w: nat)
    requires u < Size(g) && w < Size(g) && u != w
    ensures SameScc(g, u, w) ==> |Scc(g, u)| >= 2
  {
    if SameScc(g, u, w) {
      SccSelf(g, u);
      SubsetCard({u, w}, Scc(g, u));
    }
  }

  /** A follower of a state outside every kept component, other than the
      state itself, cannot reach back to it. */
  lemma StepShrinks(g: Nfa, cycles: map<nat, seq<nat>>, u: nat, w: nat)
    requires WellFormed(g) && ValidComponents(g, cycles) && Reach(g, g.start, u) && u !in cycles
    requires Edge(g, u, w) && w != u
    ensures Reach(g, g.start, w) && |ReachSet(g, w)| < |ReachSet(g, u)|
  {
    ReachInRange(g, g.start, u);
    ReachEdge(g, u, w);
    ReachTrans(g, g.start, u, w);
    SccSelf(g, u);
    SccPair(g, u, w);
    ReachSetShrinks(g, u, w);
    SubsetCard(ReachSet(g, w), ReachSet(g, u));
  }

  // ---------------------------------------------------------------------------
  // The computation
  // ---------------------------------------------------------------------------

  /** `computeUpperBound(featureId, node, cycles, computedDistances)`: the
      distance of `u` for feature `f`, and the memo after the call. */
  function UpperBound<T>(a: Arith<T>, g: Nfa, f: int, u: nat, cycles: map<nat, seq<nat>>, memo: map<nat, T>)
    : (r: (T, map<nat, T>))
    requires WellFormed(g) && ValidComponents(g, cycles) && Reach(g, g.start, u)
    ensures memo.Keys <= r.1.Keys && u in r.1 && r.1[u] == r.0
    decreases |ReachSet(g, u)|, 2
  {
    if u in memo then (memo[u], memo)
    else if u in cycles then
      CycleFacts(g, cycles, u);
      var cycle := cycles[u];
      var exits := CycleExits(a, g, f, cycle, 0, cycles, a.zero, memo);
      (exits.0, Remember(exits.1, cycle, exits.0))
    else
      ReachInRange(g, g.start, u);
      var step := FollowerLoop(a, g, f, u, Increment(g, f, u), 0, cycles, a.zero, memo);
      (step.0, step.1[u := step.0])
  }

  /** The outer loop over the states of a kept component, from position `i`
      on, with the running maximum `acc`. */
  function CycleExits<T>(a: Arith<T>, g: Nfa, f: int, cycle: seq<nat>, i: nat, cycles: map<nat, seq<nat>>,
                         acc: T, memo: map<nat, T>): (r: (T, map<nat, T>))
    requires WellFormed(g) && ValidComponents(g, cycles) && IsCycle(cycles, cycle) && i <= |cycle|
    ensures memo.Keys <= r.1.Keys
    decreases |ReachSet(g, cycle[0])|, 1, |cycle| - i
  {
    if i == |cycle| then (acc, memo)
    else
      CycleMembers(g, cycles, cycle, cycle[i]);
      var inner := ExitFollowers(a, g, f, cycle, cycle[i], 0, cycles, acc, memo);
      CycleExits(a, g, f, cycle, i + 1, cycles, inner.0, inner.1)
  }

  /** The inner loop over the followers of the component state `x`, from
      position `j` on: followers inside the component are skipped. */
  function ExitFollowers<T>(a: Arith<T>, g: Nfa, f: int, cycle: seq<nat>, x: nat, j: nat,
                            cycles: map<nat, seq<nat>>, acc: T, memo: map<nat, T>): (r: (T, map<nat, T>))
    requires WellFormed(g) && ValidComponents(g, cycles) && IsCycle(cycles, cycle)
    requires x in cycle && x < Size(g) && j <= |g.followers[x]|
    ensures memo.Keys <= r.1.Keys
    decreases |ReachSet(g, cycle[0])|, 0, |g.followers[x]| - j
  {
    if j == |g.followers[x]| then (acc, memo)
    else
      var w := g.followers[x][j];
      if w in cycle then ExitFollowers(a, g, f, cycle, x, j + 1, cycles, acc, memo)
      else
        ExitShrinks(g, cycles, cycle, x, w);
        var d := UpperBound(a, g, f, w, cycles, memo);
        ExitFollowers(a, g, f, cycle, x, j + 1, cycles, a.max(acc, d.0), d.1)
  }

  /** The loop over the followers of a state outside every kept component,
      from position `j` on. A self-loop makes the distance `MAX` when the
      state assigns the feature and is ignored otherwise. */
  function FollowerLoop<T>(a: Arith<T>, g: Nfa, f: int, u: nat, inc: nat, j: nat, cycles: map<nat, seq<nat>>,
                           acc: T, memo: map<nat, T>): (r: (T, map<nat, T>))
    requires WellFormed(g) && ValidComponents(g, cycles) && Reach(g, g.start, u) && u !in cycles
    requires u < Size(g) && j <= |g.followers[u]|
    ensures memo.Keys <= r.1.Keys
    decreases |ReachSet(g, u)|, 1, |g.followers[u]| - j
  {
    if j == |g.followers[u]| then (acc, memo)
    else
      var w := g.followers[u][j];
      if w == u then
        FollowerLoop(a, g, f, u, inc, j + 1, cycles, if inc > 0 then a.top else acc, memo)
      else
        StepShrinks(g, cycles, u, w);
        var d := UpperBound(a, g, f, w, cycles, memo);
        FollowerLoop(a, g, f, u, inc, j + 1, cycles, a.max(acc, a.add(d.0, inc)), d.1)
  }

  /** The features some state of a kept component assigns have no bound, and
      reading them needs their feature number to be below the feature count. */
  predicate TagsInRange(g: Nfa, cycles: map<nat, seq<nat>>, featureCount: nat) {
    forall u | u in cycles && u < |g.featureIds| :: g.featureIds[u] < featureCount
  }

  /** Feature `f` is assigned by a state of a kept component. */
  predicate CycleTagged(g: Nfa, cycles: map<nat, seq<nat>>, f: int) {
    exists u | u in cycles :: u < |g.featureIds| && g.featureIds[u] == f
  }

  /** `computeUpperBounds`: `MAX` for the features of kept components, the
      distance from the start state for every other feature. */
  function ComputeUpperBounds<T(==)>(a: Arith<T>, g: Nfa, featureCount: nat): (bounds: seq<T>)
    requires WellFormed(g) && TagsInRange(g, ComputeComponents(g), featureCount)
    ensures |bounds| == featureCount
    ensures forall f | 0 <= f < featureCount && CycleTagged(g, ComputeComponents(g), f) :: bounds[f] == a.top
  {
    var cycles := ComputeComponents(g);
    ComputeComponentsCorrect(g);
    ReachRefl(g, g.start);
    var marked := seq(featureCount, f => if CycleTagged(g, cycles, f) then a.top else a.zero);
    seq(featureCount, f requires 0 <= f < featureCount =>
      if marked[f] != a.top then UpperBound(a, g, f, g.start, cycles, map[]).0 else marked[f])
  }
}
