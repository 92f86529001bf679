/**
 * A memo-free reference for the distance `computeUpperBound` returns, and
 * the proof that the memoized computation with saturating arithmetic returns
 * it. The reference folds the same loops from the right without a memo; that
 * the order of the loops and the memo make no difference rests on `MaxB`
 * being associative, commutative and idempotent, and on every memoized
 * distance being the reference distance.
 */
module BoundReference {
  import opened StateGraph
  import opened TarjanProof
  import opened UpperBounds

  /** The distance of `u` for feature `f`: for a state of a kept component,
      the largest distance of a follower outside the component; otherwise the
      largest follower distance plus the state's increment, or no bound when
      the state assigns `f` and follows itself. */
  ghost function Dist(g: Nfa, f: int, cycles: map<nat, seq<nat>>, u: nat): Bound
    requires WellFormed(g) && ValidComponents(g, cycles) && Reach(g, g.start, u)
    decreases |ReachSet(g, u)|, 2
  {
    if u in cycles then
      CycleFacts(g, cycles, u);
      ExitMax(g, f, cycles, cycles[u], 0)
    else
      ReachInRange(g, g.start, u);
      StepMax(g, f, cycles, u, 0)
  }

  /** The largest distance of an exit of the component states from position
      `i` on. */
  ghost function ExitMax(g: Nfa, f: int, cycles: map<nat, seq<nat>>, cycle: seq<nat>, i: nat): Bound
    requires WellFormed(g) && ValidComponents(g, cycles) && IsCycle(cycles, cycle) && i <= |cycle|
    decreases |ReachSet(g, cycle[0])|, 1, |cycle| - i
  {
    if i == |cycle| then Finite(0)
    else
      CycleMembers(g, cycles, cycle, cycle[i]);
      MaxB(ExitsOf(g, f, cycles, cycle, cycle[i], 0), ExitMax(g, f, cycles, cycle, i + 1))
  }

  /** The largest distance of a follower of `x` outside the component, from
      position `j` on. */
  ghost function ExitsOf(g: Nfa, f: int, cycles: map<nat, seq<nat>>, cycle: seq<nat>, x: nat, j: nat): Bound
    requires WellFormed(g) && ValidComponents(g, cycles) && IsCycle(cycles, cycle)
    requires x in cycle && x < Size(g) && j <= |g.followers[x]|
    decreases |ReachSet(g, cycle[0])|, 0, |g.followers[x]| - j
  {
    if j == |g.followers[x]| then Finite(0)
    else
      var w := g.followers[x][j];
      if w in cycle then ExitsOf(g, f, cycles, cycle, x, j + 1)
      else
        ExitShrinks(g, cycles, cycle, x, w);
        MaxB(Dist(g, f, cycles, w), ExitsOf(g, f, cycles, cycle, x, j + 1))
  }

  /** The largest follower distance plus increment of a state outside every
      kept component, from position `j` on. */
  ghost function StepMax(g: Nfa, f: int, cycles: map<nat, seq<nat>>, u: nat, j: nat): Bound
    requires WellFormed(g) && ValidComponents(g, cycles) && Reach(g, g.start, u) && u !in cycles
    requires u < Size(g) && j <= |g.followers[u]|
    decreases |ReachSet(g, u)|, 1, |g.followers[u]| - j
  {
    if j == |g.followers[u]| then Finite(0)
    else
      var w := g.followers[u][j];
      if w == u then
        if Increment(g, f, u) > 0 then Max else StepMax(g, f, cycles, u, j + 1)
      else
        StepShrinks(g, cycles, u, w);
        MaxB(Plus(Dist(g, f, cycles, w), Increment(g, f, u)), StepMax(g, f, cycles, u, j + 1))
  }

  /** Every memoized distance is the reference distance of a reachable state. */
  ghost predicate MemoOk(g: Nfa, f: int, cycles: map<nat, seq<nat>>, memo: map<nat, Bound>)
    requires WellFormed(g) && ValidComponents(g, cycles)
  {
    forall x | x in memo :: Reach(g, g.start, x) && memo[x] == Dist(g, f, cycles, x)
  }

  lemma MaxAssoc(a: Bound, b: Bound, c: Bound)
    ensures MaxB(MaxB(a, b), c) == MaxB(a, MaxB(b, c))
  {
  }

  /** All states of a component have the same reference distance. */
  lemma DistInCycle(g: Nfa, f: int, cycles: map<nat, seq<nat>>, u: nat, y: nat)
    requires WellFormed(g) && ValidComponents(g, cycles) && u in cycles && y in cycles[u]
    ensures Reach(g, g.start, u) && Reach(g, g.start, y)
    ensures Dist(g, f, cycles, y) == Dist(g, f, cycles, u) == ExitMax(g, f, cycles, cycles[u], 0)
  {
    assert y in cycles && cycles[y] == cycles[u];
  }

  // ---------------------------------------------------------------------------
  // The memoized computation returns the reference distance
  // ---------------------------------------------------------------------------

  /** `computeUpperBound` returns the reference distance, and every distance
      it memoizes is a reference distance, provided those it was given are. */
  lemma {:induction false} UpperBoundIsDist(g: Nfa, f: int, u: nat, cycles: map<nat, seq<nat>>, memo: map<nat, Bound>)
    requires WellFormed(g) && ValidComponents(g, cycles) && Reach(g, g.start, u)
    requires MemoOk(g, f, cycles, memo)
    ensures var r := UpperBound(Saturating, g, f, u, cycles, memo);
            r.0 == Dist(g, f, cycles, u) && MemoOk(g, f, cycles, r.1)
    decreases |ReachSet(g, u)|, 3
  {
    if u in memo {
    } else if u in cycles {
      CycleIsDist(g, f, u, cycles, memo);
    } else {
      StepIsDist(g, f, u, cycles, memo);
    }
  }

  /** The component branch of `computeUpperBound`. */
  lemma {:induction false} CycleIsDist(g: Nfa, f: int, u: nat, cycles: map<nat, seq<nat>>, memo: map<nat, Bound>)
    requires WellFormed(g) && ValidComponents(g, cycles) && Reach(g, g.start, u)
    requires MemoOk(g, f, cycles, memo) && u !in memo && u in cycles
    ensures var r := UpperBound(Saturating, g, f, u, cycles, memo);
            r.0 == Dist(g, f, cycles, u) && MemoOk(g, f, cycles, r.1)
    decreases |ReachSet(g, u)|, 2
  {
    CycleFacts(g, cycles, u);
    var cycle := cycles[u];
    CycleExitsIsMax(g, f, cycle, 0, cycles, Finite(0), memo);
    var exits := CycleExits(Saturating, g, f, cycle, 0, cycles, Finite(0), memo);
    var memo' := Remember(exits.1, cycle, exits.0);
    assert UpperBound(Saturating, g, f, u, cycles, memo) == (exits.0, memo');
    forall y | y in memo'
      ensures Reach(g, g.start, y) && memo'[y] == Dist(g, f, cycles, y)
    {
      if y in cycle {
        DistInCycle(g, f, cycles, u, y);
      }
    }
  }

  /** The branch of `computeUpperBound` for a state outside every kept
      component. */
  lemma {:induction false} StepIsDist(g: Nfa, f: int, u: nat, cycles: map<nat, seq<nat>>, memo: map<nat, Bound>)
    requires WellFormed(g) && ValidComponents(g, cycles) && Reach(g, g.start, u)
    requires MemoOk(g, f, cycles, memo) && u !in memo && u !in cycles
    ensures var r := UpperBound(Saturating, g, f, u, cycles, memo);
            r.0 == Dist(g, f, cycles, u) && MemoOk(g, f, cycles, r.1)
    decreases |ReachSet(g, u)|, 2
  {
    ReachInRange(g, g.start, u);
    FollowerLoopIsMax(g, f, u, 0, cycles, Finite(0), memo);
    var step := FollowerLoop(Saturating, g, f, u, Increment(g, f, u), 0, cycles, Finite(0), memo);
    assert step.0 == Dist(g, f, cycles, u);
    var memo' := step.1[u := step.0];
    assert UpperBound(Saturating, g, f, u, cycles, memo) == (step.0, memo');
    assert forall y | y in memo' && y != u :: y in step.1;
  }

  /** The outer component loop yields the running maximum joined with the
      remaining exits. */
  lemma {:induction false} CycleExitsIsMax(g: Nfa, f: int, cycle: seq<nat>, i: nat, cycles: map<nat, seq<nat>>,
                                           acc: Bound, memo: map<nat, Bound>)
    requires WellFormed(g) && ValidComponents(g, cycles) && IsCycle(cycles, cycle) && i <= |cycle|
    requires MemoOk(g, f, cycles, memo)
    ensures var r := CycleExits(Saturating, g, f, cycle, i, cycles, acc, memo);
            r.0 == MaxB(acc, ExitMax(g, f, cycles, cycle, i)) && MemoOk(g, f, cycles, r.1)
    decreases |ReachSet(g, cycle[0])|, 1, |cycle| - i
  {
    if i < |cycle| {
      CycleMembers(g, cycles, cycle, cycle[i]);
      ExitFollowersIsMax(g, f, cycle, cycle[i], 0, cycles, acc, memo);
      var inner := ExitFollowers(Saturating, g, f, cycle, cycle[i], 0, cycles, acc, memo);
      CycleExitsIsMax(g, f, cycle, i + 1, cycles, inner.0, inner.1);
      MaxAssoc(acc, ExitsOf(g, f, cycles, cycle, cycle[i], 0), ExitMax(g, f, cycles, cycle, i + 1));
    }
  }

  /** The inner component loop yields the running maximum joined with the
      remaining exits of `x`. */
  lemma {:induction false} ExitFollowersIsMax(g: Nfa, f: int, cycle: seq<nat>, x: nat, j: nat,
                                              cycles: map<nat, seq<nat>>, acc: Bound, memo: map<nat, Bound>)
    requires WellFormed(g) && ValidComponents(g, cycles) && IsCycle(cycles, cycle)
    requires x in cycle && x < Size(g) && j <= |g.followers[x]|
    requires MemoOk(g, f, cycles, memo)
    ensures var r := ExitFollowers(Saturating, g, f, cycle, x, j, cycles, acc, memo);
            r.0 == MaxB(acc, ExitsOf(g, f, cycles, cycle, x, j)) && MemoOk(g, f, cycles, r.1)
    decreases |ReachSet(g, cycle[0])|, 0, |g.followers[x]| - j
  {
    if j < |g.followers[x]| {
      var w := g.followers[x][j];
      if w in cycle {
        ExitFollowersIsMax(g, f, cycle, x, j + 1, cycles, acc, memo);
      } else {
        ExitShrinks(g, cycles, cycle, x, w);
        UpperBoundIsDist(g, f, w, cycles, memo);
        var d := UpperBound(Saturating, g, f, w, cycles, memo);
        ExitFollowersIsMax(g, f, cycle, x, j + 1, cycles, MaxB(acc, d.0), d.1);
        ExitStep(g, f, cycle, x, j, cycles, acc, memo);
        MaxAssoc(acc, d.0, ExitsOf(g, f, cycles, cycle, x, j + 1));
      }
    }
  }

  /** One step of the inner component loop and of its reference, at an exit. */
  lemma ExitStep(g: Nfa, f: int, cycle: seq<nat>, x: nat, j: nat,
                 cycles: map<nat, seq<nat>>, acc: Bound, memo: map<nat, Bound>)
    requires WellFormed(g) && ValidComponents(g, cycles) && IsCycle(cycles, cycle)
    requires x in cycle && x < Size(g) && j < |g.followers[x]| && g.followers[x][j] !in cycle
    ensures var w := g.followers[x][j];
            && Reach(g, g.start, w)
            && var d := UpperBound(Saturating, g, f, w, cycles, memo);
            && ExitFollowers(Saturating, g, f, cycle, x, j, cycles, acc, memo)
               == ExitFollowers(Saturating, g, f, cycle, x, j + 1, cycles, MaxB(acc, d.0), d.1)
            && ExitsOf(g, f, cycles, cycle, x, j) == MaxB(Dist(g, f, cycles, w), ExitsOf(g, f, cycles, cycle, x, j + 1))
  {
    ExitShrinks(g, cycles, cycle, x, g.followers[x][j]);
  }

  /** The loop over the followers of a state outside every kept component
      yields the running maximum joined with the remaining steps. */
  lemma {:induction false} FollowerLoopIsMax(g: Nfa, f: int, u: nat, j: nat, cycles: map<nat, seq<nat>>,
                                             acc: Bound, memo: map<nat, Bound>)
    requires WellFormed(g) && ValidComponents(g, cycles) && Reach(g, g.start, u) && u !in cycles
    requires u < Size(g) && j <= |g.followers[u]|
    requires MemoOk(g, f, cycles, memo)
    ensures var r := FollowerLoop(Saturating, g, f, u, Increment(g, f, u), j, cycles, acc, memo);
            && r.0 == MaxB(acc, StepMax(g, f, cycles, u, j))
            && MemoOk(g, f, cycles, r.1)
    decreases |ReachSet(g, u)|, 1, |g.followers[u]| - j
  {
    var inc := Increment(g, f, u);
    if j == |g.followers[u]| {
      assert MaxB(acc, Finite(0)) == acc;
    } else {
      var w := g.followers[u][j];
      if w == u {
        var acc' := if inc > 0 then Max else acc;
        FollowerLoopIsMax(g, f, u, j + 1, cycles, acc', memo);
      } else {
        StepShrinks(g, cycles, u, w);
        UpperBoundIsDist(g, f, w, cycles, memo);
        var d := UpperBound(Saturating, g, f, w, cycles, memo);
        FollowerLoopIsMax(g, f, u, j + 1, cycles, MaxB(acc, Plus(d.0, inc)), d.1);
        MaxAssoc(acc, Plus(d.0, inc), StepMax(g, f, cycles, u, j + 1));
      }
    }
  }
}
