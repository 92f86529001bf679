/**
 * What the computed upper bounds mean. A walk through the rule automaton
 * from the start state assigns a feature once for every state on it that
 * assigns the feature and that the walk goes on past (a complete walk ends
 * in the stop state, which assigns nothing). The bound of a feature is the
 * largest such count over all walks, and it is `MAX` exactly when the counts
 * have no bound.
 */
module BoundPaths {
  import opened StateGraph
  import opened Tarjan
  import opened TarjanProof
  import opened UpperBounds
  import opened BoundReference

  /** One when state `u` assigns feature `f`. */
  function Tag(g: Nfa, f: int, u: nat): nat {
    if u < |g.featureIds| && g.featureIds[u] == f then 1 else 0
  }

  /** How often the walk `p` assigns `f`: every state but the last counts. */
  function Count(g: Nfa, f: int, p: seq<nat>): nat
    decreases |p|
  {
    if |p| <= 1 then 0 else Tag(g, f, p[0]) + Count(g, f, p[1..])
  }

  /** `a` is at most `b`. */
  predicate Le(a: Bound, b: Bound) {
    b == Max || (a.Finite? && b.Finite? && a.n <= b.n)
  }

  /** Some walk from the start assigns `f` at least `n` times. */
  ghost predicate CountReached(g: Nfa, f: int, n: nat) {
    exists p | IsPath(g, p) && p[0] == g.start :: Count(g, f, p) >= n
  }

  /** Walks from the start assign `f` arbitrarily often. */
  ghost predicate Unbounded(g: Nfa, f: int) {
    forall n: nat :: CountReached(g, f, n)
  }

  /** `n` is the largest number of times a walk from the start assigns `f`. */
  ghost predicate IsSup(g: Nfa, f: int, n: nat) {
    && (forall p | IsPath(g, p) && p[0] == g.start :: Count(g, f, p) <= n)
    && (exists p | IsPath(g, p) && p[0] == g.start :: Count(g, f, p) == n)
  }

  // ---------------------------------------------------------------------------
  // Counting along joined walks
  // ---------------------------------------------------------------------------

  /** Joining two walks adds their counts. */
  lemma {:induction false} CountJoin(g: Nfa, f: int, p: seq<nat>, q: seq<nat>)
    requires |p| >= 1 && |q| >= 1 && p[|p| - 1] == q[0]
    ensures Count(g, f, p + q[1..]) == Count(g, f, p) + Count(g, f, q)
    decreases |p|
  {
    if |p| == 1 {
      assert p + q[1..] == q;
    } else {
      assert (p + q[1..])[1..] == p[1..] + q[1..];
      CountJoin(g, f, p[1..], q);
    }
  }

  /** A walk through states that do not assign `f` counts nothing. */
  lemma {:induction false} CountUntagged(g: Nfa, f: int, p: seq<nat>)
    requires forall i | 0 <= i < |p| :: Tag(g, f, p[i]) == 0
    ensures Count(g, f, p) == 0
    decreases |p|
  {
    if |p| > 1 {
      assert forall i | 0 <= i < |p| - 1 :: p[1..][i] == p[i + 1];
      CountUntagged(g, f, p[1..]);
    }
  }

  /** Inside a kept component whose states do not assign `f`, any state
      reaches any other along a walk that counts nothing. */
  lemma CycleWalk(g: Nfa, f: int, cycles: map<nat, seq<nat>>, u: nat, x: nat)
    requires WellFormed(g) && ValidComponents(g, cycles) && !CycleTagged(g, cycles, f)
    requires u in cycles && x in cycles[u]
    ensures exists r :: PathFrom(g, r, u, x) && Count(g, f, r) == 0
  {
    CycleFacts(g, cycles, u);
    assert x in SetOf(cycles[u]);
    var r :| PathFrom(g, r, u, x);
    forall i | 0 <= i < |r|
      ensures Tag(g, f, r[i]) == 0
    {
      PathInsideScc(g, r, i);
      assert r[i] in SetOf(cycles[u]);
      assert r[i] in cycles;
    }
    CountUntagged(g, f, r);
  }

  /** A walk of one step followed by a walk from the follower. */
  lemma StepThen(g: Nfa, f: int, u: nat, q: seq<nat>)
    requires IsPath(g, q) && Edge(g, u, q[0])
    ensures IsPath(g, [u] + q) && Count(g, f, [u] + q) == Tag(g, f, u) + Count(g, f, q)
  {
    var p := [u] + q;
    assert p[1..] == q;
    forall i | 0 <= i < |p| - 1
      ensures Edge(g, p[i], p[i + 1])
    {
      if i > 0 {
        assert p[i] == q[i - 1] && p[i + 1] == q[i];
      }
    }
  }

  /** A walk leaving a kept component from any of its states can be started
      at any other of its states for the same count. */
  lemma ExitWalk(g: Nfa, f: int, cycles: map<nat, seq<nat>>, u: nat, x: nat, q: seq<nat>)
    requires WellFormed(g) && ValidComponents(g, cycles) && !CycleTagged(g, cycles, f)
    requires u in cycles && x in cycles[u] && IsPath(g, q) && Edge(g, x, q[0])
    ensures exists p | IsPath(g, p) && p[0] == u :: Count(g, f, p) == Count(g, f, q)
  {
    CycleWalk(g, f, cycles, u, x);
    var r :| PathFrom(g, r, u, x) && Count(g, f, r) == 0;
    assert x in cycles;
    StepThen(g, f, x, q);
    PathJoin(g, r, [x] + q);
    CountJoin(g, f, r, [x] + q);
  }

  // ---------------------------------------------------------------------------
  // Where the reference distance comes from
  // ---------------------------------------------------------------------------

  lemma MaxUpper(a: Bound, b: Bound)
    ensures Le(a, MaxB(a, b)) && Le(b, MaxB(a, b)) && (MaxB(a, b) == a || MaxB(a, b) == b)
  {
  }

  lemma LeTrans(a: Bound, b: Bound, c: Bound)
    requires Le(a, b) && Le(b, c)
    ensures Le(a, c)
  {
  }

  /** The exit at position `k` of `x`'s followers is below the exits from `j` on. */
  lemma {:induction false} ExitsOfHas(g: Nfa, f: int, cycles: map<nat, seq<nat>>, cycle: seq<nat>, x: nat, j: nat, k: nat)
    requires WellFormed(g) && ValidComponents(g, cycles) && IsCycle(cycles, cycle)
    requires x in cycle && x < Size(g) && j <= k < |g.followers[x]| && g.followers[x][k] !in cycle
    ensures Reach(g, g.start, g.followers[x][k])
    ensures Le(Dist(g, f, cycles, g.followers[x][k]), ExitsOf(g, f, cycles, cycle, x, j))
    decreases k - j
  {
    ExitShrinks(g, cycles, cycle, x, g.followers[x][k]);
    var w := g.followers[x][j];
    if j < k {
      ExitsOfHas(g, f, cycles, cycle, x, j + 1, k);
      if w !in cycle {
        ExitShrinks(g, cycles, cycle, x, w);
        MaxUpper(Dist(g, f, cycles, w), ExitsOf(g, f, cycles, cycle, x, j + 1));
        LeTrans(Dist(g, f, cycles, g.followers[x][k]), ExitsOf(g, f, cycles, cycle, x, j + 1),
                ExitsOf(g, f, cycles, cycle, x, j));
      }
    } else {
      MaxUpper(Dist(g, f, cycles, w), ExitsOf(g, f, cycles, cycle, x, j + 1));
    }
  }

  /** The exits of the state at position `k` are below the exits from `i` on. */
  lemma {:induction false} ExitMaxHas(g: Nfa, f: int, cycles: map<nat, seq<nat>>, cycle: seq<nat>, i: nat, k: nat)
    requires WellFormed(g) && ValidComponents(g, cycles) && IsCycle(cycles, cycle) && i <= k < |cycle|
    ensures cycle[k] < Size(g)
    ensures Le(ExitsOf(g, f, cycles, cycle, cycle[k], 0), ExitMax(g, f, cycles, cycle, i))
    decreases k - i
  {
    CycleMembers(g, cycles, cycle, cycle[k]);
    CycleMembers(g, cycles, cycle, cycle[i]);
    MaxUpper(ExitsOf(g, f, cycles, cycle, cycle[i], 0), ExitMax(g, f, cycles, cycle, i + 1));
    if i < k {
      ExitMaxHas(g, f, cycles, cycle, i + 1, k);
      LeTrans(ExitsOf(g, f, cycles, cycle, cycle[k], 0), ExitMax(g, f, cycles, cycle, i + 1),
              ExitMax(g, f, cycles, cycle, i));
    }
  }

  /** An edge leaving a kept component leads to a distance no larger than the
      component's. */
  lemma ExitBelow(g: Nfa, f: int, cycles: map<nat, seq<nat>>, u: nat, x: nat, w: nat)
    requires WellFormed(g) && ValidComponents(g, cycles) && u in cycles
    requires x in cycles[u] && Edge(g, x, w) && w !in cycles[u]
    ensures Reach(g, g.start, u) && Reach(g, g.start, w)
    ensures Le(Dist(g, f, cycles, w), Dist(g, f, cycles, u))
  {
    CycleFacts(g, cycles, u);
    var cycle := cycles[u];
    var i :| 0 <= i < |cycle| && cycle[i] == x;
    var k :| 0 <= k < |g.followers[x]| && g.followers[x][k] == w;
    ExitsOfHas(g, f, cycles, cycle, x, 0, k);
    ExitMaxHas(g, f, cycles, cycle, 0, i);
    LeTrans(Dist(g, f, cycles, w), ExitsOf(g, f, cycles, cycle, x, 0), ExitMax(g, f, cycles, cycle, 0));
  }

  /** The step to the follower at position `k` is below the steps from `j` on. */
  lemma {:induction false} StepMaxHas(g: Nfa, f: int, cycles: map<nat, seq<nat>>, u: nat, j: nat, k: nat)
    requires WellFormed(g) && ValidComponents(g, cycles) && Reach(g, g.start, u) && u !in cycles
    requires u < Size(g) && j <= k < |g.followers[u]| && g.followers[u][k] != u
    ensures Reach(g, g.start, g.followers[u][k])
    ensures Le(Plus(Dist(g, f, cycles, g.followers[u][k]), Tag(g, f, u)), StepMax(g, f, cycles, u, j))
    decreases k - j
  {
    StepShrinks(g, cycles, u, g.followers[u][k]);
    var w := g.followers[u][j];
    if j < k {
      StepMaxMono(g, f, cycles, u, j);
      StepMaxHas(g, f, cycles, u, j + 1, k);
      LeTrans(Plus(Dist(g, f, cycles, g.followers[u][k]), Tag(g, f, u)), StepMax(g, f, cycles, u, j + 1),
              StepMax(g, f, cycles, u, j));
    } else {
      MaxUpper(Plus(Dist(g, f, cycles, w), Tag(g, f, u)), StepMax(g, f, cycles, u, j + 1));
    }
  }

  /** The steps from `j` on are below the steps from `j - 1` on. */
  lemma StepMaxMono(g: Nfa, f: int, cycles: map<nat, seq<nat>>, u: nat, j: nat)
    requires WellFormed(g) && ValidComponents(g, cycles) && Reach(g, g.start, u) && u !in cycles
    requires u < Size(g) && j < |g.followers[u]|
    ensures Le(StepMax(g, f, cycles, u, j + 1), StepMax(g, f, cycles, u, j))
  {
    var w := g.followers[u][j];
    if w != u {
      StepShrinks(g, cycles, u, w);
      MaxUpper(Plus(Dist(g, f, cycles, w), Tag(g, f, u)), StepMax(g, f, cycles, u, j + 1));
    }
  }

  /** A step to a follower other than the state itself is below the state's
      distance. */
  lemma StepBelow(g: Nfa, f: int, cycles: map<nat, seq<nat>>, u: nat, w: nat)
    requires WellFormed(g) && ValidComponents(g, cycles) && Reach(g, g.start, u) && u !in cycles
    requires Edge(g, u, w) && w != u
    ensures Reach(g, g.start, w)
    ensures Le(Plus(Dist(g, f, cycles, w), Tag(g, f, u)), Dist(g, f, cycles, u))
  {
    ReachInRange(g, g.start, u);
    var k :| 0 <= k < |g.followers[u]| && g.followers[u][k] == w;
    StepMaxHas(g, f, cycles, u, 0, k);
  }

  /** A state outside every kept component that assigns `f` and follows
      itself has no bound. */
  lemma {:induction false} SelfLoopMax(g: Nfa, f: int, cycles: map<nat, seq<nat>>, u: nat)
    requires WellFormed(g) && ValidComponents(g, cycles) && Reach(g, g.start, u) && u !in cycles
    requires Edge(g, u, u) && Tag(g, f, u) == 1
    ensures Dist(g, f, cycles, u) == Max
  {
    ReachInRange(g, g.start, u);
    var k :| 0 <= k < |g.followers[u]| && g.followers[u][k] == u;
    SelfLoopFrom(g, f, cycles, u, 0, k);
  }

  lemma {:induction false} SelfLoopFrom(g: Nfa, f: int, cycles: map<nat, seq<nat>>, u: nat, j: nat, k: nat)
    requires WellFormed(g) && ValidComponents(g, cycles) && Reach(g, g.start, u) && u !in cycles
    requires u < Size(g) && j <= k < |g.followers[u]| && g.followers[u][k] == u && Tag(g, f, u) == 1
    ensures StepMax(g, f, cycles, u, j) == Max
    decreases k - j
  {
    if j < k {
      SelfLoopFrom(g, f, cycles, u, j + 1, k);
      var w := g.followers[u][j];
      if w != u {
        StepShrinks(g, cycles, u, w);
      }
    }
  }

  // ---------------------------------------------------------------------------
  // No walk counts more than the distance
  // ---------------------------------------------------------------------------

  /** Every walk from a reachable state assigns `f` at most its distance
      times, when no kept component assigns `f`. */
  lemma {:induction false} CountWithin(g: Nfa, f: int, cycles: map<nat, seq<nat>>, u: nat, p: seq<nat>)
    requires WellFormed(g) && ValidComponents(g, cycles) && !CycleTagged(g, cycles, f)
    requires Reach(g, g.start, u) && IsPath(g, p) && p[0] == u
    ensures Le(Finite(Count(g, f, p)), Dist(g, f, cycles, u))
    decreases |p|
  {
    if |p| > 1 {
      var w := p[1];
      assert Edge(g, u, w);
      assert IsPath(g, p[1..]);
      ReachInRange(g, g.start, u);
      if u in cycles {
        CycleFacts(g, cycles, u);
        assert Tag(g, f, u) == 0;
        if w in cycles[u] {
          DistInCycle(g, f, cycles, u, w);
          CountWithin(g, f, cycles, w, p[1..]);
        } else {
          ExitBelow(g, f, cycles, u, u, w);
          CountWithin(g, f, cycles, w, p[1..]);
          LeTrans(Finite(Count(g, f, p)), Dist(g, f, cycles, w), Dist(g, f, cycles, u));
        }
      } else if w == u {
        if Tag(g, f, u) == 1 {
          SelfLoopMax(g, f, cycles, u);
        } else {
          CountWithin(g, f, cycles, u, p[1..]);
        }
      } else {
        StepBelow(g, f, cycles, u, w);
        CountWithin(g, f, cycles, w, p[1..]);
        LeTrans(Finite(Count(g, f, p)), Plus(Dist(g, f, cycles, w), Tag(g, f, u)), Dist(g, f, cycles, u));
      }
    }
  }

  // ---------------------------------------------------------------------------
  // Some walk attains the distance
  // ---------------------------------------------------------------------------

  /** The exits of `x` from `j` on are zero or the distance of one of them. */
  lemma {:induction false} ExitsOfAttained(g: Nfa, f: int, cycles: map<nat, seq<nat>>, cycle: seq<nat>, x: nat, j: nat)
    requires WellFormed(g) && ValidComponents(g, cycles) && IsCycle(cycles, cycle)
    requires x in cycle && x < Size(g) && j <= |g.followers[x]|
    ensures || ExitsOf(g, f, cycles, cycle, x, j) == Finite(0)
            || exists w | Edge(g, x, w) && w !in cycle && Reach(g, g.start, w) ::
                 ExitsOf(g, f, cycles, cycle, x, j) == Dist(g, f, cycles, w)
    decreases |g.followers[x]| - j
  {
    if j < |g.followers[x]| {
      var w := g.followers[x][j];
      ExitsOfAttained(g, f, cycles, cycle, x, j + 1);
      if w !in cycle {
        ExitShrinks(g, cycles, cycle, x, w);
        MaxUpper(Dist(g, f, cycles, w), ExitsOf(g, f, cycles, cycle, x, j + 1));
      }
    }
  }

  /** The exits of a component from position `i` on are zero or the distance
      of one of them. */
  lemma {:induction false} ExitMaxAttained(g: Nfa, f: int, cycles: map<nat, seq<nat>>, cycle: seq<nat>, i: nat)
    requires WellFormed(g) && ValidComponents(g, cycles) && IsCycle(cycles, cycle) && i <= |cycle|
    ensures || ExitMax(g, f, cycles, cycle, i) == Finite(0)
            || exists x, w | x in cycle && Edge(g, x, w) && w !in cycle && Reach(g, g.start, w) ::
                 ExitMax(g, f, cycles, cycle, i) == Dist(g, f, cycles, w)
    decreases |cycle| - i
  {
    if i < |cycle| {
      var x := cycle[i];
      CycleMembers(g, cycles, cycle, x);
      ExitsOfAttained(g, f, cycles, cycle, x, 0);
      ExitMaxAttained(g, f, cycles, cycle, i + 1);
      MaxUpper(ExitsOf(g, f, cycles, cycle, x, 0), ExitMax(g, f, cycles, cycle, i + 1));
    }
  }

  /** The steps of a state from `j` on are zero, no bound through a self-loop
      of a state assigning `f`, or one follower's distance plus the
      increment. */
  lemma {:induction false} StepMaxAttained(g: Nfa, f: int, cycles: map<nat, seq<nat>>, u: nat, j: nat)
    requires WellFormed(g) && ValidComponents(g, cycles) && Reach(g, g.start, u) && u !in cycles
    requires u < Size(g) && j <= |g.followers[u]|
    ensures || StepMax(g, f, cycles, u, j) == Finite(0)
            || (Edge(g, u, u) && Tag(g, f, u) == 1)
            || exists w | Edge(g, u, w) && w != u && Reach(g, g.start, w) ::
                 StepMax(g, f, cycles, u, j) == Plus(Dist(g, f, cycles, w), Tag(g, f, u))
    decreases |g.followers[u]| - j
  {
    if j < |g.followers[u]| {
      var w := g.followers[u][j];
      StepMaxAttained(g, f, cycles, u, j + 1);
      if w != u {
        StepShrinks(g, cycles, u, w);
        MaxUpper(Plus(Dist(g, f, cycles, w), Tag(g, f, u)), StepMax(g, f, cycles, u, j + 1));
      }
    }
  }

  /** A state whose distance is `n` starts a walk that assigns `f` exactly
      `n` times, when no kept component assigns `f`. */
  lemma {:induction false} DistAttained(g: Nfa, f: int, cycles: map<nat, seq<nat>>, u: nat)
    requires WellFormed(g) && ValidComponents(g, cycles) && !CycleTagged(g, cycles, f)
    requires Reach(g, g.start, u) && Dist(g, f, cycles, u).Finite?
    ensures exists p | IsPath(g, p) && p[0] == u :: Count(g, f, p) == Dist(g, f, cycles, u).n
    decreases |ReachSet(g, u)|
  {
    ReachInRange(g, g.start, u);
    var n := Dist(g, f, cycles, u).n;
    if n == 0 {
      assert IsPath(g, [u]) && Count(g, f, [u]) == 0;
    } else if u in cycles {
      CycleFacts(g, cycles, u);
      var cycle := cycles[u];
      ExitMaxAttained(g, f, cycles, cycle, 0);
      var x, w :| x in cycle && Edge(g, x, w) && w !in cycle && Reach(g, g.start, w)
                 && Dist(g, f, cycles, u) == Dist(g, f, cycles, w);
      ExitShrinks(g, cycles, cycle, x, w);
      DistAttained(g, f, cycles, w);
      var q :| IsPath(g, q) && q[0] == w && Count(g, f, q) == n;
      ExitWalk(g, f, cycles, u, x, q);
    } else {
      StepMaxAttained(g, f, cycles, u, 0);
      if Edge(g, u, u) && Tag(g, f, u) == 1 {
        SelfLoopMax(g, f, cycles, u);
      } else {
        var w :| Edge(g, u, w) && w != u && Reach(g, g.start, w)
                 && Dist(g, f, cycles, u) == Plus(Dist(g, f, cycles, w), Tag(g, f, u));
        StepShrinks(g, cycles, u, w);
        DistAttained(g, f, cycles, w);
        var q :| IsPath(g, q) && q[0] == w && Count(g, f, q) == Dist(g, f, cycles, w).n;
        StepThen(g, f, u, q);
      }
    }
  }

  // ---------------------------------------------------------------------------
  // No bound means arbitrarily many assignments
  // ---------------------------------------------------------------------------

  /** A state that assigns `f` and follows itself starts walks that assign
      `f` any number of times. */
  lemma {:induction false} SelfLoopPumps(g: Nfa, f: int, u: nat, n: nat)
    requires Edge(g, u, u) && Tag(g, f, u) == 1
    ensures exists p | IsPath(g, p) && p[0] == u :: Count(g, f, p) >= n
    decreases n
  {
    if n == 0 {
      assert IsPath(g, [u]);
    } else {
      SelfLoopPumps(g, f, u, n - 1);
      var q :| IsPath(g, q) && q[0] == u && Count(g, f, q) >= n - 1;
      StepThen(g, f, u, q);
    }
  }

  /** A walk from `x` back to `x` that assigns `f` at least once can be
      repeated to assign `f` any number of times. */
  lemma {:induction false} LoopPumps(g: Nfa, f: int, x: nat, loop: seq<nat>, n: nat)
    requires PathFrom(g, loop, x, x) && Count(g, f, loop) >= 1
    ensures exists p | PathFrom(g, p, x, x) :: Count(g, f, p) >= n
    decreases n
  {
    if n == 0 {
      assert PathFrom(g, [x], x, x);
    } else {
      LoopPumps(g, f, x, loop, n - 1);
      var q :| PathFrom(g, q, x, x) && Count(g, f, q) >= n - 1;
      PathJoin(g, q, loop);
      CountJoin(g, f, q, loop);
    }
  }

  /** A set with at least two elements has one besides `x`. */
  lemma OtherMember(s: set<nat>, x: nat)
    ensures |s| >= 2 ==> exists y :: y in s && y != x
  {
    if s <= {x} {
      SubsetCard(s, {x});
    }
  }

  /** A reachable state of a kept component that assigns `f` makes walks from
      the start assign `f` any number of times. */
  lemma CycleTagPumps(g: Nfa, f: int, cycles: map<nat, seq<nat>>, x: nat, n: nat)
    requires WellFormed(g) && ValidComponents(g, cycles) && x in cycles && Tag(g, f, x) == 1
    ensures CountReached(g, f, n)
  {
    ReachInRange(g, g.start, x);
    OtherMember(Scc(g, x), x);
    var y :| y in Scc(g, x) && y != x;
    var l1 :| PathFrom(g, l1, x, y);
    var l2 :| PathFrom(g, l2, y, x);
    PathJoin(g, l1, l2);
    var loop := l1 + l2[1..];
    CountJoin(g, f, l1, l2);
    assert |l1| >= 2;
    assert Count(g, f, l1) >= 1;
    LoopPumps(g, f, x, loop, n);
    var p :| PathFrom(g, p, x, x) && Count(g, f, p) >= n;
    var s :| PathFrom(g, s, g.start, x);
    PathJoin(g, s, p);
    CountJoin(g, f, s, p);
  }

  /** A reachable state without a bound starts walks that assign `f` any
      number of times. */
  lemma {:induction false} DistUnbounded(g: Nfa, f: int, cycles: map<nat, seq<nat>>, u: nat, n: nat)
    requires WellFormed(g) && ValidComponents(g, cycles) && !CycleTagged(g, cycles, f)
    requires Reach(g, g.start, u) && Dist(g, f, cycles, u) == Max
    ensures exists p | IsPath(g, p) && p[0] == u :: Count(g, f, p) >= n
    decreases |ReachSet(g, u)|
  {
    ReachInRange(g, g.start, u);
    if u in cycles {
      CycleFacts(g, cycles, u);
      var cycle := cycles[u];
      ExitMaxAttained(g, f, cycles, cycle, 0);
      var x, w :| x in cycle && Edge(g, x, w) && w !in cycle && Reach(g, g.start, w)
                 && Dist(g, f, cycles, w) == Max;
      ExitShrinks(g, cycles, cycle, x, w);
      DistUnbounded(g, f, cycles, w, n);
      var q :| IsPath(g, q) && q[0] == w && Count(g, f, q) >= n;
      ExitWalk(g, f, cycles, u, x, q);
    } else {
      StepMaxAttained(g, f, cycles, u, 0);
      if Edge(g, u, u) && Tag(g, f, u) == 1 {
        SelfLoopPumps(g, f, u, n);
      } else {
        var w :| Edge(g, u, w) && w != u && Reach(g, g.start, w) && Dist(g, f, cycles, w) == Max;
        StepShrinks(g, cycles, u, w);
        DistUnbounded(g, f, cycles, w, n);
        var q :| IsPath(g, q) && q[0] == w && Count(g, f, q) >= n;
        StepThen(g, f, u, q);
      }
    }
  }

  // ---------------------------------------------------------------------------
  // The bounds
  // ---------------------------------------------------------------------------

  /** `computeUpperBounds` with saturating arithmetic: a feature's bound is
      `MAX` exactly when walks from the start assign it arbitrarily often,
      and otherwise the largest number of times a walk assigns it. */
  lemma BoundsAreSupremum(g: Nfa, featureCount: nat)
    requires WellFormed(g) && TagsInRange(g, ComputeComponents(g), featureCount)
    ensures var bounds := ComputeUpperBounds(Saturating, g, featureCount);
            forall f | 0 <= f < featureCount ::
              && (bounds[f] == Max <==> Unbounded(g, f))
              && (bounds[f].Finite? ==> IsSup(g, f, bounds[f].n))
  {
    var cycles := ComputeComponents(g);
    ComputeComponentsCorrect(g);
    var bounds := ComputeUpperBounds(Saturating, g, featureCount);
    forall f | 0 <= f < featureCount
      ensures bounds[f] == Max <==> Unbounded(g, f)
      ensures bounds[f].Finite? ==> IsSup(g, f, bounds[f].n)
    {
      FeatureBound(g, featureCount, cycles, f);
    }
  }

  lemma FeatureBound(g: Nfa, featureCount: nat, cycles: map<nat, seq<nat>>, f: nat)
    requires WellFormed(g) && cycles == ComputeComponents(g) && ValidComponents(g, cycles)
    requires TagsInRange(g, cycles, featureCount) && f < featureCount
    ensures var b := ComputeUpperBounds(Saturating, g, featureCount)[f];
            && (b == Max <==> Unbounded(g, f))
            && (b.Finite? ==> IsSup(g, f, b.n))
  {
    var b := ComputeUpperBounds(Saturating, g, featureCount)[f];
    if CycleTagged(g, cycles, f) {
      var x :| x in cycles && x < |g.featureIds| && g.featureIds[x] == f;
      forall n: nat
        ensures CountReached(g, f, n)
      {
        CycleTagPumps(g, f, cycles, x, n);
      }
    } else {
      ReachRefl(g, g.start);
      UpperBoundIsDist(g, f, g.start, cycles, map[]);
      assert b == Dist(g, f, cycles, g.start);
      if b == Max {
        forall n: nat
          ensures CountReached(g, f, n)
        {
          DistUnbounded(g, f, cycles, g.start, n);
        }
      } else {
        forall p | IsPath(g, p) && p[0] == g.start
          ensures Count(g, f, p) <= b.n
        {
          CountWithin(g, f, cycles, g.start, p);
        }
        DistAttained(g, f, cycles, g.start);
        assert !CountReached(g, f, b.n + 1);
      }
    }
  }

  /** A feature no reachable state assigns has bound zero. */
  lemma UnassignedIsZero(g: Nfa, featureCount: nat, f: nat)
    requires WellFormed(g) && TagsInRange(g, ComputeComponents(g), featureCount) && f < featureCount
    requires forall u | Reach(g, g.start, u) :: Tag(g, f, u) == 0
    ensures ComputeUpperBounds(Saturating, g, featureCount)[f] == Finite(0)
  {
    BoundsAreSupremum(g, featureCount);
    ReachRefl(g, g.start);
    assert IsPath(g, [g.start]);
    assert CountReached(g, f, 0);
    forall p | IsPath(g, p) && p[0] == g.start
      ensures Count(g, f, p) == 0
    {
      forall i | 0 <= i < |p|
        ensures Tag(g, f, p[i]) == 0
      {
        assert PathFrom(g, p[..i + 1], g.start, p[i]);
      }
      CountUntagged(g, f, p);
    }
    assert !CountReached(g, f, 1);
  }
}
