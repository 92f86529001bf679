/**
 * Correctness of the component search. The proof follows the search call
 * by call. Besides the search state it tracks the `gray` states: those
 * whose `strongConnect` call is still running, in call order.
 *
 * The invariant says that:
 * - numbers are below `nextIndex` and grow along the stack;
 * - the states off the stack are exactly those of the finished components,
 *   each finished component is a whole strongly connected component, and
 *   no edge leaves the finished states;
 * - every state that is numbered and not gray has all its followers numbered;
 * - a state on the stack reaches every state above it, reaches a gray state
 *   numbered no higher than itself, and reaches a state on the stack whose
 *   number is its low link.
 */
module TarjanProof {
  import opened StateGraph
  import opened Tarjan

  /** No state occurs twice. */
  ghost predicate Distinct(xs: seq<nat>) {
    forall i, j {:trigger Apart(xs, i, j)} :: Apart(xs, i, j)
  }

  /** Positions `i < j` of `xs` hold different states. */
  ghost predicate Apart(xs: seq<nat>, i: int, j: int) {
    0 <= i < j < |xs| ==> xs[i] != xs[j]
  }

  ghost function SetOf(xs: seq<nat>): set<nat> {
    set x | x in xs
  }

  /** The numbered states that are off the stack. */
  ghost function Done(s: TState): set<nat> {
    s.index.Keys - s.onStack
  }

  ghost predicate IndexInv(g: Nfa, s: TState) {
    && Shape(g, s)
    && (forall u | u in s.index :: s.index[u] < s.nextIndex)
  }

  // Each part of the invariant is stated over exactly the fields it reads,
  // so a step that changes other fields keeps it without further proof.

  ghost predicate StackInv(s: TState) {
    StackOk(s.stack, s.onStack, s.index)
  }

  /** The stack holds numbered states without repetition, and `onStack` is
      the set of its states. */
  ghost predicate StackOk(stack: seq<nat>, onStack: set<nat>, index: map<nat, nat>) {
    && (forall x :: x in onStack <==> x in stack)
    && (forall i | 0 <= i < |stack| :: stack[i] in index)
    && Distinct(stack)
  }

  ghost predicate CompInv(g: Nfa, s: TState) {
    CompsOk(g, s.components, s.index, s.onStack)
  }

  /** The finished components are disjoint, duplicate-free, whole strongly
      connected components, and cover exactly the numbered states off the
      stack, which no edge leaves. */
  ghost predicate CompsOk(g: Nfa, comps: seq<seq<nat>>, index: map<nat, nat>, onStack: set<nat>) {
    && (forall k | 0 <= k < |comps| :: comps[k] != [] && Distinct(comps[k]))
    && (forall k, x {:trigger x in comps[k]} | 0 <= k < |comps| && x in comps[k] ::
          x in index && x !in onStack && SetOf(comps[k]) == Scc(g, x))
    && (forall u {:trigger Covered(comps, index, onStack, u)} :: Covered(comps, index, onStack, u))
    && (forall k1, k2 {:trigger Separate(comps, k1, k2)} :: Separate(comps, k1, k2))
    && Closed(g, index.Keys - onStack)
  }

  /** A numbered state off the stack is in some finished component. */
  ghost predicate Covered(comps: seq<seq<nat>>, index: map<nat, nat>, onStack: set<nat>, u: nat) {
    u in index && u !in onStack ==> exists k :: 0 <= k < |comps| && u in comps[k]
  }

  /** Components `k1 < k2` share no state. */
  ghost predicate Separate(comps: seq<seq<nat>>, k1: int, k2: int) {
    0 <= k1 < k2 < |comps| ==> forall x | x in comps[k1] :: x !in comps[k2]
  }

  /** Every gray state reaches the innermost one. This depends on the graph
      only, so it survives every change of the search state. */
  ghost predicate GrayChain(g: Nfa, gray: seq<nat>) {
    forall k | 0 <= k < |gray| :: Reach(g, gray[k], gray[|gray| - 1])
  }

  ghost predicate GrayInv(g: Nfa, s: TState, gray: seq<nat>) {
    GrayOk(g, s.index, s.onStack, gray)
  }

  /** Gray states are numbered and on the stack, and every numbered state
      that is not gray has all its followers numbered. */
  ghost predicate GrayOk(g: Nfa, index: map<nat, nat>, onStack: set<nat>, gray: seq<nat>) {
    && GrayChain(g, gray)
    && (forall k | 0 <= k < |gray| :: gray[k] in onStack && gray[k] in index)
    && (forall u, w | u in index && u !in gray && Edge(g, u, w) :: w in index)
  }

  /** `u` reaches a gray state numbered no higher than itself. */
  ghost predicate ReachesGray(g: Nfa, index: map<nat, nat>, gray: seq<nat>, u: nat)
    requires u in index
  {
    exists k :: 0 <= k < |gray| && gray[k] in index && index[gray[k]] <= index[u] && Reach(g, u, gray[k])
  }

  /** The low link of `u` is the number of a state on the stack that `u` reaches. */
  ghost predicate LowWitnessed(g: Nfa, index: map<nat, nat>, lowLink: map<nat, nat>, onStack: set<nat>, u: nat)
    requires u in index && u in lowLink
  {
    lowLink[u] <= index[u] &&
    exists x :: x in onStack && x in index && lowLink[u] == index[x] && Reach(g, u, x)
  }

  /** A state on the stack reaches every state on the stack numbered after it. */
  ghost predicate Precedes(g: Nfa, index: map<nat, nat>, onStack: set<nat>, x: nat, y: nat) {
    x in onStack && y in onStack && x in index && y in index && index[x] <= index[y] ==> Reach(g, x, y)
  }

  ghost predicate ReachInv(g: Nfa, root: nat, s: TState, gray: seq<nat>) {
    PathsOk(g, root, s.index, s.onStack, gray) && LowsOk(g, s.index, s.lowLink, s.onStack)
  }

  /** Every numbered state is reachable from the root; states on the stack
      reach the states above them and a gray state. */
  ghost predicate PathsOk(g: Nfa, root: nat, index: map<nat, nat>, onStack: set<nat>, gray: seq<nat>) {
    && (forall u | u in index :: Reach(g, root, u))
    && (forall x, y {:trigger Precedes(g, index, onStack, x, y)} :: Precedes(g, index, onStack, x, y))
    && (forall u {:trigger ReachesGray(g, index, gray, u)} | u in onStack && u in index :: ReachesGray(g, index, gray, u))
  }

  /** Every state on the stack has a witnessed low link. */
  ghost predicate LowsOk(g: Nfa, index: map<nat, nat>, lowLink: map<nat, nat>, onStack: set<nat>) {
    forall u {:trigger LowWitnessed(g, index, lowLink, onStack, u)} | u in onStack && u in index && u in lowLink ::
      LowWitnessed(g, index, lowLink, onStack, u)
  }

  ghost predicate Inv(g: Nfa, root: nat, s: TState, gray: seq<nat>) {
    && IndexInv(g, s)
    && StackInv(s)
    && CompInv(g, s)
    && GrayInv(g, s, gray)
    && ReachInv(g, root, s, gray)
  }

  /** How `strongConnect(v)` is called: from the outside on the root with
      nothing gray, or on a follower of the innermost gray state. */
  ghost predicate CallOk(g: Nfa, root: nat, gray: seq<nat>, v: nat) {
    if gray == [] then v == root else Edge(g, gray[|gray| - 1], v)
  }

  /** The state after the first five statements of `strongConnect(v)`. */
  function Push(s: TState, v: nat): TState {
    s.(index := s.index[v := s.nextIndex],
       lowLink := s.lowLink[v := s.nextIndex],
       nextIndex := s.nextIndex + 1,
       stack := s.stack + [v],
       onStack := s.onStack + {v})
  }

  /** What a call that started in `s0` and has reached `s` leaves alone: the
      stack below is kept, old states keep their numbers, low links and
      stack membership, and everything above the old stack is new. */
  ghost predicate Frame(g: Nfa, s0: TState, s: TState) {
    && IndexInv(g, s0) && StackInv(s0) && Shape(g, s)
    && s.nextIndex >= s0.nextIndex
    && |s.stack| >= |s0.stack| && s.stack[..|s0.stack|] == s0.stack
    && (forall i | |s0.stack| <= i < |s.stack| :: s.stack[i] !in s0.index)
    && (forall u | u in s0.index :: u in s.index && s.index[u] == s0.index[u] && s.lowLink[u] == s0.lowLink[u])
    && (forall u | u in s0.index :: u in s.onStack <==> u in s0.onStack)
    && (forall u | u in s.index && u !in s0.index :: s.index[u] >= s0.nextIndex)
  }

  /** `v` was numbered and pushed by the call that started in `s0`, on top
      of the stack that call found; the gray states below it are on that
      stack and reach each other. */
  ghost predicate Entered(g: Nfa, v: nat, gray: seq<nat>, index: map<nat, nat>, onStack: set<nat>, stack: seq<nat>, s0: TState) {
    && GrayChain(g, gray) && (forall k | 0 <= k < |gray| :: gray[k] in s0.onStack)
    && v in index && v !in s0.index && index[v] == s0.nextIndex && v in onStack
    && |stack| > |s0.stack| && stack[|s0.stack|] == v
  }

  /** The first `i` followers of `v` are numbered. */
  ghost predicate Scanned(g: Nfa, v: nat, i: nat, index: map<nat, nat>)
    requires v < Size(g) && i <= |g.followers[v]|
  {
    forall j | 0 <= j < i :: g.followers[v][j] in index
  }

  /** `low` is at most the number of every state of the stack found in `s0`
      that an edge out of a state numbered since then (other than those in
      `skip`) leads to. */
  ghost predicate LowBound(g: Nfa, index: map<nat, nat>, low: nat, s0: TState, skip: set<nat>) {
    forall u, x | u in index && u !in s0.index && u !in skip && Edge(g, u, x) && x in s0.onStack && x in s0.index ::
      low <= s0.index[x]
  }

  /** The low link bound for the edges out of `v` handled so far and for
      those out of the states numbered since `v`. */
  ghost predicate LowBelow(g: Nfa, v: nat, i: nat, index: map<nat, nat>, low: nat, s0: TState)
    requires v < Size(g) && i <= |g.followers[v]|
  {
    && LowBound(g, index, low, s0, {v})
    && (forall j | 0 <= j < i && g.followers[v][j] in s0.onStack && g.followers[v][j] in s0.index ::
          low <= s0.index[g.followers[v][j]])
  }

  /** What holds in the loop over the followers of `v`, after `i` of them;
      `s0` is the state `strongConnect(v)` was called in. */
  ghost predicate FolInv(g: Nfa, root: nat, v: nat, i: nat, s: TState, gray: seq<nat>, s0: TState) {
    && WellFormed(g) && v < Size(g) && i <= |g.followers[v]|
    && Inv(g, root, s, gray + [v])
    && Frame(g, s0, s)
    && Entered(g, v, gray, s.index, s.onStack, s.stack, s0)
    && Scanned(g, v, i, s.index)
    && v in s.lowLink
    && LowBelow(g, v, i, s.index, s.lowLink[v], s0)
  }

  /** What holds when `strongConnect(v)`, called in `s0`, returns `r`. */
  ghost predicate ScPost(g: Nfa, root: nat, v: nat, s0: TState, r: TState, gray: seq<nat>) {
    && Inv(g, root, r, gray)
    && Frame(g, s0, r)
    && v in r.index && v !in s0.index && r.index[v] == s0.nextIndex && v in r.lowLink
    && (v !in r.onStack ==> r.lowLink[v] == r.index[v])
    && LowBound(g, r.index, r.lowLink[v], s0, {})
  }

  // ---------------------------------------------------------------------------
  // Entering strongConnect
  // ---------------------------------------------------------------------------

  /** Nothing gray means nothing on the stack. */
  lemma NoGrayEmptyStack(g: Nfa, root: nat, s: TState)
    requires Inv(g, root, s, [])
    ensures s.onStack == {}
  {
    assert forall u | u in s.onStack :: u in s.index && ReachesGray(g, s.index, [], u);
    assert forall u :: u !in s.onStack;
  }

  /** Every state on the stack reaches the innermost gray state. */
  lemma StackReachesTopGray(g: Nfa, root: nat, s: TState, gray: seq<nat>, u: nat)
    requires StackInv(s) && GrayChain(g, gray) && ReachInv(g, root, s, gray)
    requires u in s.onStack && gray != []
    ensures Reach(g, u, gray[|gray| - 1])
  {
    assert u in s.index;
    assert ReachesGray(g, s.index, gray, u);
    var k :| 0 <= k < |gray| && gray[k] in s.index && s.index[gray[k]] <= s.index[u] && Reach(g, u, gray[k]);
    ReachTrans(g, u, gray[k], gray[|gray| - 1]);
  }

  /** The first statements of `strongConnect(v)` set up the loop invariant. */
  lemma PushInv(g: Nfa, root: nat, s: TState, gray: seq<nat>, v: nat)
    requires WellFormed(g) && v < Size(g) && v !in s.index && root < Size(g)
    requires Inv(g, root, s, gray) && CallOk(g, root, gray, v)
    ensures FolInv(g, root, v, 0, Push(s, v), gray, s)
  {
    var s1 := Push(s, v);
    if gray == [] {
      NoGrayEmptyStack(g, root, s);
    }
    PushStack(g, s, v);
    PushComps(g, s, v);
    PushGray(g, root, s, gray, v);
    PushReach(g, root, s, gray, v);
    assert s1.stack[..|s.stack|] == s.stack;
  }

  lemma PushStack(g: Nfa, s: TState, v: nat)
    requires v < Size(g) && v !in s.index && IndexInv(g, s) && StackInv(s)
    ensures IndexInv(g, Push(s, v)) && StackInv(Push(s, v))
  {
    var s1 := Push(s, v);
    forall i, j
      ensures Apart(s1.stack, i, j)
    {
      if 0 <= i < j < |s1.stack| {
        assert Apart(s.stack, i, j);
        assert s1.stack[i] == s.stack[i];
      }
    }
  }

  lemma PushComps(g: Nfa, s: TState, v: nat)
    requires v !in s.index && CompInv(g, s)
    ensures CompInv(g, Push(s, v))
  {
    var s1 := Push(s, v);
    assert Done(s1) == Done(s);
    forall u
      ensures Covered(s1.components, s1.index, s1.onStack, u)
    {
      assert Covered(s.components, s.index, s.onStack, u);
    }
  }

  lemma PushGray(g: Nfa, root: nat, s: TState, gray: seq<nat>, v: nat)
    requires WellFormed(g) && v < Size(g) && v !in s.index
    requires GrayInv(g, s, gray) && CallOk(g, root, gray, v)
    ensures GrayInv(g, Push(s, v), gray + [v])
  {
    var gray1 := gray + [v];
    forall k | 0 <= k < |gray1|
      ensures Reach(g, gray1[k], v)
    {
      if k == |gray| {
        ReachRefl(g, v);
      } else {
        assert gray1[k] == gray[k];
        ReachTrans(g, gray[k], gray[|gray| - 1], v) by { ReachEdge(g, gray[|gray| - 1], v); }
      }
    }
  }

  lemma PushReach(g: Nfa, root: nat, s: TState, gray: seq<nat>, v: nat)
    requires WellFormed(g) && v < Size(g) && v !in s.index && root < Size(g)
    requires IndexInv(g, s) && StackInv(s) && GrayInv(g, s, gray) && ReachInv(g, root, s, gray)
    requires CallOk(g, root, gray, v)
    requires gray == [] ==> s.onStack == {}
    ensures ReachInv(g, root, Push(s, v), gray + [v])
  {
    if gray == [] {
      ReachRefl(g, root);
    } else {
      var p := gray[|gray| - 1];
      assert p in s.index;
      ReachTrans(g, root, p, v) by { ReachEdge(g, p, v); }
    }
    PushReachesGray(g, root, s, gray, v);
    PushLowWitnessed(g, root, s, gray, v);
    PushPrecedes(g, root, s, gray, v);
  }

  lemma PushReachesGray(g: Nfa, root: nat, s: TState, gray: seq<nat>, v: nat)
    requires v !in s.index && IndexInv(g, s) && ReachInv(g, root, s, gray)
    ensures var s1 := Push(s, v);
      forall u {:trigger ReachesGray(g, s1.index, gray + [v], u)} | u in s1.onStack && u in s1.index ::
        ReachesGray(g, s1.index, gray + [v], u)
  {
    var s1 := Push(s, v);
    var gray1 := gray + [v];
    forall u | u in s1.onStack && u in s1.index
      ensures ReachesGray(g, s1.index, gray1, u)
    {
      if u == v {
        ReachRefl(g, v);
        assert gray1[|gray|] == v;
      } else {
        assert ReachesGray(g, s.index, gray, u);
        var k :| 0 <= k < |gray| && gray[k] in s.index && s.index[gray[k]] <= s.index[u] && Reach(g, u, gray[k]);
        assert gray1[k] == gray[k];
      }
    }
  }

  lemma PushLowWitnessed(g: Nfa, root: nat, s: TState, gray: seq<nat>, v: nat)
    requires v !in s.index && IndexInv(g, s) && ReachInv(g, root, s, gray)
    ensures var s1 := Push(s, v);
      forall u {:trigger LowWitnessed(g, s1.index, s1.lowLink, s1.onStack, u)} | u in s1.onStack && u in s1.index && u in s1.lowLink ::
        LowWitnessed(g, s1.index, s1.lowLink, s1.onStack, u)
  {
    var s1 := Push(s, v);
    forall u | u in s1.onStack && u in s1.index && u in s1.lowLink
      ensures LowWitnessed(g, s1.index, s1.lowLink, s1.onStack, u)
    {
      if u == v {
        ReachRefl(g, v);
      } else {
        assert LowWitnessed(g, s.index, s.lowLink, s.onStack, u);
      }
    }
  }

  lemma PushPrecedes(g: Nfa, root: nat, s: TState, gray: seq<nat>, v: nat)
    requires WellFormed(g) && v < Size(g) && v !in s.index
    requires IndexInv(g, s) && StackInv(s) && GrayChain(g, gray) && ReachInv(g, root, s, gray)
    requires CallOk(g, root, gray, v)
    requires gray == [] ==> s.onStack == {}
    ensures forall x, y {:trigger Precedes(g, Push(s, v).index, Push(s, v).onStack, x, y)} :: Precedes(g, Push(s, v).index, Push(s, v).onStack, x, y)
  {
    var s1 := Push(s, v);
    forall x, y
      ensures Precedes(g, s1.index, s1.onStack, x, y)
    {
      if x in s1.onStack && y in s1.onStack && x in s1.index && y in s1.index && s1.index[x] <= s1.index[y] {
        if y == v {
          if x == v {
            ReachRefl(g, v);
          } else {
            StackReachesTopGray(g, root, s, gray, x);
            ReachTrans(g, x, gray[|gray| - 1], v) by { ReachEdge(g, gray[|gray| - 1], v); }
          }
        } else {
          assert Precedes(g, s.index, s.onStack, x, y);
        }
      }
    }
  }

  // ---------------------------------------------------------------------------
  // The loop over the followers
  // ---------------------------------------------------------------------------

  /** Lowering the low link of a state on the stack to a value some state on
      the stack witnesses keeps the invariant. */
  lemma LowerLowLink(g: Nfa, root: nat, s: TState, gray: seq<nat>, v: nat, m: nat)
    requires Inv(g, root, s, gray) && v in s.index && v in s.onStack
    requires LowWitnessed(g, s.index, s.lowLink[v := m], s.onStack, v)
    ensures Inv(g, root, s.(lowLink := s.lowLink[v := m]), gray)
  {
    var low := s.lowLink[v := m];
    assert low.Keys == s.lowLink.Keys;
    forall u | u in s.onStack && u in s.index && u in low
      ensures LowWitnessed(g, s.index, low, s.onStack, u)
    {
      if u != v {
        assert LowWitnessed(g, s.index, s.lowLink, s.onStack, u);
      }
    }
    var s1 := s.(lowLink := low);
    assert IndexInv(g, s1);
    assert StackInv(s1) && CompInv(g, s1) && GrayInv(g, s1, gray);
    assert ReachInv(g, root, s1, gray);
  }

  /** A call nested in another leaves alone what the outer one does. */
  lemma FrameTrans(g: Nfa, s0: TState, s1: TState, s2: TState)
    requires Frame(g, s0, s1) && Frame(g, s1, s2)
    ensures Frame(g, s0, s2)
  {
    assert s2.stack[..|s0.stack|] == s2.stack[..|s1.stack|][..|s0.stack|];
    forall i | |s0.stack| <= i < |s2.stack|
      ensures s2.stack[i] !in s0.index
    {
      if i < |s1.stack| {
        assert s2.stack[i] == s2.stack[..|s1.stack|][i];
      }
    }
  }

  /** Changing the low link of a state the outer call did not know keeps its frame. */
  lemma FrameLowLink(g: Nfa, s0: TState, s: TState, v: nat, m: nat)
    requires Frame(g, s0, s) && v !in s0.index && v in s.index
    ensures Frame(g, s0, s.(lowLink := s.lowLink[v := m]))
  {
  }

  /** A nested call keeps what the loop knows about `v`'s place. */
  lemma EnteredFrame(g: Nfa, v: nat, gray: seq<nat>, s: TState, r: TState, s0: TState)
    requires Entered(g, v, gray, s.index, s.onStack, s.stack, s0) && Frame(g, s, r)
    ensures Entered(g, v, gray, r.index, r.onStack, r.stack, s0)
  {
    assert r.stack[|s0.stack|] == r.stack[..|s.stack|][|s0.stack|];
  }

  /** Handling one more follower whose number (if it is on the stack found
      in `s0`) is at least the new low link. */
  lemma LowBelowStep(g: Nfa, v: nat, i: nat, index: map<nat, nat>, low: nat, m: nat, s0: TState)
    requires v < Size(g) && i < |g.followers[v]|
    requires LowBelow(g, v, i, index, low, s0) && m <= low
    requires g.followers[v][i] in s0.onStack && g.followers[v][i] in s0.index ==> m <= s0.index[g.followers[v][i]]
    ensures LowBelow(g, v, i + 1, index, m, s0)
  {
  }

  /** After a tree edge `v -> w`, the smaller of the two low links is
      witnessed for `v`. */
  lemma TreeEdgeWitness(g: Nfa, v: nat, w: nat, r: TState)
    requires Edge(g, v, w) && v in r.index && v in r.onStack && w in r.index
    requires v in r.lowLink && w in r.lowLink && r.index[v] < r.index[w]
    requires LowsOk(g, r.index, r.lowLink, r.onStack)
    requires w !in r.onStack ==> r.lowLink[w] == r.index[w]
    ensures LowWitnessed(g, r.index, r.lowLink[v := Min(r.lowLink[v], r.lowLink[w])], r.onStack, v)
  {
    assert LowWitnessed(g, r.index, r.lowLink, r.onStack, v);
    if w in r.onStack && r.lowLink[w] < r.lowLink[v] {
      assert LowWitnessed(g, r.index, r.lowLink, r.onStack, w);
      var x :| x in r.onStack && x in r.index && r.lowLink[w] == r.index[x] && Reach(g, w, x);
      ReachEdgeThen(g, v, w, x);
    }
  }

  /** After a tree edge, the low link bound covers the states the nested
      call numbered. */
  lemma TreeEdgeBound(g: Nfa, v: nat, i: nat, s: TState, r: TState, m: nat, s0: TState)
    requires v < Size(g) && i < |g.followers[v]| && v in s.lowLink
    requires LowBelow(g, v, i, s.index, s.lowLink[v], s0) && Frame(g, s0, s) && Frame(g, s, r)
    requires g.followers[v][i] in r.lowLink && g.followers[v][i] !in s.index
    requires LowBound(g, r.index, r.lowLink[g.followers[v][i]], s, {})
    requires m <= s.lowLink[v] && m <= r.lowLink[g.followers[v][i]]
    ensures LowBelow(g, v, i + 1, r.index, m, s0)
  {
    var w := g.followers[v][i];
    forall u, x | u in r.index && u !in s0.index && u !in {v} && Edge(g, u, x) && x in s0.onStack && x in s0.index
      ensures m <= s0.index[x]
    {
      if u !in s.index {
        assert x in s.onStack && x in s.index && s.index[x] == s0.index[x];
      }
    }
  }

  /** A follower that was not numbered yet: the recursive call, then the low
      link of `v` drops to the follower's if that is lower. */
  lemma TreeEdgeStep(g: Nfa, root: nat, v: nat, i: nat, s: TState, gray: seq<nat>, s0: TState, r: TState)
    requires FolInv(g, root, v, i, s, gray, s0) && i < |g.followers[v]|
    requires g.followers[v][i] !in s.index
    requires ScPost(g, root, g.followers[v][i], s, r, gray + [v])
    ensures v in r.lowLink && g.followers[v][i] in r.lowLink
    ensures FolInv(g, root, v, i + 1,
                   r.(lowLink := r.lowLink[v := Min(r.lowLink[v], r.lowLink[g.followers[v][i]])]), gray, s0)
  {
    TreeEdgeInv(g, root, v, i, s, gray, s0, r);
    TreeEdgeFrame(g, root, v, i, s, gray, s0, r);
  }

  /** After a tree edge the search invariant holds with the lowered low link. */
  lemma TreeEdgeInv(g: Nfa, root: nat, v: nat, i: nat, s: TState, gray: seq<nat>, s0: TState, r: TState)
    requires FolInv(g, root, v, i, s, gray, s0) && i < |g.followers[v]|
    requires g.followers[v][i] !in s.index
    requires ScPost(g, root, g.followers[v][i], s, r, gray + [v])
    ensures v in r.lowLink && g.followers[v][i] in r.lowLink && v in r.index
    ensures Inv(g, root, r.(lowLink := r.lowLink[v := Min(r.lowLink[v], r.lowLink[g.followers[v][i]])]), gray + [v])
  {
    var w := g.followers[v][i];
    assert Edge(g, v, w);
    EnteredFrame(g, v, gray, s, r, s0);
    assert r.index[v] == s.index[v] < s.nextIndex && r.lowLink[v] == s.lowLink[v];
    TreeEdgeWitness(g, v, w, r);
    LowerLowLink(g, root, r, gray + [v], v, Min(r.lowLink[v], r.lowLink[w]));
  }

  /** After a tree edge the frame, the entry of `v`, the scanned prefix and
      the low link bound hold with the lowered low link. */
  lemma TreeEdgeFrame(g: Nfa, root: nat, v: nat, i: nat, s: TState, gray: seq<nat>, s0: TState, r: TState)
    requires FolInv(g, root, v, i, s, gray, s0) && i < |g.followers[v]|
    requires g.followers[v][i] !in s.index
    requires ScPost(g, root, g.followers[v][i], s, r, gray + [v])
    ensures v in r.lowLink && g.followers[v][i] in r.lowLink
    ensures var r' := r.(lowLink := r.lowLink[v := Min(r.lowLink[v], r.lowLink[g.followers[v][i]])]);
            && Frame(g, s0, r')
            && Entered(g, v, gray, r'.index, r'.onStack, r'.stack, s0)
            && Scanned(g, v, i + 1, r'.index)
            && LowBelow(g, v, i + 1, r'.index, r'.lowLink[v], s0)
  {
    var w := g.followers[v][i];
    EnteredFrame(g, v, gray, s, r, s0);
    assert r.lowLink[v] == s.lowLink[v];
    var m := Min(r.lowLink[v], r.lowLink[w]);
    FrameTrans(g, s0, s, r);
    FrameLowLink(g, s0, r, v, m);
    TreeEdgeBound(g, v, i, s, r, m, s0);
    assert Scanned(g, v, i + 1, r.index);
  }

  /** A follower that is on the stack: the low link of `v` drops to its
      number if that is lower. */
  lemma BackEdgeStep(g: Nfa, root: nat, v: nat, i: nat, s: TState, gray: seq<nat>, s0: TState)
    requires FolInv(g, root, v, i, s, gray, s0) && i < |g.followers[v]|
    requires g.followers[v][i] in s.index && g.followers[v][i] in s.onStack
    ensures FolInv(g, root, v, i + 1,
                   s.(lowLink := s.lowLink[v := Min(s.lowLink[v], s.index[g.followers[v][i]])]), gray, s0)
  {
    var w := g.followers[v][i];
    var m := Min(s.lowLink[v], s.index[w]);
    assert LowWitnessed(g, s.index, s.lowLink, s.onStack, v);
    if s.index[w] < s.lowLink[v] {
      ReachEdge(g, v, w);
    }
    assert LowWitnessed(g, s.index, s.lowLink[v := m], s.onStack, v);
    LowerLowLink(g, root, s, gray + [v], v, m);
    FrameLowLink(g, s0, s, v, m);
    LowBelowStep(g, v, i, s.index, s.lowLink[v], m, s0);
    assert Scanned(g, v, i + 1, s.index);
  }

  /** A follower that is numbered and off the stack changes nothing. */
  lemma CrossEdgeStep(g: Nfa, root: nat, v: nat, i: nat, s: TState, gray: seq<nat>, s0: TState)
    requires FolInv(g, root, v, i, s, gray, s0) && i < |g.followers[v]|
    requires g.followers[v][i] in s.index && g.followers[v][i] !in s.onStack
    ensures FolInv(g, root, v, i + 1, s, gray, s0)
  {
    LowBelowStep(g, v, i, s.index, s.lowLink[v], s.lowLink[v], s0);
    assert Scanned(g, v, i + 1, s.index);
  }

  // ---------------------------------------------------------------------------
  // Leaving strongConnect
  // ---------------------------------------------------------------------------

  /** Once every follower of `v` is handled, the low link bound covers the
      edges out of `v` too. */
  lemma LowBoundAll(g: Nfa, v: nat, index: map<nat, nat>, low: nat, s0: TState)
    requires v < Size(g)
    requires LowBelow(g, v, |g.followers[v]|, index, low, s0)
    ensures LowBound(g, index, low, s0, {})
  {
    forall u, x | u in index && u !in s0.index && Edge(g, u, x) && x in s0.onStack && x in s0.index
      ensures low <= s0.index[x]
    {
      if u == v {
        var j :| 0 <= j < |g.followers[v]| && g.followers[v][j] == x;
      }
    }
  }

  /** `v` stops being gray once all its followers are numbered. */
  lemma UngrayGray(g: Nfa, index: map<nat, nat>, onStack: set<nat>, gray: seq<nat>, v: nat)
    requires GrayOk(g, index, onStack, gray + [v]) && GrayChain(g, gray) && v !in gray
    requires forall w | Edge(g, v, w) :: w in index
    ensures GrayOk(g, index, onStack, gray)
  {
    var gray1 := gray + [v];
    forall k | 0 <= k < |gray|
      ensures gray[k] in onStack && gray[k] in index
    {
      assert gray1[k] == gray[k];
    }
  }

  /** `v` stops being gray while a state `x` numbered below it, which `v`
      reaches, is on the stack: whatever reached `v` now reaches the gray
      state `x` reaches. */
  lemma UngrayPaths(g: Nfa, root: nat, index: map<nat, nat>, onStack: set<nat>, gray: seq<nat>, v: nat, x: nat)
    requires PathsOk(g, root, index, onStack, gray + [v])
    requires v in index && x in index && x in onStack && index[x] < index[v] && Reach(g, v, x)
    ensures PathsOk(g, root, index, onStack, gray)
  {
    var gray1 := gray + [v];
    assert ReachesGray(g, index, gray1, x);
    var kx :| 0 <= kx < |gray1| && gray1[kx] in index && index[gray1[kx]] <= index[x] && Reach(g, x, gray1[kx]);
    assert kx < |gray| && gray1[kx] == gray[kx];
    forall u | u in onStack && u in index
      ensures ReachesGray(g, index, gray, u)
    {
      assert ReachesGray(g, index, gray1, u);
      var k :| 0 <= k < |gray1| && gray1[k] in index && index[gray1[k]] <= index[u] && Reach(g, u, gray1[k]);
      if k < |gray| {
        assert gray1[k] == gray[k];
      } else {
        ReachTrans(g, u, v, x);
        ReachTrans(g, u, x, gray[kx]);
      }
    }
  }

  /** Leaving `strongConnect(v)` without popping: `v` stops being gray. Its
      low link names a state below it that the states above `v` can reach
      instead of `v`. */
  lemma FinishNonRoot(g: Nfa, root: nat, v: nat, s: TState, gray: seq<nat>, s0: TState)
    requires v < Size(g) && FolInv(g, root, v, |g.followers[v]|, s, gray, s0)
    requires s.lowLink[v] != s.index[v]
    ensures ScPost(g, root, v, s0, s, gray)
  {
    LowBoundAll(g, v, s.index, s.lowLink[v], s0);
    assert v !in gray;
    assert LowWitnessed(g, s.index, s.lowLink, s.onStack, v);
    var x :| x in s.onStack && x in s.index && s.lowLink[v] == s.index[x] && Reach(g, v, x);
    UngrayGray(g, s.index, s.onStack, gray, v);
    UngrayPaths(g, root, s.index, s.onStack, gray, v, x);
  }

  /** The stack of a call in progress is the stack it found plus the states
      it pushed, which are all new. */
  lemma RootSplit(g: Nfa, s0: TState, s: TState)
    requires Frame(g, s0, s) && StackInv(s)
    ensures var c := SetOf(s.stack[|s0.stack|..]);
      && c <= s.onStack && c <= s.index.Keys && c !! s0.index.Keys
      && s.onStack - c == s0.onStack
      && (forall w | w in s.onStack && w !in c :: w in s0.onStack && w in s0.index)
  {
    var k := |s0.stack|;
    var c := SetOf(s.stack[k..]);
    assert s.stack == s0.stack + s.stack[k..];
    forall w | w in c
      ensures w in s.onStack && w in s.index && w !in s0.index
    {
      var i :| k <= i < |s.stack| && s.stack[i] == w;
    }
  }

  /** When the low link of `v` is its own number, no edge leaves the
      finished states together with the states `strongConnect(v)` pushed:
      an edge back into the older stack would have lowered the low link. */
  lemma RootClosed(g: Nfa, c: set<nat>, index: map<nat, nat>, onStack: set<nat>, low: nat, s0: TState)
    requires Closed(g, index.Keys - onStack) && c <= index.Keys && c !! s0.index.Keys
    requires forall u, w | u in c && Edge(g, u, w) :: w in index
    requires forall w | w in onStack && w !in c :: w in s0.onStack && w in s0.index
    requires forall w | w in s0.index :: s0.index[w] < low
    requires LowBound(g, index, low, s0, {})
    ensures Closed(g, (index.Keys - onStack) + c)
  {
  }

  /** The states pushed by a call whose low link is its own number are its
      strongly connected component. */
  lemma RootScc(g: Nfa, v: nat, c: set<nat>, comps: seq<seq<nat>>, index: map<nat, nat>, onStack: set<nat>)
    requires WellFormed(g) && v < Size(g) && v in c && v in onStack
    requires CompsOk(g, comps, index, onStack) && Closed(g, (index.Keys - onStack) + c)
    requires forall u | u in c :: u < Size(g) && Reach(g, v, u) && Reach(g, u, v)
    ensures c == Scc(g, v)
  {
    forall y | y in index.Keys - onStack
      ensures y !in Scc(g, v)
    {
      assert Covered(comps, index, onStack, y);
      var k :| 0 <= k < |comps| && y in comps[k];
      assert v !in SetOf(comps[k]);
      assert y in SetOf(comps[k]) && SetOf(comps[k]) == Scc(g, y);
      SccSymmetric(g, y, v);
    }
    forall y | y in Scc(g, v)
      ensures y in c
    {
      ClosedReach(g, (index.Keys - onStack) + c, v, y);
    }
  }

  /** Every state `strongConnect(v)` pushed reaches `v` and is reached from it. */
  lemma RootReach(g: Nfa, root: nat, v: nat, c: set<nat>, index: map<nat, nat>, onStack: set<nat>, gray: seq<nat>)
    requires PathsOk(g, root, index, onStack, gray + [v]) && GrayChain(g, gray + [v])
    requires v in index && v in onStack && c <= onStack
    requires forall u | u in c :: u in index && index[v] <= index[u]
    ensures forall u | u in c :: Reach(g, v, u) && Reach(g, u, v)
  {
    var gray1 := gray + [v];
    forall u | u in c
      ensures Reach(g, v, u) && Reach(g, u, v)
    {
      assert Precedes(g, index, onStack, v, u);
      assert ReachesGray(g, index, gray1, u);
      var k :| 0 <= k < |gray1| && gray1[k] in index && index[gray1[k]] <= index[u] && Reach(g, u, gray1[k]);
      ReachTrans(g, u, gray1[k], v);
    }
  }

  /** Appending a whole component popped off the stack keeps the finished
      components in order. */
  lemma CompsAppend(g: Nfa, comps: seq<seq<nat>>, comp: seq<nat>, index: map<nat, nat>, onStack: set<nat>, onStack': set<nat>)
    requires CompsOk(g, comps, index, onStack)
    requires comp != [] && Distinct(comp) && SetOf(comp) <= onStack && SetOf(comp) <= index.Keys
    requires onStack' == onStack - SetOf(comp)
    requires forall x | x in comp :: SetOf(comp) == Scc(g, x)
    requires Closed(g, index.Keys - onStack')
    ensures CompsOk(g, comps + [comp], index, onStack')
  {
    var comps' := comps + [comp];
    forall k | 0 <= k < |comps|
      ensures comps'[k] == comps[k]
    {
    }
    assert comps'[|comps|] == comp;
    forall u
      ensures Covered(comps', index, onStack', u)
    {
      if u in index && u !in onStack' {
        if u in onStack {
          assert u in comps'[|comps|];
        } else {
          assert Covered(comps, index, onStack, u);
          var k :| 0 <= k < |comps| && u in comps[k];
          assert u in comps'[k];
        }
      }
    }
    forall k, x | 0 <= k < |comps'| && x in comps'[k]
      ensures x in index && x !in onStack' && SetOf(comps'[k]) == Scc(g, x)
    {
    }
    forall k1, k2
      ensures Separate(comps', k1, k2)
    {
      if 0 <= k1 < k2 < |comps'| {
        if k2 == |comps| {
          assert forall x | x in comps[k1] :: x !in onStack;
        } else {
          assert Separate(comps, k1, k2);
        }
      }
    }
  }

  /** Facts about numbered states carry over to a larger numbering. */
  lemma PathsGrow(g: Nfa, root: nat, index0: map<nat, nat>, index: map<nat, nat>, onStack: set<nat>, gray: seq<nat>)
    requires PathsOk(g, root, index0, onStack, gray) && onStack <= index0.Keys
    requires forall u | u in index0 :: u in index && index[u] == index0[u]
    requires forall u | u in index :: Reach(g, root, u)
    ensures PathsOk(g, root, index, onStack, gray)
  {
    forall x, y
      ensures Precedes(g, index, onStack, x, y)
    {
      assert Precedes(g, index0, onStack, x, y);
    }
    forall u | u in onStack && u in index
      ensures ReachesGray(g, index, gray, u)
    {
      assert ReachesGray(g, index0, gray, u);
    }
  }

  lemma LowsGrow(g: Nfa, index0: map<nat, nat>, low0: map<nat, nat>, index: map<nat, nat>, low: map<nat, nat>, onStack: set<nat>)
    requires LowsOk(g, index0, low0, onStack) && onStack <= index0.Keys && onStack <= low0.Keys
    requires forall u | u in index0 :: u in index && index[u] == index0[u]
    requires forall u | u in low0 :: u in low && low[u] == low0[u]
    ensures LowsOk(g, index, low, onStack)
  {
    forall u | u in onStack && u in index && u in low
      ensures LowWitnessed(g, index, low, onStack, u)
    {
      assert LowWitnessed(g, index0, low0, onStack, u);
    }
  }

  lemma StackGrow(stack: seq<nat>, onStack: set<nat>, index0: map<nat, nat>, index: map<nat, nat>)
    requires StackOk(stack, onStack, index0) && index0.Keys <= index.Keys
    ensures StackOk(stack, onStack, index)
  {
  }

  /** Every follower of a state `strongConnect(v)` pushed is numbered once
      the loop over the followers of `v` is over. */
  lemma PushedFollowers(g: Nfa, root: nat, v: nat, s: TState, gray: seq<nat>, s0: TState)
    requires v < Size(g) && FolInv(g, root, v, |g.followers[v]|, s, gray, s0)
    ensures forall u, w | u in SetOf(s.stack[|s0.stack|..]) && Edge(g, u, w) :: w in s.index
  {
    var gray1 := gray + [v];
    RootSplit(g, s0, s);
    forall u, w | u in SetOf(s.stack[|s0.stack|..]) && Edge(g, u, w)
      ensures w in s.index
    {
      if u == v {
        var j :| 0 <= j < |g.followers[v]| && g.followers[v][j] == w;
      } else {
        assert u !in gray1;
      }
    }
  }

  /** Popping down to `v` takes exactly the states `strongConnect(v)` pushed. */
  lemma RootPop(g: Nfa, root: nat, v: nat, s: TState, gray: seq<nat>, s0: TState)
    requires Frame(g, s0, s) && StackInv(s) && |s.stack| > |s0.stack| && s.stack[|s0.stack|] == v
    ensures var popped := PopComponent(s.stack, s.onStack, [], v);
      && popped.0 == s0.stack && popped.1 == s0.onStack
      && popped.2 != [] && Distinct(popped.2) && SetOf(popped.2) == SetOf(s.stack[|s0.stack|..])
      && SetOf(popped.2) <= s.onStack && SetOf(popped.2) <= s.index.Keys
      && s0.onStack == s.onStack - SetOf(popped.2)
  {
    var k := |s0.stack|;
    RootSplit(g, s0, s);
    PopComponentSpec(s.stack, s.onStack, [], k);
    assert SetOf([]) == {};
  }

  /** The states `strongConnect(v)` pushed, when the low link of `v` is its
      own number, are the component of `v`. */
  lemma RootComponent(g: Nfa, root: nat, v: nat, s: TState, gray: seq<nat>, s0: TState)
    requires v < Size(g) && FolInv(g, root, v, |g.followers[v]|, s, gray, s0)
    requires s.lowLink[v] == s.index[v]
    ensures var popped := PopComponent(s.stack, s.onStack, [], v);
      && popped.0 == s0.stack && popped.1 == s0.onStack
      && popped.2 != [] && Distinct(popped.2) && SetOf(popped.2) == Scc(g, v)
      && SetOf(popped.2) <= s.onStack && SetOf(popped.2) <= s.index.Keys
      && s0.onStack == s.onStack - SetOf(popped.2)
      && Closed(g, s.index.Keys - s0.onStack)
    ensures LowBound(g, s.index, s.lowLink[v], s0, {})
  {
    RootPop(g, root, v, s, gray, s0);
    var k := |s0.stack|;
    var c := SetOf(s.stack[k..]);
    LowBoundAll(g, v, s.index, s.lowLink[v], s0);
    RootSplit(g, s0, s);
    PushedFollowers(g, root, v, s, gray, s0);
    assert s.stack[k..][0] == v;
    RootClosed(g, c, s.index, s.onStack, s.lowLink[v], s0);
    RootReach(g, root, v, c, s.index, s.onStack, gray);
    RootScc(g, v, c, s.components, s.index, s.onStack);
    assert (s.index.Keys - s.onStack) + c == s.index.Keys - s0.onStack;
  }

  /** Leaving `strongConnect(v)` by popping its component. */
  lemma FinishRoot(g: Nfa, root: nat, v: nat, s: TState, gray: seq<nat>, s0: TState)
    requires v < Size(g) && FolInv(g, root, v, |g.followers[v]|, s, gray, s0)
    requires Inv(g, root, s0, gray)
    requires s.lowLink[v] == s.index[v]
    ensures var popped := PopComponent(s.stack, s.onStack, [], v);
      ScPost(g, root, v, s0, s.(stack := popped.0, onStack := popped.1, components := s.components + [popped.2]), gray)
  {
    var popped := PopComponent(s.stack, s.onStack, [], v);
    RootComponent(g, root, v, s, gray, s0);
    var comp := popped.2;
    forall x | x in comp
      ensures SetOf(comp) == Scc(g, x)
    {
      SccMembers(g, v, x);
    }
    CompsAppend(g, s.components, comp, s.index, s.onStack, s0.onStack);
    StackGrow(s0.stack, s0.onStack, s0.index, s.index);
    UngrayGray(g, s.index, s.onStack, gray, v);
    PathsGrow(g, root, s0.index, s.index, s0.onStack, gray);
    LowsGrow(g, s0.index, s0.lowLink, s.index, s.lowLink, s0.onStack);
    var s3 := s.(stack := popped.0, onStack := popped.1, components := s.components + [comp]);
    assert IndexInv(g, s3);
    assert StackInv(s3);
    assert CompInv(g, s3);
    assert GrayInv(g, s3, gray);
    assert ReachInv(g, root, s3, gray);
    assert s0.stack[..|s0.stack|] == s0.stack;
    assert Frame(g, s0, s3);
  }

  // ---------------------------------------------------------------------------
  // The search, call by call
  // ---------------------------------------------------------------------------

  /** `strongConnect(v)`, called as the search calls it, keeps the invariant
      and pops exactly the strongly connected components it completes. */
  lemma SCCorrect(g: Nfa, root: nat, v: nat, s: TState, gray: seq<nat>)
    requires WellFormed(g) && root < Size(g) && v < Size(g) && v !in s.index
    requires Inv(g, root, s, gray) && CallOk(g, root, gray, v)
    ensures ScPost(g, root, v, s, StrongConnect(g, v, s), gray)
    decreases Unvisited(g, s), 0, 1
  {
    SCBody(g, root, v, s, gray);
    Finish(g, root, v, Followers(g, v, 0, Push(s, v)), gray, s);
  }

  /** Numbering and pushing `v`, then the loop over its followers. */
  lemma SCBody(g: Nfa, root: nat, v: nat, s: TState, gray: seq<nat>)
    requires WellFormed(g) && root < Size(g) && v < Size(g) && v !in s.index
    requires Inv(g, root, s, gray) && CallOk(g, root, gray, v)
    ensures FolInv(g, root, v, |g.followers[v]|, Followers(g, v, 0, Push(s, v)), gray, s)
    decreases Unvisited(g, s), 0, 0
  {
    PushInv(g, root, s, gray, v);
    NumberingShrinks(g, s, Push(s, v), v);
    FolCorrect(g, root, v, 0, Push(s, v), gray, s);
  }

  /** Numbering a new state leaves fewer states to visit. */
  lemma NumberingShrinks(g: Nfa, s: TState, r: TState, v: nat)
    requires v < Size(g) && v !in s.index && v in r.index && s.index.Keys <= r.index.Keys
    ensures Unvisited(g, r) < Unvisited(g, s)
  {
    assert v in Unvisited(g, s) && v !in Unvisited(g, r);
  }

  /** The end of `strongConnect(v)`: pop the component if `v` is its root. */
  lemma Finish(g: Nfa, root: nat, v: nat, s: TState, gray: seq<nat>, s0: TState)
    requires v < Size(g) && FolInv(g, root, v, |g.followers[v]|, s, gray, s0)
    requires Inv(g, root, s0, gray)
    ensures ScPost(g, root, v, s0,
      if s.lowLink[v] == s.index[v] then
        var popped := PopComponent(s.stack, s.onStack, [], v);
        s.(stack := popped.0, onStack := popped.1, components := s.components + [popped.2])
      else s, gray)
  {
    if s.lowLink[v] == s.index[v] {
      FinishRoot(g, root, v, s, gray, s0);
    } else {
      FinishNonRoot(g, root, v, s, gray, s0);
    }
  }

  /** The loop over the followers of `v` keeps the loop invariant to the end. */
  lemma FolCorrect(g: Nfa, root: nat, v: nat, i: nat, s: TState, gray: seq<nat>, s0: TState)
    requires root < Size(g) && FolInv(g, root, v, i, s, gray, s0)
    ensures FolInv(g, root, v, |g.followers[v]|, Followers(g, v, i, s), gray, s0)
    decreases Unvisited(g, s), 1, |g.followers[v]| - i, 1
  {
    if i < |g.followers[v]| {
      var w := g.followers[v][i];
      if w !in s.index {
        TreeEdgeNext(g, root, v, i, s, gray, s0);
        var r := StrongConnect(g, w, s);
        FolCorrect(g, root, v, i + 1, r.(lowLink := r.lowLink[v := Min(r.lowLink[v], r.lowLink[w])]), gray, s0);
      } else if w in s.onStack {
        BackEdgeStep(g, root, v, i, s, gray, s0);
        var s' := s.(lowLink := s.lowLink[v := Min(s.lowLink[v], s.index[w])]);
        assert Unvisited(g, s') == Unvisited(g, s);
        FolCorrect(g, root, v, i + 1, s', gray, s0);
      } else {
        CrossEdgeStep(g, root, v, i, s, gray, s0);
        FolCorrect(g, root, v, i + 1, s, gray, s0);
      }
    }
  }

  /** A follower not numbered yet: the recursive call, then the low link
      update, leave the loop invariant for the next follower and fewer states
      to visit. */
  lemma TreeEdgeNext(g: Nfa, root: nat, v: nat, i: nat, s: TState, gray: seq<nat>, s0: TState)
    requires root < Size(g) && FolInv(g, root, v, i, s, gray, s0)
    requires i < |g.followers[v]| && g.followers[v][i] !in s.index
    ensures var w := g.followers[v][i];
            var r := StrongConnect(g, w, s);
            v in r.lowLink && w in r.lowLink &&
            var s' := r.(lowLink := r.lowLink[v := Min(r.lowLink[v], r.lowLink[w])]);
            && FolInv(g, root, v, i + 1, s', gray, s0)
            && Unvisited(g, s') < Unvisited(g, s)
            && Followers(g, v, i, s) == Followers(g, v, i + 1, s')
    decreases Unvisited(g, s), 1, |g.followers[v]| - i, 0
  {
    var w := g.followers[v][i];
    SCCorrect(g, root, w, s, gray + [v]);
    var r := StrongConnect(g, w, s);
    NumberingShrinks(g, s, r, w);
    TreeEdgeStep(g, root, v, i, s, gray, s0, r);
    var s' := r.(lowLink := r.lowLink[v := Min(r.lowLink[v], r.lowLink[w])]);
    assert Unvisited(g, s') == Unvisited(g, r);
  }

  // ---------------------------------------------------------------------------
  // The whole search
  // ---------------------------------------------------------------------------

  lemma InitialInv(g: Nfa)
    requires WellFormed(g)
    ensures Inv(g, g.start, Initial, [])
  {
  }

  /** The search from the start state numbers exactly the reachable states,
      ends with an empty stack, and leaves every numbered state in one of
      the finished components. */
  lemma SearchCorrect(g: Nfa)
    requires WellFormed(g)
    ensures var r := StrongConnect(g, g.start, Initial);
      && r.index.Keys == ReachSet(g, g.start)
      && r.onStack == {}
      && CompsOk(g, r.components, r.index, r.onStack)
  {
    InitialInv(g);
    SCCorrect(g, g.start, g.start, Initial, []);
    var r := StrongConnect(g, g.start, Initial);
    NoGrayEmptyStack(g, g.start, r);
    forall u | u in ReachSet(g, g.start)
      ensures u in r.index
    {
      ClosedReach(g, r.index.Keys - r.onStack, g.start, u);
    }
  }

  /** The components the search pops: each is a whole strongly connected
      component without repetition, no two share a state, and together they
      hold exactly the states reachable from the start. */
  lemma ComponentsCorrect(g: Nfa)
    requires WellFormed(g)
    ensures var comps := StrongConnect(g, g.start, Initial).components;
      && (forall k | 0 <= k < |comps| :: comps[k] != [] && Distinct(comps[k]))
      && (forall k, x | 0 <= k < |comps| && x in comps[k] :: SetOf(comps[k]) == Scc(g, x))
      && (forall k1, k2 | 0 <= k1 < k2 < |comps| :: SetOf(comps[k1]) !! SetOf(comps[k2]))
      && (forall u :: Reach(g, g.start, u) <==> exists k :: 0 <= k < |comps| && u in comps[k])
  {
    SearchCorrect(g);
    var r := StrongConnect(g, g.start, Initial);
    var comps := r.components;
    forall k1, k2 | 0 <= k1 < k2 < |comps|
      ensures SetOf(comps[k1]) !! SetOf(comps[k2])
    {
      assert Separate(comps, k1, k2);
    }
    forall u
      ensures Reach(g, g.start, u) <==> exists k :: 0 <= k < |comps| && u in comps[k]
    {
      if Reach(g, g.start, u) {
        ReachInRange(g, g.start, u);
        assert u in ReachSet(g, g.start);
        assert Covered(comps, r.index, r.onStack, u);
      }
    }
  }

  /** A duplicate-free sequence has as many distinct states as positions. */
  lemma {:induction false} DistinctCard(xs: seq<nat>)
    requires Distinct(xs)
    ensures |SetOf(xs)| == |xs|
    decreases |xs|
  {
    if xs != [] {
      var init := xs[..|xs| - 1];
      var last := xs[|xs| - 1];
      DistinctTake(xs, |xs| - 1);
      DistinctCard(init);
      assert xs == init + [last];
      assert SetOf(xs) == SetOf(init) + {last};
      forall i | 0 <= i < |init|
        ensures init[i] != last
      {
        assert Apart(xs, i, |xs| - 1);
      }
    }
  }

  /** With components that share no state, the map sends every state of a
      component of at least two states to that component, and nothing else
      is in it. */
  lemma {:induction false} ComponentMapSpec(comps: seq<seq<nat>>)
    requires forall k1, k2 {:trigger Separate(comps, k1, k2)} :: Separate(comps, k1, k2)
    ensures forall u :: u in ComponentMap(comps) <==> exists k :: 0 <= k < |comps| && u in comps[k] && |comps[k]| >= 2
    ensures forall k, u | 0 <= k < |comps| && u in comps[k] && |comps[k]| >= 2 ::
              u in ComponentMap(comps) && ComponentMap(comps)[u] == comps[k]
    decreases |comps|
  {
    if comps != [] {
      var n := |comps| - 1;
      var init := comps[..n];
      var c := comps[n];
      forall k1, k2
        ensures Separate(init, k1, k2)
      {
        assert Separate(comps, k1, k2);
      }
      ComponentMapSpec(init);
      assert forall k | 0 <= k < n :: init[k] == comps[k];
      forall k, u | 0 <= k < n && u in comps[k] && |comps[k]| >= 2
        ensures u !in c
      {
        assert Separate(comps, k, n);
      }
    }
  }

  /** `computeComponents`: a state is mapped exactly when it is reachable
      from the start and its strongly connected component has at least two
      states, and it is mapped to that component, without repetition. */
  lemma ComputeComponentsCorrect(g: Nfa)
    requires WellFormed(g)
    ensures var m := ComputeComponents(g);
      && (forall u :: u in m <==> Reach(g, g.start, u) && |Scc(g, u)| >= 2)
      && (forall u | u in m :: SetOf(m[u]) == Scc(g, u) && Distinct(m[u]))
      && (forall u, x | u in m && x in m[u] :: x in m && m[x] == m[u])
  {
    ComponentsCorrect(g);
    SearchCorrect(g);
    var comps := StrongConnect(g, g.start, Initial).components;
    ComponentMapSpec(comps);
    forall k | 0 <= k < |comps|
      ensures |SetOf(comps[k])| == |comps[k]|
    {
      DistinctCard(comps[k]);
    }
  }

  // ---------------------------------------------------------------------------
  // Popping a component
  // ---------------------------------------------------------------------------

  lemma DistinctSnoc(xs: seq<nat>, x: nat)
    requires Distinct(xs) && x !in xs
    ensures Distinct(xs + [x])
  {
    var ys := xs + [x];
    forall i, j
      ensures Apart(ys, i, j)
    {
      if 0 <= i < j < |ys| {
        assert ys[i] == xs[i];
        if j < |xs| {
          assert Apart(xs, i, j);
        }
      }
    }
  }

  lemma DistinctTake(xs: seq<nat>, n: nat)
    requires Distinct(xs) && n <= |xs|
    ensures Distinct(xs[..n])
  {
    forall i, j
      ensures Apart(xs[..n], i, j)
    {
      assert Apart(xs, i, j);
    }
  }

  /** Popping down to the state at position `k` of a duplicate-free stack
      leaves the part below it and collects exactly the part from it up. */
  lemma {:induction false} PopComponentSpec(stack: seq<nat>, onStack: set<nat>, component: seq<nat>, k: nat)
    requires k < |stack| && Distinct(stack)
    ensures var r := PopComponent(stack, onStack, component, stack[k]);
            && r.0 == stack[..k]
            && r.1 == onStack - SetOf(stack[k..])
            && SetOf(r.2) == SetOf(component) + SetOf(stack[k..])
            && |r.2| == |component| + |stack| - k
            && r.2[..|component|] == component
            && (Distinct(component) && SetOf(component) !! SetOf(stack[k..]) ==> Distinct(r.2))
    decreases |stack|
  {
    var v := stack[k];
    var popped := stack[|stack| - 1];
    var stack' := stack[..|stack| - 1];
    var component' := component + [popped];
    assert Apart(stack, k, |stack| - 1);
    if popped == v {
      assert k == |stack| - 1;
      assert stack[k..] == [v];
      if Distinct(component) && SetOf(component) !! SetOf(stack[k..]) {
        DistinctSnoc(component, popped);
      }
    } else {
      DistinctTake(stack, |stack| - 1);
      PopComponentSpec(stack', onStack - {popped}, component', k);
      assert stack'[k] == v;
      assert stack[k..] == stack'[k..] + [popped];
      assert SetOf(stack[k..]) == SetOf(stack'[k..]) + {popped};
      assert SetOf(component') == SetOf(component) + {popped};
      var r := PopComponent(stack', onStack - {popped}, component', v);
      assert r.2[..|component|] == r.2[..|component'|][..|component|];
      if Distinct(component) && SetOf(component) !! SetOf(stack[k..]) {
        forall i | k <= i < |stack'|
          ensures stack'[i] != popped
        {
          assert Apart(stack, i, |stack| - 1);
        }
        assert popped !in SetOf(stack'[k..]);
        DistinctSnoc(component, popped);
      }
    }
  }
}
