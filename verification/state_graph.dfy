/**
 * The state automaton a serialization constraint is computed from. States
 * are the indices `0 .. n-1`; `followers[u]` lists the states that may come
 * after `u`, and `featureIds[u]` is the feature the state assigns, or a
 * negative number when it assigns none. Paths, reachability and strongly
 * connected components are the vocabulary the component and bound analyses
 * are stated in.
 */
module StateGraph {
  /** A rule automaton: followers and feature of every state, and the start state. */
  datatype Nfa = Nfa(followers: seq<seq<nat>>, featureIds: seq<int>, start: nat)

  /** The number of states. */
  function Size(g: Nfa): nat {
    |g.followers|
  }

  /** Every state has a feature entry, the start is a state, and every
      follower is a state. */
  predicate WellFormed(g: Nfa) {
    && |g.featureIds| == |g.followers|
    && g.start < |g.followers|
    && forall u, i | 0 <= u < |g.followers| && 0 <= i < |g.followers[u]| :: g.followers[u][i] < |g.followers|
  }

  /** `v` is a follower of `u`. */
  predicate Edge(g: Nfa, u: nat, v: nat) {
    u < |g.followers| && v in g.followers[u]
  }

  /** A non-empty sequence of states, each followed by the next. */
  ghost predicate IsPath(g: Nfa, p: seq<nat>) {
    |p| >= 1 && forall i, j | 0 <= i && j == i + 1 && j < |p| :: Edge(g, p[i], p[j])
  }

  /** A path from `u` to `v`. */
  ghost predicate PathFrom(g: Nfa, p: seq<nat>, u: nat, v: nat) {
    IsPath(g, p) && p[0] == u && p[|p| - 1] == v
  }

  /** `v` can be reached from `u` in zero or more steps. */
  ghost predicate Reach(g: Nfa, u: nat, v: nat) {
    exists p :: PathFrom(g, p, u, v)
  }

  /** `u` and `v` reach each other. */
  ghost predicate SameScc(g: Nfa, u: nat, v: nat) {
    Reach(g, u, v) && Reach(g, v, u)
  }

  /** The strongly connected component of `u`. */
  ghost function Scc(g: Nfa, u: nat): set<nat> {
    set v | 0 <= v < Size(g) && SameScc(g, u, v)
  }

  /** The states reachable from `u`. */
  ghost function ReachSet(g: Nfa, u: nat): set<nat> {
    set v | 0 <= v < Size(g) && Reach(g, u, v)
  }

  /** A set of states no edge leaves. */
  ghost predicate Closed(g: Nfa, a: set<nat>) {
    forall u, v | u in a && Edge(g, u, v) :: v in a
  }

  lemma ReachRefl(g: Nfa, u: nat)
    ensures Reach(g, u, u)
  {
    assert PathFrom(g, [u], u, u);
  }

  lemma ReachEdge(g: Nfa, u: nat, v: nat)
    requires Edge(g, u, v)
    ensures Reach(g, u, v)
  {
    assert PathFrom(g, [u, v], u, v);
  }

  /** Joining a path that ends where the second begins. */
  lemma PathJoin(g: Nfa, p: seq<nat>, q: seq<nat>)
    requires IsPath(g, p) && IsPath(g, q) && p[|p| - 1] == q[0]
    ensures IsPath(g, p + q[1..])
    ensures (p + q[1..])[0] == p[0] && (p + q[1..])[|p + q[1..]| - 1] == q[|q| - 1]
  {
    var r := p + q[1..];
    forall i | 0 <= i < |r| - 1
      ensures Edge(g, r[i], r[i + 1])
    {
      if i < |p| - 1 {
        assert r[i] == p[i] && r[i + 1] == p[i + 1];
      } else {
        assert r[i] == q[i - |p| + 1] && r[i + 1] == q[i - |p| + 2];
      }
    }
  }

  lemma ReachTrans(g: Nfa, u: nat, v: nat, w: nat)
    requires Reach(g, u, v) && Reach(g, v, w)
    ensures Reach(g, u, w)
  {
    var p :| PathFrom(g, p, u, v);
    var q :| PathFrom(g, q, v, w);
    PathJoin(g, p, q);
    assert PathFrom(g, p + q[1..], u, w);
  }

  lemma ReachEdgeThen(g: Nfa, u: nat, v: nat, w: nat)
    requires Edge(g, u, v) && Reach(g, v, w)
    ensures Reach(g, u, w)
  {
    ReachEdge(g, u, v);
    ReachTrans(g, u, v, w);
  }

  /** A path that starts in a closed set never leaves it. */
  lemma {:induction false} ClosedPath(g: Nfa, a: set<nat>, p: seq<nat>)
    requires Closed(g, a) && IsPath(g, p) && p[0] in a
    ensures forall i | 0 <= i < |p| :: p[i] in a
    decreases |p|
  {
    if |p| > 1 {
      assert Edge(g, p[0], p[1]);
      assert IsPath(g, p[1..]);
      ClosedPath(g, a, p[1..]);
      assert forall i | 1 <= i < |p| :: p[i] == p[1..][i - 1];
    }
  }

  /** Whatever is reachable from a closed set is in it. */
  lemma ClosedReach(g: Nfa, a: set<nat>, u: nat, v: nat)
    requires Closed(g, a) && u in a && Reach(g, u, v)
    ensures v in a
  {
    var p :| PathFrom(g, p, u, v);
    ClosedPath(g, a, p);
  }

  /** Nothing outside a closed set is reachable from inside it. */
  lemma ClosedAvoids(g: Nfa, a: set<nat>, u: nat, v: nat)
    requires Closed(g, a) && u in a && v !in a
    ensures !Reach(g, u, v)
  {
    forall p | IsPath(g, p) && p[0] == u
      ensures p[|p| - 1] in a
    {
      ClosedPath(g, a, p);
    }
  }

  /** Reachable states of a well-formed automaton are states. */
  lemma ReachInRange(g: Nfa, u: nat, v: nat)
    requires WellFormed(g) && u < Size(g) && Reach(g, u, v)
    ensures v < Size(g)
  {
    var p :| PathFrom(g, p, u, v);
    if |p| > 1 {
      assert Edge(g, p[|p| - 2], p[|p| - 1]);
    }
  }

  /** Reachability only shrinks along an edge. */
  lemma ReachSetEdge(g: Nfa, u: nat, v: nat)
    requires Edge(g, u, v)
    ensures ReachSet(g, v) <= ReachSet(g, u)
  {
    forall w | w in ReachSet(g, v)
      ensures w in ReachSet(g, u)
    {
      ReachEdgeThen(g, u, v, w);
    }
  }

  /** Following an edge out of a state's component strictly shrinks the
      reachable set: the follower cannot come back. */
  lemma ReachSetShrinks(g: Nfa, u: nat, v: nat)
    requires WellFormed(g) && u < Size(g)
    requires Reach(g, u, v) && !Reach(g, v, u)
    ensures ReachSet(g, v) < ReachSet(g, u)
  {
    forall w | w in ReachSet(g, v)
      ensures w in ReachSet(g, u)
    {
      ReachTrans(g, u, v, w);
    }
    ReachRefl(g, u);
    assert u in ReachSet(g, u) && u !in ReachSet(g, v);
  }

  /** Mutual reachability is symmetric and transitive, and the component of
      a state contains exactly the states it shares a component with. */
  lemma SccMembers(g: Nfa, u: nat, v: nat)
    requires WellFormed(g) && u < Size(g) && v in Scc(g, u)
    ensures u in Scc(g, v) && Scc(g, v) == Scc(g, u)
  {
    forall w | w in Scc(g, v)
      ensures w in Scc(g, u)
    {
      ReachTrans(g, u, v, w);
      ReachTrans(g, w, v, u);
    }
    forall w | w in Scc(g, u)
      ensures w in Scc(g, v)
    {
      ReachTrans(g, v, u, w);
      ReachTrans(g, w, u, v);
    }
  }

  /** Sharing a component is symmetric. */
  lemma SccSymmetric(g: Nfa, u: nat, v: nat)
    requires u < Size(g) && v < Size(g)
    ensures v in Scc(g, u) <==> u in Scc(g, v)
  {
  }

  /** A state belongs to its own component. */
  lemma SccSelf(g: Nfa, u: nat)
    requires u < Size(g)
    ensures u in Scc(g, u)
  {
    ReachRefl(g, u);
  }

  /** Every state on a path between two members of a component is in the
      component too. */
  lemma PathInsideScc(g: Nfa, p: seq<nat>, i: nat)
    requires WellFormed(g) && IsPath(g, p) && p[0] < Size(g) && i < |p|
    requires Reach(g, p[|p| - 1], p[0])
    ensures p[i] in Scc(g, p[0])
  {
    assert PathFrom(g, p[..i + 1], p[0], p[i]);
    assert PathFrom(g, p[i..], p[i], p[|p| - 1]);
    ReachTrans(g, p[i], p[|p| - 1], p[0]);
    ReachInRange(g, p[0], p[i]);
  }
}
