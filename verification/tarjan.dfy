/**
 * Tarjan's strongly connected components algorithm as the constraint
 * provider runs it: one depth-first search from the start state, numbering
 * states in visiting order, keeping the low link of every state and a stack
 * of states whose component is not yet known, and popping a component
 * whenever a state's low link equals its own number. Only components with
 * at least two states are kept; every state of a kept component is mapped
 * to that component.
 *
 * The search is written as three mutually recursive functions over an
 * immutable state record: `StrongConnect`, the loop over a state's
 * followers, and the do-while loop that pops a component.
 */
module Tarjan {
  import opened StateGraph

  /** The fields of the `Tarjan` object. Components are kept in pop order. */
  datatype TState = TState(
    index: map<nat, nat>,
    lowLink: map<nat, nat>,
    onStack: set<nat>,
    stack: seq<nat>,
    nextIndex: nat,
    components: seq<seq<nat>>
  )

  /** A freshly constructed `Tarjan` object. */
  const Initial: TState := TState(map[], map[], {}, [], 0, [])

  /** Every numbered state has a low link, and only states are numbered. */
  predicate Shape(g: Nfa, s: TState) {
    s.lowLink.Keys == s.index.Keys && forall u | u in s.index :: u < Size(g)
  }

  /** The states not numbered yet. */
  function Unvisited(g: Nfa, s: TState): set<nat> {
    set u | 0 <= u < Size(g) && u !in s.index
  }

  /** The do-while loop that pops the stack down to and including `v`,
      collecting the popped states. On an empty stack the loop stops (the
      deque would throw; this cannot happen, since `v` is on the stack). */
  function PopComponent(stack: seq<nat>, onStack: set<nat>, component: seq<nat>, v: nat)
    : (r: (seq<nat>, set<nat>, seq<nat>))
    ensures |r.0| <= |stack|
    ensures v in stack ==> v in r.2
    decreases |stack|
  {
    if stack == [] then (stack, onStack, component)
    else
      var popped := stack[|stack| - 1];
      var stack' := stack[..|stack| - 1];
      var onStack' := onStack - {popped};
      var component' := component + [popped];
      if popped == v then (stack', onStack', component')
      else PopComponent(stack', onStack', component', v)
  }

  /** `strongConnect(state)`. */
  function StrongConnect(g: Nfa, v: nat, s: TState): (r: TState)
    requires WellFormed(g) && v < Size(g) && v !in s.index && Shape(g, s)
    ensures Shape(g, r) && s.index.Keys + {v} <= r.index.Keys
    decreases Unvisited(g, s), 0, 0
  {
    var s1 := s.(index := s.index[v := s.nextIndex],
                 lowLink := s.lowLink[v := s.nextIndex],
                 nextIndex := s.nextIndex + 1,
                 stack := s.stack + [v],
                 onStack := s.onStack + {v});
    assert Unvisited(g, s1) < Unvisited(g, s) by {
      assert v in Unvisited(g, s) && v !in Unvisited(g, s1);
    }
    var s2 := Followers(g, v, 0, s1);
    if s2.lowLink[v] == s2.index[v] then
      var popped := PopComponent(s2.stack, s2.onStack, [], v);
      s2.(stack := popped.0, onStack := popped.1, components := s2.components + [popped.2])
    else
      s2
  }

  /** The loop over the followers of `v`, from position `i` on. */
  function Followers(g: Nfa, v: nat, i: nat, s: TState): (r: TState)
    requires WellFormed(g) && v < Size(g) && v in s.index && Shape(g, s)
    requires i <= |g.followers[v]|
    ensures Shape(g, r) && s.index.Keys <= r.index.Keys
    decreases Unvisited(g, s), 1, |g.followers[v]| - i
  {
    if i == |g.followers[v]| then s
    else
      var w := g.followers[v][i];
      if w !in s.index then
        var s' := StrongConnect(g, w, s);
        assert Unvisited(g, s') < Unvisited(g, s) by {
          assert w in Unvisited(g, s) && w !in Unvisited(g, s');
        }
        Followers(g, v, i + 1, s'.(lowLink := s'.lowLink[v := Min(s'.lowLink[v], s'.lowLink[w])]))
      else if w in s.onStack then
        Followers(g, v, i + 1, s.(lowLink := s.lowLink[v := Min(s.lowLink[v], s.index[w])]))
      else
        Followers(g, v, i + 1, s)
  }

  function Min(a: nat, b: nat): nat {
    if a <= b then a else b
  }

  /** The components with at least two states, each of their states mapped
      to the component, in the order the components were found. */
  function ComponentMap(components: seq<seq<nat>>): map<nat, seq<nat>>
    decreases |components|
  {
    if components == [] then map[]
    else
      var m := ComponentMap(components[..|components| - 1]);
      var c := components[|components| - 1];
      if |c| >= 2 then m + map x | x in c :: c else m
  }

  /** `computeComponents`: the search from the start state, then the map
      of kept components. */
  function ComputeComponents(g: Nfa): map<nat, seq<nat>>
    requires WellFormed(g)
  {
    ComponentMap(StrongConnect(g, g.start, Initial).components)
  }
}
