/**
 * The bound computation with Java's 32-bit `int` arithmetic, as the
 * constraint provider runs it. `MAX` is `Integer.MAX_VALUE`, so adding the
 * increment of a state that assigns the feature to a follower distance of
 * `MAX` wraps around to `Integer.MIN_VALUE`, and `Math.max` then discards
 * it: a feature that is assigned arbitrarily often gets a finite bound.
 */
module JavaIntBounds {
  import opened StateGraph
  import opened Tarjan
  import opened TarjanProof
  import opened UpperBounds
  import opened BoundPaths

  /** `Integer.MAX_VALUE`, the value of `IGrammarConstraintProvider.MAX`. */
  const IntMax: int := 0x7fff_ffff

  /** The 32-bit two's complement value of `x`. */
  function Wrap32(x: int): (r: int)
    ensures -0x8000_0000 <= r <= IntMax
    ensures -0x8000_0000 <= x <= IntMax ==> r == x
    ensures (x - r) % 0x1_0000_0000 == 0
  {
    (x + 0x8000_0000) % 0x1_0000_0000 - 0x8000_0000
  }

  /** `followerDistance + increment` on `int`. */
  function AddInt(d: int, k: nat): int {
    Wrap32(d + k)
  }

  /** `Math.max`. */
  function MaxInt(a: int, b: int): int {
    if a >= b then a else b
  }

  /** The arithmetic of the original. */
  const Int32: Arith<int> := Arith(0, IntMax, AddInt, MaxInt)

  /** Start state 0, then state 1 assigning feature 0, then state 2 assigning
      feature 0 and following itself. */
  const Example: Nfa := Nfa([[1], [2], [2]], [-1, 0, 0], 0)

  /** No two states of the example reach each other, so it has no kept
      component. */
  lemma ExampleComponents()
    ensures WellFormed(Example) && ComputeComponents(Example) == map[]
    ensures ValidComponents(Example, map[])
  {
    var g := Example;
    assert Closed(g, {1, 2});
    assert Closed(g, {2});
    ClosedAvoids(g, {1, 2}, 1, 0);
    ClosedAvoids(g, {1, 2}, 2, 0);
    ClosedAvoids(g, {2}, 2, 1);
    forall u: nat | u < Size(g)
      ensures |Scc(g, u)| < 2
    {
      assert Scc(g, u) <= {u};
      SubsetCard(Scc(g, u), {u});
    }
    ComputeComponentsCorrect(g);
    var m := ComputeComponents(g);
    forall u | u in m
      ensures false
    {
      ReachInRange(g, g.start, u);
    }
    assert m.Keys == {};
  }

  /** State 2 assigns the feature and follows itself: `MAX`. */
  lemma ExampleState2<T>(a: Arith<T>)
    requires WellFormed(Example) && ValidComponents(Example, map[]) && Reach(Example, 0, 2)
    ensures UpperBound(a, Example, 0, 2, map[], map[]).0 == a.top
  {
    var g := Example;
    assert Increment(g, 0, 2) == 1;
    assert FollowerLoop(a, g, 0, 2, 1, 1, map[], a.top, map[]) == (a.top, map[]);
  }

  /** State 1 assigns the feature and is followed by state 2. */
  lemma ExampleState1<T>(a: Arith<T>)
    requires WellFormed(Example) && ValidComponents(Example, map[]) && Reach(Example, 0, 1) && Reach(Example, 0, 2)
    ensures UpperBound(a, Example, 0, 1, map[], map[]).0 == a.max(a.zero, a.add(a.top, 1))
  {
    var g := Example;
    ExampleState2(a);
    assert Increment(g, 0, 1) == 1;
    var d := UpperBound(a, g, 0, 2, map[], map[]);
    assert FollowerLoop(a, g, 0, 1, 1, 1, map[], a.max(a.zero, a.add(d.0, 1)), d.1).0
        == a.max(a.zero, a.add(d.0, 1));
  }

  /** The start state assigns nothing and is followed by state 1. */
  lemma ExampleState0<T>(a: Arith<T>)
    requires WellFormed(Example) && ValidComponents(Example, map[])
    requires Reach(Example, 0, 0) && Reach(Example, 0, 1) && Reach(Example, 0, 2)
    ensures UpperBound(a, Example, 0, 0, map[], map[]).0 == a.max(a.zero, a.add(a.max(a.zero, a.add(a.top, 1)), 0))
  {
    var g := Example;
    ExampleState1(a);
    assert Increment(g, 0, 0) == 0;
    var d := UpperBound(a, g, 0, 1, map[], map[]);
    assert FollowerLoop(a, g, 0, 0, 0, 1, map[], a.max(a.zero, a.add(d.0, 0)), d.1).0
        == a.max(a.zero, a.add(d.0, 0));
  }

  /** The example's states reach each other in order. */
  lemma ExampleReach()
    ensures Reach(Example, 0, 0) && Reach(Example, 0, 1) && Reach(Example, 0, 2)
  {
    ReachRefl(Example, 0);
    ReachEdge(Example, 0, 1);
    ReachEdge(Example, 1, 2);
    ReachTrans(Example, 0, 1, 2);
  }

  /** The example has one feature, no kept component, and its bound is the
      distance of the start state. */
  lemma ExampleBounds<T>(a: Arith<T>)
    requires a.zero != a.top
    ensures WellFormed(Example) && TagsInRange(Example, ComputeComponents(Example), 1)
    ensures ValidComponents(Example, map[]) && Reach(Example, 0, 0)
    ensures ComputeUpperBounds(a, Example, 1) == [UpperBound(a, Example, 0, 0, map[], map[]).0]
  {
    ExampleComponents();
    ExampleReach();
    assert !CycleTagged(Example, map[], 0);
  }

  /** `MAX + 1` wraps around, so the start state's distance comes out as 0. */
  lemma Int32Distance()
    ensures Int32.max(Int32.zero, Int32.add(Int32.max(Int32.zero, Int32.add(Int32.top, 1)), 0)) == 0
  {
    assert Int32.add(Int32.top, 1) == AddInt(IntMax, 1) == -0x8000_0000;
    assert Int32.max(Int32.zero, -0x8000_0000) == 0;
    assert Int32.add(0, 0) == AddInt(0, 0) == 0;
    assert Int32.max(Int32.zero, 0) == 0;
  }

  /** With 32-bit arithmetic the start state's distance is 0. */
  lemma ExampleInt32()
    ensures WellFormed(Example) && TagsInRange(Example, ComputeComponents(Example), 1)
    ensures ComputeUpperBounds(Int32, Example, 1) == [0]
  {
    ExampleReach();
    ExampleBounds(Int32);
    ExampleState0(Int32);
    Int32Distance();
  }

  /** With saturating arithmetic the start state has no bound. */
  lemma ExampleSaturating()
    ensures WellFormed(Example) && TagsInRange(Example, ComputeComponents(Example), 1)
    ensures ComputeUpperBounds(Saturating, Example, 1) == [Max]
  {
    ExampleReach();
    ExampleBounds(Saturating);
    ExampleState0(Saturating);
    SaturatingDistance();
  }

  /** `MAX` absorbs the additions, so the start state's distance is `MAX`. */
  lemma SaturatingDistance()
    ensures Saturating.max(Saturating.zero, Saturating.add(Saturating.max(Saturating.zero, Saturating.add(Saturating.top, 1)), 0)) == Max
  {
    assert Saturating.add(Saturating.top, 1) == Plus(Max, 1) == Max;
    assert Saturating.max(Saturating.zero, Max) == MaxB(Finite(0), Max) == Max;
    assert Saturating.add(Max, 0) == Max;
  }

  /** With 32-bit arithmetic the example's feature gets bound 0, although
      walks assign it arbitrarily often; with saturating arithmetic it gets
      `MAX`. */
  lemma OverflowLosesBound()
    ensures AddInt(IntMax, 1) == -0x8000_0000
    ensures WellFormed(Example) && TagsInRange(Example, ComputeComponents(Example), 1)
    ensures ComputeUpperBounds(Int32, Example, 1) == [0]
    ensures ComputeUpperBounds(Saturating, Example, 1) == [Max]
    ensures Unbounded(Example, 0)
  {
    ExampleInt32();
    ExampleSaturating();
    BoundsAreSupremum(Example, 1);
    assert ComputeUpperBounds(Saturating, Example, 1)[0] == Max;
  }
}
