/**
 * Client code driving a WaitFor coordinator through the cases its tests
 * exercise, with what each case observes stated as a postcondition.
 */
module Scenarios {
  import opened DependencyGraph
  import opened CompletionRegistry
  import opened StallClassification
  import opened Coordinator

  /** A waiter stays pending until the id it waits on is made ready, then resolves. */
  method ItWaits() returns (before: JoinState<string>, after: JoinState<string>)
    ensures before == Waiting && after == Resolved([Undefined])
  {
    var w := new WaitFor<int, string>();
    LeafDependenciesAreTree(map[1 := [2]], 1);
    var r := w.WaitFor(1, [2]);
    assert w.deferreds == map[2 := Pending];
    before := JoinValue(w.deferreds, r.value);
    w.Ready(2);
    assert w.deferreds == map[2 := Fired(Undefined)];
    after := JoinValue(w.deferreds, r.value);
  }

  /** Waiting on an id that is already ready resolves at once. */
  method ItResolvesImmediatelyIfAlreadyCompleted() returns (join: JoinState<string>)
    ensures join == Resolved([Undefined])
  {
    var w := new WaitFor<int, string>();
    w.Ready(1);
    LeafDependenciesAreTree(map[2 := [1]], 2);
    var r := w.WaitFor(2, [1]);
    join := JoinValue(w.deferreds, r.value);
  }

  /** 1 waits on 2, then 2 on 1: the second declaration fails and leaves the registry alone. */
  method ItThrowsOnACycle() returns (first: Result<seq<int>, Error<int>>, second: Result<seq<int>, Error<int>>)
    ensures first == Success([2])
    ensures second == Failure(DependencyCycle(2))
  {
    var w := new WaitFor<int, string>();
    LeafDependenciesAreTree(map[1 := [2]], 1);
    first := w.WaitFor(1, [2]);
    MutualDependencyBreaksTree(map[1 := [2], 2 := [1]], 1, 2);
    second := w.WaitFor(2, [1]);
  }

  /** The payload given to `Ready` is what the waiter receives. */
  method ItCanPassAValue() returns (first: Payload<string>)
    ensures first == Value("hello")
  {
    var w := new WaitFor<int, string>();
    w.Ready(1, Value("hello"));
    LeafDependenciesAreTree(map[2 := [1]], 2);
    var r := w.WaitFor(2, [1]);
    var join := JoinValue(w.deferreds, r.value);
    first := join.values[0];
  }

  /** An id that waits on itself is refused at once. */
  method SelfDependencyThrows() returns (r: Result<seq<int>, Error<int>>)
    ensures r == Failure(DependencyCycle(1))
  {
    var w := new WaitFor<int, string>(Throw);
    SelfDependencyBreaksTree(map[1 := [1]], 1);
    r := w.WaitFor(1, [1]);
  }

  /** After a refused cyclic declaration, a new acyclic list for the same id is accepted. */
  method RedeclaringAfterACycleSucceeds() returns (r: Result<seq<int>, Error<int>>)
    ensures r == Success([3])
  {
    var w := new WaitFor<int, string>(Throw);
    LeafDependenciesAreTree(map[1 := [2]], 1);
    var first := w.WaitFor(1, [2]);
    assert w.dependencies == map[1 := [2]];
    MutualDependencyBreaksTree(map[1 := [2], 2 := [1]], 1, 2);
    var second := w.WaitFor(2, [1]);
    assert w.dependencies == map[1 := [2], 2 := [1]];
    RedeclaredGraphIsTree();
    r := w.WaitFor(2, [3]);
  }

  /** The graph of `RedeclaringAfterACycleSucceeds` once 2 declares 3 instead of 1. */
  lemma RedeclaredGraphIsTree()
    ensures IsTreeFrom(map[1 := [2], 2 := [1]][2 := [3]], 2)
  {
    LeafDependenciesAreTree(map[1 := [2], 2 := [1]][2 := [3]], 2);
  }

  /**
   * The list of a refused declaration stays recorded: after 2's declaration
   * of 1 is refused, 3 waiting on 2 is refused too, through the cycle 2, 1, 2.
   */
  method RefusedListStaysRecorded() returns (r: Result<seq<int>, Error<int>>)
    ensures r == Failure(DependencyCycle(3))
  {
    var w := new WaitFor<int, string>(Throw);
    LeafDependenciesAreTree(map[1 := [2]], 1);
    var first := w.WaitFor(1, [2]);
    MutualDependencyBreaksTree(map[1 := [2], 2 := [1]], 1, 2);
    var second := w.WaitFor(2, [1]);
    assert w.dependencies == map[1 := [2], 2 := [1]];
    RefusedListGraphIsRefused();
    r := w.WaitFor(3, [2]);
  }

  /** The graph of `RefusedListStaysRecorded` when 3 declares 2: 3 reaches the cycle 2, 1, 2. */
  lemma RefusedListGraphIsRefused()
    ensures !IsTreeFrom(map[1 := [2], 2 := [1], 3 := [2]], 3)
  {
    var g := map[1 := [2], 2 := [1], 3 := [2]];
    assert IsPath(g, [3, 2]) && IsPath(g, [2, 1, 2]);
    ReachableCycleBreaksTree(g, 3, 2, [2, 1, 2]);
  }

  /** A second `Ready` for the same id is ignored: waiters see the first payload. */
  method SecondReadyIsIgnored() returns (join: JoinState<string>)
    ensures join == Resolved([Value("first")])
  {
    var w := new WaitFor<int, string>(Throw);
    w.Ready(1, Value("first"));
    w.Ready(1, Value("second"));
    LeafDependenciesAreTree(map[2 := [1]], 2);
    var r := w.WaitFor(2, [1]);
    join := JoinValue(w.deferreds, r.value);
  }

  /** A diamond is refused by the cycle check as written, though it has no cycle. */
  method DiamondIsRefused() returns (r: Result<seq<int>, Error<int>>)
    ensures r == Failure(DependencyCycle(1))
  {
    var w := new WaitFor<int, string>(Throw);
    LeafDependenciesAreTree(map[2 := [4]], 2);
    var two := w.WaitFor(2, [4]);
    assert w.dependencies == map[2 := [4]];
    LeafDependenciesAreTree(map[2 := [4], 3 := [4]], 3);
    var three := w.WaitFor(3, [4]);
    assert w.dependencies == map[2 := [4], 3 := [4]];
    DiamondGraphIsRefused();
    r := w.WaitFor(1, [2, 3]);
  }

  /** The graph of `DiamondIsRefused` when 1 declares 2 and 3, which both wait on 4. */
  lemma DiamondGraphIsRefused()
    ensures !IsTreeFrom(map[2 := [4], 3 := [4], 1 := [2, 3]], 1)
  {
    DiamondBreaksTree(map[2 := [4], 3 := [4], 1 := [2, 3]], 1, 2, 3, 4);
  }

  /** A list naming the same id twice is refused by the cycle check as written, though it has no cycle. */
  method RepeatedEntryIsRefused() returns (r: Result<seq<int>, Error<int>>)
    ensures r == Failure(DependencyCycle(1))
  {
    var w := new WaitFor<int, string>();
    RepeatedEntryGraphIsRefused();
    r := w.WaitFor(1, [2, 2]);
  }

  /** The graph of `RepeatedEntryIsRefused`: 1 names 2 at both entries of its list. */
  lemma RepeatedEntryGraphIsRefused()
    ensures !IsTreeFrom(map[1 := [2, 2]], 1)
  {
    RootReachable(map[1 := [2, 2]], 1);
    RepeatedEntryBreaksTree(map[1 := [2, 2]], 1, 1, 0, 1);
  }

  /**
   * The curried path a batch hands to each step: 2 declares 3, then the waiter
   * of 1 declares 2. The call acts as `WaitFor(1, [2])` and records the chain.
   */
  method WaiterDeclaresForItsOwner() returns (r: Result<seq<int>, Error<int>>, graph: Graph<int>)
    ensures r == Success([2])
    ensures graph == map[1 := [2], 2 := [3]]
  {
    var w := new WaitFor<int, string>();
    LeafDependenciesAreTree(map[2 := [3]], 2);
    var first := w.WaitFor(2, [3]);
    assert w.dependencies == map[2 := [3]];
    ChainIsTree();
    r := w.CallWaiter(w.GetWaiter(1), [2]);
    graph := w.dependencies;
  }

  /** The chain 1 -> 2 -> 3 passes the check from 1. */
  lemma ChainIsTree()
    ensures IsTreeFrom(map[2 := [3], 1 := [2]], 1)
  {
    var g := map[2 := [3], 1 := [2]];
    var s := {1, 2, 3};
    forall x | Reachable(g, 1, x) ensures x in s {
      ClosedSetHoldsReachable(g, 1, s, x);
    }
  }

  /** Under `Throw`, a batch whose only item waits on an id outside it fails, naming that item. */
  method StallThrows() returns (r: Result<seq<nat>, Error<int>>)
    ensures r == Failure(UnknownDependencies([1]))
  {
    var w := new WaitFor<int, string>(Throw);
    LeafDependenciesAreTree(map[1 := [5]], 1);
    var waited := w.WaitFor(1, [5]);
    assert w.dependencies == map[1 := [5]];
    LoneItemIsStalled();
    r := w.Map([1]);
  }

  /** The batch of `StallThrows`: its one item waits on 5, which is not in the batch. */
  lemma LoneItemIsStalled()
    ensures StalledIndices(map[1 := [5]], Known([1]), [1]) == [0]
    ensures ItemsAt([1], [0]) == [1]
  {
    assert Known([1]) == {1};
    assert 5 in Unknown([5], {1});
    assert [1][..0] == [];
  }

  /** Under `Filter`, the same stalled item is left out and the other item's step is awaited. */
  method StallFilters() returns (r: Result<seq<nat>, Error<int>>)
    ensures r == Success([1])
  {
    var w := new WaitFor<int, string>(Filter);
    LeafDependenciesAreTree(map[1 := [5]], 1);
    var waited := w.WaitFor(1, [5]);
    assert w.dependencies == map[1 := [5]];
    StalledItemIsFiltered();
    r := w.Map([1, 2]);
  }

  /** The batch of `StallFilters`: item 1 waits on 5, outside the batch; item 2 has no list. */
  lemma StalledItemIsFiltered()
    ensures DoneIndices(map[1 := [5]], Known([1, 2]), [1, 2]) == [1]
  {
    assert Known([1, 2]) == {1, 2};
    assert 5 in Unknown([5], {1, 2});
    assert [1, 2][..1] == [1] && [1][..0] == [];
  }
}
