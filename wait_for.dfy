/**
 * The WaitFor coordinator: one object owning a dependency graph and a
 * completion registry. Tasks declare what they wait on (`WaitFor`), receive
 * an AND-join over the deferreds of those ids, and signal their own
 * completion (`Ready`). A declaration whose graph fails the cycle check is
 * refused before any deferred is touched. `Map` classifies a batch's items
 * for stall detection and says what the batch awaits.
 */
module Coordinator {
  import opened DependencyGraph
  import opened CompletionRegistry
  import opened StallClassification

  datatype Error<T> =
    | DependencyCycle(root: T)               // "dependency cycle detected in <id>"
    | UnknownDependencies(stalled: seq<T>)   // "Tasks with unknown dependencies: <items>"

  datatype Result<R, E> = Success(value: R) | Failure(error: E)

  /**
   * What `getWaiter(id)` returns: `waitFor` with the waiting id fixed. The
   * original closure also captures its coordinator; here the coordinator is
   * the receiver of `CallWaiter`, so nothing ties a waiter to the coordinator
   * that made it.
   */
  datatype Waiter<T> = Waiter(owner: T)

  class WaitFor<T(==, !new), V> {
    /** For each id that declared dependencies, the list it declared last. */
    var dependencies: Graph<T>
    /** For each id touched by a waiter or by `Ready`, its deferred. */
    var deferreds: Registry<T, V>
    const stallDetection: StallDetection

    /** A new coordinator; stall detection defaults to `Throw`. */
    constructor (stallDetection: StallDetection := Throw)
      ensures this.stallDetection == stallDetection
      ensures dependencies == map[] && deferreds == map[]
    {
      this.stallDetection := stallDetection;
      dependencies := map[];
      deferreds := map[];
    }

    /**
     * Records `deps` as the list of `id` (replacing any earlier one), then runs
     * the cycle check from `id`. On a cycle it fails and the registry is
     * untouched, but the new list stays recorded. Otherwise it gets or creates
     * the deferred of every dependency and returns the join over `deps`, whose
     * state at any later point is `JoinValue(deferreds, deps)`.
     */
    method WaitFor(id: T, deps: seq<T>) returns (r: Result<seq<T>, Error<T>>)
      modifies this
      ensures dependencies == old(dependencies)[id := deps]
      ensures r.Failure? <==> !IsTreeFrom(dependencies, id)
      ensures r.Failure? ==> r.error == DependencyCycle(id) && deferreds == old(deferreds)
      ensures r.Success? ==> r.value == deps && deferreds == Registered(old(deferreds), deps)
    {
      dependencies := dependencies[id := deps];
      var cyclic := CheckForCycle(id);
      if cyclic {
        return Failure(DependencyCycle(id));
      }
      for k := 0 to |deps|
        invariant dependencies == old(dependencies)[id := deps]
        invariant deferreds == Registered(old(deferreds), deps[..k])
      {
        var _ := GetDeferredFor(deps[k]);
        assert deps[..k + 1][..k] == deps[..k];
      }
      assert deps[..|deps|] == deps;
      return Success(deps);
    }

    /** The waiter of `id`: calling it with `CallWaiter` declares dependencies for `id`. */
    function GetWaiter(id: T): Waiter<T> {
      Waiter(id)
    }

    /** Calling a waiter is `WaitFor` for its owner. */
    method CallWaiter(w: Waiter<T>, deps: seq<T>) returns (r: Result<seq<T>, Error<T>>)
      modifies this
      ensures dependencies == old(dependencies)[w.owner := deps]
      ensures r.Failure? <==> !IsTreeFrom(dependencies, w.owner)
      ensures r.Failure? ==> r.error == DependencyCycle(w.owner) && deferreds == old(deferreds)
      ensures r.Success? ==> r.value == deps && deferreds == Registered(old(deferreds), deps)
    {
      r := WaitFor(w.owner, deps);
    }

    /**
     * Stall classification of a batch, against the lists recorded when it
     * runs. With no detection every item's step is awaited; otherwise the
     * batch fails under `Throw` when some item is stalled, naming the stalled
     * items in input order, and else awaits the steps of the items that are
     * not stalled. The result is the list of indices whose steps are awaited.
     */
    method Map(items: seq<T>) returns (r: Result<seq<nat>, Error<T>>)
      ensures stallDetection == None ==> r == Success(AllIndices(|items|))
      ensures stallDetection != None ==>
                var stalled := StalledIndices(dependencies, Known(items), items);
                r == if stallDetection == Throw && |stalled| > 0
                     then Failure(UnknownDependencies(ItemsAt(items, stalled)))
                     else Success(DoneIndices(dependencies, Known(items), items))
    {
      if stallDetection != None {
        var stalled: seq<T> := [];
        var done: seq<nat> := [];
        var known := Known(items);
        for i := 0 to |items|
          invariant stalled == ItemsAt(items, StalledIndices(dependencies, known, items[..i]))
          invariant done == DoneIndices(dependencies, known, items[..i])
        {
          var item := items[i];
          assert items[..i + 1][..i] == items[..i];
          if item in dependencies && |Unknown(dependencies[item], known)| > 0 {
            stalled := stalled + [item];
          } else {
            done := done + [i];
          }
        }
        assert items[..|items|] == items;
        if stallDetection == Throw && |stalled| > 0 {
          return Failure(UnknownDependencies(stalled));
        } else {
          return Success(done);
        }
      } else {
        return Success(AllIndices(|items|));
      }
    }

    /**
     * Fires the deferred of `id` with `value` (`Undefined` when none is given),
     * creating it if need be; a second call is a no-op.
     */
    method Ready(id: T, value: Payload<V> := Undefined)
      modifies this
      ensures dependencies == old(dependencies)
      ensures deferreds == Fire(old(deferreds), id, value)
    {
      var deferred := GetDeferredFor(id);
      deferreds := deferreds[id := Resolve(deferred, value)];
    }

    /** Returns the deferred of `id`, adding a pending one when there is none yet. */
    method GetDeferredFor(id: T) returns (deferred: Signal<V>)
      modifies this
      ensures dependencies == old(dependencies)
      ensures deferreds == if id in old(deferreds) then old(deferreds) else old(deferreds)[id := Pending]
      ensures deferred == deferreds[id]
    {
      if id !in deferreds {
        deferreds := deferreds[id := Pending];
      }
      deferred := deferreds[id];
    }

    /**
     * Depth-first traversal from `root` with an explicit stack and one visited
     * set shared by the whole traversal: it reports a cycle as soon as an id
     * is popped a second time. That happens exactly when the part of the graph
     * reachable from `root` is not a tree (`IsTreeFrom`), which covers every
     * reachable cycle but also diamonds and repeated entries.
     */
    method CheckForCycle(root: T) returns (cyclic: bool)
      ensures cyclic <==> !IsTreeFrom(dependencies, root)
    {
      var g := dependencies;
      var stack := [root];
      var visited: set<T> := {};
      ghost var order: seq<T> := [];
      TraversalStarts(g, root);
      while |stack| > 0
        invariant TraversalState(g, root, stack, visited, order)
        decreases |Universe(g, root) - visited|
      {
        var id := stack[|stack| - 1];
        if id in visited {
          TraversalRepeats(g, root, stack, visited, order);
          return true;
        }
        TraversalVisits(g, root, stack, visited, order);
        ghost var next := stack[..|stack| - 1] + Deps(g, id);
        assert id in Universe(g, root);
        stack := stack[..|stack| - 1];
        visited := visited + {id};
        order := order + [id];
        if id in g {
          stack := stack + g[id];
        }
        assert stack == next;
      }
      TraversalEnds(g, root, visited, order);
      return false;
    }
  }
}
