# WaitFor: a verified model of a dependency-wait coordinator

This project models the `WaitFor<T>` coordinator of the wait-for-dependencies
library in Dafny. A coordinator owns two maps:

- the **dependency graph**: for each id that declared dependencies, the list of
  ids it waits on (the last declaration wins);
- the **completion registry**: for each id, a single-fire deferred, created
  lazily by a waiter or by `ready`.

`waitFor(id, deps)` records `deps` for `id`, runs a cycle check from `id` and
throws on a cycle. Otherwise it gets or creates the deferred of every
dependency and returns an AND-join of them. `ready(id, value)` fires `id`'s
deferred; a second call is ignored. `getWaiter(id)` is `waitFor` with `id`
fixed. `map(items, step)` classifies the batch for stall detection. An item is
stalled when its recorded list names an id outside the batch. Under `throw` a
stalled item makes the batch fail. Under `filter` stalled items are not awaited.
Under `none` everything is awaited.

Files and modules:

- `graph.dfy`, module `DependencyGraph`: paths and reachability over the
  recorded lists. It defines `IsTreeFrom`, the exact condition under which the
  cycle check passes, and proves what that condition rules out.
- `registry.dfy`, module `CompletionRegistry`: the deferred of an id as
  `Pending | Fired(payload)`, with `Undefined` as the payload of `ready(id)`
  without a value. It defines the registry after get-or-create and after
  `ready`, and the state of the join `JoinValue`.
- `stall.dfy`, module `StallClassification`: the `StallDetection` policy, the
  stalled test, and the split of a batch into stalled and awaited indices.
- `wait_for.dfy`, module `Coordinator`: the class `WaitFor` with the two maps
  as fields. Its methods follow the original's methods, loops included.
- `scenarios.dfy`, module `Scenarios`: client code replaying the cases of the
  original's test file, plus a few more, with what each one observes as a
  postcondition.

How promises are represented: a deferred is a value in the registry map, not
an object with callbacks. The join returned by `WaitFor` is the list of ids it
waits on. Its state at any later point is `JoinValue(deferreds, ids)`: either
`Waiting`, or `Resolved` with the payloads in list order. A deferred never
leaves the registry and never changes once fired, so reading the registry later
gives exactly what `Promise.all` over the deferreds captured at call time would
give.

Three consequences of the code as written:

- The cycle check shares one `visited` set across the whole traversal
  (src/lib/WaitFor.ts:159). So besides cycles it refuses diamonds and lists
  naming an id twice, which contain no cycle, with the same "dependency cycle
  detected" error (src/lib/WaitFor.ts:71). `CheckForCycle` is proved to
  return true exactly when `IsTreeFrom` fails. `DiamondBreaksTree`,
  `RepeatedEntryBreaksTree`, `Scenarios.DiamondIsRefused` and
  `Scenarios.RepeatedEntryIsRefused` show the refusals that involve no cycle.
- The new list is stored before the check (src/lib/WaitFor.ts:68) and stays
  recorded when the check fails. `Scenarios.RefusedListStaysRecorded` shows
  the consequence: a later declaration that reaches the refused list is
  refused too.
- A batch step's `ready(item)` is chained only on the step's success
  (src/lib/WaitFor.ts:100), so a failed step never releases the ids that wait
  on it. Steps are not part of this model (see below).

## Model

| member | source | states |
|---|---|---|
| `Coordinator.WaitFor.constructor` | src/lib/WaitFor.ts:55-58 | a new coordinator has no recorded lists and no deferreds, and keeps the given stall policy, `Throw` when none is given |
| `Coordinator.WaitFor.WaitFor` | src/lib/WaitFor.ts:66-80 | `id`'s list becomes exactly `deps` and no other list changes, even when it then fails; it fails, with the cycle error for `id`, exactly when the reachable part is not a tree; on failure the registry is unchanged; on success every dependency has a deferred, existing ones are kept, new ones are pending, and the join is over `deps` |
| `Coordinator.WaitFor.GetWaiter` | src/lib/WaitFor.ts:87-88 | the waiter of `id`; its whole meaning is carried by `CallWaiter`'s contract and shown end to end by `Scenarios.WaiterDeclaresForItsOwner` |
| `Coordinator.WaitFor.CallWaiter` | src/lib/WaitFor.ts:87-89 | calling the waiter of `id` with `deps` has exactly the effect and result of `WaitFor(id, deps)` |
| `Coordinator.WaitFor.Map` | src/lib/WaitFor.ts:103-130 | with no detection every index is awaited in order; under `Throw` with a stalled item the batch fails naming exactly the stalled items in input order; otherwise exactly the indices of non-stalled items are awaited, in order |
| `Coordinator.WaitFor.Ready` | src/lib/WaitFor.ts:138-142 | the registry becomes `Fire(old registry, id, value)`, with `value` `Undefined` when none is given, and the graph is unchanged |
| `Coordinator.WaitFor.GetDeferredFor` | src/lib/WaitFor.ts:145-154 | an existing deferred is returned and nothing changes; otherwise a pending one is added for `id` alone and returned |
| `Coordinator.WaitFor.CheckForCycle` | src/lib/WaitFor.ts:157-178 | the stack-and-visited-set traversal terminates and returns true exactly when the part of the graph reachable from `root` is not a tree (`IsTreeFrom`) |
| `DependencyGraph.TraversalVisits` | src/lib/WaitFor.ts:161-174 | popping an id not yet visited, marking it visited and pushing its list keeps the traversal's invariant: each push is still on the stack or visited, visited ids are distinct and reachable, visited lists are covered |
| `DependencyGraph.TraversalRepeats` | src/lib/WaitFor.ts:165-166 | popping an id that was already visited means it was pushed twice, so the reachable part is not a tree |
| `DependencyGraph.TraversalEnds` | src/lib/WaitFor.ts:161-177 | an empty stack means every id was pushed once and the visited set is closed, so the reachable part is a tree |
| `DependencyGraph.CycleBreaksTree` | src/lib/WaitFor.ts:157-178 | any cycle reachable from `root` makes the check fail: soundness of the check as cycle detection |
| `DependencyGraph.ReachableCycleBreaksTree` | src/lib/WaitFor.ts:157-178 | a cycle through any id reachable from `root` makes the check from `root` fail |
| `DependencyGraph.SelfDependencyBreaksTree` | src/lib/WaitFor.ts:157-178 | an id whose own list names it fails the check |
| `DependencyGraph.MutualDependencyBreaksTree` | src/test/WaitFor.ts:26-30 | two ids that list each other fail the check from either side |
| `DependencyGraph.DiamondBreaksTree` | src/lib/WaitFor.ts:159-172 | two distinct dependencies of `root` sharing a dependency fail the check although there is no cycle |
| `DependencyGraph.RepeatedEntryBreaksTree` | src/lib/WaitFor.ts:159-172 | a reachable list naming the same id at two entries fails the check, in any graph |
| `DependencyGraph.LeafDependenciesAreTree` | src/lib/WaitFor.ts:157-178 | a root whose list holds distinct ids other than itself, none with a list of its own, passes the check |
| `CompletionRegistry.Resolve` | src/lib/WaitFor.ts:138-142 | resolving a pending deferred fires it with the given payload; resolving a fired one leaves it as it was |
| `CompletionRegistry.Registered` | src/lib/WaitFor.ts:73-77 | after get-or-create over a list, the registry holds the old ids plus the listed ones; old entries are unchanged and new ones are pending |
| `CompletionRegistry.Fire` | src/lib/WaitFor.ts:138-142 | after `ready(id, v)`, `id` is fired with `v` unless it had already fired, in which case it keeps its payload; no other id changes |
| `CompletionRegistry.JoinValue` | src/lib/WaitFor.ts:79 | the join is resolved exactly when every listed id has fired, and then holds their payloads in list order |
| `CompletionRegistry.SecondFireIsNoOp` | src/lib/WaitFor.ts:138-142 | a second `ready` changes nothing; the first payload stays |
| `CompletionRegistry.FireCommutesWithRegistered` | src/lib/WaitFor.ts:66-80 | `ready` before the waiter registers and `ready` after it give the same registry, so waiters observe the same payload |
| `CompletionRegistry.ResolvedJoinIsStable` | src/lib/WaitFor.ts:79 | once resolved, a join keeps its value whatever is fired or registered afterwards |
| `CompletionRegistry.FireResolvesJoin` | src/lib/WaitFor.ts:138-142 | firing the one pending id of a join resolves it, with the fired payload at that id's positions |
| `StallClassification.Unknown` | src/lib/WaitFor.ts:112 | the filtered list holds exactly the dependencies that are not items of the batch, and is no longer than the list |
| `StallClassification.StalledIndices` | src/lib/WaitFor.ts:107-114 | every stalled index is an index of the batch |
| `StallClassification.DoneIndices` | src/lib/WaitFor.ts:107-117 | every awaited index is an index of the batch |
| `StallClassification.StalledIndicesExact` | src/lib/WaitFor.ts:110-113 | an index is stalled exactly when its item has a recorded list naming an id outside the batch; the list is in input order |
| `StallClassification.DoneIndicesExact` | src/lib/WaitFor.ts:115-117 | an index is awaited exactly when its item is not stalled; the list is in input order |
| `StallClassification.PartitionSizes` | src/lib/WaitFor.ts:107-118 | the two lists together are as long as the batch |
| `StallClassification.PartitionIsExact` | src/lib/WaitFor.ts:104-118 | every index of the batch is in exactly one of the two lists, both lists keep input order, and stalled means naming an id outside the batch |
| `Scenarios.ItWaits` | src/test/WaitFor.ts:4-16 | a join on 2 is waiting until `ready(2)`, then resolves with `undefined` |
| `Scenarios.ItResolvesImmediatelyIfAlreadyCompleted` | src/test/WaitFor.ts:19-23 | waiting on an id that is already ready resolves at once |
| `Scenarios.ItThrowsOnACycle` | src/test/WaitFor.ts:26-30 | 1 waiting on 2 succeeds; 2 then waiting on 1 fails with the cycle error for 2 |
| `Scenarios.ItCanPassAValue` | src/test/WaitFor.ts:33-37 | after `ready(1, 'hello')`, waiting on 1 yields `'hello'` as its first element |
| `Scenarios.SelfDependencyThrows` | src/lib/WaitFor.ts:66-71 | 1 waiting on itself fails with the cycle error for 1 |
| `Scenarios.RedeclaringAfterACycleSucceeds` | src/lib/WaitFor.ts:66-71 | after 2's cyclic declaration is refused, declaring 2 waits on 3 succeeds |
| `Scenarios.RefusedListStaysRecorded` | src/lib/WaitFor.ts:67-71 | the refused list of 2 stays recorded, so 3 waiting on 2 is refused too |
| `Scenarios.SecondReadyIsIgnored` | src/lib/WaitFor.ts:138-142 | after two `ready` calls on 1, a waiter on 1 receives the first payload |
| `Scenarios.RepeatedEntryIsRefused` | src/lib/WaitFor.ts:66-71 | 1 waiting on `[2, 2]` fails with the cycle error for 1, though there is no cycle |
| `Scenarios.DiamondIsRefused` | src/lib/WaitFor.ts:157-178 | with 2 and 3 both waiting on 4, 1 waiting on 2 and 3 fails with the cycle error |
| `Scenarios.WaiterDeclaresForItsOwner` | src/lib/WaitFor.ts:87-89 | after 2 declares 3, calling the waiter of 1 with `[2]` succeeds with the join over `[2]` and records the chain 1 waits on 2, 2 waits on 3, as `waitFor(1, [2])` would |
| `Scenarios.ChainIsTree` | src/lib/WaitFor.ts:157-178 | the chain 1 waits on 2, 2 waits on 3 passes the check from 1 |
| `Scenarios.StallThrows` | src/lib/WaitFor.ts:120-122 | under `throw`, a batch whose only item waits on an id outside it fails, naming that item |
| `Scenarios.StallFilters` | src/lib/WaitFor.ts:124-126 | under `filter`, the stalled item is left out and only the other item's step is awaited |

## Left out

- Coordinator.WaitFor.WaitFor: the original stores the caller's own array as the recorded list (src/lib/WaitFor.ts:67-68), so a caller who later mutates that array changes the recorded list without calling `waitFor`, and later cycle checks and batch classifications see the change. The model stores a value copy of `deps`, so this aliasing is not captured.
- Promise and event-loop machinery: `Deferred` (src/lib/WaitFor.ts:7-18), `Promise.all` and the order in which continuations run. A deferred is a state in a map; a join is a value computed from that map. The ordering check of the "it waits" test (the marker pushed before `ready`) is reduced to "waiting before `ready`, resolved after".
- `Deferred.reject` and rejection of a join: the code never rejects a deferred.
- A payload that is itself a promise: JavaScript's `resolve` would adopt its state. Payloads are plain values here.
- `Coordinator.WaitFor.Map`: the step function, its per-item promises, the `ready(item)` chained on a step's success (src/lib/WaitFor.ts:98-101), the steps' results and the steps' failures. `Map` says which step indices are awaited, or which error is raised. The lists it classifies are the graph field at the time of the call, so a step's synchronous `waitFor` is modelled by calling `WaitFor` before `Map`.
- `WaitForFunction.run` (src/lib/WaitFor.ts:185-194): a wrapper that calls arbitrary functions with spread arguments.
- `getName` (src/lib/WaitFor.ts:197-199) and the error message texts: errors carry the id or the stalled items instead.
- `getWaiter`'s closure (src/lib/WaitFor.ts:87-89): it is the datatype `Waiter(owner)`, and calling it is `CallWaiter` on some coordinator. The closure also captures the coordinator that made it; the datatype does not, so the model does not rule out calling a waiter on another coordinator.
- Id equality: JavaScript's `Map` and `Set` compare keys by SameValueZero. The model uses Dafny equality on the id type.
- Concurrency: every operation runs to completion on one thread, as on the JavaScript event loop.
