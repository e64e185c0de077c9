/**
 * The dependency graph of a WaitFor coordinator: for every id that has
 * declared dependencies, the list of ids it waits on (the last list declared
 * wins). This module defines reachability over the recorded lists and the
 * exact condition under which the coordinator's cycle check passes, and
 * proves the facts the check's loop relies on.
 */
module DependencyGraph {

  /** Each declared id mapped to the ids it waits on, in declaration order. */
  type Graph<T> = map<T, seq<T>>

  /** The list recorded for `x`; an id that declared nothing has no entries. */
  function Deps<T(!new)>(g: Graph<T>, x: T): seq<T> {
    if x in g then g[x] else []
  }

  /** `p` follows recorded lists: every step goes from an id to one of its dependencies. */
  ghost predicate IsPath<T(!new)>(g: Graph<T>, p: seq<T>) {
    |p| > 0 && forall i :: 0 <= i < |p| - 1 ==> p[i] in g && p[i + 1] in g[p[i]]
  }

  ghost predicate Reachable<T(!new)>(g: Graph<T>, from: T, to: T) {
    exists p :: IsPath(g, p) && p[0] == from && p[|p| - 1] == to
  }

  /**
   * The part of `g` reachable from `root` unfolds into a tree with no repeated
   * label: `root` is never an entry of a reachable id's list, and no id stands
   * at two different entries of the lists of reachable ids (two entries of one
   * list, or one entry in each of two lists). These entries, with `root`
   * itself, are exactly what the cycle check pushes on its stack.
   */
  ghost predicate IsTreeFrom<T(!new)>(g: Graph<T>, root: T) {
    && (forall x, i :: Reachable(g, root, x) && x in g && 0 <= i < |g[x]| ==> g[x][i] != root)
    && (forall x, i, y, j ::
          && Reachable(g, root, x) && Reachable(g, root, y) && x in g && y in g
          && 0 <= i < |g[x]| && 0 <= j < |g[y]| && g[x][i] == g[y][j]
          ==> x == y && i == j)
  }

  /** Every id the traversal from `root` can ever push: `root` and all recorded entries. */
  ghost function Universe<T(!new)>(g: Graph<T>, root: T): set<T> {
    {root} + set x, i | x in g && 0 <= i < |g[x]| :: g[x][i]
  }

  /** All entries of the lists of the ids in `order`, counted with multiplicity. */
  ghost function Entries<T(!new)>(g: Graph<T>, order: seq<T>): multiset<T> {
    if order == [] then multiset{}
    else Entries(g, order[..|order| - 1]) + multiset(Deps(g, order[|order| - 1]))
  }

  ghost predicate Distinct<T(!new)>(s: seq<T>) {
    forall y :: multiset(s)[y] <= 1
  }

  // ---------------------------------------------------------------------------
  // Reachability

  lemma RootReachable<T(!new)>(g: Graph<T>, root: T)
    ensures Reachable(g, root, root)
  {
    assert IsPath(g, [root]);
  }

  lemma ReachableStep<T(!new)>(g: Graph<T>, root: T, x: T, d: T)
    requires Reachable(g, root, x) && x in g && d in g[x]
    ensures Reachable(g, root, d)
  {
    var p :| IsPath(g, p) && p[0] == root && p[|p| - 1] == x;
    var q := p + [d];
    assert IsPath(g, q);
  }

  /** Every entry of a recorded list belongs to the universe of any root. */
  lemma EntryInUniverse<T(!new)>(g: Graph<T>, root: T, x: T, d: T)
    requires x in g && d in g[x]
    ensures d in Universe(g, root)
  {
    var i :| 0 <= i < |g[x]| && g[x][i] == d;
  }

  /** A set holding `root` and closed under recorded lists holds the end of every path from `root`. */
  lemma {:induction false} ClosedSetHoldsPathEnd<T(!new)>(g: Graph<T>, root: T, s: set<T>, p: seq<T>)
    requires root in s
    requires forall x, d :: x in s && x in g && d in g[x] ==> d in s
    requires IsPath(g, p) && p[0] == root
    ensures p[|p| - 1] in s
    decreases |p|
  {
    if |p| > 1 {
      var q := p[..|p| - 1];
      assert IsPath(g, q);
      ClosedSetHoldsPathEnd(g, root, s, q);
      assert p[|p| - 2] in s && p[|p| - 1] in g[p[|p| - 2]];
    }
  }

  lemma ClosedSetHoldsReachable<T(!new)>(g: Graph<T>, root: T, s: set<T>, x: T)
    requires root in s
    requires forall x, d :: x in s && x in g && d in g[x] ==> d in s
    requires Reachable(g, root, x)
    ensures x in s
  {
    var p :| IsPath(g, p) && p[0] == root && p[|p| - 1] == x;
    ClosedSetHoldsPathEnd(g, root, s, p);
  }

  // ---------------------------------------------------------------------------
  // Counting entries

  lemma {:induction false} RepeatCounts<T(!new)>(s: seq<T>, i: int, j: int)
    requires 0 <= i < j < |s| && s[i] == s[j]
    ensures multiset(s)[s[i]] >= 2
  {
    assert s == s[..j] + [s[j]] + s[j + 1..];
    assert s[..j][i] == s[i];
    assert s[i] in multiset(s[..j]);
  }

  lemma {:induction false} RepeatIndices<T(!new)>(s: seq<T>, y: T)
    requires multiset(s)[y] >= 2
    ensures exists i, j :: 0 <= i < j < |s| && s[i] == y && s[j] == y
    decreases |s|
  {
    assert s == [s[0]] + s[1..];
    if s[0] == y {
      assert y in multiset(s[1..]);
      var k :| 0 <= k < |s[1..]| && s[1..][k] == y;
      assert s[k + 1] == y;
    } else {
      RepeatIndices(s[1..], y);
      var i, j :| 0 <= i < j < |s[1..]| && s[1..][i] == y && s[1..][j] == y;
      assert s[i + 1] == y && s[j + 1] == y;
    }
  }

  lemma {:induction false} OwnedEntries<T(!new)>(g: Graph<T>, order: seq<T>, k: int)
    requires 0 <= k < |order|
    ensures multiset(Deps(g, order[k])) <= Entries(g, order)
    decreases |order|
  {
    if k < |order| - 1 {
      OwnedEntries(g, order[..|order| - 1], k);
    }
  }

  lemma {:induction false} TwoOwnedEntries<T(!new)>(g: Graph<T>, order: seq<T>, k: int, l: int)
    requires 0 <= k < l < |order|
    ensures multiset(Deps(g, order[k])) + multiset(Deps(g, order[l])) <= Entries(g, order)
    decreases |order|
  {
    var init := order[..|order| - 1];
    if l < |order| - 1 {
      TwoOwnedEntries(g, init, k, l);
    } else {
      OwnedEntries(g, init, k);
    }
  }

  lemma {:induction false} EntryOwner<T(!new)>(g: Graph<T>, order: seq<T>, y: T)
    requires y in Entries(g, order)
    ensures exists k :: 0 <= k < |order| && y in Deps(g, order[k])
    decreases |order|
  {
    var init := order[..|order| - 1];
    if y !in Deps(g, order[|order| - 1]) {
      EntryOwner(g, init, y);
      var k :| 0 <= k < |init| && y in Deps(g, init[k]);
      assert order[k] == init[k];
    }
  }

  // ---------------------------------------------------------------------------
  // The two facts the cycle check's loop needs

  /**
   * Popping `id` from the stack, visiting it and pushing its list keeps the
   * count: what is on the stack or visited is what has been pushed.
   */
  lemma VisitKeepsCount<T(!new)>(g: Graph<T>, root: T, stack: seq<T>, order: seq<T>)
    requires |stack| > 0 && Counted(g, root, stack, order)
    ensures var id := stack[|stack| - 1];
            Counted(g, root, stack[..|stack| - 1] + Deps(g, id), order + [id])
  {
    var id := stack[|stack| - 1];
    var rest := stack[..|stack| - 1];
    assert stack == rest + [id];
    assert multiset(stack) == multiset(rest) + multiset{id};
    assert (order + [id])[..|order|] == order;
    assert Entries(g, order + [id]) == Entries(g, order) + multiset(Deps(g, id));
    assert multiset(rest + Deps(g, id)) == multiset(rest) + multiset(Deps(g, id));
    assert multiset(order + [id]) == multiset(order) + multiset{id};
    MovePushed(multiset(rest), multiset{id}, multiset(order), multiset{root} + Entries(g, order), multiset(Deps(g, id)));
  }

  /** Moving `moved` from the stack's count to the visited count and adding `pushed` to both sides keeps the balance. */
  lemma MovePushed<T>(rest: multiset<T>, moved: multiset<T>, done: multiset<T>, total: multiset<T>, pushed: multiset<T>)
    requires rest + moved + done == total
    ensures (rest + pushed) + (done + moved) == total + pushed
  {
    forall y ensures ((rest + pushed) + (done + moved))[y] == (total + pushed)[y] {
      assert total[y] == rest[y] + moved[y] + done[y];
    }
  }

  /**
   * If an id is pushed twice by a traversal that has visited the distinct,
   * reachable ids `order`, the reachable part is not a tree.
   */
  lemma {:induction false} RepeatBreaksTree<T(!new)>(g: Graph<T>, root: T, order: seq<T>, y: T)
    requires Distinct(order)
    requires forall x :: x in order ==> Reachable(g, root, x)
    requires (multiset{root} + Entries(g, order))[y] >= 2
    ensures !IsTreeFrom(g, root)
    decreases |order|
  {
    var init := order[..|order| - 1];
    var x := order[|order| - 1];
    var ds := Deps(g, x);
    assert order == init + [x];
    assert multiset(order) == multiset(init) + multiset{x};
    assert x in order;
    if multiset(ds)[y] >= 2 {
      RepeatIndices(ds, y);
      var i, j :| 0 <= i < j < |ds| && ds[i] == y && ds[j] == y;
      SharedEntryBreaksTree(g, root, x, i, x, j);
    } else if multiset(ds)[y] == 1 {
      var i :| 0 <= i < |ds| && ds[i] == y;
      if y == root {
        RootEntryBreaksTree(g, root, x, i);
      } else {
        assert y in Entries(g, init);
        EntryOwner(g, init, y);
        var k :| 0 <= k < |init| && y in Deps(g, init[k]);
        var z := init[k];
        assert z in order;
        assert multiset(order)[x] <= 1;
        assert x !in init;
        var j :| 0 <= j < |g[z]| && g[z][j] == y;
        SharedEntryBreaksTree(g, root, x, i, z, j);
      }
    } else {
      DistinctPrefix(order);
      forall z | z in init ensures Reachable(g, root, z) {
        assert z in order;
      }
      RepeatBreaksTree(g, root, init, y);
    }
  }

  /** A reachable list that names `root` breaks the tree condition. */
  lemma RootEntryBreaksTree<T(!new)>(g: Graph<T>, root: T, x: T, i: int)
    requires Reachable(g, root, x) && x in g && 0 <= i < |g[x]| && g[x][i] == root
    ensures !IsTreeFrom(g, root)
  {
  }

  /** The same id at two different entries of reachable lists breaks the tree condition. */
  lemma SharedEntryBreaksTree<T(!new)>(g: Graph<T>, root: T, x: T, i: int, z: T, j: int)
    requires Reachable(g, root, x) && Reachable(g, root, z) && x in g && z in g
    requires 0 <= i < |g[x]| && 0 <= j < |g[z]| && g[x][i] == g[z][j]
    requires x != z || i != j
    ensures !IsTreeFrom(g, root)
  {
  }

  /** Dropping the last element keeps a sequence free of repeats. */
  lemma DistinctPrefix<T(!new)>(s: seq<T>)
    requires Distinct(s) && |s| > 0
    ensures Distinct(s[..|s| - 1])
  {
    var init := s[..|s| - 1];
    assert s == init + [s[|s| - 1]];
    assert multiset(s) == multiset(init) + multiset{s[|s| - 1]};
    forall z ensures multiset(init)[z] <= 1 {
      assert multiset(init)[z] <= multiset(s)[z];
    }
  }

  /**
   * A traversal that visited the distinct ids `order`, closed under recorded
   * lists and holding `root`, pushed every id exactly once only if the
   * reachable part is a tree.
   */
  lemma CompleteRunIsTree<T(!new)>(g: Graph<T>, root: T, order: seq<T>)
    requires Distinct(order) && root in order
    requires forall x, d :: x in order && x in g && d in g[x] ==> d in order
    requires multiset(order) == multiset{root} + Entries(g, order)
    ensures IsTreeFrom(g, root)
  {
    var s := set x | x in order;
    forall x | Reachable(g, root, x) ensures x in order {
      ClosedSetHoldsReachable(g, root, s, x);
    }
    forall x, i | Reachable(g, root, x) && x in g && 0 <= i < |g[x]|
      ensures g[x][i] != root
    {
      OnceVisitedNamesNoRoot(g, root, order, x, i);
    }
    forall x, i, y, j |
      && Reachable(g, root, x) && Reachable(g, root, y) && x in g && y in g
      && 0 <= i < |g[x]| && 0 <= j < |g[y]| && g[x][i] == g[y][j]
      ensures x == y && i == j
    {
      OnceVisitedShareNoEntry(g, root, order, x, i, y, j);
    }
  }

  /** In such a run, no visited id's list names `root`, which was pushed first. */
  lemma OnceVisitedNamesNoRoot<T(!new)>(g: Graph<T>, root: T, order: seq<T>, x: T, i: int)
    requires Distinct(order) && root in order
    requires multiset(order) == multiset{root} + Entries(g, order)
    requires x in order && x in g && 0 <= i < |g[x]|
    ensures g[x][i] != root
  {
    var k :| 0 <= k < |order| && order[k] == x;
    OwnedEntries(g, order, k);
    assert multiset(order)[root] <= 1;
    assert multiset(Deps(g, x))[root] == 0;
    assert g[x][i] in multiset(Deps(g, x));
  }

  /** In such a run, no id stands at two entries of visited ids' lists. */
  lemma OnceVisitedShareNoEntry<T(!new)>(g: Graph<T>, root: T, order: seq<T>, x: T, i: int, y: T, j: int)
    requires Distinct(order)
    requires multiset(order) == multiset{root} + Entries(g, order)
    requires x in order && y in order && x in g && y in g
    requires 0 <= i < |g[x]| && 0 <= j < |g[y]| && g[x][i] == g[y][j]
    ensures x == y && i == j
  {
    var e := g[x][i];
    var k :| 0 <= k < |order| && order[k] == x;
    var l :| 0 <= l < |order| && order[l] == y;
    assert multiset(order)[e] <= 1;
    assert e in multiset(Deps(g, x)) && e in multiset(Deps(g, y));
    if x == y && i < j {
      RepeatCounts(g[x], i, j);
      OwnedEntries(g, order, k);
    } else if x == y && j < i {
      RepeatCounts(g[x], j, i);
      OwnedEntries(g, order, k);
    } else if k < l {
      TwoOwnedEntries(g, order, k, l);
    } else if l < k {
      TwoOwnedEntries(g, order, l, k);
    }
  }

  // ---------------------------------------------------------------------------
  // The state of the cycle check's traversal between two iterations

  /**
   * `stack` and `visited` as the cycle check keeps them, with the ghost
   * `order` in which ids were visited: visited ids are distinct and reachable,
   * every push is still on the stack or visited, and a visited id's list is
   * entirely on the stack or visited.
   */
  ghost predicate TraversalState<T(!new)>(g: Graph<T>, root: T, stack: seq<T>, visited: set<T>, order: seq<T>) {
    && SameIds(visited, order)
    && Distinct(order)
    && Counted(g, root, stack, order)
    && Pushable(g, root, stack)
    && AllReachable(g, root, order)
    && visited <= Universe(g, root)
    && Covered(g, stack, visited)
  }

  ghost predicate SameIds<T(!new)>(visited: set<T>, order: seq<T>) {
    forall x :: x in visited <==> x in order
  }

  /** What is on the stack or visited is exactly what has been pushed: `root`, then the lists of visited ids. */
  ghost predicate Counted<T(!new)>(g: Graph<T>, root: T, stack: seq<T>, order: seq<T>) {
    multiset(stack) + multiset(order) == multiset{root} + Entries(g, order)
  }

  ghost predicate Pushable<T(!new)>(g: Graph<T>, root: T, stack: seq<T>) {
    forall x :: x in stack ==> Reachable(g, root, x) && x in Universe(g, root)
  }

  ghost predicate AllReachable<T(!new)>(g: Graph<T>, root: T, order: seq<T>) {
    forall x :: x in order ==> Reachable(g, root, x)
  }

  /** The list of every visited id is entirely visited or on the stack. */
  ghost predicate Covered<T(!new)>(g: Graph<T>, stack: seq<T>, visited: set<T>) {
    forall x, d :: x in visited && x in g && d in g[x] ==> d in visited || d in stack
  }

  lemma TraversalStarts<T(!new)>(g: Graph<T>, root: T)
    ensures TraversalState(g, root, [root], {}, [])
  {
    RootReachable(g, root);
  }

  /** The ids pushed when `id` is visited are reachable from `root` and in its universe, as the rest of the stack is. */
  lemma VisitKeepsReach<T(!new)>(g: Graph<T>, root: T, stack: seq<T>)
    requires |stack| > 0 && Pushable(g, root, stack)
    ensures Pushable(g, root, stack[..|stack| - 1] + Deps(g, stack[|stack| - 1]))
  {
    var id := stack[|stack| - 1];
    var rest := stack[..|stack| - 1];
    assert id in stack;
    forall x | x in rest + Deps(g, id) ensures Reachable(g, root, x) && x in Universe(g, root) {
      if x in rest {
        assert x in stack;
      } else {
        ReachableStep(g, root, id, x);
        EntryInUniverse(g, root, id, x);
      }
    }
  }

  /** Visiting `id` and pushing its list keeps every visited id's list covered by the visited set and the stack. */
  lemma VisitKeepsClosure<T(!new)>(g: Graph<T>, stack: seq<T>, visited: set<T>)
    requires |stack| > 0 && Covered(g, stack, visited)
    ensures var id := stack[|stack| - 1];
            Covered(g, stack[..|stack| - 1] + Deps(g, id), visited + {id})
  {
    var id := stack[|stack| - 1];
    var rest := stack[..|stack| - 1];
    assert stack == rest + [id];
    forall x, d | x in visited + {id} && x in g && d in g[x] ensures d in visited + {id} || d in rest + Deps(g, id) {
      if x == id {
        assert d in Deps(g, id);
      } else if d !in visited && d != id {
        assert d in stack;
        assert d in rest;
      }
    }
  }

  /** Popping an id that was not visited yet, visiting it and pushing its list keeps the state. */
  lemma TraversalVisits<T(!new)>(g: Graph<T>, root: T, stack: seq<T>, visited: set<T>, order: seq<T>)
    requires TraversalState(g, root, stack, visited, order)
    requires |stack| > 0 && stack[|stack| - 1] !in visited
    ensures var id := stack[|stack| - 1];
            TraversalState(g, root, stack[..|stack| - 1] + Deps(g, id), visited + {id}, order + [id])
  {
    var id := stack[|stack| - 1];
    VisitKeepsCount(g, root, stack, order);
    VisitKeepsReach(g, root, stack);
    VisitKeepsClosure(g, stack, visited);
    assert id in stack;
    VisitKeepsOrder(g, root, visited, order, id);
  }

  /** Visiting a reachable id not visited before keeps the visited ids distinct, reachable and in the universe. */
  lemma VisitKeepsOrder<T(!new)>(g: Graph<T>, root: T, visited: set<T>, order: seq<T>, id: T)
    requires SameIds(visited, order) && Distinct(order) && AllReachable(g, root, order)
    requires visited <= Universe(g, root)
    requires id !in visited && Reachable(g, root, id) && id in Universe(g, root)
    ensures SameIds(visited + {id}, order + [id])
    ensures Distinct(order + [id])
    ensures AllReachable(g, root, order + [id])
    ensures visited + {id} <= Universe(g, root)
  {
    assert multiset(order + [id]) == multiset(order) + multiset{id};
    assert id !in multiset(order);
  }

  /** Popping an id that was already visited: it was pushed twice, so the reachable part is no tree. */
  lemma TraversalRepeats<T(!new)>(g: Graph<T>, root: T, stack: seq<T>, visited: set<T>, order: seq<T>)
    requires TraversalState(g, root, stack, visited, order)
    requires |stack| > 0 && stack[|stack| - 1] in visited
    ensures !IsTreeFrom(g, root)
  {
    var id := stack[|stack| - 1];
    assert multiset(stack)[id] >= 1 && multiset(order)[id] >= 1;
    RepeatBreaksTree(g, root, order, id);
  }

  /** An empty stack: every push was popped once, so the reachable part is a tree. */
  lemma TraversalEnds<T(!new)>(g: Graph<T>, root: T, visited: set<T>, order: seq<T>)
    requires TraversalState(g, root, [], visited, order)
    ensures IsTreeFrom(g, root)
  {
    assert (multiset{root} + Entries(g, order))[root] >= 1;
    assert root in multiset(order);
    CompleteRunIsTree(g, root, order);
  }

  // ---------------------------------------------------------------------------
  // What the tree condition rules out

  lemma {:induction false} PathJoin<T(!new)>(g: Graph<T>, p: seq<T>, q: seq<T>)
    requires IsPath(g, p) && IsPath(g, q) && p[|p| - 1] == q[0]
    ensures IsPath(g, p + q[1..])
  {
    var r := p + q[1..];
    forall k | 0 <= k < |r| - 1 ensures r[k] in g && r[k + 1] in g[r[k]] {
      if k < |p| - 1 {
        assert r[k] == p[k] && r[k + 1] == p[k + 1];
      } else {
        assert r[k] == q[k - |p| + 1] && r[k + 1] == q[k - |p| + 2];
      }
    }
  }

  /**
   * Soundness of the tree condition as a cycle check: if a path leads from
   * `root` into a cycle `c` (first and last element equal, at least one step),
   * the reachable part is not a tree. A self-dependency is the cycle `[x, x]`.
   */
  lemma {:induction false} CycleBreaksTree<T(!new)>(g: Graph<T>, root: T, p: seq<T>, c: seq<T>)
    requires IsPath(g, p) && p[0] == root
    requires IsPath(g, c) && |c| >= 2 && c[0] == c[|c| - 1] && p[|p| - 1] == c[0]
    ensures !IsTreeFrom(g, root)
    decreases |p|
  {
    var n := |c|;
    var last := c[n - 2];
    var cycle := c[..n - 1];
    assert IsPath(g, cycle);
    PathJoin(g, p, cycle);
    var q := p + cycle[1..];
    assert q[0] == root && q[|q| - 1] == last;
    assert Reachable(g, root, last);
    assert c[n - 1] in g[last];
    var i :| 0 <= i < |g[last]| && g[last][i] == c[0];
    if |p| == 1 {
      assert g[last][i] == root;
    } else {
      var init := p[..|p| - 1];
      var parent := p[|p| - 2];
      assert IsPath(g, init);
      assert Reachable(g, root, parent);
      var j :| 0 <= j < |g[parent]| && g[parent][j] == c[0];
      if IsTreeFrom(g, root) {
        assert g[last][i] == g[parent][j];
        assert last == parent;
        var rotated := [last] + cycle;
        assert IsPath(g, rotated);
        CycleBreaksTree(g, root, init, rotated);
      }
    }
  }

  /** A cycle through any id reachable from `root` makes the reachable part fail the tree condition. */
  lemma ReachableCycleBreaksTree<T(!new)>(g: Graph<T>, root: T, x: T, c: seq<T>)
    requires Reachable(g, root, x)
    requires IsPath(g, c) && |c| >= 2 && c[0] == x && c[|c| - 1] == x
    ensures !IsTreeFrom(g, root)
  {
    var p :| IsPath(g, p) && p[0] == root && p[|p| - 1] == x;
    CycleBreaksTree(g, root, p, c);
  }

  /** An id whose own list names it is a cycle of length one. */
  lemma SelfDependencyBreaksTree<T(!new)>(g: Graph<T>, id: T)
    requires id in g && id in g[id]
    ensures !IsTreeFrom(g, id)
  {
    RootReachable(g, id);
    assert IsPath(g, [id, id]);
    ReachableCycleBreaksTree(g, id, id, [id, id]);
  }

  /** Two ids that list each other form a cycle seen from either of them. */
  lemma MutualDependencyBreaksTree<T(!new)>(g: Graph<T>, a: T, b: T)
    requires a in g && b in g && b in g[a] && a in g[b]
    ensures !IsTreeFrom(g, a) && !IsTreeFrom(g, b)
  {
    RootReachable(g, a);
    RootReachable(g, b);
    assert IsPath(g, [a, b, a]) && IsPath(g, [b, a, b]);
    ReachableCycleBreaksTree(g, a, a, [a, b, a]);
    ReachableCycleBreaksTree(g, b, b, [b, a, b]);
  }

  /**
   * The condition is stricter than acyclicity: a diamond, where two distinct
   * dependencies of `root` both list `d`, fails it although it has no cycle.
   */
  lemma DiamondBreaksTree<T(!new)>(g: Graph<T>, root: T, a: T, b: T, d: T)
    requires root in g && a in g[root] && b in g[root] && a != b
    requires a in g && b in g && d in g[a] && d in g[b]
    ensures !IsTreeFrom(g, root)
  {
    assert IsPath(g, [root, a]) && IsPath(g, [root, b]);
    assert Reachable(g, root, a) && Reachable(g, root, b);
    var i :| 0 <= i < |g[a]| && g[a][i] == d;
    var j :| 0 <= j < |g[b]| && g[b][j] == d;
    assert g[a][i] == g[b][j];
  }

  /** So does a reachable list that names the same id twice. */
  lemma RepeatedEntryBreaksTree<T(!new)>(g: Graph<T>, root: T, x: T, i: int, j: int)
    requires Reachable(g, root, x) && x in g
    requires 0 <= i < j < |g[x]| && g[x][i] == g[x][j]
    ensures !IsTreeFrom(g, root)
  {
    SharedEntryBreaksTree(g, root, x, i, x, j);
  }

  /**
   * A root whose list holds distinct ids other than itself, none of which has
   * declared a list of its own, passes.
   */
  lemma LeafDependenciesAreTree<T(!new)>(g: Graph<T>, root: T)
    requires root in g && root !in g[root]
    requires forall d :: d in g[root] ==> d !in g
    requires forall i, j :: 0 <= i < j < |g[root]| ==> g[root][i] != g[root][j]
    ensures IsTreeFrom(g, root)
  {
    var s := {root} + set d | d in g[root];
    forall x | Reachable(g, root, x) ensures x in s {
      ClosedSetHoldsReachable(g, root, s, x);
    }
  }
}
