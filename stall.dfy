/**
 * Stall detection for a batch run (`map`): an item is stalled when its
 * recorded dependency list names an id outside the batch. The policy decides
 * whether stalled items make the batch fail, are left out of the wait, or
 * are not looked for at all.
 */
module StallClassification {
  import opened DependencyGraph

  /** How `map` treats items that wait on ids outside the batch; `Throw` is the default. */
  datatype StallDetection = Throw | Filter | None

  /** The entries of `deps` that are not in `known`, in order (the filter of the batch check). */
  function Unknown<T(!new)>(deps: seq<T>, known: set<T>): (r: seq<T>)
    ensures forall x :: x in r <==> x in deps && x !in known
    ensures |r| <= |deps|
    decreases |deps|
  {
    if deps == [] then []
    else (if deps[0] in known then [] else [deps[0]]) + Unknown(deps[1..], known)
  }

  /** `item` has a recorded list and some entry of it is not an item of the batch. */
  predicate Stalled<T(!new)>(g: Graph<T>, known: set<T>, item: T) {
    item in g && |Unknown(g[item], known)| > 0
  }

  /** The ids of a batch, as the set the check looks ids up in. */
  function Known<T>(items: seq<T>): set<T> {
    set x | x in items
  }

  /** Indices of the stalled items, in input order. */
  function StalledIndices<T(!new)>(g: Graph<T>, known: set<T>, items: seq<T>): (r: seq<nat>)
    ensures forall j :: 0 <= j < |r| ==> r[j] < |items|
    decreases |items|
  {
    if items == [] then []
    else
      var n := |items| - 1;
      StalledIndices(g, known, items[..n]) + if Stalled(g, known, items[n]) then [n] else []
  }

  /** Indices of the items that are not stalled (whose steps are awaited), in input order. */
  function DoneIndices<T(!new)>(g: Graph<T>, known: set<T>, items: seq<T>): (r: seq<nat>)
    ensures forall j :: 0 <= j < |r| ==> r[j] < |items|
    decreases |items|
  {
    if items == [] then []
    else
      var n := |items| - 1;
      DoneIndices(g, known, items[..n]) + if Stalled(g, known, items[n]) then [] else [n]
  }

  /** The items at the given indices. */
  function ItemsAt<T>(items: seq<T>, indices: seq<nat>): seq<T>
    requires forall j :: 0 <= j < |indices| ==> indices[j] < |items|
  {
    seq(|indices|, j requires 0 <= j < |indices| => items[indices[j]])
  }

  /** All indices of a batch of `n` items, in order. */
  function AllIndices(n: nat): (r: seq<nat>)
    ensures |r| == n && forall k :: 0 <= k < n ==> r[k] == k
  {
    seq(n, k => k)
  }

  ghost predicate Increasing(s: seq<nat>) {
    forall a, b :: 0 <= a < b < |s| ==> s[a] < s[b]
  }

  /** An index is listed as stalled exactly when its item is stalled; the list keeps input order. */
  lemma {:induction false} StalledIndicesExact<T(!new)>(g: Graph<T>, known: set<T>, items: seq<T>)
    ensures forall k :: k in StalledIndices(g, known, items) <==> 0 <= k < |items| && Stalled(g, known, items[k])
    ensures Increasing(StalledIndices(g, known, items))
    decreases |items|
  {
    if items != [] {
      var n := |items| - 1;
      var init := items[..n];
      StalledIndicesExact(g, known, init);
      forall k | 0 <= k < n ensures init[k] == items[k] { }
    }
  }

  /** An index is listed as done exactly when its item is not stalled; the list keeps input order. */
  lemma {:induction false} DoneIndicesExact<T(!new)>(g: Graph<T>, known: set<T>, items: seq<T>)
    ensures forall k :: k in DoneIndices(g, known, items) <==> 0 <= k < |items| && !Stalled(g, known, items[k])
    ensures Increasing(DoneIndices(g, known, items))
    decreases |items|
  {
    if items != [] {
      var n := |items| - 1;
      var init := items[..n];
      DoneIndicesExact(g, known, init);
      forall k | 0 <= k < n ensures init[k] == items[k] { }
    }
  }

  lemma {:induction false} PartitionSizes<T(!new)>(g: Graph<T>, known: set<T>, items: seq<T>)
    ensures |StalledIndices(g, known, items)| + |DoneIndices(g, known, items)| == |items|
    decreases |items|
  {
    if items != [] {
      PartitionSizes(g, known, items[..|items| - 1]);
    }
  }

  /**
   * The classification is a partition: every index of `items` is in exactly
   * one of the two lists, in the stalled one exactly when its item is stalled,
   * and both lists keep input order.
   */
  lemma PartitionIsExact<T(!new)>(g: Graph<T>, known: set<T>, items: seq<T>)
    ensures forall k :: 0 <= k < |items| ==>
              (k in StalledIndices(g, known, items) <==> k !in DoneIndices(g, known, items))
    ensures forall k :: k in StalledIndices(g, known, items) <==> 0 <= k < |items| && Stalled(g, known, items[k])
    ensures forall k :: k in DoneIndices(g, known, items) <==> 0 <= k < |items| && !Stalled(g, known, items[k])
    ensures Increasing(StalledIndices(g, known, items)) && Increasing(DoneIndices(g, known, items))
    ensures |StalledIndices(g, known, items)| + |DoneIndices(g, known, items)| == |items|
  {
    StalledIndicesExact(g, known, items);
    DoneIndicesExact(g, known, items);
    PartitionSizes(g, known, items);
  }
}
