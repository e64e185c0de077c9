/**
 * The completion registry of a WaitFor coordinator: each id's single-fire
 * signal (a deferred promise in the original), created lazily on first use by
 * a waiter or by `ready`, and the AND-join a waiter receives over a list of
 * ids.
 */
module CompletionRegistry {

  /** What `ready` fires with; `ready(id)` without a value fires with `undefined`. */
  datatype Payload<V> = Undefined | Value(value: V)

  /** One id's deferred: pending until fired, then fixed for good. */
  datatype Signal<V> = Pending | Fired(payload: Payload<V>)

  /** Resolving a deferred: a pending one fires with `v`; one that has already fired keeps its payload. */
  function Resolve<V>(s: Signal<V>, v: Payload<V>): (r: Signal<V>)
    ensures r.Fired?
    ensures s.Pending? ==> r.payload == v
    ensures s.Fired? ==> r == s
  {
    if s.Pending? then Fired(v) else s
  }

  type Registry<T, V> = map<T, Signal<V>>

  /** The registry after getting or creating the deferred of every id of `ids`, in order. */
  function Registered<T, V>(reg: Registry<T, V>, ids: seq<T>): (r: Registry<T, V>)
    ensures r.Keys == reg.Keys + set x | x in ids
    ensures forall x :: x in reg ==> r[x] == reg[x]
    ensures forall x :: x in r && x !in reg ==> r[x] == Pending
    decreases |ids|
  {
    if ids == [] then reg
    else
      var before := Registered(reg, ids[..|ids| - 1]);
      var x := ids[|ids| - 1];
      if x in before then before else before[x := Pending]
  }

  /** The registry after `ready(id, v)`: the deferred of `id` is created if need be and resolved with `v`. */
  function Fire<T, V>(reg: Registry<T, V>, id: T, v: Payload<V>): (r: Registry<T, V>)
    ensures r.Keys == reg.Keys + {id}
    ensures forall x :: x in reg && x != id ==> r[x] == reg[x]
    ensures r[id] == if id in reg && reg[id].Fired? then reg[id] else Fired(v)
  {
    var current := if id in reg then reg[id] else Pending;
    reg[id := Resolve(current, v)]
  }

  /** The state of the promise `Promise.all` returns for the deferreds of `ids`. */
  datatype JoinState<V> = Waiting | Resolved(values: seq<Payload<V>>)

  /**
   * The AND-join over `ids`: resolved exactly when every listed id has fired,
   * with their payloads in the order of `ids`.
   */
  function JoinValue<T, V>(reg: Registry<T, V>, ids: seq<T>): (r: JoinState<V>)
    ensures r.Resolved? <==> forall i :: 0 <= i < |ids| ==> ids[i] in reg && reg[ids[i]].Fired?
    ensures r.Resolved? ==>
              |r.values| == |ids| && forall i :: 0 <= i < |ids| ==> r.values[i] == reg[ids[i]].payload
    decreases |ids|
  {
    if ids == [] then Resolved([])
    else if ids[0] in reg && reg[ids[0]].Fired? then
      match JoinValue(reg, ids[1..])
      case Resolved(rest) => Resolved([reg[ids[0]].payload] + rest)
      case Waiting => Waiting
    else Waiting
  }

  // ---------------------------------------------------------------------------
  // Lemmas

  /** A second `ready` for the same id changes nothing: the first payload stays. */
  lemma SecondFireIsNoOp<T, V>(reg: Registry<T, V>, id: T, v: Payload<V>, w: Payload<V>)
    ensures Fire(Fire(reg, id, v), id, w) == Fire(reg, id, v)
    ensures id !in reg || reg[id].Pending? ==> Fire(Fire(reg, id, v), id, w)[id] == Fired(v)
  {
  }

  /**
   * `ready` before the waiter registers and `ready` after it lead to the same
   * registry, so every waiter observes the same payload either way.
   */
  lemma {:induction false} FireCommutesWithRegistered<T, V>(reg: Registry<T, V>, ids: seq<T>, id: T, v: Payload<V>)
    ensures Fire(Registered(reg, ids), id, v) == Registered(Fire(reg, id, v), ids)
  {
    var left := Fire(Registered(reg, ids), id, v);
    var right := Registered(Fire(reg, id, v), ids);
    assert left.Keys == right.Keys;
    forall x | x in left ensures left[x] == right[x] {
      if x == id {
        assert x in Fire(reg, id, v);
      } else if x in reg {
        assert right[x] == Fire(reg, id, v)[x];
      }
    }
  }

  /** Once resolved, a join keeps its value whatever is fired or registered afterwards. */
  lemma ResolvedJoinIsStable<T, V>(reg: Registry<T, V>, ids: seq<T>, id: T, v: Payload<V>, more: seq<T>)
    requires JoinValue(reg, ids).Resolved?
    ensures JoinValue(Fire(reg, id, v), ids) == JoinValue(reg, ids)
    ensures JoinValue(Registered(reg, more), ids) == JoinValue(reg, ids)
  {
    var before := JoinValue(reg, ids).values;
    var fired := JoinValue(Fire(reg, id, v), ids);
    assert fired.Resolved? by {
      forall i | 0 <= i < |ids| ensures ids[i] in Fire(reg, id, v) && Fire(reg, id, v)[ids[i]].Fired? {
        assert ids[i] in reg;
      }
    }
    assert fired.values == before;
    var registered := JoinValue(Registered(reg, more), ids);
    assert registered.Resolved? by {
      forall i | 0 <= i < |ids| ensures ids[i] in Registered(reg, more) && Registered(reg, more)[ids[i]].Fired? {
        assert ids[i] in reg;
      }
    }
    assert registered.values == before;
  }

  /** Firing the last pending id of a join resolves it with the fired payload in that id's places. */
  lemma FireResolvesJoin<T, V>(reg: Registry<T, V>, ids: seq<T>, id: T, v: Payload<V>)
    requires forall i :: 0 <= i < |ids| && ids[i] != id ==> ids[i] in reg && reg[ids[i]].Fired?
    requires id !in reg || reg[id].Pending?
    ensures JoinValue(Fire(reg, id, v), ids).Resolved?
    ensures forall i :: 0 <= i < |ids| && ids[i] == id ==> JoinValue(Fire(reg, id, v), ids).values[i] == v
  {
  }
}
