/**
 * Delegate registries: secondary containers consulted last, in the order
 * they were added. Each is seen only through `has` and `get`.
 */
module Delegates {
  import opened Types
  import Search

  /** `has(id)` is `id in entries`; `get(id)` is `entries[id]`. */
  datatype Delegate = Delegate(entries: map<Id, Value>)

  predicate AnyHas(ds: seq<Delegate>, id: Id)
  {
    exists i :: 0 <= i < |ds| && id in ds[i].entries
  }

  function Holds(id: Id): Delegate -> bool
  {
    (d: Delegate) => id in d.entries
  }

  /** The first delegate that has `id`; later delegates are never asked. */
  function FirstHolder(ds: seq<Delegate>, id: Id): (k: Option<nat>)
    ensures k.Some? <==> AnyHas(ds, id)
    ensures k.Some? ==> k.value < |ds| && id in ds[k.value].entries
    ensures k.Some? ==> forall j :: 0 <= j < k.value ==> id !in ds[j].entries
  {
    Search.First(ds, Holds(id))
  }
}
