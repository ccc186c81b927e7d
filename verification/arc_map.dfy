/** `ArcMap<T>` (backend/src/container/arcmap.rs), the older twin of
    `GlobalMap`: the same map-plus-counter, with its own copy of the
    `WithId` trait (same two operations, so the model reuses
    `SharedMap.WithId`). */
module ArcMap {
  import opened Base
  import SharedMap

  datatype ArcMap<T> = ArcMap(curId: U32, innerMap: map<U32, T>)

  /** `#[derive(Default)]`: counter 0, empty map. */
  function Default<T>(): (a: ArcMap<T>)
    ensures a.curId == 0
    ensures forall k: U32 :: k !in a.innerMap
  {
    ArcMap(0, map[])
  }

  /** `add`: set the entity's id to the counter, insert under the counter,
      then increment it (`u32` arithmetic, wrapping as in a release build). */
  function Add<T>(a: ArcMap<T>, w: SharedMap.WithId<T>, t: T): (r: (ArcMap<T>, U32))
    ensures r.1 == a.curId
    ensures r.0.curId == SharedMap.NextId(a.curId)
    ensures r.1 in r.0.innerMap && r.0.innerMap[r.1] == w.setId(t, r.1)
    ensures forall k :: k != r.1 ==> (k in r.0.innerMap <==> k in a.innerMap)
    ensures forall k :: k != r.1 && k in a.innerMap ==> r.0.innerMap[k] == a.innerMap[k]
  {
    var t' := w.setId(t, a.curId);
    var inner := a.innerMap[a.curId := t'];
    (ArcMap(SharedMap.NextId(a.curId), inner), a.curId)
  }

  /** `remove_id`: only that key goes; a missing key changes nothing. */
  function RemoveId<T>(a: ArcMap<T>, id: U32): (r: ArcMap<T>)
    ensures id !in r.innerMap
    ensures r.curId == a.curId
    ensures forall k :: k != id ==> (k in r.innerMap <==> k in a.innerMap)
    ensures forall k :: k != id && k in a.innerMap ==> r.innerMap[k] == a.innerMap[k]
    ensures id !in a.innerMap ==> r == a
  {
    ArcMap(a.curId, a.innerMap - {id})
  }

  /** `remove(t)`: removes the key equal to the entity's id. */
  function Remove<T>(a: ArcMap<T>, w: SharedMap.WithId<T>, t: T): (r: ArcMap<T>)
    ensures r == RemoveId(a, w.id(t))
  {
    RemoveId(a, w.id(t))
  }

  /** `get`. */
  function Get<T>(a: ArcMap<T>, id: U32): (r: Option<T>)
    ensures r.Some? <==> id in a.innerMap
    ensures r.Some? ==> r.value == a.innerMap[id]
  {
    if id in a.innerMap then Some(a.innerMap[id]) else None
  }

  /** `is_valid_id`. */
  function IsValidId<T>(a: ArcMap<T>, id: U32): (b: bool)
    ensures b <==> id in a.innerMap
  {
    id in a.innerMap
  }

  /** The `GlobalMap` holding the same counter and entries. */
  function AsGlobalMap<T>(a: ArcMap<T>): SharedMap.GlobalMap<T> {
    SharedMap.GlobalMap(a.curId, a.innerMap)
  }

  /** `find`: the loop of the source, visiting the entries in the map's
      iteration order `order` and stopping at the first match. */
  method Find<T>(a: ArcMap<T>, order: seq<U32>, f: T -> bool) returns (r: Option<U32>)
    requires forall i :: 0 <= i < |order| ==> order[i] in a.innerMap
    ensures r.Some? ==> r.value in a.innerMap && f(a.innerMap[r.value])
    ensures r.None? <==> forall i :: 0 <= i < |order| ==> !f(a.innerMap[order[i]])
    ensures r == SharedMap.Find(AsGlobalMap(a), order, f)
  {
    var n := 0;
    while n < |order|
      invariant 0 <= n <= |order|
      invariant forall i :: 0 <= i < n ==> !f(a.innerMap[order[i]])
      invariant SharedMap.Find(AsGlobalMap(a), order[n..], f) == SharedMap.Find(AsGlobalMap(a), order, f)
    {
      if f(a.innerMap[order[n]]) {
        return Some(order[n]);
      }
      assert order[n..][1..] == order[n + 1..];
      n := n + 1;
    }
    return None;
  }

  /** Both stores behave alike: every operation of `ArcMap` is the
      corresponding `GlobalMap` operation on the same state. */
  lemma AgreesWithGlobalMap<T>(a: ArcMap<T>, w: SharedMap.WithId<T>, t: T, id: U32)
    ensures AsGlobalMap(Add(a, w, t).0) == SharedMap.Add(AsGlobalMap(a), w, t).0
    ensures Add(a, w, t).1 == SharedMap.Add(AsGlobalMap(a), w, t).1
    ensures AsGlobalMap(RemoveId(a, id)) == SharedMap.RemoveId(AsGlobalMap(a), id)
    ensures Get(a, id) == SharedMap.Get(AsGlobalMap(a), id)
    ensures IsValidId(a, id) == SharedMap.ContainsId(AsGlobalMap(a), id)
  {
  }

  /** The first id a default map hands out is 0, and the next one is 1. */
  lemma FirstIdsFromDefault<T>(w: SharedMap.WithId<T>, t1: T, t2: T)
    ensures Add(Default<T>(), w, t1).1 == 0
    ensures Add(Add(Default<T>(), w, t1).0, w, t2).1 == 1
  {
  }
}
