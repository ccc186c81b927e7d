/** The id-keyed in-memory store `GlobalMap<T>` (backend/src/data_structure/shared_map.rs).

    A store is a map from id to entity plus the counter that hands out ids.
    The shared, lock-guarded handle that the source returns is modelled by
    the id it is stored under; lock acquisition never fails and is left out. */
module SharedMap {
  import opened Base

  /** The `WithId` trait: how the store writes an id into an entity and reads it back. */
  datatype WithId<!T> = WithId(setId: (T, U32) -> T, id: T -> U32)

  /** An implementation of `WithId` reads back the id that was last written. */
  ghost predicate Lawful<T(!new)>(w: WithId<T>) {
    forall t: T, i: U32 :: w.id(w.setId(t, i)) == i
  }

  /** `Box<T>`, which the source gives a `WithId` implementation of its own. */
  datatype Box<T> = Box(inner: T)

  /** `WithId for Box<T>`: both operations go to the boxed value. */
  function BoxWithId<T(!new)>(w: WithId<T>): (b: WithId<Box<T>>)
    ensures forall t: T :: b.id(Box(t)) == w.id(t)
    ensures forall t: T, i: U32 :: b.setId(Box(t), i).inner == w.setId(t, i)
  {
    WithId((bx: Box<T>, i: U32) => Box(w.setId(bx.inner, i)), (bx: Box<T>) => w.id(bx.inner))
  }

  /** Delegation keeps the id law. */
  lemma BoxLawful<T(!new)>(w: WithId<T>)
    requires Lawful(w)
    ensures Lawful(BoxWithId(w))
  {
    forall bx: Box<T>, i: U32
      ensures BoxWithId(w).id(BoxWithId(w).setId(bx, i)) == i
    {
      assert BoxWithId(w).setId(bx, i) == Box(w.setId(bx.inner, i));
    }
  }

  /** `GlobalMap<T>`: the next id to hand out and the stored entities by id. */
  datatype GlobalMap<T> = GlobalMap(curId: U32, entries: map<U32, T>)

  /** `GlobalMap::default`: counter at 0, nothing stored. */
  function Default<T>(): (m: GlobalMap<T>)
    ensures m.curId == 0
    ensures forall k: U32 :: k !in m.entries
  {
    GlobalMap(0, map[])
  }

  /** The counter after `fetch_add(1)` on an `AtomicU32`, which wraps around. */
  function NextId(id: U32): (n: U32)
    ensures id + 1 < U32_LIMIT ==> n == id + 1
    ensures id + 1 == U32_LIMIT ==> n == 0
  {
    (id + 1) % U32_LIMIT
  }

  /** `add`: the entity gets the current counter value as its id, is stored
      under that id, and the counter moves on. Returns the new store and the id. */
  function Add<T>(m: GlobalMap<T>, w: WithId<T>, t: T): (r: (GlobalMap<T>, U32))
    ensures r.1 == m.curId
    ensures r.0.curId == NextId(m.curId)
    ensures r.1 in r.0.entries && r.0.entries[r.1] == w.setId(t, r.1)
    ensures forall k :: k != r.1 ==> (k in r.0.entries <==> k in m.entries)
    ensures forall k :: k != r.1 && k in m.entries ==> r.0.entries[k] == m.entries[k]
  {
    var id := m.curId;
    (GlobalMap(NextId(id), m.entries[id := w.setId(t, id)]), id)
  }

  /** `add_default`: `add` of the type's default value (passed in, since the
      default of `User` draws random values). */
  function AddDefault<T>(m: GlobalMap<T>, w: WithId<T>, default: T): (r: (GlobalMap<T>, U32))
    ensures r == Add(m, w, default)
  {
    Add(m, w, default)
  }

  /** `remove_id`: only that key goes; the counter never moves back. */
  function RemoveId<T>(m: GlobalMap<T>, id: U32): (r: GlobalMap<T>)
    ensures id !in r.entries
    ensures r.curId == m.curId
    ensures forall k :: k != id ==> (k in r.entries <==> k in m.entries)
    ensures forall k :: k != id && k in m.entries ==> r.entries[k] == m.entries[k]
    ensures id !in m.entries ==> r == m
  {
    GlobalMap(m.curId, m.entries - {id})
  }

  /** `remove(t)`: reads the id out of the entity, then removes that id. */
  function Remove<T>(m: GlobalMap<T>, w: WithId<T>, t: T): (r: GlobalMap<T>)
    ensures r == RemoveId(m, w.id(t))
  {
    RemoveId(m, w.id(t))
  }

  /** `get`: the stored entity, if any. */
  function Get<T>(m: GlobalMap<T>, id: U32): (r: Option<T>)
    ensures r.Some? <==> id in m.entries
    ensures r.Some? ==> r.value == m.entries[id]
  {
    if id in m.entries then Some(m.entries[id]) else None
  }

  /** `contains_id`. */
  function ContainsId<T>(m: GlobalMap<T>, id: U32): (b: bool)
    ensures b <==> id in m.entries
  {
    id in m.entries
  }

  /** A `HashMap` iteration order: every key exactly once, in some order. */
  ghost predicate IterationOrder(order: seq<U32>, keys: set<U32>) {
    && (forall i, j :: 0 <= i < j < |order| ==> order[i] != order[j])
    && (forall k :: k in keys <==> k in order)
  }

  /** `find`: walks the map in its iteration order `order` and returns the
      id of the first entity satisfying `f`. */
  function Find<T>(m: GlobalMap<T>, order: seq<U32>, f: T -> bool): (r: Option<U32>)
    requires forall i :: 0 <= i < |order| ==> order[i] in m.entries
    ensures r.Some? ==> r.value in order && r.value in m.entries && f(m.entries[r.value])
    ensures r.None? <==> forall i :: 0 <= i < |order| ==> !f(m.entries[order[i]])
    decreases |order|
  {
    if |order| == 0 then None
    else if f(m.entries[order[0]]) then Some(order[0])
    else Find(m, order[1..], f)
  }

  /** Well-formed store: every key is below the counter, and every entity
      carries the id it is stored under. */
  ghost predicate Wf<T>(m: GlobalMap<T>, w: WithId<T>) {
    forall k :: k in m.entries ==> k < m.curId && w.id(m.entries[k]) == k
  }

  lemma DefaultWf<T>(w: WithId<T>)
    ensures Wf(Default<T>(), w)
  {
  }

  /** Before the counter wraps, `add` hands out an id that is not yet a key,
      and the stored entity's id equals its key. */
  lemma AddPreservesWf<T(!new)>(m: GlobalMap<T>, w: WithId<T>, t: T)
    requires Lawful(w) && Wf(m, w)
    requires m.curId + 1 < U32_LIMIT
    ensures Add(m, w, t).1 !in m.entries
    ensures Wf(Add(m, w, t).0, w)
    ensures w.id(Add(m, w, t).0.entries[Add(m, w, t).1]) == Add(m, w, t).1
  {
    var (m', id) := Add(m, w, t);
    forall k | k in m'.entries
      ensures k < m'.curId && w.id(m'.entries[k]) == k
    {
      if k == id {
        assert m'.entries[k] == w.setId(t, id);
      }
    }
  }

  /** Successive `add`s hand out strictly increasing ids until the counter wraps. */
  lemma SuccessiveAddsIncrease<T>(m: GlobalMap<T>, w: WithId<T>, t1: T, t2: T)
    requires m.curId + 1 < U32_LIMIT
    ensures Add(Add(m, w, t1).0, w, t2).1 > Add(m, w, t1).1
  {
  }

  lemma RemoveIdPreservesWf<T>(m: GlobalMap<T>, w: WithId<T>, id: U32)
    requires Wf(m, w)
    ensures Wf(RemoveId(m, id), w)
  {
  }

  /** Removing the id just handed out gives back the entries from before the `add`. */
  lemma AddThenRemoveId<T>(m: GlobalMap<T>, w: WithId<T>, t: T)
    requires Wf(m, w)
    requires m.curId + 1 < U32_LIMIT
    ensures RemoveId(Add(m, w, t).0, Add(m, w, t).1).entries == m.entries
  {
    var (m', id) := Add(m, w, t);
    assert id !in m.entries;
    assert RemoveId(m', id).entries == m.entries;
  }

  /** In a well-formed store, `remove(t)` of a stored entity removes exactly its own key. */
  lemma RemoveStoredEntity<T>(m: GlobalMap<T>, w: WithId<T>, id: U32)
    requires Wf(m, w) && id in m.entries
    ensures Remove(m, w, m.entries[id]) == RemoveId(m, id)
  {
  }

  /** `get` and `contains_id` agree. */
  lemma GetIffContains<T>(m: GlobalMap<T>, id: U32)
    ensures Get(m, id).Some? <==> ContainsId(m, id)
  {
  }

  /** `find` returns the FIRST entity in iteration order satisfying `f`. */
  lemma {:induction false} FindIsFirst<T>(m: GlobalMap<T>, order: seq<U32>, f: T -> bool)
    requires forall i :: 0 <= i < |order| ==> order[i] in m.entries
    requires Find(m, order, f).Some?
    ensures exists j :: 0 <= j < |order| && order[j] == Find(m, order, f).value
                        && forall i :: 0 <= i < j ==> !f(m.entries[order[i]])
    decreases |order|
  {
    if f(m.entries[order[0]]) {
      assert order[0] == Find(m, order, f).value;
    } else {
      FindIsFirst(m, order[1..], f);
      var j :| 0 <= j < |order[1..]| && order[1..][j] == Find(m, order[1..], f).value
               && forall i :: 0 <= i < j ==> !f(m.entries[order[1..][i]]);
      assert order[j + 1] == Find(m, order, f).value;
      forall i | 0 <= i < j + 1
        ensures !f(m.entries[order[i]])
      {
        if i > 0 {
          assert order[i] == order[1..][i - 1];
        }
      }
    }
  }

  /** Over a real iteration order, `find` is `None` exactly when no stored entity satisfies `f`. */
  lemma FindNoneIffNoMatch<T>(m: GlobalMap<T>, order: seq<U32>, f: T -> bool)
    requires IterationOrder(order, m.entries.Keys)
    ensures forall i :: 0 <= i < |order| ==> order[i] in m.entries
    ensures Find(m, order, f).None? <==> forall k :: k in m.entries ==> !f(m.entries[k])
  {
    assert forall i :: 0 <= i < |order| ==> order[i] in m.entries;
    if Find(m, order, f).None? {
      forall k | k in m.entries
        ensures !f(m.entries[k])
      {
        var i :| 0 <= i < |order| && order[i] == k;
      }
    }
  }
}
