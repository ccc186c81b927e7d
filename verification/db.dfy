/** `InMemoryStorage<T>` (backend/src/db/mod.rs): a string-keyed map behind a
    mutex. The mutex never fails here, so the storage is just its map. */
module Db {
  import opened Base

  datatype InMemoryStorage<T> = InMemoryStorage(data: map<string, T>)

  /** `InMemoryStorage::default`: nothing stored. */
  function Default<T>(): (s: InMemoryStorage<T>)
    ensures forall id: string :: id !in s.data
  {
    InMemoryStorage(map[])
  }

  /** `get`: a copy of the stored value, if any. */
  function Get<T>(s: InMemoryStorage<T>, id: string): (r: Option<T>)
    ensures r.Some? <==> id in s.data
    ensures r.Some? ==> r.value == s.data[id]
  {
    if id in s.data then Some(s.data[id]) else None
  }

  /** `add`: inserts, overwriting any value already under `id`. */
  function Add<T>(s: InMemoryStorage<T>, id: string, value: T): (r: InMemoryStorage<T>)
    ensures Get(r, id) == Some(value)
    ensures forall k :: k != id ==> Get(r, k) == Get(s, k)
  {
    InMemoryStorage(s.data[id := value])
  }

  /** `remove`: deletes `id`; an absent key is a no-op. */
  function Remove<T>(s: InMemoryStorage<T>, id: string): (r: InMemoryStorage<T>)
    ensures Get(r, id) == None
    ensures forall k :: k != id ==> Get(r, k) == Get(s, k)
    ensures id !in s.data ==> r == s
  {
    InMemoryStorage(s.data - {id})
  }

  /** A second `add` on the same key wins: the first value is gone. */
  lemma AddOverwrites<T>(s: InMemoryStorage<T>, id: string, v1: T, v2: T)
    ensures Add(Add(s, id, v1), id, v2) == Add(s, id, v2)
  {
  }

  /** `remove` undoes an `add` of a key that was absent. */
  lemma RemoveUndoesAdd<T>(s: InMemoryStorage<T>, id: string, v: T)
    requires Get(s, id) == None
    ensures Remove(Add(s, id, v), id) == s
  {
    assert Remove(Add(s, id, v), id).data == s.data;
  }

  /** `add` of the value already stored changes nothing. */
  lemma AddStoredValueIsNoop<T>(s: InMemoryStorage<T>, id: string)
    requires id in s.data
    ensures Add(s, id, s.data[id]) == s
  {
    assert Add(s, id, s.data[id]).data == s.data;
  }
}
