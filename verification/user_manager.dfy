/** The global `UserManager` (backend/src/global/user_manager.rs): a
    `GlobalMap<User>` indexed by id, plus a second index from uuid (the
    reconnect token) to the user's handle, modelled as the user's id. */
module UserManager {
  import opened Base
  import opened UserModel
  import SharedMap

  datatype Manager = Manager(idMap: SharedMap.GlobalMap<User>, uuidMap: map<string, U32>)

  /** The initial manager: empty id map with counter 0, empty uuid index. */
  function Default(): (m: Manager)
    ensures m.idMap.curId == 0
    ensures forall k: U32 :: k !in m.idMap.entries
    ensures forall s: string :: s !in m.uuidMap
  {
    Manager(SharedMap.Default(), map[])
  }

  /** `get`: the stored user, if any. */
  function Get(m: Manager, id: U32): (r: Option<User>)
    ensures r.Some? <==> id in m.idMap.entries
    ensures r.Some? ==> r.value == m.idMap.entries[id]
  {
    SharedMap.Get(m.idMap, id)
  }

  /** `contains_id`. */
  function ContainsId(m: Manager, id: U32): (b: bool)
    ensures b <==> id in m.idMap.entries
  {
    SharedMap.ContainsId(m.idMap, id)
  }

  /** `find_user_by_uuid`: a lookup in the uuid index only. */
  function FindUserByUuid(m: Manager, uuid: string): (r: Option<U32>)
    ensures r.Some? <==> uuid in m.uuidMap
    ensures r.Some? ==> r.value == m.uuidMap[uuid]
  {
    if uuid in m.uuidMap then Some(m.uuidMap[uuid]) else None
  }

  /** `add`: stores the user in the id map, then indexes the stored user
      under its uuid. */
  function Add(m: Manager, t: User): (r: (Manager, U32))
    ensures r.1 == m.idMap.curId
    ensures r.0.idMap == SharedMap.Add(m.idMap, UserIds, t).0
    ensures Get(r.0, r.1) == Some(t.(id := r.1))
    ensures FindUserByUuid(r.0, t.uuid) == Some(r.1)
    ensures forall s :: s != t.uuid ==> FindUserByUuid(r.0, s) == FindUserByUuid(m, s)
  {
    var (idMap', id) := SharedMap.Add(m.idMap, UserIds, t);
    (Manager(idMap', m.uuidMap[idMap'.entries[id].uuid := id]), id)
  }

  /** `add_default`: stores a default user in the id map only; the uuid
      index is left as it was, unlike `add`. */
  function AddDefault(m: Manager, default: User): (r: (Manager, U32))
    ensures r.1 == m.idMap.curId
    ensures r.0.idMap == SharedMap.AddDefault(m.idMap, UserIds, default).0
    ensures Get(r.0, r.1) == Some(default.(id := r.1))
    ensures r.0.uuidMap == m.uuidMap
  {
    var (idMap', id) := SharedMap.AddDefault(m.idMap, UserIds, default);
    (Manager(idMap', m.uuidMap), id)
  }

  /** `remove_id`: a missing id changes nothing; otherwise the user's uuid
      entry and its id entry both go. */
  function RemoveId(m: Manager, id: U32): (r: Manager)
    ensures id !in m.idMap.entries ==> r == m
    ensures id in m.idMap.entries ==>
      && r.idMap == SharedMap.RemoveId(m.idMap, id)
      && r.uuidMap == m.uuidMap - {m.idMap.entries[id].uuid}
  {
    match Get(m, id)
    case None => m
    case Some(cur) => Manager(SharedMap.RemoveId(m.idMap, id), m.uuidMap - {cur.uuid})
  }

  /** `remove(t)`: `remove_id` of the id read out of the user. */
  function Remove(m: Manager, t: User): (r: Manager)
    ensures r == RemoveId(m, t.id)
  {
    RemoveId(m, UserIds.id(t))
  }

  /** Well-formed manager: the id map is well formed, and every uuid entry
      points at a stored user carrying that uuid. */
  ghost predicate Wf(m: Manager) {
    && SharedMap.Wf(m.idMap, UserIds)
    && forall s :: s in m.uuidMap ==> m.uuidMap[s] in m.idMap.entries && m.idMap.entries[m.uuidMap[s]].uuid == s
  }

  lemma DefaultWf()
    ensures Wf(Default())
  {
  }

  /** `add`, `add_default` and `remove_id` keep the manager well formed
      (`add`s only while the counter has not wrapped). */
  lemma OperationsPreserveWf(m: Manager, t: User, id: U32)
    requires Wf(m)
    requires m.idMap.curId + 1 < U32_LIMIT
    ensures Wf(Add(m, t).0)
    ensures Wf(AddDefault(m, t).0)
    ensures Wf(RemoveId(m, id))
  {
    UserModel.UserIdsLawful();
    SharedMap.AddPreservesWf(m.idMap, UserIds, t);
    SharedMap.RemoveIdPreservesWf(m.idMap, UserIds, id);
  }

  /** A user stored by `add_default` cannot be found by its uuid unless
      another user already carried that uuid: connections that create their
      user this way cannot later reconnect with the token. */
  lemma AddDefaultUserNotFoundByUuid(m: Manager, default: User)
    requires Wf(m)
    requires forall k :: k in m.idMap.entries ==> m.idMap.entries[k].uuid != default.uuid
    ensures FindUserByUuid(AddDefault(m, default).0, default.uuid) == None
  {
  }

  /** `remove_id` of the id just handed out by `add` restores both indexes,
      when the uuid was not yet indexed. */
  lemma RemoveUndoesAdd(m: Manager, t: User)
    requires Wf(m)
    requires m.idMap.curId + 1 < U32_LIMIT
    requires t.uuid !in m.uuidMap
    ensures RemoveId(Add(m, t).0, Add(m, t).1).idMap.entries == m.idMap.entries
    ensures RemoveId(Add(m, t).0, Add(m, t).1).uuidMap == m.uuidMap
  {
    SharedMap.AddThenRemoveId(m.idMap, UserIds, t);
  }

  /** `get` and `contains_id` reflect id-map membership alike. */
  lemma GetIffContains(m: Manager, id: U32)
    ensures Get(m, id).Some? <==> ContainsId(m, id)
  {
  }
}
