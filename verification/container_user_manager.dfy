/** The user operations on the older `ArcMap<User>` store
    (backend/src/container/user_manager.rs). The random nick name and uuid
    are parameters. */
module ContainerUserManager {
  import opened Base
  import opened UserModel
  import SharedMap
  import ArcMap

  /** `add_user`: a default user whose nick name and uuid are overwritten
      with the generated ones, then `add`ed. */
  function AddUser(m: ArcMap.ArcMap<User>, nickName: string, uuid: string): (r: (ArcMap.ArcMap<User>, U32))
    ensures r.1 == m.curId
    ensures ArcMap.Get(r.0, r.1) == Some(User(r.1, nickName, uuid, 0, false, None))
    ensures forall k :: k != r.1 ==> ArcMap.Get(r.0, k) == ArcMap.Get(m, k)
  {
    var user := DefaultUser(nickName, uuid);
    ArcMap.Add(m, UserIds, user)
  }

  /** Before the counter wraps, `add_user` stores the user under an id that
      was not yet a key, and the store stays well formed. */
  lemma AddUserFresh(m: ArcMap.ArcMap<User>, nickName: string, uuid: string)
    requires SharedMap.Wf(ArcMap.AsGlobalMap(m), UserIds)
    requires m.curId + 1 < U32_LIMIT
    ensures AddUser(m, nickName, uuid).1 !in m.innerMap
    ensures SharedMap.Wf(ArcMap.AsGlobalMap(AddUser(m, nickName, uuid).0), UserIds)
  {
    UserModel.UserIdsLawful();
    ArcMap.AgreesWithGlobalMap(m, UserIds, DefaultUser(nickName, uuid), 0);
    SharedMap.AddPreservesWf(ArcMap.AsGlobalMap(m), UserIds, DefaultUser(nickName, uuid));
  }

  /** `find_user_by_uuid`: `find` with "uuid equals". Over the store's
      iteration order it returns only a user with that uuid, and `None`
      exactly when no stored user has it. */
  method FindUserByUuid(m: ArcMap.ArcMap<User>, order: seq<U32>, uuid: string) returns (r: Option<U32>)
    requires SharedMap.IterationOrder(order, m.innerMap.Keys)
    ensures r.Some? ==> r.value in m.innerMap && m.innerMap[r.value].uuid == uuid
    ensures r.None? <==> forall k :: k in m.innerMap ==> m.innerMap[k].uuid != uuid
  {
    var f := (u: User) => u.uuid == uuid;
    SharedMap.FindNoneIffNoMatch(ArcMap.AsGlobalMap(m), order, f);
    r := ArcMap.Find(m, order, f);
  }
}
