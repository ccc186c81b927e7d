/** The `User` record (backend/src/model/user.rs) and its `WithId`
    implementation, which the `ID` derive macro writes as "store the id in
    the `id` field, read it back from there". */
module UserModel {
  import opened Base
  import opened Configs
  import SharedMap

  datatype User = User(
    id: U32,
    nickName: string,
    uuid: string,
    loginTimestamp: nat,
    prepared: bool,
    preferredGameConfig: Option<GameConfigurations>)

  /** `User::default`, with the random nick name and uuid supplied by the caller. */
  function DefaultUser(nickName: string, uuid: string): (u: User)
    ensures u.id == 0 && u.loginTimestamp == 0 && !u.prepared && u.preferredGameConfig == None
    ensures u.nickName == nickName && u.uuid == uuid
  {
    User(0, nickName, uuid, 0, false, None)
  }

  /** The derived `WithId for User`. */
  const UserIds: SharedMap.WithId<User> :=
    SharedMap.WithId((u: User, i: U32) => u.(id := i), (u: User) => u.id)

  /** The derived implementation reads back the id it writes and touches no other field. */
  lemma UserIdsLawful()
    ensures SharedMap.Lawful(UserIds)
    ensures forall u: User, i: U32 :: UserIds.setId(u, i) == u.(id := i)
  {
  }
}
