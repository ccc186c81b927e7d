/** Rooms and their two projections (backend/src/model/room.rs).

    Members are user handles, modelled as user ids, in joining order; the
    owner is the first. The change-notification channel of a room is
    modelled as the log `published` of every detail snapshot sent to it
    (the debounced delivery is not modelled). The user data a snapshot
    reads through the member handles comes from a user table. */
module RoomModel {
  import opened Base
  import opened Configs
  import opened UserModel
  import SharedMap

  datatype RoomStatus = Waiting | InGame

  /** `RoomStatus::default`. */
  function DefaultStatus(): (s: RoomStatus)
    ensures s == Waiting
  {
    Waiting
  }

  datatype UserInRoomInfo = UserInRoomInfo(prepared: bool, nickName: string)

  datatype RoomDetailedInfo = RoomDetailedInfo(
    id: U32,
    status: RoomStatus,
    userInRoomInfos: seq<UserInRoomInfo>,
    config: GameConfigurations)

  datatype RoomSimpleInfo = RoomSimpleInfo(
    id: U32,
    status: RoomStatus,
    curUserCount: nat,
    maxUserCount: nat)

  /** The running game (`cur_game`) is a stub in the source and is left out. */
  datatype Room = Room(
    id: U32,
    users: seq<U32>,
    gameConfigs: GameConfigurations,
    status: RoomStatus,
    published: seq<RoomDetailedInfo>)

  /** `Room::default`. */
  function DefaultRoom(): (r: Room)
    ensures r.id == 0 && r.users == [] && r.published == []
    ensures r.status == Waiting
    ensures r.gameConfigs == DefaultGameConfigurations()
  {
    Room(0, [], DefaultGameConfigurations(), DefaultStatus(), [])
  }

  /** The derived `WithId for Room`. */
  const RoomIds: SharedMap.WithId<Room> :=
    SharedMap.WithId((r: Room, i: U32) => r.(id := i), (r: Room) => r.id)

  lemma RoomIdsLawful()
    ensures SharedMap.Lawful(RoomIds)
    ensures forall r: Room, i: U32 :: RoomIds.setId(r, i) == r.(id := i)
  {
  }

  /** `owner`: the first member; indexing an empty member list panics. */
  function Owner(r: Room): (u: U32)
    requires |r.users| > 0
    ensures u in r.users && u == r.users[0]
  {
    r.users[0]
  }

  /** Every member handle resolves in the user table. */
  ghost predicate MembersKnown(users: seq<U32>, table: map<U32, User>) {
    forall i :: 0 <= i < |users| ==> users[i] in table
  }

  /** `From<&User> for UserInRoomInfo`. */
  function UserInRoomInfoOf(u: User): (info: UserInRoomInfo)
    ensures info.prepared == u.prepared && info.nickName == u.nickName
  {
    UserInRoomInfo(u.prepared, u.nickName)
  }

  /** The member part of `From<&Room> for RoomDetailedInfo`: one info per
      member, in member order. */
  function MemberInfos(users: seq<U32>, table: map<U32, User>): (infos: seq<UserInRoomInfo>)
    requires MembersKnown(users, table)
    ensures |infos| == |users|
    ensures forall i :: 0 <= i < |users| ==> infos[i] == UserInRoomInfoOf(table[users[i]])
  {
    if |users| == 0 then []
    else [UserInRoomInfoOf(table[users[0]])] + MemberInfos(users[1..], table)
  }

  /** `From<&Room> for RoomDetailedInfo`. */
  function DetailedInfo(r: Room, table: map<U32, User>): (d: RoomDetailedInfo)
    requires MembersKnown(r.users, table)
    ensures d.id == r.id && d.status == r.status && d.config == r.gameConfigs
    ensures |d.userInRoomInfos| == |r.users|
    ensures forall i :: 0 <= i < |r.users| ==>
      d.userInRoomInfos[i].prepared == table[r.users[i]].prepared
      && d.userInRoomInfos[i].nickName == table[r.users[i]].nickName
  {
    RoomDetailedInfo(r.id, r.status, MemberInfos(r.users, table), r.gameConfigs)
  }

  /** `From<&Room> for RoomSimpleInfo`. */
  function SimpleInfo(r: Room): (s: RoomSimpleInfo)
    ensures s.id == r.id && s.status == r.status
    ensures s.curUserCount == |r.users|
    ensures s.maxUserCount == r.gameConfigs.basicConfigs.maxPlayerCount
  {
    RoomSimpleInfo(r.id, r.status, |r.users|, r.gameConfigs.basicConfigs.maxPlayerCount)
  }

  /** `notify_detail_changed`: sends the current detail snapshot. */
  function NotifyDetailChanged(r: Room, table: map<U32, User>): (r': Room)
    requires MembersKnown(r.users, table)
    ensures r'.published == r.published + [DetailedInfo(r, table)]
    ensures r' == r.(published := r'.published)
  {
    r.(published := r.published + [DetailedInfo(r, table)])
  }

  /** `update_users`: applies `f` to the member list, then publishes one
      snapshot of the new state; nothing else changes. */
  function UpdateUsers(r: Room, f: seq<U32> -> seq<U32>, table: map<U32, User>): (r': Room)
    requires MembersKnown(f(r.users), table)
    ensures r'.users == f(r.users)
    ensures r'.id == r.id && r'.gameConfigs == r.gameConfigs && r'.status == r.status
    ensures |r'.published| == |r.published| + 1 && r'.published[..|r.published|] == r.published
    ensures r'.published[|r.published|] == DetailedInfo(r', table)
  {
    NotifyDetailChanged(r.(users := f(r.users)), table)
  }

  /** `update_game_configs`: replaces the configuration wholesale, then
      publishes one snapshot of the new state; nothing else changes. */
  function UpdateGameConfigs(r: Room, configs: GameConfigurations, table: map<U32, User>): (r': Room)
    requires MembersKnown(r.users, table)
    ensures r'.gameConfigs == configs
    ensures r'.id == r.id && r'.users == r.users && r'.status == r.status
    ensures |r'.published| == |r.published| + 1 && r'.published[..|r.published|] == r.published
    ensures r'.published[|r.published|] == DetailedInfo(r', table)
  {
    NotifyDetailChanged(r.(gameConfigs := configs), table)
  }

  /** The latest snapshot after a configuration update carries the new
      configuration and one entry per member; the simple info shows the new
      capacity. */
  lemma UpdatedConfigIsObservable(r: Room, configs: GameConfigurations, table: map<U32, User>)
    requires MembersKnown(r.users, table)
    ensures var r' := UpdateGameConfigs(r, configs, table);
      && r'.published[|r'.published| - 1].config == configs
      && |r'.published[|r'.published| - 1].userInRoomInfos| == |r.users|
      && SimpleInfo(r').maxUserCount == configs.basicConfigs.maxPlayerCount
      && SimpleInfo(r').curUserCount == SimpleInfo(r).curUserCount
  {
  }
}
