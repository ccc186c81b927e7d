/** The room request and stream handlers (backend/src/global/handlers/room_handlers.rs).

    Each handler receives the caller's user id. A room handle in the index
    is the room's store key: the store writes a room's id once, when it
    adds the room, and a well-formed store keeps every room under its id,
    so reading `.id` through the handle gives that key. */
module RoomHandlers {
  import opened Base
  import opened Configs
  import opened RoomModel
  import SharedMap
  import UserManager
  import RoomManager

  /** `ListRoomSimpleInfoHandler`: the simple info of every stored room, in
      the store's iteration order. It never fails. */
  function ListRoomSimpleInfo(s: RoomManager.State, order: seq<U32>): (r: seq<RoomSimpleInfo>)
    requires SharedMap.IterationOrder(order, s.rooms.entries.Keys)
    ensures |r| == |order| == |s.rooms.entries.Keys|
    ensures forall i :: 0 <= i < |r| ==> order[i] in s.rooms.entries && r[i] == SimpleInfo(s.rooms.entries[order[i]])
  {
    var rooms := RoomManager.All(s, order);
    OrderCoversKeys(order, s.rooms.entries.Keys);
    seq(|rooms|, i requires 0 <= i < |rooms| => SimpleInfo(rooms[i]))
  }

  /** An iteration order is as long as the key set it enumerates. */
  lemma {:induction false} OrderCoversKeys(order: seq<U32>, keys: set<U32>)
    requires SharedMap.IterationOrder(order, keys)
    ensures |order| == |keys|
    decreases |order|
  {
    if |order| > 0 {
      var k := order[|order| - 1];
      var rest := order[..|order| - 1];
      assert k in keys;
      forall x
        ensures x in keys - {k} <==> x in rest
      {
        if x in rest {
          var i :| 0 <= i < |rest| && rest[i] == x;
          assert order[i] == x && i < |order| - 1;
        }
        if x in keys - {k} {
          var i :| 0 <= i < |order| && order[i] == x;
          assert i != |order| - 1;
          assert rest[i] == x;
        }
      }
      OrderCoversKeys(rest, keys - {k});
    } else {
      assert forall x :: x !in keys;
      assert keys == {};
    }
  }

  /** In a well-formed store, every stored room is listed exactly once,
      under its own id, with its current and maximum member counts. */
  lemma ListNamesEveryRoomOnce(s: RoomManager.State, order: seq<U32>, rid: U32)
    requires SharedMap.IterationOrder(order, s.rooms.entries.Keys)
    requires SharedMap.Wf(s.rooms, RoomIds)
    requires rid in s.rooms.entries
    ensures var r := ListRoomSimpleInfo(s, order);
      exists i :: 0 <= i < |r| && r[i].id == rid
        && r[i].curUserCount == |s.rooms.entries[rid].users|
        && r[i].maxUserCount == s.rooms.entries[rid].gameConfigs.basicConfigs.maxPlayerCount
    ensures var r := ListRoomSimpleInfo(s, order);
      forall i, j :: 0 <= i < j < |r| ==> r[i].id != r[j].id
  {
    var r := ListRoomSimpleInfo(s, order);
    var i :| 0 <= i < |order| && order[i] == rid;
    assert r[i].id == rid;
  }

  /** `CreateRoomHandler`: creates a room owned by the caller and drops the
      room handle. */
  function CreateRoom(s: RoomManager.State, um: UserManager.Manager, uid: U32): (r: (RoomManager.State, Result<Unit>))
    ensures r.0 == RoomManager.CreateRoomByUserId(s, um, uid).0
    ensures r.1.Ok? <==> uid !in s.userRoom && UserManager.ContainsId(um, uid)
    ensures r.1.Err? ==> r.1.error == RoomManager.CreateRoomByUserId(s, um, uid).1.error
    ensures r.1.Ok? ==> r.0.userRoom[uid] == s.rooms.curId && Owner(r.0.rooms.entries[s.rooms.curId]) == uid
  {
    var (s', res) := RoomManager.CreateRoomByUserId(s, um, uid);
    match res
    case Ok(_) => (s', Ok(Unit))
    case Err(e) => (s', Err(e))
  }

  /** `LeaveRoomHandler`: fails with "user not in room" when the caller is
      not indexed; otherwise leaves the room the index names. */
  function LeaveRoom(s: RoomManager.State, uid: U32): (r: (RoomManager.State, Result<Unit>))
    ensures uid !in s.userRoom ==> r == (s, Err(UserNotInRoom))
    ensures uid in s.userRoom ==> r == RoomManager.RemoveUserFromRoom(s, uid, s.userRoom[uid])
  {
    match RoomManager.FindRoomByUserId(s, uid)
    case None => (s, Err(UserNotInRoom))
    case Some(handle) => RoomManager.RemoveUserFromRoom(s, uid, handle)
  }

  /** `EnterRoomHandler`: joins the requested room. */
  function EnterRoom(s: RoomManager.State, um: UserManager.Manager, uid: U32, rid: U32): (r: (RoomManager.State, Result<Unit>))
    ensures r == RoomManager.AddUserToRoom(s, um, uid, rid)
  {
    RoomManager.AddUserToRoom(s, um, uid, rid)
  }

  /** What `ChangeGameConfigHandler` needs not to panic: the caller's room,
      if any, is stored, has an owner to read, and lists known users. */
  ghost predicate ConfigChangeDefined(s: RoomManager.State, um: UserManager.Manager, uid: U32) {
    uid in s.userRoom ==>
      && s.userRoom[uid] in s.rooms.entries
      && |s.rooms.entries[s.userRoom[uid]].users| > 0
      && MembersKnown(s.rooms.entries[s.userRoom[uid]].users, um.idMap.entries)
  }

  /** `ChangeGameConfigHandler`: the caller must be in a room and be its
      owner; then the room's configuration is replaced. */
  function ChangeGameConfig(s: RoomManager.State, um: UserManager.Manager, uid: U32, configs: GameConfigurations): (r: (RoomManager.State, Result<Unit>))
    requires ConfigChangeDefined(s, um, uid)
    ensures uid !in s.userRoom ==> r == (s, Err(UserNotInRoom))
    ensures uid in s.userRoom && Owner(s.rooms.entries[s.userRoom[uid]]) != uid ==> r == (s, Err(NotOwner))
    ensures r.1.Ok? <==> uid in s.userRoom && Owner(s.rooms.entries[s.userRoom[uid]]) == uid
    ensures r.1.Ok? ==> s.userRoom[uid] in r.0.rooms.entries && r.0.rooms.entries[s.userRoom[uid]].gameConfigs == configs
    ensures r.1.Ok? ==>
      && r.0.userRoom == s.userRoom
      && r.0.rooms.curId == s.rooms.curId
      && r.0.rooms.entries == s.rooms.entries[s.userRoom[uid] := UpdateGameConfigs(s.rooms.entries[s.userRoom[uid]], configs, um.idMap.entries)]
  {
    match RoomManager.FindRoomByUserId(s, uid)
    case None => (s, Err(UserNotInRoom))
    case Some(handle) =>
      var room := s.rooms.entries[handle];
      if Owner(room) != uid then (s, Err(NotOwner))
      else RoomManager.UpdateGameConfigsOfRoom(s, um, handle, configs)
  }

  /** `RoomDetailedInfoStreamHandler`: fails with "user not in room" when the
      caller is not indexed. Otherwise it subscribes to the room's
      notification channel; what the subscriber receives at once is the
      latest snapshot sent, if any (later snapshots follow as they are sent). */
  function RoomDetailedInfoStream(s: RoomManager.State, uid: U32): (r: Result<seq<RoomDetailedInfo>>)
    requires uid in s.userRoom ==> s.userRoom[uid] in s.rooms.entries
    ensures r.Err? <==> uid !in s.userRoom
    ensures r.Err? ==> r.error == UserNotInRoom
    ensures r.Ok? ==> |r.value| <= 1
    ensures r.Ok? ==> (r.value == [] <==> s.rooms.entries[s.userRoom[uid]].published == [])
    ensures r.Ok? && r.value != [] ==> r.value[0] == s.rooms.entries[s.userRoom[uid]].published[|s.rooms.entries[s.userRoom[uid]].published| - 1]
  {
    match RoomManager.FindRoomByUserId(s, uid)
    case None => Err(UserNotInRoom)
    case Some(handle) =>
      var published := s.rooms.entries[handle].published;
      if |published| == 0 then Ok([]) else Ok([published[|published| - 1]])
  }

  // ---------------------------------------------------------------------
  // Properties of the handlers

  /** Under the manager's invariant, the configuration handler never panics. */
  lemma InvDefinesConfigChange(s: RoomManager.State, um: UserManager.Manager, uid: U32)
    requires RoomManager.Inv(s, um)
    ensures ConfigChangeDefined(s, um, uid)
  {
  }

  /** Only the owner changes a room's configuration, and the change keeps
      the manager's invariant. */
  lemma ChangeGameConfigKeepsInv(s: RoomManager.State, um: UserManager.Manager, uid: U32, configs: GameConfigurations)
    requires RoomManager.Inv(s, um)
    ensures var (s', res) := ChangeGameConfig(s, um, uid, configs);
      && RoomManager.Inv(s', um)
      && (res.Ok? ==> uid == Owner(s.rooms.entries[s.userRoom[uid]]))
  {
    var (s', res) := ChangeGameConfig(s, um, uid, configs);
    if res.Ok? {
      RoomManager.UpdateConfigPreservesInv(s, um, s.userRoom[uid], configs);
    }
  }

  /** Leaving keeps the invariant and always succeeds for an indexed caller. */
  lemma LeaveRoomKeepsInv(s: RoomManager.State, um: UserManager.Manager, uid: U32)
    requires RoomManager.Inv(s, um)
    ensures var (s', res) := LeaveRoom(s, uid);
      && RoomManager.Inv(s', um)
      && (res.Ok? <==> uid in s.userRoom)
      && uid !in s'.userRoom
  {
    if uid in s.userRoom {
      RoomManager.LeaveIndexedRoomPreservesInv(s, um, uid);
    }
  }

  /** Entering a room and leaving it again restores the manager exactly:
      the join sent no snapshot, and the user was appended last. */
  lemma EnterThenLeave(s: RoomManager.State, um: UserManager.Manager, uid: U32, rid: U32)
    requires RoomManager.Inv(s, um)
    requires EnterRoom(s, um, uid, rid).1.Ok?
    ensures LeaveRoom(EnterRoom(s, um, uid, rid).0, uid) == (s, Ok(Unit))
  {
    var s1 := EnterRoom(s, um, uid, rid).0;
    var room := s.rooms.entries[rid];
    assert uid !in room.users;
    RoomManager.WithoutAppended(room.users, uid);
    var room1 := s1.rooms.entries[rid];
    assert room1 == room.(users := room.users + [uid]);
    assert RoomManager.Without(room1.users, uid) == room.users;
    assert |room.users| > 0;
    var s2 := LeaveRoom(s1, uid).0;
    assert s2.rooms.entries == s.rooms.entries[rid := room];
    assert s2.rooms.entries == s.rooms.entries;
    assert s2.userRoom == s.userRoom;
  }

  /** Creating a room and leaving it as its only member removes it again;
      only the room counter has moved on. */
  lemma CreateThenLeave(s: RoomManager.State, um: UserManager.Manager, uid: U32)
    requires RoomManager.Inv(s, um)
    requires s.rooms.curId + 1 < U32_LIMIT
    requires CreateRoom(s, um, uid).1.Ok?
    ensures var (s', res) := LeaveRoom(CreateRoom(s, um, uid).0, uid);
      && res == Ok(Unit)
      && s'.rooms.entries == s.rooms.entries
      && s'.userRoom == s.userRoom
      && s'.rooms.curId == s.rooms.curId + 1
  {
    var s1 := CreateRoom(s, um, uid).0;
    var rid := s.rooms.curId;
    assert s1 == RoomManager.CreateRoomByUserId(s, um, uid).0;
    assert rid !in s.rooms.entries;
    assert s1.userRoom[uid] == rid && s1.rooms.entries[rid].users == [uid];
    assert RoomManager.Inv(s1, um) by {
      RoomManager.CreatePreservesInv(s, um, uid);
    }
    assert |RoomManager.Without(s1.rooms.entries[rid].users, uid)| == 0 by {
      assert [uid][1..] == [];
    }
    RoomManager.LeaveAsLastMember(s1, um, uid);
    LeaveNewRoom(s, s1, rid, uid);
  }

  /** Removing a freshly created room gives back the store and index from before it. */
  lemma LeaveNewRoom(s: RoomManager.State, s1: RoomManager.State, rid: U32, uid: U32)
    requires forall u :: u in s.userRoom ==> s.userRoom[u] in s.rooms.entries
    requires rid !in s.rooms.entries && rid in s1.rooms.entries && uid !in s.userRoom
    requires s1.rooms.entries == s.rooms.entries[rid := s1.rooms.entries[rid]]
    requires s1.userRoom == s.userRoom[uid := rid]
    ensures RoomManager.RemoveRoom(s1, rid).rooms.entries == s.rooms.entries
    ensures RoomManager.RemoveRoom(s1, rid).userRoom == s.userRoom
  {
  }
}
