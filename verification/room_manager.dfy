/** The room lifecycle (backend/src/global/room_manager.rs).

    The manager's state is the global room store and the index from a user
    id to the handle of the room that user is in (modelled as the room id).
    User lookups go to the global user manager, which the room operations
    only read. The idle-room reaper that `create_room_by_user_id` spawns is
    timing-driven and not modelled; it ends in `RemoveRoom`, which is. */
module RoomManager {
  import opened Base
  import opened Configs
  import opened UserModel
  import opened RoomModel
  import SharedMap
  import UserManager

  datatype State = State(rooms: SharedMap.GlobalMap<Room>, userRoom: map<U32, U32>)

  /** The initial manager: no rooms, nobody indexed. */
  function Default(): (s: State)
    ensures s.rooms == SharedMap.Default()
    ensures forall u: U32 :: u !in s.userRoom
  {
    State(SharedMap.Default(), map[])
  }

  /** Writes a changed room back under its key: a mutation through the room's handle. */
  function PutRoom(s: State, rid: U32, room: Room): State {
    s.(rooms := s.rooms.(entries := s.rooms.entries[rid := room]))
  }

  ghost predicate NoDuplicates(users: seq<U32>) {
    forall i, j :: 0 <= i < j < |users| ==> users[i] != users[j]
  }

  /** `Vec::retain(|u| u.id != uid)`: drops every occurrence of `uid` and
      keeps the others in their order, so the first remaining member is the
      earliest-joined one that stays. */
  function Without(users: seq<U32>, uid: U32): (r: seq<U32>)
    ensures forall x :: x in r <==> x in users && x != uid
    ensures NoDuplicates(users) ==> NoDuplicates(r)
    ensures uid !in users ==> r == users
    ensures |r| > 0 ==> exists j :: 0 <= j < |users| && users[j] == r[0] && forall i :: 0 <= i < j ==> users[i] == uid
  {
    if |users| == 0 then []
    else if users[0] == uid then
      var rest := Without(users[1..], uid);
      assert |rest| > 0 ==> exists j :: 0 <= j < |users| && users[j] == rest[0] && forall i :: 0 <= i < j ==> users[i] == uid by {
        if |rest| > 0 {
          var j :| 0 <= j < |users[1..]| && users[1..][j] == rest[0] && forall i :: 0 <= i < j ==> users[1..][i] == uid;
          assert users[j + 1] == rest[0];
          forall i | 0 <= i < j + 1
            ensures users[i] == uid
          {
            if i > 0 {
              assert users[i] == users[1..][i - 1];
            }
          }
        }
      }
      rest
    else
      var rest := Without(users[1..], uid);
      assert NoDuplicates(users) ==> NoDuplicates([users[0]] + rest) by {
        if NoDuplicates(users) {
          assert users[0] !in users[1..];
          assert users[0] !in rest;
          assert NoDuplicates(users[1..]);
        }
      }
      [users[0]] + rest
  }

  /** Dropping a user that was just appended to a list not holding it gives the list back. */
  lemma {:induction false} WithoutAppended(users: seq<U32>, uid: U32)
    requires uid !in users
    ensures Without(users + [uid], uid) == users
  {
    if |users| == 0 {
      assert users + [uid] == [uid];
      assert [uid][1..] == [];
    } else {
      assert (users + [uid])[1..] == users[1..] + [uid];
      WithoutAppended(users[1..], uid);
      assert users == [users[0]] + users[1..];
    }
  }

  /** `create_room_by_user_id`: fails if the user is already indexed;
      otherwise allocates a default room FIRST, then looks the user up, and
      only then makes the user the sole member and indexes it. Returns the
      new room's id. */
  function CreateRoomByUserId(s: State, um: UserManager.Manager, uid: U32): (r: (State, Result<U32>))
    ensures uid in s.userRoom ==> r == (s, Err(AlreadyInRoom))
    ensures uid !in s.userRoom && !UserManager.ContainsId(um, uid) ==>
      && r.1 == Err(UserNotFound)
      && r.0.rooms == SharedMap.AddDefault(s.rooms, RoomIds, DefaultRoom()).0
      && r.0.userRoom == s.userRoom
    ensures uid !in s.userRoom && UserManager.ContainsId(um, uid) ==>
      && r.1 == Ok(s.rooms.curId)
      && r.0.rooms.curId == SharedMap.NextId(s.rooms.curId)
      && r.0.rooms.entries == s.rooms.entries[s.rooms.curId := DefaultRoom().(id := s.rooms.curId, users := [uid])]
      && r.0.userRoom == s.userRoom[uid := s.rooms.curId]
  {
    if uid in s.userRoom then (s, Err(AlreadyInRoom))
    else
      var (rooms1, rid) := SharedMap.AddDefault(s.rooms, RoomIds, DefaultRoom());
      var s1 := s.(rooms := rooms1);
      match UserManager.Get(um, uid)
      case None => (s1, Err(UserNotFound))
      case Some(_) =>
        var room := rooms1.entries[rid];
        assert room == DefaultRoom().(id := rid);
        assert room.users + [uid] == [uid];
        var s2 := PutRoom(s1, rid, room.(users := room.users + [uid]));
        (s2.(userRoom := s2.userRoom[uid := rid]), Ok(rid))
  }

  /** `add_user_to_room`: the checks run in the order already-indexed, room
      missing, room full (member count EQUAL to the maximum), user unknown;
      the first failing one wins and changes nothing. On success the user is
      appended and indexed. */
  function AddUserToRoom(s: State, um: UserManager.Manager, uid: U32, rid: U32): (r: (State, Result<Unit>))
    ensures r.1.Err? ==> r.0 == s
    ensures uid in s.userRoom ==> r.1 == Err(AlreadyInRoom)
    ensures uid !in s.userRoom && rid !in s.rooms.entries ==> r.1 == Err(RoomNotFoundId(rid))
    ensures uid !in s.userRoom && rid in s.rooms.entries
            && |s.rooms.entries[rid].users| == s.rooms.entries[rid].gameConfigs.basicConfigs.maxPlayerCount
            ==> r.1 == Err(RoomFull)
    ensures uid !in s.userRoom && rid in s.rooms.entries
            && |s.rooms.entries[rid].users| != s.rooms.entries[rid].gameConfigs.basicConfigs.maxPlayerCount
            && !UserManager.ContainsId(um, uid)
            ==> r.1 == Err(UserNotFoundId(uid))
    ensures r.1.Ok? <==>
      && uid !in s.userRoom && rid in s.rooms.entries
      && |s.rooms.entries[rid].users| != s.rooms.entries[rid].gameConfigs.basicConfigs.maxPlayerCount
      && UserManager.ContainsId(um, uid)
    ensures r.1.Ok? ==>
      && r.0.rooms.curId == s.rooms.curId
      && r.0.rooms.entries == s.rooms.entries[rid := s.rooms.entries[rid].(users := s.rooms.entries[rid].users + [uid])]
      && r.0.userRoom == s.userRoom[uid := rid]
  {
    if uid in s.userRoom then (s, Err(AlreadyInRoom))
    else
      match SharedMap.Get(s.rooms, rid)
      case None => (s, Err(RoomNotFoundId(rid)))
      case Some(room) =>
        if |room.users| == room.gameConfigs.basicConfigs.maxPlayerCount then (s, Err(RoomFull))
        else
          match UserManager.Get(um, uid)
          case None => (s, Err(UserNotFoundId(uid)))
          case Some(_) =>
            var s1 := PutRoom(s, rid, room.(users := room.users + [uid]));
            (s1.(userRoom := s1.userRoom[uid := rid]), Ok(Unit))
  }

  /** `remove_room`: drops the room from the store and every index entry
      whose room handle has that id. */
  function RemoveRoom(s: State, rid: U32): (r: State)
    ensures r.rooms == SharedMap.RemoveId(s.rooms, rid)
    ensures forall u :: u in r.userRoom <==> u in s.userRoom && s.userRoom[u] != rid
    ensures forall u :: u in r.userRoom ==> r.userRoom[u] == s.userRoom[u]
  {
    State(SharedMap.RemoveId(s.rooms, rid), map u | u in s.userRoom && s.userRoom[u] != rid :: s.userRoom[u])
  }

  /** `remove_user_from_room`: fails if the user is not indexed or the room
      is missing. Otherwise drops every member with that id from THAT room
      (without checking the user is in it), drops the user's index entry,
      and removes the room when its member list became empty. */
  function RemoveUserFromRoom(s: State, uid: U32, rid: U32): (r: (State, Result<Unit>))
    ensures uid !in s.userRoom ==> r == (s, Err(UserNotInARoom))
    ensures uid in s.userRoom && rid !in s.rooms.entries ==> r == (s, Err(RoomNotFound))
    ensures r.1.Ok? <==> uid in s.userRoom && rid in s.rooms.entries
    ensures r.1.Ok? ==> uid !in r.0.userRoom
    ensures r.1.Ok? && |Without(s.rooms.entries[rid].users, uid)| > 0 ==>
      && r.0.rooms.curId == s.rooms.curId
      && r.0.rooms.entries == s.rooms.entries[rid := s.rooms.entries[rid].(users := Without(s.rooms.entries[rid].users, uid))]
      && r.0.userRoom == s.userRoom - {uid}
    ensures r.1.Ok? && |Without(s.rooms.entries[rid].users, uid)| == 0 ==>
      r.0 == RemoveRoom(PutRoom(s, rid, s.rooms.entries[rid].(users := [])).(userRoom := s.userRoom - {uid}), s.rooms.entries[rid].id)
  {
    if uid !in s.userRoom then (s, Err(UserNotInARoom))
    else
      match SharedMap.Get(s.rooms, rid)
      case None => (s, Err(RoomNotFound))
      case Some(room) =>
        var room1 := room.(users := Without(room.users, uid));
        var s1 := PutRoom(s, rid, room1);
        var s2 := s1.(userRoom := s1.userRoom - {uid});
        if |room1.users| == 0 then (RemoveRoom(s2, room1.id), Ok(Unit))
        else (s2, Ok(Unit))
  }

  /** `find_room_by_user_id`: the index entry of the user. */
  function FindRoomByUserId(s: State, uid: U32): (r: Option<U32>)
    ensures r.Some? <==> uid in s.userRoom
    ensures r.Some? ==> r.value == s.userRoom[uid]
  {
    if uid in s.userRoom then Some(s.userRoom[uid]) else None
  }

  /** `all`: the stored rooms, listed in the store's iteration order `order`. */
  function All(s: State, order: seq<U32>): (r: seq<Room>)
    requires SharedMap.IterationOrder(order, s.rooms.entries.Keys)
    ensures |r| == |order|
    ensures forall i :: 0 <= i < |r| ==> r[i] == s.rooms.entries[order[i]]
  {
    seq(|order|, i requires 0 <= i < |order| => s.rooms.entries[order[i]])
  }

  /** `update_game_configs_of_room`: fails on a missing room; otherwise
      replaces that room's configuration, which publishes one snapshot. */
  function UpdateGameConfigsOfRoom(s: State, um: UserManager.Manager, rid: U32, configs: GameConfigurations): (r: (State, Result<Unit>))
    requires rid in s.rooms.entries ==> MembersKnown(s.rooms.entries[rid].users, um.idMap.entries)
    ensures rid !in s.rooms.entries ==> r == (s, Err(RoomNotFoundId(rid)))
    ensures rid in s.rooms.entries ==>
      && r.1 == Ok(Unit)
      && r.0.userRoom == s.userRoom
      && r.0.rooms.curId == s.rooms.curId
      && r.0.rooms.entries == s.rooms.entries[rid := UpdateGameConfigs(s.rooms.entries[rid], configs, um.idMap.entries)]
  {
    match SharedMap.Get(s.rooms, rid)
    case None => (s, Err(RoomNotFoundId(rid)))
    case Some(room) => (PutRoom(s, rid, UpdateGameConfigs(room, configs, um.idMap.entries)), Ok(Unit))
  }

  // ---------------------------------------------------------------------
  // The membership invariant

  /** A stored room is non-empty, lists nobody twice, and lists only known users. */
  ghost predicate RoomWf(room: Room, um: UserManager.Manager) {
    && |room.users| > 0
    && NoDuplicates(room.users)
    && MembersKnown(room.users, um.idMap.entries)
  }

  /** The intended invariant of the manager: the room store is well formed,
      every stored room is non-empty, and `userRoom[u] == r` holds exactly
      when `u` is a member of the stored room `r`. */
  ghost predicate Inv(s: State, um: UserManager.Manager) {
    && SharedMap.Wf(s.rooms, RoomIds)
    && (forall rid :: rid in s.rooms.entries ==> RoomWf(s.rooms.entries[rid], um))
    && (forall u :: u in s.userRoom ==>
          s.userRoom[u] in s.rooms.entries && u in s.rooms.entries[s.userRoom[u]].users)
    && (forall rid, u :: rid in s.rooms.entries && u in s.rooms.entries[rid].users ==>
          u in s.userRoom && s.userRoom[u] == rid)
  }

  lemma DefaultInv(um: UserManager.Manager)
    ensures Inv(Default(), um)
  {
  }

  /** A successful create keeps the invariant (while the room counter has not wrapped). */
  lemma CreatePreservesInv(s: State, um: UserManager.Manager, uid: U32)
    requires Inv(s, um)
    requires s.rooms.curId + 1 < U32_LIMIT
    requires CreateRoomByUserId(s, um, uid).1.Ok?
    ensures Inv(CreateRoomByUserId(s, um, uid).0, um)
    ensures CreateRoomByUserId(s, um, uid).1.value !in s.rooms.entries
  {
    var s' := CreateRoomByUserId(s, um, uid).0;
    var rid := s.rooms.curId;
    assert rid !in s.rooms.entries;
    InsertRoomKeepsInv(s, um, uid, DefaultRoom().(id := rid, users := [uid]), s');
  }

  /** The invariant after a fresh room holding only `uid` is stored under
      the counter's id and `uid` is indexed to it. */
  lemma InsertRoomKeepsInv(s: State, um: UserManager.Manager, uid: U32, room: Room, s': State)
    requires Inv(s, um)
    requires s.rooms.curId + 1 < U32_LIMIT
    requires uid !in s.userRoom && uid in um.idMap.entries
    requires room.id == s.rooms.curId && room.users == [uid]
    requires s'.rooms.curId == s.rooms.curId + 1
    requires s'.rooms.entries == s.rooms.entries[s.rooms.curId := room]
    requires s'.userRoom == s.userRoom[uid := s.rooms.curId]
    ensures Inv(s', um)
  {
    var rid := s.rooms.curId;
    assert rid !in s.rooms.entries;
    assert SharedMap.Wf(s'.rooms, RoomIds) by {
      forall k | k in s'.rooms.entries
        ensures k < s'.rooms.curId && RoomIds.id(s'.rooms.entries[k]) == k
      {
        if k != rid {
          assert s'.rooms.entries[k] == s.rooms.entries[k];
        }
      }
    }
    assert forall r :: r in s'.rooms.entries ==> RoomWf(s'.rooms.entries[r], um) by {
      forall r | r in s'.rooms.entries
        ensures RoomWf(s'.rooms.entries[r], um)
      {
        if r != rid {
          assert s'.rooms.entries[r] == s.rooms.entries[r];
        }
      }
    }
    forall u | u in s'.userRoom
      ensures s'.userRoom[u] in s'.rooms.entries && u in s'.rooms.entries[s'.userRoom[u]].users
    {
      if u != uid {
        assert s.userRoom[u] != rid;
        assert s'.rooms.entries[s.userRoom[u]] == s.rooms.entries[s.userRoom[u]];
      }
    }
    forall r, u | r in s'.rooms.entries && u in s'.rooms.entries[r].users
      ensures u in s'.userRoom && s'.userRoom[u] == r
    {
      if r != rid {
        assert s'.rooms.entries[r] == s.rooms.entries[r];
        assert u != uid;
      }
    }
  }

  /** When the user is unknown, create reports "User not found" AFTER a room
      was allocated: an empty room stays in the store, no index entry points
      at it (so no leave can ever remove it), and the invariant is broken. */
  lemma CreateWithUnknownUserLeaksEmptyRoom(s: State, um: UserManager.Manager, uid: U32)
    requires Inv(s, um)
    requires s.rooms.curId + 1 < U32_LIMIT
    requires uid !in s.userRoom && !UserManager.ContainsId(um, uid)
    ensures var (s', res) := CreateRoomByUserId(s, um, uid);
      && res == Err(UserNotFound)
      && s.rooms.curId in s'.rooms.entries
      && s'.rooms.entries[s.rooms.curId].users == []
      && (forall u :: u in s'.userRoom ==> s'.userRoom[u] != s.rooms.curId)
      && !Inv(s', um)
  {
    var s' := CreateRoomByUserId(s, um, uid).0;
    assert s.rooms.curId !in s.rooms.entries;
    assert !RoomWf(s'.rooms.entries[s.rooms.curId], um);
  }

  /** Joining keeps the invariant, whatever the outcome. */
  lemma AddUserPreservesInv(s: State, um: UserManager.Manager, uid: U32, rid: U32)
    requires Inv(s, um)
    ensures Inv(AddUserToRoom(s, um, uid, rid).0, um)
  {
    var (s', res) := AddUserToRoom(s, um, uid, rid);
    if res.Ok? {
      assert uid !in s.rooms.entries[rid].users;
      var users' := s.rooms.entries[rid].users + [uid];
      assert s'.rooms.entries[rid].users == users';
      assert RoomWf(s'.rooms.entries[rid], um) by {
        assert users'[|users'| - 1] == uid;
        assert forall i :: 0 <= i < |users'| - 1 ==> users'[i] == s.rooms.entries[rid].users[i];
      }
      forall r, u | r in s'.rooms.entries && u in s'.rooms.entries[r].users
        ensures u in s'.userRoom && s'.userRoom[u] == r
      {
        if r == rid && u == uid {
        } else if r == rid {
          assert u in s.rooms.entries[rid].users;
        } else {
          assert u in s.rooms.entries[r].users;
        }
      }
    }
  }

  /** Removing every member of a room's own users keeps the invariant:
      `remove_room` is what the idle reaper calls. */
  lemma RemoveRoomPreservesInv(s: State, um: UserManager.Manager, rid: U32)
    requires Inv(s, um)
    ensures Inv(RemoveRoom(s, rid), um)
    ensures rid !in RemoveRoom(s, rid).rooms.entries
  {
  }

  /** The last member leaving amounts to `remove_room` of that room. */
  lemma LeaveAsLastMember(s: State, um: UserManager.Manager, uid: U32)
    requires Inv(s, um)
    requires uid in s.userRoom
    requires |Without(s.rooms.entries[s.userRoom[uid]].users, uid)| == 0
    ensures var (s', res) := RemoveUserFromRoom(s, uid, s.userRoom[uid]);
      && res == Ok(Unit)
      && s' == RemoveRoom(s, s.userRoom[uid])
      && Inv(s', um)
      && s.userRoom[uid] !in s'.rooms.entries
  {
    var rid := s.userRoom[uid];
    var room := s.rooms.entries[rid];
    var s2 := PutRoom(s, rid, room.(users := [])).(userRoom := s.userRoom - {uid});
    assert RemoveUserFromRoom(s, uid, rid).0 == RemoveRoom(s2, rid) by {
      assert room.id == rid;
    }
    OnlyMemberIndexed(s, um, uid);
    RemoveRoomCongruence(s2, s, rid);
    RemoveRoomPreservesInv(s, um, rid);
  }

  /** A user whose room has no other member is the only one indexed to it. */
  lemma OnlyMemberIndexed(s: State, um: UserManager.Manager, uid: U32)
    requires Inv(s, um)
    requires uid in s.userRoom
    requires |Without(s.rooms.entries[s.userRoom[uid]].users, uid)| == 0
    ensures forall u :: u in s.userRoom && s.userRoom[u] == s.userRoom[uid] ==> u == uid
  {
    var users := s.rooms.entries[s.userRoom[uid]].users;
    forall u | u in s.userRoom && s.userRoom[u] == s.userRoom[uid]
      ensures u == uid
    {
      assert u in users;
      assert u !in Without(users, uid);
    }
  }

  /** `remove_room` only looks at what survives it. */
  lemma RemoveRoomCongruence(a: State, b: State, rid: U32)
    requires a.rooms.curId == b.rooms.curId
    requires a.rooms.entries - {rid} == b.rooms.entries - {rid}
    requires forall u :: u in a.userRoom && a.userRoom[u] != rid ==> u in b.userRoom && b.userRoom[u] == a.userRoom[u]
    requires forall u :: u in b.userRoom && b.userRoom[u] != rid ==> u in a.userRoom && a.userRoom[u] == b.userRoom[u]
    ensures RemoveRoom(a, rid) == RemoveRoom(b, rid)
  {
    assert RemoveRoom(a, rid).userRoom == RemoveRoom(b, rid).userRoom;
  }

  /** A member leaving a room that keeps other members. */
  lemma LeaveWithOthersRemaining(s: State, um: UserManager.Manager, uid: U32)
    requires Inv(s, um)
    requires uid in s.userRoom
    requires |Without(s.rooms.entries[s.userRoom[uid]].users, uid)| > 0
    ensures var (s', res) := RemoveUserFromRoom(s, uid, s.userRoom[uid]);
      && res == Ok(Unit)
      && Inv(s', um)
      && s.userRoom[uid] in s'.rooms.entries
  {
    var rid := s.userRoom[uid];
    var room := s.rooms.entries[rid];
    var rest := Without(room.users, uid);
    var s' := RemoveUserFromRoom(s, uid, rid).0;
    var room' := room.(users := rest);
    assert s' == State(s.rooms.(entries := s.rooms.entries[rid := room']), s.userRoom - {uid});
    ReplaceRoomKeepsInv(s, um, uid, rid, room', s');
  }

  /** The invariant after `rid`'s member list loses exactly `uid` and the
      index loses `uid`'s entry. */
  lemma ReplaceRoomKeepsInv(s: State, um: UserManager.Manager, uid: U32, rid: U32, room': Room, s': State)
    requires Inv(s, um)
    requires uid in s.userRoom && rid == s.userRoom[uid]
    requires room'.id == rid && |room'.users| > 0 && NoDuplicates(room'.users)
    requires forall x :: x in room'.users <==> x in s.rooms.entries[rid].users && x != uid
    requires s' == State(s.rooms.(entries := s.rooms.entries[rid := room']), s.userRoom - {uid})
    ensures Inv(s', um)
  {
    var room := s.rooms.entries[rid];
    assert SharedMap.Wf(s'.rooms, RoomIds);
    assert RoomWf(room', um) by {
      forall i | 0 <= i < |room'.users|
        ensures room'.users[i] in um.idMap.entries
      {
        assert room'.users[i] in room.users;
      }
    }
    forall u | u in s'.userRoom
      ensures s'.userRoom[u] in s'.rooms.entries && u in s'.rooms.entries[s'.userRoom[u]].users
    {
      if s.userRoom[u] == rid {
        assert u in room.users;
      }
    }
    forall r, u | r in s'.rooms.entries && u in s'.rooms.entries[r].users
      ensures u in s'.userRoom && s'.userRoom[u] == r
    {
      if r == rid {
        assert u in room.users && u != uid;
      } else {
        assert u in s.rooms.entries[r].users;
        assert u != uid;
      }
    }
  }

  /** Leaving the room the index names keeps the invariant; when the user
      was the last member, the room is gone from the store. */
  lemma LeaveIndexedRoomPreservesInv(s: State, um: UserManager.Manager, uid: U32)
    requires Inv(s, um)
    requires uid in s.userRoom
    ensures var (s', res) := RemoveUserFromRoom(s, uid, s.userRoom[uid]);
      && res == Ok(Unit)
      && Inv(s', um)
      && uid !in s'.userRoom
      && (s.rooms.entries[s.userRoom[uid]].users == [uid] ==> s.userRoom[uid] !in s'.rooms.entries)
  {
    var room := s.rooms.entries[s.userRoom[uid]];
    if room.users == [uid] {
      assert room.users[1..] == [];
    }
    if |Without(room.users, uid)| == 0 {
      LeaveAsLastMember(s, um, uid);
    } else {
      LeaveWithOthersRemaining(s, um, uid);
    }
  }

  /** `remove_user_from_room` with a room other than the user's own succeeds
      but breaks the invariant: the user loses its index entry while still
      listed in its real room. */
  lemma RemoveFromOtherRoomBreaksInv(s: State, um: UserManager.Manager, uid: U32, rid: U32)
    requires Inv(s, um)
    requires uid in s.userRoom && rid in s.rooms.entries && rid != s.userRoom[uid]
    ensures var (s', res) := RemoveUserFromRoom(s, uid, rid);
      && res == Ok(Unit)
      && s.userRoom[uid] in s'.rooms.entries
      && uid in s'.rooms.entries[s.userRoom[uid]].users
      && uid !in s'.userRoom
      && !Inv(s', um)
  {
    var home := s.userRoom[uid];
    assert uid !in s.rooms.entries[rid].users;
    assert Without(s.rooms.entries[rid].users, uid) == s.rooms.entries[rid].users;
  }

  /** Changing a configuration keeps the invariant. */
  lemma UpdateConfigPreservesInv(s: State, um: UserManager.Manager, rid: U32, configs: GameConfigurations)
    requires Inv(s, um)
    ensures Inv(UpdateGameConfigsOfRoom(s, um, rid, configs).0, um)
  {
    var s' := UpdateGameConfigsOfRoom(s, um, rid, configs).0;
    if rid in s.rooms.entries {
      var room' := UpdateGameConfigs(s.rooms.entries[rid], configs, um.idMap.entries);
      assert room'.users == s.rooms.entries[rid].users && room'.id == s.rooms.entries[rid].id;
      SameMembersKeepInv(s, um, s');
    }
  }

  /** Changing anything but ids and member lists keeps the invariant. */
  lemma SameMembersKeepInv(s: State, um: UserManager.Manager, s': State)
    requires Inv(s, um)
    requires s'.userRoom == s.userRoom && s'.rooms.curId == s.rooms.curId
    requires s'.rooms.entries.Keys == s.rooms.entries.Keys
    requires forall r :: r in s.rooms.entries ==>
      s'.rooms.entries[r].users == s.rooms.entries[r].users && s'.rooms.entries[r].id == s.rooms.entries[r].id
    ensures Inv(s', um)
  {
  }

  // ---------------------------------------------------------------------
  // Capacity

  /** No stored room has more members than its configured maximum. */
  ghost predicate WithinCapacity(s: State) {
    forall rid :: rid in s.rooms.entries ==>
      |s.rooms.entries[rid].users| <= s.rooms.entries[rid].gameConfigs.basicConfigs.maxPlayerCount
  }

  /** A join never takes a room that respected its maximum past it: from
      below the maximum, `==` and `>=` decide alike. */
  lemma JoinRespectsCapacity(s: State, um: UserManager.Manager, uid: U32, rid: U32)
    requires WithinCapacity(s)
    ensures WithinCapacity(AddUserToRoom(s, um, uid, rid).0)
  {
  }

  /** A configuration update may set the maximum below the current member
      count; the source does not check this. */
  lemma ConfigUpdateCanBreakCapacity(s: State, um: UserManager.Manager, rid: U32, configs: GameConfigurations)
    requires rid in s.rooms.entries && MembersKnown(s.rooms.entries[rid].users, um.idMap.entries)
    requires configs.basicConfigs.maxPlayerCount < |s.rooms.entries[rid].users|
    ensures !WithinCapacity(UpdateGameConfigsOfRoom(s, um, rid, configs).0)
  {
    var s' := UpdateGameConfigsOfRoom(s, um, rid, configs).0;
    assert s'.rooms.entries[rid].gameConfigs == configs;
  }

  /** Once a room is over its maximum, the `==` full check lets further
      users in: the room grows further past its maximum. */
  lemma FullCheckIsEquality(s: State, um: UserManager.Manager, uid: U32, rid: U32)
    requires uid !in s.userRoom && rid in s.rooms.entries && UserManager.ContainsId(um, uid)
    requires |s.rooms.entries[rid].users| > s.rooms.entries[rid].gameConfigs.basicConfigs.maxPlayerCount
    ensures var (s', res) := AddUserToRoom(s, um, uid, rid);
      && res == Ok(Unit)
      && |s'.rooms.entries[rid].users| > s'.rooms.entries[rid].gameConfigs.basicConfigs.maxPlayerCount + 1
  {
  }

  /** A successful join appends at the end and keeps the owner. */
  lemma JoinKeepsOwner(s: State, um: UserManager.Manager, uid: U32, rid: U32)
    requires Inv(s, um)
    requires AddUserToRoom(s, um, uid, rid).1.Ok?
    ensures var s' := AddUserToRoom(s, um, uid, rid).0;
      && Owner(s'.rooms.entries[rid]) == Owner(s.rooms.entries[rid])
      && s'.rooms.entries[rid].users[|s'.rooms.entries[rid].users| - 1] == uid
  {
  }
}
