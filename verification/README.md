# Baodatui3 backend — a Dafny model

This project models the server core of Baodatui3, a multiplayer card-game backend.
Clients connect over rsocket. Each connection sends commands, and the server routes each command to a handler under the caller's user id.
The model covers these parts of that core:

- **Id-keyed stores.**
  - `GlobalMap` and its older twin `ArcMap` hand out ids from a `u32` counter.
  - `InMemoryStorage` is a string-keyed map.
  - The global `UserManager` keeps an id index and a uuid index.
  - The older `ArcMap<User>` user store is modelled too.
- **Rooms.**
  - The `Room` record and its two projections: the lobby's simple info and the room page's detailed info.
  - The `RoomManager` state machine, made of the room store and the user-to-room index.
  - The room request handlers built on it.
- **Users.** Both user-renaming handlers, with their different validation.
- **Command dispatch.**
  - The name-to-handler registries.
  - The typed-to-raw request and stream wrappers.
  - Payload shaping and the per-connection rsocket responder.
  - The `Option`-to-`Result` helper.
- **Cards.** The 54-card deck layout, card scores, card power and the prime/sub suit role.

How the model represents the source:

- State is an immutable value passed in and out of each operation.
- A shared `Arc<RwLock<T>>` handle is modelled as the id of the entity it points to.
- A `panic!` on a duplicate registration is an explicit outcome, `Registry.DuplicatePanic`.
- An `unwrap` becomes a precondition.
- HashMap iteration order is an explicit `order` parameter that lists every key once.
- serde and JSON text are uninterpreted functions.
  - `Json.Text` holds the printing and parsing functions, and `Json.Faithful` states the one law the proofs need: parsing printed text gives the value back.
  - Only the serde conversions of `()`, `String`, `u32` and the derived request types are written out.
- A room's notification channel is the log `published` of every snapshot sent to it.

## Model

| member | source | states |
|---|---|---|
| Ext.IntoResult | backend/src/ext.rs:7-14 | `Some(t)` becomes `Ok(t)` and `None` becomes the "None" error; the result is `Ok` exactly when the input is `Some`; total |
| Ext.IntoResultRoundTrip | backend/src/ext.rs:7-14 | the conversion loses nothing: forgetting the error gives the option back |
| SharedMap.BoxWithId | backend/src/data_structure/shared_map.rs:10-18 | `Box<T>` reads and writes the id of the boxed value |
| SharedMap.BoxLawful | backend/src/data_structure/shared_map.rs:10-18 | delegating through `Box` keeps the law "the id read back is the id last written" |
| SharedMap.Default | backend/src/data_structure/shared_map.rs:26-33 | a new store has counter 0 and no entries |
| SharedMap.NextId | backend/src/data_structure/shared_map.rs:44-46 | the atomic `fetch_add(1)` moves the counter up by one and wraps to 0 after the largest `u32` |
| SharedMap.Add | backend/src/data_structure/shared_map.rs:42-52 | the entity gets the current counter value as its id and is stored under it; the counter moves on; no other key changes |
| SharedMap.AddDefault | backend/src/data_structure/shared_map.rs:36-38 | `add_default` is `add` of the type's default value |
| SharedMap.RemoveId | backend/src/data_structure/shared_map.rs:54-57 | only that key goes; the counter never moves back; a missing key is a no-op |
| SharedMap.Remove | backend/src/data_structure/shared_map.rs:59-62 | `remove(t)` is `remove_id` of the id read out of `t` |
| SharedMap.Get | backend/src/data_structure/shared_map.rs:64-67 | the stored entity exactly when the key is present |
| SharedMap.ContainsId | backend/src/data_structure/shared_map.rs:69-71 | true exactly when the key is present |
| SharedMap.Find | backend/src/data_structure/shared_map.rs:73-82 | a found id is stored and its entity satisfies the predicate; `None` exactly when no entity visited satisfies it |
| SharedMap.DefaultWf | backend/src/data_structure/shared_map.rs:26-33 | a new store is well formed: every key is below the counter and each entity carries its own key |
| SharedMap.AddPreservesWf | backend/src/data_structure/shared_map.rs:42-52 | before the counter wraps, `add` hands out a fresh id, the stored entity's id equals its key, and the store stays well formed |
| SharedMap.SuccessiveAddsIncrease | backend/src/data_structure/shared_map.rs:42-52 | successive `add`s hand out strictly increasing ids until the counter wraps |
| SharedMap.RemoveIdPreservesWf | backend/src/data_structure/shared_map.rs:54-57 | removal keeps the store well formed |
| SharedMap.AddThenRemoveId | backend/src/data_structure/shared_map.rs:42-57 | removing the id just handed out restores the entries from before the `add` |
| SharedMap.RemoveStoredEntity | backend/src/data_structure/shared_map.rs:59-62 | in a well-formed store, `remove` of a stored entity removes exactly its own key |
| SharedMap.GetIffContains | backend/src/data_structure/shared_map.rs:64-71 | `get` is `Some` exactly when `contains_id` holds |
| SharedMap.FindIsFirst | backend/src/data_structure/shared_map.rs:73-82 | `find` returns the first entity in iteration order that satisfies the predicate |
| SharedMap.FindNoneIffNoMatch | backend/src/data_structure/shared_map.rs:73-82 | over a real iteration order, `find` is `None` exactly when no stored entity satisfies the predicate |
| ArcMap.Default | backend/src/container/arcmap.rs:13-17 | a derived default map has counter 0 and no entries |
| ArcMap.Add | backend/src/container/arcmap.rs:20-29 | the entity's id is set to the counter and it is stored under it; then the counter is incremented; no other key changes |
| ArcMap.RemoveId | backend/src/container/arcmap.rs:31-34 | only that key goes; a missing key is a no-op |
| ArcMap.Remove | backend/src/container/arcmap.rs:36-39 | `remove(t)` removes the key equal to `t`'s id |
| ArcMap.Get | backend/src/container/arcmap.rs:41-44 | the stored entity or `None` |
| ArcMap.IsValidId | backend/src/container/arcmap.rs:46-48 | true exactly when the key is present |
| ArcMap.Find | backend/src/container/arcmap.rs:50-59 | the loop returns a stored entity satisfying the predicate, `None` exactly when none visited does, and agrees with `GlobalMap::find` |
| ArcMap.AgreesWithGlobalMap | backend/src/container/arcmap.rs:20-48 | every `ArcMap` operation is the corresponding `GlobalMap` operation on the same counter and entries |
| ArcMap.FirstIdsFromDefault | backend/src/container/arcmap.rs:13-29 | a default map hands out 0 first and 1 next |
| Db.Default | backend/src/db/mod.rs:14-20 | a new storage holds nothing |
| Db.Get | backend/src/db/mod.rs:23-26 | a copy of the stored value, `None` for an absent key |
| Db.Add | backend/src/db/mod.rs:28-31 | afterwards `get(id)` is the new value and every other key reads as before |
| Db.Remove | backend/src/db/mod.rs:33-36 | afterwards `get(id)` is `None`, other keys are unchanged, and an absent key is a no-op |
| Db.AddOverwrites | backend/src/db/mod.rs:28-31 | a second `add` on a key replaces the first value |
| Db.RemoveUndoesAdd | backend/src/db/mod.rs:28-36 | `remove` undoes the `add` of an absent key |
| Db.AddStoredValueIsNoop | backend/src/db/mod.rs:23-31 | re-adding the stored value changes nothing |
| UserModel.DefaultUser | backend/src/model/user.rs:17-30 | a default user has id 0, timestamp 0, is not prepared and has no preferred configuration; name and uuid are the generated ones |
| UserModel.UserIdsLawful | backend/src/model/user.rs:7-15 | the derived `WithId` of `User` writes only the `id` field and reads back what it wrote |
| Configs.DefaultGameConfigurations | backend/src/model/configs.rs:17-24 | the defaults are six players and four decks |
| UserManager.Default | backend/src/global/user_manager.rs:7-10 | the initial manager has an empty id map with counter 0 and an empty uuid index |
| UserManager.Get | backend/src/global/user_manager.rs:57-60 | the stored user exactly when the id is in the id map |
| UserManager.ContainsId | backend/src/global/user_manager.rs:62-64 | true exactly when the id is in the id map |
| UserManager.FindUserByUuid | backend/src/global/user_manager.rs:23-25 | a lookup in the uuid index only |
| UserManager.Add | backend/src/global/user_manager.rs:27-33 | the user is stored under a new id and indexed under its uuid, so `find_user_by_uuid` then returns it; other uuids are unaffected |
| UserManager.AddDefault | backend/src/global/user_manager.rs:35-37 | the user is stored in the id map only; the uuid index is left unchanged |
| UserManager.RemoveId | backend/src/global/user_manager.rs:39-50 | a missing id changes nothing; a present id leaves both the id map and the uuid index |
| UserManager.Remove | backend/src/global/user_manager.rs:52-55 | `remove(t)` is `remove_id(t.id)` |
| UserManager.DefaultWf | backend/src/global/user_manager.rs:7-10 | the initial manager is well formed: every uuid entry points at a stored user carrying that uuid |
| UserManager.OperationsPreserveWf | backend/src/global/user_manager.rs:27-50 | `add`, `add_default` and `remove_id` keep the manager well formed while the counter has not wrapped |
| UserManager.AddDefaultUserNotFoundByUuid | backend/src/global/user_manager.rs:35-37 | a user stored by `add_default` cannot be found by its uuid |
| UserManager.RemoveUndoesAdd | backend/src/global/user_manager.rs:27-50 | `remove_id` of the id `add` just handed out restores both indexes |
| UserManager.GetIffContains | backend/src/global/user_manager.rs:57-64 | `get` and `contains_id` agree |
| ContainerUserManager.AddUser | backend/src/container/user_manager.rs:18-23 | the stored user is a default user carrying the generated name and uuid, under the counter's id; other keys are unchanged |
| ContainerUserManager.AddUserFresh | backend/src/container/user_manager.rs:18-23 | before the counter wraps, the new id was not yet a key and the store stays well formed |
| ContainerUserManager.FindUserByUuid | backend/src/container/user_manager.rs:25-27 | returns only a stored user with that uuid, and `None` exactly when no stored user has it |
| RoomModel.DefaultStatus | backend/src/model/room.rs:17-21 | a room starts out `Waiting` |
| RoomModel.DefaultRoom | backend/src/model/room.rs:23-32 | a default room is `Waiting`, has no members, the default configuration and no snapshot sent |
| RoomModel.RoomIdsLawful | backend/src/model/room.rs:24-26 | the derived `WithId` of `Room` writes only the `id` field and reads back what it wrote |
| RoomModel.Owner | backend/src/model/room.rs:23-37 | the owner is the first member; an empty room has none, so the call requires members |
| RoomModel.UserInRoomInfoOf | backend/src/model/room.rs:96-103 | the user's prepared flag and nick name |
| RoomModel.MemberInfos | backend/src/model/room.rs:111-115 | one info per member, in member order, read through the user table |
| RoomModel.DetailedInfo | backend/src/model/room.rs:105-118 | same id, status and configuration as the room, and one entry per member carrying that user's prepared flag and nick name |
| RoomModel.SimpleInfo | backend/src/model/room.rs:67-78 | same id and status, the member count, and the configured maximum |
| RoomModel.NotifyDetailChanged | backend/src/model/room.rs:44-46 | sends exactly one snapshot of the room and changes nothing else |
| RoomModel.UpdateUsers | backend/src/model/room.rs:39-42 | applies `f` to the member list, then sends one snapshot of the new state; nothing else changes |
| RoomModel.UpdateGameConfigs | backend/src/model/room.rs:52-55 | replaces the configuration wholesale, then sends one snapshot of the new state; nothing else changes |
| RoomModel.UpdatedConfigIsObservable | backend/src/model/room.rs:52-78 | the latest snapshot carries the new configuration and every member, and the lobby info shows the new maximum |
| RoomManager.Default | backend/src/global/room_manager.rs:18-27 | no rooms, and nobody indexed |
| RoomManager.Without | backend/src/global/room_manager.rs:97 | `retain` drops every entry of the user, keeps the rest in order and keeps them distinct; the first one left is the earliest member that stays |
| RoomManager.WithoutAppended | backend/src/global/room_manager.rs:80-97 | dropping a user just appended to a list not holding it gives the list back |
| RoomManager.CreateRoomByUserId | backend/src/global/room_manager.rs:29-64 | an indexed user gets "User already in a room" and nothing changes; an unknown user gets "User not found" after a default room was allocated; otherwise the new room has the user as its only member and the index maps the user to it |
| RoomManager.AddUserToRoom | backend/src/global/room_manager.rs:67-87 | checks in order: already indexed, room not found, full (`==` the maximum), user not found ("User not found {id}"); the first failure wins and changes nothing; success appends the user and indexes it |
| RoomManager.RemoveRoom | backend/src/global/room_manager.rs:110-115 | the room leaves the store, and so does every index entry pointing at it; other entries stay |
| RoomManager.RemoveUserFromRoom | backend/src/global/room_manager.rs:89-104 | fails if the user is not indexed or the room is missing; otherwise drops the user from that room and from the index, leaves the id counter alone, and removes the room once it is empty |
| RoomManager.FindRoomByUserId | backend/src/global/room_manager.rs:106-108 | the index entry of the user |
| RoomManager.All | backend/src/global/room_manager.rs:117-119 | every stored room, once each, in iteration order |
| RoomManager.UpdateGameConfigsOfRoom | backend/src/global/room_manager.rs:121-131 | a missing room is an error and changes nothing; otherwise only that room's configuration is replaced, with one snapshot sent |
| RoomManager.DefaultInv | backend/src/global/room_manager.rs:18-21 | the empty manager satisfies the invariant: `index[u] == r` exactly when `u` is a member of stored room `r`, and every stored room is non-empty |
| RoomManager.CreatePreservesInv | backend/src/global/room_manager.rs:29-40 | a successful create keeps the invariant and allocates a fresh room id |
| RoomManager.InsertRoomKeepsInv | backend/src/global/room_manager.rs:33-40 | storing a fresh room whose only member is an unindexed known user, and indexing that user to it, keeps the invariant |
| RoomManager.CreateWithUnknownUserLeaksEmptyRoom | backend/src/global/room_manager.rs:33-39 | an unknown user makes create fail, yet an empty room stays in the store and the invariant breaks |
| RoomManager.AddUserPreservesInv | backend/src/global/room_manager.rs:67-87 | a join keeps the invariant, whatever its outcome |
| RoomManager.RemoveRoomPreservesInv | backend/src/global/room_manager.rs:110-115 | removing a room keeps the invariant |
| RoomManager.LeaveAsLastMember | backend/src/global/room_manager.rs:89-115 | the last member leaving amounts to `remove_room` of that room |
| RoomManager.OnlyMemberIndexed | backend/src/global/room_manager.rs:99-102 | under the invariant, the sole member of a room is the only user indexed to it |
| RoomManager.LeaveWithOthersRemaining | backend/src/global/room_manager.rs:89-98 | a member leaving a room that keeps other members keeps the invariant |
| RoomManager.LeaveIndexedRoomPreservesInv | backend/src/global/room_manager.rs:89-104 | leaving the room the index names keeps the invariant and removes an emptied room |
| RoomManager.RemoveFromOtherRoomBreaksInv | backend/src/global/room_manager.rs:89-98 | removing a user from a room other than their own succeeds and breaks the invariant: the user's real room still lists them |
| RoomManager.UpdateConfigPreservesInv | backend/src/global/room_manager.rs:121-131 | a configuration update keeps the invariant |
| RoomManager.JoinRespectsCapacity | backend/src/global/room_manager.rs:75-79 | from within the maximum, a join never takes a room past it |
| RoomManager.ConfigUpdateCanBreakCapacity | backend/src/global/room_manager.rs:121-131 | a configuration update can set the maximum below the member count; nothing checks this |
| RoomManager.FullCheckIsEquality | backend/src/global/room_manager.rs:75-79 | once over its maximum, a room lets further users in, because the full check is `==` |
| RoomManager.JoinKeepsOwner | backend/src/global/room_manager.rs:80-86 | a successful join appends the user last and keeps the owner |
| RoomHandlers.ListRoomSimpleInfo | backend/src/global/handlers/room_handlers.rs:22-33 | one simple info per stored room, in iteration order; never fails |
| RoomHandlers.OrderCoversKeys | backend/src/global/handlers/room_handlers.rs:22-33 | an iteration order has exactly as many entries as there are rooms |
| RoomHandlers.ListNamesEveryRoomOnce | backend/src/global/handlers/room_handlers.rs:22-33 | every stored room is listed exactly once, under its own id, with its current and maximum member counts |
| RoomHandlers.CreateRoom | backend/src/global/handlers/room_handlers.rs:39-47 | delegates to `create_room_by_user_id`, passing its error on; on success the caller owns the new room |
| RoomHandlers.LeaveRoom | backend/src/global/handlers/room_handlers.rs:53-66 | "user not in room" for an unindexed caller; otherwise removes the caller from the room the index names |
| RoomHandlers.EnterRoom | backend/src/global/handlers/room_handlers.rs:72-76 | exactly `add_user_to_room(uid, req)` |
| RoomHandlers.ChangeGameConfig | backend/src/global/handlers/room_handlers.rs:83-98 | "user not in room", then "user is not owner" with nothing changed; for the owner, only that room's configuration is replaced and one snapshot sent, with the index, the counter, the members and the other rooms unchanged |
| RoomHandlers.RoomDetailedInfoStream | backend/src/global/handlers/room_handlers.rs:105-116 | "user not in room" for an unindexed caller; otherwise a subscriber first receives the latest snapshot sent, if there is one |
| RoomHandlers.InvDefinesConfigChange | backend/src/global/handlers/room_handlers.rs:84-94 | under the manager's invariant, reading the owner never panics |
| RoomHandlers.ChangeGameConfigKeepsInv | backend/src/global/handlers/room_handlers.rs:83-98 | only the owner succeeds, and the change keeps the invariant |
| RoomHandlers.LeaveRoomKeepsInv | backend/src/global/handlers/room_handlers.rs:53-66 | leaving keeps the invariant, succeeds exactly for an indexed caller, and un-indexes the caller |
| RoomHandlers.EnterThenLeave | backend/src/global/handlers/room_handlers.rs:53-76 | entering a room and then leaving it restores the manager exactly |
| RoomHandlers.CreateThenLeave | backend/src/global/handlers/room_handlers.rs:39-66 | creating a room and leaving it removes the room again; only the counter has moved on |
| UserHandlers.Utf8Width | backend/src/global/handlers/user_handlers.rs:32 | one to four bytes per character, one exactly for ASCII |
| UserHandlers.Utf8Len | backend/src/global/handlers/user_handlers.rs:32 | `String::len` counts UTF-8 bytes: between one and four per character, zero only for the empty string |
| UserHandlers.AsciiLenIsCharCount | backend/src/global/handlers/user_handlers.rs:32 | ASCII text has one byte per character |
| UserHandlers.GetCurUser | backend/src/global/handlers/user_handlers.rs:11-22 | a copy of the caller's stored user, or "User not found" |
| UserHandlers.ChangeCurUserName | backend/src/global/handlers/user_handlers.rs:26-44 | refuses an empty name, then one over ten bytes, then an unknown caller ("User not found"), each with nothing changed; otherwise only the caller's nick name changes |
| UserHandlers.RenameThenGet | backend/src/global/handlers/user_handlers.rs:11-44 | after a rename, reading the current user shows the new name and every other field as before |
| UserHandlers.RenameKeepsWf | backend/src/global/handlers/user_handlers.rs:26-44 | renaming keeps the user manager well formed |
| UserHandlers.ShortAsciiNameAccepted | backend/src/global/handlers/user_handlers.rs:29-40 | any ASCII name of one to ten characters is accepted for a known user |
| UserHandlers.FourCjkCharactersTooLong | backend/src/global/handlers/user_handlers.rs:32-34 | the limit counts bytes: a four-character CJK name takes twelve bytes and is refused |
| Json.Index | backend/src/serialize.rs:33-34 | `value[key]` is the object's field, and `null` for a missing key or a non-object |
| Json.AsStr | backend/src/serialize.rs:33 | the text of a JSON string, otherwise `None` |
| Json.EncodeUnit | backend/src/global/handlers/room_handlers.rs:39-47 | `()` serialises to `null` |
| Json.DecodeUnit | backend/src/global/handlers/room_handlers.rs:39-47 | `()` deserialises from `null` only |
| Json.EncodeString | backend/src/global/handlers/user_handlers.rs:26 | a `String` serialises to a JSON string |
| Json.DecodeString | backend/src/global/handlers/user_handlers.rs:26 | a `String` deserialises from a JSON string only |
| Json.EncodeU32 | backend/src/global/handlers/room_handlers.rs:72 | a `u32` serialises to its number |
| Json.DecodeU32 | backend/src/global/handlers/room_handlers.rs:72 | a `u32` deserialises from an in-range integer only |
| Json.PrimitiveRoundTrips | backend/src/transport/request.rs:47-49 | the `()`, `String` and `u32` conversions invert one another |
| Registry.Register | backend/src/global/request_handler_manager.rs:25-30 | a taken name panics; otherwise the handler is added under the name and the others keep theirs |
| Registry.Lookup | backend/src/global/rsocket_manager.rs:42-44 | the registered handler, or `None` for an unknown name |
| Registry.RegisterThenLookup | backend/src/global/rsocket_manager.rs:32-44 | after registering, the name finds the new handler and other names look up as before |
| Registry.SecondRegistrationPanics | backend/src/global/request_handler_manager.rs:25-28 | registering a name twice panics on the second call |
| Registry.DistinctRegistrationsCommute | backend/src/global/request_handler_manager.rs:25-30 | registrations under different names commute |
| RSocketManager.Default | backend/src/global/rsocket_manager.rs:17-21 | both maps start empty |
| RSocketManager.AddRequestHandler | backend/src/global/rsocket_manager.rs:24-40 | panics on a name already in the request map; otherwise registers it there; the stream map is untouched |
| RSocketManager.RawHandler | backend/src/global/rsocket_manager.rs:42-44 | the optional lookup in the request map |
| RSocketManager.AddStreamHandler | backend/src/global/rsocket_manager.rs:46-62 | panics on a name already in the stream map; otherwise registers it there; the request map is untouched |
| RSocketManager.RawStreamHandler | backend/src/global/rsocket_manager.rs:64-70 | the registered stream handler; an unknown name panics, so the name must be registered |
| RSocketManager.MapsAreIndependent | backend/src/global/rsocket_manager.rs:19-62 | one name can be registered once in each map, and both lookups then succeed |
| RSocketManager.RegistrationsDoNotCross | backend/src/global/rsocket_manager.rs:24-62 | a request registration leaves stream lookups alone, and vice versa |
| RequestHandlerManager.Default | backend/src/global/request_handler_manager.rs:14-17 | the map starts empty |
| RequestHandlerManager.AddHandler | backend/src/global/request_handler_manager.rs:20-31 | panics on a registered name; otherwise the map gains the name and other entries are kept |
| RequestHandlerManager.RawHandler | backend/src/global/request_handler_manager.rs:33-35 | the registered handler; an unknown name panics, so the name must be registered |
| RequestHandlerManager.AddThenRawHandler | backend/src/global/request_handler_manager.rs:25-35 | `raw_handler` after `add_handler` returns the handler just added |
| Handler.ToRawResponse | backend/src/handler/mod.rs:55-71 | `Data(d)` becomes successful with the encoded data and no error; `Error(e)` becomes unsuccessful with no data and error `e` |
| Handler.RawResponseRoundTrip | backend/src/handler/mod.rs:55-71 | a client recovers the typed response from the raw one, for both outcomes |
| Handler.RawHandle | backend/src/handler/mod.rs:51-73 | decodes the request (`unwrap`), runs the typed handler for the same caller, and marks success exactly when the handler returned data |
| Handler.DecodeChangeUserNameRequest | backend/src/handler/user_handler.rs:8-11 | an object's string `new_name` field gives the request; a non-object, non-array value gives nothing |
| Handler.EncodeChangeUserNameResponse | backend/src/handler/user_handler.rs:12-13 | the unit response serialises to `null` |
| Handler.ChangeUserName | backend/src/handler/user_handler.rs:18-33 | a stored caller's nick name becomes the requested one, with nothing else changed, and the result is data; an unknown caller gets "user not found" and nothing changes |
| Handler.HandlerMap | backend/src/handler/mod.rs:14-20 | exactly one entry, "changeUserName" |
| Handler.RawHandleKind | backend/src/handler/mod.rs:14-73 | the mapped rename handler succeeds exactly for a stored caller and answers `null`; otherwise it reports "user not found" with the store unchanged |
| Handler.NoNameValidation | backend/src/handler/user_handler.rs:19-27 | this handler validates nothing, so even an empty name is stored, unlike the other rename handler |
| Handler.RawChangeUserName | backend/src/handler/mod.rs:51-73 | end to end, a request object's `new_name` becomes a stored caller's nick name |
| RequestTransport.HandleRaw | backend/src/transport/request.rs:45-52 | a decode failure is an error before the handler runs, so the state is untouched; a handler error is passed on; an encode failure is an error; success is the encoded response for the same caller |
| RequestTransport.HandleRawOfEncodedRequest | backend/src/transport/request.rs:45-52 | a request that encodes `q` runs the handler on `q`, and a client decodes the handler's response |
| RequestTransport.ChangeCurUserNameThroughWrapper | backend/src/transport/request.rs:45-52 | the rename handler behind the wrapper: a JSON string runs it and answers `null`; any other value is refused before it runs |
| StreamTransport.Pump | backend/src/transport/stream.rs:54-73 | forwards items in order, one encoded value each; stops at the stream's end, the first item that fails to encode, or a closed receiver |
| StreamTransport.PumpIsUnique | backend/src/transport/stream.rs:54-73 | those stopping rules determine the forwarded sequence completely |
| StreamTransport.PumpForwardsEverything | backend/src/transport/stream.rs:57-69 | with every item encodable and the receiver kept, every item is forwarded |
| StreamTransport.PumpLoop | backend/src/transport/stream.rs:57-71 | the forwarding loop produces exactly the pump's sequence |
| StreamTransport.Handle | backend/src/transport/stream.rs:50-75 | a decode failure is an immediate error; a failing handler yields no items; otherwise the receiver gets the pump's sequence |
| Serialize.ValueToPayload | backend/src/serialize.rs:19-23 | the printed value as data, with no metadata |
| Serialize.PayloadToValue | backend/src/serialize.rs:25-29 | a payload without UTF-8 data fails with "None"; unparsable text fails; otherwise the parsed value |
| Serialize.PayloadToRawRequest | backend/src/serialize.rs:31-36 | succeeds exactly when `command` is a JSON string; the data is the `data` field, `null` when absent |
| Serialize.RawResponseToValue | backend/src/serialize.rs:39-47 | always `success` with the flag; `data` exactly when there is data; `error` exactly when there is an error, as a string; no other key |
| Serialize.RawResponseToPayload | backend/src/serialize.rs:38-49 | never fails, and the data is the printed response object |
| Serialize.RawResponseRoundTrip | backend/src/serialize.rs:38-49 | a client parsing the payload recovers the raw response exactly |
| Serialize.RawRequestRoundTrip | backend/src/serialize.rs:31-36 | a request object with a string command round-trips through a payload; a missing `data` reads as `null` |
| Serialize.NonStringCommandRefused | backend/src/serialize.rs:33 | a non-string command is refused with "None" |
| ServerRSocket.RequestValue | backend/src/rsocket.rs:28-33 | absent data is `null`; present data is wrapped as a JSON string, not parsed |
| ServerRSocket.MetadataPush | backend/src/rsocket.rs:19-21 | always `Ok` |
| ServerRSocket.FireAndForget | backend/src/rsocket.rs:23-25 | always `Ok` |
| ServerRSocket.RequestResponse | backend/src/rsocket.rs:27-39 | a missing command is the "None" error; a handler error is passed on; otherwise there is one payload carrying the printed result |
| ServerRSocket.RequestStream | backend/src/rsocket.rs:41-71 | a missing command or a failing handler gives a stream of one error; otherwise one payload per value, in order |
| ServerRSocket.StreamFailureIsOneError | backend/src/rsocket.rs:48-64 | a request without a command, or one whose raw stream handler fails synchronously (as on an undecodable request), yields exactly one error item; a typed handler's own error does not reach this path |
| ServerRSocket.StreamValuesRoundTrip | backend/src/rsocket.rs:66-70 | a client parsing the stream's payloads gets the handler's values back, in order |
| ServerRSocket.ResponseValueRoundTrip | backend/src/rsocket.rs:35-38 | a client parsing the response payload gets the handler's value back |
| ServerRSocket.RequestValueDecoding | backend/src/rsocket.rs:28-33 | because data arrives as a JSON string, a `u32` request never decodes, a `()` request decodes only without data, and a `String` request gets the payload text |
| ServerRSocket.DetailStreamOutsideRoom | backend/src/transport/stream.rs:50-74 | a caller in no room who subscribes to room details gets an empty stream, not an error item, because the wrapper returns its receiver before the handler's "user not in room" error ends the task; request data, which `()` cannot decode, gives one decode error item |
| ServerRSocket.DetailStreamInRoom | backend/src/global/handlers/room_handlers.rs:112-135 | a caller in a room that has published a snapshot receives that latest snapshot as the stream's first payload; with nothing published, nothing is sent yet |
| Poker.SuitColor | backend/src/model/poker.rs:30-38 | diamonds and hearts are red; clubs and spades are black |
| Poker.OfNumericNumAndSuit | backend/src/model/poker.rs:83-92 | a numbered card has the given suit, number and id, in its suit's colour |
| Poker.OfBlackJoker | backend/src/model/poker.rs:105-114 | id 52, black, no suit, no number |
| Poker.OfRedJoker | backend/src/model/poker.rs:94-103 | id 53, red, no suit, no number |
| Poker.IsJoker | backend/src/model/poker.rs:116-118 | a card is a joker exactly when its id is 52 or 53 |
| Poker.Deck | backend/src/model/poker.rs:41-43 | the deck has 54 cards |
| Poker.DefaultCards | backend/src/model/poker.rs:45-64 | the nested loop over suits and numbers 1 to 13, then the two jokers, builds exactly the 54-card layout, so the array conversion cannot fail |
| Poker.ById | backend/src/model/poker.rs:67-69 | total over `u32`: the card at `id mod 54`, whose id is `id mod 54` |
| Poker.DeckLayout | backend/src/model/poker.rs:22-58 | every card's id is its position; position 13s+(n-1) holds number n of the s-th suit (diamonds, clubs, hearts, spades), in that suit's colour |
| Poker.JokersAreLast | backend/src/model/poker.rs:59-118 | cards 52 (black) and 53 (red) are the only jokers and the only cards without a suit |
| Poker.ByIdCycles | backend/src/model/poker.rs:67-69 | `by_id` repeats every 54 ids and finds each card by its own id |
| BaodatuiPoker.ScoreOfNumericNumber | backend/src/model/baodatui_poker.rs:3-11 | a multiple of five scores its face value, 13 scores ten, and anything else scores nothing; so every score is a multiple of five and at most the number |
| BaodatuiPoker.ScoringCards | backend/src/model/baodatui_poker.rs:3-11 | among the card numbers only 5, 10 and 13 score; a suit is worth 25 and the four suits 100 |
| BaodatuiPoker.AsI32 | backend/src/model/baodatui_poker.rs:14 | `as i32` keeps values below 2^31 and wraps larger ones to negatives |
| BaodatuiPoker.RawPowerOfNumericNumber | backend/src/model/baodatui_poker.rs:13-15 | the ace has power 14; other numbers keep their value, cast to `i32` |
| BaodatuiPoker.RawPowerRanksCards | backend/src/model/baodatui_poker.rs:13-15 | on 1 to 13 the power is one-to-one onto 2 to 14 with the ace highest; beyond 2^31 the cast turns it negative |
| BaodatuiPoker.OfPrimeSuit | backend/src/model/baodatui_poker.rs:23-28 | the given prime suit and no sub suit |
| BaodatuiPoker.OfSubSuit | backend/src/model/baodatui_poker.rs:30-35 | no prime suit and the given sub suit |
| BaodatuiPoker.IsPrime | backend/src/model/baodatui_poker.rs:37-42 | prime exactly when there is no sub suit |
| BaodatuiPoker.IsSub | backend/src/model/baodatui_poker.rs:44-46 | sub exactly when there is a sub suit |
| BaodatuiPoker.RolesOfConstructors | backend/src/model/baodatui_poker.rs:23-46 | `of_prime_suit(x)` is prime for any `x`, including none; `of_sub_suit(s)` is sub; `is_sub` is always `!is_prime` |

## Behaviour worth knowing

The model follows the code in each of these cases.

- **Name length.** The limit of ten compares `String::len`, which counts UTF-8 bytes, not characters. So a four-character name in CJK script is refused (`UserHandlers.FourCjkCharactersTooLong`).
- **Stream pump.** The `?` ends the forwarding task at the first item that fails to encode; later items are not sent (`StreamTransport.Pump`).
- **Room detail stream for a caller in no room.** The handler returns the "user not in room" error (`RoomHandlers.RoomDetailedInfoStream`). The stream wrapper has already returned its receiver when that error arrives, so the error only ends the forwarding task before any item is sent, and the client's stream is empty (`StreamTransport.Handle`, `ServerRSocket.DetailStreamOutsideRoom`).
- **Unknown command name.** `raw_handler` and `raw_stream_handler` unwrap the lookup and panic. The model requires the name to be registered (`RequestHandlerManager.RawHandler`, `RSocketManager.RawStreamHandler`).

## Left out

- Locks, `Arc`, async tasks and lock poisoning. Every operation runs atomically on a value. This leaves out the read-then-write capacity race in backend/src/global/room_manager.rs:75-80.
- The idle-room reaper that `create_room_by_user_id` spawns (backend/src/global/room_manager.rs:41-63). It is timer-driven; where it ends, `remove_room`, is modelled.
- `WatcherWrapper` and its debounce (backend/src/utils.rs). Publishing a snapshot is modelled as appending to the room's `published` log; delivery timing is not modelled.
- The forwarding task of `RoomDetailedInfoStreamHandler` (backend/src/global/handlers/room_handlers.rs:116-132). Only its not-in-room error and its first item are modelled.
- `AllRoomSimpleInfoStreamHandler` (backend/src/global/handlers/room_handlers.rs:146-193). It reads `all_rooms_simple_info_change_watch` and `all_rooms_simple_info`, which `RoomManager` does not define, and races a passive-notify timer.
- backend/src/global/settings.rs. Its values only feed the timeouts above.
- `UserManager::find_first` and `UserManager::all` (backend/src/global/user_manager.rs:66-72). They call `GlobalMap::find_first` and `GlobalMap::all`, which backend/src/data_structure/shared_map.rs does not define. `RoomManager::all` calls the same missing `all`; it is modelled only as "every stored room once, in some order".
- The handler lookups in backend/src/rsocket.rs do not match the managers' signatures.
  - The file imports a `request_handler_manager` from the rsocket manager module.
  - It calls `handle_raw` with one argument.
  - The model reads request handlers from a `RequestHandlerManager` and stream handlers from an `RSocketManager`. Both are functions from the request value to a result, without the caller's id.
  - What those handlers do to server state is not tracked at this layer.
- `StreamHandler::handle` in backend/src/transport/stream.rs takes no user id, while the room stream handlers take one. The stream wrapper is modelled on its own text.
- `request_channel` (backend/src/rsocket.rs:73-78). It is `todo!()`.
- Bootstrap and wiring: backend/src/lib.rs, backend/src/main.rs and the test client.
- Random nick names and uuids (backend/src/model/user.rs). They are parameters. The login timestamp is a plain number, and the clock is not modelled.
- Printing and parsing of JSON text. These are uninterpreted; the proofs assume only that parsing printed text gives the value back. Floating-point JSON numbers are not modelled.
- The empty `PlayConfigurations`, `TimeConfigurations` and `ScoreConfigurations` structs, and the running-game stub `cur_game`. They carry no data.
- `RSocketManager.RawStreamHandler`, `RequestHandlerManager.RawHandler`, `RoomModel.Owner`, `Handler.RawHandle`, `ServerRSocket.RequestResponse`, `ServerRSocket.RequestStream`: the source panics on an unregistered name, an empty room or an undecodable request. The model requires these cases away instead of modelling the panic.
- `SharedMap.AddPreservesWf`, `ContainerUserManager.AddUserFresh`, `UserManager.OperationsPreserveWf`, `RoomManager.CreatePreservesInv`: freshness is proved only before the `u32` counter wraps. After the wrap, `add` overwrites the entry stored under id 0.
- `ArcMap.Add`: `*cur_id += 1` panics on overflow in a debug build. It is modelled as the release build's wrap-around.
- `RoomHandlers.ChangeGameConfig`, `RoomHandlers.RoomDetailedInfoStream`: the index holds the room handle itself, while the model reads the room from the store by its id.
  - So these handlers require the caller's indexed room to be stored. `ChangeGameConfig` also requires it to be non-empty, because `owner()` panics on an empty room.
  - The manager's invariant guarantees both (`RoomHandlers.InvDefinesConfigChange`).
- `RoomManager.UpdateGameConfigsOfRoom`, `RoomHandlers.ChangeGameConfig`: the source reads a room's members through their `Arc` handles when it builds the snapshot (backend/src/model/room.rs:111-115), while the model reads them from the user manager by id.
  - So both require every member id to be stored in the user manager (`MembersKnown`).
  - Nothing outside backend/src/global/user_manager.rs removes a user once added: no handler calls `UserManager::remove_id` or `UserManager::remove`.
  - The manager's invariant implies the requirement (`RoomHandlers.InvDefinesConfigChange`).
