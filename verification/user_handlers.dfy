/** The user request handlers of the global user manager
    (backend/src/global/handlers/user_handlers.rs).

    Names are Rust `String`s, whose `len` counts UTF-8 bytes, not
    characters; a Dafny `char` is a Unicode scalar value, so the byte count
    is computed from each character's UTF-8 width. */
module UserHandlers {
  import opened Base
  import opened UserModel
  import SharedMap
  import UserManager

  /** The longest accepted name, in UTF-8 bytes. */
  const MAX_NAME_BYTES: nat := 10

  /** Bytes in the UTF-8 encoding of one scalar value. */
  function Utf8Width(c: char): (w: nat)
    ensures 1 <= w <= 4
    ensures (c as int) < 0x80 <==> w == 1
  {
    if (c as int) < 0x80 then 1
    else if (c as int) < 0x800 then 2
    else if (c as int) < 0x1_0000 then 3
    else 4
  }

  /** `String::len`: the length of the UTF-8 encoding. */
  function Utf8Len(s: string): (n: nat)
    ensures |s| <= n <= 4 * |s|
    ensures n == 0 <==> |s| == 0
  {
    if |s| == 0 then 0 else Utf8Width(s[0]) + Utf8Len(s[1..])
  }

  /** ASCII text has one byte per character. */
  lemma {:induction false} AsciiLenIsCharCount(s: string)
    requires forall i :: 0 <= i < |s| ==> (s[i] as int) < 0x80
    ensures Utf8Len(s) == |s|
  {
    if |s| > 0 {
      AsciiLenIsCharCount(s[1..]);
    }
  }

  /** `GetCurUserHandler`: a copy of the caller's user, or "User not found". */
  function GetCurUser(um: UserManager.Manager, uid: U32): (r: Result<User>)
    ensures r.Ok? <==> UserManager.ContainsId(um, uid)
    ensures r.Ok? ==> r.value == um.idMap.entries[uid]
    ensures r.Err? ==> r.error == UserNotFound
  {
    match UserManager.Get(um, uid)
    case None => Err(UserNotFound)
    case Some(u) => Ok(u)
  }

  /** `ChangeCurUserNameHandler`: rejects an empty name, then a name longer
      than ten bytes, then an unknown caller; otherwise replaces the
      caller's nick name in place. The name is not checked against other
      users' names. */
  function ChangeCurUserName(um: UserManager.Manager, uid: U32, name: string): (r: (UserManager.Manager, Result<Unit>))
    ensures r.1.Err? ==> r.0 == um
    ensures name == [] ==> r.1 == Err(EmptyUserName)
    ensures name != [] && Utf8Len(name) > MAX_NAME_BYTES ==> r.1 == Err(NameTooLong)
    ensures name != [] && Utf8Len(name) <= MAX_NAME_BYTES && !UserManager.ContainsId(um, uid) ==> r.1 == Err(UserNotFound)
    ensures r.1.Ok? <==> name != [] && Utf8Len(name) <= MAX_NAME_BYTES && UserManager.ContainsId(um, uid)
    ensures r.1.Ok? ==>
      && r.0.uuidMap == um.uuidMap
      && r.0.idMap.curId == um.idMap.curId
      && r.0.idMap.entries == um.idMap.entries[uid := um.idMap.entries[uid].(nickName := name)]
  {
    if |name| == 0 then (um, Err(EmptyUserName))
    else if Utf8Len(name) > MAX_NAME_BYTES then (um, Err(NameTooLong))
    else
      match UserManager.Get(um, uid)
      case None => (um, Err(UserNotFound))
      case Some(u) =>
        var idMap := um.idMap.(entries := um.idMap.entries[uid := u.(nickName := name)]);
        (um.(idMap := idMap), Ok(Unit))
  }

  /** After a successful rename, reading the current user shows the new
      name and every other field as before. */
  lemma RenameThenGet(um: UserManager.Manager, uid: U32, name: string)
    requires ChangeCurUserName(um, uid, name).1.Ok?
    ensures var u := GetCurUser(ChangeCurUserName(um, uid, name).0, uid);
      && u.Ok?
      && u.value.nickName == name
      && u.value == GetCurUser(um, uid).value.(nickName := name)
  {
  }

  /** Renaming keeps the user manager well formed: neither ids nor uuids change. */
  lemma RenameKeepsWf(um: UserManager.Manager, uid: U32, name: string)
    requires UserManager.Wf(um)
    ensures UserManager.Wf(ChangeCurUserName(um, uid, name).0)
  {
    var (um', res) := ChangeCurUserName(um, uid, name);
    if res.Ok? {
      forall k | k in um'.idMap.entries
        ensures k < um'.idMap.curId && UserIds.id(um'.idMap.entries[k]) == k
      {
      }
    }
  }

  /** Any ASCII name of one to ten characters is accepted for a known user. */
  lemma ShortAsciiNameAccepted(um: UserManager.Manager, uid: U32, name: string)
    requires UserManager.ContainsId(um, uid)
    requires 0 < |name| <= 10
    requires forall i :: 0 <= i < |name| ==> (name[i] as int) < 0x80
    ensures ChangeCurUserName(um, uid, name).1 == Ok(Unit)
  {
    AsciiLenIsCharCount(name);
  }

  /** The limit counts bytes: a four-character name in CJK script takes
      twelve bytes and is refused as too long. */
  lemma FourCjkCharactersTooLong(um: UserManager.Manager, uid: U32)
    ensures var name := "\U{5F20}\U{4F1F}\U{660E}\U{5FB7}";
      && |name| == 4
      && Utf8Len(name) == 12
      && ChangeCurUserName(um, uid, name) == (um, Err(NameTooLong))
  {
    var name := "\U{5F20}\U{4F1F}\U{660E}\U{5FB7}";
    assert Utf8Len(name[3..]) == 3;
    assert Utf8Len(name[2..]) == 6;
    assert Utf8Len(name[1..]) == 9;
  }
}
