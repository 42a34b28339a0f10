/** The chat handlers: find-or-create a one-to-one chat, create a group,
    rename it, and add, remove or promote members. Each guard chain is kept
    in its source order; a status code other than 200/201 leaves the store
    as it was, except for the rename, which writes before it checks. */
module ChatController {
  import opened Basics
  import opened Store

  /** The result of a guarded change to one chat: the new record, or the
      status of the first guard that failed. */
  datatype Outcome = Updated(chat: Chat) | Refused(status: int)

  /** `Chat.findOne({ isGroupChat: false, participants: { $all: [a, b] } })`:
      the first one-to-one chat that has both users among its participants. */
  function FindDirectChat(chats: seq<Chat>, a: Id, b: Id): (r: Option<nat>)
    ensures r.Some? ==> r.value < |chats| && !chats[r.value].isGroupChat
                        && a in chats[r.value].participants && b in chats[r.value].participants
    ensures r.Some? ==> forall j :: 0 <= j < r.value ==>
                          chats[j].isGroupChat || a !in chats[j].participants || b !in chats[j].participants
    ensures r.None? <==> forall j :: 0 <= j < |chats| ==>
                          chats[j].isGroupChat || a !in chats[j].participants || b !in chats[j].participants
  {
    if chats == [] then None
    else if !chats[0].isGroupChat && a in chats[0].participants && b in chats[0].participants then Some(0)
    else
      match FindDirectChat(chats[1..], a, b)
      case None => None
      case Some(k) => Some(k + 1)
  }

  /** `addToGroup` once the group is found: only the admin may add, and not
      someone already in the group; the user is then appended. Reading the
      admin of a chat that has none throws, which the handler reports as 500. */
  function AddMember(g: Chat, caller: Id, userId: Id): (r: Outcome)
    ensures r == Refused(500) <==> g.groupAdmin.None?
    ensures r == Refused(403) <==> g.groupAdmin.Some? && g.groupAdmin.value != caller
    ensures r == Refused(400) <==> g.groupAdmin == Some(caller) && userId in g.participants
    ensures r.Updated? <==> g.groupAdmin == Some(caller) && userId !in g.participants
    ensures r.Updated? ==> r.chat == g.(participants := g.participants + [userId])
    ensures r.Updated? && AdminIsMember(g) ==> AdminIsMember(r.chat)
  {
    if g.groupAdmin.None? then Refused(500)
    else if g.groupAdmin.value != caller then Refused(403)
    else if userId in g.participants then Refused(400)
    else Updated(g.(participants := g.participants + [userId]))
  }

  /** `removeFromGroup` once the group is found: the admin may remove anyone
      and a member may remove themself, but the admin may not remove
      themself; every occurrence of the user is then pulled. So the admin is
      never the one removed. */
  function RemoveMember(g: Chat, caller: Id, userId: Id): (r: Outcome)
    ensures r == Refused(500) <==> g.groupAdmin.None?
    ensures r == Refused(403) <==> g.groupAdmin.Some? && g.groupAdmin.value != caller && userId != caller
    ensures r == Refused(400) <==> g.groupAdmin == Some(caller) && userId == caller
    ensures r.Updated? <==> g.groupAdmin.Some? && (g.groupAdmin.value == caller || userId == caller)
                            && !(g.groupAdmin.value == caller && userId == caller)
    ensures r.Updated? ==> userId != g.groupAdmin.value
    ensures r.Updated? ==> r.chat == g.(participants := RemoveAll(g.participants, userId))
    ensures r.Updated? ==> userId !in r.chat.participants
    ensures r.Updated? && AdminIsMember(g) ==> AdminIsMember(r.chat)
  {
    if g.groupAdmin.None? then Refused(500)
    else if g.groupAdmin.value != caller && userId != caller then Refused(403)
    else if userId == g.groupAdmin.value && caller == userId then Refused(400)
    else Updated(g.(participants := RemoveAll(g.participants, userId)))
  }

  /** `makeGroupAdmin` once the group is found: only the admin may hand over,
      and only to a member; the participants stay as they are. */
  function PromoteMember(g: Chat, caller: Id, userId: Id): (r: Outcome)
    ensures r == Refused(500) <==> g.groupAdmin.None?
    ensures r == Refused(403) <==> g.groupAdmin.Some? && g.groupAdmin.value != caller
    ensures r == Refused(400) <==> g.groupAdmin == Some(caller) && userId !in g.participants
    ensures r.Updated? <==> g.groupAdmin == Some(caller) && userId in g.participants
    ensures r.Updated? ==> r.chat == g.(groupAdmin := Some(userId))
    ensures r.Updated? ==> AdminIsMember(r.chat)
  {
    if g.groupAdmin.None? then Refused(500)
    else if g.groupAdmin.value != caller then Refused(403)
    else if userId !in g.participants then Refused(400)
    else Updated(g.(groupAdmin := Some(userId)))
  }

  /** Removing a member the admin has just added restores the group. */
  lemma AddThenRemove(g: Chat, admin: Id, userId: Id)
    requires g.groupAdmin == Some(admin) && AdminIsMember(g) && userId !in g.participants
    ensures AddMember(g, admin, userId).Updated?
    ensures RemoveMember(AddMember(g, admin, userId).chat, admin, userId) == Updated(g)
  {
    RemoveAllAppended(g.participants, userId);
  }

  /** `accessChat`: 400 without a user id; the first existing one-to-one chat
      of the two users is returned as it is (200); otherwise a new one with
      participants [caller, userId] is created (201). `freshId` is the id
      MongoDB assigns to the new document. */
  method AccessChat(db: Db, caller: Id, userId: Id, freshId: Id) returns (status: int, chat: Option<Chat>)
    requires db.Valid()
    requires freshId !in ChatIds(db.chats)
    modifies db`chats
    ensures db.Valid()
    ensures userId == "" ==> status == 400 && chat.None? && db.chats == old(db.chats)
    ensures userId != "" && FindDirectChat(old(db.chats), caller, userId).Some? ==>
              status == 200 && db.chats == old(db.chats)
              && chat == Some(old(db.chats)[FindDirectChat(old(db.chats), caller, userId).value])
    ensures userId != "" && FindDirectChat(old(db.chats), caller, userId).None? ==>
              status == 201 && chat == Some(Chat(freshId, false, "", [caller, userId], None, None))
              && db.chats == old(db.chats) + [chat.value]
  {
    if userId == "" {
      return 400, None;
    }
    var found := FindDirectChat(db.chats, caller, userId);
    if found.Some? {
      return 200, Some(db.chats[found.value]);
    }
    var created := Chat(freshId, false, "", [caller, userId], None, None);
    ChatAppended(db.chats, db.messages, created);
    db.chats := db.chats + [created];
    return 201, Some(created);
  }

  /** `createGroupChat`: 400 without a participant list or a name; the
      caller is appended unless listed; 400 when fewer than three entries
      result (duplicates count); otherwise a group whose admin is the caller
      is created (201). */
  method CreateGroupChat(db: Db, caller: Id, participants: Option<seq<Id>>, groupName: string, freshId: Id)
    returns (status: int, chat: Option<Chat>)
    requires db.Valid()
    requires freshId !in ChatIds(db.chats)
    modifies db`chats
    ensures db.Valid()
    ensures status != 201 ==> chat.None? && db.chats == old(db.chats)
    ensures participants.None? || groupName == "" ==> status == 400
    ensures participants.Some? && groupName != "" ==>
              var members := if caller in participants.value then participants.value else participants.value + [caller];
              && (status == 400 <==> |members| < 3)
              && (status == 201 <==> |members| >= 3)
              && (status == 201 ==> chat == Some(Chat(freshId, true, groupName, members, Some(caller), None))
                                    && db.chats == old(db.chats) + [chat.value])
    ensures status == 201 ==> chat.value.isGroupChat && chat.value.groupAdmin == Some(caller)
                              && caller in chat.value.participants && |chat.value.participants| >= 3
  {
    if participants.None? || groupName == "" {
      return 400, None;
    }
    var members := participants.value;
    if caller !in members {
      members := members + [caller];
    }
    if |members| < 3 {
      return 400, None;
    }
    var created := Chat(freshId, true, groupName, members, Some(caller), None);
    ChatAppended(db.chats, db.messages, created);
    db.chats := db.chats + [created];
    return 201, Some(created);
  }

  /** `updateGroupChat`: 400 without a name and 404 for a missing chat;
      otherwise the name is written first, and only then is the caller
      checked against the admin, so a non-admin's rename persists behind a
      403 (and a chat without an admin is renamed behind a 500). */
  method UpdateGroupChat(db: Db, caller: Id, groupId: Id, groupName: string) returns (status: int)
    requires db.Valid()
    modifies db`chats
    ensures db.Valid()
    ensures groupName == "" ==> status == 400 && db.chats == old(db.chats)
    ensures groupName != "" && FindChat(old(db.chats), groupId).None? ==> status == 404 && db.chats == old(db.chats)
    ensures groupName != "" && FindChat(old(db.chats), groupId).Some? ==>
              var i := FindChat(old(db.chats), groupId).value;
              var g := old(db.chats)[i];
              && db.chats == old(db.chats)[i := g.(groupName := groupName)]
              && (status == 500 <==> g.groupAdmin.None?)
              && (status == 403 <==> g.groupAdmin.Some? && g.groupAdmin.value != caller)
              && (status == 200 <==> g.groupAdmin == Some(caller))
  {
    if groupName == "" {
      return 400;
    }
    var found := FindChat(db.chats, groupId);
    if found.None? {
      return 404;
    }
    var i := found.value;
    var renamed := db.chats[i].(groupName := groupName);
    assert db.chats[i] in db.chats;
    ChatReplaced(db.chats, db.messages, i, renamed);
    db.chats := db.chats[i := renamed];
    if renamed.groupAdmin.None? {
      return 500;
    }
    if renamed.groupAdmin.value != caller {
      return 403;
    }
    return 200;
  }

  /** Writes the outcome of a guard for the chat at position `i`. */
  method Apply(db: Db, i: nat, r: Outcome) returns (status: int)
    requires db.Valid() && i < |db.chats|
    requires r.Updated? ==> r.chat.id == db.chats[i].id && r.chat.latestMessage == db.chats[i].latestMessage
                            && AdminIsMember(r.chat)
    modifies db`chats
    ensures db.Valid()
    ensures r.Refused? ==> status == r.status && db.chats == old(db.chats)
    ensures r.Updated? ==> status == 200 && db.chats == old(db.chats)[i := r.chat]
  {
    match r
    case Refused(s) =>
      return s;
    case Updated(c) =>
      ChatReplaced(db.chats, db.messages, i, c);
      db.chats := db.chats[i := c];
      return 200;
  }

  /** `addToGroup`: 404 for a missing group, then the guards of AddMember. */
  method AddToGroup(db: Db, caller: Id, groupId: Id, userId: Id) returns (status: int)
    requires db.Valid()
    modifies db`chats
    ensures db.Valid()
    ensures FindChat(old(db.chats), groupId).None? ==> status == 404 && db.chats == old(db.chats)
    ensures FindChat(old(db.chats), groupId).Some? ==>
              var i := FindChat(old(db.chats), groupId).value;
              match AddMember(old(db.chats)[i], caller, userId)
              case Refused(s) => status == s && db.chats == old(db.chats)
              case Updated(g) => status == 200 && db.chats == old(db.chats)[i := g]
  {
    var found := FindChat(db.chats, groupId);
    if found.None? {
      return 404;
    }
    assert db.chats[found.value] in db.chats;
    status := Apply(db, found.value, AddMember(db.chats[found.value], caller, userId));
  }

  /** `removeFromGroup`: 404 for a missing group, then the guards of
      RemoveMember. */
  method RemoveFromGroup(db: Db, caller: Id, groupId: Id, userId: Id) returns (status: int)
    requires db.Valid()
    modifies db`chats
    ensures db.Valid()
    ensures FindChat(old(db.chats), groupId).None? ==> status == 404 && db.chats == old(db.chats)
    ensures FindChat(old(db.chats), groupId).Some? ==>
              var i := FindChat(old(db.chats), groupId).value;
              match RemoveMember(old(db.chats)[i], caller, userId)
              case Refused(s) => status == s && db.chats == old(db.chats)
              case Updated(g) => status == 200 && db.chats == old(db.chats)[i := g]
  {
    var found := FindChat(db.chats, groupId);
    if found.None? {
      return 404;
    }
    assert db.chats[found.value] in db.chats;
    status := Apply(db, found.value, RemoveMember(db.chats[found.value], caller, userId));
  }

  /** `makeGroupAdmin`: 404 for a missing group, then the guards of
      PromoteMember. */
  method MakeGroupAdmin(db: Db, caller: Id, groupId: Id, userId: Id) returns (status: int)
    requires db.Valid()
    modifies db`chats
    ensures db.Valid()
    ensures FindChat(old(db.chats), groupId).None? ==> status == 404 && db.chats == old(db.chats)
    ensures FindChat(old(db.chats), groupId).Some? ==>
              var i := FindChat(old(db.chats), groupId).value;
              match PromoteMember(old(db.chats)[i], caller, userId)
              case Refused(s) => status == s && db.chats == old(db.chats)
              case Updated(g) => status == 200 && db.chats == old(db.chats)[i := g]
  {
    var found := FindChat(db.chats, groupId);
    if found.None? {
      return 404;
    }
    status := Apply(db, found.value, PromoteMember(db.chats[found.value], caller, userId));
  }
}
