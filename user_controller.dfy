/** The friend-request handlers and the username guard of `updateProfile`.
    The caller is the authenticated user, whose record the `protect`
    middleware has loaded, so it is always in the store. Consecutive saves of
    one request are applied in order. */
module UserController {
  import opened Basics
  import opened Store
  import FieldValidation

  /** `sendFriendRequest`: 400 to oneself, 404 for a missing receiver, 400
      when already friends, 400 when already requested; otherwise the caller
      is appended to the receiver's pending requests and nothing else
      changes. */
  method SendFriendRequest(db: Db, caller: Id, receiverId: Id) returns (status: int)
    requires db.Valid() && caller in db.users
    modifies db`users
    ensures db.Valid()
    ensures receiverId == caller ==> status == 400
    ensures receiverId != caller && receiverId !in old(db.users) ==> status == 404
    ensures receiverId != caller && receiverId in old(db.users) ==>
              var r := old(db.users)[receiverId];
              && (caller in r.friends ==> status == 400)
              && (caller !in r.friends && caller in r.friendRequests ==> status == 400)
              && (caller !in r.friends && caller !in r.friendRequests ==> status == 200)
    ensures status != 200 ==> db.users == old(db.users)
    ensures status == 200 ==>
              db.users == old(db.users)[receiverId := old(db.users)[receiverId].(
                            friendRequests := old(db.users)[receiverId].friendRequests + [caller])]
  {
    if receiverId == caller {
      return 400;
    }
    if receiverId !in db.users {
      return 404;
    }
    var receiver := db.users[receiverId];
    if caller in receiver.friends {
      return 400;
    }
    if caller in receiver.friendRequests {
      return 400;
    }
    receiver := receiver.(friendRequests := receiver.friendRequests + [caller]);
    db.users := db.users[receiverId := receiver];
    return 200;
  }

  /** The users after `acceptFriendRequest` of `b`'s request by `a`: `b`
      joins `a`'s friends and leaves `a`'s requests, then `a` joins `b`'s
      friends. */
  function Befriend(users: map<Id, User>, a: Id, b: Id): (r: map<Id, User>)
    requires a in users && b in users
    ensures r.Keys == users.Keys
    ensures forall x :: x in users && x != a && x != b ==> r[x] == users[x]
  {
    var u := users[a].(friends := users[a].friends + [b], friendRequests := RemoveAll(users[a].friendRequests, b));
    var afterA := users[a := u];
    afterA[b := afterA[b].(friends := afterA[b].friends + [a])]
  }

  /** Accepting makes the two users friends of each other and drops the
      request; no other friendship and no other pending request changes. */
  lemma BefriendEffect(users: map<Id, User>, a: Id, b: Id)
    requires a in users && b in users && a != b
    ensures b in Befriend(users, a, b)[a].friends && a in Befriend(users, a, b)[b].friends
    ensures b !in Befriend(users, a, b)[a].friendRequests
    ensures forall x :: x in users && x != a ==> Befriend(users, a, b)[x].friendRequests == users[x].friendRequests
    ensures forall y :: y != b ==> (y in Befriend(users, a, b)[a].friendRequests <==> y in users[a].friendRequests)
    ensures forall x, y :: x in users ==>
              (y in Befriend(users, a, b)[x].friends <==>
               y in users[x].friends || (x == a && y == b) || (x == b && y == a))
  {
  }

  /** Accepting a pending request keeps friendship mutual and among
      existing users. */
  lemma BefriendKeepsUsersValid(users: map<Id, User>, a: Id, b: Id)
    requires UsersValid(users) && a in users && b in users && b in users[a].friendRequests
    ensures UsersValid(Befriend(users, a, b))
  {
    assert a != b;
    BefriendEffect(users, a, b);
  }

  /** `acceptFriendRequest`: 404 for a missing sender, 400 when the caller
      has no pending request from them; otherwise the users become
      Befriend of the old ones. */
  method AcceptFriendRequest(db: Db, caller: Id, senderId: Id) returns (status: int)
    requires db.Valid() && caller in db.users
    modifies db`users
    ensures db.Valid()
    ensures senderId !in old(db.users) ==> status == 404
    ensures senderId in old(db.users) && senderId !in old(db.users)[caller].friendRequests ==> status == 400
    ensures status == 200 <==> senderId in old(db.users) && senderId in old(db.users)[caller].friendRequests
    ensures status != 200 ==> db.users == old(db.users)
    ensures status == 200 ==> senderId != caller && db.users == Befriend(old(db.users), caller, senderId)
  {
    if senderId !in db.users {
      return 404;
    }
    var user := db.users[caller];
    if senderId !in user.friendRequests {
      return 400;
    }
    BefriendKeepsUsersValid(db.users, caller, senderId);
    user := user.(friends := user.friends + [senderId]);
    user := user.(friendRequests := RemoveAll(user.friendRequests, senderId));
    db.users := db.users[caller := user];
    var sender := db.users[senderId];
    sender := sender.(friends := sender.friends + [caller]);
    db.users := db.users[senderId := sender];
    return 200;
  }

  /** `rejectFriendRequest`: 400 when there is no pending request from the
      sender; otherwise every request from them is dropped and the friend
      lists are untouched. */
  method RejectFriendRequest(db: Db, caller: Id, senderId: Id) returns (status: int)
    requires db.Valid() && caller in db.users
    modifies db`users
    ensures db.Valid()
    ensures status == 400 <==> senderId !in old(db.users)[caller].friendRequests
    ensures status == 200 <==> senderId in old(db.users)[caller].friendRequests
    ensures status != 200 ==> db.users == old(db.users)
    ensures status == 200 ==>
              db.users == old(db.users)[caller := old(db.users)[caller].(
                            friendRequests := RemoveAll(old(db.users)[caller].friendRequests, senderId))]
  {
    var user := db.users[caller];
    if senderId !in user.friendRequests {
      return 400;
    }
    user := user.(friendRequests := RemoveAll(user.friendRequests, senderId));
    db.users := db.users[caller := user];
    return 200;
  }

  /** The users after `removeFriend(a, b)`: `b` is pulled from `a`'s
      friends, then `a` from `b`'s when `b` exists. */
  function Unfriend(users: map<Id, User>, a: Id, b: Id): (r: map<Id, User>)
    requires a in users
    ensures r.Keys == users.Keys
    ensures forall x :: x in users && x != a && x != b ==> r[x] == users[x]
  {
    var afterA := users[a := users[a].(friends := RemoveAll(users[a].friends, b))];
    if b in afterA then afterA[b := afterA[b].(friends := RemoveAll(afterA[b].friends, a))] else afterA
  }

  /** After `removeFriend(a, b)` exactly the friendship between `a` and `b`
      is gone, in both directions; all pending requests and every other
      friendship are as before. */
  lemma UnfriendEffect(users: map<Id, User>, a: Id, b: Id)
    requires a in users
    ensures forall x :: x in users ==> Unfriend(users, a, b)[x].friendRequests == users[x].friendRequests
    ensures forall x, y :: x in users ==>
              (y in Unfriend(users, a, b)[x].friends <==>
               y in users[x].friends && !(x == a && y == b) && !(x == b && y == a))
  {
  }

  /** `removeFriend` keeps friendship mutual. */
  lemma UnfriendKeepsUsersValid(users: map<Id, User>, a: Id, b: Id)
    requires UsersValid(users) && a in users
    ensures UsersValid(Unfriend(users, a, b))
  {
    UnfriendEffect(users, a, b);
  }

  /** `removeFriend`: each user is pulled from the other's friends (an
      update of a missing user changes nothing); it succeeds whether or not
      they were friends. */
  method RemoveFriend(db: Db, caller: Id, friendId: Id) returns (status: int)
    requires db.Valid() && caller in db.users
    modifies db`users
    ensures db.Valid()
    ensures status == 200
    ensures db.users == Unfriend(old(db.users), caller, friendId)
  {
    UnfriendKeepsUsersValid(db.users, caller, friendId);
    var user := db.users[caller];
    db.users := db.users[caller := user.(friends := RemoveAll(user.friends, friendId))];
    if friendId in db.users {
      var friend := db.users[friendId];
      db.users := db.users[friendId := friend.(friends := RemoveAll(friend.friends, caller))];
    }
    return 200;
  }

  /** `updateProfile`: a requested username already held by another user is
      refused with 400; otherwise the fields that were sent are written
      (`None` for a field the request leaves out). The schema trims the
      username, both in the `findOne` filter and in the `$set`, while the
      truthiness guard sees the name as sent. The unique index on
      `username` refuses a write that would duplicate a name, and the
      handler's `catch` answers 500: only the empty name, which skips the
      guard, can reach it. So a stored name is held by no other user. */
  method UpdateProfile(db: Db, caller: Id, username: Option<string>, avatar: Option<string>) returns (status: int)
    requires db.Valid() && caller in db.users
    modifies db`users
    ensures db.Valid()
    ensures status == 400 <==> username.Some? && username.value != ""
                               && HeldByOther(old(db.users), caller, FieldValidation.Trim(username.value))
    ensures status == 500 <==> username.Some? && username.value == "" && HeldByOther(old(db.users), caller, "")
    ensures status == 400 || status == 500 || status == 200
    ensures status != 200 ==> db.users == old(db.users)
    ensures status == 200 ==>
              var u := old(db.users)[caller];
              db.users == old(db.users)[caller := u.(username := if username.Some? then FieldValidation.Trim(username.value) else u.username,
                                                     avatar := if avatar.Some? then avatar.value else u.avatar)]
    ensures status == 200 && username.Some? ==> UniqueName(db.users, caller)
  {
    var name := db.users[caller].username;
    if username.Some? {
      name := FieldValidation.Trim(username.value);
      if username.value != "" && HeldByOther(db.users, caller, name) {
        return 400;
      }
      assert username.value == "" ==> name == "";
      if HeldByOther(db.users, caller, name) {
        return 500;
      }
    }
    var u := db.users[caller].(username := name, avatar := if avatar.Some? then avatar.value else db.users[caller].avatar);
    ProfileWritten(db.users, caller, u);
    db.users := db.users[caller := u];
    return 200;
  }

  /** Some user other than `caller` already holds `name`: what the
      `findOne({ username, _id: { $ne: caller } })` query, and the unique
      index, look for. */
  predicate HeldByOther(users: map<Id, User>, caller: Id, name: string)
  {
    exists x :: x in users && x != caller && users[x].username == name
  }

  /** Nobody but `caller` holds `caller`'s name. */
  predicate UniqueName(users: map<Id, User>, caller: Id)
    requires caller in users
  {
    forall x :: x in users && x != caller ==> users[x].username != users[caller].username
  }

  /** Rewriting a user's name or avatar leaves friendships and requests, and
      so the user invariant, as they were; a name nobody else held stays the
      writer's alone. */
  lemma ProfileWritten(users: map<Id, User>, caller: Id, u: User)
    requires UsersValid(users) && caller in users
    requires u.friends == users[caller].friends && u.friendRequests == users[caller].friendRequests
    ensures UsersValid(users[caller := u])
    ensures !HeldByOther(users, caller, u.username) ==> UniqueName(users[caller := u], caller)
  {
  }
}
