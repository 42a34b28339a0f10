/** The Socket.IO layer of the chat server: the `onlineUsers` presence
    registry, room joins, the `new-message` fan-out and the typing relay.
    Socket.IO itself is abstracted: joining a room is recorded as a
    (socket, room) pair and every emit is appended to a log. */
module Presence {
  import opened Basics

  /** One entry of the `onlineUsers` Map: a user id and the socket id it was
      last announced on. */
  datatype Entry = Entry(userId: Id, socketId: Id)

  /** Where an emit goes: back to the emitting socket (`socket.emit`), to
      every connection (`io.emit`), or into a room excluding the emitting
      socket (`socket.in(room).emit`). */
  datatype Target = ToSocket(socketId: Id) | ToEveryone | ToRoomExcept(room: Id, except: Id)

  /** The part of a `new-message` payload the server reads: the sender's id
      and the chat's participant ids, absent when the chat carries none. */
  datatype NewMessage = NewMessage(senderId: Id, participants: Option<seq<Id>>, content: string)

  datatype Payload = NoPayload | UserIds(ids: seq<Id>) | MessagePayload(message: NewMessage) | ChatIdPayload(chatId: Id)

  datatype Emission = Emission(target: Target, event: string, payload: Payload)

  // ---------------------------------------------------------------------
  // The registry: a JavaScript Map, i.e. entries in insertion order

  /** `Array.from(onlineUsers.keys())`: one key per entry, and a user is a
      key exactly when `onlineUsers.get` finds it. */
  function Keys(r: seq<Entry>): (ks: seq<Id>)
    ensures |ks| == |r|
    ensures forall u :: u in ks <==> Lookup(r, u).Some?
  {
    var ks := seq(|r|, i requires 0 <= i < |r| => r[i].userId);
    assert forall u :: u in ks <==> Lookup(r, u).Some? by {
      forall u ensures u in ks <==> Lookup(r, u).Some? {
        LookupFinds(r, u);
        if Lookup(r, u).Some? {
          var i :| 0 <= i < |r| && r[i].userId == u;
          assert ks[i] == u;
        }
      }
    }
    ks
  }

  /** `onlineUsers.get(u)` finds a socket exactly when some entry is `u`'s. */
  lemma {:induction false} LookupFinds(r: seq<Entry>, u: Id)
    ensures Lookup(r, u).Some? <==> exists i :: 0 <= i < |r| && r[i].userId == u
  {
    if r != [] && r[0].userId != u {
      LookupFinds(r[1..], u);
      if Lookup(r, u).Some? {
        var i :| 0 <= i < |r| - 1 && r[1..][i].userId == u;
        assert r[i + 1].userId == u;
      }
      if exists i :: 0 <= i < |r| && r[i].userId == u {
        var i :| 0 <= i < |r| && r[i].userId == u;
        assert r[1..][i - 1].userId == u;
      }
    }
  }

  /** A Map holds each key once. */
  ghost predicate UniqueKeys(r: seq<Entry>)
  {
    NoDuplicates(Keys(r))
  }

  /** `onlineUsers.get(u)`. */
  function Lookup(r: seq<Entry>, u: Id): Option<Id>
  {
    if r == [] then None
    else if r[0].userId == u then Some(r[0].socketId)
    else Lookup(r[1..], u)
  }

  /** In a Map with unique keys, the entry at position `i` is what its key
      looks up. */
  lemma {:induction false} LookupAt(r: seq<Entry>, i: nat)
    requires UniqueKeys(r) && i < |r|
    ensures Lookup(r, r[i].userId) == Some(r[i].socketId)
  {
    if i > 0 {
      assert Keys(r)[0] != Keys(r)[i];
      assert Keys(r[1..]) == Keys(r)[1..];
      LookupAt(r[1..], i - 1);
    }
  }

  /** A key that no entry carries looks up nothing. */
  lemma {:induction false} LookupAbsent(r: seq<Entry>, u: Id)
    requires u !in Keys(r)
    ensures Lookup(r, u) == None
  {
    if r != [] {
      assert Keys(r) == [r[0].userId] + Keys(r[1..]);
      LookupAbsent(r[1..], u);
    }
  }

  /** What `u` looks up is decided by the entries carrying `u`. */
  lemma LookupByKey(r: seq<Entry>, u: Id, c: Id)
    requires UniqueKeys(r)
    ensures Lookup(r, u) == Some(c) <==> Entry(u, c) in r
  {
    if Entry(u, c) in r {
      var i :| 0 <= i < |r| && r[i] == Entry(u, c);
      LookupAt(r, i);
    } else if u in Keys(r) {
      var i :| 0 <= i < |r| && Keys(r)[i] == u;
      LookupAt(r, i);
    } else {
      LookupAbsent(r, u);
    }
  }

  /** `onlineUsers.set(u, s)`: an existing key keeps its position and takes
      the new socket id; a new key is appended. */
  function Put(r: seq<Entry>, u: Id, s: Id): (r': seq<Entry>)
    requires UniqueKeys(r)
    ensures UniqueKeys(r')
    ensures Keys(r') == if u in Keys(r) then Keys(r) else Keys(r) + [u]
    ensures Lookup(r', u) == Some(s)
    ensures forall v :: v != u ==> Lookup(r', v) == Lookup(r, v)
  {
    match IndexOf(Keys(r), u)
    case Some(i) =>
      var r' := r[i := Entry(u, s)];
      assert Keys(r') == Keys(r);
      LookupAt(r', i);
      forall v | v != u
        ensures Lookup(r', v) == Lookup(r, v)
      {
        if v in Keys(r) {
          var j :| 0 <= j < |r| && Keys(r)[j] == v;
          LookupAt(r, j);
          LookupAt(r', j);
        } else {
          LookupAbsent(r, v);
          LookupAbsent(r', v);
        }
      }
      r'
    case None =>
      var r' := r + [Entry(u, s)];
      assert Keys(r') == Keys(r) + [u];
      LookupAt(r', |r|);
      forall v | v != u
        ensures Lookup(r', v) == Lookup(r, v)
      {
        if v in Keys(r) {
          var j :| 0 <= j < |r| && Keys(r)[j] == v;
          LookupAt(r, j);
          LookupAt(r', j);
        } else {
          LookupAbsent(r, v);
          LookupAbsent(r', v);
        }
      }
      r'
  }

  /** `onlineUsers.delete(u)`: the entry with key `u` goes, the others keep
      their order. */
  function Delete(r: seq<Entry>, u: Id): (r': seq<Entry>)
    ensures |r'| == |r| - 1 || r' == r
    ensures forall e :: e in r' ==> e in r
    ensures u !in Keys(r) ==> r' == r
  {
    if r == [] then []
    else
      assert Keys(r)[0] == r[0].userId && Keys(r[1..]) == Keys(r)[1..];
      if r[0].userId == u then r[1..]
      else [r[0]] + Delete(r[1..], u)
  }

  /** Deleting the key of the entry at position `i` removes exactly that
      entry, since no other entry carries the key. */
  lemma {:induction false} DeleteAt(r: seq<Entry>, i: nat)
    requires UniqueKeys(r) && i < |r|
    ensures Delete(r, r[i].userId) == r[..i] + r[i + 1..]
  {
    if i > 0 {
      UniqueKeysTail(r, i);
      var t := r[1..];
      assert t[i - 1] == r[i];
      DeleteAt(t, i - 1);
      SpliceTail(r, i);
    }
  }

  /** The tail of a Map keeps its keys unique, and its head's key is not
      that of any later entry. */
  lemma UniqueKeysTail(r: seq<Entry>, i: nat)
    requires UniqueKeys(r) && 0 < i < |r|
    ensures UniqueKeys(r[1..]) && r[0].userId != r[i].userId
  {
    assert Keys(r)[0] != Keys(r)[i];
    assert Keys(r[1..]) == Keys(r)[1..];
  }

  lemma SpliceTail(r: seq<Entry>, i: nat)
    requires 0 < i < |r|
    ensures [r[0]] + (r[1..][..i - 1] + r[1..][i..]) == r[..i] + r[i + 1..]
  {
    assert r[..i] == [r[0]] + r[1..][..i - 1];
    assert r[i + 1..] == r[1..][i..];
  }

  /** Position of the first entry whose socket id is `s`: where the
      `for (const [userId, id] of onlineUsers.entries())` scan breaks. */
  function FirstWithSocket(r: seq<Entry>, s: Id): (k: Option<nat>)
    ensures k.Some? ==> k.value < |r| && r[k.value].socketId == s
    ensures k.Some? ==> forall j :: 0 <= j < k.value ==> r[j].socketId != s
    ensures k.None? <==> forall j :: 0 <= j < |r| ==> r[j].socketId != s
  {
    if r == [] then None
    else if r[0].socketId == s then Some(0)
    else
      match FirstWithSocket(r[1..], s)
      case None => None
      case Some(k) => Some(k + 1)
  }

  /** The registry after `disconnect` of socket `s`: the first entry on `s`
      is deleted, every other entry stays in place. */
  function Disconnected(r: seq<Entry>, s: Id): (r': seq<Entry>)
    ensures |r'| == |r| - 1 || r' == r
    ensures forall e :: e in r' ==> e in r
    ensures FirstWithSocket(r, s).None? ==> r' == r
    ensures FirstWithSocket(r, s).Some? ==>
              var k := FirstWithSocket(r, s).value;
              |r'| == |r| - 1 && Keys(r') == Keys(r)[..k] + Keys(r)[k + 1..]
  {
    match FirstWithSocket(r, s)
    case None => r
    case Some(k) =>
      DropOneKeeps(r, k);
      assert Keys(r[..k] + r[k + 1..]) == Keys(r)[..k] + Keys(r)[k + 1..];
      r[..k] + r[k + 1..]
  }

  /** Every entry left after dropping the one at position `k` was there. */
  lemma DropOneKeeps(r: seq<Entry>, k: nat)
    requires k < |r|
    ensures forall e :: e in r[..k] + r[k + 1..] ==> e in r
  {
    var r' := r[..k] + r[k + 1..];
    forall e | e in r' ensures e in r {
      var i :| 0 <= i < |r'| && r'[i] == e;
      assert r'[i] == r[if i < k then i else i + 1];
    }
  }

  /** Disconnecting removes at most one entry, keeps the Map's keys unique,
      and a socket that no entry carries leaves the registry as it was. */
  lemma DisconnectedShape(r: seq<Entry>, s: Id)
    requires UniqueKeys(r)
    ensures UniqueKeys(Disconnected(r, s))
    ensures (forall j :: 0 <= j < |r| ==> r[j].socketId != s) ==> Disconnected(r, s) == r
  {
    match FirstWithSocket(r, s)
    case None =>
    case Some(k) =>
      var r' := r[..k] + r[k + 1..];
      assert Keys(r') == Keys(r)[..k] + Keys(r)[k + 1..];
      forall i, j | 0 <= i < j < |r'| ensures Keys(r')[i] != Keys(r')[j] {
        var i0 := if i < k then i else i + 1;
        var j0 := if j < k then j else j + 1;
        assert Keys(r')[i] == Keys(r)[i0] && Keys(r')[j] == Keys(r)[j0];
      }
  }

  /** A user whose entry points at another socket is untouched by the
      disconnect of `s`, and so is a user on `s` whose entry comes after the
      first one on `s`; the user of the first entry on `s` goes offline. */
  lemma DisconnectedLookup(r: seq<Entry>, s: Id, u: Id)
    requires UniqueKeys(r)
    ensures Lookup(r, u).Some? && Lookup(r, u).value != s ==> Lookup(Disconnected(r, s), u) == Lookup(r, u)
    ensures FirstWithSocket(r, s).Some? && Lookup(r, u).Some? && u != r[FirstWithSocket(r, s).value].userId ==>
              Lookup(Disconnected(r, s), u) == Lookup(r, u)
    ensures FirstWithSocket(r, s).Some? && u == r[FirstWithSocket(r, s).value].userId ==> Lookup(Disconnected(r, s), u) == None
  {
    if Lookup(r, u).Some? && Lookup(r, u).value != s && FirstWithSocket(r, s).Some? {
      var k := FirstWithSocket(r, s).value;
      LookupByKey(r, r[k].userId, s);
      assert Lookup(r, r[k].userId) == Some(s);
    }
    if Lookup(r, u).Some? && (FirstWithSocket(r, s).Some? ==> u != r[FirstWithSocket(r, s).value].userId) {
      DisconnectKeepsOthers(r, s, u);
    }
    if FirstWithSocket(r, s).Some? && u == r[FirstWithSocket(r, s).value].userId {
      DisconnectDropsFirst(r, s, FirstWithSocket(r, s).value);
    }
  }

  /** The disconnect of `s` keeps every user but the one of the first entry
      on `s`. */
  lemma DisconnectKeepsOthers(r: seq<Entry>, s: Id, u: Id)
    requires UniqueKeys(r) && Lookup(r, u).Some?
    requires FirstWithSocket(r, s).Some? ==> u != r[FirstWithSocket(r, s).value].userId
    ensures Lookup(Disconnected(r, s), u) == Lookup(r, u)
  {
    DisconnectedShape(r, s);
    var r' := Disconnected(r, s);
    if FirstWithSocket(r, s).Some? {
      var k := FirstWithSocket(r, s).value;
      var c := Lookup(r, u).value;
      LookupByKey(r, u, c);
      var i :| 0 <= i < |r| && r[i] == Entry(u, c);
      assert i != k;
      assert r[i] in r' by {
        assert r'[if i < k then i else i - 1] == r[i];
      }
      LookupByKey(r', u, c);
    }
  }

  /** The disconnect of `s` takes the user of the first entry on `s` offline. */
  lemma DisconnectDropsFirst(r: seq<Entry>, s: Id, k: nat)
    requires UniqueKeys(r) && FirstWithSocket(r, s) == Some(k)
    ensures Lookup(Disconnected(r, s), r[k].userId) == None
  {
    var r' := Disconnected(r, s);
    var u := r[k].userId;
    assert Keys(r)[k] == u;
    forall j | 0 <= j < |r'| ensures Keys(r')[j] != u {
      var j0 := if j < k then j else j + 1;
      assert r'[j] == r[j0];
      assert Keys(r)[j0] != Keys(r)[k];
    }
    LookupAbsent(r', u);
  }

  /** A socket superseded by a later `setup` of the same user on another
      socket: disconnecting the old socket keeps the user online on the new
      one. */
  lemma SupersededDisconnect(r: seq<Entry>, u: Id, oldSocket: Id, newSocket: Id)
    requires UniqueKeys(r) && oldSocket != newSocket
    ensures Lookup(Disconnected(Put(Put(r, u, oldSocket), u, newSocket), oldSocket), u) == Some(newSocket)
  {
    DisconnectedLookup(Put(Put(r, u, oldSocket), u, newSocket), oldSocket, u);
  }

  // ---------------------------------------------------------------------
  // The fan-out of `new-message`

  /** The emits of `chat.participants.forEach(...)`: one `message-received`
      into the room of each participant other than the sender. */
  function Deliveries(ps: seq<Id>, m: NewMessage, socketId: Id): (es: seq<Emission>)
    ensures |es| <= |ps|
  {
    if ps == [] then []
    else
      (if ps[0] == m.senderId then [] else [Emission(ToRoomExcept(ps[0], socketId), "message-received", MessagePayload(m))])
      + Deliveries(ps[1..], m, socketId)
  }

  /** Every delivery is a `message-received` with the original payload into
      a room other than the sender's, excluding the emitting socket. */
  lemma {:induction false} DeliveriesShape(ps: seq<Id>, m: NewMessage, socketId: Id)
    ensures forall e :: e in Deliveries(ps, m, socketId) ==>
              e.target.ToRoomExcept? && e.target.except == socketId && e.target.room != m.senderId
              && e.event == "message-received" && e.payload == MessagePayload(m)
  {
    if ps != [] {
      DeliveriesShape(ps[1..], m, socketId);
    }
  }

  /** The emits for the first `i + 1` participants extend those for the
      first `i` by at most the one for participant `i`. */
  lemma DeliveriesStep(ps: seq<Id>, i: nat, m: NewMessage, socketId: Id)
    requires i < |ps|
    ensures Deliveries(ps[..i + 1], m, socketId)
            == Deliveries(ps[..i], m, socketId)
               + if ps[i] == m.senderId then [] else [Emission(ToRoomExcept(ps[i], socketId), "message-received", MessagePayload(m))]
  {
    assert ps[..i + 1] == ps[..i] + [ps[i]];
    DeliveriesAppend(ps[..i], [ps[i]], m, socketId);
    assert [ps[i]][1..] == [];
  }

  /** The whole handler: nothing when the chat has no participant list. */
  function FanOut(m: NewMessage, socketId: Id): (es: seq<Emission>)
    ensures m.participants.None? ==> es == []
    ensures m.participants.Some? ==> Rooms(es) == RemoveAll(m.participants.value, m.senderId)
    ensures forall e :: e in es ==>
              e.target.ToRoomExcept? && e.target.except == socketId && e.target.room != m.senderId
              && e.event == "message-received" && e.payload == MessagePayload(m)
  {
    match m.participants
    case None => []
    case Some(ps) =>
      DeliveriesReachRecipients(ps, m, socketId);
      DeliveriesShape(ps, m, socketId);
      Deliveries(ps, m, socketId)
  }

  /** With a participant list, the handler's emits are the deliveries to
      that whole list. */
  lemma FanOutSome(m: NewMessage, ps: seq<Id>, socketId: Id)
    requires m.participants == Some(ps)
    ensures FanOut(m, socketId) == Deliveries(ps[..|ps|], m, socketId)
  {
    assert ps[..|ps|] == ps;
  }

  /** The rooms a sequence of emits is addressed to, in order. */
  function Rooms(es: seq<Emission>): seq<Id>
  {
    if es == [] then []
    else (if es[0].target.ToRoomExcept? then [es[0].target.room] else []) + Rooms(es[1..])
  }

  lemma {:induction false} DeliveriesAppend(a: seq<Id>, b: seq<Id>, m: NewMessage, socketId: Id)
    ensures Deliveries(a + b, m, socketId) == Deliveries(a, m, socketId) + Deliveries(b, m, socketId)
  {
    if a != [] {
      assert (a + b)[1..] == a[1..] + b;
      DeliveriesAppend(a[1..], b, m, socketId);
    } else {
      assert a + b == b;
    }
  }

  lemma {:induction false} RoomsAppend(a: seq<Emission>, b: seq<Emission>)
    ensures Rooms(a + b) == Rooms(a) + Rooms(b)
  {
    if a != [] {
      assert (a + b)[1..] == a[1..] + b;
      RoomsAppend(a[1..], b);
    } else {
      assert a + b == b;
    }
  }

  /** The recipients of a `new-message` are exactly the participants other
      than the sender, in participant order (a participant listed twice is
      notified twice); every emit is a `message-received` carrying the
      original payload, sent from the emitting socket. */
  lemma {:induction false} DeliveriesReachRecipients(ps: seq<Id>, m: NewMessage, socketId: Id)
    ensures Rooms(Deliveries(ps, m, socketId)) == RemoveAll(ps, m.senderId)
  {
    if ps != [] {
      var head := if ps[0] == m.senderId then [] else [Emission(ToRoomExcept(ps[0], socketId), "message-received", MessagePayload(m))];
      DeliveriesReachRecipients(ps[1..], m, socketId);
      RoomsAppend(head, Deliveries(ps[1..], m, socketId));
      assert Rooms(head) == (if ps[0] == m.senderId then [] else [ps[0]]) by {
        if head != [] { assert head[1..] == []; }
      }
    }
  }

  /** The sender's own room never receives its message, and a payload whose
      chat has no participant list produces no emit at all. */
  lemma SenderNeverNotified(m: NewMessage, socketId: Id)
    ensures m.senderId !in Rooms(FanOut(m, socketId))
    ensures m.participants.None? ==> FanOut(m, socketId) == []
  {
    if m.participants.Some? {
      DeliveriesReachRecipients(m.participants.value, m, socketId);
    }
  }

  // ---------------------------------------------------------------------
  // The connection handlers

  /** The state `module.exports = (io) => { ... }` closes over, together
      with the transport's view: which socket joined which room, and the
      log of everything emitted. */
  class Hub {
    var registry: seq<Entry>
    var joined: set<(Id, Id)>
    var emitted: seq<Emission>

    ghost predicate Valid()
      reads this
    {
      UniqueKeys(registry)
    }

    constructor ()
      ensures Valid()
      ensures registry == [] && joined == {} && emitted == []
    {
      registry := [];
      joined := {};
      emitted := [];
    }

    /** `setup`: join the personal room, acknowledge, register the user on
        this socket (overwriting an earlier socket) and broadcast the
        online list. */
    method Setup(socketId: Id, userId: Id)
      requires Valid()
      modifies this
      ensures Valid()
      ensures registry == Put(old(registry), userId, socketId)
      ensures joined == old(joined) + {(socketId, userId)}
      ensures emitted == old(emitted) + [Emission(ToSocket(socketId), "connected", NoPayload),
                                         Emission(ToEveryone, "online-users", UserIds(Keys(registry)))]
    {
      joined := joined + {(socketId, userId)};
      emitted := emitted + [Emission(ToSocket(socketId), "connected", NoPayload)];
      registry := Put(registry, userId, socketId);
      emitted := emitted + [Emission(ToEveryone, "online-users", UserIds(Keys(registry)))];
    }

    /** `join-chat`: the socket joins the chat's room. */
    method JoinChat(socketId: Id, chatId: Id)
      modifies this`joined
      ensures joined == old(joined) + {(socketId, chatId)}
    {
      joined := joined + {(socketId, chatId)};
    }

    /** `new-message`: relay the payload into the personal room of every
        participant but the sender. */
    method OnNewMessage(socketId: Id, m: NewMessage)
      modifies this`emitted
      ensures emitted == old(emitted) + FanOut(m, socketId)
    {
      match m.participants {
        case None =>
          return;
        case Some(ps) =>
          var i := 0;
          while i < |ps|
            invariant 0 <= i <= |ps|
            invariant emitted == old(emitted) + Deliveries(ps[..i], m, socketId)
          {
            if ps[i] != m.senderId {
              emitted := emitted + [Emission(ToRoomExcept(ps[i], socketId), "message-received", MessagePayload(m))];
            }
            DeliveriesStep(ps, i, m, socketId);
            i := i + 1;
          }
          FanOutSome(m, ps, socketId);
      }
    }

    /** `typing`: echo the chat id into the chat's room, except this socket. */
    method OnTyping(socketId: Id, chatId: Id)
      modifies this`emitted
      ensures emitted == old(emitted) + [Emission(ToRoomExcept(chatId, socketId), "typing", ChatIdPayload(chatId))]
    {
      emitted := emitted + [Emission(ToRoomExcept(chatId, socketId), "typing", ChatIdPayload(chatId))];
    }

    /** `stop-typing`: likewise with the `stop-typing` event. */
    method OnStopTyping(socketId: Id, chatId: Id)
      modifies this`emitted
      ensures emitted == old(emitted) + [Emission(ToRoomExcept(chatId, socketId), "stop-typing", ChatIdPayload(chatId))]
    {
      emitted := emitted + [Emission(ToRoomExcept(chatId, socketId), "stop-typing", ChatIdPayload(chatId))];
    }

    /** `disconnect`: scan the registry in insertion order, delete the first
        entry on this socket, broadcast the online list and stop; when no
        entry is on this socket nothing changes and nothing is emitted. */
    method Disconnect(socketId: Id)
      requires Valid()
      modifies this`registry, this`emitted
      ensures Valid()
      ensures registry == Disconnected(old(registry), socketId)
      ensures FirstWithSocket(old(registry), socketId).None? ==> emitted == old(emitted)
      ensures FirstWithSocket(old(registry), socketId).Some? ==>
                emitted == old(emitted) + [Emission(ToEveryone, "online-users", UserIds(Keys(registry)))]
    {
      DisconnectedShape(registry, socketId);
      var i := 0;
      while i < |registry|
        invariant 0 <= i <= |registry|
        invariant registry == old(registry) && emitted == old(emitted)
        invariant forall j :: 0 <= j < i ==> registry[j].socketId != socketId
      {
        if registry[i].socketId == socketId {
          DeleteAt(registry, i);
          registry := Delete(registry, registry[i].userId);
          emitted := emitted + [Emission(ToEveryone, "online-users", UserIds(Keys(registry)))];
          return;
        }
        i := i + 1;
      }
    }
  }
}
