/** The message handlers: send, the paginated history, read receipts,
    unread counts and deletion with the re-pointing of `latestMessage`. */
module MessageController {
  import opened Basics
  import opened Store

  // ---------------------------------------------------------------------
  // sendMessage

  /** `sendMessage`: 400 without content or chat id, 404 for a missing chat,
      403 when the caller is not a participant; otherwise the message is
      stored (201) and becomes the chat's `latestMessage`. `freshId` is the
      id MongoDB assigns to the new message. */
  method SendMessage(db: Db, caller: Id, content: string, chatId: Id, freshId: Id)
    returns (status: int, message: Option<Message>)
    requires db.Valid()
    requires freshId !in MessageIds(db.messages)
    modifies db`chats, db`messages
    ensures db.Valid()
    ensures content == "" || chatId == "" ==> status == 400
    ensures content != "" && chatId != "" && FindChat(old(db.chats), chatId).None? ==> status == 404
    ensures content != "" && chatId != "" && FindChat(old(db.chats), chatId).Some? ==>
              var i := FindChat(old(db.chats), chatId).value;
              && (caller !in old(db.chats)[i].participants ==> status == 403)
              && (caller in old(db.chats)[i].participants ==>
                    status == 201
                    && message == Some(Message(freshId, caller, chatId, content, []))
                    && db.messages == old(db.messages) + [message.value]
                    && db.chats == old(db.chats)[i := old(db.chats)[i].(latestMessage := Some(freshId))])
    ensures status != 201 ==> message.None? && db.chats == old(db.chats) && db.messages == old(db.messages)
  {
    if content == "" || chatId == "" {
      return 400, None;
    }
    var found := FindChat(db.chats, chatId);
    if found.None? {
      return 404, None;
    }
    var i := found.value;
    if caller !in db.chats[i].participants {
      return 403, None;
    }
    var m := Message(freshId, caller, chatId, content, []);
    MessageAppended(db.chats, db.messages, i, m);
    db.messages := db.messages + [m];
    db.chats := db.chats[i := db.chats[i].(latestMessage := Some(freshId))];
    return 201, Some(m);
  }

  /** Storing a new message of chat `i` and making it that chat's latest
      keeps the store's invariants. */
  lemma MessageAppended(chats: seq<Chat>, ms: seq<Message>, i: nat, m: Message)
    requires ChatsValid(chats) && MessagesValid(chats, ms)
    requires i < |chats| && m.chat == chats[i].id && m.id !in MessageIds(ms) && m.readBy == []
    ensures ChatsValid(chats[i := chats[i].(latestMessage := Some(m.id))])
    ensures MessagesValid(chats[i := chats[i].(latestMessage := Some(m.id))], ms + [m])
  {
    var chats' := chats[i := chats[i].(latestMessage := Some(m.id))];
    var ms' := ms + [m];
    assert ChatIds(chats') == ChatIds(chats);
    assert MessageIds(ms') == MessageIds(ms) + [m.id];
    assert NoDuplicates(MessageIds(ms')) by {
      forall a, b | 0 <= a < b < |ms'| ensures MessageIds(ms')[a] != MessageIds(ms')[b] {
        if b == |ms| {
          assert MessageIds(ms)[a] in MessageIds(ms);
        }
      }
    }
    assert ms'[..|ms'| - 1] == ms;
    assert chats[i] in chats;
    forall x | x in ms' ensures x.chat in ChatIds(chats') && NoDuplicates(x.readBy) {
      if x != m {
        assert x in ms;
      } else {
        assert ChatIds(chats)[i] == m.chat;
      }
    }
    forall c | c in chats' ensures c.latestMessage == Newest(ms', c.id) {
      var k :| 0 <= k < |chats'| && chats'[k] == c;
      if k != i {
        assert chats[k] in chats;
        assert ChatIds(chats)[k] != ChatIds(chats)[i];
      }
    }
  }

  // ---------------------------------------------------------------------
  // getMessages

  /** `parseInt(req.query.page) || 1`: an unparsable (None) or zero page
      becomes 1; anything else, negative numbers included, is kept. */
  function PageNumber(parsed: Option<int>): (page: int)
    ensures page != 0
    ensures parsed.Some? && parsed.value != 0 ==> page == parsed.value
    ensures parsed.None? || parsed.value == 0 ==> page == 1
  {
    match parsed
    case None => 1
    case Some(p) => if p == 0 then 1 else p
  }

  /** `parseInt(req.query.limit) || 50`. */
  function PageLimit(parsed: Option<int>): (limit: int)
    ensures limit != 0
    ensures parsed.Some? && parsed.value != 0 ==> limit == parsed.value
    ensures parsed.None? || parsed.value == 0 ==> limit == 50
  {
    match parsed
    case None => 50
    case Some(l) => if l == 0 then 50 else l
  }

  /** `Math.ceil(total / limit)`, on integers. */
  function CeilDiv(total: nat, limit: int): (pages: int)
    requires limit != 0
    ensures limit > 0 ==> (pages - 1) * limit < total <= pages * limit
    ensures limit < 0 ==> pages * limit <= total < (pages - 1) * limit
  {
    if limit > 0 then
      var q := (total + limit - 1) / limit;
      DivBounds(total + limit - 1, limit);
      q
    else
      var q := total / -limit;
      DivBounds(total, -limit);
      -q
  }

  /** The defining inequalities of Euclidean division by a positive divisor. */
  lemma DivBounds(n: nat, d: int)
    requires d > 0
    ensures (n / d) * d <= n < (n / d) * d + d
  {
  }

  /** Reverse order, as `sort({ createdAt: -1 })` gives it and as
      `messages.reverse()` undoes it. */
  function Reversed(s: seq<Message>): (r: seq<Message>)
  {
    seq(|s|, i requires 0 <= i < |s| => s[|s| - 1 - i])
  }

  /** `.sort({ createdAt: -1 }).skip(skip).limit(count)` followed by
      `.reverse()`: a window of the newest-first order, returned oldest
      first. */
  function Window(all: seq<Message>, skip: nat, count: nat): (w: seq<Message>)
    ensures |w| <= count && |w| <= |all|
    ensures skip >= |all| ==> w == []
  {
    var newestFirst := Reversed(all);
    var hi := if skip + count <= |all| then skip + count else |all|;
    if skip >= |all| then [] else Reversed(newestFirst[skip..hi])
  }

  /** A page is a contiguous run of the chronological history: it ends
      `skip` messages before the newest and holds at most `count` of them. */
  lemma WindowIsChronologicalSlice(all: seq<Message>, skip: nat, count: nat)
    ensures var n := |all|;
            var lo := if skip + count <= n then n - skip - count else 0;
            var hi := if skip <= n then n - skip else 0;
            Window(all, skip, count) == all[lo..hi]
  {
    var n := |all|;
    if skip < n {
      var top := if skip + count <= n then skip + count else n;
      var part := Reversed(all)[skip..top];
      var w := Reversed(part);
      assert Window(all, skip, count) == w;
      assert |w| == top - skip;
      forall k | 0 <= k < |w| ensures w[k] == all[n - top + k] {
        calc {
          w[k];
          part[|part| - 1 - k];
          Reversed(all)[skip + |part| - 1 - k];
          all[n - 1 - (skip + |part| - 1 - k)];
        }
      }
      assert w == all[n - top..n - skip];
    }
  }

  /** The messages of a chat are exactly the stored messages that belong
      to it. */
  lemma {:induction false} ChatMessagesMembers(ms: seq<Message>, chatId: Id)
    ensures forall m :: m in ChatMessages(ms, chatId) <==> m in ms && m.chat == chatId
  {
    if ms != [] {
      ChatMessagesMembers(ms[..|ms| - 1], chatId);
      assert ms == ms[..|ms| - 1] + [ms[|ms| - 1]];
    }
  }

  /** Filtering by chat distributes over concatenation: the chat's messages
      keep their stored (creation) order, each as often as it is stored. */
  lemma {:induction false} ChatMessagesConcat(a: seq<Message>, b: seq<Message>, chatId: Id)
    ensures ChatMessages(a + b, chatId) == ChatMessages(a, chatId) + ChatMessages(b, chatId)
  {
    if b != [] {
      var n := |b|;
      assert (a + b)[..|a + b| - 1] == a + b[..n - 1];
      assert (a + b)[|a + b| - 1] == b[n - 1];
      ChatMessagesConcat(a, b[..n - 1], chatId);
    } else {
      assert a + b == a;
    }
  }

  /** The response of `getMessages`. */
  datatype Pagination = Pagination(total: nat, page: int, pages: int)
  datatype History = HistoryRefused(status: int) | History(messages: seq<Message>, pagination: Pagination)

  /** `getMessages`: 404 for a missing chat, 403 for a non-participant;
      MongoDB refuses a negative skip (500) and reads a negative limit as its
      magnitude. */
  function GetMessages(chats: seq<Chat>, ms: seq<Message>, caller: Id, chatId: Id,
                       pageParam: Option<int>, limitParam: Option<int>): (r: History)
    ensures FindChat(chats, chatId).None? ==> r == HistoryRefused(404)
    ensures FindChat(chats, chatId).Some? ==>
              var i := FindChat(chats, chatId).value;
              && (caller !in chats[i].participants ==> r == HistoryRefused(403))
              && (caller in chats[i].participants ==>
                    (r == HistoryRefused(500) <==> (PageNumber(pageParam) - 1) * PageLimit(limitParam) < 0))
    ensures FindChat(chats, chatId).Some? && caller in chats[FindChat(chats, chatId).value].participants
            && (PageNumber(pageParam) - 1) * PageLimit(limitParam) >= 0 ==>
              var all := ChatMessages(ms, chatId);
              && r.History?
              && r.messages == Window(all, (PageNumber(pageParam) - 1) * PageLimit(limitParam), Abs(PageLimit(limitParam)))
              && r.pagination.pages == CeilDiv(|all|, PageLimit(limitParam))
    ensures r.History? ==>
              && r.pagination.total == |ChatMessages(ms, chatId)|
              && r.pagination.page == PageNumber(pageParam)
              && |r.messages| <= Abs(PageLimit(limitParam))
              && forall m :: m in r.messages ==> m in ms && m.chat == chatId
  {
    var page := PageNumber(pageParam);
    var limit := PageLimit(limitParam);
    var skip := (page - 1) * limit;
    match FindChat(chats, chatId)
    case None => HistoryRefused(404)
    case Some(i) =>
      if caller !in chats[i].participants then HistoryRefused(403)
      else if skip < 0 then HistoryRefused(500)
      else
        var all := ChatMessages(ms, chatId);
        WindowIsChronologicalSlice(all, skip, Abs(limit));
        ChatMessagesMembers(ms, chatId);
        History(Window(all, skip, Abs(limit)), Pagination(|all|, page, CeilDiv(|all|, limit)))
  }

  function Abs(x: int): (r: nat)
    ensures r == x || r == -x
  {
    if x < 0 then -x else x
  }

  /** With the default parameters a participant gets the newest 50 messages
      of the chat, oldest first, and the page count ⌈total / 50⌉. */
  lemma GetMessagesDefaults(chats: seq<Chat>, ms: seq<Message>, caller: Id, chatId: Id, i: nat)
    requires i < |chats| && chats[i].id == chatId && caller in chats[i].participants
    requires NoDuplicates(ChatIds(chats))
    ensures var all := ChatMessages(ms, chatId);
            var lo := if 50 <= |all| then |all| - 50 else 0;
            GetMessages(chats, ms, caller, chatId, None, None)
              == History(all[lo..], Pagination(|all|, 1, (|all| + 49) / 50))
  {
    IndexOfUnique(ChatIds(chats), i);
    var all := ChatMessages(ms, chatId);
    FirstPage(chats, ms, caller, chatId, i);
    DefaultPages(|all|);
    NewestWindow(all);
  }

  lemma FirstPage(chats: seq<Chat>, ms: seq<Message>, caller: Id, chatId: Id, i: nat)
    requires i < |chats| && FindChat(chats, chatId) == Some(i) && caller in chats[i].participants
    ensures var all := ChatMessages(ms, chatId);
            GetMessages(chats, ms, caller, chatId, None, None)
              == History(Window(all, 0, 50), Pagination(|all|, 1, CeilDiv(|all|, 50)))
  {
    assert PageNumber(None) == 1 && PageLimit(None) == 50;
  }

  lemma DefaultPages(total: nat)
    ensures CeilDiv(total, 50) == (total + 49) / 50
  {
  }

  lemma NewestWindow(all: seq<Message>)
    ensures Window(all, 0, 50) == all[if 50 <= |all| then |all| - 50 else 0..]
  {
    WindowIsChronologicalSlice(all, 0, 50);
    assert all[..|all|] == all;
  }

  /** For a positive limit, page `p` (counted from 1) is non-empty exactly
      when `p` does not exceed the reported page count. */
  lemma PageWithinPages(total: nat, page: int, limit: int)
    requires page >= 1 && limit > 0
    ensures (page - 1) * limit < total <==> page <= CeilDiv(total, limit)
  {
    var pages := CeilDiv(total, limit);
    if page <= pages {
      assert (page - 1) * limit <= (pages - 1) * limit by {
        MulMonotone(page - 1, pages - 1, limit);
      }
    } else {
      assert pages * limit <= (page - 1) * limit by {
        MulMonotone(pages, page - 1, limit);
      }
    }
  }

  lemma MulMonotone(a: int, b: int, c: int)
    requires a <= b && c > 0
    ensures a * c <= b * c
  {
  }

  // ---------------------------------------------------------------------
  // markAsRead

  /** Whether `m` counts as unread for `user`: sent by someone else and not
      yet read by them. */
  predicate Unread(m: Message, user: Id)
  {
    m.sender != user && user !in m.readBy
  }

  /** `Message.updateMany({ chat, sender: { $ne: user }, readBy: { $ne: user } },
      { $addToSet: { readBy: user } })`. */
  function MarkRead(ms: seq<Message>, chatId: Id, user: Id): (r: seq<Message>)
    ensures |r| == |ms|
    ensures forall i :: 0 <= i < |ms| ==>
              && r[i].id == ms[i].id && r[i].chat == ms[i].chat && r[i].sender == ms[i].sender
              && r[i].content == ms[i].content
              && (ms[i].chat == chatId && ms[i].sender != user ==> user in r[i].readBy)
              && (forall y :: y in ms[i].readBy ==> y in r[i].readBy)
              && (forall y :: y in r[i].readBy ==> y in ms[i].readBy || y == user)
              && (ms[i].chat != chatId || ms[i].sender == user ==> r[i] == ms[i])
  {
    seq(|ms|, i requires 0 <= i < |ms| =>
      if ms[i].chat == chatId && Unread(ms[i], user) then ms[i].(readBy := ms[i].readBy + [user]) else ms[i])
  }

  /** After marking, every message of the chat that the user did not send
      lists them in `readBy` exactly once; messages of other chats and the
      user's own messages are unchanged, and so are ids and chats. */
  lemma MarkReadEffect(ms: seq<Message>, chatId: Id, user: Id)
    requires forall m :: m in ms ==> NoDuplicates(m.readBy)
    ensures forall i :: 0 <= i < |ms| ==>
              var m' := MarkRead(ms, chatId, user)[i];
              && NoDuplicates(m'.readBy)
              && (ms[i].chat == chatId && ms[i].sender != user ==> Count(m'.readBy, user) == 1)
  {
    var r := MarkRead(ms, chatId, user);
    forall i | 0 <= i < |ms|
      ensures NoDuplicates(r[i].readBy)
      ensures ms[i].chat == chatId && ms[i].sender != user ==> Count(r[i].readBy, user) == 1
    {
      assert ms[i] in ms;
      if ms[i].chat == chatId && ms[i].sender != user {
        if user in ms[i].readBy {
          CountUnique(ms[i].readBy, user);
        } else {
          CountAppend(ms[i].readBy, user);
        }
      }
    }
  }

  /** An element of a duplicate-free list occurs once. */
  lemma {:induction false} CountUnique(s: seq<Id>, x: Id)
    requires NoDuplicates(s) && x in s
    ensures Count(s, x) == 1
  {
    if s[0] == x {
      assert x !in s[1..];
    } else {
      CountUnique(s[1..], x);
    }
  }

  /** Appending an absent element keeps a list duplicate-free and makes it
      occur once. */
  lemma {:induction false} CountAppend(s: seq<Id>, x: Id)
    requires NoDuplicates(s) && x !in s
    ensures NoDuplicates(s + [x]) && Count(s + [x], x) == 1
  {
    if s != [] {
      assert (s + [x])[1..] == s[1..] + [x];
      CountAppend(s[1..], x);
    } else {
      assert (s + [x])[1..] == [];
    }
  }

  /** Marking twice is marking once. */
  lemma MarkReadIdempotent(ms: seq<Message>, chatId: Id, user: Id)
    ensures MarkRead(MarkRead(ms, chatId, user), chatId, user) == MarkRead(ms, chatId, user)
  {
    var once := MarkRead(ms, chatId, user);
    forall i | 0 <= i < |ms| ensures MarkRead(once, chatId, user)[i] == once[i] {
      if ms[i].chat == chatId && Unread(ms[i], user) {
        assert user in once[i].readBy;
      }
    }
  }

  /** Rewriting messages without touching their ids or chats leaves every
      chat's newest message where it was. */
  lemma {:induction false} NewestSameSkeleton(a: seq<Message>, b: seq<Message>, chatId: Id)
    requires |a| == |b|
    requires forall i :: 0 <= i < |a| ==> a[i].id == b[i].id && a[i].chat == b[i].chat
    ensures Newest(a, chatId) == Newest(b, chatId)
  {
    if a != [] {
      NewestSameSkeleton(a[..|a| - 1], b[..|b| - 1], chatId);
    }
  }

  /** `markAsRead`: 404 for a missing chat, 403 for a non-participant;
      otherwise the caller is added to `readBy` of every unread message of
      the chat. */
  method MarkAsRead(db: Db, caller: Id, chatId: Id) returns (status: int)
    requires db.Valid()
    modifies db`messages
    ensures db.Valid()
    ensures FindChat(old(db.chats), chatId).None? ==> status == 404
    ensures FindChat(old(db.chats), chatId).Some? ==>
              (status == 403 <==> caller !in old(db.chats)[FindChat(old(db.chats), chatId).value].participants)
    ensures status != 200 ==> db.messages == old(db.messages)
    ensures status == 200 ==> db.messages == MarkRead(old(db.messages), chatId, caller)
    ensures status == 200 || status == 403 || status == 404
    ensures status == 200 <==> FindChat(old(db.chats), chatId).Some?
                               && caller in old(db.chats)[FindChat(old(db.chats), chatId).value].participants
  {
    var found := FindChat(db.chats, chatId);
    if found.None? {
      return 404;
    }
    if caller !in db.chats[found.value].participants {
      return 403;
    }
    var marked := MarkRead(db.messages, chatId, caller);
    MarkReadEffect(db.messages, chatId, caller);
    assert MessageIds(marked) == MessageIds(db.messages);
    forall m | m in marked ensures m.chat in ChatIds(db.chats) && NoDuplicates(m.readBy) {
      var k :| 0 <= k < |marked| && marked[k] == m;
      assert db.messages[k] in db.messages;
    }
    forall c | c in db.chats ensures c.latestMessage == Newest(marked, c.id) {
      NewestSameSkeleton(db.messages, marked, c.id);
    }
    db.messages := marked;
    return 200;
  }

  // ---------------------------------------------------------------------
  // getUnreadCount

  /** `Message.countDocuments({ chat, sender: { $ne: user }, readBy: { $ne: user } })`. */
  function UnreadIn(ms: seq<Message>, chatId: Id, user: Id): (n: nat)
    ensures n == |UnreadPositions(ms, chatId, user)|
    ensures n <= |ChatMessages(ms, chatId)|
    ensures n == 0 <==> forall i :: 0 <= i < |ms| && ms[i].chat == chatId ==> !Unread(ms[i], user)
  {
    if ms == [] then 0
    else
      var init := ms[..|ms| - 1];
      assert forall i :: 0 <= i < |init| ==> init[i] == ms[i];
      UnreadPositionsStep(ms, chatId, user);
      UnreadIn(init, chatId, user) + (if ms[|ms| - 1].chat == chatId && Unread(ms[|ms| - 1], user) then 1 else 0)
  }

  /** The positions of the messages the filter of `countDocuments` matches. */
  function UnreadPositions(ms: seq<Message>, chatId: Id, user: Id): set<nat>
  {
    set i: nat | i < |ms| && ms[i].chat == chatId && Unread(ms[i], user)
  }

  /** The matching positions of a sequence are those of all but its last
      message, plus the last position when that message matches. */
  lemma UnreadPositionsStep(ms: seq<Message>, chatId: Id, user: Id)
    requires ms != []
    ensures var n := |ms|;
            var last := if ms[n - 1].chat == chatId && Unread(ms[n - 1], user) then 1 else 0;
            |UnreadPositions(ms, chatId, user)| == |UnreadPositions(ms[..n - 1], chatId, user)| + last
  {
    var n := |ms|;
    var a := UnreadPositions(ms[..n - 1], chatId, user);
    UnreadPositionsSplit(ms, chatId, user);
    assert n - 1 !in a;
  }

  /** Splitting off the last message splits off at most its position. */
  lemma UnreadPositionsSplit(ms: seq<Message>, chatId: Id, user: Id)
    requires ms != []
    ensures var n := |ms|;
            UnreadPositions(ms, chatId, user)
            == UnreadPositions(ms[..n - 1], chatId, user)
               + (if ms[n - 1].chat == chatId && Unread(ms[n - 1], user) then {n - 1} else {})
  {
    var n := |ms|;
    var a := UnreadPositions(ms[..n - 1], chatId, user);
    var b := UnreadPositions(ms, chatId, user);
    var c: set<nat> := if ms[n - 1].chat == chatId && Unread(ms[n - 1], user) then {n - 1} else {};
    forall i: nat ensures i in b <==> i in a + c {
      if i < n - 1 {
        assert ms[..n - 1][i] == ms[i];
      }
    }
  }

  /** `Chat.find({ participants: user })` mapped to ids, in natural order. */
  function ChatsOf(chats: seq<Chat>, user: Id): (r: seq<Id>)
    ensures |r| <= |chats|
    ensures forall id :: id in r <==> exists k :: 0 <= k < |chats| && chats[k].id == id && user in chats[k].participants
  {
    if chats == [] then []
    else (if user in chats[0].participants then [chats[0].id] else []) + ChatsOf(chats[1..], user)
  }

  /** The user's chats are listed in stored order: the list distributes
      over concatenation. */
  lemma {:induction false} ChatsOfConcat(a: seq<Chat>, b: seq<Chat>, user: Id)
    ensures ChatsOf(a + b, user) == ChatsOf(a, user) + ChatsOf(b, user)
  {
    if a != [] {
      assert (a + b)[0] == a[0];
      assert (a + b)[1..] == a[1..] + b;
      ChatsOfConcat(a[1..], b, user);
    } else {
      assert a + b == b;
    }
  }

  /** With unique chat ids, every chat of the user is listed once, so no
      chat is counted twice in `totalUnread`. */
  lemma {:induction false} ChatsOfUnique(chats: seq<Chat>, user: Id)
    requires NoDuplicates(ChatIds(chats))
    ensures NoDuplicates(ChatsOf(chats, user))
  {
    if chats != [] {
      var rest := chats[1..];
      assert ChatIds(rest) == ChatIds(chats)[1..];
      ChatsOfUnique(rest, user);
      forall k | 0 <= k < |rest| ensures rest[k].id != chats[0].id {
        assert ChatIds(chats)[k + 1] == rest[k].id && ChatIds(chats)[0] == chats[0].id;
      }
      assert chats[0].id !in ChatsOf(rest, user);
    }
  }

  datatype ChatCount = ChatCount(chatId: Id, count: nat)
  datatype UnreadReport = UnreadReport(totalUnread: nat, chats: seq<ChatCount>)

  /** `unreadCounts.reduce((total, current) => total + current.count, 0)`. */
  function Total(counts: seq<ChatCount>): (t: nat)
    ensures forall k :: 0 <= k < |counts| ==> counts[k].count <= t
  {
    if counts == [] then 0
    else
      assert forall k :: 1 <= k < |counts| ==> counts[k] == counts[1..][k - 1];
      counts[0].count + Total(counts[1..])
  }

  /** The sum over a concatenation is the sum of the sums. */
  lemma {:induction false} TotalConcat(a: seq<ChatCount>, b: seq<ChatCount>)
    ensures Total(a + b) == Total(a) + Total(b)
  {
    if a == [] {
      assert a + b == b;
    } else {
      assert (a + b)[1..] == a[1..] + b;
      TotalConcat(a[1..], b);
    }
  }

  function CountsFor(ids: seq<Id>, ms: seq<Message>, user: Id): (r: seq<ChatCount>)
    ensures |r| == |ids|
    ensures forall k :: 0 <= k < |ids| ==> r[k] == ChatCount(ids[k], UnreadIn(ms, ids[k], user))
  {
    if ids == [] then [] else [ChatCount(ids[0], UnreadIn(ms, ids[0], user))] + CountsFor(ids[1..], ms, user)
  }

  /** `getUnreadCount`: one count per chat of the user, and their sum. */
  function GetUnreadCount(chats: seq<Chat>, ms: seq<Message>, user: Id): (r: UnreadReport)
    ensures |r.chats| == |ChatsOf(chats, user)|
    ensures forall k :: 0 <= k < |r.chats| ==>
              r.chats[k].chatId == ChatsOf(chats, user)[k]
              && r.chats[k].count == UnreadIn(ms, r.chats[k].chatId, user)
    ensures r.totalUnread == Total(r.chats)
    ensures r.totalUnread == 0 <==> forall k :: 0 <= k < |r.chats| ==> r.chats[k].count == 0
  {
    var counts := CountsFor(ChatsOf(chats, user), ms, user);
    TotalZero(counts);
    UnreadReport(Total(counts), counts)
  }

  /** The total is zero exactly when every chat's count is. */
  lemma {:induction false} TotalZero(counts: seq<ChatCount>)
    ensures Total(counts) == 0 <==> forall k :: 0 <= k < |counts| ==> counts[k].count == 0
  {
    if counts != [] {
      TotalZero(counts[1..]);
      assert forall k :: 1 <= k < |counts| ==> counts[k] == counts[1..][k - 1];
    }
  }

  /** After `markAsRead` of a chat the user has no unread message left in
      it, the counts of the other chats do not move, and no other reader's
      count moves in any chat. */
  lemma {:induction false} MarkReadClearsUnread(ms: seq<Message>, chatId: Id, other: Id, user: Id, reader: Id)
    ensures UnreadIn(MarkRead(ms, chatId, user), chatId, user) == 0
    ensures other != chatId ==> UnreadIn(MarkRead(ms, chatId, user), other, user) == UnreadIn(ms, other, user)
    ensures reader != user ==> UnreadIn(MarkRead(ms, chatId, user), other, reader) == UnreadIn(ms, other, reader)
  {
    if ms != [] {
      var n := |ms|;
      assert MarkRead(ms, chatId, user)[..n - 1] == MarkRead(ms[..n - 1], chatId, user);
      MarkReadClearsUnread(ms[..n - 1], chatId, other, user, reader);
    }
  }

  // ---------------------------------------------------------------------
  // deleteMessage

  /** Removing a message that is not the newest of a chat leaves that
      chat's newest message in place. */
  lemma {:induction false} NewestAfterRemoval(ms: seq<Message>, j: nat, chatId: Id)
    requires j < |ms| && Newest(ms, chatId) != Some(ms[j].id)
    ensures Newest(ms[..j] + ms[j + 1..], chatId) == Newest(ms, chatId)
  {
    var n := |ms|;
    var init := ms[..n - 1];
    NewestSnoc(init, ms[n - 1], chatId);
    assert ms == init + [ms[n - 1]];
    if j == n - 1 {
      assert ms[..j] + ms[j + 1..] == init;
    } else {
      var shorter := init[..j] + init[j + 1..];
      RemovalBeforeLast(ms, j);
      NewestSnoc(shorter, ms[n - 1], chatId);
      if ms[n - 1].chat != chatId {
        assert init[j] == ms[j];
        NewestAfterRemoval(init, j, chatId);
      }
    }
  }

  /** The newest message of a chat after appending `m`. */
  lemma NewestSnoc(init: seq<Message>, m: Message, chatId: Id)
    ensures Newest(init + [m], chatId) == if m.chat == chatId then Some(m.id) else Newest(init, chatId)
  {
    assert (init + [m])[..|init|] == init;
  }

  /** Removing a message before the last one removes it from all but the
      last message. */
  lemma RemovalBeforeLast(ms: seq<Message>, j: nat)
    requires j < |ms| - 1
    ensures ms[..j] + ms[j + 1..] == (ms[..|ms| - 1][..j] + ms[..|ms| - 1][j + 1..]) + [ms[|ms| - 1]]
  {
  }

  /** Dropping one message keeps message ids unique, and every message
      left was there before. */
  lemma RemovalKeepsMessages(ms: seq<Message>, j: nat)
    requires j < |ms| && NoDuplicates(MessageIds(ms))
    ensures NoDuplicates(MessageIds(ms[..j] + ms[j + 1..]))
    ensures forall x :: x in ms[..j] + ms[j + 1..] ==> x in ms
  {
    var rest := ms[..j] + ms[j + 1..];
    forall x | x in rest ensures x in ms {
      var k :| 0 <= k < |rest| && rest[k] == x;
      assert rest[k] == ms[if k < j then k else k + 1];
    }
    forall a, b | 0 <= a < b < |rest| ensures MessageIds(rest)[a] != MessageIds(rest)[b] {
      assert MessageIds(rest)[a] == MessageIds(ms)[if a < j then a else a + 1];
      assert MessageIds(rest)[b] == MessageIds(ms)[if b < j then b else b + 1];
    }
  }

  /** Only the chat a message belongs to can have it as its newest. */
  lemma NewestOwner(ms: seq<Message>, j: nat, chatId: Id)
    requires NoDuplicates(MessageIds(ms))
    requires j < |ms| && Newest(ms, chatId) == Some(ms[j].id)
    ensures ms[j].chat == chatId
  {
    NewestIsLast(ms, chatId);
    var k :| 0 <= k < |ms| && ms[k].id == ms[j].id && ms[k].chat == chatId;
    assert MessageIds(ms)[k] == MessageIds(ms)[j];
  }

  /** The chats after deleting message `j` of chat `ci`: that chat's
      `latestMessage` moves to the newest remaining message when it pointed
      to the deleted one. */
  function Repointed(chats: seq<Chat>, ci: nat, rest: seq<Message>, deleted: Id): (r: seq<Chat>)
    requires ci < |chats|
    ensures |r| == |chats| && ChatIds(r) == ChatIds(chats)
    ensures forall k :: 0 <= k < |chats| && k != ci ==> r[k] == chats[k]
    ensures r[ci].latestMessage == if chats[ci].latestMessage == Some(deleted) then Newest(rest, chats[ci].id)
                                   else chats[ci].latestMessage
  {
    if chats[ci].latestMessage == Some(deleted)
    then chats[ci := chats[ci].(latestMessage := Newest(rest, chats[ci].id))]
    else chats
  }

  /** Deleting a message and re-pointing its chat keeps the store's
      invariants: no chat is left pointing at the deleted message. */
  lemma MessageRemoved(chats: seq<Chat>, ms: seq<Message>, j: nat, ci: nat)
    requires ChatsValid(chats) && MessagesValid(chats, ms)
    requires j < |ms| && ci < |chats| && chats[ci].id == ms[j].chat
    ensures ChatsValid(Repointed(chats, ci, ms[..j] + ms[j + 1..], ms[j].id))
    ensures MessagesValid(Repointed(chats, ci, ms[..j] + ms[j + 1..], ms[j].id), ms[..j] + ms[j + 1..])
  {
    var rest := ms[..j] + ms[j + 1..];
    var chats' := Repointed(chats, ci, rest, ms[j].id);
    RemovalKeepsMessages(ms, j);
    assert |chats'| == |chats| && ChatIds(chats') == ChatIds(chats);
    assert chats[ci] in chats;
    forall k | 0 <= k < |chats'| ensures AdminIsMember(chats'[k]) && chats'[k].latestMessage == Newest(rest, chats'[k].id) {
      assert chats[k] in chats;
      if chats[k].latestMessage == Some(ms[j].id) {
        NewestOwner(ms, j, chats[k].id);
        assert ChatIds(chats)[k] == ChatIds(chats)[ci];
      } else {
        NewestAfterRemoval(ms, j, chats[k].id);
      }
    }
  }

  /** `deleteMessage`: 404 for a missing message and 403 unless the caller
      sent it; otherwise it is deleted, and when it was its chat's
      `latestMessage` that field moves to the newest remaining message of
      the chat, or is unset when none remains. */
  method DeleteMessage(db: Db, caller: Id, messageId: Id) returns (status: int)
    requires db.Valid()
    modifies db`chats, db`messages
    ensures db.Valid()
    ensures FindMessage(old(db.messages), messageId).None? ==> status == 404
    ensures FindMessage(old(db.messages), messageId).Some? ==>
              var j := FindMessage(old(db.messages), messageId).value;
              && (old(db.messages)[j].sender != caller ==> status == 403)
              && (old(db.messages)[j].sender == caller ==>
                    && status == 200
                    && db.messages == old(db.messages)[..j] + old(db.messages)[j + 1..]
                    && FindChat(old(db.chats), old(db.messages)[j].chat).Some?
                    && db.chats == Repointed(old(db.chats), FindChat(old(db.chats), old(db.messages)[j].chat).value,
                                             db.messages, messageId))
    ensures status != 200 ==> db.chats == old(db.chats) && db.messages == old(db.messages)
  {
    var found := FindMessage(db.messages, messageId);
    if found.None? {
      return 404;
    }
    var j := found.value;
    var m := db.messages[j];
    if m.sender != caller {
      return 403;
    }
    assert m in db.messages;
    var ci := FindChat(db.chats, m.chat).value;
    MessageRemoved(db.chats, db.messages, j, ci);
    var rest := db.messages[..j] + db.messages[j + 1..];
    db.messages := rest;
    if db.chats[ci].latestMessage == Some(messageId) {
      db.chats := db.chats[ci := db.chats[ci].(latestMessage := Newest(rest, db.chats[ci].id))];
    }
    return 200;
  }

  /** After a deletion the deleted id is gone and no chat points to it. */
  lemma DeletedIsGone(chats: seq<Chat>, ms: seq<Message>, j: nat, ci: nat)
    requires ChatsValid(chats) && MessagesValid(chats, ms)
    requires j < |ms| && ci < |chats| && chats[ci].id == ms[j].chat
    ensures FindMessage(ms[..j] + ms[j + 1..], ms[j].id).None?
    ensures forall c :: c in Repointed(chats, ci, ms[..j] + ms[j + 1..], ms[j].id) ==> c.latestMessage != Some(ms[j].id)
  {
    var rest := ms[..j] + ms[j + 1..];
    forall k | 0 <= k < |rest| ensures MessageIds(rest)[k] != ms[j].id {
      var k' := if k < j then k else k + 1;
      assert rest[k] == ms[k'];
      assert MessageIds(ms)[k'] != MessageIds(ms)[j];
    }
    assert ms[j].id !in MessageIds(rest);
    MessageRemoved(chats, ms, j, ci);
    forall c | c in Repointed(chats, ci, rest, ms[j].id) ensures c.latestMessage != Some(ms[j].id) {
      assert c.latestMessage == Newest(rest, c.id);
    }
  }
}
