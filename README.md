# webChatOnline2 chat server — a Dafny model

This project models the decision logic of a real-time chat application:
an Express/MongoDB REST back end with a Socket.IO layer and a React front
end. The model covers seven parts:

- **Presence**: the presence registry of the Socket.IO layer, the
  `new-message` fan-out and the typing relay.
- **Chat rules**: membership and admin rules for one-to-one and group
  chats.
- **Friends**: the friend-request state machine and the username
  uniqueness guard of profile updates.
- **Messages**: sending, paginated history, read receipts, unread counts,
  and deletion with the re-pointing of a chat's latest message.
- **Form checks**: the client-side form validation.
- **Field checks**: the server-side field validators.
- **Errors**: the global error middleware's mapping from error kinds to
  HTTP answers.

## Shape of the model

- **Storage.** MongoDB is replaced by one in-memory database, the class
  `Store.Db`:
  - users are a map from id to record;
  - chats and messages are sequences in insertion order.

  Messages are appended when created, so sequence order is `createdAt`
  order. A handler is a method on the database. Its consecutive `await`ed
  reads and writes happen in order, and it returns the HTTP status code.
- **Invariant.** Every handler keeps `Db.Valid()`, which requires:
  - chat and message ids are unique;
  - the group admin is a participant;
  - friendship is mutual and only between existing users;
  - nobody has a pending request from themself;
  - every message's chat exists;
  - `readBy` has no duplicates;
  - every chat's `latestMessage` is its newest message.
- **Guards.** The guard chains of `addToGroup`, `removeFromGroup` and
  `makeGroupAdmin` are pure functions, `AddMember`, `RemoveMember` and
  `PromoteMember`. Each returns either the new chat record or the status
  of the first guard that failed. Reading the admin of a chat that has
  none throws in the source, which the handler answers with 500.
- **Presence state.** The presence state is the class `Presence.Hub`.
  `registry` models the `onlineUsers` Map as an insertion-ordered
  sequence of entries: `set` on an existing key keeps its position.
  `joined` holds the (socket, room) joins. `emitted` is the log of every
  emit with its target, event and payload.
- **Identifiers.** Ids are strings. The empty string stands for a request
  field JavaScript would treat as falsy. Ids that MongoDB generates for
  new documents are parameters, required to be fresh.
- **Error middleware.** `ErrorHandler.HandleError` runs the middleware's
  chain of `if` blocks, in which the last match wins. It is proved equal
  to `ErrorHandler.Classify`, a precedence-ordered function. The lemmas
  about the error kinds are stated on `Classify`.
- **Validators.** The server's three regular expressions are stated as
  length and character-class predicates. `isValidEmail` is modelled by a
  scan for the split points, proved equivalent to the shape a@b.c with
  non-empty parts and no whitespace. The client's `isEmail` expression is
  a parameter, applied to the lower-cased address.

## Model

| member | source | states |
|---|---|---|
| Basics.RemoveAll | backend/controllers/user.controller.js:158 | `$pull`/`filter`: the result lacks the removed id, and every other id occurs in it as often as before |
| Basics.RemoveAllConcat | backend/controllers/user.controller.js:158 | pulling from a concatenation is the concatenation of the pulled parts, so the ids that stay keep their order |
| Basics.RemoveAllAppended | backend/controllers/chat.controller.js:199-203 | pulling an id that was just pushed onto a list without it gives the list back |
| Presence.Put | backend/socket/socket.js:12 | `onlineUsers.set`: the user maps to the new socket, other users keep theirs, keys stay unique, and an existing key keeps its position while a new one is appended |
| Presence.Keys | backend/socket/socket.js:15 | `Array.from(onlineUsers.keys())`: one key per entry, and a user is a key exactly when `get` finds it |
| Presence.LookupFinds | backend/socket/socket.js:12 | `get` finds a socket for a user exactly when some entry is that user's |
| Presence.LookupByKey | backend/socket/socket.js:12 | with unique keys a user looks up socket c exactly when the entry (user, c) is in the registry |
| Presence.FirstWithSocket | backend/socket/socket.js:52-53 | the scan stops at the first entry whose socket id matches; none matches exactly when no entry has that socket |
| Presence.Disconnected | backend/socket/socket.js:48-58 | a socket no entry carries leaves the registry unchanged; otherwise exactly one entry goes, the first on that socket, and the list of online users keeps the other keys in insertion order; no entry is added |
| Presence.DeleteAt | backend/socket/socket.js:54 | `onlineUsers.delete` of the found entry's key removes exactly that entry and keeps the order of the others |
| Presence.Delete | backend/socket/socket.js:54 | `onlineUsers.delete` removes at most one entry, adds none, and leaves the registry as it was for a key it does not hold |
| Presence.DisconnectedShape | backend/socket/socket.js:52-58 | a disconnect keeps the keys unique and leaves the registry unchanged for a socket no entry carries |
| Presence.DisconnectedLookup | backend/socket/socket.js:52-58 | after a disconnect every user on another socket keeps its entry, so does a user whose entry on the same socket comes after the first one, and the user of the first entry on that socket is gone |
| Presence.SupersededDisconnect | backend/socket/socket.js:12 | a socket replaced by a later `setup` of the same user does not take that user offline when it disconnects |
| Presence.Deliveries | backend/socket/socket.js:31-35 | at most one emit per participant, each a `message-received` with the original payload into a room other than the sender's, excluding the emitting socket |
| Presence.FanOut | backend/socket/socket.js:25-36 | no emit when the chat has no participant list; otherwise the rooms emitted to are exactly the participants other than the sender, in order, each emit a `message-received` with the original payload that excludes the emitting socket |
| Presence.DeliveriesReachRecipients | backend/socket/socket.js:31-35 | the rooms emitted to are, in participant order, exactly the participants other than the sender (a participant listed twice is notified twice) |
| Presence.SenderNeverNotified | backend/socket/socket.js:28-35 | the sender's room never receives the message, and a chat without a participant list produces no emit |
| Presence.Hub.constructor | backend/socket/socket.js:3 | the registry starts as an empty Map with nothing joined or emitted |
| Presence.Hub.Setup | backend/socket/socket.js:9-16 | joins the user's room, emits `connected` to the socket, sets the registry entry and broadcasts the registry's key list |
| Presence.Hub.JoinChat | backend/socket/socket.js:19-22 | the socket joins the chat's room and nothing else changes |
| Presence.Hub.OnNewMessage | backend/socket/socket.js:25-36 | the loop appends exactly the fan-out of the message to the emit log |
| Presence.Hub.OnTyping | backend/socket/socket.js:39-41 | one `typing` emit of the chat id into the chat's room excluding the emitting socket; the registry is untouched |
| Presence.Hub.OnStopTyping | backend/socket/socket.js:43-45 | one `stop-typing` emit of the chat id into the chat's room excluding the emitting socket; the registry is untouched |
| Presence.Hub.Disconnect | backend/socket/socket.js:48-60 | the registry becomes the one without the first entry on this socket; the online list is broadcast only when such an entry existed |
| Store.FindChat | backend/controllers/message.controller.js:19 | `findById`: the position of a chat with that id, or none when no chat has it |
| Store.FindMessage | backend/controllers/message.controller.js:199 | `findById`: the position of a message with that id, or none when no message has it |
| Store.ChatMessages | backend/controllers/message.controller.js:77 | `Message.find({ chat })`: no more messages than are stored, each of them belonging to the chat |
| Store.Newest | backend/controllers/message.controller.js:218-219 | `findOne(...).sort({ createdAt: -1 })`: a newest message, when there is one, is a stored message |
| Store.ChatReplaced | backend/controllers/chat.controller.js:143-147 | writing back a chat record with the same id and latest message, with its admin among its participants, keeps the store's invariants |
| Store.NewestNone | backend/controllers/message.controller.js:218-219 | a chat has no newest message exactly when no stored message belongs to it |
| Store.NewestIsLast | backend/controllers/message.controller.js:218-219 | the newest message of a chat is a stored message of that chat, and no later message belongs to the chat |
| Store.ChatAppended | backend/controllers/chat.controller.js:44 | creating a chat with a fresh id, no latest message and its admin among its participants keeps the invariants |
| ChatController.FindDirectChat | backend/controllers/chat.controller.js:19-22 | the first one-to-one chat whose participants include both users; none exactly when no such chat exists |
| ChatController.AddMember | backend/controllers/chat.controller.js:189-203 | 500 without an admin, 403 for a non-admin caller, 400 for an existing member; otherwise the user is appended, and the admin stays a participant |
| ChatController.RemoveMember | backend/controllers/chat.controller.js:236-255 | 500 without an admin, 403 when the caller is neither the admin nor the removed user, 400 when the admin removes themself; it succeeds exactly in the remaining cases, pulling every occurrence, and the removed user is never the admin |
| ChatController.PromoteMember | backend/controllers/chat.controller.js:288-302 | 403 for a non-admin caller, 400 for a non-member target; otherwise the admin becomes the target and participants are unchanged |
| ChatController.AddThenRemove | backend/controllers/chat.controller.js:189-255 | the admin removing a member they just added gives the original group back |
| ChatController.AccessChat | backend/controllers/chat.controller.js:10-55 | 400 without a user id; an existing one-to-one chat of both users is returned with 200 and nothing is created; otherwise a chat with participants [caller, userId] is created with 201 |
| ChatController.CreateGroupChat | backend/controllers/chat.controller.js:90-126 | 400 without a list or name; the caller is appended only if absent; 400 below 3 entries, duplicates counted; otherwise a group with the caller as admin is created |
| ChatController.UpdateGroupChat | backend/controllers/chat.controller.js:133-170 | 400 without a name, 404 for a missing chat; otherwise the name is written before the admin check, so it persists behind a 403 |
| ChatController.AddToGroup | backend/controllers/chat.controller.js:177-217 | 404 for a missing group, else the outcome of AddMember, written back only on success; the invariants hold |
| ChatController.RemoveFromGroup | backend/controllers/chat.controller.js:224-269 | 404 for a missing group; else 200 exactly when RemoveMember succeeds (the admin removing another member, or a member leaving), with the chat written back, and otherwise RemoveMember's refusal with nothing written; the invariants hold |
| ChatController.MakeGroupAdmin | backend/controllers/chat.controller.js:276-316 | 404 for a missing group, else the outcome of PromoteMember, written back only on success; the invariants hold |
| UserController.SendFriendRequest | backend/controllers/user.controller.js:94-133 | 400 to oneself, 404 for a missing receiver, 400 when already friends, 400 when already requested; otherwise only the receiver's requests gain the caller |
| UserController.Befriend | backend/controllers/user.controller.js:157-162 | accepting touches only the two users' records and keeps the set of users |
| UserController.BefriendEffect | backend/controllers/user.controller.js:157-162 | after accepting, each user is a friend of the other and the request is gone; no other friendship and no other user's requests change |
| UserController.BefriendKeepsUsersValid | backend/controllers/user.controller.js:157-162 | accepting a pending request keeps friendship mutual and among existing users |
| UserController.AcceptFriendRequest | backend/controllers/user.controller.js:140-174 | 404 for a missing sender, 400 without a pending request and nothing changes; otherwise the users become Befriend of the old ones |
| UserController.RejectFriendRequest | backend/controllers/user.controller.js:181-199 | 400 exactly when there is no pending request; otherwise only the caller's requests lose the sender |
| UserController.UnfriendEffect | backend/controllers/user.controller.js:211-219 | after removal exactly the friendship between the two users is gone, in both directions; requests and other friendships are unchanged |
| UserController.UnfriendKeepsUsersValid | backend/controllers/user.controller.js:211-219 | removing a friend keeps friendship mutual |
| UserController.Unfriend | backend/controllers/user.controller.js:211-219 | removing a friend touches only the two users' records and keeps the set of users |
| UserController.RemoveFriend | backend/controllers/user.controller.js:206-226 | always 200; the users become Unfriend of the old users, whether or not the two were friends |
| UserController.UpdateProfile | backend/controllers/user.controller.js:64-87 | 400 exactly when a non-empty requested username, trimmed by the schema, belongs to another user; 500 exactly when an empty username, which skips that guard, is already another user's, refused by the unique index (backend/models/user.model.js:8); otherwise the fields sent are written, the username trimmed, and a written name is held by nobody else |
| UserController.ProfileWritten | backend/controllers/user.controller.js:76-80 | rewriting a user's name or avatar keeps friendship mutual and requests valid, and a name no other user holds is the writer's alone afterwards |
| FieldValidation.Trim | backend/models/user.model.js:9 | the `trim: true` setter: no whitespace is left at either end, nothing is added, and a string without whitespace is unchanged |
| FieldValidation.TrimmedFactor | backend/models/user.model.js:9 | the trimmed string is the factor of the input between a whitespace-only prefix and a whitespace-only suffix |
| FieldValidation.TrimIdempotent | backend/models/user.model.js:9 | trimming a trimmed name changes nothing |
| MessageController.SendMessage | backend/controllers/message.controller.js:10-51 | 400 without content or chat id, 404 for a missing chat, 403 for a non-participant; otherwise the message is stored and becomes the chat's latest message |
| MessageController.MessageAppended | backend/controllers/message.controller.js:36-44 | storing a new message and making it its chat's latest keeps the invariants |
| MessageController.PageNumber | backend/controllers/message.controller.js:61 | `parseInt` of the page with fallback 1: a non-zero parsed page is kept, a missing or zero one becomes 1, so the page is never 0 |
| MessageController.PageLimit | backend/controllers/message.controller.js:62 | `parseInt` of the limit with fallback 50: a non-zero parsed limit is kept, a missing or zero one becomes 50, so the limit is never 0 |
| MessageController.CeilDiv | backend/controllers/message.controller.js:91 | the page count is the ceiling of total / limit, by its defining inequalities |
| MessageController.Window | backend/controllers/message.controller.js:77-87 | the skip/limit window holds at most `limit` messages, and none when `skip` passes the end |
| MessageController.WindowIsChronologicalSlice | backend/controllers/message.controller.js:77-87 | the reversed skip/limit window of the newest-first order is a contiguous run of the history ending `skip` messages before the newest |
| MessageController.ChatMessagesMembers | backend/controllers/message.controller.js:77 | a chat's messages are exactly the stored messages that belong to it |
| MessageController.ChatMessagesConcat | backend/controllers/message.controller.js:77 | filtering by chat distributes over concatenation, so the chat's messages keep their stored (creation) order, each as often as it is stored |
| MessageController.GetMessages | backend/controllers/message.controller.js:58-103 | 404, then 403, then 500 exactly for a negative skip; otherwise a participant gets the history: the window of the chat's own messages, at most the limit's magnitude of them, with the total, the page and ⌈total / limit⌉ pages |
| MessageController.GetMessagesDefaults | backend/controllers/message.controller.js:61-92 | with no parameters a participant gets the newest 50 messages oldest first, page 1 and ⌈total / 50⌉ pages |
| MessageController.PageWithinPages | backend/controllers/message.controller.js:63-91 | for a positive limit, page p is non-empty exactly when p does not exceed the reported page count |
| MessageController.MarkRead | backend/controllers/message.controller.js:126-135 | every message of the chat not sent by the user has them in `readBy` and keeps its earlier readers, and the user is the only reader added; ids, senders, chats and contents stay, and other messages are unchanged |
| MessageController.MarkReadEffect | backend/controllers/message.controller.js:126-135 | with duplicate-free `readBy` lists, every message of the chat not sent by the user lists them exactly once, and no list gains a duplicate |
| MessageController.MarkReadIdempotent | backend/controllers/message.controller.js:126-135 | marking twice equals marking once |
| MessageController.NewestSameSkeleton | backend/controllers/message.controller.js:126-135 | rewriting `readBy` keeps every chat's newest message |
| MessageController.MarkAsRead | backend/controllers/message.controller.js:110-147 | 404 for a missing chat, 403 for a non-participant, and 200 exactly for a participant of an existing chat, when the messages become MarkRead of the old ones; the invariants hold |
| MessageController.UnreadIn | backend/controllers/message.controller.js:163-167 | `countDocuments`: the count is the number of positions holding a message of the chat that the user neither sent nor read; it is 0 exactly when there is none, and it never exceeds the chat's message count |
| MessageController.Total | backend/controllers/message.controller.js:177 | the `reduce` sum: every chat's count is at most the total |
| MessageController.TotalConcat | backend/controllers/message.controller.js:177 | the sum over two lists joined is the sum of their sums |
| MessageController.ChatsOf | backend/controllers/message.controller.js:157-158 | an id is listed exactly when some chat with that id has the user as a participant, and no more ids are listed than there are chats |
| MessageController.ChatsOfConcat | backend/controllers/message.controller.js:157-158 | the user's chats are listed in stored order: the list of a concatenation is the concatenation of the lists |
| MessageController.ChatsOfUnique | backend/controllers/message.controller.js:157-158 | with unique chat ids, each of the user's chats is listed once, so none is counted twice in `totalUnread` |
| MessageController.CountsFor | backend/controllers/message.controller.js:161-174 | one entry per chat id, in order, holding that chat's unread count |
| MessageController.GetUnreadCount | backend/controllers/message.controller.js:154-187 | the report lists the user's chats in order, each with its unread count; the total is the sum of the counts, and it is 0 exactly when every count is |
| MessageController.TotalZero | backend/controllers/message.controller.js:177 | the sum of the counts is 0 exactly when every count is 0 |
| MessageController.MarkReadClearsUnread | backend/controllers/message.controller.js:126-135 | after marking a chat read its unread count is 0, the user's counts in other chats do not move, and no other user's count moves in any chat |
| MessageController.NewestAfterRemoval | backend/controllers/message.controller.js:213-216 | deleting a message that is not a chat's newest leaves that chat's newest unchanged |
| MessageController.RemovalKeepsMessages | backend/controllers/message.controller.js:213 | deleting one message keeps ids unique and adds nothing |
| MessageController.NewestOwner | backend/controllers/message.controller.js:216 | only the chat a message belongs to can have it as latest |
| MessageController.Repointed | backend/controllers/message.controller.js:215-225 | only the deleted message's chat changes, and its `latestMessage` moves to the newest remaining message exactly when it was the deleted one |
| MessageController.MessageRemoved | backend/controllers/message.controller.js:213-226 | deleting a message and re-pointing its chat keeps the invariants |
| MessageController.DeleteMessage | backend/controllers/message.controller.js:194-238 | 404 for a missing message, 403 for a non-sender; otherwise it is deleted and, when it was the latest, the chat points to the newest remaining message or to none |
| MessageController.DeletedIsGone | backend/controllers/message.controller.js:213-226 | after deletion the id is no longer stored and no chat points to it |
| FormValidation.FieldError | frontend/src/utils/validation.js:35-51 | a missing field gets the "required" message, a present malformed one the format message, a well-formed one none |
| FormValidation.IsPassword | frontend/src/utils/validation.js:7-9 | six characters or more; every password the server's strength check accepts passes |
| FormValidation.IsUsername | frontend/src/utils/validation.js:11-13 | three to thirty characters; every name the server's username check accepts passes |
| FormValidation.LoginValidation | frontend/src/utils/validation.js:16-30 | an email error exactly when the email is missing or fails isEmail (required first), a password error exactly when it is missing, and an empty map otherwise |
| FormValidation.RegisterValidation | frontend/src/utils/validation.js:32-58 | at most one error per field with "required" before the format check, a confirmPassword error exactly when the passwords differ, and no error exactly when every check passes |
| FormValidation.ClientPasswordIsWeaker | frontend/src/utils/validation.js:7-9 | six lower-case letters pass isPassword but are not a strong password |
| FieldValidation.IsValidEmail | backend/utils/validation.utils.js:6-9 | accepted exactly when the address has no whitespace and splits as a@b.c with a, b and c non-empty |
| FieldValidation.EmailShapeSplits | backend/utils/validation.utils.js:7 | the shape a@b.c is an `@` after the first character followed two or more places later by a `.` that is not last |
| FieldValidation.EmailScan | backend/utils/validation.utils.js:7 | the first `@` after position 0 and the last `.` before the end decide whether such split points exist |
| FieldValidation.IsStrongPassword | backend/utils/validation.utils.js:16-20 | accepted exactly when the lookaheads each find their class over `.*` and `.{6,}$` consumes the whole string |
| FieldValidation.StrongPasswordNeedsAllClasses | backend/utils/validation.utils.js:16-20 | a password with no lower-case letter, no upper-case letter or no digit, with a line terminator, or shorter than six characters is never strong |
| FieldValidation.StrongPasswordExamples | backend/utils/validation.utils.js:18 | "Abc123" is strong; a three-character one and one with a line break are not |
| FieldValidation.IsValidUsername | backend/utils/validation.utils.js:27-31 | an accepted name is 3 to 30 characters long, holds no whitespace, is never a valid email and is unchanged by trimming |
| ErrorHandler.Join | backend/middleware/error.middleware.js:34 | `join` of no parts is empty, of one part is that part, and starts with the first part |
| ErrorHandler.DuplicateMessage | backend/middleware/error.middleware.js:20-29 | the first key `email` or `username` picks its message, anything else the generic one |
| ErrorHandler.HandleError | backend/middleware/error.middleware.js:6-58 | the sequence of overwriting checks equals the precedence classification |
| ErrorHandler.Classify | backend/middleware/error.middleware.js:6-58 | the middleware throws exactly when a matched check reads a missing keyPattern, errors or first detail; every answer has a non-zero status and a non-empty message |
| ErrorHandler.CastErrorIsNotFound | backend/middleware/error.middleware.js:13-16 | a cast error is answered 404 'Không tìm thấy tài nguyên' unless a later check also matches |
| ErrorHandler.DuplicateKeyIsBadRequest | backend/middleware/error.middleware.js:19-30 | a duplicate key is answered 400 with the message chosen by the first key pattern field |
| ErrorHandler.ValidationErrorIsBadRequest | backend/middleware/error.middleware.js:33-36 | a validation error is answered 400 with the field messages joined by ', ', or 'Lỗi server' when there are none |
| ErrorHandler.JoiErrorIsBadRequest | backend/middleware/error.middleware.js:39-41 | a Joi error is answered 400 with its first detail message unless a token check also matches |
| ErrorHandler.TokenErrorsAreUnauthorized | backend/middleware/error.middleware.js:44-51 | both token errors are answered 401 with their own messages, whatever other checks matched |
| ErrorHandler.OtherErrorsKeepTheirStatus | backend/middleware/error.middleware.js:7-8 | any other error keeps its own status and message, falling back to 500 and 'Lỗi server' |

## Left out

- Express and Socket.IO wiring, route order and the authentication middleware are not modelled. The caller of every handler is an existing user, as the `protect` middleware loads it.
- Socket.IO rooms are recorded as (socket, room) joins and emits as a log. Actual delivery, reconnection and the `connection` event are not modelled.
- Mongoose `populate`, projections, timestamps and ObjectId casting are not modelled. The handlers' `error.kind === 'ObjectId'` → 404 branches and other 500 answers from the database are therefore not modelled. Ids are compared as plain strings.
- Messages with equal `createdAt` are ordered by insertion. MongoDB's order among ties is unspecified.
- Negative `limit` and `skip` follow MongoDB: a negative limit means its magnitude, and a negative skip is refused, which the handler answers with 500.
- `Math.ceil` on a floating-point quotient is integer ceiling division. For a negative limit the model gives the same result, so −0 and 0 are not distinguished.
- Each handler's awaited steps run in sequence without interleaving. Two saves of one request, as in `acceptFriendRequest`, are applied together; `Promise.all` in `getUnreadCount` is a sequential map.
- `createGroupChat` takes the participant list already parsed. A malformed JSON string, which the handler answers with 500, is not modelled.
- UserController.UpdateProfile: a field left out of the request is `None` and stays untouched, as Mongoose drops undefined keys from `$set`. Of the schema's options on the username, `trim` (in the `findOne` filter and in the update) and the `unique` index are modelled; the `required` and `minlength` validators do not run on this update and are not modelled.
- Lengths are counted in Unicode scalar values, not UTF-16 code units. Strings with characters outside the Basic Multilingual Plane are measured differently from JavaScript.
- FormValidation.LoginValidation and FormValidation.RegisterValidation take the client's `isEmail` expression as a parameter. The expression itself is not transcribed.
- The bcrypt, JWT and Joi libraries are not modelled. The error middleware sees only the error fields it reads.
- Error codes other than numbers are represented by any number other than 11000.
- Listing and search handlers are not modelled: `getUsers`, `getUserById`, `getChats`, `getFriendRequests` and `getFriends`. They only read the store. `getUserById` answers 404 for an unknown id and the others have no guard of their own.
- FieldValidation.IsValidUsername: its contract states what an accepted name implies (length, no whitespace, no email, trimmed). The character class `[a-zA-Z0-9_-]` itself is stated only by its body.
