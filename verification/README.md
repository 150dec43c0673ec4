# dory-chat relay core in Dafny

dory-chat is an ephemeral chat service. A Next.js server keeps three MongoDB
collections: messages, rooms and users. Clients talk to it through a few JSON
routes. This project models the routes that change or read those collections,
together with the runtime settings in `lib/config.ts`:

- `GET /api/messages` first sweeps every message older than one minute. It
  then returns a room's history (`type=room`) or a direct conversation. For a
  direct conversation it first marks the contact's `sent` messages to the
  caller as `delivered`.
- `POST /api/messages` sweeps in the same way, then stores a new `sent`
  message.
- `POST /api/rooms` draws random six-character codes until one is unused,
  creates the room with the caller as its only participant and adds the room
  to the caller's room list.
- `POST /api/rooms/join` finds a room by code. It refuses an outsider once
  two participants are in, and otherwise adds the caller on both sides with
  `$addToSet`.
- `POST /api/rooms/leave` removes the caller from the room and the room from
  the caller with `$pull`, on both sides.
- `POST /api/contacts` adds a contact to the caller's own list (one-way) and
  returns the contact's public profile.
- `GET /api/users/search` returns at most ten public profiles whose name
  matches the query, leaving out the caller.
- `lib/config.ts` reads integer settings from `NEXT_PUBLIC_*` environment
  variables through `parseInt(value, 10)`, falling back to a default.

Each collection is a class whose `rows` field the route handlers update
(`MessageModel.MessageCollection`, `RoomModel.RoomCollection`,
`UserModel.UserCollection`). Each update method states its new rows as a pure
function of the old ones. Those functions carry the properties: the sweep
boundary, what "mark delivered" changes, the exact multiset and order of a
conversation, the two-participant cap, `$addToSet` adding exactly once,
`$pull` keeping the order of the others, and so on. MongoDB filters are a
`Filter` datatype with a single `Select`. `$addToSet` and `$pull` are
`Seqs.AddToSet` and `Seqs.Pull`. JavaScript truthiness of a request field is
`Common.Falsy`: the field is missing or is the empty string. A route's outcome
is a `Common.Response`: 200 (OK), 400 (Bad Request), 403 (Forbidden) or
404 (Not Found), as in sections 15.3.1, 15.5.1, 15.5.4 and 15.5.5 of RFC 9110.

The server's sweep window is the literal `60 * 1000` ms written in the
messages route (`MessagesRoute.SweepWindowMs`). It is not read from
`MESSAGE_TTL_MS`, so the server keeps sweeping after one minute even when the
environment sets another lifetime, although `lib/config.ts` describes
`MESSAGE_TTL_MS` as used by the server and a lifetime of zero or less as
"never expire". The model keeps the code as written, and
`MessagesRoute.SweepIgnoresMessageTtl` proves the discrepancy: with the
setting at zero or below, a row older than one minute is still deleted.

The code modelled here stores and returns the `text` field exactly as posted
and does no cryptography, so the model has none either: `text` is an opaque
string.

`parseInt` follows section 19.2.5 of ECMA-262 (radix 10): skip leading
StrWhiteSpaceChar characters, take an optional sign, then the longest run of
decimal digits. No digit gives NaN, which is modelled as `None`.

## Model

| member | source | states |
|---|---|---|
| Seqs.AddToSet | dory-chat/src/app/api/rooms/join/route.ts:31-33 | `$addToSet`: after the update the value is present; membership is the old membership plus the value; nothing changes if it was already present; otherwise it is appended at the end and the old array is a prefix; an array without duplicates stays without duplicates |
| Seqs.AddToSetOnce | dory-chat/src/app/api/contacts/route.ts:20-24 | on an array without duplicates, `$addToSet` leaves the value exactly once, and running it twice equals running it once |
| Seqs.Pull | dory-chat/src/app/api/rooms/leave/route.ts:18-20 | `$pull`: no copy of the value is left; every other element keeps its count; nothing changes when the value is absent |
| Seqs.PullConcat | dory-chat/src/app/api/rooms/leave/route.ts:18-20 | `$pull` works element by element: pulling from a concatenation is the concatenation of the pulls, so the others keep their order |
| Seqs.PullNoDups | dory-chat/src/app/api/rooms/leave/route.ts:18-25 | `$pull` keeps an array free of duplicates |
| Seqs.Apply | dory-chat/src/app/api/rooms/leave/route.ts:18-25 | applying `$addToSet x` makes x present, applying `$pull x` makes it absent, every other element stays as it was, and no duplicates appear |
| MessageModel.Select | dory-chat/src/app/api/messages/route.ts:21 | a filter keeps (find) or drops (deleteMany) exactly the matching rows, each as often as it is stored |
| MessageModel.SetStatus | dory-chat/src/app/api/messages/route.ts:37-40 | `updateMany({..}, {$set: {status}})` sets the status of exactly the matching rows, changes no other field and keeps row order |
| MessageModel.InsertByCreatedAt | dory-chat/src/app/api/messages/route.ts:49 | inserting into rows ordered by `createdAt` keeps them ordered and adds exactly that one row |
| MessageModel.SortByCreatedAt | dory-chat/src/app/api/messages/route.ts:49 | `.sort({ createdAt: 1 })` returns the same rows (as a multiset) in ascending `createdAt` |
| MessageModel.SelectKeepsDistinctIds | dory-chat/src/app/api/messages/route.ts:21 | deleting rows keeps `_id` values unique |
| MessageModel.MessageCollection.DeleteMany | dory-chat/src/app/api/messages/route.ts:21 | the collection keeps exactly the rows the filter does not match, and its ids stay unique |
| MessageModel.MessageCollection.UpdateStatus | dory-chat/src/app/api/messages/route.ts:37-40 | the collection's rows become `SetStatus` of the old rows |
| MessageModel.MessageCollection.Create | dory-chat/src/app/api/messages/route.ts:75-80 | a row with a fresh `_id` is appended, and ids stay unique |
| MessageModel.MessageCollection.FindSorted | dory-chat/src/app/api/messages/route.ts:44-49 | `find(filter).sort({ createdAt: 1 })` returns exactly the matching stored rows, oldest first |
| MessagesRoute.Sweep | dory-chat/src/app/api/messages/route.ts:19-21 | the sweep keeps exactly the rows created at or after `now - 60000`, each as often as before |
| MessagesRoute.SweepBoundary | dory-chat/src/app/api/messages/route.ts:20-21 | the cutoff is strict (`$lt`): a row exactly 60000 ms old survives and one 60001 ms old is deleted |
| MessagesRoute.SweepIgnoresMessageTtl | dory-chat/src/app/api/messages/route.ts:19-21 | the sweep window does not follow `NEXT_PUBLIC_MESSAGE_TTL_MS`: with the setting at zero or below ("never expire", config.ts:10) the setting reads as that value, yet a row older than 60000 ms is still deleted |
| MessagesRoute.MarkDelivered | dory-chat/src/app/api/messages/route.ts:34-40 | only the `status` field may change; a changed row was a `sent` message from the contact to the caller and is now `delivered`; afterwards no message from the contact to the caller is still `sent` |
| MessagesRoute.Conversation | dory-chat/src/app/api/messages/route.ts:44-49 | a direct conversation holds exactly the rows between the two ids in either direction, each as often as stored, in ascending `createdAt` |
| MessagesRoute.RoomHistory | dory-chat/src/app/api/messages/route.ts:23-28 | a room history holds exactly the rows addressed to the room, each as often as stored, in ascending `createdAt` |
| MessagesRoute.Get | dory-chat/src/app/api/messages/route.ts:5-58 | a missing `userId` or `contactId` gives 400 "Missing required params" and leaves the store unchanged; `type=room` sweeps and returns the room history; otherwise the handler sweeps, marks delivered and returns the conversation read after the update |
| MessagesRoute.DirectChatNoSentFromContact | dory-chat/src/app/api/messages/route.ts:34-49 | the conversation a direct GET returns contains no `sent` message from the contact to the caller |
| MessagesRoute.DirectChatExact | dory-chat/src/app/api/messages/route.ts:19-49 | a direct GET returns a message iff it survived the sweep and runs between the two ids in either direction, oldest first |
| MessagesRoute.Post | dory-chat/src/app/api/messages/route.ts:60-89 | a missing `senderId`, `receiverId` or `text` gives 400 "Missing required fields" and leaves the store unchanged; otherwise the store is swept, the new message (status `sent`, created now) is appended and returned |
| MessagesRoute.PostAddsExactlyOne | dory-chat/src/app/api/messages/route.ts:71-84 | after a POST the new message is stored exactly once and every other surviving row keeps its count |
| UserModel.UpdateUser | dory-chat/src/app/api/contacts/route.ts:22-24 | `findByIdAndUpdate(id, {$addToSet/$pull})` changes only the named array of the users with that id; a missing id changes nothing |
| UserModel.FindProfile | dory-chat/src/app/api/contacts/route.ts:32 | `findById(id).select("_id name avatar")` gives null iff no user has that id, and otherwise the public profile of a stored user with that id |
| UserModel.UpdateUserValid | dory-chat/src/app/api/rooms/leave/route.ts:23-25 | a user update keeps user ids unique and contact and room lists free of duplicates |
| UserModel.UserCollection.Update | dory-chat/src/app/api/rooms/leave/route.ts:23-25 | the collection's rows become `UpdateUser` of the old rows, and the collection stays valid |
| RoomModel.FindByCode | dory-chat/src/app/api/rooms/join/route.ts:17 | `Room.findOne({ code })` gives null iff no room has the code, and otherwise a stored room with that code |
| RoomModel.UpdateParticipants | dory-chat/src/app/api/rooms/join/route.ts:31-33 | `findByIdAndUpdate(roomId, ...)` changes only the participants of the room with that id; a missing id changes nothing |
| RoomModel.UpdateParticipantsValid | dory-chat/src/app/api/rooms/leave/route.ts:18-20 | a participant update keeps room ids and codes unique and participant lists free of duplicates |
| RoomModel.RoomCollection.FindOne | dory-chat/src/app/api/rooms/route.ts:28 | the lookup by code on the live collection: null iff the code is unused |
| RoomModel.RoomCollection.Create | dory-chat/src/app/api/rooms/route.ts:34-38 | a room with a fresh id and an unused code is appended, and codes stay unique as the unique index demands |
| RoomModel.RoomCollection.Update | dory-chat/src/app/api/rooms/join/route.ts:31-33 | the collection's rows become `UpdateParticipants` of the old rows, and the collection stays valid |
| RoomsRoute.CodeFromShape | dory-chat/src/app/api/rooms/route.ts:6-13 | a code built from n draws in [0, 1) has length n and only characters of the 36-character alphabet |
| RoomsRoute.GenerateCode | dory-chat/src/app/api/rooms/route.ts:6-13 | the loop appends `chars.charAt(floor(draw * 36))` once per position; the result is the code of those draws, of the requested length, over the alphabet |
| RoomsRoute.UniqueCode | dory-chat/src/app/api/rooms/route.ts:26-32 | the retry loop returns the first drawn code that no room uses; it is six characters long and over the alphabet |
| RoomsRoute.Create | dory-chat/src/app/api/rooms/route.ts:15-50 | a missing `userId` gives 400 and changes nothing; otherwise one room is appended, with an unused code, the caller as sole participant and the name "Room " followed by the code, and the room is added once to the caller's rooms; the two-participant cap still holds |
| JoinRoute.Join | dory-chat/src/app/api/rooms/join/route.ts:6-45 | a missing field gives 400; an unknown code gives 404 "Room not found"; an outsider at a full room gives 403 "Room is full (Max 2 participants)"; in each of these cases nothing changes; otherwise the caller is added to the room and the room to the caller, and the room as read before the update is returned; for canonical ids, the cap still holds |
| JoinRoute.JoinKeepsCap | dory-chat/src/app/api/rooms/join/route.ts:24-33 | an admitted join never takes a room beyond two participants |
| JoinRoute.JoinEffect | dory-chat/src/app/api/rooms/join/route.ts:24-38 | after an admitted join the caller is a participant exactly once; re-joining changes nothing; other rooms are untouched |
| LeaveRoute.Leave | dory-chat/src/app/api/rooms/leave/route.ts:6-32 | a missing field gives 400 and changes nothing; otherwise the caller is pulled from the room's participants, the room is pulled from the caller's rooms, and success is returned even when neither exists |
| LeaveRoute.LeaveEffect | dory-chat/src/app/api/rooms/leave/route.ts:17-20 | after leaving, the caller is no longer a participant; the other participants keep their order; other rooms are untouched; leaving a room one is not in changes nothing |
| LeaveRoute.LeaveUserEffect | dory-chat/src/app/api/rooms/leave/route.ts:22-25 | after leaving, the room is gone from the caller's rooms, and other users are untouched |
| ContactsRoute.AddContact | dory-chat/src/app/api/contacts/route.ts:5-39 | a missing field gives 400 "Missing required fields"; adding oneself gives 400 "Cannot add yourself"; in both cases nothing changes; otherwise the contact is added to the caller's contacts, and the contact's public profile is returned, or null for an unknown id; for canonical ids, no user ever lists itself as a contact |
| ContactsRoute.AddContactKeepsNoSelf | dory-chat/src/app/api/contacts/route.ts:14-24 | for canonical ids: since self-adds are refused, no user's contacts ever contain its own id |
| ContactsRoute.AddContactEffect | dory-chat/src/app/api/contacts/route.ts:20-30 | the contact appears exactly once in the caller's contacts; the contact's own list is unchanged (one-way); repeating the request changes nothing |
| UsersSearch.Hits | dory-chat/src/app/api/users/search/route.ts:19-23 | the filter returns the profile of every user whose name matches and who is not the caller, and of no one else |
| UsersSearch.HitsNoDups | dory-chat/src/app/api/users/search/route.ts:19-23 | `find` returns each matching user once: since `_id` values are unique, no profile appears twice |
| UsersSearch.Search | dory-chat/src/app/api/users/search/route.ts:11-26 | an empty query gives []; at most ten profiles are returned; each belongs to a stored user whose name matches and who is not the caller |
| UsersSearch.SearchComplete | dory-chat/src/app/api/users/search/route.ts:19-24 | `.limit(10)` only truncates: the result is all the hits when there are at most ten (so every eligible user appears), and otherwise the first ten hits; no profile repeats, so more than ten matches give ten different users |
| Config.LeadingWhiteSpace | dory-chat/src/lib/config.ts:19 | the count of leading white-space characters `parseInt` skips: every one of them is white space, and the next character is not |
| Config.DigitPrefixLength | dory-chat/src/lib/config.ts:19 | the length of the leading run of decimal digits `parseInt` reads: every one of them is a digit, and the next character is not |
| Config.ParseInt | dory-chat/src/lib/config.ts:19 | `parseInt(value, 10)` is NaN exactly when no decimal digit follows the leading white space and the optional sign; a negative result needs a leading `-` after the white space |
| Config.ParseEnvInt | dory-chat/src/lib/config.ts:17-21 | a missing or empty variable gives the default; a value `parseInt` reads as NaN gives the default; otherwise the parsed integer |
| Config.ParseIntSignedDigits | dory-chat/src/lib/config.ts:19 | after an optional `+` or `-`, `parseInt` reads the value of any run of digits, leading zeros included, up to the first non-digit (so "+5" is 5, "007" is 7 and "-0" is 0); with `ParseIntSkipsWhiteSpace` this covers every input that has a digit |
| Config.ParseIntDecimal | dory-chat/src/lib/config.ts:19 | `parseInt` reads back every integer written in decimal, whatever non-digit text follows it |
| Config.ParseIntSkipsWhiteSpace | dory-chat/src/lib/config.ts:19 | leading white space does not change the value `parseInt` reads |
| Config.ParseEnvIntNaN | dory-chat/src/lib/config.ts:17-20 | any text with no digit after the white space and the optional sign (for example "abc" or " -x") falls back to the default, whatever the default |
| Config.ParseEnvIntKeepsIntegers | dory-chat/src/lib/config.ts:15-20 | any integer value, zero and negative ones included, is kept as it is rather than replaced by the default |
| Config.FadeStart | dory-chat/src/lib/config.ts:34-37 | for a positive lifetime fading starts one second before expiry, so before it; otherwise at `MAX_SAFE_INTEGER`, that is never; `MessageTtlFromEnvironment` and `Defaults` carry this to the configured settings |
| Config.ClientAliases | dory-chat/src/lib/config.ts:31-38 | `CLIENT_MESSAGE_TTL_MS` and `CLIENT_MESSAGE_FADE_START_MS` equal the server values whatever the environment holds |
| Config.Defaults | dory-chat/src/lib/config.ts:26-58 | with no variable set, the message lifetime is 60000 ms, fading starts at 59000 ms, rooms never expire (0), and the cooldowns are 10 s and 2 s; the client aliases equal the server values |
| Config.MessageTtlFromEnvironment | dory-chat/src/lib/config.ts:26-37 | a lifetime set in the environment is used as written; fading starts one second earlier for a positive lifetime and never (`MAX_SAFE_INTEGER`) otherwise, so a lifetime under a second gives a negative fade start |

## Left out

- Failures of the database, of `request.json()` and of Mongoose casts (a malformed ObjectId string) end in the catch-all 500 response. They are not modelled: every database call is assumed to succeed.
- Ids are compared as the strings the request carries. The source compares raw strings only at contacts/route.ts:14 (`userId === contactId`) and join/route.ts:24 (`p.toString() === userId`). Everywhere else Mongoose casts the string to an ObjectId, and that cast also accepts upper-case hex: `findByIdAndUpdate`, `$addToSet` and `$pull` on ObjectId arrays, and `_id: { $ne }` in the search. The model assumes every user and room id arrives in the canonical lower-case 24-hex form the server issues.
- ContactsRoute.AddContactKeepsNoSelf: holds for canonical ids only. A caller posting its own id in upper case passes the check at contacts/route.ts:14 and stores its own ObjectId in its contacts.
- ContactsRoute.AddContact: "no user lists itself" holds for canonical ids only, for the same reason.
- JoinRoute.Join: the cap and "listed once" hold for canonical ids only. A participant who rejoins with an upper-case id is one participant to MongoDB but two entries in the model, which can then refuse a third user whom the source admits.
- Request fields are optional strings. A JSON body can carry numbers, objects or arrays in these fields, and JavaScript truthiness and `===` on those values are not modelled.
- `connectToDatabase` and every `console.log` / `console.error` are left out, since they do not affect the result.
- Requests run one at a time. The race between the code check and the insert in `POST /api/rooms`, and between the participant check and the update in the join route, is not modelled.
- `Math.random()` is a sequence of reals in [0, 1) passed in as `draws`. Real arithmetic stands for floating point in `Math.floor(Math.random() * 36)`.
- RoomsRoute.UniqueCode: requires, as a ghost precondition, that some drawn code is unused. The source loops forever when every drawn code is taken, so the model covers only the runs that end.
- The `_id` Mongo assigns to a new message or room is a parameter (`newId`, `newRoomId`) that the caller guarantees is fresh.
- The server reads `Date.now()` once for the sweep and again (through the schema default) for `createdAt`. Both are the one parameter `now`; the milliseconds between them are not modelled.
- MessageModel.SortByCreatedAt: MongoDB does not fix the order of rows with equal `createdAt`. The model keeps table order for ties, and its contract promises only ascending order and the same rows.
- The natural order of `find` without `sort` (search results, which ten rows `.limit(10)` keeps) is modelled as table order.
- The case-insensitive `$regex` name match is the parameter `nameMatches(query, name)`. Regular-expression semantics are not modelled.
- The users' `sessionId` and `createdAt` and the rooms' `createdAt` are not read by the modelled routes and are not modelled. `ROOM_TTL_MS` and the two cooldowns are computed (`Config.RoomTtlMs` and the others) but no modelled route uses them.
- Config.ParseEnvInt: integers are unbounded. JavaScript's loss of precision above 2^53 and the value -0 (read as 0) are not modelled.
- Strings are sequences of Dafny characters, not UTF-16 code units. Every white-space character `parseInt` skips lies in the Basic Multilingual Plane, so the two agree there.
- `ParseInt` is the radix-10 case only; the `0x` prefix handling of other radices does not arise with radix 10.
- The client side (`ChatView.tsx`, the fading and cooldown timers) and the user-registration route are not part of this model.
