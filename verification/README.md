# Secure chat backend: server-side decisions

This project models, in Dafny, the server side of an end-to-end encrypted chat
application built on Flask and Socket.IO. Encryption and decryption happen in
the browser, so the server never sees plaintext keys. It stores the users'
public keys, checks the credentials of local accounts, keeps the chat rooms
and stores the ciphertexts and their per-message AES key and IV.

The modelled parts are:

- **Auth routes** (`backend/routes/auth_routes.py`):
  - the `require_auth` bearer-token guard;
  - `register`: required fields, normalisation, validation, the duplicate
    check, the insert and the session;
  - `login`: by email or username.
- **User routes** (`backend/routes/user_routes.py`):
  - the public-key lookup;
  - the key upload, which bumps `key_version`;
  - the user search, an SQL `ILIKE` limited to ten rows.
- **Socket events** (`backend/services/messaging/socket_handler.py`):
  - `join_room`, which auto-creates `general`;
  - `send_message` and the deprecated `relay_message`;
  - `get_chats`: the chat list, most recent activity first;
  - `get_chat_history`: one page of a room's history, oldest first, with
    `has_more`.
- **Message model** (`backend/models/message.py`): the `Message` row, its
  column defaults and `to_dict`.

Each route or event is a pure function. It takes the request and the database
and returns the reply or emitted event, the database after the call and, for
the auth routes, the session. The database is an immutable value (`Database.Db`)
that holds:

- users, rooms and messages, each as a sequence of rows;
- the room manager's membership pairs;
- the two auto-increment counters.

Some behaviour is modelled exactly as the code writes it, even where a reader
might expect otherwise:

- A duplicate registration is reported from the first clashing row. When an
  earlier user holds the username and a later one the email, the answer is
  "Username already taken".
- A stored empty public key counts as present in the search but gets 404 from
  the lookup.
- `has_more` only says that the page came back full. It is set even when the
  room has no further message.
- The chat history does not check that the requester belongs to the room.
- The chat list fails as a whole when the newest message of a listed room has
  no timestamp, because `isoformat()` is called on None. NULL timestamps sort
  last, so this happens only when no message of that room has a timestamp.

Modules:

| file | module | contents |
|---|---|---|
| common.dfy | Common | `Option`, `Field` (a JSON key that is absent, null or present, as `dict.get` sees it), Python truthiness, `Reply` |
| seqs.dfy | Seqs | filter, `.first()`, `.limit`, `OFFSET/LIMIT` windows, `reversed` |
| text.dfy | Text | `str.strip()`, ASCII `str.lower()`, the `\s` class |
| sorting.dfy | Sorting | stable insertion sort by descending key |
| message.dfy | MessageModel | the message row and `to_dict` |
| database.dfy | Database | users, rooms, the database value, primary-key lookups |
| auth.dfy | AuthRoutes | `require_auth`, `register`, `login` |
| users.dfy | UserRoutes | public-key lookup, key upload, user search |
| sockets.dfy | SocketHandler | `join_room`, `send_message`, `relay_message`, `get_chats`, `get_chat_history` |

## Model

| member | source | states |
|---|---|---|
| Common.Field.Get | backend/routes/auth_routes.py:90-94 | `data.get(key)` reads a missing key and an explicit null alike as None; a present value is returned as is |
| Common.Field.GetOr | backend/services/messaging/socket_handler.py:319-320 | `data.get(key, default)` falls back to the default only for a missing key; an explicit null stays None |
| Text.Lower | backend/routes/auth_routes.py:96-97 | lowercasing keeps the length and maps every character through the ASCII lowercase map |
| Text.Strip | backend/routes/auth_routes.py:99 | the result is the block of the input left after removing the leading and trailing whitespace, and it neither starts nor ends with whitespace |
| Text.Normalize | backend/routes/auth_routes.py:96-97 | a normalised email or username has no uppercase letter and no whitespace at either end |
| Text.NormalizeIdempotent | backend/routes/auth_routes.py:199 | normalising twice equals normalising once, so a stored email or username matches itself when sent back at login |
| Sorting.SortDesc | backend/services/messaging/socket_handler.py:299 | the result is a permutation (same multiset) of the input, ordered by non-increasing key |
| Sorting.HeadIsMax | backend/services/messaging/socket_handler.py:282 | the first element of the descending order has the largest key of all |
| Sorting.SortKeepsDistinct | backend/services/messaging/socket_handler.py:299 | sorting keeps the chat ids pairwise distinct |
| Seqs.FirstIndex | backend/routes/auth_routes.py:130-132 | `.first()` finds the first row satisfying the filter, with no earlier row satisfying it, or reports that no row does |
| Seqs.Window | backend/services/messaging/socket_handler.py:332-333 | `OFFSET o LIMIT n` keeps exactly the rows ranked `o` to `o+n-1` that exist; with no limit it keeps everything from `o` on |
| Seqs.WindowsTile | backend/services/messaging/socket_handler.py:332-333 | a window of `n` rows followed by the window that starts right after it equals the window that spans both |
| Seqs.AllSome | backend/services/messaging/socket_handler.py:280-296 | a loop that fails on its first failing element fails exactly when some element fails; otherwise it yields one result per element, in order |
| MessageModel.NewMessage | backend/models/message.py:5-15 | a new row keeps the given ids, content, key and IV; a missing `is_encrypted` or `message_type` takes the default (not encrypted, `text`); the status starts as `sent`, nothing is delivered and the timestamp is the insertion time |
| MessageModel.ToDict | backend/models/message.py:17-31 | the dictionary repeats the row id as `message_id`; an unset delivery time or timestamp becomes null; the message can be read back from it unchanged |
| Database.UserIndex | backend/routes/user_routes.py:21 | the primary-key lookup finds a user with that id, or there is none |
| Database.RoomIndex | backend/services/messaging/socket_handler.py:84 | the room lookup by id finds a room with that id, or there is none |
| Database.AddUserKeepsWellFormed | backend/routes/auth_routes.py:147-159 | inserting a user under the next auto-increment id keeps user ids unique and below the counter |
| AuthRoutes.BearerToken | backend/routes/auth_routes.py:17-22 | there is no token exactly when the header is missing or does not start with `Bearer `; otherwise the token is the text after the prefix, up to the next `Bearer ` |
| AuthRoutes.RequireAuth | backend/routes/auth_routes.py:14-29 | no token gives "No token provided"; a token the verifier rejects gives "Invalid token"; otherwise the request carries the verified claims |
| AuthRoutes.MissingField | backend/routes/auth_routes.py:88-94 | names the first of email, password, username, display_name that is missing, null or empty; when none is, all four are present |
| AuthRoutes.Normalized | backend/routes/auth_routes.py:96-99 | email and username are lowercased and stripped, the display name is only stripped, and the password is kept verbatim |
| AuthRoutes.IsEmailIffRegex | backend/routes/auth_routes.py:102-103 | on a stripped string, the executable email scan accepts exactly the strings the email regular expression matches, including Python's `$` before a final newline |
| AuthRoutes.UsernameRegexOnTrimmed | backend/routes/auth_routes.py:123 | on a stripped string, the username pattern accepts exactly the non-empty strings of letters, digits and underscores |
| AuthRoutes.AccountError | backend/routes/auth_routes.py:101-127 | reports the first failing check, in the order email format, password length ≥ 6, username length 3–30, username characters; it reports nothing exactly when all four hold |
| AuthRoutes.DuplicateError | backend/routes/auth_routes.py:130-144 | there is no duplicate exactly when no stored user has the email or the username; otherwise the first clashing row decides: "Email already registered" if it holds the email, else "Username already taken" |
| AuthRoutes.DuplicatePriority | backend/routes/auth_routes.py:136-144 | with no stored user holding the email, a clash is always reported as a taken username; with the email held and the username free, it is reported as a registered email |
| AuthRoutes.EmailClashCanBeReportedAsUsername | backend/routes/auth_routes.py:130-144 | a concrete table where an earlier row holds the username and a later row holds the email reports "Username already taken" |
| AuthRoutes.NewLocalUser | backend/routes/auth_routes.py:147-156 | the inserted row carries the normalised email and username, the display name (also as `name`), the password hash, provider `local` and the creation time; no public key and offline are the User model defaults assumed under "## Left out" |
| AuthRoutes.Enroll | backend/routes/auth_routes.py:101-174 | a validation failure gives 400 and a clash gives 409; success happens exactly when the account is valid and clashes with no one, and then returns 201 with the next id, appends the new user and binds the session to it; every failure changes nothing |
| AuthRoutes.Register | backend/routes/auth_routes.py:81-185 | a request without a JSON body fails with the 500 message of the caught exception; a missing field gives 400 "<field> is required"; otherwise the outcome is that of the normalised account's checks; every failure leaves the database and session unchanged |
| AuthRoutes.RegisterRejects | backend/routes/auth_routes.py:101-144 | with all fields present, an invalid account is refused with its first validation error, and 409 is returned exactly when the account is valid and clashes with a stored user |
| AuthRoutes.RegisterSucceeds | backend/routes/auth_routes.py:146-174 | a successful registration had all fields, a valid account and no clash; it inserted the new local user under the next id and bound the session to it |
| AuthRoutes.Login | backend/routes/auth_routes.py:187-246 | a missing body gives 500 and a missing email or password gives 400; login succeeds exactly when the first user whose email or username equals the normalised identifier has a password that the check accepts; with both fields given, every other case (unknown identifier, no password hash, rejected password) gives 401 "Invalid email or password"; success marks that user online, seen now, and binds the session; every failure changes nothing |
| AuthRoutes.RegisterThenLogin | backend/routes/auth_routes.py:146-218 | an account just registered logs in with its email or its username as sent, and the session then belongs to it |
| AuthRoutes.RegisterKeepsWellFormed | backend/routes/auth_routes.py:146-159 | registration keeps user ids unique and below the counter |
| AuthRoutes.LoginKeepsWellFormed | backend/routes/auth_routes.py:220-223 | login keeps the database well formed |
| UserRoutes.Caller | backend/routes/user_routes.py:14-19 | the guard's rejection is passed on unchanged; verified empty claims give "Authentication required"; verified non-empty claims are accepted as they are |
| UserRoutes.GetPublicKey | backend/routes/user_routes.py:9-55 | 401 for a rejected caller; 404 for an unknown user or one whose key is null or empty; 500 "Invalid public key format" for a stored key that fails the format check, and for nothing else; success exactly when the stored key is non-empty and well formed, returning that user's key, version and creation time |
| UserRoutes.UpdatePublicKey | backend/routes/user_routes.py:57-112 | checks run in the order caller, body, key format, user; success exactly when the caller is accepted, the key is well formed and the user exists; it replaces that user's key and raises `key_version` by one, and every failure changes nothing |
| UserRoutes.UploadThenGet | backend/routes/user_routes.py:93-105 | after a successful upload of a non-empty key, the lookup returns exactly that key with the version one above the previous one |
| UserRoutes.UpdatePublicKeyKeepsWellFormed | backend/routes/user_routes.py:93-96 | a key upload keeps the database well formed |
| UserRoutes.ToHit | backend/routes/user_routes.py:138-146 | a search hit carries the user's id, username, email and picture, and reports a key exactly when the key is non-null |
| UserRoutes.SearchUsers | backend/routes/user_routes.py:114-151 | an unauthenticated caller gets 401; a blank query gives 400; any other query gives 200, listing at most ten hits, in order the first of the users whose username or email matches the stripped query, one hit per user |
| UserRoutes.LikePrefix | backend/routes/user_routes.py:134-135 | for a pattern without wildcards, `q%` matches exactly the strings that start with `q` |
| UserRoutes.LikeLeadingPercent | backend/routes/user_routes.py:134-135 | `%r` matches exactly the strings with a suffix that `r` matches |
| UserRoutes.LikeIsContains | backend/routes/user_routes.py:134-135 | for a query without `%` or `_`, `LIKE '%q%'` is substring search |
| UserRoutes.SearchIsSubstring | backend/routes/user_routes.py:133-136 | for a query without wildcards, a user matches exactly when the lowercased username or email contains the lowercased query |
| UserRoutes.EmptyKeyListedButNotServed | backend/routes/user_routes.py:28-32 | a stored empty key is reported as present by the search (line 145) but answered with 404 by the lookup |
| SocketHandler.JoinRoom | backend/services/messaging/socket_handler.py:69-127 | both ids are required; an unknown room other than `general` is an error; `general` is created on first use; if the room manager accepts, the user becomes a member and the event carries the room's name, otherwise "Failed to join room"; users, messages and counters never change |
| SocketHandler.SendMessage | backend/services/messaging/socket_handler.py:169-217 | an incomplete payload or a sender outside the room is refused and nothing is stored; success happens exactly when the payload is complete and the sender is a member, and then exactly one row is appended under the next id with the payload's fields, the defaults and the current time |
| SocketHandler.ToSendRequest | backend/services/messaging/socket_handler.py:245-250 | the converted payload keeps the sender, defaults the room to `general`, takes the content or else the encrypted message or else '', and carries no encryption fields |
| SocketHandler.RelayMessage | backend/services/messaging/socket_handler.py:238-253 | a stored legacy message is never encrypted and has no key or IV, lands in the named room or `general`, and has non-empty content; a payload with neither content nor encrypted message is refused |
| SocketHandler.RelayIsPlainSend | backend/services/messaging/socket_handler.py:245-253 | every legacy message has the same outcome and stored row as a plain `send_message` with the same sender, room (default `general`) and type, no encryption fields, and as content `content` if the key is there, else `encrypted_message`, else '' |
| SocketHandler.RelayFallsBackToEncryptedMessage | backend/services/messaging/socket_handler.py:248 | a legacy message with only `encrypted_message` is sent exactly as a plain message whose content is that field |
| SocketHandler.RoomMessages | backend/services/messaging/socket_handler.py:330 | the rows selected are exactly the stored messages of that room |
| SocketHandler.NewestFirst | backend/services/messaging/socket_handler.py:282 | the room's messages, as a permutation, ordered by descending timestamp with a NULL timestamp last |
| SocketHandler.Put | backend/services/messaging/socket_handler.py:277 | storing a room in the dictionary keeps one room per id; the new room is in it, replacing any earlier room with its id, and every other room stays |
| SocketHandler.DictValues | backend/services/messaging/socket_handler.py:277 | the dictionary's values hold one room per id and are exactly the last room of each id in the input |
| SocketHandler.ChatRooms | backend/services/messaging/socket_handler.py:268-277 | the listed rooms are the stored rooms the user has sent to together with the existing default rooms, one per id |
| SocketHandler.Entry | backend/services/messaging/socket_handler.py:281-296 | the chat entry fails exactly when the room's newest message has no timestamp; otherwise it gives the room's id, name and type, the newest message's content and time (or the placeholder and the room's creation time), no unread messages, and online |
| SocketHandler.GetChats | backend/services/messaging/socket_handler.py:255-311 | `user_id` is required; the list fails exactly when a listed room's newest message has no timestamp; otherwise it holds one entry per listed room id, each describing a stored room, ordered by most recent activity |
| SocketHandler.ChatsFacts | backend/services/messaging/socket_handler.py:296-299 | the sorted entries have distinct ids, cover exactly the listed ids, and each describes a stored room |
| SocketHandler.ListedFailure | backend/services/messaging/socket_handler.py:290-292 | building the entries fails exactly when some listed room's newest message has no timestamp |
| SocketHandler.ChatsSucceedOnWellFormed | backend/services/messaging/socket_handler.py:306-311 | in a database where every message has a timestamp, the chat list never takes the error path |
| SocketHandler.HistoryItem | backend/services/messaging/socket_handler.py:339-342 | the entry carries exactly `to_dict()` of the message, from which the message reads back unchanged; the sender's email and name (its `name` when set and non-empty, else its username), or the `Unknown` placeholders when the sender is gone |
| SocketHandler.PageMessages | backend/services/messaging/socket_handler.py:330-338 | the page holds the room's messages ranked `offset` to `offset+limit-1` by recency, as many as exist, in reverse so that they run oldest first |
| SocketHandler.HistoryPage | backend/services/messaging/socket_handler.py:337-343 | one history entry per page message, in order, each the entry built for that message (its dictionary and its sender's name and email) |
| SocketHandler.GetChatHistory | backend/services/messaging/socket_handler.py:313-350 | both ids are required; otherwise it always answers with the room's page for the requested offset and limit (defaults 0 and 50, and null meaning none), each element is the history entry of the page message at its position, and `has_more` holds exactly when a limit is set and the page is full |
| SocketHandler.JoinKeepsWellFormed | backend/services/messaging/socket_handler.py:84-93 | joining keeps room ids unique, because `general` is created only when no room has that id |
| SocketHandler.SendKeepsWellFormed | backend/services/messaging/socket_handler.py:198-210 | sending keeps message ids unique and below the counter, and every message has a timestamp |
| SocketHandler.JoinThenSend | backend/services/messaging/socket_handler.py:101-113 | a user the room manager admitted to a room may then send to it; this holds because joining and sending share one membership table, the model's stand-in for the room manager |
| SocketHandler.SentMessageIsNewest | backend/services/messaging/socket_handler.py:199-210 | a message sent later than every stored message heads its room's newest-first order |
| SocketHandler.SendThenHistory | backend/services/messaging/socket_handler.py:330-343 | after such a send, the first history page of the room ends with the new message |
| SocketHandler.SendThenChats | backend/services/messaging/socket_handler.py:268-296 | after such a send to an existing room, the sender's chat list shows the room with that message and time as its last activity |
| SocketHandler.DescribedByNewest | backend/services/messaging/socket_handler.py:282-292 | when one message of a room is strictly newer than the others, an entry describing the room reports it |
| SocketHandler.ConsecutivePages | backend/services/messaging/socket_handler.py:330-338 | the page at `offset+n` followed by the page of `n` at `offset` is the page spanning both, so paging loses and repeats nothing |
| SocketHandler.ShortPageIsLast | backend/services/messaging/socket_handler.py:349 | when a limited page reports no more, no message of the room is ranked beyond it |
| SocketHandler.FullLastPageReportsMore | backend/services/messaging/socket_handler.py:349 | a room with one message read with limit 1 reports `has_more`, yet the next page is empty |
| SocketHandler.HistoryIgnoresRequester | backend/services/messaging/socket_handler.py:317-334 | any two non-zero user ids read the same history, members of the room or not |

## Left out

- The remaining handlers of the auth, user and socket modules are not part of
  this model. These are `logout`, `me`, the Firebase login route,
  `check_auth`, and the socket events `connect`, `disconnect`, `leave_room`,
  `typing_start`, `typing_stop` and `message_delivered`.
- Firebase token verification is the parameter `verify` of
  `AuthRoutes.RequireAuth`. The password hash is the parameter `hash`, and
  `check_password_hash` is `check`. The key-format check
  `validate_public_key` is `validKey`. All of these are foreign code.
- The room manager is not part of this model. Its membership table is the
  set `Db.members`. Whether `add_user_to_room` accepts a join is the
  parameter `accepted`.
- Socket.IO side effects are not modelled: joining the Socket.IO room, the
  broadcast to the other members and `user_count` in `room_joined`. They do
  not affect the stored state or the event's other fields.
- Times are natural numbers. `isoformat()` is not modelled. The chat list
  sorts ISO strings, and for the timezone-consistent timestamps the server
  writes that order equals the order of the instants.
- Text.Lower: lowercases ASCII letters only. Python's `str.lower()` also
  folds non-ASCII letters.
- Request values of the wrong JSON type are not modelled, for example a
  number where a string is expected.
- Exception paths are modelled only where they carry an answer the
  properties use. This covers the 500 of `register` and `login` when there
  is no JSON body, and the chat-list error for a message without a
  timestamp. Database commit failures are not modelled.
- SocketHandler.GetChatHistory: `limit` and `offset` are natural numbers.
  Negative values, which SQLite treats as "no limit" and "no offset", are not
  modelled.
- Unordered results and timestamp ties are modelled in storage order. SQL
  does not fix the row order of a query without ORDER BY (`.first()` on the
  duplicate check, `.limit(10)` in the search). Nor does it fix the order of
  rows with equal timestamps under `ORDER BY timestamp DESC`, which SQLite may
  answer through the `(room_id, timestamp)` index. The model fixes all of
  these to the order of the sequences in `Database.Db`. So
  `AuthRoutes.DuplicateError` (which clashing row comes first),
  `UserRoutes.SearchUsers` (which ten rows) and the tie order in
  `SocketHandler.NewestFirst` hold for that one order.
  `SocketHandler.ConsecutivePages` also assumes that two page queries see the
  same order.
- Sorting.SortDesc: the insertion sort keeps rows with equal keys in input
  order, as Python's `list.sort` does, but only the order and the permutation
  are proved, not the stability.
- AuthRoutes.Register, AuthRoutes.Login: "no JSON body" is the case where
  `request.get_json()` returns None, for example a JSON `null` body. Recent
  Flask versions raise a 400 or 415 error inside the `try` for a request that
  is not JSON at all. The route then answers 500 with that error's text,
  which is not modelled.
- UserRoutes.UpdatePublicKey: a `public_key` entry that is present but null,
  or not a string, is not modelled. The route passes it to the format check.
- Database.WellFormed covers only the keys and timestamps that the handlers
  rely on. The User and Room models are not part of this model. Their
  columns are the ones the routes read and write. `key_version`'s initial
  value is the parameter `initialKeyVersion`.
- AuthRoutes.NewLocalUser: a new local user has no public key and is
  offline. `register` sets neither column, so this assumes the User model
  leaves `public_key` NULL and `is_online` false by default.
