# Chat server core — a Dafny model

This project models the core of a small Flask chat server. The server has users with roles (`member`, `moderator`, `admin`), chat rooms, and messages. A message holds either text or an attachment. The model covers:

- the database tables and the constraints the schema keeps on them;
- the login, logout and password-change routes;
- the administration routes: the dashboard, the searchable and paginated user list, and adding, activating or deactivating, promoting or demoting, deleting, editing and resetting a user;
- the chat routes: the room list with unread counts, creating, renaming and deleting a room, opening a room (which marks its messages read), and uploading an attachment;
- the Socket.IO handlers: the online-user set, room subscriptions, and sending a text message or a file.

Most handlers that change the tables are modelled twice. These are creating, editing, deleting and uploading in a room; the user administration; the password change; and the two socket sends. Each one has:

- a pure step function, `XxxStep(db, …): (r: Step)`, that returns the outcome and the new tables, with contracts stating when each outcome happens and what changes;
- a method that updates the `Store.Database` object in place and is proved equal to the step function.

Two handlers have no step function; their methods state the new tables directly. Opening a room (`Chat.OpenRoom`) ends in `Chat.MarkRead` of the room's messages. The room list (`Chat.RoomList`) ends in `Chat.EnsureGeneral`.

Read-only handlers that loop (`Chat.UnreadCounts`, `Admin.CountRoomMessages`) are methods with loop invariants. State the source keeps in objects is modelled with classes:

- the online set: `Sockets.Presence`;
- a connection's rooms: `Sockets.Connection`;
- a browser session: `Auth.Session`.

Some external pieces are parameters of the model rather than concrete code:

- **Password hashing.** It is a `Hasher` parameter. The only property the proofs use is `Sound(h)`: a password checks against its own hash.
- **`secure_filename`.** It is a `sanitise: string -> string` parameter.
- **Message timestamps.** They are a caller-supplied `now: nat`.

Modules, in import order:

- `Options`
- `Text`: Python's `strip`, `lower`, substring search, and the code-point order of strings.
- `Sorting`
- `Models`
- `Store`
- `Auth`
- `Admin`
- `Chat`
- `Sockets`

## Where the code and its usual description differ

In each case below, the model follows the code.

- **Deleting a user.** A user is sometimes described as deletable with their messages left orphaned. In the code, the `Message.user_id` column is `nullable=False` and the relationship has no cascade (app/models.py:12, 53). So deleting a user who wrote a message fails at commit, and nothing changes. `Admin.DeleteUserStep` reports `Rejected` exactly when the target wrote messages.
- **No room check on uploads.** `upload_file` and `send_file` never look the room up (app/routes/chat.py:155-162, app/sockets.py:91-98). They store a message for any room identifier (`Sockets.SendFileToMissingRoom`).
- **Two extension rules.** The upload route and the socket do not check extensions the same way. `send_file` takes the text after the last `.`, or the whole name when there is no `.`. So it accepts a file named just `png`, which `allowed_file` refuses (`Sockets.SendExtensionIff`, `Sockets.SendFileAcceptsBareExtension`).
- **Stripping.** Login strips the username and password. Adding and editing a user, and changing a password, do not strip them.
- **The `Général` room can be deleted after a rename.** The protection on it is only a check of its current name when it is deleted (`Chat.GeneralRenameThenDelete`).
- **Page numbers.** A page number below 1 is read as page 1.
- **Anonymous socket sends.** A message sent through the socket by an anonymous connection is not stored, because the handler fails reading the sender's identifier.

## Model

| member | source | states |
|---|---|---|
| Models.RolePredicatesAgree | app/models.py:21-31 | `is_active_member` holds iff the user is active and has one of the three roles. `is_admin` and `is_moderator` agree with `has_role` on one role. `has_role()` with no roles is false. |
| Models.SetPassword | app/models.py:14-18 | Setting a password changes only the hash. With a sound hasher, the new password checks. |
| Models.NewUser | app/models.py:6-11 | A new user has the given name and role, is active, and its password checks with a sound hasher. |
| Models.NewMessage | app/models.py:49-56 | A new message is unread and carries the given content, file path, author, room and time. |
| Text.Strip | app/routes/auth.py:20-21 | The result is the input with its leading and trailing Python whitespace cut off. It is empty iff the input is all whitespace. |
| Text.StripIdempotent | app/routes/admin.py:78 | Stripping twice is stripping once. |
| Text.Lower | app/routes/chat.py:90 | Lower-casing keeps the length and leaves no upper-case letter. It maps each upper-case letter to its lower-case form, 32 code points up, and keeps every other character. |
| Text.LowerIdempotent | app/routes/chat.py:130 | Lower-casing twice is lower-casing once. |
| Text.LowerAscii | app/routes/admin.py:84 | The default SQLite database's `lower()`, which `ilike` uses, keeps the length. It maps each ASCII letter `A`–`Z` 32 code points up, to `a`–`z`, keeps every other character, and leaves no ASCII upper-case letter. |
| Text.LowerAsciiIdempotent | app/routes/admin.py:84 | Folding twice is folding once. |
| Text.LowerAsciiAgrees | app/routes/admin.py:84 | On ASCII text the database's folding equals Python's lower-casing. |
| Text.ContainsIffOccurs | app/routes/admin.py:84 | `Contains(s, sub)` holds iff `sub` occurs in `s` at some position. |
| Text.ContainsEmpty | app/routes/admin.py:83-84 | Every string contains the empty string. |
| Text.AfterLast | app/sockets.py:81 | `rsplit(c, 1)[-1]` contains no `c`. It is a suffix of the input preceded by `c`, or the whole input when there is no `c`. |
| Text.LexLeTotal | app/routes/admin.py:86 | The code-point order of strings used by `ORDER BY` is total. |
| Text.LexLeAntisymmetric | app/routes/admin.py:86 | The code-point order of strings is antisymmetric. |
| Text.LexLeTransitive | app/routes/admin.py:86 | The code-point order of strings is transitive. |
| Sorting.Sort | app/routes/chat.py:13 | `ORDER BY`: the result is sorted by the order and is a permutation of the input. |
| Sorting.PermutationNoDuplicates | app/routes/chat.py:13 | Reordering a list without duplicates leaves none. |
| Sorting.SortedSet | app/sockets.py:20 | `sorted(list(online_users))` lists every member of the set once, in strictly ascending order. |
| Store.Count | app/routes/chat.py:25-27 | `count()` is the number of positions whose message satisfies the filter. |
| Store.CountAppend | app/routes/chat.py:25-27 | Appending a message adds one to exactly the counts whose filter it satisfies. |
| Store.CountZero | app/routes/admin.py:155-156 | A count is zero iff no message satisfies the filter. |
| Store.Filter | app/routes/chat.py:113 | `filter_by`: keeps exactly the messages that satisfy the filter; its length is their count. |
| Store.CountFilter | app/models.py:39-44 | Keeping the messages that satisfy `p` keeps every count whose filter implies `p`. |
| Store.Entries | app/routes/admin.py:82 | A table's rows in key order: every row once, and nothing else. |
| Store.Reordered | app/routes/admin.py:86 | A reordering of distinct rows lists the same rows, and none twice. |
| Store.RoomsByName | app/routes/chat.py:13 | `Room.query.order_by(Room.name.asc())`: sorted by name; every room of a valid store once, and nothing else. |
| Auth.FindUser | app/routes/auth.py:22 | Returns the user with that username, or nothing iff no user has it. |
| Auth.LoginStep | app/routes/auth.py:13-32 | An authenticated session is left as is. Otherwise login succeeds iff some user matches the stripped username and password and is active; the session is then that user's. The outcome is "already logged in" exactly when the session was authenticated. An anonymous session that does not log in ends as `InvalidCredentials` and stays anonymous. |
| Auth.InactiveNeverLogsIn | app/routes/auth.py:25 | Whatever the password, a deactivated account never logs in. |
| Auth.LogoutStep | app/routes/auth.py:39-43 | After logout the session is anonymous. |
| Auth.LogoutIdempotent | app/routes/auth.py:40-41 | Logging out twice is logging out once. |
| Auth.ChangePasswordStep | app/routes/auth.py:51-70 | A non-admin gets Forbidden. A wrong old password gets Rejected; only then is a new password shorter than 6 checked (TooShort). Otherwise only the actor's hash changes and the new password checks. Every failure leaves the tables unchanged. |
| Auth.Session.Login | app/routes/auth.py:13-32 | The session and outcome are those of `LoginStep`. |
| Auth.Session.Logout | app/routes/auth.py:39-43 | The session becomes `LogoutStep` of the old one. |
| Auth.ChangePassword | app/routes/auth.py:51-70 | The outcome and new tables are those of `ChangePasswordStep`. |
| Admin.Guard | app/routes/admin.py:100-108 | The single-user handlers' checks in order: Forbidden iff the actor is not an admin, NotFound iff the target is missing, Protected iff the target is named `admin`, Ok otherwise. |
| Admin.AddUserStep | app/routes/admin.py:48-75 | Forbidden, Empty (a blank field), and Conflict (a taken username) each hold exactly under their condition. On success there is one new active user under the next id, with the form's role or `member`, whose password checks. The schema constraints hold. |
| Admin.ToggleUserStep | app/routes/admin.py:100-114 | After the guard, flips only the target's `active` flag. |
| Admin.PromoteUserStep | app/routes/admin.py:120-138 | After the guard, an admin target becomes a member and any other target an admin; nothing else changes. |
| Admin.DeleteUserStep | app/routes/admin.py:143-158 | After the guard, the delete is Rejected iff the target wrote messages. Otherwise it removes exactly the target. Messages never change. |
| Admin.EditUserStep | app/routes/admin.py:163-188 | After the guard, a given role replaces the target's. A given password is set: the stored hash is the hasher's hash of it, and it checks under a sound hasher. The username, active flag and every other user stay. |
| Admin.ResetPasswordStep | app/routes/admin.py:193-210 | After the guard, only the target's password changes, and it becomes `Temp1234!`. |
| Admin.Handle | app/routes/admin.py:48-210 | Any user-table request from a non-admin is Forbidden and changes nothing. A failed request changes nothing. The schema constraints are kept. |
| Admin.ProtectedAccountUntouched | app/routes/admin.py:105-108 | No administration request changes or removes the user named `admin`. |
| Admin.ToggleTwiceRestores | app/routes/admin.py:110-111 | Toggling a user twice restores the tables. |
| Admin.PromoteTwice | app/routes/admin.py:130-135 | Promoting twice restores a user iff their role was `admin` or `member`; a moderator ends up a member. |
| Admin.TempPasswordStripped | app/routes/admin.py:205 | The temporary password has no surrounding whitespace, so stripping at login keeps it. |
| Admin.ResetThenLogin | app/routes/admin.py:205-206 | After a reset, an active user with a stripped username logs in with `Temp1234!`. |
| Admin.AddThenLogin | app/routes/admin.py:69-72 | A user just added with stripped credentials can log in with them. |
| Admin.DeleteFreesUsername | app/routes/admin.py:155-156 | After deleting a user, adding a user under the same username succeeds. |
| Admin.EverythingMatchesEmpty | app/routes/admin.py:83-84 | The empty query matches every user, as skipping the filter does. |
| Admin.MatchingEntries | app/routes/admin.py:84 | `ilike('%q%')`: keeps exactly the rows whose username contains the query once both are folded as SQLite folds them (ASCII letters only). |
| Admin.SearchEntries | app/routes/admin.py:82-84 | Every row listed is a user that matches the query, none twice. |
| Admin.SearchEntriesHas | app/routes/admin.py:82-84 | Every user that matches the query is listed. |
| Admin.SearchUsers | app/routes/admin.py:78-86 | The search lists exactly the users matching the stripped query, each once, by ascending username. |
| Admin.Page | app/routes/admin.py:79-87 | A page holds at most 10 items. They are the consecutive items from the page's offset, and a short page reaches the end. |
| Admin.PageCovers | app/routes/admin.py:86 | Item i appears on page i/10 + 1 and on no other page. |
| Admin.UserListing | app/routes/admin.py:78-87 | Page `p` of the search is the slice of `SearchUsers` starting at `(p-1)*10`, with `p < 1` read as 1. It is a full page of 10, or it runs to the end of the results, and empty past the end. Its rows match the query and go by ascending username. |
| Admin.AuthorStats | app/routes/admin.py:26-29 | `join(Message).group_by(User.id)` lists only users with a positive count. |
| Admin.AuthorStatsRow | app/routes/admin.py:26-29 | Each grouped row is some user's name and that user's message count. |
| Admin.AuthorStatsHas | app/routes/admin.py:26-29 | Every user who wrote a message has a grouped row. |
| Admin.Ranking | app/routes/admin.py:26-30 | The grouped rows, sorted by descending count. |
| Admin.RankingRow | app/routes/admin.py:26-30 | Every ranking row is a real user's positive message count. |
| Admin.RankingHas | app/routes/admin.py:26-30 | Every user who wrote a message is in the ranking. |
| Admin.AuthorStatsDistinct | app/routes/admin.py:26-29 | `group_by(User.id)` over users with distinct names gives rows with distinct names. |
| Admin.EntriesDistinctNames | app/routes/admin.py:26-29 | The users the query groups have distinct names, because usernames are unique. |
| Admin.RankingDistinct | app/routes/admin.py:26-30 | The ranking has one row per user: no two rows carry the same username. |
| Admin.RankedPrefix | app/routes/admin.py:30-31 | A row left out of the first n rows of the ranking has a count no greater than any row kept. |
| Admin.TopUsers | app/routes/admin.py:26-33 | At most 5 rows, in non-increasing count, each a real user's positive count, with no user listed twice. A user who wrote messages but is left out of a full list has no more than any listed row. |
| Admin.CountRoomMessages | app/routes/admin.py:21-24 | One row per room, in order: its name and its number of messages. |
| Admin.ShowDashboard | app/routes/admin.py:12-42 | Forbidden iff the actor is not an admin. Otherwise the totals are the table sizes, the room rows are per room by name, and the top users are `TopUsers`. |
| Admin.ListUsers | app/routes/admin.py:48-94 | Forbidden iff the actor is not an admin; otherwise the page of `UserListing`. |
| Admin.AddUser | app/routes/admin.py:54-75 | Outcome and new tables are those of `AddUserStep`. |
| Admin.ToggleUser | app/routes/admin.py:100-114 | Outcome and new tables are those of `ToggleUserStep`. |
| Admin.PromoteUser | app/routes/admin.py:120-138 | Outcome and new tables are those of `PromoteUserStep`. |
| Admin.DeleteUser | app/routes/admin.py:143-158 | Outcome and new tables are those of `DeleteUserStep`. |
| Admin.EditUser | app/routes/admin.py:163-188 | Outcome and new tables are those of `EditUserStep`. |
| Admin.ResetPassword | app/routes/admin.py:193-210 | Outcome and new tables are those of `ResetPasswordStep`. |
| Chat.EnsureGeneral | app/routes/chat.py:16-20 | An empty room table gets exactly one room, `Général`, under the next id. A non-empty one is left alone. The schema constraints are kept. |
| Chat.EnsureGeneralIdempotent | app/routes/chat.py:16-20 | A second visit to the room list creates nothing. |
| Chat.RoomsByNameEmpty | app/routes/chat.py:13-16 | The ordered room list is empty iff the room table is. |
| Chat.UnreadCounts | app/routes/chat.py:23-28 | For each room: the messages in it, unread, by someone other than the viewer. |
| Chat.RoomList | app/routes/chat.py:12-30 | Creates `Général` when there is no room, returns every room sorted by name (never none), and the viewer's unread count for each. |
| Chat.CreateRoomStep | app/routes/chat.py:36-54 | Forbidden, Empty (the stripped name is blank) and Conflict (the name is taken) each hold exactly under their condition. On success there is one new room with the stripped name under the next id. |
| Chat.EditRoomStep | app/routes/chat.py:60-78 | Forbidden, then NotFound, then Empty, then Conflict (another room has the stripped name), each exactly. On success only that room's name changes. |
| Chat.RenameToSameName | app/routes/chat.py:71 | Renaming a room to its own name succeeds and changes nothing. |
| Chat.RoomMessages | app/routes/chat.py:113 | Exactly the room's messages; there are as many as the room's count. |
| Chat.WithoutRoom | app/models.py:39-44 | The cascade keeps exactly the messages of other rooms, every copy of each: the length is the number of messages outside the room. |
| Chat.WithoutRoomCounts | app/models.py:39-44 | After the cascade the deleted room has no messages, and every other room keeps its count. |
| Chat.DeleteRoomStep | app/routes/chat.py:84-97 | Forbidden, then NotFound, then Protected iff the lower-cased name is `général`. On success the room and exactly its messages are removed. The remaining messages are `WithoutRoom` of the old ones, so `WithoutRoomCounts` gives each room's count. |
| Chat.GeneralProtected | app/routes/chat.py:90-92 | Deleting the room named `Général` is Protected and changes nothing. |
| Chat.GeneralRenameThenDelete | app/routes/chat.py:60-97 | Once renamed to a name whose lower case is not `général`, the former `Général` room can be deleted. |
| Chat.MarkRead | app/routes/chat.py:107-110 | Only `is_read` changes. A message ends up read iff it was read, or it is in the room by someone other than the viewer. |
| Chat.MarkReadClearsUnread | app/routes/chat.py:107-110 | After opening a room, the viewer has no unread message in it. |
| Chat.MarkReadKeepsOtherCounts | app/routes/chat.py:107-110 | Opening a room changes no other room's unread or total count, for anyone. |
| Chat.History | app/routes/chat.py:112-116 | The room's messages by descending timestamp, each as often as stored. |
| Chat.HistoryContents | app/routes/chat.py:112-116 | The history holds exactly the room's messages, its length is the room's count, and timestamps never increase. |
| Chat.OpenRoom | app/routes/chat.py:103-118 | NotFound iff the room is missing, with nothing changed. Otherwise the messages are marked read as `MarkRead` states and the history is returned. |
| Chat.Extension | app/routes/chat.py:130 | The result contains no `.`. With no `.`, it is the whole name lower-cased. |
| Chat.ExtensionAfterLastDot | app/routes/chat.py:130 | With a `.` in the name, the extension is the lower-cased text after the last `.`: that `.` sits just before it, and the text holds no other `.`. |
| Chat.LastDot | app/routes/chat.py:130 | The text after the last `.` is what follows the dot that has no dot after it. |
| Chat.AllowedFileIff | app/routes/chat.py:128-130 | A name is allowed iff it has a `.` with no `.` after it and the lower-cased text after that dot is `png`, `jpg`, `jpeg`, `gif` or `pdf`. |
| Chat.AllowedFileWithExtension | app/routes/chat.py:128-130 | Any base name plus `.` plus an allowed extension in any case is allowed. |
| Chat.NoDotRefused | app/routes/chat.py:130 | A name without a `.` is refused. |
| Chat.UploadStep | app/routes/chat.py:135-165 | Empty iff no file or an empty name. Rejected iff the name is not allowed. Otherwise exactly one unread attachment message `uploads/<sanitised name>` with no content is appended. The room is not checked. |
| Chat.UploadIncrementsUnread | app/routes/chat.py:155-162 | An upload adds one to every other user's unread count in that room. |
| Chat.CreateRoom | app/routes/chat.py:36-54 | Outcome and new tables are those of `CreateRoomStep`. |
| Chat.EditRoom | app/routes/chat.py:60-78 | Outcome and new tables are those of `EditRoomStep`. |
| Chat.DeleteRoom | app/routes/chat.py:84-97 | Outcome and new tables are those of `DeleteRoomStep`. |
| Chat.Upload | app/routes/chat.py:135-165 | Outcome and new tables are those of `UploadStep`. |
| Sockets.ConnectStep | app/sockets.py:16-21 | An anonymous connection changes nothing. Otherwise the name joins the set, and the sorted set and a connection notice are broadcast. |
| Sockets.DisconnectStep | app/sockets.py:26-32 | Anonymous, or not online: nothing. Otherwise the name leaves the set, and the sorted set and a disconnection notice are broadcast. |
| Sockets.ConnectIdempotent | app/sockets.py:19 | Connecting twice gives the same online set as once. |
| Sockets.ConnectThenDisconnect | app/sockets.py:19-30 | Connect then disconnect restores the online set. |
| Sockets.TwoConnectionsOneDisconnect | app/sockets.py:11-32 | With two tabs open, the first disconnect takes the user offline and the second broadcasts nothing. |
| Sockets.Presence.Connect | app/sockets.py:16-21 | The set and events are those of `ConnectStep`. |
| Sockets.Presence.Disconnect | app/sockets.py:26-32 | The set and events are those of `DisconnectStep`. |
| Sockets.Join | app/sockets.py:37-38 | Joining adds exactly that room to the subscriptions. |
| Sockets.Leave | app/sockets.py:41-42 | Leaving removes exactly that room. |
| Sockets.LeaveUndoesJoin | app/sockets.py:37-42 | Joining a new room and then leaving it restores the subscriptions. |
| Sockets.Connection.JoinRoom | app/sockets.py:37-38 | Subscriptions become `Join` of the old ones. |
| Sockets.Connection.LeaveRoom | app/sockets.py:41-42 | Subscriptions become `Leave` of the old ones. |
| Sockets.SendMessageStep | app/sockets.py:47-67 | NotFound iff the room is missing; Rejected iff it exists but the sender is anonymous. Otherwise exactly one unread text message is appended and one `receive_message` with the sender's name, the content and the room is broadcast. |
| Sockets.SendThenOpen | app/sockets.py:52-59 | A sent message adds one to every other user's unread count in the room, not to the sender's, and opening the room clears it. |
| Sockets.SendExtensionIff | app/sockets.py:81-83 | The socket's extension rule accepts exactly what `allowed_file` accepts, plus dot-less names that are themselves an allowed extension. |
| Sockets.SendFileAcceptsBareExtension | app/sockets.py:81-83 | `png` passes the socket's check and fails `allowed_file`. |
| Sockets.SendFileStep | app/sockets.py:72-107 | Rejected iff the sanitised name's extension is not allowed, or the sender is anonymous, or there is no room id. Otherwise one attachment message is appended and one `receive_file` with the path and extension is broadcast. |
| Sockets.SendFileToMissingRoom | app/sockets.py:78-98 | A file sent to a room id with no room is stored anyway. |
| Sockets.SendMessage | app/sockets.py:47-67 | Outcome, new tables and events are those of `SendMessageStep`. |
| Sockets.SendFile | app/sockets.py:72-107 | Outcome, new tables and events are those of `SendFileStep`. |

## Left out

- **Rendering, flash messages and redirects.** Only the outcome of a route is modelled, as an `Outcome`. The exact wording of flashed text and notices is not modelled.
- **Files on disk and limits.** Saving an upload, writing a socket file and base64 decoding are file I/O and are not modelled. The 10 MiB request cap is enforced by the framework before a handler runs and is not modelled either. The socket handler writes the file before it stores the message; only the message is modelled.
- **Broadcast delivery.** The transport and the fan-out to clients are not modelled. A handler returns the list of events it broadcasts. The events go to every client regardless of room subscriptions, so the subscriptions kept by `Sockets.Connection` affect nothing else in the model.
- **Display timestamps and the clock.** The `strftime` display timestamps in events are not modelled. The clock is a caller-supplied `now: nat`.
- **Concurrency.** Concurrent requests and socket handlers are not modelled; every handler runs alone on the state.
- **Password hashing and `secure_filename`.** Both are parameters whose internals are not modelled. `Sound(h)` only ever appears as a hypothesis in a contract.
- **Text.Lower.** It lower-cases ASCII and Latin-1 letters only. Python's full Unicode case mapping is not modelled.
- **Admin.MatchingEntries.** It treats `%` and `_` in the search query as ordinary characters. The database would read them as `LIKE` wildcards.
- **Admin.Matches.** It folds case as the default SQLite database does (config.py:9), ASCII letters only. A `DATABASE_URL` that selects another database may fold more letters; that is not modelled.
- **Absent fields.** A missing form field or JSON key makes the source raise or pass `None` on. The model takes strings, except where the code gives absence a meaning: the `role` default, a missing upload, and a missing socket room id.
- **Admin.EditUserStep.** It reads an empty string as an absent field, since the code treats the two alike.
- **Identifiers.** They come from counters and are never reused. The database may reuse the largest deleted identifier; that is not modelled.
- **Authentication.** `login_required` and the sessions it redirects are outside the model. Every route handler takes an existing acting user.
- **Pagination.** The pagination object's metadata (total, page count, next/previous) is not modelled, only the page's items. A non-numeric `page` argument falls back to 1 in the framework; the model takes an `int`.
- **Admin.TopUsers.** It does not fix the order of users with equal counts, which the query leaves to the database.
- **Chat.History.** It does not fix the order of messages with equal timestamps.
- **Admin.AuthorStats.** Its own contract says only that counts are positive. The rows' contents are stated by `Admin.AuthorStatsRow` and `Admin.AuthorStatsHas`.
- **Rest of the repository.** The landing page route (app/routes/main.py), the admin seeding script, the application factory and the service worker are not part of this model.
