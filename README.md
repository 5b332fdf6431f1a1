# WEB_Messanger: friend graph and friendship-gated messaging in Dafny

WEB_Messanger is a small Flask messenger. Users register, look each other
up by name and send friend requests. The recipient of a request accepts it
(the row becomes confirmed) or declines it (the row is deleted). Two users
may exchange messages only while a confirmed row joins them in either
direction. `new_messages` returns a user's unread messages and marks each
one read as it goes. `admin_panel` lets only users whose administrator flag
is set through.

The model keeps the database as one object, `Messenger.Store`, with three
tables held as sequences of rows (`users`, `friends`, `messages`) and one key
counter each for `friends` and `messages`. Every route handler is a method
on the store. The caller of a route is the id of an authenticated user,
which must have a row in `users`. The SQL queries and updates the handlers
issue are pure functions of the tables (module `Queries`), under the
assumptions about the database listed first under "Left out" (row order,
name comparison, key allocation).
`AcceptFriendRequest`, `DeclineFriendRequest` and `NewMessages` state
their new table through one of those functions, and the lemmas about the
functions carry the properties. `Register`, `SearchFriends` and
`CreateMessage` state their new table directly as the old one with one row
appended.

- `models.dfy` (`Models`): the three record types and the lookups
  `User.get` and `User.get_by_username`.
- `queries.dfy` (`Queries`): the row filters on `friends` (the `WHERE`
  clauses of the handlers' queries, and the rows a decline leaves) as one
  first-order selection, the queries of each route, and the table after an
  accept, a decline and a fetch of unread messages, with lemmas relating
  them.
- `store.dfy` (`Messenger`): the store, its invariant `Valid`, and the
  route handlers `register`, `search_friends`, `friend_requests`,
  `accept_friend_request`, `decline_friend_request`, `my_friends`,
  `create_message` and `new_messages`.
- `users.dfy` (`Accounts`): the `admin_panel` gate.
- `scenario.dfy` (`Scenario`): two users, alice and bob, taken through
  registration, a request, acceptance, a message and two fetches.

The store's invariant says the following:
- user keys are handed out in order, since no route deletes a user and the key generator is taken to skip no value;
- user names are unique, because `register` refuses a taken name;
- every friends or messages row has a fresh key, and both of its ends are users;
- no friends row and no message links a user to themself;
- there is at most one row per ordered (sender, recipient) pair.

Every state-changing handler preserves the invariant.

Behaviour of the code that the model keeps:

- `search_friends` looks for an existing row in one direction only, sender
  to target, whatever its status. A user who has already received a request
  (or is already a friend through it) can still send one back. Once both
  rows are confirmed, `my_friends` lists the other user twice
  (`Queries.MutualRowsListTwice`; `Scenario.ReverseRequest`).
- `create_message` stores any text, including the empty string.
- `decline_friend_request` deletes the row with that id addressed to the
  caller whatever its status, so it also removes a confirmed friendship.
- `accept_friend_request` on an already confirmed row sets the status
  true again; the table does not change.
- `register` never sets the administrator flag.

## Model

| member | source | states |
|---|---|---|
| Models.GetUser | models.py:48-54 | the lookup finds a row exactly when some row has that key, and the row it returns has that key |
| Models.GetByUsername | models.py:56-62 | the lookup finds a row exactly when some row has that name, and the row it returns has that name |
| Models.GetUserFindsRow | models.py:48-54 | with unique keys, looking up the key of a row returns that very row |
| Models.GetUserDense | models.py:48-54 | with keys handed out in order, looking up a key returns row key-1 when the key is in range and nothing otherwise |
| Models.GetByUsernameFindsRow | models.py:56-62 | with unique names, looking up the name of a row returns that very row |
| Queries.Select | routes/messanger.py:51-53 | evaluates a row filter over the friends table, as the queries at routes/messanger.py:29-31, 51-53, 120-127 and 149-162 do; never yields more rows than the table holds (which rows: Queries.SelectMembers; how often: Queries.SelectCounts; in what order: Queries.SelectInOrder) |
| Queries.SelectCounts | routes/messanger.py:51-53 | a matching row comes back exactly as often as it occurs in the table, and a row that does not match never does |
| Queries.MatchingPositions | routes/messanger.py:51-53 | lists, in strictly increasing order, exactly the positions of the rows that match the filter |
| Queries.SelectInOrder | routes/messanger.py:51-53 | a selection reads the table at its matching positions in increasing order, so the rows come back in storage order |
| Queries.HasRequest | routes/messanger.py:29-34 | the duplicate check finds a row exactly when some row runs from the sender to the target, whatever its status; the reverse direction is not looked at |
| Queries.HasConfirmed | routes/messanger.py:149-162 | each of the two checks finds a row exactly when a confirmed row runs from the given sender to the given recipient |
| Queries.AreFriends | routes/messanger.py:149-164 | the gate passes exactly when a confirmed row joins the two users in either direction |
| Queries.FriendIds | routes/messanger.py:119-132 | the id list has one entry per confirmed row the user sent or received, and every entry is joined to the user by a confirmed row |
| Queries.NobodyIsOwnFriend | routes/messanger.py:24-25 | with no row linking a user to themself, nobody passes the messaging gate with themself |
| Queries.SelectMembers | routes/messanger.py:51-53 | a row is selected exactly when it is in the table and satisfies the filter |
| Queries.SelectDropsOne | routes/messanger.py:95-102 | a filter that rejects exactly row k yields the table without row k |
| Queries.SelectKeepsAll | routes/messanger.py:95-102 | a filter every row passes yields the table unchanged |
| Queries.PendingFor | routes/messanger.py:51-54 | the requests listed for a user are exactly the pending rows addressed to that user |
| Queries.SentConfirmed | routes/messanger.py:120-122 | the first query yields exactly the confirmed rows the user sent |
| Queries.ReceivedConfirmed | routes/messanger.py:123-127 | the second query yields exactly the confirmed rows the user received |
| Queries.FriendIdsAreFriends | routes/messanger.py:119-132 | a user id is on the friend list exactly when a confirmed row joins it to the user in either direction, which is the test that authorises a message |
| Queries.FindRequest | routes/messanger.py:74-77 | returns a position whose row has that key and is addressed to the caller, and returns nothing only when no such row exists |
| Queries.Accepted | routes/messanger.py:79-82 | accepting changes only status flags; a row ends confirmed exactly when it was confirmed before or is the request with that key addressed to the caller |
| Queries.Declined | routes/messanger.py:99-102 | a row survives a decline exactly when it is not the request with that key addressed to the caller |
| Queries.SenderCannotConfirm | routes/messanger.py:74-82 | with unique keys and no self-requests, the sender accepting their own request by its key leaves the table unchanged |
| Queries.AcceptMakesFriends | routes/messanger.py:79-82 | after the recipient accepts a request, each party is on the other's friend list |
| Queries.FriendListsSymmetric | routes/messanger.py:119-132 | b is on a's friend list exactly when a is on b's |
| Queries.MutualRowsListTwice | routes/messanger.py:119-132 | when confirmed rows exist in both directions between a and b, b appears at least twice on a's friend list; the one-direction duplicate check at routes/messanger.py:29-31 lets both rows arise |
| Queries.DeclineReopensRequest | routes/messanger.py:99-102 | after a decline, the sender no longer has a row to that recipient, so the duplicate check of search_friends lets a new request through |
| Queries.DeleteIsDeclined | routes/messanger.py:94-102 | deleting the row the lookup finds gives the same table as the declined selection, and no row found leaves the table unchanged |
| Queries.UpdateIsAccepted | routes/messanger.py:74-82 | setting the status of the row the lookup finds gives the same table as the accepted table, and no row found leaves the table unchanged |
| Queries.UnreadPositions | routes/messanger.py:183-184 | lists, in increasing order, exactly the positions of the messages addressed to the user that are unread |
| Queries.MarkRead | routes/messanger.py:187-190 | only read flags change, and a message ends read exactly when it was read before or is addressed to the user |
| Queries.MarkAt | routes/messanger.py:187-190 | marking the given positions one after the other sets exactly those rows read and leaves the others unchanged |
| Queries.MarkingFetchedIsMarkRead | routes/messanger.py:183-190 | marking each fetched unread row read is the same as marking every unread message of the user read |
| Queries.ReadTwiceIsEmpty | routes/messanger.py:183-190 | once a user's messages are marked read, fetching the user's unread messages again yields nothing |
| Messenger.HasUserDense | models.py:48-54 | with keys handed out in order, a user exists exactly when the key is between 1 and the number of users |
| Messenger.ConfirmedEndsAreKeys | routes/messanger.py:128-131 | every id my_friends resolves is a user key |
| Messenger.DeleteKeepsFriendsValid | routes/messanger.py:101-102 | deleting a row keeps the friends table valid |
| Messenger.AddRequestKeepsFriendsValid | routes/messanger.py:37-41 | a request between two distinct users with no row in that direction keeps the friends table valid |
| Messenger.ConfirmKeepsFriendsValid | routes/messanger.py:81-82 | confirming a row keeps the friends table valid |
| Messenger.AddMessageKeepsMessagesValid | routes/messanger.py:165-171 | a message between two distinct users with the next key keeps the messages table valid |
| Messenger.MarkReadKeepsMessagesValid | routes/messanger.py:187-190 | marking messages read keeps the messages table valid |
| Messenger.AddUserKeepsUsersValid | routes/users.py:37-46 | a user with a fresh name and the next key keeps the users table valid |
| Messenger.Store.constructor | models.py:103-106 | a new database has empty tables and both key counters at 1 |
| Messenger.Store.Register | routes/users.py:37-46 | a taken name is refused and nothing changes; otherwise exactly one non-administrator user with the next key is appended |
| Messenger.Store.SearchFriends | routes/messanger.py:18-42 | an unknown name, the caller's own name, or an existing row from caller to target (either status) is refused and nothing changes; otherwise exactly one pending row from caller to target is appended |
| Messenger.Store.FriendRequests | routes/messanger.py:49-60 | returns the pending rows addressed to the caller, and a map from exactly their senders to the users those ids resolve to |
| Messenger.Store.ResolveSenders | routes/messanger.py:56-59 | maps exactly the senders of the given requests, each to the user its id resolves to |
| Messenger.Store.AcceptFriendRequest | routes/messanger.py:72-85 | reports success exactly when a row with that key is addressed to the caller; the friends table becomes the accepted table and nothing else changes |
| Messenger.Store.DeclineFriendRequest | routes/messanger.py:93-106 | reports success exactly when a row with that key is addressed to the caller; the friends table becomes the declined table and nothing else changes |
| Messenger.Store.MyFriends | routes/messanger.py:119-132 | returns, in order, the user rows of the recipients of the caller's sent confirmed rows followed by the senders of the received ones |
| Messenger.Store.LookUpAll | routes/messanger.py:128-131 | resolves every id of a list to its user row, in order |
| Messenger.Store.CreateMessage | routes/messanger.py:139-174 | an unknown recipient is refused and nothing changes; a message is appended exactly when a confirmed row joins caller and recipient in either direction; otherwise nothing changes |
| Messenger.Store.NewMessages | routes/messanger.py:181-190 | returns, for each unread message addressed to the caller in storage order (the row order assumed under "Left out"), its sender's name and text, and leaves every such message read and every other row unchanged |
| Messenger.Store.FetchAndMark | routes/messanger.py:186-190 | marks exactly the given positions read, one after the other, and returns for each its sender's name and text in order |
| Accounts.AdminPanel | routes/users.py:14-20 | refuses with status 403 exactly when the caller is not an administrator, and otherwise returns the welcome text |
| Accounts.RegisteredUserIsRefused | routes/users.py:42-46 | a user added by register is refused by the administrator gate |
| Scenario.SignUp | routes/users.py:37-46 | two registrations with distinct names on an empty database produce users 1 and 2 |
| Scenario.Request | routes/messanger.py:28-42 | a first request is stored as pending row 1, and the same request again is refused |
| Scenario.Accept | routes/messanger.py:72-85 | the sender accepting their own request changes nothing, while the recipient accepting it confirms it |
| Scenario.Write | routes/messanger.py:149-171 | between friends, a message is stored unread with key 1 |
| Scenario.ReverseRequest | routes/messanger.py:28-42 | after alice's request to bob is confirmed, bob's request to alice is not refused as a duplicate and appends a pending row from bob to alice |
| Scenario.Read | routes/messanger.py:181-190 | the first fetch marks the message read; the second finds nothing unread |

## Left out

- Row order (the database engine is not part of this model): no query of the routes has `ORDER BY`, so the database picks the order of the rows. The model returns rows in storage order, which is key order (a SQLite rowid scan). `Queries.SelectInOrder`, the order of `inbox` in `Messenger.Store.NewMessages` and the order of the list in `Messenger.Store.MyFriends` rest on this.
- Name comparison: `Models.GetByUsername` compares names exactly, as SQLite's default `BINARY` collation does. Under a case-insensitive collation, `register` would refuse "Alice" once "alice" exists, and `search_friends` and `create_message` would find "alice" under "Alice"; the model does neither.
- Key allocation: user keys are taken to have no gaps (SQLite's max(rowid)+1 never skips a value; a sequence that consumes a value on a failed insert would).
- HTTP routing, templates, flashed texts, redirects and the GET branches of the routes are left out. Each handler returns an outcome value in place of the flashed text.
- `login_required`, `load_user`, `login`, `logout` and CSRF are left out. The caller is a user id that has a row in `users`.
- Password hashing is left out. `register` stores the password it is given, taken to be the hash already.
- The response cache on `my_friends` (five minutes per user and path) is not modelled. `Messenger.Store.MyFriends` is the uncached query, so the staleness window after an accept is not captured.
- Sessions, commits and concurrency are left out. Each handler runs atomically. The per-row commit in `new_messages` (a crash could leave only some rows marked read) and two requests racing between the duplicate check and the insert are not modelled.
- Database key generation is modelled as a counter per table for `friends` and `messages`. Users get key k+1 for row k, which holds because no route deletes a user and, as assumed above, the key generator skips no value.
- The counter never reuses a key. A backend that reuses the largest freed key (for example SQLite rowids without AUTOINCREMENT) would give the key of a declined request to the next request. The database backend and its configuration are not part of this model.
- `init_db` and its two seed users ("admin" and "user") are not modelled. With the model's defaults, neither of them would be an administrator.
- The list-valued relationships and cascades on `User` are not used by the routes and are not modelled. `sender_user` and `recipient_user` on a row are modelled as `User.get` of the row's id.
- Messenger.Store.NewMessages: returns pairs (sender name, text) where the source builds one-entry dictionaries `{name: text}`.
- The `index` and `account` routes, the page renderers, and the application set-up and security headers in `app.py` are not modelled.
