# unsafe_webapp server core, modelled in Dafny

This project models the server-side domain logic of `index.js`, an Express application with
user accounts, a friends graph and a forum stored in MySQL. Each HTTP handler is written as a
pure transition. It takes the store, the caller's session and the request environment, and it
returns the new store, the new session and the response. The engine's effects are modelled on
an immutable store:

- **Store** (`store.dfy`) holds four tables. `person` is a map from id to row. `user` is a map
  from username to row, so the primary key is the map key. `friends` is a sequence of ordered
  pairs; the primary key says no row appears twice. `forum` is a sequence of posts.
  Two AUTO_INCREMENT counters hand out ids.
- **Engine effects.** The engine enforces the constraints the DDL declares: primary keys,
  the foreign keys `friends -> person` and `forum -> user`, the VARCHAR widths (MySQL strict
  mode), the INT range, and running out of AUTO_INCREMENT values.
- **Transactions.** `beginTransaction/commit/rollback` act as all-or-nothing. A rollback
  restores every row. As in InnoDB, it does not give back the AUTO_INCREMENT values it used.
- **Session** (`http.dfy`) is the express-session record. Its optional `authInfo` is set by a
  successful login.
- **Env** (`http.dfy`) is what the handlers cannot see: whether the database can be reached,
  whether COMMIT succeeds, and the database clock (the default of `forum.ts`).
- **Handlers.** `auth.dfy` has `checkAuthenticated`, `login` and `/api/ownInfo`.
  `accounts.dfy` has `/api/createAccount`. `friends.dfy` has `addFriend`, `countFriends` and
  the `getFriends` query. `forum.dfy` has `/api/addMessage` and `/api/messages`.
  `server.dfy` has the `/api/getFriends/:ownId` route, dispatches one request at a time and
  replays a run of requests from many sessions.

`getFriends` is modelled with its intended meaning for an integer id. The id is spliced into
the SQL text at `index.js:277-281`, which makes it injectable. That splicing is a divergence
and is not modelled.

## Where the code and the hardened design differ

The model follows this snapshot of `index.js`, not the hardened design the project aims for:

- passwords are stored and compared in plain text;
- a wrong password and an unknown user get different 403 bodies ("Wrong password" vs "Login failed");
- `createAccount` only checks that the password is non-empty and typed twice alike (no minimum length);
- there is no CSRF token anywhere;
- `getFriends/:ownId` and `countFriends/:id` ask for no login;
- `addFriend` is a GET route;
- forum messages are stored and returned verbatim, without HTML escaping, and an empty message is accepted;
- there is no admin-promotion route.

## Model

| member | source | states |
|---|---|---|
| Auth.CheckAuthenticated | index.js:119-125 | passes exactly when the session has `authInfo` and hands on that identity; otherwise answers 401 |
| Auth.Login | index.js:192-230 | never changes the store; an unreachable database answers 500 and every answer is 200, 403 or 500; 200 exactly when the database answers and the name and password match a joined row; 403 "Login failed" for no joined row and "Wrong password" for a mismatch, with the session unchanged on every failure; on success the session and the body hold `id` = stored personId, `userName` = the supplied name, name/mail/age from the person row, `isAdmin` exactly when `admin` is 1 (the identity built by `LoginInfo`) |
| Auth.OwnInfo | index.js:409-417 | answers 200 with the session's `authInfo`, or `null` exactly when there is none |
| Auth.LoginThenOwnInfo | index.js:223-225 | after a successful login, `ownInfo` answers with the identity the login returned |
| Auth.LoginKeepsSessionValid | index.js:205-223 | after any login the session still names an existing account and its person |
| Auth.LoginRejectsOtherPasswords | index.js:206-210 | for one existing account, no two different passwords both log in |
| Auth.LoginInfoFields | index.js:214-221 | the installed identity has `id` = the stored personId, `userName` = the supplied name, name/mail/age from the person row, and `isAdmin` exactly when `admin` is 1 |
| Accounts.CreateAccount | index.js:376-407 | an empty or unrepeated password gives 403 and changes nothing, and 403 is given for nothing else; a 302 redirect happens exactly when both inserts and the commit can succeed; it then adds the person row under the next id and a user row with `admin = 0` pointing at it, and nothing else; every failure leaves all rows as they were |
| Accounts.CreateAccountAtomic | index.js:384-398 | on a valid store, either no row changes, or exactly one person and one user are added, the user's personId is the new person's id, and its admin flag is 0 |
| Accounts.DuplicateUserNameChangesNothing | index.js:145-149 | a taken username makes the transaction fail, and the person insert is rolled back with it |
| Accounts.CreateAccountPreservesValid | index.js:389-391 | account creation keeps every schema constraint and every user's personId pointing at a person |
| Accounts.CreateThenLogin | index.js:389-391 | round trip: after a created account, logging in with its name and password succeeds with the submitted person data and without admin rights |
| Friends.ResolveOther | index.js:309-325 | the other id is `otherId` when given; otherwise it is the personId of the account `otherName`, and there is none exactly when no such account exists |
| Friends.AddFriend | index.js:305-340 | only `friends` can change; every answer is 200, 401 or 500, and 401 exactly for an anonymous caller, who gets it and an unknown `otherName` gets 500 "Unknown user", both with the store unchanged; every non-200 answer (including an unreachable database and an insert refused by the foreign key) leaves the store unchanged; it succeeds exactly when the pair is already linked in either orientation or both ends are persons; afterwards the pair is linked; a row is appended only when neither orientation was present, and it is `(ownId, otherId)` |
| Friends.AddFriendIdempotent | index.js:326-335 | repeating a successful call leaves the store unchanged and succeeds again |
| Friends.AddFriendSymmetric | index.js:326-327 | once a has added b, b adding a finds the existing row and changes nothing |
| Friends.AddFriendPreservesValid | index.js:326-329 | keeps the schema constraints, and never stores a friendship in both orientations |
| Friends.CountFriends | index.js:290-292 | the count is the number of rows with `p1 = id` or `p2 = id` |
| Friends.FriendRows | index.js:277-281 | every joined row is a person linked to the id in either orientation, and every such person is among the rows |
| Friends.GetFriends | index.js:277-283 | returns exactly the persons at the other end of an edge touching the id, whichever orientation it was stored in |
| Server.GetFriendsRoute | index.js:272-288 | answers 200 exactly when the database answers, with exactly the persons linked to the id in either orientation; otherwise 500 "error occurred" |
| Friends.GetFriendsMatchesCount | index.js:277-292 | on a valid store, `getFriends` returns as many rows as `countFriends` counts |
| Friends.GetFriendsDistinct | index.js:277-281 | when no friendship is stored twice, no person is listed twice |
| Friends.FriendshipSymmetric | index.js:277-281 | b is among a's friends exactly when a is among b's |
| Forum.FindPost | index.js:431 | the re-read returns the first post with the requested id, or none exactly when no post has it |
| Forum.AddMessage | index.js:419-439 | every answer is 200, 401 or 500, and 401 exactly for an anonymous caller, who changes nothing; it succeeds exactly when the database answers, ids are left and the session's user exists; on success it appends exactly one post carrying the next id, the session's `userName`, the clock reading and the message verbatim, and on a valid store it answers with that same row; only the forum changes, and every modelled failure (anonymous caller, unreachable database, refused insert) changes nothing |
| Forum.AddMessagePreservesValid | index.js:158-164 | posting keeps the forum's ids ascending and its foreign key to `user` |
| Forum.InsertByTs | index.js:444 | inserting into a timestamp-ordered list keeps it ordered and adds exactly that post |
| Forum.SortByTs | index.js:444 | the result is in ascending timestamp order and is a permutation of the table |
| Forum.SortByTsKeepsSorted | index.js:444 | a table already in timestamp order is returned exactly as stored |
| Forum.Messages | index.js:441-451 | answers 200 exactly when the database answers, with every post exactly once, oldest first; otherwise 500 |
| Forum.AppendLatestListedLast | index.js:444 | sorting a table with a post stamped no earlier than all others appended gives the sorted table followed by that post |
| Forum.MessagesAfterAppend | index.js:429-444 | whatever order the table is stored in, a post stamped no earlier than all others is listed last, after the other posts in their listed order |
| Server.Handle | index.js:232-451 | read routes leave the store unchanged; an anonymous session never changes `friends` or `forum`, and its addFriend/addMessage get 401; on a valid store, no route deletes or rewrites a row |
| Server.HandlePreservesValid | index.js:139-164 | every route keeps the schema constraints, the one-orientation rule and the session's link to its account |
| Server.StepKeepsInv | index.js:177-182 | one request keeps the invariant for its own session and every other session |
| Server.Replay | index.js:177-182 | over any run of requests from any sessions, the invariant holds and no row is removed or rewritten |
| Store.EmptyValid | index.js:128-164 | the freshly reset database satisfies the invariant |

## Left out

- Express, body-parser, express-session setup and cookie flags (index.js:175-189): framework configuration. Sessions are a map from id to record.
- The mysql pool and the Promise wrappers `Connection`/`Database` (index.js:17-114). Only their effect is modelled: query results, constraint errors, and all-or-nothing transactions. A missing connection or query is the single `Env.reachable` flag, so a failure part-way through a handler is not distinguished from one at its start.
- Connection-pool accounting. The `addFriend` catch path (index.js:336-339) never releases its connection, so the pool leaks; the model has no pool.
- `/api/submitform` and `/tabledata/:tablename` (index.js:249-270, 353-374): what they do depends on how MySQL parses string-concatenated input.
- `/listdata` (index.js:342-351): a plain dump of the person table by a constant query.
- `resetDatabase` and `/api/resetdb` (index.js:128-173, 238-247): DDL and `process.exit`. Only the empty store they produce is modelled (`Store.Empty`).
- `/api/getdata`, server start-up and shutdown, and console logging (index.js:234-236, 455-471).
- The JSON shaping of `/api/countFriends/:id` (index.js:294-303). It reads `count['count(*)']` from the rows array rather than from its first row. `Friends.CountFriends` models the query only.
- Friends.GetFriends: the id is treated as an integer. The SQL splicing at index.js:277-281 accepts arbitrary SQL text, and that is not modelled. Rows come back in table order, where SQL leaves the order unspecified.
- Forum.SortByTs: posts with equal timestamps keep their table order; `order by ts` leaves their order unspecified.
- Concurrency between requests, including the check-then-insert race in `addFriend`. Requests are served one at a time.
- Real timestamps: `ts` is the `Env.now` value of the request. DATETIME's one-second resolution is not modelled.
- MySQL's default case-insensitive, trailing-space-insensitive collation. Usernames are compared by exact equality.
- Request fields that are absent (SQL NULL) or not numeric. Form and body fields are strings, `age` and `otherId` are already integers, and only `otherId`/`otherName` may be absent. JavaScript truthiness therefore reduces to "empty password" and "absent otherId".
- Forum.AddMessage: the insert (index.js:429) and the re-read (index.js:431) are two separate queries outside a transaction. If only the re-read fails, the real handler answers 500 while the post stays stored. The model's single `Env.reachable` flag cannot fail the re-read alone, so it does not produce that outcome.
- The `TEXT` size limit of `forum.message`.
- All of `static/usClient.js`: browser-side jQuery/DOM glue.
