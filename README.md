# Invite-gated chat server, modelled in Dafny

This project models the core of a small invite-only chat server. A single
in-memory SQLite database holds three tables: `users`, `invite_codes` and
`messages`. At start-up one invite code, `ADMIN123`, is inserted. A visitor
proves an invite code with `POST /api/check-code` and then creates an
account with `POST /api/register`. The account's role is `admin` when the
code's text is `ADMIN123` and `user` otherwise, and its avatar colour is
drawn at random from a six-colour palette. Members send chat lines over the
`send_message` socket event. A payload without a string `text` makes the
handler throw, and the sender gets the `error` event "Ошибка отправки". A
line is trimmed and dropped when it is blank or the `userId` is falsy. A
banned sender gets an `error` event. Otherwise the line is stored. It is
broadcast to every socket as `new_message` only when the `userId` names a
user; a line from an id with no user row is stored but not broadcast. Both
`GET /api/messages` and the `get_history` socket event return the newest
100 messages whose author is a user, oldest first. `server/auth.js` adds
two read-only helpers: an admin role check on the session user, and a
public-profile lookup.

Modules:

- `Wrappers`: `Option` and `Result`.
- `JsString`: `String.prototype.trim` over the ECMAScript white-space and
  line-terminator set.
- `Rows`: the query shapes the handlers use over a table held as a sequence
  of rows in rowid order. These are `WHERE` (`Select`), an inner join on a
  lookup (`FilterMap`), `LIMIT`, `reverse()`, and "newest `n`, oldest first"
  (`Newest`).
- `Schema`: the row types with their column defaults, the store as a value
  (`Tables`, whose AUTOINCREMENT counters are explicit fields), the
  invariant `Valid` that the primary keys and the `UNIQUE` code column
  maintain, the start-up seed, and the primary-key lookup on `users`.
- `Auth`: `checkAdmin` and `getUserProfile`.
- `Chat`: each handler as one function from a store to a reply and a new
  store, and the lemmas about them.
- `ChatStore`: the database as a mutable object. Class `Store` has the three
  tables and the three counters as fields. Its `Register` and `SendMessage`
  methods change those fields one SQL statement at a time. Each method is
  proved to end in the reply and store that `Chat.Register` or
  `Chat.SendMessage` describes, and to keep `Valid`.

Modelling choices:

- A JavaScript value that may be missing is an `Option`. Numeric fields
  (`codeId`, `userId`, the session's `userId`) are `Option<int>`. They are
  truthy when present and non-zero. String fields are `Option<string>`.
  They are truthy when present and not empty.
- `Math.random()` is the parameter `random`, with `0 <= random < 1`. The
  colour index is `Floor(random * 6)`.
- Each handler is one atomic step. Timestamps are not modelled. The history
  orders messages by id, which is their insertion order.
- `/api/check-code` accepts a code only when its row has `is_active = 1`
  and `used_by` NULL (`server/index.js:99`). Any other code gets the reply
  "Неверный или уже использованный код", that is, "invalid or already used
  code" (`server/index.js:106`). The `UPDATE` in `/api/register` is
  commented as marking the code used (`server/index.js:159`). So a code is
  meant to be redeemed once. `/api/register` does not enforce this: it
  reads the code row by id alone (`server/index.js:140`) and never looks at
  `is_active` or `used_by`. The model follows the code.
  `Chat.RegisterReusesConsumedCode` proves that a consumed or inactive code
  is accepted again and that its `used_by` is overwritten.

## Model

| member | source | states |
|---|---|---|
| `Schema.Seeded` | server/index.js:35-67 | The start-up store is valid, has no users and no messages, and holds exactly one code: id 1, text `ADMIN123`, redeemable. |
| `Schema.LookupUser` | server/index.js:261-264 | `WHERE id = ?` on `users`, first row. The result is `None` exactly when no row has that id. A result is a row of the table with that id. When ids are unique, the result is the one row with that id. |
| `ChatStore.Store.constructor` | server/index.js:35-67 | A new store is valid and equals `Seeded()`. |
| `Chat.CheckCode` | server/index.js:98-112 | The reply is `Some` exactly when the code is present and some row has that text with `is_active = 1` and `used_by` NULL. The returned id is such a row's id. It is a function of the codes table and changes nothing. |
| `Chat.AvatarIndex` | server/index.js:136-137 | The colour index drawn from `random` in [0, 1) is always a valid palette index. |
| `Chat.Register` | server/index.js:126-174 | A falsy nickname, tgUsername or codeId gives `MissingFields` with the store unchanged. Otherwise, no code row with that id gives `CodeNotFound` with the store unchanged, and the converse holds too. A success has role `admin` or `user` and a palette colour. Messages and the code counter never change. |
| `Chat.RegisterSuccess` | server/index.js:136-174 | On a valid store with truthy fields and an existing code row: the reply is the new profile, with id `nextUserId` (above every existing user id). The role is `admin` exactly when the code text is `ADMIN123`, and the colour is from the palette. Exactly one user row is appended with `is_banned` 0. Only that code row changes, and only its `used_by` (set to the new id). The user counter advances by one. |
| `Chat.RegisterPreservesValid` | server/index.js:152-163 | Registration keeps every id positive, increasing and below its counter. It keeps `used_by` an issued user id and code texts unique. |
| `Chat.RedeemedCodeFailsCheck` | server/index.js:157-163 | After a successful registration with a code, `/api/check-code` with that code's text returns nothing. |
| `Chat.RegisterReusesConsumedCode` | server/index.js:140-163 | A code row that is not redeemable (inactive or already used) is still accepted by `/api/register`. A new user is created, and the row's `used_by` is overwritten with the new id. |
| `Chat.SeedCodeMakesFirstAdmin` | server/index.js:140-149 | In the start-up store, `ADMIN123` checks out as code 1. Registering with it creates user 1 with role `admin`, and afterwards `ADMIN123` no longer checks out. |
| `ChatStore.Store.Register` | server/index.js:126-174 | The method's reply and new fields are exactly those of `Chat.Register` on the old fields, and the store stays valid. |
| `JsString.Trim` | server/index.js:254 | `text.trim()`. The result is empty exactly when the text is all white space. A non-empty result starts and ends with a non-white-space character. |
| `JsString.TrimIsInfix` | server/index.js:254 | The trimmed text is one contiguous piece of the original. Everything before it and everything after it is white space. |
| `JsString.TrimIdempotent` | server/index.js:254 | Trimming an already trimmed text changes nothing. |
| `Chat.SendMessage` | server/index.js:251-301 | Absent text gives one `error` ("Ошибка отправки") and no change. Blank text or a falsy userId gives no event and no change. At most one event is emitted, and users, codes and their counters never change. Either the store is unchanged, or exactly one message with the next id, the userId and the trimmed text is appended and the message counter advances by one. A `new_message` event only follows a write, and carries that id, the trimmed text and the sender's id. |
| `Chat.SendFromBannedUser` | server/index.js:261-269 | When the user with that id has `is_banned` set, the only event is `error` "Вы забанены" to the sender, and the store is unchanged. |
| `Chat.SendDelivers` | server/index.js:272-295 | For an existing, unbanned user, one message with the next id and the trimmed text is appended, and the only other change is the message counter. Exactly one `new_message` is broadcast, carrying that id, that text and the sender's public profile. |
| `Chat.SendFromUnknownUser` | server/index.js:272-285 | For a userId with no user row, the message is still stored, but no event is emitted. |
| `Chat.SendWritesExactlyWhen` | server/index.js:254-275 | A message row is written exactly when the text is present and not blank, the userId is truthy, and no user with that id is banned. |
| `Chat.SendPreservesValid` | server/index.js:272-275 | Sending keeps the store valid. |
| `ChatStore.Store.SendMessage` | server/index.js:251-301 | The method's events and new fields are exactly those of `Chat.SendMessage` on the old fields, and the store stays valid. |
| `Rows.NewestOldestFirst` | server/index.js:192-198 | Reading a table newest first, keeping `n` rows and reversing them gives the table's last `n` rows (all of them when there are fewer), in table order. |
| `Rows.FilterMapSelects` | server/index.js:189-191 | An inner join through a lookup keeps exactly the rows the lookup finds, in table order. Each of them is paired with its own lookup result. |
| `Chat.History` | server/index.js:188-198 | `GET /api/messages`, and the same query for `get_history` (server/index.js:234-242). The result is the last `min(100, n)` rows of the message-user join, where `n` is the join's length. They are in join order, and there are at most 100. |
| `Chat.CodesWithId` | server/index.js:140 | `SELECT ... WHERE id = ?` on `invite_codes`. The result is empty exactly when no code row has that id. Every row returned is a row of the table with that id. |
| `Chat.MarkUsed` | server/index.js:160-163 | `UPDATE invite_codes SET used_by = ? WHERE id = ?`. The table keeps its length. Rows with another id are unchanged. Each row with that id gets `used_by` set to the user id, and every other column stays as it was. |
| `Chat.HistoryIsNewestAuthored` | server/index.js:188-198 | The same query runs for `get_history` (server/index.js:234-242). On a valid store, the history has `min(100, n)` rows, where `n` is the number of messages whose author is a user. They are the newest of those messages, each joined with its author's nickname, avatar colour, tg_username and role. Their ids strictly increase, so they are oldest first. |
| `Auth.SessionUserId` | server/auth.js:7 | `req.session?.userId`. Without a session the result is undefined (`None`). With one, it is the session's `userId`. |
| `Auth.CheckAdmin` | server/auth.js:6-12 | Without a truthy session userId the result is false. A true result means some user with that id has role exactly `admin`. With unique ids, the converse holds too. |
| `Auth.GetUserProfile` | server/auth.js:14-20 | The result is null exactly when the id is missing or no user has it. Otherwise it is the public profile (id, nickname, tg_username, role, avatar_color) of a user with that id, which is the only such user when ids are unique. |
| `Auth.ProfileHidesBanFlag` | server/auth.js:15-19 | Changing a user's `is_banned` leaves every profile lookup as it was: the profile never shows the ban flag. |

## Left out

- Express and socket.io wiring are not modelled. This covers routing, CORS, JSON body parsing, static files, connection and disconnection logging (server/index.js:1-29, 228-229, 303-316), the `/api/test` route (server/index.js:211-217) and the `'*'` fallback that serves `index.html` (server/index.js:220-224). They are transport plumbing over libraries that are not part of this model.
- The SQLite connection, the `CREATE TABLE` statements as executed, and the `query`/`run` promise wrappers (server/index.js:32-89) are not modelled. The tables are modelled as sequences with explicit counters instead.
- `server/database.js`, the file-backed store with its own seed code `ADMIN-12345`, is not part of this model. The two helpers of `server/auth.js` query that store. Here they read the same `users` table as the handlers.
- The `catch` branches for storage failures (HTTP 500 replies, and the `error` events for history and sending) are not modelled, and neither are the logging calls. The one exception is the `send_message` payload whose `text` is absent: `text.trim()` throws there, and the model gives the sender the resulting `error` event.
- Payload fields `code`, `codeId`, `userId`, `nickname` and `tgUsername` of other JavaScript types are not modelled. A `code`, `nickname` or `tgUsername` that is a number or object, and a `userId` or `codeId` that is a string, would need the database's type affinity rules. A `text` that is not a string has no `trim` method, so the handler throws; the model treats it as absent (`None`) and gives the same `error` event.
- Timestamps are not modelled: `created_at`, `used_at`, the message `timestamp` and the broadcast's `timestamp`. The history query orders by `timestamp`, which has one-second granularity, so SQLite leaves the order of messages sent in the same second unspecified. The model orders by message id, which is insertion order.
- Concurrency is not modelled. Each handler runs as one atomic step, so there is no interleaving between `/api/check-code` and `/api/register`, or between the ban check, the insert and the broadcast.
- Which sockets receive an event is not modelled beyond the `Event` kinds: an `error` goes to the sender and a `new_message` to every socket.
- The `sessions` object of `server/auth.js` is never read or written, and is not modelled.
