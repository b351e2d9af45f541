# Secret creation in secret-message-locker

This project models the request handler that creates a one-time secret in
secret-message-locker, `POST /api/messages/create`. The handler takes a JSON
body `{ message, mode, ttl }` and checks it in a fixed order. It encrypts the
message with AES-256-GCM and inserts one row
`(id, ciphertext, iv, tag, destroy_mode, expires_at)` into the `messages`
table. It answers with the link `PUBLIC_HOST + "/message/" + id`.

Modules:

- `JsValues` (`js_values.dfy`): the JavaScript semantics the handler relies on.
  It covers the values of a parsed JSON body, truthiness, `typeof`, object
  destructuring, and the range of a valid `Date`.
- `MessagesTable` (`messages_table.dfy`): the `messages` table as a `Table`
  class holding a `map` from id to `Record`. Its `Insert` method either adds
  the row or reports an error. An error comes from a backend failure or a
  duplicate primary key.
- `CreateHandler` (`create_handler.dfy`): validation (`Validate`) and the link
  (`MessageLink`, with its inverse `LinkedId`). `Outcome` is a reference
  function for one call. `Handle` is the imperative handler, proved equal to
  `Outcome`. The remaining lemmas cover one call and a series of calls
  (`Serve`).
- `Wrappers` (`wrappers.dfy`): `Option` and `Result`.

The handler's inputs from its environment are parameters:

- the clock (`Date.now()`, integer milliseconds);
- the fresh id (`randomUUID()`);
- the encryption of the message under the master key, a function
  `string -> Ciphered`. In a series of calls (`Serve`) each `Call` carries
  its own encryption function, so each call can draw its own random IV.
- whether the database backend fails;
- the `NEXT_PUBLIC_HOST` setting, which `Handle` turns into the host through
  `PublicHost`. The reference function `Outcome` and the `Serve` lemmas hold
  for any host string.

The handler rejects only a TTL that is falsy or not a number, so a negative
TTL is accepted and stored with a deadline in the past
(`CreateHandler.NegativeTtlAccepted`).

## Model

| member | source | states |
|---|---|---|
| `JsValues.TypeOf` | src/pages/api/messages/create.ts:21 | `typeof` answers "string" exactly for strings and "number" exactly for numbers; null, arrays and objects are all "object" |
| `JsValues.Truthy` | src/pages/api/messages/create.ts:21 | the falsy values are exactly undefined, null, false, 0 and the empty string; every other value, arrays and objects included, is truthy |
| `JsValues.Property` | src/pages/api/messages/create.ts:19 | destructuring fails (TypeError) exactly when the body is undefined or null; a field present in the object is read as it is, and any other name reads as undefined |
| `JsValues.InTimeRange` | src/pages/api/messages/create.ts:34 | a time value gives a valid Date exactly when its absolute value is at most 8.64e15 ms |
| `CreateHandler.FieldsOf` | src/pages/api/messages/create.ts:19 | `{ message, mode, ttl }` of a body: nothing (TypeError) exactly when the body is undefined or null; each field of an object body as present, otherwise undefined; all three undefined for any other non-null body |
| `CreateHandler.MessageLink` | src/pages/api/messages/create.ts:59 | the link is the host, then "/message/", then the id, and nothing else |
| `CreateHandler.PublicHost` | src/pages/api/messages/create.ts:9 | the host is never empty: a set, non-empty `NEXT_PUBLIC_HOST` is used as is, otherwise "http://localhost:3000" |
| `CreateHandler.LinkRoundTrip` | src/pages/api/messages/create.ts:59 | the id read back from a link after `host + "/message/"` is the id the link was built from |
| `CreateHandler.LinkInjective` | src/pages/api/messages/create.ts:59 | under one host, equal links mean equal ids |
| `CreateHandler.Validate` | src/pages/api/messages/create.ts:21-33 | a message must be a non-empty string (blanks accepted), checked first; then the mode must be exactly "view" or "time"; then, in "time" mode only, the TTL must be a non-zero number; each failure has its own rejection; an accepted body keeps the message, and its policy is "view" whatever the TTL, or "time" with the TTL |
| `CreateHandler.Outcome` | src/pages/api/messages/create.ts:15-61 | a method other than POST gets 405 with no body and leaves the table alone; a POST whose body is undefined or null throws a TypeError; only a 200 with the link of `id` changes the table |
| `CreateHandler.RejectionOrder` | src/pages/api/messages/create.ts:21-33 | for a POST body: a bad message gets 400 "Invalid message"; a good message with a bad mode gets 400 "Invalid destroy mode"; a good message in "time" mode with a bad TTL gets 400 "Invalid TTL"; none changes the table |
| `CreateHandler.DeadlineOutOfRange` | src/pages/api/messages/create.ts:34 | an accepted "time" body whose deadline `now + ttl*1000` is outside the range of a valid Date throws a RangeError before anything is stored |
| `CreateHandler.InsertFailure` | src/pages/api/messages/create.ts:43-60 | for an accepted body: the insert fails (backend error or id already present) exactly when the reply is 500 "Database insert failed" with the table unchanged, and succeeds exactly when the reply is 200 with the link |
| `CreateHandler.AcceptedStoresRecord` | src/pages/api/messages/create.ts:29-52 | a successful insert adds exactly one row, under `id`, holding the ciphertext, IV and tag of the message's encryption and the mode; `expires_at` is null for "view" and `now + ttl*1000` ms for "time"; every other row is unchanged |
| `CreateHandler.SuccessOnlyWhenAccepted` | src/pages/api/messages/create.ts:15-60 | a 200 is answered only to a POST whose body passed every check, whose deadline is a valid Date, and whose insert met no backend error and no existing id |
| `CreateHandler.OutcomeKeepsConsistent` | src/pages/api/messages/create.ts:29-52 | after a call every row still sits under its own id and has an expiry exactly when its mode is "time" |
| `CreateHandler.LinkAddressesRow` | src/pages/api/messages/create.ts:58-60 | after a success, `id`, the id its link addresses, is in the table |
| `CreateHandler.Handle` | src/pages/api/messages/create.ts:11-61 | the handler with early returns and `expiresAt` set only in "time" mode, with the host chosen from `NEXT_PUBLIC_HOST` by `PublicHost`: its reply and the new table are exactly those of `Outcome` |
| `CreateHandler.NegativeTtlAccepted` | src/pages/api/messages/create.ts:30-34 | a negative TTL in "time" mode is accepted and stored with an expiry earlier than `now` |
| `CreateHandler.StepEffect` | src/pages/api/messages/create.ts:37-60 | one call either succeeds, adding a row under a new id and keeping every other row, or leaves the table as it was |
| `CreateHandler.Serve` | src/pages/api/messages/create.ts:11-61 | successive calls, each with its own clock reading, id, encryption and backend outcome, give one reply per call |
| `CreateHandler.ServeWriteOnce` | src/pages/api/messages/create.ts:43-56 | over any series of calls no row is overwritten or removed |
| `CreateHandler.ServeKeepsConsistent` | src/pages/api/messages/create.ts:29-52 | over any series of calls every row stays under its own id and well-formed |
| `CreateHandler.ServeGrowth` | src/pages/api/messages/create.ts:43-60 | over any series of calls the table grows by exactly one row per 200 reply |
| `CreateHandler.ServeLinksResolve` | src/pages/api/messages/create.ts:43-60 | each 200 reply in a series carries the link of its own call's id; that id was not in the table before and is in it after |
| `CreateHandler.ServeDistinctLinks` | src/pages/api/messages/create.ts:43-60 | no two successful calls in a series share an id or hand out the same link |
| `MessagesTable.TryInsert` | src/pages/api/messages/create.ts:43-56 | an insert succeeds exactly when the backend does not fail and the id is new; it then adds exactly that row and keeps every other one |
| `MessagesTable.Table.Insert` | src/pages/api/messages/create.ts:43-54 | the table's rows change exactly as `TryInsert` says, and `ok` reports success |
| `MessagesTable.InsertKeepsConsistent` | src/pages/api/messages/create.ts:43-52 | inserting a well-formed row under its own id keeps the table consistent |

## Left out

- Numbers are integers only. NaN, the infinities, -0 and fractional TTLs are not modelled. For integer TTLs, `ttl * 1000` and the sum with `Date.now()` are exact whenever the resulting Date is valid, so the integer arithmetic matches the floating-point arithmetic there.
- `expires_at` is kept as milliseconds since the epoch. Its ISO 8601 text from `toISOString()` is not modelled.
- The encryption (`src/lib/crypto/aesGcm.ts`) is an opaque function parameter. Its AES-256-GCM round trip and tamper detection are not modelled. An encryption that throws (a master key of the wrong length) is not modelled.
- `randomUUID()` is a parameter. Its uniqueness is not assumed; a repeated id is the duplicate-key error of the insert.
- `CreateHandler.Serve` runs calls one after another; each call's encryption is a parameter of that call, so nothing is assumed about how IVs differ between calls.
- The Supabase client and the network: the insert is a map update plus a success/failure outcome. A duplicate id counts as a failure, as a primary-key conflict would. Other database errors are the `backendFails` parameter.
- `process.env` loading and the `MASTER_KEY` module constant are configuration. The host is a parameter built by `PublicHost`.
- What the framework sends after the handler throws is not modelled. The model records only the exception (`Threw`) and that nothing was inserted.
- `JsValues.Property` reads only the fields of a parsed object. It is used only for "message", "mode" and "ttl", which are neither array indices nor built-in properties of strings or arrays.
- Concurrency between requests is not modelled.
- The page that reads and destroys a secret (`src/pages/message/[id].tsx`) and the sender's form (`src/pages/index.tsx`) are not part of this model.
