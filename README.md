# Task API: authentication gate, accounts and ownership-scoped tasks

This project is a Dafny model of the request-decision logic of a small
Express/MongoDB task-tracking backend. It covers four parts:

- **Bearer gate** (`auth.ts`). It reads the `Authorization` header and requires the exact,
  case-sensitive prefix `"Bearer "`. It trims the token and checks it with the token codec,
  then looks up the user. It either answers 401 with one of three messages, or attaches the
  password-free user to the request and calls `next` once.
- **Account handlers** (`authController.ts`) and the **user model** (`User.ts`).
  - `register` checks for a duplicate email, saves the user and issues a token.
  - `login` looks the email up, compares the password and issues a token.
  - The user model stores emails trimmed and lowercased, and unique.
  - The model requires the password and a minimum length of 6.
  - It hashes the password on save only when the password was modified.
- **Task handlers** (`taskController.ts`).
  - Create, list, update and delete are scoped to the calling user.
  - The list handler filters, sorts newest-first and paginates.
  - The lookup by id is not scoped to the caller.
- **Request schemas** (`taskSchemas.ts`). These cover the create and update bodies, the
  24-hex-digit task id and the list query.

Stores are in memory:

- The user collection is a `map` from id to record.
- The task collection is a `seq` kept in insertion order.
- ObjectIds are fresh naturals from a counter.
- The `createdAt` timestamp is a second counter, so creation times are distinct and increasing.

Collaborators the model does not see are parameters:

- The token codec is a pair of functions, `sign` and `verify`. `Tokens.Sound` states what a
  working codec guarantees, and `Tokens.Reference` is a concrete codec that meets it.
- The salt bcrypt draws at random is a `salt` argument.
- Any failure of the database is an `outage` flag. A thrown error takes the handler's `catch`
  branch.

Modules: `Wrappers` (Option), `Text` (JavaScript `trim`, `toLowerCase`,
`startsWith`, `.length` in UTF-16 units, decimal digits), `Http` (the
`{ success, message, data }` envelope, without the `error` field of 500 replies), `Users`, `Tokens`, `Auth`, `Accounts`, `TaskSchemas`, `Tasks`.

Interpretations where the code depends on library behaviour:

- `User.findOne({ email })` runs the query value through the field's `lowercase` and `trim`
  setters. Mongoose does this when it casts a query. So the duplicate check and the login
  lookup compare normalised emails.
- Mongoose validation runs before the user's `pre("save")` hook. So `minlength: 6` is checked
  on the plaintext, and a validation failure makes `save()` throw. `register` then answers
  500 "Error registering user".
- `findOneAndUpdate` gets `dueDate: undefined` when no due date is sent. That key is dropped
  (Mongoose 6 and later), so the stored due date is kept.
- The Task model file is not part of this model. A new task's `completed` is false. The
  controller does not pass the body's `completed` on, and tasks.test.ts:46 expects false.
- `deleteTask` reads `req.user._id` without a guard. With no user this throws, and the answer
  is 500 "Error deleting task", not 401.

## Model

| member | source | states |
|---|---|---|
| `Text.TrimStartShape` | auth.ts:19 | `trim()` first drops exactly the longest all-whitespace prefix and keeps the rest in order |
| `Text.TrimEndShape` | auth.ts:19 | then it drops exactly the longest all-whitespace suffix |
| `Text.TrimEmptyIff` | auth.ts:19-22 | `trim()` gives the empty string exactly when the input is all whitespace, which is when `!token` rejects |
| `Text.TrimFixesTrimmed` | auth.ts:19 | a string with no whitespace at either end trims to itself, and every non-empty trim result is of that kind |
| `Text.TrimKeepsChars` | User.ts:21 | the `trim` setter only removes characters and never introduces one |
| `Text.JsLength` | taskSchemas.ts:6-7 | JavaScript's `.length` counts UTF-16 code units: at least one and at most two per character, and zero only for the empty string |
| `Text.JsLengthUnits` | User.ts:26 | `.length` equals the character count exactly when no character is outside the Basic Multilingual Plane, and is twice it exactly when every character is |
| `Text.ToLowerAt` | User.ts:20 | the `lowercase` setter maps each character on its own and keeps the length |
| `Text.DecimalRoundTrip` | jwt.ts:6-12 | reading back the decimal spelling of `n` gives `n`; the reference codec's tokens carry their id this way |
| `Users.HashThenCompare` | User.ts:40-53 | under the idealised injective hash, `compare(q, hash(p, salt))` holds exactly when `q == p`, whatever the salt, and a digest is never the plaintext |
| `Users.ComparePassword` | User.ts:49-53 | `comparePassword` can succeed only against a stored digest, never against a plaintext field equal to the candidate |
| `Users.AstralPasswordLongEnough` | User.ts:23-27 | a password of three astral characters has `.length` 6, so it passes `minlength: 6` |
| `Users.NormalizeEmail` | User.ts:20-21 | the `lowercase` then `trim` setters; its shape and idempotence are stated by `Users.NormalizedShape` and `Users.NormalizeIdempotent` |
| `Users.SchemaValid` | User.ts:16-32 | the `required` validators on email and name and `minlength: 6` on the password's `.length`; `Users.UserDocument.Save` succeeds exactly when it holds |
| `Users.NormalizedShape` | User.ts:16-22 | a stored email has no ASCII upper-case letter, no whitespace at either end, and is no longer than the input |
| `Users.NormalizeIdempotent` | User.ts:16-22 | normalising a stored email again changes nothing, so a query for it finds it |
| `Users.UserDocument.constructor` | User.ts:14-37 | a new document has the trimmed name, the normalised email and the plaintext password marked as modified |
| `Users.UserDocument.Save` | User.ts:40-46 | a save succeeds exactly when the required and `minlength` validators pass, the length counted in UTF-16 units as JavaScript does. It hashes the password only if that field was modified, keeps an unmodified password's digest, and then clears the modified flag |
| `Users.SaveTwiceKeepsHash` | User.ts:40-53 | after the first save the field holds `hash(plaintext, salt)`, not the plaintext, and `comparePassword` accepts exactly that plaintext. A second save keeps the same digest |
| `Tokens.ReferenceIsSound` | jwt.ts:6-12 | the `Sound` assumption can be met. Verifying a freshly issued token gives back its user id, and the token has no surrounding whitespace |
| `Auth.ExtractToken` | auth.ts:15-22 | a token is present exactly when the header starts with the exact `"Bearer "` and the rest is not all whitespace. The token is that rest, trimmed |
| `Auth.Decide` | auth.ts:15-50 | the gate's whole decision: no token, a failed verification or lookup, an unknown user, or admission of the stored user; its cases are stated by the four rejection lemmas, `Auth.AdmittedMeansVerified` and `Auth.IssuedTokenAdmitted` |
| `Auth.NoBearerPrefixRejected` | auth.ts:15-28 | a missing header (read as `""`) or one without the exact prefix is rejected with "Access denied. No token provided." |
| `Auth.BlankTokenRejected` | auth.ts:18-28 | `"Bearer "` followed only by whitespace counts as no token |
| `Auth.VerifyFailureRejected` | auth.ts:30-50 | if verification throws or the user lookup throws, the answer is "Invalid token." |
| `Auth.UnknownUserRejected` | auth.ts:32-40 | a token naming an id with no stored user gets "Invalid token. User not found." |
| `Auth.AdmittedMeansVerified` | auth.ts:30-43 | admission happens only for a verified token naming a stored user, and attaches that user's current record without the password |
| `Auth.IssuedTokenAdmitted` | auth.ts:15-43 | a token from a sound codec opens the gate to its user even when padded with whitespace. Once that user is deleted, the same token is refused as stale |
| `Auth.TrimPadded` | auth.ts:19 | trimming a token padded with whitespace on both sides gives back the token |
| `Auth.Authenticate` | auth.ts:9-51 | either a 401 reply with the decision's message and `next` not called, or `req.user` set and `next` called exactly once. Never both and never neither |
| `Accounts.UserStore.FindByEmail` | authController.ts:10 | finds a user whose stored email equals the normalised query, and reports none exactly when no such user exists |
| `Accounts.UserStore.Register` | authController.ts:6-43 | a taken email gives 400 "User already exists with this email". A failed validation (a missing field, or a password whose UTF-16 `.length` is under 6) or a store failure gives 500 "Error registering user". Otherwise 201 adds exactly one user with a fresh id, the trimmed name, the normalised email and a digest of the password, and returns a token for that id with the `{id, name, email}` projection. Any non-201 answer leaves the store unchanged. Email uniqueness and "no plaintext stored" are kept |
| `Accounts.UserStore.Login` | authController.ts:45-88 | under the idealised injective hash, 200 exactly when a user with the normalised email has a matching digest, with a token for that user's id. An unknown email and a wrong password give the same 401 "Invalid email or password". A store failure gives 500 "Error logging in". The store is only read |
| `Accounts.InsertKeepsUnique` | User.ts:19 | adding a user whose email is not taken keeps emails unique |
| `Accounts.RegisteredCredentialsAccepted` | authController.ts:49-65 | after registration the same email and password are accepted, and with unique emails and the idealised injective hash no other password is |
| `TaskSchemas.ParsePriority` | taskSchemas.ts:10 | exactly "low", "medium" and "high" are accepted, each mapping back to its own name |
| `TaskSchemas.CreateTaskSchema` | taskSchemas.ts:3-12 | a body is accepted exactly when the title is present with a `.length` of 1..100 UTF-16 units and the priority, if sent, is in the enum. Priority defaults to medium and `completed` to false. A refusal names only the title or priority fields |
| `TaskSchemas.TitleBoundary` | taskSchemas.ts:4-7 | a title whose `.length` is 100 is accepted. A `.length` of 101 is refused with "Title must be less than 100 characters", and an empty title with "Title is required" |
| `TaskSchemas.AstralTitleRefused` | taskSchemas.ts:4-7 | a title of more than 50 astral characters (emoji) has `.length` over 100 and is refused with "Title must be less than 100 characters" |
| `TaskSchemas.UpdateTaskSchema` | taskSchemas.ts:14-20 | every field is optional. A title that is sent must have a `.length` of 1..100 UTF-16 units, a priority must be in the enum, and a due date must be an ISO date-time |
| `TaskSchemas.EmptyUpdateAccepted` | taskSchemas.ts:14-20 | an empty update body is accepted and changes nothing |
| `TaskSchemas.MatchHex` | taskSchemas.ts:23 | the regular expression `[0-9a-fA-F]{n}` anchored at both ends matches exactly `n` hex digits of either case |
| `TaskSchemas.TaskParamsSchema` | taskSchemas.ts:22-24 | an id is valid exactly when it is 24 hex digits of either case, and otherwise gets "Invalid task ID format" |
| `TaskSchemas.MatchDigits` | taskSchemas.ts:29-30 | `^\d+$` matches exactly the non-empty all-digit strings |
| `TaskSchemas.TaskQuerySchema` | taskSchemas.ts:26-31 | a query is accepted exactly when `completed` is "true" or "false", `priority` is in the enum, and `page` and `limit` are non-empty digit strings. Every field may be absent |
| `Tasks.FindFirst` | taskController.ts:126-127 | a single-document query returns a document matching its filter, and returns none exactly when nothing matches |
| `Tasks.OwnedLookupAgreesWithIdLookup` | taskController.ts:190-193 | with unique ids, the `{_id, createdBy}` query finds a task exactly when the id-only lookup finds one that the caller owns |
| `Tasks.QueryFilterMeaning` | taskController.ts:30-36 | the filter always requires `createdBy == caller`. A sent `completed` requires `completed == (value == "true")` and a sent priority requires equality. Absent fields do not constrain |
| `Tasks.Select` | taskController.ts:42 | `find(filter)`: the matching tasks in collection order; stated by `Tasks.SelectMembers` and `Tasks.SelectChronological` |
| `Tasks.SelectMembers` | taskController.ts:42 | `find(filter)` returns exactly the stored tasks that match, and no more tasks than are stored |
| `Tasks.SelectChronological` | taskController.ts:42-43 | selection keeps creation order |
| `Tasks.ReverseAt` | taskController.ts:43 | reversal puts position `k` at `n-1-k` |
| `Tasks.Listing` | taskController.ts:42-43 | `find(filter).sort({ createdAt: -1 })`; stated by `Tasks.ListingIsSortedSelection` |
| `Tasks.ListingIsSortedSelection` | taskController.ts:42-47 | the sorted listing holds exactly the matching tasks, as many as `countDocuments` counts, in strictly descending creation order |
| `Tasks.Window` | taskController.ts:44-45 | `.skip(skip).limit(limit)`; stated by `Tasks.WindowShape` |
| `Tasks.WindowShape` | taskController.ts:44-45 | `skip(s).limit(l)` returns at most `l` tasks, the ones from position `s` on |
| `Tasks.PageCount` | taskController.ts:55 | `Math.ceil(total / limit)`; stated by `Tasks.PageCountIsCeiling` |
| `Tasks.PageCountIsCeiling` | taskController.ts:55 | `total` is the ceiling of `totalItems / limit`: enough pages for every item, and no empty last page |
| `Tasks.EveryItemOnItsPage` | taskController.ts:38-45 | item `i` of the listing is entry `i % limit` of page `i / limit + 1`, and that page is within `total` |
| `Tasks.ListedPage` | taskController.ts:40-45 | a returned page has at most `limit` tasks, each stored and matching, newest first |
| `Tasks.Patch` | taskController.ts:126-133 | an update never changes a task's id, owner or creation time |
| `Tasks.RemoveKeepsTable` | taskController.ts:190-193 | removing the deleted task keeps ids unique, creation order and the counters' bounds, and keeps every other task |
| `Tasks.TaskTable.BuildFilter` | taskController.ts:30-36 | the filter built field by field matches a task exactly when it is the caller's and satisfies each sent query field |
| `Tasks.TaskTable.GetTasks` | taskController.ts:9-68 | with no caller, 401 "Authentication required". Otherwise page `page` (default 1) of size `limit` (default 10) of the caller's matching tasks, at skip `(page-1)*limit`. The tasks are newest first and all owned by the caller. `totalItems` counts all matches, `total` is the ceiling of `totalItems/limit`, `current` is `page` and `count` is the page length |
| `Tasks.TaskTable.CreateTask` | taskController.ts:70-108 | with no caller, 401 and nothing changes. Otherwise exactly one task is appended, owned by the caller whatever the body says, with a fresh id and the newest creation time, and the answer is 201 |
| `Tasks.TaskTable.UpdateTask` | taskController.ts:110-155 | with no caller, 401. Otherwise only the task with this id that the caller owns is patched. If there is none, the answer is 404 "Task not found or you do not have permission to update it" and nothing changes. No other task ever changes |
| `Tasks.TaskTable.GetTaskById` | taskController.ts:157-183 | the lookup is by id alone. It answers 200 exactly when some stored task has that id, whoever owns it, and otherwise 404 "Task not found" |
| `Tasks.TaskTable.GetOwnTaskById` | taskController.ts:157-183 | corrected lookup: 200 only with a task the caller owns. A task owned by someone else gets the same 404 as a missing one |
| `Tasks.TaskTable.DeleteTask` | taskController.ts:185-214 | only the task with this id that the caller owns is removed. If there is none, the answer is 404 "Task not found or you do not have permission to delete it" and nothing changes. With no caller the answer is 500. Every other task stays |
| `Tasks.ForeignTaskReadableById` | taskController.ts:162 | user 1 asking for task 0, owned by user 2, is answered with that task. The owner-scoped query would find nothing |

## Findings

| source | as written | input that shows it | evidently intended | confidence | as-written member | corrected member |
|---|---|---|---|---|---|---|
| taskController.ts:162 | `Task.findById(req.params.id)` has no `createdBy` filter, so any authenticated user can read any task by id | a store holding task 0 owned by user 2, and user 1 sends `GET /api/tasks/0` | the ownership filter the other four handlers apply: another user's task answers 404 like a missing one | medium, not executed | `Tasks.ForeignTaskReadableById` | `Tasks.TaskTable.GetOwnTaskById` |

## Left out

- Token signing: the HMAC, the secret, its fallback default and the expiry clock are not modelled. The codec is a parameter, and `Tokens.Sound` is all the model assumes of it.
- bcrypt: the hash is an idealised injective constructor, and salt generation and the cost factor are not modelled.
- `Users.HashThenCompare`, `Accounts.UserStore.Login` and `Accounts.RegisteredCredentialsAccepted` hold for the idealised hash only. bcrypt reads only the first 72 bytes of the UTF-8 password, so two passwords that agree on those bytes (72 `a`s then `1`, and 72 `a`s then `2`) compare equal in the program, and the model answers 401 where the program answers 200.
- Error details: every 500 reply in the program also carries `error: error.message`, the thrown error's text. The model's envelope drops that field, because the text comes from the database driver and the schema library.
- Database bootstrapping, Express wiring, CORS, Swagger, the health endpoint and the test files: these are I/O and configuration.
- The validation middleware that maps schema issues to "Validation error", "Invalid parameters" and "Invalid query parameters" is not part of this model. The handlers are modelled as receiving the schemas' parsed output, so unknown body keys are already stripped.
- The auth body schemas are not part of this model either. `register` models only the user model's own validators.
- Casting an id string to an ObjectId: handlers take numeric ids, and `TaskParamsSchema` states only the string format.
- `Text.ToLower`: only ASCII letters are lowered, because JavaScript's full Unicode case mapping is not modelled.
- `TaskSchemas.CreateTaskSchema`: the due date is accepted as sent, because `z.coerce.date()` and `new Date(...)` parsing are not modelled. Type errors such as a non-string title are not modelled either.
- `TaskSchemas.UpdateTaskSchema`: the date-time check is the shape `YYYY-MM-DDTHH:MM:SS[.fff]Z`. Newer schema-library versions also check day and month ranges, which this does not.
- zod's generated messages for enum, regex and required failures are given in their short form.
- `Tasks.TaskTable.GetTasks`: `page` and `limit` are required to be at least 1, so "0" (a negative skip or division by zero) and `parseInt` precision above 2^53 are not modelled.
- `updatedAt` timestamps and `runValidators` on update are not modelled.
- Two tasks created in the same millisecond have tied real timestamps. The counter model makes creation times distinct.
- Concurrency: the race between the duplicate-email check and the insert is not modelled, because the model is sequential.
- Database failures are one `outage` flag per handler. Where in the handler the throw happened is not modelled, because every such throw gives the same answer and leaves the store unchanged.
