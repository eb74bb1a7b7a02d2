# moshimoshi-server persistence layer in Dafny

This project models the data layer of the moshimoshi video-meeting server:
the model functions that read and write the four PostgreSQL tables
(`meetings`, `participants`, `users`, `userSettings`), the small error
helpers they share, and the middleware that turns a verified token
payload into the current user.

Layout, one module per source file:

- `db.dfy` (`Db`): the rows of the four tables, the whole database as the
  value `Tables`, and the class `Database` whose fields the operations
  update.
- `responses.dfy` (`Responses`): the `{ success, value }` record that the
  validating models (create, attend, leave, signUp, signIn, updateEnable,
  update) return, and `Step`, the tables after an operation paired with its
  response. The queries (the finds, findAllActive and the participants.ts
  functions) return rows directly.
- `validator.dfy` (`Validator`): `failedToCreateError`,
  `uniqueValidationError` and `notFoundError`, plus the issue a failing
  schema check reports.
- `meetings.dfy` (`Meetings`): `findAllActive`, `find`, `create`, `attend`
  and `leave`, with the invariants of the two tables they write.
- `participants.dfy` (`Participants`): `update`, `findProducerIds` and
  `getParticipantsByMeetingUuid`.
- `users.dfy` (`Users`): `signUp`, `signIn` and `find`.
- `user_settings.dfy` (`UserSettings`): the `Target` enum, `updateEnable`,
  `update` and `find`.
- `current_user_middleware.dfy` (`CurrentUserMiddleware`): the middleware,
  as a pure decision and as a method over a request context.
- `lifecycle.dfy` (`Lifecycle`): any sequence of create / attend / leave /
  producer updates, and what holds along it.
- `common.dfy` (`Common`): `Option`, the JSON value of a request field, and
  generic row operations (`FirstWhere`, `Filter`, `UpdateWhere`, `Map`,
  `Count`, `Pairwise`) with their lemmas.

Every state-changing operation has two forms:

- A pure step function (`CreateStep`, `AttendStep`, ...) from the old
  tables to the new tables and the response.
- A method on `Db.Database` that `modifies` the database, proved to land
  exactly in that step's state with that response.

The properties are lemmas about the step functions. Each transaction is
one atomic step.

The checks happen in the code's order: schema validation first, then the
lookups, then the writes. A field of a request body is a `JsValue`
(undefined, null, boolean, number, string, or something else), so a
schema check is a predicate on it. A failing field reports one
`SchemaIssue(field)`, in schema order.

Three behaviours of the code worth knowing:

- `attend` looks at neither the meeting's existence nor its `finishedAt`,
  so it admits a user to a finished meeting (`Lifecycle.AttendIgnoresFinished`).
- `attend` always inserts a non-owner row. The only owner row is the one
  `create` writes.
- `user-settings.update` refuses `null` fields, because valibot's `v.optional`
  accepts `undefined` only. The `?? undefined` in the update never sees a null.

## Model

| member | source | states |
|---|---|---|
| Validator.FailedToCreateError | moshimoshi-server/src/libs/validator.ts:1-3 | the issue has the given path and the message "Failed to create " followed by the path |
| Validator.UniqueValidationError | moshimoshi-server/src/libs/validator.ts:5-7 | the issue has the given path and the message "Already exists " followed by the path |
| Validator.NotFoundError | moshimoshi-server/src/libs/validator.ts:9-11 | the issue has the given path and the fixed message "Not found" |
| Validator.ConstructorsInjective | moshimoshi-server/src/libs/validator.ts:1-11 | equal failed-to-create or already-exists messages mean equal paths; not-found messages are equal for every path |
| Validator.MessagesDistinct | moshimoshi-server/src/libs/validator.ts:1-11 | for one path the three helpers give three different messages |
| Meetings.JoinUsers | moshimoshi-server/src/models/meetings.ts:15-22 | the inner join lists exactly the pairs (row of the meeting, user whose id is the row's userId) |
| Meetings.Joined | moshimoshi-server/src/models/meetings.ts:15-28 | the participant list of a meeting holds the selected user columns and owner flag of exactly the joined rows |
| Meetings.ParticipantsOfOwnersFirst | moshimoshi-server/src/models/meetings.ts:15-29 | the ordered list is a permutation of the joined rows with every owner before every non-owner |
| Meetings.FindAllActive | moshimoshi-server/src/models/meetings.ts:10-34 | lists one entry per unfinished meeting, each a stored meeting whose finishedAt is null |
| Meetings.FindAllActiveIsActive | moshimoshi-server/src/models/meetings.ts:10-34 | every listed meeting is stored and unfinished with its own participants; every unfinished meeting is listed; the count equals the number of unfinished meetings |
| Meetings.Find | moshimoshi-server/src/models/meetings.ts:36-60 | finds a stored meeting with that uuid, finished or not, with its participant list; none exactly when no meeting has that uuid |
| Meetings.CreateStep | moshimoshi-server/src/models/meetings.ts:67-107 | succeeds exactly when the name is a string of at most 255 characters and the uuid is not taken; a failure writes nothing; users and settings are never written; a success returns the unfinished meeting under the new uuid and adds one meeting and one participant row |
| Meetings.Create | moshimoshi-server/src/models/meetings.ts:67-107 | the database ends in the create step's tables and the method returns its response |
| Meetings.CreateRejectsBadName | moshimoshi-server/src/models/meetings.ts:62-74 | a name that is not a string of at most 255 characters gives a failure on "name" and no write |
| Meetings.CreateAddsMeetingAndOwner | moshimoshi-server/src/models/meetings.ts:76-105 | a valid create returns the new unfinished meeting, appends it, and appends exactly one owner row for the creator; the other tables are unchanged |
| Meetings.CreateCollisionFails | moshimoshi-server/src/models/meetings.ts:77-91 | an insert that returns no row (uuid already taken) gives failedToCreateError("meeting") and no write |
| Meetings.AttendStep | moshimoshi-server/src/models/meetings.ts:114-147 | fails exactly when the uuid check fails; a failure or an already-attended answer writes nothing; only participant rows are ever added, none removed or changed |
| Meetings.Attend | moshimoshi-server/src/models/meetings.ts:114-147 | the database ends in the attend step's tables and the method returns its response |
| Meetings.AttendRejectsBadUuid | moshimoshi-server/src/models/meetings.ts:109-119 | a meeting id that fails the uuid check gives a failure on "uuid" and no write |
| Meetings.AttendIdempotent | moshimoshi-server/src/models/meetings.ts:121-145 | an existing row gives "Already attended" with no write; otherwise exactly one non-owner row is added and "attended" is returned |
| Meetings.AttendTwice | moshimoshi-server/src/models/meetings.ts:122-134 | a second attend writes nothing and, with a valid uuid, reports already attended |
| Meetings.LeaveStep | moshimoshi-server/src/models/meetings.ts:154-191 | succeeds exactly when the uuid is valid and the pair has a row; a failure writes nothing; users and settings are never written; no meeting is added or removed and no participant row is added |
| Meetings.Leave | moshimoshi-server/src/models/meetings.ts:154-191 | the database ends in the leave step's tables and the method returns its response |
| Meetings.LeaveRejectsBadUuid | moshimoshi-server/src/models/meetings.ts:149-159 | a meeting id that fails the uuid check gives a failure on "uuid" and no write |
| Meetings.LeaveNotFound | moshimoshi-server/src/models/meetings.ts:162-171 | with no row for the pair, the result is notFoundError("participant") as a single value, and nothing is written |
| Meetings.LeaveRemovesRow | moshimoshi-server/src/models/meetings.ts:173-189 | a leave answers "left", deletes exactly the pair's rows and keeps the rest, and sets finishedAt on that meeting only when the leaver is the owner |
| Meetings.OneRowPerPairAtMostOne | moshimoshi-server/src/models/meetings.ts:183-187 | under the one-row-per-pair invariant a pair has at most one row, so leave deletes at most one row |
| Meetings.CreatePreservesInv | moshimoshi-server/src/models/meetings.ts:76-100 | create keeps the four invariants: one row per pair, one owner per meeting, unique meeting uuids, owners only of stored meetings. It needs the new uuid to be unused by participant rows |
| Meetings.AttendPreservesInv | moshimoshi-server/src/models/meetings.ts:121-143 | attend keeps the four invariants |
| Meetings.LeavePreservesInv | moshimoshi-server/src/models/meetings.ts:161-190 | leave keeps the four invariants |
| Meetings.MeetingsEvolveTransitive | moshimoshi-server/src/models/meetings.ts:173-181 | "meetings only grow and finished stays finished" composes across steps |
| Meetings.CreateEvolves | moshimoshi-server/src/models/meetings.ts:76-84 | create removes, renames and unfinishes no meeting |
| Meetings.AttendEvolves | moshimoshi-server/src/models/meetings.ts:121-145 | attend leaves the meetings table unchanged |
| Meetings.LeaveEvolves | moshimoshi-server/src/models/meetings.ts:173-181 | leave removes, renames and unfinishes no meeting |
| Participants.SetProducer | moshimoshi-server/src/models/participants.ts:12-17 | the rows of the (meeting, user) pair get the producer id and updatedAt; every other row is unchanged |
| Participants.Update | moshimoshi-server/src/models/participants.ts:3-18 | the only table written is participants, by the producer update, and the count of updated rows is the number of rows of the pair |
| Participants.SetProducerOnlyMatching | moshimoshi-server/src/models/participants.ts:12-17 | only rows matching both user and meeting get the producer id and updatedAt; every key and owner flag and every other row stay |
| Participants.SetProducerNoMatch | moshimoshi-server/src/models/participants.ts:12-17 | with no row for the pair the update changes nothing |
| Participants.SetProducerPreservesInv | moshimoshi-server/src/models/participants.ts:12-17 | the producer update keeps the four meetings/participants invariants |
| Participants.FindProducerIds | moshimoshi-server/src/models/participants.ts:20-28 | lists exactly the (user, producer) of the meeting's rows whose producerId is not null |
| Participants.UpdateThenFindProducer | moshimoshi-server/src/models/participants.ts:12-27 | after updating an existing row, the producer list includes that user with the new producer id |
| Participants.GetParticipantsByMeetingUuid | moshimoshi-server/src/models/participants.ts:30-44 | one entry per joined (row, user) pair, each carrying the name of a stored user with that id |
| Participants.ParticipantsAreJoinedRows | moshimoshi-server/src/models/participants.ts:30-44 | every listed participant is a row of the meeting that has a user, with attendedAt the row's updatedAt; every such row is listed |
| Users.SignUpIssuesExact | moshimoshi-server/src/models/users.ts:12-25 | the schema passes exactly when email, password and name are valid, and names each field that is not |
| Users.SignUpStep | moshimoshi-server/src/models/users.ts:18-55 | succeeds exactly when the schema passes and the email is not stored; a failure writes nothing; a success appends the returned user under the next id with the hashed password and advances the id sequence |
| Users.SignUp | moshimoshi-server/src/models/users.ts:18-55 | the database ends in the sign-up step's tables and the method returns its response |
| Users.SignUpRejectsBadInput | moshimoshi-server/src/models/users.ts:12-25 | a password outside 8..50 characters or a name over 100 characters fails with no insert |
| Users.SignUpDuplicateEmail | moshimoshi-server/src/models/users.ts:30-42 | an email already stored gives uniqueValidationError("email") with no insert |
| Users.SignUpInserts | moshimoshi-server/src/models/users.ts:44-53 | a successful sign-up appends exactly one user with a fresh id and email, the given name and the hashed password |
| Users.SignUpPreservesUsersValid | moshimoshi-server/src/models/users.ts:30-54 | sign-up keeps ids and emails unique and below the id sequence |
| Users.FindUser | moshimoshi-server/src/models/users.ts:135-141 | finds a stored user with that id; none exactly when no user has that id |
| Users.SignIn | moshimoshi-server/src/models/users.ts:70-133 | invalid input returns the schema issues; a success comes from a stored user with that email whose digest matches, with the token signed over (id, now + one day) and the user's id, email and reported name; every failure carries at least one issue |
| Users.SignInUnknownEmail | moshimoshi-server/src/models/users.ts:79-90 | valid input with an unknown email gives notFoundError("email") |
| Users.SignInOutcome | moshimoshi-server/src/models/users.ts:92-132 | for the user with that email, a failed compare gives the password issue; a match gives the token signed over (id, now + one day) and the user's id, email and name, with an empty name left out |
| Users.UniqueEmailRow | moshimoshi-server/src/models/users.ts:79-83 | with unique emails the email lookup can hit only one row |
| UserSettings.ParseTarget | moshimoshi-server/src/models/user-settings.ts:4-14 | accepts exactly the three enum strings and maps each to its target |
| UserSettings.ParseTargetRoundTrip | moshimoshi-server/src/models/user-settings.ts:4-8 | parsing a target's string value gives back the target |
| UserSettings.SetEnableWritesOneFlag | moshimoshi-server/src/models/user-settings.ts:31-38 | the target's column gets the value and updatedAt is set; every other column stays |
| UserSettings.UpdateEnableStep | moshimoshi-server/src/models/user-settings.ts:16-44 | succeeds exactly when the target is one of the enum values and enable is a boolean; a failure writes nothing; only the settings table is written and keeps its size; a returned row is a written row of that user |
| UserSettings.UpdateEnable | moshimoshi-server/src/models/user-settings.ts:16-44 | the database ends in the updateEnable step's tables and the method returns its response |
| UserSettings.UpdateEnableRejects | moshimoshi-server/src/models/user-settings.ts:10-29 | a target outside the enum or a non-boolean enable fails with no write |
| UserSettings.UpdateEnableWritesOneFlag | moshimoshi-server/src/models/user-settings.ts:31-43 | only the user's rows change, and only in the target flag and updatedAt; success returns one of the user's written rows, or none exactly when the user has none |
| UserSettings.UpdateEnableIdempotent | moshimoshi-server/src/models/user-settings.ts:31-41 | setting the same flag twice leaves what setting it once at the later time does |
| UserSettings.UpdateStep | moshimoshi-server/src/models/user-settings.ts:56-95 | succeeds exactly when every optional field passes the schema; a failure writes nothing; only the settings table is written and keeps its size; a returned row is a written row of that user |
| UserSettings.Update | moshimoshi-server/src/models/user-settings.ts:56-95 | the database ends in the update step's tables and the method returns its response |
| UserSettings.UpdateRejectsLongDeviceId | moshimoshi-server/src/models/user-settings.ts:46-77 | a device id over 255 characters fails with no write |
| UserSettings.UpdateIsPartial | moshimoshi-server/src/models/user-settings.ts:79-94 | on the user's rows each given field overwrites its column and a missing one leaves it alone; other rows stay; the update succeeds with no row when the user has none |
| UserSettings.UpdateRejectsNull | moshimoshi-server/src/models/user-settings.ts:46-77 | a null optional field fails validation with no write |
| UserSettings.Find | moshimoshi-server/src/models/user-settings.ts:97-103 | finds a stored settings row of that user; none exactly when the user has none |
| CurrentUserMiddleware.Decide | moshimoshi-server/src/middlewares/current-user-middleware.ts:15-34 | answers only 401 "Unauthorized" or 404 "User not found", 404 only for a present, unexpired payload; going on means a stored user with the payload's id |
| CurrentUserMiddleware.UnauthorizedFirst | moshimoshi-server/src/middlewares/current-user-middleware.ts:15-23 | a missing or expired payload gets 401 "Unauthorized" whatever the users table holds |
| CurrentUserMiddleware.ExpiryIsStrict | moshimoshi-server/src/middlewares/current-user-middleware.ts:20-23 | a token expiring exactly now is accepted and one millisecond later refused |
| CurrentUserMiddleware.UnknownUserNotFound | moshimoshi-server/src/middlewares/current-user-middleware.ts:26-30 | an unexpired payload naming no stored user gets 404 "User not found" |
| CurrentUserMiddleware.ContinueExactly | moshimoshi-server/src/middlewares/current-user-middleware.ts:15-34 | the request goes on exactly when the payload is present, unexpired and names a stored user, and that user becomes the current user |
| CurrentUserMiddleware.Handle | moshimoshi-server/src/middlewares/current-user-middleware.ts:14-35 | on an answer the response is set and next is not called; otherwise the current user is set and next is called |
| Lifecycle.ApplyPreservesInv | moshimoshi-server/src/models/meetings.ts:76-190 | one operation of any kind keeps the four invariants |
| Lifecycle.RunPreservesInv | moshimoshi-server/src/models/meetings.ts:76-190 | any sequence of create, attend, leave and producer updates with fresh create uuids keeps the four invariants |
| Lifecycle.ApplyEvolves | moshimoshi-server/src/models/meetings.ts:173-181 | one operation never removes a meeting nor clears its finishedAt |
| Lifecycle.RunEvolves | moshimoshi-server/src/models/meetings.ts:173-181 | along any sequence of operations, a meeting, once finished, stays finished and keeps its uuid, name and createdAt |
| Lifecycle.AttendIgnoresFinished | moshimoshi-server/src/models/meetings.ts:121-145 | a newcomer attending a finished meeting is admitted as "attended" |

## Left out

- Database access, transactions and the connection are not modelled as I/O. Each model call is one atomic step on in-memory tables. Concurrent requests and isolation levels are not modelled.
- `uuidv4()`, `new Date()`, `dayjs()` and the database's default timestamps are parameters: `newUuid`, `now` and `nowMs`.
- The valibot `uuid()` and `email()` format checks are the parameters `isUuid` and `isEmail`.
- bcrypt's salted hash and compare are the parameters `hash` and `matches`. The salt rounds are not modelled.
- The JWT signature and its secret are the parameter `sign`.
- The contents of valibot's issue objects are not modelled. A failing field is represented by `SchemaIssue(field)` only.
- String lengths count characters, whereas JavaScript counts UTF-16 code units, so the two differ for characters outside the Basic Multilingual Plane.
- Numbers in request bodies are unbounded reals and ids are unbounded integers. The `v.number()` checks on `userId` are not modelled because the ids are already typed as integers.
- Meetings.CreateCollisionFails: a uuid already in the meetings table returns no row. In PostgreSQL such an insert raises a key violation instead. Both outcomes leave the tables unchanged.
- Meetings.CreatePreservesInv: this needs the new uuid to be unused by participant rows, because attend can write rows for meetings that do not exist.
- Users.SignIn: `dayjs().add(1, "day")` is taken as exactly 86400 seconds. Daylight-saving shifts are not modelled.
- CurrentUserMiddleware.Decide: the payload is modelled as an integer `sub` and `exp`. A payload without `exp`, and `parseInt` on a non-numeric `sub`, are not modelled.
- CurrentUserMiddleware.Handle: `next()` is the flag `nextCalled`. What later handlers do is not modelled.
- The route handlers, the websocket and mediasoup signalling, the key-value store and the web client are not part of this model.
