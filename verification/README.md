# Incident reporting: replica cache and incident store

This project models the two stateful parts of a small incident-reporting system.

**The browser-side replica cache** (`src/utils/storageUtils.js`) keeps incidents, registered users and the current session in `localStorage`. Its functions are:
- insert-or-merge by id, partial update, delete, and lookups and filters over a snapshot;
- reconciliation with the backend list, plus import by merge or by replacement;
- a user directory with unique usernames, plaintext login and logout, and the two role gates;
- counting aggregations by type and by status.

**The server's authoritative in-memory store** (`server.js`) holds the `incidents` array and the id counter behind the REST routes:
- POST `/incident`;
- GET `/incidents`;
- GET `/incident/:id`;
- PATCH `/incident/:id`.

The Dafny modules are:

- `Wrappers`: the `Option` type.
- `Incidents`: the incident record, shared by both sides.
  - The field `type` is called `kind`, because `type` is a Dafny keyword.
  - An empty string stands for a missing or falsy text field.
  - Timestamps are integers; the ISO strings compare as instants.
  - The module also holds the shallow object merge `{...old, ...patch}` (`Override` over a `Patch` of optional fields), lookup by id, and the filters.
- `Ordering`: the newest-first stable sort used by both sides, and proof that it has exactly one possible result.
  - JavaScript's `Array.prototype.sort` is stable; the model is an insertion sort.
  - `NewestFirstIsUnique` shows that any stable newest-first arrangement equals it.
- `Reconcile`: the merged view built by `mergeIncidents`, with its content, order and idempotence lemmas.
- `Replica`: the class `LocalStore`, with one field per `localStorage` key.
  - An incident or user key is `Absent`, `Unreadable` (content that is not a JSON array) or `Items(...)`. This makes "does not write" observable.
  - The current session is an `Option`; `getCurrentUser` is the read of that field (`CurrentUser`), and `Login` and `Logout` state what it returns afterwards.
- `Statistics`: the counting loops of `getIncidentsByType` and `getIncidentsByStatusGrouped`, and the integer counts of `getStorageStats`.
- `Server`: the class `IncidentStore`, with fields `incidents`, `counter` and `events`.
  - `io.emit` is recorded as an append to `events`.
  - `Valid()` keeps ids unique, increasing and below the counter, and every broadcast refers to a stored incident.

Clock readings (`new Date()`) are method parameters.

Some behaviours of the source worth knowing when reading the model:

- GET `/incidents` returns a copy sorted newest first; `IncidentStore.List` models that sort.
- `saveIncident` on a known id merges the new object over the stored one. For complete records this equals replacement (`Incidents.Whole`).
- The server accepts any non-empty `type`; nothing checks it against a list of kinds.
- The client has two role gates: `canReportIncident` for citizens and `canUpdateIncident` for responders.

## Model

| member | source | states |
|---|---|---|
| Replica.LocalStore.Incidents | src/utils/storageUtils.js:58-79 | A read never invents an entry: everything it yields comes from a stored array; a missing or unreadable key yields nothing. |
| Replica.LocalStore.Users | src/utils/storageUtils.js:360-371 | A read never invents a user: everything it yields comes from a stored array. |
| Replica.DegradedStorage | src/utils/storageUtils.js:58-79 | With the incidents and users keys missing or unreadable: delete finds nothing and writes nothing, login with any credentials finds no user, and the first save and the first registration of any valid user each start a fresh one-element array holding exactly that record (also 130-146, 320-354, 360-407). |
| Incidents.Override | src/utils/storageUtils.js:108-111 | `{...x, ...p}` field by field: every field the patch carries wins, every field it does not carry keeps its stored value; an empty patch changes nothing. |
| Incidents.Whole | src/utils/storageUtils.js:39 | A complete record merged over any stored record yields exactly that record, so `saveIncident` on an existing id amounts to replacement. |
| Incidents.FindIndex | src/utils/storageUtils.js:35 | The result is -1 exactly when no entry carries the id; otherwise it is the first position holding the id. |
| Incidents.FindById | src/utils/storageUtils.js:153-161 | An incident is found exactly when the id is present, and it is the first entry carrying that id, even when the list holds duplicates. |
| Incidents.WithStatus | src/utils/storageUtils.js:168-176 | The filtered list is never longer than the input. |
| Incidents.WithStatusMembers | src/utils/storageUtils.js:171 | The filter holds every entry with that status exactly as often as the input does, and no other entry. |
| Incidents.WithStatusCounts | src/utils/storageUtils.js:219-221 | The filter's length is the number of positions holding an entry with that status. |
| Incidents.VerifiedOnly | src/utils/storageUtils.js:182-190 | The filtered list is never longer than the input. |
| Incidents.VerifiedMembers | src/utils/storageUtils.js:185 | The filter holds every verified entry exactly as often as the input does, and no other entry. |
| Incidents.VerifiedCounts | src/utils/storageUtils.js:218 | The filter's length is the number of positions holding a verified entry. |
| Incidents.WithoutIds | src/utils/storageUtils.js:133 | The filtered list is never longer than the input. |
| Incidents.WithoutIdsMembers | src/utils/storageUtils.js:250 | The filter keeps exactly the entries whose id is not in the set. |
| Incidents.WithoutIdsDropsSome | src/utils/storageUtils.js:133-135 | The filter keeps the length exactly when no entry carries one of the ids. This is the "not found" test of `deleteIncident`. |
| Replica.LocalStore.SaveIncident | src/utils/storageUtils.js:24-52 | A missing incident is refused without a write. A new id is appended at the end with all others unchanged. An existing id overwrites only its first position. Users and session are untouched. |
| Replica.LocalStore.UpdateIncident | src/utils/storageUtils.js:92-123 | Null exactly for a zero id, an `undefined` or non-object update (`None`) or an unknown id, and then no write. A `null` update passes the `typeof` guard and is `Some(EmptyPatch)`: the stored incident is rewritten unchanged and returned. Otherwise the first matching position becomes the override, and the returned incident is the stored one. |
| Replica.LocalStore.DeleteIncident | src/utils/storageUtils.js:130-146 | Returns true exactly when the id is present. Then the cache becomes the entries without that id, in their order. Otherwise nothing is written. |
| Replica.LocalStore.ClearAllIncidents | src/utils/storageUtils.js:196-204 | Removes the incidents key, so the cache reads empty; users and session are untouched. |
| Replica.LocalStore.MergeIncidents | src/utils/storageUtils.js:237-264 | A non-array argument returns the cache without writing. Otherwise it returns and stores exactly the merged view of the backend list and the cache. |
| Replica.LocalStore.ImportIncidents | src/utils/storageUtils.js:286-306 | Fails without writing on non-array data. With `merge` the cache becomes the merged view; without it the cache becomes exactly the imported list. |
| Replica.FindCredentials | src/utils/storageUtils.js:387 | Finds a user exactly when some user has both the username and the password; the result is the first such user. |
| Replica.LocalStore.SaveUser | src/utils/storageUtils.js:320-354 | Succeeds exactly for non-empty fields, a role among citizen and responder, and a fresh username. Then it appends exactly that user; otherwise nothing is written. It preserves unique usernames and a well-formed directory. |
| Replica.LocalStore.Login | src/utils/storageUtils.js:379-407 | Succeeds exactly for non-empty credentials matched by a stored user. The session then carries that username, the first match's role and the login instant. `getCurrentUser` then returns that session. On failure the session, and so `getCurrentUser`, is unchanged. With a well-formed directory, exactly one role gate holds afterwards. |
| Replica.LocalStore.Logout | src/utils/storageUtils.js:427-461 | Removes the session; afterwards `getCurrentUser` returns null, and `isLoggedIn`, `canReportIncident` and `canUpdateIncident` are all false. |
| Replica.CanReport | src/utils/storageUtils.js:441-444 | The citizen gate holds only with a session, and never for a responder. |
| Replica.CanUpdate | src/utils/storageUtils.js:441-453 | A responder session never also passes the citizen gate, and without a session neither gate holds. |
| Replica.LocalStore.IsLoggedIn | src/utils/storageUtils.js:459-461 | Logged in exactly when there is a current session; either role gate implies being logged in. |
| Replica.CompleteWorkflow | src/utils/storageUtils.test.js:146-205 | The workflow example: after two saves and resolving incident 1 the backup is exactly the two expected records. Clearing and replace-importing restores exactly the backup. |
| Ordering.Insert | src/utils/storageUtils.js:254 | One insertion step of the stable sort keeps the multiset of entries. |
| Ordering.InsertKeepsOrder | src/utils/storageUtils.js:254 | Inserting into a newest-first list keeps it newest first. |
| Ordering.SortNewestFirst | server.js:83-85 | The result is newest first and a permutation of the input. |
| Ordering.SortKeepsGroups | src/utils/storageUtils.js:254 | Sorting keeps the entries with one timestamp in their original relative order (stability). |
| Ordering.NewestFirstIsUnique | src/utils/storageUtils.js:254 | Two newest-first lists with the same per-timestamp groups are equal. |
| Ordering.SortIsCharacterized | src/utils/storageUtils.js:254 | Any stable newest-first arrangement of a list is the modelled sort. |
| Reconcile.MergeContents | src/utils/storageUtils.js:244-251 | The merge holds the backend entries plus the cached entries with unknown ids (as a multiset). Every backend entry is kept, and so is every cached entry whose id the backend lacks. An entry with a backend id is a backend copy. |
| Reconcile.MergeOrder | src/utils/storageUtils.js:248-254 | The merge is newest first. Among equal timestamps the backend entries come first, each side in its original order. |
| Reconcile.MergeIsIdempotent | src/utils/storageUtils.js:244-257 | Merging the same backend list again over the stored result changes nothing. |
| Reconcile.PrecedenceExample | src/utils/storageUtils.js:245-250 | On an id collision the backend copy replaces the cached one, and a cache-only incident is kept, newest first. |
| Statistics.KindKey | src/utils/storageUtils.js:478 | The grouping label is never empty, and is the type itself whenever the type is present. |
| Statistics.KindsListed | src/utils/storageUtils.js:477-480 | A type label is a dictionary key exactly when some entry is grouped under it. |
| Statistics.TallySeen | src/utils/storageUtils.js:478-479 | Counting one more entry of a label already present keeps the dictionary equal to the counts of the visited prefix. |
| Statistics.TallyNew | src/utils/storageUtils.js:478-479 | Counting the first entry of a label appends it to the key order with count 1, keeping counts and sum exact. |
| Statistics.TallyKinds | src/utils/storageUtils.js:475-480 | The dictionary's keys are the labels in first-occurrence order, each mapped to its exact count, and the counts sum to the number of entries. |
| Statistics.IncidentsByType | src/utils/storageUtils.js:472-491 | One group per label in first-occurrence order, each named by the capitalized label with a positive exact count; the counts sum to the number of incidents. |
| Statistics.StatusKey | src/utils/storageUtils.js:507 | The counted status is never empty, and is the status itself whenever the status is present. |
| Statistics.IncidentsByStatusGrouped | src/utils/storageUtils.js:497-522 | Exactly the three groups Open, In Progress and Resolved, in that order. Their counts treat a missing status as open and ignore unknown statuses. Their sum is at most the number of incidents. |
| Statistics.StatusFiltersDisjoint | src/utils/storageUtils.js:219-221 | Filters on three distinct statuses together select at most every entry once. |
| Statistics.StorageStats | src/utils/storageUtils.js:210-229 | The total is the number of incidents. The verified, open, in-progress and resolved counts are each the number of positions holding such an entry (strict equality, no default). So the verified count is at most the total, and the three status counts sum to at most the total. |
| Statistics.CountStatusIsPositions | src/utils/storageUtils.js:507-509 | For any status other than `open` and the empty one, the defaulted count equals the number of entries with exactly that status. |
| Statistics.CountOpenIsPositions | src/utils/storageUtils.js:507-509 | The Open count is the entries marked open plus the entries without a status. |
| Statistics.StatsAgreeWithGroups | src/utils/storageUtils.js:219-221 | The storage statistics and the status chart agree: the same In Progress and Resolved counts, and a chart Open group larger by exactly the entries without a status. |
| Server.IncidentStore.constructor | server.js:28-30 | The store starts empty with the counter at 1 and no broadcasts, and satisfies the store invariant. |
| Server.IncidentStore.GenerateId | server.js:32-35 | Returns the current counter and advances it by one, touching nothing else and keeping the store invariant. |
| Server.IncidentStore.Create | server.js:43-78 | A missing type, description or location gives 400 and changes nothing. Otherwise it appends one open, unverified incident under a fresh id and broadcasts it after the append. The store invariant (unique increasing ids below the counter) is kept. |
| Server.IncidentStore.List | server.js:81-93 | Returns the stable newest-first sort of the store: newest first, a permutation, equal timestamps in creation order. The store is not modified. |
| Server.IncidentStore.Get | server.js:96-111 | Returns the incident exactly when the id is stored, with that id; otherwise 404. |
| Server.AcceptedStatus | server.js:123 | A status is accepted exactly when one is supplied and it is one of open, in-progress and resolved. |
| Server.IncidentStore.Update | server.js:114-144 | An unknown id gives 404 with no change and no broadcast. Otherwise status changes only to a known value and `verified` only to a supplied boolean; every other field is kept. Exactly one update broadcast carries the result, and the invariant is kept. |
| Server.ReplaceKeepsInvariant | server.js:123-132 | Overwriting a stored incident in place with a complete record carrying the same id, then broadcasting it, keeps the store invariant. |
| Server.ReportThenVerify | server.js:43-144 | A report followed by a verification yields incident 1, still open and now verified, with one broadcast per mutation in commit order. |

## Left out

- The React components, the socket handlers, the fetch-with-fallback loader and the connection snapshot sent on `io.on('connection')` are UI and transport glue. The cache operations they call are modelled above.
- HTTP and socket plumbing (express routing, CORS, `server.listen`) is left out. `io.emit` is only an append to the event log.
- `src/config/apiConfig.js` and `vite.config.js` are URL strings and build configuration.
- JSON parsing and serialisation, and `exportIncidents`:
  - storage content is abstract;
  - content that does not parse, or is not an array, is `Unreadable`;
  - the import argument arrives already parsed, as an `Option`.
- A `setItem` that throws (for example on a full quota) and each function's `catch` path are not modelled. Writes always succeed. The server's 500 replies are left out for the same reason.
- Date handling: timestamps, `createdAt` and `loginTime` are integers passed in by the caller. `getIncidentsByDate` (date formatting) is not part of this model.
- Floating point and byte sizes: `storageSizeBytes`, `storageSizeKB`, `averagePerDay` and `getDetailedStats` are not part of this model.
- Console logging is left out.
- Replica.LocalStore.SaveIncident: stores complete records only. A partial object merged over an existing record is `UpdateIncident`'s case. A partial object appended under a new id cannot be expressed with the fixed record type.
- Replica.LocalStore.ImportIncidents: the `merge` flag is always passed explicitly. JavaScript's default `merge = true` for an omitted argument is not modelled.
- Replica.LocalStore.UpdateIncident: `undefined` or a non-object `updates` is `None`. `null` is not `None` here: `typeof null` is `'object'`, so it passes the guard and spreads to nothing, which is `Some(EmptyPatch)`. The object case is a `Patch`, and an array or other object is not distinguished.
- Server.IncidentStore.Get: the route's `parseInt` of the path segment is not modelled; the id arrives as an integer.
- Server.IncidentStore.Update: `parseInt` of the path segment is not modelled either. A `verified` that is not a boolean is `None`.
- Statistics.TallyKinds: `typeMap` is a plain object, so a label naming an inherited property behaves differently in the source. For `constructor`, `typeMap[type] || 0` is the inherited function and the count becomes a string. For `__proto__`, the assignment is swallowed by the prototype setter and the label is never counted. The model counts every label as an ordinary key. Integer-like labels are also not modelled: JavaScript lists them first, in numeric order, while the model keeps first-occurrence order.
- Statistics.IncidentsByType: inherits both `Statistics.TallyKinds` gaps. For `constructor` the group's count is not a number, and for `__proto__` no group appears, so in the source the counts need not sum to the number of incidents.
- Statistics.Capitalize: `toUpperCase` is modelled on ASCII letters only. In JavaScript other characters can change length (`'ß'` becomes `"SS"`); the model leaves every non-ASCII character as it is.
- Statistics.IncidentsByStatusGrouped: `status in statusMap` would also accept inherited property names such as `toString`. The model checks membership among the three keys only.
