# Counter store of the nightbot server, in Dafny

This project models `FileStorage`, the in-memory store behind the chat-bot
endpoints of the nightbot server. The store keeps two tables. One counts
"uninstall" requests per program. The other counts deaths per game boss. It
also models two small computations of the HTTP layer: the total of all death
counts, and the guard that refuses a blank program name.

Both tables are keyed by the normalised name, `name.toLowerCase().trim()`.
An entry keeps the trimmed spelling of the first name that created it.

The model has these modules:

- `Normalize` (normalize.dfy) is the key normalisation. It uses ASCII lower
  case and the JavaScript `trim` white-space set. Its lemmas say that case
  and surrounding spaces never change a key. They also say that
  re-normalising a stored, trimmed name gives back the key it is stored
  under.
- `Records` (records.dfy) holds the two record shapes, `UninstallRequest`
  and `Boss`, and the two errors the store throws.
- `CountSort` (count_sort.dfy) is the leaderboard order of
  `getAllUninstallRequests`: highest count first, and stable on ties.
- `Tables` (tables.dfy) is the loaded state `Data` and each store operation
  as a function from the old state to the new state and the returned value.
  Besides the two maps, `Data` keeps each table's key order, which is the
  order in which `Object.values` lists the entries. `Valid` is the invariant
  every operation keeps:
  - every entry is stored under the key of its own name;
  - its name is trimmed;
  - ids are unique;
  - a boss is beaten exactly when it has a final count.
- `Storage` (storage.dfy) is the class `FileStorage`. It has one mutable
  field `data`, and its methods change that field in place. Each method is
  proved to leave exactly the state, and return exactly the value, that the
  matching `Tables` function describes. A ghost log `writes` records every
  snapshot passed to `writeData`.
- `Routes` (routes.dfy) is the total-deaths sum with its behaviour under
  each boss operation, and the guard of `GET /api/uninstall`.
- `PropertyLookup` (findings.dfy) is the presence test of two operations
  as written (see Findings).

`freshId` stands for the value of `crypto.randomUUID()`. Operations that may
create an entry require it to differ from the ids already stored.

## Model

| member | source | states |
|---|---|---|
| Normalize.Key | server/routes.ts:58 | the key of a name is never longer than the name, and neither starts nor ends with white space |
| Normalize.ToLower | server/routes.ts:58 | `toLowerCase` keeps the length of the name, character for character |
| Normalize.ToLowerLowersLettersOnly | server/routes.ts:58 | `toLowerCase` turns each upper-case letter A-Z into its own lower-case letter, so none is left, and changes no other character |
| Normalize.Trim | server/routes.ts:67 | `trim` never lengthens its input, and its result neither starts nor ends with white space |
| Normalize.TrimStartDrops | server/routes.ts:67 | trimming the front removes a run of white space and keeps the rest of the string as it is |
| Normalize.TrimEndDrops | server/routes.ts:67 | trimming the back removes a run of white space and keeps the rest of the string as it is |
| Normalize.KeyIgnoresPadding | server/routes.ts:58 | surrounding white space never changes the key a name is counted under |
| Normalize.KeyIgnoresCase | server/routes.ts:58 | names that differ only in letter case share one key |
| Normalize.KeyIsLoweredTrim | server/routes.ts:58 | lower-casing before or after trimming gives the same key, of the trimmed length |
| Normalize.KeyOfTrimmed | server/routes.ts:143 | re-normalising the stored trimmed name gives the key it is stored under, so the write-back in `incrementDeaths`, `setDeaths` and `markBeaten` lands on the same entry |
| Normalize.TrimIdempotent | server/routes.ts:67 | trimming a stored display name again changes nothing |
| Normalize.TrimIsInnerSlice | server/routes.ts:67 | `trim` returns a slice of its input that neither starts nor ends with white space |
| Normalize.TrimEmptyIffAllSpace | server/routes.ts:188 | `trim` yields "" exactly when the input is all white space |
| Normalize.KeyEmptyIffBlank | server/routes.ts:188 | the key is empty exactly when the name is blank |
| CountSort.Insert | server/routes.ts:79 | inserting into a count-descending list keeps it count-descending and adds exactly the one entry |
| CountSort.SortByCount | server/routes.ts:79 | the comparator sort returns a permutation of its input with counts non-increasing |
| CountSort.SortIsStable | server/routes.ts:79 | entries of equal count keep their input order (stable sort) |
| CountSort.InsertKeepsEqualCountOrder | server/routes.ts:79 | one insertion step keeps the relative order of entries of each count |
| Tables.AssignKeepsPlaces | server/routes.ts:63-70 | `obj[k] = v` keeps every key already there in its place, adds at most `k`, at the end, and keeps the keys distinct |
| Tables.WithoutRemovesOnlyKey | server/routes.ts:97 | `delete obj[k]` removes exactly `k` from the key order and keeps the keys distinct |
| Tables.WithoutKeepsOrder | server/routes.ts:97 | `delete obj[k]` takes `k` out of its place and keeps every other key in its relative order |
| Tables.ListedKeysCount | server/routes.ts:79 | `Object.values` gives one value per key: the key order is exactly as long as the table |
| Tables.Empty | server/routes.ts:33-40 | the state when no data file exists: both tables empty, and the invariant holds |
| Tables.GetUninstallRequest | server/routes.ts:82-85 | an entry is found exactly when the normalised name is stored, and it is the stored entry; a found entry has the caller's key; none is returned only when no entry has it |
| Tables.PutRequestValid | server/routes.ts:60-71 | writing an entry under its own key, with its old id or a fresh one, keeps the invariant |
| Tables.IncrementUninstall | server/routes.ts:56-75 | `incrementUninstallCount` keeps the invariant |
| Tables.IncrementUninstallCounts | server/routes.ts:56-75 | an existing entry gets count + 1 and keeps its id, spelling and place; a new one gets count 1, the trimmed spelling and the fresh id, placed last; the returned entry is the stored one |
| Tables.IncrementUninstallKeepsOthers | server/routes.ts:56-75 | no entry of another key and no boss changes |
| Tables.IncrementEachAddsOnePerName | server/routes.ts:61-63 | each further request under a stored key adds one to its count and keeps its id and spelling |
| Tables.SameKeyRequestsShareOneEntry | server/routes.ts:56-75 | requests for names equal up to case and padding create one entry with the first spelling and count once each |
| Tables.Leaderboard | server/routes.ts:77-80 | the leaderboard is count-descending and a permutation of the stored entries |
| Tables.LeaderboardListsEachEntry | server/routes.ts:77-80 | it has exactly as many items as there are entries, and holds each stored entry and nothing else |
| Tables.ResetRequests | server/routes.ts:87-91 | afterwards no name has an entry and the leaderboard is empty, while the bosses stay as they were |
| Tables.DeleteRequest | server/routes.ts:93-102 | returns true exactly when the normalised name had an entry; on false the state is unchanged |
| Tables.DeleteRequestRemovesOnlyName | server/routes.ts:93-102 | after a delete the name has no entry, its key is taken out of the key order with every other key kept in its relative order, and every other entry and every boss is unchanged |
| Tables.DeleteUndoesFirstIncrement | server/routes.ts:93-102 | deleting a name right after its first request restores the earlier state and returns true |
| Tables.GetBoss | server/routes.ts:105-108 | a boss is found exactly when the normalised name is stored, and it is the stored boss; a found boss has the caller's key; none is returned only when no boss has it |
| Tables.FirstUnbeaten | server/routes.ts:112 | `find(b => !b.isBeaten)` stops at the first unbeaten boss, with every earlier one beaten; it finds none only if all are beaten |
| Tables.ActiveBoss | server/routes.ts:110-113 | the active boss is unbeaten and stored under the key of its own name |
| Tables.ActiveBossIsFirstUnbeaten | server/routes.ts:110-113 | there is no active boss exactly when every boss is beaten; otherwise it is the first unbeaten one in key order |
| Tables.PutBossValid | server/routes.ts:143 | writing a boss under its own key, with its old id or a fresh one, keeps the invariant |
| Tables.UpsertBoss | server/routes.ts:115-129 | the returned boss is the one stored under the name's key, and the invariant holds |
| Tables.UpsertBossFinds | server/routes.ts:115-129 | an existing boss is returned unchanged with no state change; a missing one is created unbeaten with 0 deaths, no final count, the trimmed name and the fresh id, placed last |
| Tables.UpsertBossKeepsOthers | server/routes.ts:115-129 | an upsert changes no boss of another key and no uninstall entry |
| Tables.UpsertIsIdempotent | server/routes.ts:115-129 | a second upsert under the same key returns the same boss and changes nothing |
| Tables.DeathTarget | server/routes.ts:133-140 | with a truthy name the target is the upserted boss, otherwise the active boss; there is none exactly when there is no name and no active boss |
| Tables.AddDeath | server/routes.ts:142-143 | the death count goes up by one and the boss is written back under the key of its name |
| Tables.AddDeathValid | server/routes.ts:142-143 | for a boss stored under its own key, only the death count changes, the key order stays, and the invariant holds |
| Tables.IncrementDeaths | server/routes.ts:131-146 | fails with NoActiveBoss exactly when no truthy name is given and there is no active boss; otherwise the invariant holds |
| Tables.IncrementDeathsCounts | server/routes.ts:131-146 | a named boss, created first when missing and counted even when beaten, gets one more death; without a name the active boss does; the beaten flag and final count stay |
| Tables.IncrementDeathsKeepsOthers | server/routes.ts:131-146 | no other boss and no uninstall entry changes |
| Tables.SetDeaths | server/routes.ts:148-155 | the named boss ends with exactly the given count, negative counts included |
| Tables.SetDeathsSets | server/routes.ts:148-155 | only the death count changes on an existing boss; a missing one is created first and placed last |
| Tables.SetDeathsKeepsOthers | server/routes.ts:148-155 | no other boss and no uninstall entry changes |
| Tables.BeatenTarget | server/routes.ts:159-164 | with a truthy name the target is that stored boss only (none is created), otherwise the active boss |
| Tables.MarkBeaten | server/routes.ts:157-173 | fails with BossNotFound exactly when the named boss or the active boss is missing; otherwise the invariant holds |
| Tables.MarkBeatenFreezes | server/routes.ts:157-173 | the target is stored beaten with final count equal to its death count; the set and order of bosses stay |
| Tables.MarkBeatenKeepsOthers | server/routes.ts:157-173 | no other boss and no uninstall entry changes |
| Tables.MarkedBossIsNotActive | server/routes.ts:157-173 | after `markBeaten` succeeds, `getActiveBoss` no longer returns that boss |
| Tables.DeathsAfterBeatenKeepFinal | server/routes.ts:131-146 | counting a death on a beaten boss by name succeeds, adds one, and keeps it beaten with its final count |
| Tables.MarkBeatenAgainRefreezes | server/routes.ts:157-173 | a repeated `markBeaten` after a new count re-freezes the final count to that count |
| Storage.FileStorage.constructor | server/routes.ts:47-53 | the store after loading with no data file: empty, valid, nothing written |
| Storage.FileStorage.IncrementUninstallCount | server/routes.ts:56-75 | updates `data` in place to exactly `Tables.IncrementUninstall` and returns its entry; writes once; keeps the invariant |
| Storage.FileStorage.GetAllUninstallRequests | server/routes.ts:77-80 | exactly `Tables.Leaderboard` of the data: the stored entries, count-descending, as a permutation, stable on ties |
| Storage.FileStorage.GetUninstallRequest | server/routes.ts:82-85 | the entry under the normalised name, present exactly when the key is stored |
| Storage.FileStorage.ResetAllRequests | server/routes.ts:87-91 | the state becomes `Tables.ResetRequests` of the old one; writes once |
| Storage.FileStorage.DeleteRequest | server/routes.ts:93-102 | the state and result are `Tables.DeleteRequest`; it writes only when something was deleted |
| Storage.FileStorage.GetBoss | server/routes.ts:105-108 | the boss under the normalised name, present exactly when the key is stored |
| Storage.FileStorage.GetActiveBoss | server/routes.ts:110-113 | exactly `Tables.ActiveBoss` of the data, the first unbeaten boss in key order; none exactly when every boss is beaten; otherwise an unbeaten boss stored under its own key |
| Storage.FileStorage.UpsertBoss | server/routes.ts:115-129 | the state and result are `Tables.UpsertBoss`; it writes only when it created a boss |
| Storage.FileStorage.FindDeathTarget | server/routes.ts:133-140 | the state and boss are `Tables.DeathTarget`, with the upsert's write when a named boss is new |
| Storage.FileStorage.AddDeath | server/routes.ts:142-144 | the state and boss are `Tables.AddDeath`; writes once |
| Storage.FileStorage.IncrementDeaths | server/routes.ts:131-146 | the state and result are `Tables.IncrementDeaths`; on failure nothing changes and nothing is written; on success the writes are the upsert's (when new) and then one more |
| Storage.FileStorage.SetDeaths | server/routes.ts:148-155 | the state and result are `Tables.SetDeaths`; writes are the upsert's (when new) and then one more |
| Storage.FileStorage.MarkBeaten | server/routes.ts:157-173 | the state and result are `Tables.MarkBeaten`; on failure nothing changes and nothing is written |
| Storage.FileStorage.GetAllBosses | server/routes.ts:175-178 | every stored boss once, in key order |
| Routes.TotalDeaths | server/routes.ts:255 | when no death count is negative, the total is non-negative and at least the count of every boss |
| Routes.TotalOfPointChange | server/routes.ts:255 | changing one boss in the list moves the sum by the difference of its death counts |
| Routes.TotalAfterPut | server/routes.ts:255 | writing a boss under a key moves the total by the new count minus the old one (0 if new) |
| Routes.TotalAfterIncrementDeaths | server/routes.ts:255 | every successful `incrementDeaths` adds exactly one to the total |
| Routes.TotalAfterAddDeath | server/routes.ts:255 | one more death for a stored boss adds one to the total |
| Routes.TotalAfterDeathTarget | server/routes.ts:255 | finding or creating the target leaves the total unchanged |
| Routes.TotalAfterSetDeaths | server/routes.ts:255 | `setDeaths` moves the total by the new count minus the old one (0 for a new boss) |
| Routes.TotalAfterMarkBeaten | server/routes.ts:255 | `markBeaten` leaves the total unchanged |
| Routes.AcceptsProgram | server/routes.ts:188 | the guard accepts exactly a present, non-blank name, and an accepted name has a non-empty key |
| Routes.AcceptedProgramHasDisplayName | server/routes.ts:188-191 | a request that passes the guard is counted under an entry with a non-empty display name |
| PropertyLookup.DeleteRequestAsWritten | server/routes.ts:96-101 | as written, `deleteRequest` returns true for an own entry or an inherited property name, and changes nothing when there is no own entry |
| PropertyLookup.DeleteReportsMissingRequest | server/routes.ts:96-101 | on an empty store, deleting "Constructor" as written reports success although no entry existed; the corrected delete reports false |
| PropertyLookup.UpsertBossAsWritten | server/routes.ts:118-128 | as written, `upsertBoss` returns no boss and changes nothing exactly when the key is an inherited property name with no own entry |
| PropertyLookup.UpsertCreatesNoBossForInheritedName | server/routes.ts:118-128 | on an empty store, upserting "Constructor" as written creates no boss; the corrected upsert creates and stores it |

## Left out

- File persistence and the lazy load (`readData`, `writeData`, `ensureLoaded`) are file I/O. The state is taken as already loaded. `writeData` is the ghost log `writes`: a list of the snapshots written, with no file format and no I/O failure.
- The JSON round trip of the data file is not modelled. `Tables.Empty` is the fallback `readData` uses when the file is missing or unreadable.
- `crypto.randomUUID()` is a foreign call. Its result is the parameter `freshId`, and its uniqueness is a precondition.
- async/await and the interleaving of concurrent requests are not modelled. Each operation runs atomically.
- Express routing, HTTP status codes and the reply texts are left out. The exceptions are the sum at server/routes.ts:255 and the guard at :188. `Routes.AcceptsProgram` leaves out the `typeof` test, because the model's input is already a string or absent.
- `parseInt` on the count of `/api/setdeaths` is a library parser. `setDeaths` takes the count as an integer.
- `toLowerCase` is modelled as ASCII lower case. Full Unicode case mapping, including mappings that change the length, is left out.
- Key order is insertion order. JavaScript lists integer-like keys first, in numeric order (section 10.1.11.1 of ECMA-262). `getActiveBoss`, `getAllBosses` and ties on the leaderboard can differ from the model when a normalised name is a canonical array index such as "7".
- Records are values. In the code, `incrementUninstallCount` (`existing.count++`), `incrementDeaths`, `setDeaths` and `markBeaten` mutate the very record object held by the table. The model writes the updated record back under the same key, which `Normalize.KeyOfTrimmed` proves is the key it came from. So the state is the same, but object identity and aliasing are not represented.
- Counts are unbounded integers. JavaScript numbers lose precision above 2^53, and that is not modelled.
- `markBeaten` returns the one error `BossNotFound` both for an unknown name and for a missing active boss. The code throws a single "Boss not found" error on both paths. A design that separates `NotFound` from `NoActiveBoss` is not followed.
- Neither the store nor the model rejects an empty program name. Only the route guard does (`Routes.AcceptsProgram`).
- The store has no per-channel scoping, and neither has the model.
- `Storage.FileStorage.FindDeathTarget` and `Storage.FileStorage.AddDeath` split `incrementDeaths` into two steps. This is a modelling choice; the code does the same work in one method.
- Every operation except `PropertyLookup` uses own-key presence (`k in m`), and so does not reproduce the inherited-property behaviour described under Findings. Only `deleteRequest` and `upsertBoss` model it as written. The other operations read the tables the same way, and the model does not reproduce what that does for an inherited name: `getBoss("Constructor")` and `getUninstallRequest("Constructor")` return the `Object` function; `incrementUninstallCount("__proto__")` sets `Object.prototype.count` to NaN, stores no entry and returns `Object.prototype`; `markBeaten("Constructor")` on an empty store does not throw "Boss not found", but marks the `Object` function beaten and stores it under the own key "object" (its `name` is "Object"); `incrementDeaths("Constructor")` and `setDeaths("Constructor", n)` likewise store the `Object` function under "object", with a NaN or the given death count.

## Findings

| source | as written | input that shows it | evidently intended | confidence | as-written member | corrected member |
|---|---|---|---|---|---|---|
| server/routes.ts:96 | `if (table[key])` reads the property of a plain object, so an inherited `Object.prototype` property such as `constructor` or `__proto__` reads as present | `deleteRequest("Constructor")` on an empty store returns true and writes the data, although nothing was deleted | return true only when an entry is stored under the key | high (not executed) | PropertyLookup.DeleteReportsMissingRequest | Tables.DeleteRequest |
| server/routes.ts:118 | `if (!table[key])` finds the inherited `Object` constructor for the key "constructor", so no boss is created, and the function value is returned as the boss | `upsertBoss("Constructor")` on an empty store creates no "constructor" boss and returns the `Object` function; `incrementDeaths("Constructor")` then sets `Object.deathCount` to NaN and stores the `Object` function under the own key "object", where `getActiveBoss` finds it until the process restarts (the entry is a function, which the JSON written at server/routes.ts:43 leaves out) | create the missing boss and return it | high (not executed) | PropertyLookup.UpsertCreatesNoBossForInheritedName | Tables.UpsertBoss |
