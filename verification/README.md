# Back office, verified

A Dafny model of the database layer of a NestJS and PostgreSQL back office, with proofs of what it promises. One module models one component:

- **UnitOfWork**: the FIFO queue of memory transactions, each around one PostgreSQL transaction, and the DDL chain, as a step system over all interleavings and failures.
- **SingleFlight**: the initialization of the data source that concurrent callers share.
- **InMemoryDatabase** (with **Rows**): the read model with its id index, lazy secondary indexes, snapshot and rollback, as a class over shared row objects.
- **Tables**: tables and their mirrors as values, what each write and each read does to them, and when the two stay in agreement.
- **CollectionStore**: the write-through store over a table and its in-memory mirror, as a class over both, proved against Tables.
- **MirroredRuns**: runs of units of work whose bodies write through the store.
- **CompareAndSwap**: runs of `updateIf` on one row.
- **LockOrder** and **Deadlock**: the advisory locks of a unit of work, and any number of instances contending for them.
- **Migrations**: three crash-resumable migration runners with session locks, short transactions, readback and ledger.
- **RefreshChain**: the recursive cycle query over refresh tokens, and the links that keep it empty.
- **RefreshTokens**: rotation, reuse, login and revocation as concurrent transactions with row locks, under READ COMMITTED.
- **CivilTime** (with **Decimal**): dates, weekdays and clock times as strings, over the Date of section 21.4.1 of ECMA-262.
- **AnalyticsWindow**: the SQL prefilter of the counsel analytics against loading everything.
- **KeyRotation**: re-encryption of a column under a new key, with AES-GCM as in section 7 of NIST SP 800-38D.
- **IntegrityReport**, **SqlPreflight**, **DbmlSettings**, **ColumnNames**: checkers and parsers that must be exact.
- **AccountVersions**: the reset to one super_admin, and tokens that go stale by version.

Clocks, random bytes, id sequences, query answers and the outcome of every fallible step are parameters or events, and theorems hold for all of them. "Run" means any finite list of events from the initial state; an event that is not enabled does nothing.

Where the code does less than its documentation says, the model follows the code and the exact condition is proved:

- The refresh-token migration reads the catalog back through the pool while its runner holds the only connection the pool allows (`max: 1`), so it cannot reach its ledger row (`Migrations.PoolOfOneNeverFinishes`, `Migrations.RerunConverges`). The other two runners read back on their own connection, but take the table of the ledger for granted (`Migrations.OnlyRefreshTokensMakeTheLedger`).
- An index build of the payout migration that was interrupted stays invalid, and no rerun repairs it (`Migrations.OneCrashIsEnough`). The refresh-token runner compares the definitions of its constraints only after it has written its ledger row (`Migrations.RerunConverges`).
- Presenting a revoked refresh token does not invalidate all tokens of the user: one that a concurrent call has inserted and not committed when the listing runs survives, a successor in the same chain included, and so does the successor of one that is rotated between the listing and the updates. Only where there is nothing to revoke is nothing left (`RefreshTokens.ReuseIsCompleteIff`, `RefreshTokens.RotationSlipsThrough`, `RefreshTokens.LateRotationSurvives`).
- The reset to one super_admin creates no account in a table without a live one, because its INSERT gives no English name, and fails on a super_admin under another name while a deleted account is named admin (`AccountVersions.ResetSucceedsIff`).
- The key rotation skips deleted users, who can be restored: a number of theirs that the previous key alone opens is lost with that key (`KeyRotation.RotationKeepsPlaintext`, `KeyRotation.PreviousKeyCanGoIff`). A number destroyed while the script runs may come back (`KeyRotation.WriteIsKeptIff`, `KeyRotation.DestroyedNumberReturns`).
- The conflict branch of `upsertActive` leaves the mirror stale whenever it changes a field (`Tables.WriteKeepsIff`, `Tables.StaleUpsertExample`).
- A null filter means "is null" in memory and nothing in SQL (`Tables.ReadPathsAgree`, `Tables.NullFilterExample`).
- Deleting a lesson of a series locks class 9 and then class 4 in a second call, against the order that keeps single calls free of deadlock (`Deadlock.SeriesThenSessionsIsUnsafe`).
- The payout preflight does not ask for the reason of an adjustment that the constraint demands (`SqlPreflight.PayoutPreflightIsExact`, `SqlPreflight.ReasonSlipsThrough`).
- A caller of `ensureInitialized` that comes between the driver's start and the readback of the runtime role returns before the verdict (`SingleFlight.ReturnsUnverifiedIff`).
- Clock strings of negative minutes off the hour, and dates before the year 1000, do not read back (`CivilTime.MinutesThereAndBack`, `CivilTime.AddDaysValidIff`).
- A period that begins or ends with a date string that names no day, such as 2026-02-31, is accepted; the SQL window then covers it only if the runtime reads it early, or late, enough, and may lose forms (`AnalyticsWindow.PushdownPreservesIff`, `AnalyticsWindow.FebruaryThirtyFirst`).
- The duplicate report takes two different tuples of two or more columns for one when a separator inside a value can stand for a cut (`IntegrityReport.SharesJoinIff`); it is exact if and only if no two tuples of the table do so (`IntegrityReport.DuplicatesAreExact`).
- Two `updateIf` calls that expect `updatedAt` alone can both win (`CompareAndSwap.NextRivalWinsIff`).

`dafny verify dfyconfig.toml` checks the whole project.

## Model

| member | source | states |
|---|---|---|
| UnitOfWork.OneAtATimeInCallOrder | src/database/in-memory.database.ts:127-149 | from each task hanging on its predecessor alone: in every run, once a later call has begun every earlier one has settled, so that one outermost transaction runs at a time, started in call order |
| UnitOfWork.Serializable | src/database/in-memory.database.ts:130-149 | whatever the interleaving and the failures, when nobody runs both stores hold exactly what the resolved calls make of them one after the other in call order, and every resolved call is one that runs through alone at its turn |
| UnitOfWork.OwnOutcome | src/database/in-memory.database.ts:130-149 | each caller gets the outcome of its own call, both ways: it resolves if and only if no event of the run struck it (no connection, a fault, a failed commit) and its body runs through alone from what the resolved calls before it left |
| UnitOfWork.RejectedChangesNothing | src/database/calendar-unit-of-work.service.ts:71-73 | whichever step throws (connecting, the body, a query, the commit), memory and database are back to what they held when the call began |
| UnitOfWork.NeverStuck | src/database/in-memory.database.ts:147-148 | as long as a call is unsettled, it or a call before it can take a step: a failed call never holds up the next |
| UnitOfWork.MirrorSurvives | src/database/calendar-unit-of-work.service.ts:71-73 | if every body, run alone, throws or leaves the stores in agreement, a swallowed SQL error counting as a database left as it was, they agree in every quiet state of every run, and so does what a running call would fall back to |
| UnitOfWork.MirrorSurvivesIff | src/database/calendar-unit-of-work.service.ts:71-73 | which bodies are safe: all runs of units of work with a body, from all stores that agree, come to rest on stores that agree if and only if the body, run alone, throws or leaves them in agreement, where a swallowed SQL error counts as a database left as it was and every statement after it, reads included, throws |
| UnitOfWork.SwallowedErrorSplitsTheStores | src/database/in-memory.database.ts:126 | one that is not: a run of one body that swallows an SQL error ends resolved with its memory write kept and its database write gone |
| UnitOfWork.DdlChain | src/database/postgres-connection.service.ts:236-254 | in every run of the DDL chain, whatever faults hit it: a settled task resolved if and only if no fault hit it and its statement ran, or failed with one of the three "already exists" codes, on the schema of its turn; and once all have settled the schema is the statements folded in call order |
| Tables.WriteKeepsIff | src/database/postgres-collection.store.ts:200-371 | each write of the store, on the effects its methods are proved to have on table and collection, keeps the collection a mirror if and only if the collection learns of it: an insert does unless the spec skips memory, an upsert does unless it changes a field of the row it conflicts with, every other write does |
| MirroredRuns.StoreWritesKeepTheMirror | src/database/calendar-unit-of-work.service.ts:71-73 | units of work over any number of tables whose bodies only read and write through the store, upserts that change no met row included, in any number and interleaving and with any failures, leave every collection a mirror of its table in every quiet state of every run, and what a running one would fall back to is a mirror too |
| MirroredRuns.OneWriteSurvivesIff | src/database/calendar-unit-of-work.service.ts:71-73 | runs of units of work of one write always come to rest on mirrors if and only if the collection learns of that write whatever the tables hold |
| UnitOfWork.Invariant | src/database/in-memory.database.ts:130-149 | the invariant of the two nested transactions that all theorems about runs rest on |
| SingleFlight.OneFlightOneOutcome | src/database/postgres-connection.service.ts:103-110 | in every run no caller waits without a flight or on any flight but the present one, and callers of one flight are told the same |
| SingleFlight.OneDataSourceAtATime | src/database/postgres-connection.service.ts:103-160 | over every run, however many calls there are: as many data sources were opened as were torn down by failed flights and shutdowns, and one more exactly while one is opening, up or closing |
| SingleFlight.QuietIsVerified | src/database/postgres-connection.service.ts:133-160 | between flights the data source is up exactly when its role was read back |
| SingleFlight.ReturnsUnverifiedIff | src/database/postgres-connection.service.ts:103-104 | a call returns at once on an unverified data source if and only if it is made after the driver came up and before its flight settled |
| SingleFlight.EarlyReturnMissesTheVerdict | src/database/postgres-connection.service.ts:103-158 | such a call can return well on a data source whose flight then fails |
| InMemory.InMemoryDatabase.FindByField | src/database/in-memory.database.ts:223-227 | for a field other than the audit stamps the answer holds nothing a full scan of active rows would not, and for a defined value it is the scan, without duplicates |
| InMemory.InMemoryDatabase.EnsureFieldIndex | src/database/in-memory.database.ts:102-116 | building an index late leaves the database valid and every row as it was |
| InMemory.InMemoryDatabase.FindById | src/database/in-memory.database.ts:204-212 | the answer is a row of the collection with that id, hidden when deleted unless asked for; no answer means no such row, index or not; afterwards the index has an entry for the id if there is such a row, and its other entries are as they were |
| InMemory.InMemoryDatabase.FindAll | src/database/in-memory.database.ts:158-161 | the rows in collection order, deleted ones only when asked for |
| InMemory.InMemoryDatabase.Insert | src/database/in-memory.database.ts:229-240 | the row is appended under an id one above the sequence and above every id in the collection; all indexes stay right and no other collection moves |
| InMemory.InMemoryDatabase.IndexAdd | src/database/in-memory.database.ts:54-64 | a pushed row is entered so that ids and every registered index agree with the longer collection |
| InMemory.InMemoryDatabase.ReindexForPatch | src/database/in-memory.database.ts:67-78 | the buckets of the patched fields are those of the row as it is about to be, the others untouched |
| InMemory.InMemoryDatabase.Update | src/database/in-memory.database.ts:242-252 | exactly the active row with that id takes the patch and a new stamp, and every index agrees with it again |
| InMemory.InMemoryDatabase.Remove | src/database/in-memory.database.ts:259-268 | exactly the active row with that id is marked deleted by the actor; it stays in its buckets |
| InMemory.InMemoryDatabase.Restore | src/database/in-memory.database.ts:271-276 | exactly the deleted row with that id is active again |
| InMemory.InMemoryDatabase.SeedExact | src/database/in-memory.database.ts:180-192 | rows come in with their own ids and stamps, every id already there is skipped, and the sequence never falls below an id |
| InMemory.InMemoryDatabase.ReplaceExact | src/database/in-memory.database.ts:195-201 | the collection is the given rows in order, the sequence their largest id, and the registered indexes are rebuilt over them |
| InMemory.InMemoryDatabase.RebuildCollectionIndexes | src/database/in-memory.database.ts:81-88 | every row of the collection can be found by its id, the fields registered before are indexed again, and all of it agrees with the rows |
| InMemory.InMemoryDatabase.RebuildIndexes | src/database/in-memory.database.ts:91-100 | after a change of all row objects every row of every collection can be found by its id, exactly the fields that were indexed before are indexed again, for the collections that are there, and all indexes agree with the rows |
| InMemory.InMemoryDatabase.TakeSnapshot | src/database/in-memory.database.ts:135-136 | the snapshot holds the contents of every collection and the sequences, detached from the row objects |
| InMemory.InMemoryDatabase.Rollback | src/database/in-memory.database.ts:139-143 | contents, order and sequences are those of the snapshot, in fresh objects shared with nobody; every row can be found by its id and the registered fields of the collections that are back are indexed again |
| CollectionStore.PostgresCollectionStore.EnsureReady | src/database/postgres-collection.store.ts:60-86 | a missing table is refused, never cached, where runtime DDL is off, and created empty where it is on |
| CollectionStore.PostgresCollectionStore.Hydrate | src/database/postgres-collection.store.ts:97-114 | the collection becomes the table row by row in id order and mirrors it; a missing table leaves everything as it was |
| Tables.HydratedMirrors | src/database/postgres-collection.store.ts:110-112 | the rows of a hydrating SELECT mirror the table they were read from |
| CollectionStore.PostgresCollectionStore.Insert | src/database/postgres-collection.store.ts:200-210 | it fails exactly when the table is missing, the payload is empty or names an unknown column, or the database refuses the statement, and then changes neither store; otherwise table, sequence and collection are exactly those after the insert, the answer is the row as stored, columns without a value at their defaults, and the mirror is kept, but for specs that skip memory |
| CollectionStore.PostgresCollectionStore.Update | src/database/postgres-collection.store.ts:255-272 | it fails exactly when the table is missing or the statement of a non-empty patch is refused; otherwise table and collection are exactly those after the patch of the active row, undefined values dropped; the answer is that row, or nothing when none was hit; without a database the collection alone takes the patch |
| CollectionStore.PostgresCollectionStore.UpdateIf | src/database/postgres-collection.store.ts:330-371 | the write happens exactly when the active row meets every defined expectation in the table; table and collection are exactly those after it, the answer tells which, a refused statement changes neither, without a database strict equality on the collection decides, and an empty patch sends no statement and answers with the row of the collection, whatever was expected |
| CollectionStore.PostgresCollectionStore.Remove | src/database/postgres-collection.store.ts:274-283 | the active row is marked deleted in both stores or in neither, whose contents are stated exactly; a refused statement changes neither |
| CollectionStore.PostgresCollectionStore.Restore | src/database/postgres-collection.store.ts:285-313 | the deleted row is active again and takes the patch in both stores or in neither, whose contents are stated exactly; a statement the database refuses, as for a unique index, changes neither |
| CollectionStore.PostgresCollectionStore.RemoveByField | src/database/postgres-collection.store.ts:315-328 | all active rows with the value, of a business or base field, and no others are marked deleted in both stores, and their number is returned; a refused statement changes neither |
| CollectionStore.PostgresCollectionStore.UpsertActive | src/database/postgres-collection.store.ts:216-253 | when it fails; otherwise the exact new table, sequence and collection and the row returned; and the mirror survives if and only if, before the call, no active row conflicts or the one that does already holds every value it would be given; without a database the first agreeing row takes the data or a row is appended |
| Tables.StaleAfterUpsert | src/database/postgres-collection.store.ts:249-252 | seeding a known id leaves the collection as it was, so the conflict branch keeps the mirror exactly when no field changed |
| Tables.StaleUpsertExample | src/database/postgres-collection.store.ts:238-252 | a concrete one: a second mark of a menu changes the table and leaves the collection with the first |
| CollectionStore.PostgresCollectionStore.FindActive | src/database/postgres-collection.store.ts:116-146 | the SQL path answers with the active table rows that meet the filter, the memory path with the active rows of the collection that do |
| CollectionStore.PostgresCollectionStore.FindByFieldValues | src/database/postgres-collection.store.ts:161-185 | both paths answer with the rows that hold one of the requested values, nulls left out; an unknown column is refused only where SQL is asked |
| Tables.MirrorsChange | src/database/postgres-collection.store.ts:255-313 | a change applied to table and collection with two clocks keeps the mirror |
| Tables.ReadPathsAgree | src/database/postgres-collection.store.ts:116-146 | for a filter on the id and on columns, the two paths of `findActive` find the same rows over every mirrored table if and only if no filter is null, or the id is asked to be something no id is |
| Tables.NullFilterExample | src/database/postgres-collection.store.ts:120-137 | a mirrored table of one unassigned lead on which the memory path finds it and SQL does not |
| Tables.BatchPathsAgree | src/database/postgres-collection.store.ts:161-185 | over a mirrored table both paths of the batch read find the same rows, for every list of values |
| Tables.SameAnswers | src/database/postgres-collection.store.ts:116-185 | a row both paths return is one row but for its stamps |
| CompareAndSwap.NextIsUpdateIf | src/database/postgres-collection.store.ts:345-366 | one call of a run is one `updateIf` of the store; with an empty patch no statement is sent and the row stays as it is |
| CompareAndSwap.WinnersChain | src/database/postgres-collection.store.ts:330-371 | in any interleaving of calls on a row each winner, a call whose statement hit the row, finds the row exactly as the winner before it wrote it, and its expectation is met there |
| CompareAndSwap.LaterExpectationFails | src/database/postgres-collection.store.ts:353-357 | once a call took a field away from a value, no later call that expects the value wins until someone writes it back, whatever the calls say about `updatedAt` |
| CompareAndSwap.ExactlyTheFirstWins | src/database/postgres-collection.store.ts:330-371 | among callers who expect one value and write another, a call wins if and only if it is the first whose expectation the row meets |
| CompareAndSwap.NullNeverWins | src/database/postgres-collection.store.ts:350-358 | an expectation of null is never met |
| CompareAndSwap.NextRivalWinsIff | src/database/postgres-collection.store.ts:353-357 | among callers who expect one `updatedAt` and nothing else, the next caller after a winner wins, too, if and only if the clock of the winner lay in the expected millisecond |
| CompareAndSwap.SameMillisecondRivalsBothWin | src/database/postgres-collection.store.ts:353-357 | a concrete pair of such rivals, both of whom win |
| LockOrder.LockTargets | src/database/calendar-unit-of-work.service.ts:82-95 | the locks taken are exactly those the requests name, each once, in ascending (class, id) order, and none without a database |
| LockOrder.AscendingIsUnique | src/database/calendar-unit-of-work.service.ts:91 | the order of acquisition depends on nothing but the set of locks |
| LockOrder.AccountingWritersMeet | src/database/calendar-unit-of-work.service.ts:53-62 | two accounting writers contend for a session or report lock if and only if both name it, and session and report ids never collide |
| Deadlock.MutualExclusion | src/database/calendar-unit-of-work.service.ts:92-94 | in every reachable state of any number of instances no lock has two holders |
| Deadlock.Acyclic | src/database/calendar-unit-of-work.service.ts:82-95 | in every reachable state, queues included, the wait-for graph has no cycle |
| Deadlock.DeadlockFree | src/database/calendar-unit-of-work.service.ts:82-95 | in every reachable state with something unfinished, some unit of work can start, take its next lock or commit without anyone aborting |
| Deadlock.WorkDecreases | src/database/calendar-unit-of-work.service.ts:82-95 | every step but a submission uses up a natural-number measure of the work left |
| Deadlock.NoWorkLeft | src/database/calendar-unit-of-work.service.ts:82-95 | the measure is zero exactly when everything has finished |
| Deadlock.SecondCall | src/database/calendar-unit-of-work.service.ts:81-95 | a second call keeps the order safe if and only if each lock it adds comes after all of the first call's |
| Deadlock.SafeIffOrdered | src/database/calendar-unit-of-work.service.ts:81-95 | an acquisition order can be run beside any single-call units of work without ever getting stuck if and only if it is ascending up to locks already held |
| Deadlock.OneCallIsOrdered | src/database/calendar-unit-of-work.service.ts:88-95 | whatever one call locks is taken in such an order, so that a unit of work of one call is safe |
| Deadlock.SeriesThenSessionsIsUnsafe | src/modules/schedule/schedule.service.ts:664-680 | the order of locking a series and then, in a second call, its sessions is not one of those |
| Migrations.LedgerMeansComplete | scripts/migrate-schedule-request-integrity-v2.ts:104-115 | with crashes anywhere and any number of concurrent runners of the three migrations, a ledger row is only ever seen over all listed constraints validated and all listed indexes built, and a runner that ended well left one |
| Migrations.Invariant | scripts/migrate-auth-refresh-token-integrity.ts:86-143 | what every step, crash and launch keeps; nothing once added, validated or recorded is ever lost |
| Migrations.OneRunnerPerLock | scripts/migrate-enrollment-payout-integrity.ts:71-107 | no two runners are ever at work under one session lock, the two migrations that share the key (77, 31) included |
| Migrations.RerunConverges | scripts/migrate-schedule-request-integrity-v2.ts:79-128 | in any state crashes and other runners can leave, once the lock is free an uninterrupted rerun ends well, with its ledger row over a complete schema, if and only if the gate passes, no row breaks a constraint still to be validated, for the payout runner no listed index is an invalid remainder, for it and the schedule-request runner the ledger has its table, and, for the refresh-token runner, the ledger has the row already or the pool has a second connection, and no listed name belongs to a constraint of another definition; and exactly when the ledger row is there afterwards |
| Migrations.SoloThreeTransactions | scripts/migrate-auth-refresh-token-integrity.ts:89-189 | the refresh-token half of the above: the ledger row may be written although the closing comparison of definitions then fails |
| Migrations.PerConstraintLoop | scripts/migrate-schedule-request-integrity-v2.ts:84-102 | the schedule-request half: from any constraint on, the loop and the closing steps end well, where the ledger has its table, exactly when the data allows what is left |
| Migrations.IndexLoop | scripts/migrate-enrollment-payout-integrity.ts:81-92 | the payout half: IF NOT EXISTS passes over an invalid index, which the readback then refuses, as it fails without the table of the ledger |
| Migrations.OnlyRefreshTokensMakeTheLedger | scripts/migrate-schedule-request-integrity-v2.ts:41-44 | where the ledger has no table, no run of the schedule-request and payout runners, of any length, creates it or writes a row |
| Migrations.PoolOfOneNeverFinishes | scripts/migrate-auth-refresh-token-integrity.ts:26-29 | while every refresh-token runner has a pool of one connection, no run of any length writes the ledger row: the readback of line 123 asks the pool while the runner holds its only connection |
| Migrations.CrashMidBuildSticks | scripts/migrate-enrollment-payout-integrity.ts:81 | a crash in the middle of a concurrent index build leaves the invalid remainder and nobody who would finish it |
| Migrations.OneCrashIsEnough | scripts/migrate-enrollment-payout-integrity.ts:71-81 | such a state is reached: from every database with a true ledger and without the first index there is one run, with one crash, after which no continuation whatever writes the payout ledger row |
| Migrations.InterruptedIndexIsForever | scripts/migrate-enrollment-payout-integrity.ts:81-92 | after that no run of any length writes the payout ledger row |
| RefreshChain.QueryEnds | src/database/migrations/auth-refresh-token-integrity.migration.ts:63-72 | the recursive query is out of rows after as many rounds as the table has rows, plus one, and its answer is then final |
| RefreshChain.FlaggedIffNeverEnds | src/database/migrations/auth-refresh-token-integrity.migration.ts:63-76 | a row is flagged if and only if following `replaced_by_id` from it never ends, cycles it merely leads into included, dangling links not |
| RefreshChain.InsertKeepsClean | src/modules/auth/refresh-tokens.service.ts:51-63 | an unlinked new row adds no finding |
| RefreshChain.LinkKeepsCleanIff | src/database/migrations/auth-refresh-token-integrity.migration.ts:19-20 | linking an unlinked row keeps the answer empty if and only if the successor does not lead back to it |
| RefreshChain.RotationKeepsClean | src/modules/auth/refresh-tokens.service.ts:109-113 | linking any row, linked before or not, to a row inserted for it adds no finding |
| RefreshTokens.RunInv | src/modules/auth/refresh-tokens.service.ts:86-194 | in every interleaving of rotations, logins, logouts and revocations, with row locks and uncommitted rows, committed rows only grow: a revoked row stays revoked and its link stays; and what each open transaction holds and has seen |
| RefreshTokens.ChainStaysAcyclic | src/modules/auth/refresh-tokens.service.ts:95-115 | from a table on which the cycle query finds nothing, no such interleaving, with any call failing anywhere, commits one on which it finds something |
| RefreshTokens.SurvivorsCameLater | src/modules/auth/refresh-tokens.service.ts:182-194 | when a reuse answer or a revocation of all has been given, every row of the user that was committed when its listing ran is revoked |
| RefreshTokens.ReuseRevokesTheChain | src/modules/auth/refresh-tokens.service.ts:98-101 | of all the tokens the chain of the presented one leads to, the answer leaves none live that was committed when the listing ran |
| RefreshTokens.ReuseIsCompleteIff | src/modules/auth/refresh-tokens.service.ts:95-101 | the promise of the file header, and when it is kept: a reuse answer about to list the user's tokens leaves the user without a live one in every continuation, new logins of the user aside, if and only if there is none to list at that moment and no open call may still issue one: a login of the user, a rotation that has read a live row of the user, or one about to |
| RefreshTokens.LateRotationSurvives | src/modules/auth/refresh-tokens.service.ts:98-101 | a live token that is presented after the listing and before the answer, whichever it is, leaves its successor live |
| RefreshTokens.DeadForGood | src/modules/auth/refresh-tokens.service.ts:95-115 | without a live token and a call to issue one, a user has none in any later state until a login |
| RefreshTokens.OpenCallsDecideIff | src/modules/auth/refresh-tokens.service.ts:95-101 | with no new calls of any kind the promise is kept in every continuation if and only if no open call may still issue a token of the user |
| RefreshTokens.RotationSlipsThrough | src/modules/auth/refresh-tokens.service.ts:95-101 | a run in which the reuse answer for a token is given and its chain ends in a live token, rotated while the answer was under way |
| RefreshTokens.RotatedOnlyOnce | src/modules/auth/refresh-tokens.service.ts:95-115 | however the calls interleave, a token is rotated once at most |
| RefreshTokens.ThenOnlyReuse | src/modules/auth/refresh-tokens.service.ts:95-102 | after that every rotation of it that had not read the row yet, or comes later, is answered with reuse or fails |
| CivilTime.DayFromYearClosedForm | src/common/time.util.ts:37-41 | day numbers counted by the lengths of the years are those of the closed form in section 21.4.1 of ECMA-262 |
| CivilTime.CivilOf | src/common/time.util.ts:33-34 | every day number has one valid date, which has that day number |
| CivilTime.CivilOfDayNumber | src/common/time.util.ts:33-41 | and every valid date comes back from its day number |
| CivilTime.AddDaysValidIff | src/common/time.util.ts:37-41 | `addDaysISO` gives a valid date string, of the day meant, if and only if that day lies in the years 1000 to 9999 |
| CivilTime.AddDaysIsAction | src/common/time.util.ts:37-41 | adding none changes nothing and adding twice adds the sum |
| CivilTime.AddDaysUndone | src/common/time.util.ts:37-41 | taking the days back gives the string back |
| CivilTime.EarlyYearsLoseTheirZero | src/common/time.util.ts:33-34 | below the year 1000 adding nothing already gives no date string |
| CivilTime.NewYearsEve999 | src/common/time.util.ts:33-34 | so 0999-12-31 plus no days is not a date string |
| CivilTime.DayDiffOfAddDays | src/common/time.util.ts:44-45 | the difference of a date moved by n days is n |
| CivilTime.AddDaysOfDayDiff | src/common/time.util.ts:44-45 | moving a date by its difference to another gives the other |
| CivilTime.WeekdayAdvances | src/common/time.util.ts:30 | n days on the weekday is n further, modulo seven, backwards too |
| CivilTime.WeekdayAnchor | src/common/time.util.ts:30 | July 6, 2026 was a Monday |
| CivilTime.StringOrderIsDateOrder | src/common/day-range.ts:13 | comparing date strings compares the days |
| CivilTime.RangeAcceptedIff | src/common/day-range.ts:9-14 | a range is accepted if and only if each given end has date form and the ends are not reversed field by field, whether or not they name days |
| CivilTime.AcceptedDaysAscend | src/common/day-range.ts:13 | for ends that name days this is the order of the days |
| CivilTime.MinutesThereAndBack | src/common/time.util.ts:11-18 | printing and reading a number of minutes gives it back if and only if it is not negative or a whole hour |
| CivilTime.ClockThereAndBack | src/common/time.util.ts:11-18 | reading and printing a clock string gives it back if and only if its minutes are below 60 |
| CivilTime.DurationLeadsToEnd | src/common/time.util.ts:21-27 | the duration between two times of day is below a day, and added to the start it reads as the end, with 24 hours more when the end is on the next day |
| AnalyticsWindow.BuildWhere | src/database/db-analytics-snapshot.repository.ts:103-118 | the clauses and numbered parameters select exactly the live forms of the window, for every combination of given, missing and empty ends, and the query is not sent exactly when an end throws |
| AnalyticsWindow.WindowIsSound | src/database/db-analytics-snapshot.repository.ts:105-113 | for every zone within 24 hours of UTC a live form whose shown day lies in the range is in a window that covers it |
| AnalyticsWindow.InRangeIff | src/modules/counsel/counsel-analytics.ts:36-41 | for every accepted pair of strings, days or not, the string filter keeps exactly the forms shown between a first and a last day |
| AnalyticsWindow.MarginsAreTight | src/database/db-analytics-snapshot.repository.ts:106-113 | whatever instants the ends were read as, a window misses no form for all those zones if and only if it reaches one day ahead of the first shown day and two days past the beginning of the last, or no day is shown |
| AnalyticsWindow.DaysAreCovered | src/database/db-analytics-snapshot.repository.ts:105-113 | the margins of the code do so for every range of days that exist |
| AnalyticsWindow.FebruaryThirtyFirst | src/common/day-range.ts:7-13 | from 2026-02-31, accepted and read as 3 March, they do not |
| AnalyticsWindow.PushdownPreserves | src/database/db-analytics-snapshot.repository.ts:98-161 | for all tables, all covering windows and all zones within 24 hours, the forms of the range and the rounds, interests and enrollments joined to each are, as multisets, those of loading everything |
| AnalyticsWindow.PushdownPreservesIff | src/database/db-analytics-snapshot.repository.ts:88-161 | for every accepted range, nothing the analytics see changes, over any tables and in any such zone, if and only if the window covers the range |
| AnalyticsWindow.SameForms | src/modules/counsel/counsel-analytics.ts:36-41 | the exact filter leaves the same forms of both |
| AnalyticsWindow.SameJoin | src/database/db-analytics-snapshot.repository.ts:128-161 | a join of live rows to a kept form sees the same rows whether it was pushed down or not |
| KeyRotation.Crypto.EncryptionKey | src/common/rrn-crypto.util.ts:34-46 | a malformed key throws, a missing one is derived, with one warning |
| KeyRotation.Crypto.Decrypt | src/common/rrn-crypto.util.ts:89-100 | the current key, and after any failure of it the previous one; nothing shorter than one character of ciphertext |
| KeyRotation.Crypto.Encrypt | src/common/rrn-crypto.util.ts:66-71 | a versioned payload under the current key, or the exception |
| KeyRotation.Crypto.DecryptsWithCurrentOnly | scripts/rotate-rrn-key.ts:51-62 | whether the current key alone opens the payload; the previous key is in its place again afterwards |
| KeyRotation.RotateRow | scripts/rotate-rrn-key.ts:21-39 | one row is failed, current or target as its payload says, and changed only as an applied target whose UPDATE is not refused |
| KeyRotation.Rotate | scripts/rotate-rrn-key.ts:12-48 | the script throws exactly at the first target that it applies to and cannot encrypt or write, with the targets before it rewritten and nothing else; otherwise the exact counts, outcome and new table; the previous key is restored on every way out |
| KeyRotation.RerunCompletes | scripts/rotate-rrn-key.ts:3-4 | a run that broke off anywhere and is run again to its end leaves the table that one run would have left, but for the times of writing |
| KeyRotation.CountsBalance | scripts/rotate-rrn-key.ts:40-43 | total is current plus targets plus failed |
| KeyRotation.RotationKeepsPlaintext | scripts/rotate-rrn-key.ts:27-38 | no plaintext changes; a readable one of a live user is versioned and readable once the previous key is gone, and one of a deleted user is so exactly when the current key alone read it before; unreadable rows and deleted users stay as they are |
| KeyRotation.PreviousKeyCanGoIff | scripts/rotate-rrn-key.ts:3-5 | after an applied run nothing is lost with the previous key if and only if no deleted user has a number that the previous key alone opens |
| KeyRotation.DeletedNumberIsLost | scripts/rotate-rrn-key.ts:19-20 | a table with such a number, of which the script selects nothing |
| KeyRotation.WriteIsKeptIff | scripts/rotate-rrn-key.ts:35-37 | with any writes by others between the SELECT and the end: what the last of them left of a number is kept if and only if it came after the UPDATE of the row, or there was no UPDATE, or it stands for the text that was selected |
| KeyRotation.DestroyedNumberReturns | scripts/rotate-rrn-key.ts:35-36 | a number destroyed between the SELECT and the UPDATE is readable again afterwards |
| KeyRotation.SecondRunHasNoTargets | scripts/rotate-rrn-key.ts:32-34 | a second run finds no target and fails on exactly the rows the first one failed on |
| KeyRotation.OpenedTextIsNotEmpty | src/common/rrn-crypto.util.ts:92 | an empty text could be sealed but never read back, and never comes out of a payload |
| IntegrityReport.ScanDuplicates | scripts/db-integrity-check.ts:205-215 | one issue for every full row whose key an earlier one has, naming the first |
| IntegrityReport.DuplicatesAreExact | scripts/db-integrity-check.ts:204-215 | their number is the full rows minus the distinct tuples if and only if no two different tuples of the table have one join |
| IntegrityReport.SharesJoinIff | scripts/db-integrity-check.ts:211 | a full tuple shares its join with another full tuple of as many columns if and only if a separator inside a part can take the place of a neighbouring cut and leave no part empty; with one column never |
| IntegrityReport.ExactWithoutMovableCuts | scripts/db-integrity-check.ts:204-215 | so a table none of whose tuples has such a separator is reported exactly |
| IntegrityReport.SeparatorMisleads | scripts/db-integrity-check.ts:211 | with the separator in a value two rows that differ in both columns are reported as duplicates |
| IntegrityReport.ScanPriorities | scripts/db-integrity-check.ts:263-288 | the students reported are exactly those with a gap |
| IntegrityReport.GapFreeIff | scripts/db-integrity-check.ts:286-288 | there is no gap if and only if the priorities are the numbers one to n, each once, in any order |
| IntegrityReport.ScanPaidFlags | scripts/db-integrity-check.ts:297-315 | the issues of both loops over the maps by id, in order |
| IntegrityReport.PaidFlagsCleanIff | scripts/db-integrity-check.ts:293-315 | they are none if and only if the two-way relation of flags and paid payouts holds |
| IntegrityReport.CleanMeansPaidOnce | scripts/db-integrity-check.ts:307-315 | then no live session is a line of two paid payouts |
| SqlPreflight.EnrollmentPreflightIsExact | src/database/migrations/enrollment-payout-integrity.migration.ts:99-105 | whatever is null, the preflight selects an enrollment if and only if one of its three constraints is false |
| SqlPreflight.PayoutPreflightIsExact | src/database/migrations/enrollment-payout-integrity.migration.ts:108-119 | a payout breaks a constraint if and only if the preflight, its terms taken in any order, selects it or its adjusted amount lacks a reason |
| SqlPreflight.DecisionIsKnown | src/database/migrations/enrollment-payout-integrity.migration.ts:37-56 | the shared CASE is never null; a rejected payout it accepts has a reason, and a reversed one a payment and a second reason |
| SqlPreflight.OtherJsonStopsThePreflight | src/database/migrations/enrollment-payout-integrity.migration.ts:117-118 | lines that are JSON but no array break the constraint or raise, and stop the preflight by being selected or by the error, in whatever order the terms are evaluated |
| SqlPreflight.ReasonSlipsThrough | src/database/migrations/enrollment-payout-integrity.migration.ts:198-204 | a payout that the preflight lets pass and a constraint refuses: an amount adjusted from 100 to 80 without a reason |
| SqlPreflight.HasTextIff | src/database/migrations/enrollment-payout-integrity.migration.ts:46 | `length(btrim(COALESCE(v, ''))) > 0` holds exactly of a text with a character other than a blank |
| DbmlSettings.SplitSettings | scripts/verify-schema-shape.ts:68-89 | the trimmed, non-empty pieces between the commas outside quotes |
| DbmlSettings.SplitOfJoin | scripts/verify-schema-shape.ts:68-89 | splitting the comma-join of any list of trimmed, non-empty settings with their commas quoted gives the list back |
| DbmlSettings.JoinOfPieces | scripts/verify-schema-shape.ts:73-87 | the pieces of any text join to it again and are balanced, so no cut is made inside a quoted span |
| DbmlSettings.ExtractBracketSettings | scripts/verify-schema-shape.ts:94-111 | the text from the first opening bracket to the first closing one outside quotes, or nothing |
| DbmlSettings.ReadBack | scripts/verify-schema-shape.ts:138 | extracting and splitting a printed column line gives its settings back |
| ColumnNames.FieldThereAndBack | src/database/postgres-row.util.ts:3-7 | a field comes back from its column if and only if no underscore in it has a small letter behind |
| ColumnNames.ColumnThereAndBack | src/database/postgres-row.util.ts:3-7 | a column comes back from its field if and only if it has no capital |
| ColumnNames.SharedColumns | src/database/postgres-row.util.ts:3-7 | two names share a column if and only if they are read back as one field |
| ColumnNames.SafeColumnIff | src/database/postgres-collection.store.ts:45-48 | a field gets a column if and only if it is letters and digits and begins with a small letter, and the column leads back to it |
| ColumnNames.SafeColumnsDiffer | src/database/postgres-collection.store.ts:45-48 | no two fields get one column |
| ColumnNames.PayloadThereAndBack | src/database/postgres-collection.store.ts:410-432 | reading back a written payload recovers every field with its value and nothing else |
| AccountVersions.UsersTable.SelectTarget | scripts/bootstrap-ceo.ts:50-55 | the live account named admin, else the live super_admin, with the least id, or none |
| AccountVersions.UsersTable.BootstrapCeo | scripts/bootstrap-ceo.ts:44-105 | it goes through exactly when the auth migration is recorded and no statement is refused, and then the whole new table is stated, with exactly one live super_admin in it; otherwise the table is as it was |
| AccountVersions.ResetSucceedsIff | src/database/calendar-asset-specs.ts:72-74 | where the active names are unique without case, no statement is refused if and only if there is a live admin or super_admin, or the schema requires no English name, and no deleted account has the very name admin |
| AccountVersions.EmptyTableIsRefused | scripts/bootstrap-ceo.ts:68-74 | on an empty table the INSERT is refused for the missing English name |
| AccountVersions.DeletedAdminBlocks | scripts/bootstrap-ceo.ts:59-66 | a deleted admin keeps the live super_admin under another name from being reset |
| AccountVersions.ResetCanBeRepeated | scripts/bootstrap-ceo.ts:50-66 | a reset that went through can be repeated, and goes to the same account and no other |
| AccountVersions.OneSuperAdmin | scripts/bootstrap-ceo.ts:57-88 | after a reset that went through exactly one live super_admin is left, active, under the name admin, with the given credential and the duty to change it |
| AccountVersions.ResetTouches | scripts/bootstrap-ceo.ts:59-86 | every touched account gains one version, everybody else is as before |
| AccountVersions.ResetRevokesForEver | src/database/account-state.service.ts:43-50 | in any history of logins, resets and account writes that leave the version alone or write the one they read and one more, having missed at most one, a token issued before a reset for an account it touched is refused in every later state |
| AccountVersions.StaleWriteRevivesIff | src/modules/users/users.service.ts:620-627 | a write brings a stale token back if and only if it has missed more than one new version |
| AccountVersions.ResetSparesTheRest | src/database/account-state.service.ts:43-59 | the tokens of all other accounts fare as before |

## Left out

Deliberate limits of members above:

- InMemory.InMemoryDatabase.FindByField: says for an absent (undefined) value only that nothing wrong is returned, because the index leaves such rows out, and nothing for the audit stamps, which `update`, `remove` and `restore` overwrite without moving buckets; the order of the answer is not modelled.
- InMemory.InMemoryDatabase.ReplaceExact: takes rows with distinct ids, which primary keys are.
- CollectionStore.PostgresCollectionStore.FindActive: `orderBy` and `limit` are not modelled; the two paths place nulls differently.
- CollectionStore.PostgresCollectionStore.Hydrate: JSON, date and timestamp columns are taken as scalar values, so their conversions in `fromDbRow` and `toDbPayload` are not modelled beyond the millisecond truncation of the audit instants.
- CollectionStore.PostgresCollectionStore.RemoveByField: without a database it says what happens for a defined value of a field other than the audit stamps, as FindByField does.
- CollectionStore.PostgresCollectionStore.Insert: column defaults are constants, `now()` of the audit stamps aside; after a refusal the sequence may have moved on; a statement that the database accepted and whose answer was lost is not modelled, here and in the other writes.
- Tables.ReadPathsAgree: leaves filters on audit stamps out, whose values two clocks wrote.
- CivilTime.AddDaysValidIff: is about strings that name a day; what `Date` makes of other strings is left to implementations by ECMA-262.
- CivilTime.MinutesThereAndBack: a part of a clock string other than digits with an optional minus sign counts as not a number, so exponents, blanks and hexadecimal are not modelled.
- AnalyticsWindow.InRangeIff: is about timestamps displayed with a four-digit year from 1000 on, as ISO strings of these years are.
- SqlPreflight.PayoutPreflightIsExact: excludes lines that are JSON but no array, where `jsonb_array_length` raises; OtherJsonStopsThePreflight covers them.
- AccountVersions.ResetRevokesForEver: that a service misses at most one new version rests on its lock and its reading after it, which the reset script does not take part in.
- KeyRotation.Rotate: rows do not change under the script, for which WriteIsKeptIff has the exact condition, and AES-GCM opens with its key and no other.
- RefreshTokens.ReuseIsCompleteIff: one row stands for one raw token, whose hash is unique; the mutex by hash within one process is left out, which only allows more interleavings; an INSERT or UPDATE by a transaction that already holds the row, and the step before it, are one step.

Not modelled at all:

- Writes that bypass `run`: code that calls `postgres.transaction` or the store outside a unit of work, as the refresh tokens do, is not among the bodies of UnitOfWork and MirroredRuns; RefreshTokens models that one on its tables.
- Unit of work without a database, where the inner transaction is a plain call; the AsyncLocalStorage that tells a nested call from a new one.
- Policy checks and the unset URL in front of `ensureInitialized`, a shutdown during a flight, pool settings, TLS, telemetry, health reports.
- Staleness of one instance's mirror after another instance writes, and the refreshes services do after locking.
- `seedReference`, `findBy`, `syncSequence`, the test-only exception to `skipMemoryWhenDurable`.
- The aggregation of the counsel analytics; both paths feed it the same forms and joins.
- The remaining checks of the integrity report, the rest of the schema-shape script, the remaining migration scripts, smoke scripts and file scans: single-row or single-pass facts.
- Audit rows of the reset, capabilities in `verifyClaims`, time-zone database lookups (`dateInTimeZone`).
- Integers are unbounded and characters are Unicode code points: ids and instants stay below 2^53, and the strings compared are within the basic plane.
