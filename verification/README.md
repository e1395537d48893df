# Verified model of the Drishya dashboard and the Odysseus workspace

The repository holds two servers: a news dashboard (Node, with a FastAPI backend and a React client) and an
embedded workspace application, Odysseus (Python). Most of their code is input and output. This project models
the parts that are state machines, concurrent protocols, caches, parsers and bounded stores, and proves what they
keep in every run, under every interleaving of their critical sections, or for every input.

| file | what it models |
|---|---|
| `Accounts.dfy`, `AuthMachine.dfy`, `AuthManager.dfy` | users, privileges and sessions: each critical section as a function, all interleavings as a state machine, and the class as it is written |
| `PrivilegeReads.dfy`, `PrivilegeLookups.dfy` | the reader of privileges that takes no lock, against single writes and against accounts coming and going |
| `AtomicIO.dfy`, `ConfigFile.dfy` | write-temp, fsync, rename on a file system that can crash at any step; auth.json and the table it is saved from |
| `OwnerLocks.dfy`, `DefaultAccounts.dfy` | ordered owner locks with insert races, at-most-once seeding, the one-default-per-scope migration |
| `OwnerMigrations.dfy`, `IndexText.dfy`, `ChatIndex.dfy` | the two ownership migrations and their order; the trigger-maintained full-text index and its migration |
| `TokenCache.dfy`, `SwrCache.dfy`, `RedisPool.dfy` | the prefix-bucketed token cache, the stale-while-revalidate cache, the Redis pool with its cooldown |
| `SseReader.dfy`, `SseStandard.dfy`, `Companion.dfy`, `Chunking.dfy` | the incremental event-stream reader, what the standard reads, the companion origin parser, the text chunker |
| `WorldAlerts.dfy`, `Ranking.dfy` | the bounded alert store, the ranked and deduplicated evidence lists |
| `Prelude.dfy`, `Text.dfy` | optional values, string order, string operations |

Run `dafny verify dfyconfig.toml` to check everything.

## Where the code does not do what it is documented to do

Each of these is a theorem below: the code is modelled as it is, a failing case is exhibited, and the exact condition
under which the promise holds is proved.

- A full-text row of a message with inline media is promised never to carry the raw content. The triggers keep that
  promise; the migration's rewriting step puts media back exactly when something outside the complete base64 data
  URLs is media, as in an inline SVG without base64, or a reference line of a content block is
  (`ChatIndex.MigrationIndexesMediaExactlyWhen`, `ChatIndex.MigrationPutsSvgBack`).
- `chunkText` promises chunks of at most `maxLength`. Later chunks of several words can have one character more, and a
  first word that is too long produces an empty first chunk (`Chunking.ChunksFitExactly`, `Chunking.BoundIsTight`,
  `Chunking.FirstChunkIsEmptyExactlyForALongFirstWord`).
- The chat stream reader handles the events of the stream exactly if no network chunk ends between an `event:` line
  and its `data:` line (`SseReader.EventsSurviveExactlyWithoutTears`, `SseReader.CutAfterTheEventLineTears`).
- A clear dirty flag is meant to say that the token cache is current. It does exactly if no change was committed between
  the read and the publishing of the last refresh; a token minted in that time is refused, and one revoked in that time
  is accepted (`TokenCache.ClearFlagMeansCurrentExactly`, `TokenCache.MintedTokenIsAcceptedExactly`,
  `TokenCache.OverlappingMintIsLost`, `TokenCache.RevokedTokenIsRefusedExactly`,
  `TokenCache.OverlappingRevocationIsLost`).
- The stream reader does not see the blank line that ends an event, and reads fields only with a space after the colon;
  it meets the standard exactly on blocks that do not depend on either (`SseStandard.ReaderMeetsStandardExactly`).
- A deletion misses exactly the sessions that carry another name when its purge runs, so a rename overlapping it can
  keep one alive (`AuthMachine.DeletionMissesExactlyTheRelabelled`, `AuthMachine.OverlappingRenameDefeatsRevocation`).
- A deletion removes the API token rows that the user owns at that time. The name owns one later exactly if it is minted
  for it afterwards, or handed over by a rename whose account half came before; the hand-over takes no lock
  (`AuthMachine.DeletedNameOwnsExactlyWhatIsGivenLater`, `AuthMachine.OverlappingRenameHandsOverAToken`).
- A rename takes exactly those sessions along that no step between its halves drops or another rename takes elsewhere; a
  validation in between drops one (`AuthMachine.RenameMovesExactlyTheSpared`,
  `AuthMachine.ValidationDuringRenameDropsSession`).
- The Redis cooldown is forgotten when an overlapping call connects
  (`RedisPool.CooldownHoldsExactlyWhileRemembered`, `RedisPool.SuccessBetweenForgetsTheFailure`), and cancelling a
  call in its first ping leaves a pool published beside a recorded failure
  (`RedisPool.FailureMeansNoPoolExactlyWithoutCancellation`, `RedisPool.CancelledTrialLeavesAPool`).
- A call that connects to Redis can return nothing, with no failure recorded, because the slow close of an older pool
  unpublishes the new one (`RedisPool.ConnectedCallReturnsItsPoolExactly`, `RedisPool.SlowCloseLosesTheNewPool`).
- A cached view is less than twice its TTL old counted from the moment it was stored; counted from the moment it was
  produced, exactly if storing took no time (`SwrCache.PlainBoundHoldsExactlyWhenStoredAtOnce`,
  `SwrCache.LateStoreExceedsTheBound`).
- A merge of world alerts that meets an unreadable date raises before pruning, and leaves the store within its bounds
  exactly if, up to that article, the old entries and the wanted articles fit and none is old
  (`WorldAlerts.MergeIsTidyExactly`, `WorldAlerts.RaisingMergeOverfills`).

## Model

| member | source | states |
|---|---|---|
| Usernames.NormalizeIsIdempotent | odysseus/core/auth.py:262-264 | a stored name is found again by any spelling that normalises to it |
| Usernames.SpellingsAreOneName | odysseus/core/auth.py:264 | every spelling of a name, in any case and with blanks around it, is that name |
| Accounts.CreateKeepsSound | odysseus/core/auth.py:262-283 | creating an account keeps an administrator, well-formed names and stash ownership |
| Accounts.DeleteKeepsSound | odysseus/core/auth.py:285-317 | so does deleting one, since nobody deletes themselves |
| Accounts.RenameKeepsSound | odysseus/core/auth.py:334-353 | so does renaming one, into no reserved, empty or taken name |
| Accounts.SetAdminKeepsSound | odysseus/core/auth.py:405-464 | so does a change of the admin flag: the last administrator stays |
| Accounts.SetPrivilegesKeepsSound | odysseus/core/auth.py:387-401 | so does an edit of privileges |
| Accounts.DemotionUndoesPromotion | odysseus/core/auth.py:446-463 | demotion from the stash a promotion left restores the effective privileges |
| Accounts.EditSetsExactlyTheKnownKeys | odysseus/core/auth.py:387-401 | an edit succeeds exactly for accounts that are no administrators; in the map in force the known keys get the changed values, all other values and the set of keys stay, and no other record changes |
| Accounts.CreationAddsExactlyOne | odysseus/core/auth.py:262-283 | exactly for a free, unreserved, nonempty name there is one more record, with the given hash and flag, the map in force of its kind and nothing stashed |
| Accounts.DeletionRemovesExactlyOne | odysseus/core/auth.py:285-317 | exactly an administrator can delete exactly one other account |
| Accounts.RenameCarriesTheRecord | odysseus/core/auth.py:334-353 | exactly an administrator can rename an account into a free name, and the whole record, password hash included, goes with it |
| Accounts.FlagChangeIsExact | odysseus/core/auth.py:405-466 | when each of the four results comes; Ok leaves every other record, sets the flag, gives all rights or gives back the stashed map, else the defaults |
| Accounts.AdministratorsAreUnrestricted | odysseus/core/auth.py:43-48 | an administrator has every right, no limit and neither of the two restrictions |
| Accounts.NothingLeaksPastDemotion | odysseus/core/auth.py:455-462 | an administrator with nothing stashed is demoted to the defaults, without shell access |
| AuthMachine.RunKeepsSound | odysseus/core/auth.py:262-466 | in every interleaving of all critical sections some administrator remains, no reserved, empty or non-normalised name is stored, and a stash exists only for an administrator |
| AuthMachine.FateOfAnAccount | odysseus/core/auth.py:262-466 | in every step of the machine an account is deleted, renamed, edited or has its flag changed exactly under the conditions of these operations, and else stays as it is |
| AuthMachine.PasswordSurvivesRun | odysseus/core/auth.py:334-466 | an account that is never deleted keeps its password hash through every run, under the name its renames gave it |
| AuthMachine.LoginsMakeSessions | odysseus/core/auth.py:581-596 | a login adds one session, for an account only, which authenticates exactly until its expiry, and touches no other |
| AuthMachine.OnlyLoginsMakeSessions | odysseus/core/auth.py:581-667 | no other step makes a session |
| AuthMachine.StashSurvivesRun | odysseus/core/auth.py:334-466 | the stash follows its account through every run that neither deletes nor demotes it |
| AuthMachine.DemotionRestoresPrivileges | odysseus/core/auth.py:405-466 | promote, any such run with renames and refused edits, demote: exactly the effective privileges from before |
| AuthMachine.DeadTokensStayDead | odysseus/core/auth.py:581-667 | a session token once gone never authenticates again, in any run |
| AuthMachine.DeletionRevokesForGood | odysseus/core/auth.py:285-332 | after a deletion no token issued to the user before works again, under any interleaving and after re-creation, if no rename away from the name completes between its two critical sections |
| AuthMachine.DeletionMissesExactlyTheRelabelled | odysseus/core/auth.py:285-332 | some continuation makes a token work again after the deletion exactly if it carries another name when the purge runs |
| AuthMachine.RunKeepsLabelsRight | odysseus/core/auth.py:350-361 | in every run sessions carry only names an account can have |
| AuthMachine.OverlappingRenameDefeatsRevocation | odysseus/core/auth.py:350-361 | the trace in which a rename into the deleted name keeps a token alive |
| AuthMachine.DeletionRevokesApiTokens | odysseus/core/auth.py:299-317 | no API token row that the user owns at a deletion exists in any later state, whatever is minted, renamed, handed over and re-created; a refused one changes nothing |
| AuthMachine.FateOfARow | odysseus/core/auth.py:299-317 | in every step an API token row ends exactly by its removal or the deletion of its owner, and changes owner only by a hand-over |
| AuthMachine.DeletedNameOwnsExactlyWhatIsGivenLater | odysseus/routes/auth_routes.py:433-441 | in every run after a deletion the name owns a token row exactly if some step minted it for that name (odysseus/companion/pairing.py:195-204) or handed it over in a rename, and none after that took it away |
| AuthMachine.OverlappingRenameHandsOverAToken | odysseus/routes/auth_routes.py:433-441 | the trace in which a rename into the deleted name has its rows still to hand over: a token ends up owned by the re-created user |
| AuthMachine.FateOfASession | odysseus/core/auth.py:285-367 | in every run a session lives exactly until a step that drops it (a validation that finds it expired or its user unknown, a revocation, a purge), under the name its renames gave it |
| AuthMachine.RenameMovesExactlyTheSpared | odysseus/core/auth.py:334-367 | whatever runs between the two halves of a rename, the sessions that end under the new name are exactly those no step drops and no other rename takes elsewhere |
| AuthMachine.RenameLeavesOthersAlone | odysseus/core/auth.py:355-361 | a rename that nothing overlaps changes no session of another name |
| AuthMachine.ValidationDuringRenameDropsSession | odysseus/core/auth.py:598-621 | the trace in which a validation between the two halves of a rename drops the session |
| AuthService.AuthManager.Create | odysseus/core/auth.py:262-283 | a success adds exactly one name with the given hash, flag and rights and changes no other record, a refusal changes nothing, and a sound table stays sound |
| AuthService.AuthManager.Delete | odysseus/core/auth.py:285-332 | both halves of a deletion, with the collect-and-pop loop, refine the state machine's two steps |
| AuthService.AuthManager.Rename | odysseus/core/auth.py:334-367 | both halves of a rename, with the relabelling loop, refine the state machine's two steps |
| AuthService.AuthManager.CountAdmins | odysseus/core/auth.py:436-438 | the count is the number of administrators |
| AuthService.AuthManager.SetAdminFlag | odysseus/core/auth.py:405-466 | promotion and demotion write by write end where the critical section does, with all its results; only the target changes, to all rights or back to the stashed ones |
| AuthService.AuthManager.ApplyEdits | odysseus/core/auth.py:396-399 | the loop gives every known key in the request its new value and leaves every other key and value |
| AuthService.AuthManager.SetUserPrivileges | odysseus/core/auth.py:387-403 | exactly for accounts that are no administrators the map in force gets the changed values at the known keys and nothing else changes |
| AuthService.AuthManager.ValidateToken | odysseus/core/auth.py:598-621 | the answer, and which session is dropped when expired or orphaned |
| AuthService.AuthManager.CreateSessionTrusted | odysseus/core/auth.py:581-596 | a session is issued exactly for a name that is an account, and it is the issuing step of the state machine; no other session changes |
| AuthService.AuthManager.RevokeUserSessions | odysseus/core/auth.py:653-667 | exactly the user's sessions go, except the one to keep, and the count is theirs |
| PrivilegeReads.LockFreeReadIsLinearizable | odysseus/core/auth.py:378-385 | two reads of a record without the lock, interleaved with single writes of promotions, demotions and edits, return the map in force at some instant between them |
| PrivilegeLookups.LookupIsLinearizable | odysseus/core/auth.py:378-385 | with the lookup of the record, and with creations, deletions and renames as well, the call returns the map in force for that account at some instant of the call at which it still had a name |
| PrivilegeReads.OneWriteDecides | odysseus/core/auth.py:439-463 | each operation changes the map in force in exactly one of its writes |
| PrivilegeReads.WritesComposeToOperations | odysseus/core/auth.py:445-463 | the single writes compose to the operations of the critical sections |
| PrivilegeReads.OneWriteIsAnEdit | odysseus/core/auth.py:395-400 | the one write of an edit does in the map in force what the edit does |
| AtomicIO.TargetIsNeverTorn | odysseus/core/atomic_io.py:22-67 | with any number of writers and crashes at any steps a target reads as originally or as one writer's complete synced payload |
| AtomicIO.CleanupRemovesOnlyItsOwnTemp | odysseus/core/atomic_io.py:40-46 | the final unlink removes no target and no other writer's temporary file |
| AtomicIO.OnlyRenameChangesTarget | odysseus/core/atomic_io.py:39 | no step but a crash or the rename changes what a target reads as |
| AtomicIO.LastSaveIsWhatIsRead | odysseus/core/atomic_io.py:34-46 | from a rename on, and until the next one onto the path or a crash, the path reads as the payload |
| AtomicIO.UnsyncedWriteIsLost | odysseus/core/atomic_io.py:34-38 | without the sync a crash leaves of a written file only what the kernel had brought to the disk |
| AtomicIO.RenameSurvivesACrashOnceTheEntryIsDurable | odysseus/core/atomic_io.py:39 | a crash after the rename leaves what one before it would have, unless the directory entry became durable in between; then the new contents |
| ConfigFile.FileIsTheTableWhenUnlocked | odysseus/core/auth.py:221-222 | in every run of table changes, saves, other writers and kernel steps, auth.json reads as the table in memory whenever the config lock is free, unless a save failed or something crashed since the last save or load |
| ConfigFile.SavingRestoresTrust | odysseus/core/auth.py:221-222 | after such a failure the next successful save restores this |
| ConfigFile.LastChangeIsWhatIsRead | odysseus/core/auth.py:221-222 | with the lock free, what is read is what the last change made of the table, unless its save failed |
| AtomicIO.AtomicWrite | odysseus/core/atomic_io.py:49-67 | one call publishes all of its payload or raises leaving the target alone; a temporary file is left only if it raises and the final unlink fails too |
| OwnerLocks.OwnerKeysAreCanonical | odysseus/core/database.py:486 | the locked keys are the requested scopes, NULL as '', strictly ascending |
| OwnerLocks.RunKeepsInv | odysseus/core/database.py:491-517 | in every run of statements, with insert races, commits and rollbacks, locks and holders agree |
| OwnerLocks.StartedTransactionHoldsItsScopes | odysseus/core/database.py:486-517 | a transaction started for some owners in any reachable state holds, once past the loop and while open, the lock of every one of their scopes (NULL as the empty one, also for no owner and for a seeder), and never any other |
| OwnerLocks.StartedKeysAreRequests | odysseus/core/database.py:486-491 | it starts in the lock loop with exactly these scopes to get |
| OwnerLocks.ScopesAreExclusive | odysseus/core/database.py:474-517 | in every run, of the transactions started for owners of one scope at most one is open and past its lock loop |
| OwnerLocks.ClosingReleasesAndPublishes | odysseus/core/database.py:474-517 | a transaction that ends holds nothing any more, and a mutex row it inserted stays exactly if it commits |
| OwnerLocks.CommittedMutexRowsStay | odysseus/core/database.py:501-517 | a committed mutex row is there in every later state |
| OwnerLocks.WaitersWaitUpwards | odysseus/core/database.py:474-517 | a waiter waits for an open transaction, for a key above all keys it holds |
| OwnerLocks.SomeoneCanStep | odysseus/core/database.py:474-517 | no deadlock in any reachable state |
| OwnerLocks.StatementsMakeProgress | odysseus/core/database.py:491-517 | every unblocked statement of the loop lowers a bounded measure, and what follows the loop is the body |
| OwnerLocks.SeedsAtMostOneAccount | odysseus/core/database.py:1982-2054 | however many workers start together and whatever else is created and deleted, at most one seeded account is there at any time, and at most one was seeded since the table last was empty |
| OwnerLocks.SeederSeedsExactlyIfEmpty | odysseus/core/database.py:2009-2046 | a seeder with its lock seeds exactly if the table is empty when it counts, and its commit then leaves one seeded account, whatever others do in between |
| OwnerLocks.CommitsCountEveryAccount | odysseus/core/database.py:474-517 | commits of other transactions conserve the accounts they neither create nor delete |
| DefaultAccounts.EachScopeKeepsItsOldest | odysseus/core/database.py:1941-1964 | of the defaults of each owner, NULL being the empty name, exactly one stays: the one created first, a missing time counting as latest and the smaller id deciding between equal times |
| DefaultAccounts.UniqueIndexHolds | odysseus/core/database.py:1965 | the unique index can be built afterwards |
| DefaultAccounts.MigrationIsIdempotent | odysseus/core/database.py:1919-1980 | a second run changes nothing, the first only default flags of defaults |
| DefaultAccounts.SelectDefaults | odysseus/core/database.py:1941-1950 | the rows are all defaults, once each, by scope, NULL times last, time, id |
| DefaultAccounts.FirstOfScopeIsOldest | odysseus/core/database.py:1945-1958 | in that order the first row of a scope is its oldest |
| DefaultAccounts.FindDuplicates | odysseus/core/database.py:1951-1958 | the loop collects exactly the rows with an earlier row of their scope |
| DefaultAccounts.EmailAccounts.EnforceOneDefaultPerScope | odysseus/core/database.py:1941-1965 | query, loop and updates together give the table in which only the oldest default of each scope is left |
| OwnerMigrations.FindAdmin | odysseus/core/database.py:1417-1424 | the fallback account is the first one marked as administrator, or the first of all if none is |
| OwnerMigrations.StartupAssignsEveryOwner | odysseus/core/database.py:2122-2123 | no ownerless row is left in swept tables, no owner that was set changes, and nothing else does: unlisted tables but the documents stay as they are |
| OwnerMigrations.DocumentsFollowTheirSessions | odysseus/core/database.py:1520-1544 | an ownerless document of a session ends with the owner its session ends with |
| OwnerMigrations.StartupIsIdempotent | odysseus/core/database.py:1396-1462 | a repetition, with any fallback account, is a no-op |
| OwnerMigrations.OrderMattersExactlyForOthersDocuments | odysseus/core/database.py:1520-1526 | the reverse order differs exactly when an ownerless document belongs to another user's session, and then names the wrong owner |
| OwnerMigrations.StartupOnTheListedTables | odysseus/core/database.py:1442-1449 | all of this for the nineteen tables the sweep lists |
| OwnerMigrations.WrongOrderLosesAnOwner | odysseus/core/database.py:1520-1526 | for any two accounts there is a database on which the reverse order goes wrong |
| OwnerMigrations.Database.AssignLegacyOwner | odysseus/core/database.py:1417-1459 | the loop of UPDATEs is the sweep of all listed tables with an owner column |
| OwnerMigrations.Database.MigrateOwners | odysseus/core/database.py:2122-2123 | backfill and sweep called in this order on the listed tables are the startup above, and without any account the backfill alone |
| ChatIndex.RunKeepsAgreement | odysseus/core/database.py:2223-2291 | from agreement every run of inserts, updates, deletes and migrations keeps one index row per message, no orphans, equal session and role, fitting text |
| ChatIndex.MigrationEffect | odysseus/core/database.py:2242-2291 | the migration adds missing rows, rewrites media rows and keeps all others |
| ChatIndex.MigrationEstablishesAgreement | odysseus/core/database.py:2242-2291 | it brings agreement about on a partly indexed database, and with rewriting whatever rows older versions left for media messages |
| ChatIndex.TriggersNeverIndexRawMedia | odysseus/core/database.py:2223-2253 | in runs without the rewriting step media is indexed by the marker only |
| ChatIndex.MigrationIndexesMediaExactlyWhen | odysseus/core/database.py:2264-2291 | after the rewriting step the row of a media message still holds inline media exactly if a content block leaves some, or, for other texts, something outside the complete data URLs does |
| IndexText.MediaSurvivesScrubExactlyWhen | odysseus/src/attachment_refs.py:94-164 | the same of the index text itself: block lists by their reference lines and by what stripping leaves in the other blocks |
| IndexText.ListsAreReadAsBlocks | odysseus/src/attachment_refs.py:152-164 | a text is read block by block exactly if its first nonblank character is a bracket, it mentions a type and it parses as a list |
| IndexText.MatchIsTheLongestDataUrl | odysseus/src/attachment_refs.py:15-18 | what is matched is a data URL and the longest prefix that is one |
| IndexText.LinesFromTheFront | odysseus/src/attachment_refs.py:94-121 | the lines of the blocks come in the order of the blocks, without empty ones |
| IndexText.JoinedFromTheFront | odysseus/src/attachment_refs.py:121 | and are joined in this order by line ends |
| IndexText.OmissionIsTheLastLine | odysseus/src/attachment_refs.py:118-121 | with media blocks the text ends with the line that says how many there were |
| IndexText.StripLeavesMediaExactly | odysseus/src/attachment_refs.py:30-34 | a stripped text holds inline media exactly if one of the stretches between its complete data URLs does |
| IndexText.StripIsIdentityExactlyWithoutUrls | odysseus/src/attachment_refs.py:30-34 | stripping leaves a text as it is exactly if it has no lower-case `;base64,` or no complete data URL |
| IndexText.SubstitutionIsIdentityExactlyWithoutUrls | odysseus/src/attachment_refs.py:15-34 | replacing data URLs changes the text exactly if it contains one |
| ChatIndex.MigrationPutsSvgBack | odysseus/core/database.py:2264-2291 | a concrete message whose raw content the migration indexes |
| ChatIndex.ChatDatabase.RunMigration | odysseus/core/database.py:2242-2291 | backfill and row-by-row rewriting in place are the migration step |
| ChatIndex.ChatDatabase.Update | odysseus/core/database.py:2234-2239 | the trigger that deletes the old index row and inserts the new one, also under a new id, is the update step |
| TokenCache.BucketAnswersLikeScan | odysseus/app.py:422-437 | looking in the prefix bucket answers what a scan of all entries answers |
| TokenCache.BuiltCacheAnswersLikeScan | odysseus/app.py:314-336 | a rebuilt cache answers like a scan of active rows with known owners |
| TokenCache.ScanAnswersTheFirstAcceptingRow | odysseus/app.py:319-332 | a scan accepts exactly if an active row of the hash has an owner that is an account, and answers with the first such row and its account |
| TokenCache.ClearFlagMeansCurrentExactly | odysseus/app.py:303-336 | in every run, with every change flagged and the flag clear, the cache is of the current tables exactly if no change was committed between the read and the publishing of the last refresh, and it answers like a scan of the tables it is of |
| TokenCache.TornMeansAChangeInBetween | odysseus/app.py:314-336 | what that condition says of the run: a change among the steps between the two |
| TokenCache.MintedTokenIsAcceptedExactly | odysseus/companion/routes.py:68-79 | a token minted in any reachable state, with refreshes and flagging in any order, is accepted by the next lookup as its own exactly in that case, and refused otherwise |
| TokenCache.MintedTokenWorksAtOnce | odysseus/companion/routes.py:68-79 | with no refresh under way a token minted and then flagged is accepted by the very next lookup |
| TokenCache.OverlappingMintIsLost | odysseus/app.py:314-336 | with a refresh under way it is refused, though a scan finds it and the flag is clear |
| TokenCache.RevokedTokenIsRefusedExactly | odysseus/routes/auth_routes.py:683-690 | once no row of a token is active and owned by an account, it is refused by the next lookup, with refreshes, failing ones too, and flagging in any order, exactly if no change came between the read and the publishing of the last refresh; else it gets the answer of an older version of the tables |
| TokenCache.RevokedTokenIsRefusedAtOnce | odysseus/routes/auth_routes.py:683-690 | with no refresh under way a token revoked and then flagged is refused by the very next lookup |
| TokenCache.OverlappingRevocationIsLost | odysseus/app.py:314-336 | with a refresh under way it is still accepted, though a scan does not find it and the flag is clear |
| TokenCache.NewAccountNeedsNoRefresh | odysseus/app.py:322 | a new account changes the built cache only if token rows already name it |
| TokenCache.AuthState.Refresh | odysseus/app.py:314-336 | the loop that refills the dictionary in place builds the map from the tables |
| TokenCache.AuthState.Authenticate | odysseus/app.py:422-437 | the bearer path is refresh-if-dirty, then the first match in the bucket |
| SwrCache.ReturnedValuesAreRecent | server/cache.js:56-95 | in every run a value is returned less than twice its TTL after it was stored, and was produced before that |
| SwrCache.PlainBoundHoldsExactlyWhenStoredAtOnce | server/cache.js:67-74 | the same bound from its production holds exactly if storing took no time |
| SwrCache.LateStoreExceedsTheBound | server/cache.js:84-94 | a run from the empty cache, for every delay of storing, in which a hit is older than that |
| SwrCache.StampsNeverDecrease | server/cache.js:68-74 | the stored `cachedAt` of a key never decreases, across overlapping fetches, expiry and deletion |
| SwrCache.ProductionTimeMayGoBack | server/cache.js:56-95 | the production time can, when overlapping fetches finish out of order |
| SwrCache.ReadFetchesExactlyWhenNeeded | server/cache.js:56-95 | a read starts a fetch exactly if the key is missing or expired or its stamp is older than the TTL, and leaves all other fetches alone |
| SwrCache.StoredValueIsServedForTwiceItsTtl | server/cache.js:22-38 | what a fetch has stored answers every read for twice the TTL and none after that, whatever runs, until something else is stored |
| SwrCache.EndingAFetchEndsJustThatOne | server/cache.js:67-78 | a completed or failed fetch is over, and no other fetch or key is touched |
| SwrCache.ReadsOnlyDropTheExpired | server/cache.js:22-38 | a read drops its own entry exactly if it is expired, and no other |
| SwrCache.StaleReadIsRepaired | server/cache.js:62-95 | in every run in which that fetch does not end it stays under way, and its completion stores what the view produced at the read, stamped no earlier |
| SwrCache.MemoryCache.GetCache | server/cache.js:22-38 | a hit is an unexpired entry; an expired one is deleted |
| SwrCache.MemoryCache.ReadSwr | server/cache.js:56-95 | the read part is the read step of the machine |
| SwrCache.MemoryCache.CompleteFetch | server/cache.js:67-74 | stamping and storing under twice the TTL is the completion step of the machine |
| RedisPool.RunKeepsInv | backend/app/redis_pool.py:27-85 | in every run the lock has one holder, at a step inside the lock, and every call under way was admitted by the cooldown |
| RedisPool.AttemptsAreAdmittedAndExclusive | backend/app/redis_pool.py:27-63 | calls create pools one at a time, each having entered with no failure on record or one as old as the cooldown |
| RedisPool.AttemptsAreWhatPublishes | backend/app/redis_pool.py:50-74 | nothing but such an attempt publishes a pool, and one that cannot build a client records a failure |
| RedisPool.FailureMeansNoPoolExactlyWithoutCancellation | backend/app/redis_pool.py:52-74 | throughout a run a recorded failure with the lock free means no pool, exactly if no creator is cancelled in its first ping beside a recorded failure |
| RedisPool.CancelledTrialLeavesAPool | backend/app/redis_pool.py:61-74 | a run from the idle state in which that happens |
| RedisPool.PingedCallReturnsThePublishedPool | backend/app/redis_pool.py:34-49 | a call that finds a pool, on entering or inside the lock, and whose ping succeeds returns what is published by then, and changes nothing else; that is the pool it pinged exactly if no step in between took it away |
| RedisPool.RefusedCallAnswersNothing | backend/app/redis_pool.py:31-32 | during the cooldown a call returns nothing at once and changes nothing |
| RedisPool.FailedCallAnswersNothing | backend/app/redis_pool.py:70-74 | a call that cannot connect returns nothing, records the failure and leaves no pool and a free lock |
| RedisPool.DeadPoolIsClosedAndReplaced | backend/app/redis_pool.py:38-57 | a failed ping has the published pool closed; after that, or with none published, the call makes a client inside the lock or comes to it |
| RedisPool.WaitingCallIsNotOvertaken | backend/app/redis_pool.py:43 | a call that comes to the lock does not get it, and makes no client, while another waits for it |
| RedisPool.CancelledCallOnlyLeaves | backend/app/redis_pool.py:43-74 | a cancelled call gives up its lock and changes nothing else |
| RedisPool.ShutdownUnpublishes | backend/app/redis_pool.py:77-85 | a shutdown changes nothing until its close is through, and then no pool is published |
| RedisPool.ConnectedCallReturnsItsPoolExactly | backend/app/redis_pool.py:58-70 | a call whose new client answers its first ping returns that client exactly if no slow close of an older pool finishes during the ping, and nothing otherwise |
| RedisPool.SlowCloseLosesTheNewPool | backend/app/redis_pool.py:37-70 | a run from the idle state in which a call connects and returns nothing |
| RedisPool.FailedAttemptsAreApart | backend/app/redis_pool.py:31-74 | failed attempts of calls that do not overlap are at least the cooldown apart if nobody connected in between |
| RedisPool.CooldownHoldsExactlyWhileRemembered | backend/app/redis_pool.py:31-32 | all later admissions keep that distance exactly while a failure is on record or the cooldown is over |
| RedisPool.SuccessBetweenForgetsTheFailure | backend/app/redis_pool.py:62-74 | a run from the idle state with two such failures one millisecond apart |
| SseReader.LinesAreExact | src/App.tsx:5133-5135 | the pieces before the last are the newline-terminated lines, the last is what follows them |
| SseReader.LinesAreUnique | src/App.tsx:5133-5135 | there is only one such division |
| SseReader.LinesDoNotDependOnChunks | src/App.tsx:5129-5135 | for every way of cutting the stream the same lines are extracted, in order, and the same remainder kept |
| SseReader.TypesAreTrimmed | src/App.tsx:5139-5140 | the type of an event line is what stands between its white space |
| SseReader.EventsSurviveExactlyWithoutTears | src/App.tsx:5137-5165 | the handled events equal those of a one-shot parse exactly if no chunk brings the data line of an event line completed earlier |
| SseReader.CutAfterTheEventLineTears | src/App.tsx:5137-5165 | for every type and payload, a chunk that ends after the event line makes the reader handle the data without its type |
| SseReader.PendingTypeMattersExactlyForData | src/App.tsx:5138-5165 | a pending type matters exactly if the next event or data line is a data line |
| SseReader.PendingTypeIsTheLastEventLine | src/App.tsx:5139-5140 | a type is pending exactly after an event line that names one, with no event or data line since |
| SseReader.OneShotUndoesPrint | backend/app/api/routes/chat.py:739-785 | a one-shot parse of what the server prints gives the printed events |
| SseReader.PrintedEventsAreReadBackExactlyWithoutTears | backend/app/api/routes/chat.py:739-785 | in any chunks, they are read back exactly without such a cut |
| SseStandard.ReaderMeetsStandardOnPrintedEvents | src/App.tsx:5138-5165 | on printed events the reader and section 9.2.6 of the WHATWG HTML standard agree |
| SseStandard.ReaderMeetsStandardExactly | src/App.tsx:5138-5165 | on every sequence of complete blocks the one-shot reader handles the events that the standard dispatches exactly if each block has no data field, or a single one with a space after its colon for which the last type above it, or the one still pending, is the last type of the block |
| SseStandard.BlankLineDoesNotEndAnEvent | src/App.tsx:5138-5165 | the shortest failing shape, for every type and payload: a blank line between the event line and the data line |
| SseReader.TextIsTheLastSummaryAndItsTokens | src/App.tsx:5143-5162 | without a summary the text is that of all token events in stream order; with one it is the last summary followed by the tokens after it |
| SseReader.ArticlesAreTheLastOnes | src/App.tsx:5143-5162 | the articles are those of the last event that brings any, and the message streams until a done event |
| SseReader.ReadStream | src/App.tsx:5124-5173 | the nested loops show this text and these articles for the handled events, and those of a one-shot parse when no chunk tears an event |
| Text.NumberUndoesDecimal | odysseus/companion/pairing.py:107 | printed ports read back as themselves |
| Text.StripIsExact | odysseus/core/auth.py:264 | stripping takes away blanks around a text, and all of them |
| Text.LowerIgnoresExactlyCase | odysseus/core/auth.py:264 | two texts are the same in small letters exactly if they differ in the case of ASCII letters only |
| JsText.TrimIsExact | server/server.js:308 | trimming takes away white space around a text, and all of it |
| Companion.NetworksAreIntervals | odysseus/companion/pairing.py:27-37 | membership by netmask in the six networks is membership in six intervals |
| Companion.ValidHostsAreOfThreeKinds | odysseus/companion/pairing.py:40-67 | accepted hosts are exactly private dotted quads, unambiguous single labels and `.local` names of at most 253 characters |
| Companion.PrivateQuadsAreWhatTheNetworksAccept | odysseus/companion/pairing.py:45-67 | a host taken as an address is one of four octets in their only spelling, in one of the intervals |
| Companion.AddressHostsArePrivate | odysseus/companion/pairing.py:27-37 | such a host has the first two octets of a private network, written out |
| Companion.OctetsAreDecimals | odysseus/companion/pairing.py:45-67 | an octet is a number up to 255 in its only decimal spelling |
| Companion.NamesAreOfTwoKinds | odysseus/companion/pairing.py:46-63 | a host taken as a name is a single label or ends in `.local` |
| Companion.NamesAreUnambiguous | odysseus/companion/pairing.py:46-63 | an accepted name has only small letters, digits, hyphens and dots, is no decimal, hexadecimal or punycode one, and ends in `.local` if it has a dot |
| Companion.ParseUndoesPrint | odysseus/companion/pairing.py:70-111 | every valid host with a port in 1..65535 or none parses back from its printed form |
| Companion.AcceptedExactlyWhenPrinted | odysseus/companion/pairing.py:70-111 | a string is accepted as a host and port exactly if it is their printed form, or the one without port for 80 |
| Chunking.WordsAreClean | server/summarizer.js:10 | words hold no white space, and only the first and last can be empty |
| Chunking.SplitUndoesJoin | server/summarizer.js:10-22 | splitting joined words gives them back |
| Chunking.GroupsKeepTheWords | server/summarizer.js:15-27 | no word is lost, reordered or duplicated |
| Chunking.ChunksAreBounded | server/summarizer.js:9-29 | the first chunk is within the maximum, later ones of several words within one more, neighbours together reach the maximum |
| Chunking.ChunksSplitIntoTheirWords | server/summarizer.js:9-29 | each chunk's text splits into exactly its words |
| Chunking.ChunkCountIsBounded | server/summarizer.js:9-29 | there are at most twice length over maximum, plus one, chunks |
| Chunking.ChunksFitExactly | server/summarizer.js:15-23 | every chunk is within the maximum exactly if every word is and no word put into a later group makes the kept length plus its own equal to the maximum |
| Chunking.BoundIsTight | server/summarizer.js:16-19 | the bound of one more than the maximum is met, for every maximum from two on |
| Chunking.FirstChunkIsEmptyExactlyForALongFirstWord | server/summarizer.js:16-19 | the first chunk comes from no word exactly if the first word exceeds the maximum |
| Chunking.ChunkText | server/summarizer.js:9-29 | the loop computes this grouping, joined |
| WorldAlerts.AlertStore.MergeWorldAlerts | server/server.js:596-632 | the loop with its early exits, prepending and final pruning is the merge function, raised or not, of which the next rows say what it keeps |
| WorldAlerts.MergeKeepsTheStore | server/server.js:609-629 | URLs and headlines stay distinct, whether or not a merge raises |
| WorldAlerts.MergeIsTidyExactly | server/server.js:612-629 | a merge leaves at most 500 entries, all within a week, exactly if no wanted article has an unreadable date, or before the first that has, the old entries and the articles wanted at their turn are at most 500 together and all dated within the week |
| WorldAlerts.RunKeepsTheStore | server/server.js:596-632 | distinctness after every sequence of merges, and the bounds exactly under that condition on the articles of the last one |
| WorldAlerts.EntriesComeFromArticles | server/server.js:598-622 | every entry after a merge was there or has the URL, cleaned title and date of a complete article that matters |
| WorldAlerts.CompleteMergeKeepsTheRecent | server/server.js:626-629 | a merge that does not raise keeps, in order, just the entries within the week, and drops one of these only if 500 that stand before it are kept |
| WorldAlerts.WantedArticleIsKeptExactly | server/server.js:598-629 | after it an article wanted at its turn and dated within the week is in the store exactly if fewer than 500 later ones are |
| WorldAlerts.ConsideredArticlesBecomeKnown | server/server.js:598-624 | until it prunes, a merge that does not raise passes over no article that matters |
| WorldAlerts.ConsideredArticlesStayKnown | server/server.js:598-629 | after it every article that matters is known, unless the store is full or the entry it is known by is over a week old |
| WorldAlerts.RaisesExactlyAtAnUnreadableDate | server/server.js:621 | a merge raises exactly if an article wanted at its turn has an unreadable date |
| WorldAlerts.RaisingMergeDropsNothing | server/server.js:612-629 | before pruning every old entry is still there, behind the new ones |
| WorldAlerts.RaisingMergeOverfills | server/server.js:612-629 | a full store overflows when a merge raises |
| Ranking.SortIsTheStableSort | server/server.js:1468-1470 | the sort is the one descending order that keeps items of equal score as they were |
| Ranking.FilterCommutesWithSort | server/server.js:1468-1478 | filtering before or after the sort is the same |
| Ranking.FirstPerKeyIsExact | server/server.js:1482-1488 | dropping repeats keeps of each nonempty key exactly the first element |
| Ranking.Collect | server/server.js:1482-1488 | the loop that stops early is dropping repeats, then taking the limit |
| Ranking.Research | server/server.js:1468-1499 | both loops with their fallback are filter, sort, drop repeats, take the limit, over the strict candidates or, if there are none, the relaxed |
| Ranking.StrictIsEmptyExactlyWithoutStrict | server/server.js:1490-1499 | the fallback is taken exactly when no candidate passes the strict test |
| Ranking.RankedIsTheTop | server/server.js:1468-1499 | the answer is in descending order, of distinct URLs but for case, and misses an eligible candidate only for one of its URL that scores no less, or because it is full of such |
| Ranking.DedupeList | server/server.js:304-317 | the values are the first per spelling without case and outer white space, up to the limit |
| Ranking.DedupedListIsExact | server/server.js:304-317 | these are nonempty, trimmed, distinct but for case, at most the limit, and one spelling of every value unless the list is full |

## Left out

- Concurrent protocols (`AuthMachine`, `AtomicIO`, `ConfigFile`, `OwnerLocks`, `RedisPool`, the token and view caches)
  are state machines on values with one step per critical section, system call, statement or stretch between two
  suspensions; where one call that nothing overlaps is also modelled as a method, it is proved against those steps.
  `RedisPool` has no such method, because the inner ping can only run when calls overlap. Which of several waiters
  gets the asyncio lock next is left open.
- DeletionRevokesForGood: assumes that no rename away from the deleted name completes between the two critical
  sections; the exact condition, on the token's name when the purge runs, is `DeletionMissesExactlyTheRelabelled`.
- PingedCallReturnsThePublishedPool: "the pool it pinged" takes clients built during the ping to be other ones.
- FailedAttemptsAreApart: assumes that nobody connected in between; `CooldownHoldsExactlyWhileRemembered` has the exact
  condition, on the failure on record.
- MintedTokenIsAcceptedExactly: no other change of the tables comes between the minting and the lookup.
- RevokedTokenIsRefusedExactly: nor between the revocation and the lookup; that a torn refresh leaves the token accepted
  is stated for tokens that all versions before accept.
- A refresh of the token cache reads rows and accounts in one step, while the code looks each row's account up after the
  query; a change of accounts in between is taken as one after the read, which the published refresh records either way.
- A read of the view cache is one step, although the lookup of the entry is awaited.
- ReaderMeetsStandardExactly: lines end in a newline, carriage returns are not line ends; blocks are complete, since the
  standard discards the one in which the stream ends; an explicit type "message" is told apart from the default.
- DeletedNameOwnsExactlyWhatIsGivenLater: owners in other tables, which a rename hands over too, the undoing of a rename
  whose hand-over fails, and the switching of tokens to inactive are not modelled; a failed hand-over leaves the rows.
  The deletion compares owners exactly, the hand-over without case, both as the code does.
- ReadStream: takes decoded text; cutting UTF-8 sequences is the decoder's business. The JSON parser is a parameter
  that yields the four fields the reader looks at, with falsy ones absent.
- DedupeList: values are strings, the empty one for null; the conversion of numbers is not modelled.
- Research: scoring, relevance and intent are parameters; scores are integers; the fetching of candidates and the
  written answer are not modelled.
- MergeWorldAlerts: the classifiers of articles and the cleaning of headlines are parameters; location, severity and
  source of an alert are not modelled.
- Authenticate: bcrypt is a parameter; so is the comparison of hashes in minting.
- First-run setup, password changes, TOTP, the loading of auth.json and the snapshots of sessions.json.
- A failing write of auth.json inside `AuthManager`: the class takes every save to succeed; saves that fail are part of
  `ConfigFile`.
- Letter case and white space outside ASCII for usernames, URLs and titles; string lengths in UTF-16 units.
- SQLite's branch of the owner lock, one global writer reservation, and failures of single statements inside the
  migrations, which the code logs and passes over.
- The migration of memory.json and user_prefs.json that follows the sweep, and all column-adding migrations.
- MediaSurvivesScrubExactlyWhen: reading JSON into content blocks, and composing the line of an attachment reference,
  are parameters. Full-text tokenisation is not modelled.
- Redis-backed and queue-backed paths of the Node server.
- The cache key of the news view lower-cases country and category while the view does not; keys are taken in the
  spelling the view expects.
- Classification tables, scraping, language models, mail, speech, rendering, and request authorisation.
