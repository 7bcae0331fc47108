# ServiceSentry: schema, transactions, configuration and limits

A Dafny model of the parts of ServiceSentry that several processes share one database through, with
proofs that nothing is lost on the way.

* **Schema reconciliation.** `Schema` compares a declared table with the one that is there, `Engine`
  has the statements as steps on columns, indexes and rows, `Reconcile` the three branches (create,
  append, rebuild) with every failing statement, and `SchemaConnector` runs them on a mutable table.
  `Convergence`, `DataKept`, `SecondPass` and `ManualIndexes` say where that ends, and
  `ConcurrentReconcile` what happens when many processes do it at once. `MySqlRebuild` is the copy /
  catch up / swap / catch up protocol against other sessions' INSERTs, `MySqlServer` the same
  statement by statement. `AdoptFormerName` moves rows from former table names. `PostgresIds` covers
  sequences and SAVEPOINT fences.
* **Transactions.** `MySqlTransaction` is the connector's `pending`/`explicit` state with a server
  that may reject, deadlock or drop the session at any step; `MySqlConnector` has the methods.
* **Configuration.** `ConfigManager` resolves and splits a config between a table and a file,
  `ConfigFacade` is the manager object, `ConfigWriters` many writers at once (over `Patches`),
  `ConfigFreshness` the cache, `EntitySync` the saves of users and groups.
* **Limits and trees.** `RateLimiter` and `LimiterObject`, with `LimiterWindows` on which windows one
  limiter can serve and `LimiterRetry` on what `retry_after` is worth; `SecretTree`, `ConfigPath`.

Where a statement the code or its comments make is false, the model keeps the code, a lemma names an
input that shows it, and another gives the exact condition:

* a NOT NULL column without default is appended nullable, and the next reconcile can never succeed
  (`AppendConverges`, `UntightenedNeverSettles`);
* `begin()` on a thread without a connection is forgotten by the first statement
  (`AtomicExactlyWhenConnected`), and a swallowed deadlock leaves the second half of a block
  (`SwallowedDeadlock`);
* "never backwards" of `sync_autoincrement` fails on an unused sequence (`NeverBackwardsExactly`);
* a row count that cannot be taken reads as 0, and a full table is dropped
  (`RowsKeptExactly`);
* a save the store refused is forgotten by the command line (`SavedExactlyWhenStored`);
* two windows on one limiter drop hits that count (`FaithfulExactlyWithOneWindow`), and a client that
  waits `retry_after` can be denied again (`DeniedClientComesBack`);
* `get_conf` finds values for paths that are not there (`GreedyFindsWhatIsNotThere`).

`dafny verify dfyconfig.toml` checks the whole project.

## Model

| member | source | states |
|---|---|---|
| `Schema.ScanColumns` | src/lib/db/schema.py:270-295 | the pass over the declared columns finds the missing ones and, of the common ones, each difference in type, and in nullability and default unless the column is a key |
| `Schema.MissingNotTrailing` | src/lib/db/schema.py:308-315 | true exactly when some missing column comes before a present one in the spec |
| `Schema.ScanIndexes` | src/lib/db/schema.py:317-328 | missing indexes by name, changed ones by key columns or uniqueness |
| `Schema.DiffTable` | src/lib/db/schema.py:258-331 | the diff it returns is empty if and only if the table conforms: every declared column and index as declared, in the declared order, under the declared key |
| `Schema.DiffEmptyIffConforms` | src/lib/db/schema.py:248-255 | an empty diff says exactly that the table conforms, for every spec and table |
| `SchemaConnector.Connector.CreateIndexOn` | src/lib/db/base.py:357-364 | it is done exactly when a duplicate is tolerated, or the name is free, the columns are there and the rows unique on them; then the index of that name is the wanted one, or the one that was there; nothing else changes, and nothing at all if it fails |
| `SchemaConnector.Connector.AddColumns` | src/lib/db/base.py:487-498 | the loop over missing columns leaves the table of the specification, also where a statement stops it half-way |
| `SchemaConnector.Connector.ApplyIncremental` | src/lib/db/base.py:481-503 | columns, then dropped indexes, then created ones; the table is the one specified, with or without a failure |
| `SchemaConnector.Connector.RecreateIndexes` | src/lib/db/base.py:580-608 | declared indexes, then each undeclared one that is worth keeping, whose failure is passed over |
| `SchemaConnector.Connector.ApplyRebuild` | src/lib/db/base.py:529-559 | create, copy, drop, rename and re-index: all of it, or the table as it was |
| `SchemaConnector.Connector.ApplyRenames` | src/lib/db/base.py:394-398 | declared renames, decided against the columns present at the start |
| `SchemaConnector.Connector.Reconcile` | src/lib/db/base.py:366-427 | the whole reconcile of an absent or present table is the specified one |
| `Convergence.AppendConverges` | src/lib/db/base.py:481-503 | the in-place branch reaches a conforming table if and only if every missing column is nullable or has a default |
| `Convergence.RebuildConverges` | src/lib/db/base.py:505-559 | a rebuild that returns leaves a conforming table |
| `Convergence.CreateConverges` | src/lib/db/base.py:384-391 | a table created from the spec conforms to it |
| `Convergence.ReconcileConverges` | src/lib/db/base.py:366-427 | after a reconcile that returned, whichever branch ran, the diff is empty, except exactly when a NOT NULL column without default was appended in place |
| `SecondPass.SecondPassChangesNothing` | src/lib/db/base.py:366-427 | reconciling the result again returns and changes nothing |
| `SecondPass.UntightenedNeverSettles` | src/lib/db/base.py:472-473 | where such a column was appended to a table with rows, every further reconcile fails and leaves the table as it is |
| `SecondPass.ReconcileKeepsValid` | src/lib/db/base.py:366-427 | whatever branch runs and wherever it stops, a failed rename included, no column or index is there twice and every row satisfies its columns |
| `SecondPass.ReconcileKeepsCells` | src/lib/db/base.py:393-419 | renames, former indexes and repair together lose no row and no cell: each is under its final column name, a NULL the new constraint forbids having become the default |
| `SecondPass.FailedReconcileKeepsCells` | src/lib/db/base.py:366-427 | a reconcile that did not return, wherever it stopped, lost no row, no column and no cell: every value is unchanged under the name the renames done so far gave it, and nothing but renames was begun unless all of them were done |
| `SecondPass.FormerIndexesGone` | src/lib/db/base.py:400-405 | no former index is left, on a backend that understands the statement |
| `DataKept.AppendRows` | src/lib/db/base.py:487-498 | appending gives every old row the defaults of the missing columns and touches nothing else |
| `DataKept.CopiedRowCarried` | src/lib/db/base.py:514-527 | a copied row keeps every value of every common or undeclared column, NULL replaced by the default only where the column is NOT NULL, and gets the default elsewhere |
| `DataKept.PathsAgree` | src/lib/db/base.py:481-559 | where no rebuild is needed, appending and rebuilding give the same rows |
| `DataKept.RepairCarriesRows` | src/lib/db/base.py:411-419 | both repairs meet the one data specification, row by row |
| `ManualIndexes.ManualIndexKeptExactly` | src/lib/db/base.py:583-608 | a rebuild keeps an undeclared index exactly when it does not repeat a declared uniqueness and can be created again on the rebuilt table |
| `ConcurrentReconcile.NobodyFails` | src/lib/db/base.py:352-425 | any number of processes appending at once, each reading columns and indexes at moments of its own, in every interleaving: none fails, and the columns added are always a prefix of the missing ones in spec order |
| `ConcurrentReconcile.FinishedMeansConforming` | src/lib/db/base.py:481-503 | once one process has finished the diff is empty and the rows are the appended ones, whatever the others still do |
| `ConcurrentReconcile.EveryProcessFinishes` | src/lib/db/mysql.py:262-286 | every process finishes within a bound on its own statements |
| `ConcurrentReconcile.IntolerantLosesTheRace` | src/lib/db/base.py:352-355 | no interleaving of any number of processes makes one fail if and only if duplicates are recognised or no column and no index is missing; two processes suffice to fail |
| `MySqlRebuild.NothingIsOutOfReach` | src/lib/db/mysql.py:153-202 | wherever a rebuild stands or is cut short, under every interleaving with other sessions' INSERTs: before the swap the live table has everything inserted; until the backup is dropped, live rows and backup together do |
| `MySqlRebuild.OnlyBlockedRowsAreMissing` | src/lib/db/mysql.py:174-201 | at the end, with a key to match on, every row ever inserted is in the live table unless a row there has its key or another unique value of it |
| `MySqlRebuild.NoInsertIsLost` | src/lib/db/mysql.py:153-202 | with the primary key the only unique key, every key ever inserted ends in the live table, with the very row unless the key was inserted again after the swap |
| `MySqlRebuild.WithoutKeyAnInsertIsLost` | src/lib/db/mysql.py:234-239 | without a primary key the old table has, an INSERT between copy and swap is lost |
| `MySqlServer.Server.CatchUp` | src/lib/db/mysql.py:174-190 | the first pass is one step: afterwards each live row whose key the copy lacked is in it, converted, and what was there still is; without a key to match on nothing happens, and a broken constraint leaves the original in place |
| `MySqlServer.Server.Swap` | src/lib/db/mysql.py:191-192 | in one step the copy is the live table and the live table the backup, with all its rows to go through if there is a key to match on |
| `MySqlServer.Server.RecoverLate` | src/lib/db/mysql.py:193-195 | the second pass, row by row with other sessions in between: afterwards no row is left to do, and with a key each backup row is in the live table or something there stands in its way |
| `MySqlServer.Server.ApplyRebuild` | src/lib/db/mysql.py:153-202 | the rebuild fails only with the original whole and in place; once swapped it ends and every row ever inserted is kept |
| `AdoptFormerName.Database.AdoptFormer` | src/lib/db/base.py:136-188 | the loop does what is specified and, with truthful counts, conserves the multiset of rows over all the names |
| `AdoptFormerName.AdoptionConservesRows` | src/lib/db/base.py:136-188 | no row is lost or made, other tables are untouched, and every former name is gone or left with its rows beside a table that has rows |
| `AdoptFormerName.SecondCallDoesNothing` | src/lib/db/base.py:136-137 | a second call finds nothing to do |
| `AdoptFormerName.SoleRowsEndUnderTheNewName` | src/lib/db/base.py:152-159 | if exactly one of the tables holds rows, they end under the new name |
| `AdoptFormerName.RowsKeptExactly` | src/lib/db/base.py:152-196 | a count that fails reads as 0; for any list of former names and any set of tables that cannot be counted, every row is kept exactly when, beside the head (the new name, or the first former one present if it is absent), no former table is full and uncountable, nor full and countable while the head is full and uncountable |
| `MySqlTransaction.NoIdleTransaction` | src/lib/db/mysql.py:463-521 | after any calls, failures and drops, catalog reads aside: with neither flag set the session holds no transaction, and writes in a session are flagged |
| `MySqlTransaction.ReconnectLosesNothing` | src/lib/db/mysql.py:128-148 | after any calls and drops a session is replaced only when no accepted write is still owed to the caller (neither committed, rolled back nor reported as failed); while one is owed and the session is gone, every write raises |
| `MySqlTransaction.CommitStoresWhatIsOwed` | src/lib/db/mysql.py:564-566 | a commit that returns has stored every write owed, after any calls and drops |
| `MySqlTransaction.AlwaysPingStoresHalf` | src/lib/db/mysql.py:135-140 | why the ping is skipped inside a transaction: one that always pings replaces the session of every caller that is owed something, and the writes after it are committed without the ones before |
| `MySqlTransaction.CatalogReadStaysOpen` | src/lib/db/mysql.py:311-319 | a catalog read alone leaves an idle transaction open |
| `MySqlTransaction.BlockCommitsWhatSurvived` | src/lib/db/base.py:300-312 | for every body, a block that returns has stored everything that survived to its commit; one that raises stored nothing, unless only the answer to the commit was lost; either way nothing stays open |
| `MySqlTransaction.BlockIsAtomic` | src/lib/db/mysql.py:506-576 | on a thread with its connection, for every body that may swallow errors and every drop: all accepted writes or none |
| `MySqlTransaction.AtomicExactlyWhenConnected` | src/lib/db/mysql.py:128-140 | blocks without deadlock are all or nothing exactly when the thread had its connection at `begin()` and autocommit is off (or that session is dead) |
| `MySqlTransaction.WithoutConnectionHalfIsCommitted` | src/lib/db/mysql.py:129-134 | the first connection of a thread erases `begin()`, and a swallowed error then commits half a block |
| `MySqlTransaction.SwallowedDeadlock` | src/lib/db/mysql.py:490-504 | a block that swallows a deadlock and returns has stored just the writes after it; it is all or nothing exactly when none came before |
| `MySqlConnector.Connector.GetConn` | src/lib/db/mysql.py:128-148 | in mid-transaction the session stays the one it was, alive or not; otherwise it is one that lives with nothing in it, or the call raises and nothing changed |
| `MySqlConnector.Connector.OnFailure` | src/lib/db/mysql.py:490-504 | inside `begin()` a failure changes nothing, outside it nothing is left open and both flags are down; nothing is stored |
| `MySqlConnector.Connector.Execute` | src/lib/db/mysql.py:506-521 | a write that returns is in an open, flagged transaction behind what was there; one that raises outside `begin()` leaves nothing open, earlier writes of the transaction included; it never stores anything unless autocommit does |
| `MySqlConnector.Connector.Fetch` | src/lib/db/mysql.py:523-531 | a read stores nothing, keeps the writes of the transaction it is in, and outside one leaves none open, whether it returns or raises |
| `MySqlConnector.Connector.ReadCatalog` | src/lib/db/mysql.py:311-319 | a catalog read that returns leaves a transaction open whatever the flags say |
| `MySqlConnector.Connector.ExecuteDdl` | src/lib/db/mysql.py:246-260 | DDL that returns has stored exactly what was written before it and leaves nothing open; one that raises has stored all of that or none |
| `MySqlConnector.Connector.Commit` | src/lib/db/mysql.py:564-566 | one that returns has stored exactly the writes of the transaction and leaves nothing open; one that raises has stored nothing, or all of them where only the answer was lost |
| `MySqlConnector.Connector.Rollback` | src/lib/db/mysql.py:568-576 | nothing is stored, nothing left open and both flags are down, whether it returns or raises |
| `MySqlConnector.Connector.InTransaction` | src/lib/db/base.py:300-312 | the context manager around any body, and its all-or-nothing promise |
| `ConfigFacade.FileLeaves` | src/lib/config/resolve.py:37-46 | the two-level leaves of a config, nothing else |
| `ConfigFacade.ResolveConfig` | src/lib/config/resolve.py:49-97 | the file as it is with the DB leaves it lacks, and what that locks; it raises exactly when a DB leaf belongs to a section that is no dict |
| `ConfigFacade.PopLeaves` | src/lib/config/manager.py:72-83 | leaves popped one by one, sections dropped as they empty |
| `ConfigFacade.Manager.ReadConfig` | src/lib/config/manager.py:262-272 | a read returns what the two homes resolve to and remembers it as this thread's baseline |
| `ConfigFacade.Manager.LoadBaseline` | src/lib/config/manager.py:329-340 | this thread's own last read, used up, or the database as it is |
| `ConfigFacade.Manager.WriteConfig` | src/lib/config/manager.py:275-327 | the write stores the patch against the thread's own baseline, or for a thread that never read against the database and the locks as they are, and the rest in the file; it raises, storing nothing, only in the second case and exactly where a read would |
| `ConfigFacade.Manager.WriteAndRead` | src/lib/config/manager.py:262-327 | with nobody else writing, a thread that has read reads its data back exactly when the guard of the law holds of its baseline and the locks that were in force |
| `ConfigManager.WriteThenRead` | src/lib/config/manager.py:275-327 | read after write(data) is data without obsolete leaves, if and only if every DB leaf the write may not touch and data leaves out is obsolete and in no scalar or empty section of data |
| `ConfigManager.WriteBackChangesNothing` | src/lib/config/manager.py:262-327 | write(read()) leaves the effective config as it was, whatever is locked and whatever moves from file to DB |
| `ConfigManager.LeavesOfMerge` | src/lib/config/resolve.py:37-97 | the effective leaves are the file's, and the DB's where the file has none |
| `ConfigWriters.SaveTouchesOnlyEdits` | src/lib/config/manager.py:302-318 | a save writes or deletes a leaf only where it is editable and the data differs from what that very thread was shown, obsolete rows and migrating file leaves apart |
| `ConfigWriters.PatchGivesTheData` | src/lib/config/manager.py:302-318 | the patch on its own baseline gives the data wherever it may be edited |
| `ConfigWriters.NoLostUpdate` | src/lib/config/manager.py:282-297 | over every interleaving of reads, sets and deletes of any number of threads, a leaf none of them edits stays as the table has it |
| `ConfigWriters.SavedEditStays` | src/lib/config/manager.py:282-297 | a saved edit is in the table until somebody edits that leaf |
| `ConfigWriters.SavedDeletionStays` | src/lib/config/manager.py:302-318 | a leaf a save takes out is gone once that save has finished, whatever others who do not edit it did between its two statements, until somebody does |
| `ConfigWriters.DisjointSavesCommute` | src/lib/config/manager.py:302-318 | two saves with disjoint edits leave the same table in every interleaving of their statements |
| `Patches.DisjointWritersCommute` | src/lib/config/manager.py:302-318 | any two schedules of the same writers leave the same table if no key has two writers |
| `ConfigFreshness.ReadsAreFresh` | src/lib/config/manager.py:224-260 | in every run of threads and other processes a read returns the table with every commit made more than STAMP_TTL before it began and every own write counted by then |
| `ConfigFreshness.CacheIsNeverOlderThanItsKey` | src/lib/config/manager.py:239-260 | cached content is never older than the stamp and counter it is filed under, however late a load stores it |
| `EntitySync.DiffGivesAfter` | src/lib/core/entity_sync.py:40-50 | applying the difference to `before` gives `after` |
| `EntitySync.DiffIsAThreeWayMerge` | src/lib/core/entity_sync.py:40-50 | on any other table it changes the differing rows, and only those |
| `EntitySync.UneditedRowsStay` | src/lib/cli/context.py:97-109 | over any run of processes, a row no save edits stays |
| `EntitySync.RowsGoOnlyBySeenDeletes` | src/lib/core/entity_sync.py:40-50 | a row goes only in a save of a process whose snapshot held it |
| `EntitySync.DisjointSavesCommute` | src/lib/cli/context.py:97-109 | processes with disjoint edits reach the same table in whatever order they save |
| `EntitySync.SavedExactlyWhenStored` | src/lib/cli/context.py:97-102 | after a save the table has the edits exactly when the store took them or had them already |
| `EntitySync.RefusedSaveIsForgotten` | src/lib/cli/context.py:100-102 | the snapshot moves on although the store refused: the next save writes nothing |
| `EntitySync.Context.PersistUsers` | src/lib/cli/context.py:97-102 | the save as a method on the snapshot and the store |
| `RateLimiter.AnswersAsTheHistory` | src/lib/security/ratelimit.py:30-106 | with the clock and the start of the window never going back, every call is answered as by a counter over the whole history |
| `RateLimiter.OneWindowIsInOrder` | src/lib/security/ratelimit.py:42-43 | one window and a clock that does not go back suffice for that |
| `LimiterWindows.FaithfulExactlyWithOneWindow` | src/lib/security/ratelimit.py:30-106 | every run over a set of windows with a clock that does not go back is answered as by the full history if and only if no window is shorter than one above zero; of windows above zero, if and only if there is one at most |
| `LimiterWindows.FaithfulExactlyWithOneWindowForAllKeys` | src/lib/security/ratelimit.py:98-106 | the same with a window for each key, through the collection one key's call makes of the others |
| `LimiterWindows.AnyTwoWindowsForget` | src/lib/security/ratelimit.py:42-43 | for any two windows, the longer above zero, a run of three hits on one key that allows one too many |
| `LimiterRetry.DeniedClientComesBack` | src/lib/security/ratelimit.py:42-55 | over any run in order, a denied client that waits as told is let through exactly when the limit-th newest of its counted hits has left the window by then; the oldest has |
| `LimiterRetry.WaitingMayNotSuffice` | src/lib/security/ratelimit.py:51-54 | a denied client that waits as told can be denied again |
| `RateLimiter.RateBound` | src/lib/security/ratelimit.py:42-55 | over a whole run at most `limit` hits of a key are allowed in any half-open interval as long as the window |
| `RateLimiter.RetryCoversTheWindow` | src/lib/security/ratelimit.py:53 | the wait told is longer than the oldest counted hit needs to expire, by no more than a second |
| `LimiterObject.Limiter.RecordHit` | src/lib/security/ratelimit.py:30-55 | one hit on the buckets, popping and collecting in place |
| `LimiterObject.Limiter.PeekAt` | src/lib/security/ratelimit.py:57-73 | a look that records nothing |
| `LimiterObject.Limiter.ForgetTag` | src/lib/security/ratelimit.py:80-96 | drops exactly the hits of a tag |
| `LimiterObject.Limiter.Collect` | src/lib/security/ratelimit.py:98-106 | every bucket whose last hit is out of the calling window goes |
| `LimiterObject.Serve` | src/lib/security/ratelimit.py:17-106 | a fresh limiter used in order gives the answers of the plain history |
| `SecretTree.RestoreUndoesMask` | src/lib/security/secret_manager.py:126-172 | restoring a masked copy against the original gives the original |
| `SecretTree.MaskHidesSecrets` | src/lib/security/secret_manager.py:126-138 | a masked tree has nothing set under a sensitive name, at any depth |
| `SecretTree.RestoredLeaf` | src/lib/security/secret_manager.py:141-172 | any submitted tree: a blank secret comes back from the same place, every other leaf stays as submitted |
| `SecretTree.DecryptUndoesEncrypt` | src/lib/security/secret_manager.py:90-205 | decrypt after encrypt is the identity if and only if no string in the tree reads as the token of something else |
| `SecretTree.EncryptTwice` | src/lib/security/secret_manager.py:175-205 | encrypting again changes nothing |
| `SecretTree.EncryptSeals` | src/lib/security/secret_manager.py:175-205 | no set secret is stored in the clear when the cipher works |
| `SecretTree.RestoreSensitive` | src/lib/security/secret_manager.py:141-172 | the loops over items and keys |
| `SecretTree.DecryptAll` | src/lib/security/secret_manager.py:90-123 | the loops that replace values in turn |
| `ConfigPath.SetThenThere` | src/lib/config/config_control.py:306-364 | what was set is there under strict lookup |
| `ConfigPath.SetElsewhereUnchanged` | src/lib/config/config_control.py:143-154 | every path neither above nor below finds what it found before, also where a scalar was replaced |
| `ConfigPath.SetTwice` | src/lib/config/config_control.py:143-154 | setting twice is setting the second time |
| `ConfigPath.GreedyFindsWhatIsThere` | src/lib/config/config_control.py:206-221 | get_conf agrees with strict lookup wherever that finds something |
| `ConfigPath.GreedyIsStrictOnWhatItFollowed` | src/lib/config/config_control.py:206-221 | its answer is what is strictly at the segments it did not skip, and there is one exactly when the last segment is found where the search stands |
| `ConfigPath.GreedyFindsWhatIsNotThere` | src/lib/config/config_control.py:218-221 | it can find a value for a path that is not there |
| `ConfigPath.UpdateInPlace` | src/lib/config/config_control.py:143-154 | the merge loop |
| `ConfigPath.Control.Set` | src/lib/config/config_control.py:306-364 | set_conf, with both laws as its promise |
| `ConfigPath.Control.Exists` | src/lib/config/config_control.py:287-304 | true exactly when the strict lookup finds something |
| `ConfigPath.Control.Get` | src/lib/config/config_control.py:202-242 | the value found, or the default for nothing and for null |
| `ConfigPath.Control.SetAndGet` | src/lib/config/config_control.py:202-364 | what is set, neither null nor a dict, is read back |
| `PostgresIds.NextIsAboveTheTable` | src/lib/db/postgresql.py:280-292 | after a sync the next id is above every id in the table |
| `PostgresIds.NeverBackwardsExactly` | src/lib/db/postgresql.py:282-292 | the sequence does not go back exactly when it was used since it was last set, or the table reaches as far |
| `PostgresIds.SyncIsSafeExactly` | src/lib/db/postgresql.py:280-292 | a sync keeps the sequence above every id handed out exactly when it was used since it was last set, or all of those are within what the table still holds |
| `PostgresIds.IdsAreNeverReissued` | src/lib/db/postgresql.py:256-292 | over any life, deletes included, the next id stays above every id handed out, and so new, exactly when every sync was safe |
| `PostgresIds.SecondSyncReissues` | src/lib/db/postgresql.py:289-292 | a delete and two syncs in a row hand out an id again |
| `PostgresIds.Table.SyncAutoincrement` | src/lib/db/postgresql.py:269-292 | the loop over the columns |
| `PostgresIds.FencedKeepsTheRest` | src/lib/db/postgresql.py:416-430 | whichever optional statements fail, the transaction commits what came before and exactly those that work |
| `PostgresIds.UnfencedLosesAll` | src/lib/db/base.py:567-578 | without the fence it commits all exactly when none fails, else nothing |
| `PostgresIds.Session.RecreateExtras` | src/lib/db/base.py:601-608 | the loop over the undeclared indexes |

## Left out

- SQL text, identifier quoting, and the normalisers `canonical_type`, `canonical_default`, `fold_spec`: types, defaults and names are taken as canonical, and introspection as faithful.
- The bounded VARCHAR that MySQL gives an indexed TEXT column, collation and LONGTEXT widening.
- MySQL listing the index of an inline UNIQUE as an extra index, and SQLite accepting NULL in a non-integer primary key.
- Renames that land on an undeclared column, or chain: covered for what happens to rows, not for settling in a second pass (`SecondPass.HistorySettles`).
- The advisory lock around a reconcile: the concurrent theorems do without it, and for an append-only diff; a concurrent rebuild or changed index needs the lock.
- `UPDATE` and `DELETE` by other sessions during a MySQL rebuild, which the code does not replay; a process that dies after the swap leaves the backup for a later rebuild to drop (`NothingIsOutOfReach` says the rows are in it until then).
- The MySQL rebuild's index creation after the second pass; a failure there is a run that stops with the backup in place.
- MySqlServer.Server.RecoverLate: places row by row what the server does in one statement, with other sessions in every gap; more interleavings than the server allows.
- PostgreSQL's and SQLite's own reconnecting, `iter_query`, maintenance statements.
- COMMIT and ROLLBACK that fail with the transaction still open on a live session: taken not to happen.
- ConfigManager.Path: a path is a pair, so a dict section's name has no '|' in it.
- Python's `1 == True`: a change from one to the other is not seen by the write's comparison; values are compared as distinct here.
- Environment overrides and registry defaults in `resolve_config`: the manager passes neither.
- The file as a second shared home: it is written whole, so two processes' file parts are last-writer-wins; `ConfigWriters` is about the table.
- ConfigFreshness.ReadsAreFresh: the database side only (the file is read before it is stamped), with atomic counter increments, probes that succeed and writers that bump the counter.
- The cipher's randomness: encryption is a function of the string within one call.
- In-place mutation of nested dicts and lists: the loops are kept, each level being a value; aliasing between nested containers is not modelled.
- PostgresIds.Table.SyncAutoincrement: which columns the catalog lists as generated is given.
- `find_key` made only of separators, which raises in `set_conf`; and `set_conf` of a dict, which merges (`ConfigPath.SetChild` says how).
- RateLimiter.AnswersAsTheHistory: threads that read the clock before taking the lock can call out of order; calls are taken in the order of their clock.
- The leader lease, command queue, heartbeat, web admin, notification and check modules.
