# go-pg-migrations: the migration engine in Dafny

This project models the engine of the `go-pg-migrations` package: the `migrate`,
`rollback` and `rollbackNamed` runs together with the state they work on.

- **The registry** is the global slice of registered migrations: name, Up, Down,
  and the `DisableTransaction` option.
- **The ledger** is the `migrations` table, read in `id` order. Each row holds a
  name and an `int32` batch.
- **The lock** is the `is_locked` column of the single lock row.

How the Go code maps onto Dafny:

- Up and Down are abstracted to the outcome they produce when the runner calls
  them: `Ok`, or `Err(cause)`.
- The global slice becomes the `Registry` class.
- The two tables become the `Database` class. Its methods are the package's
  persistence helpers.
- Each run is a method on those classes. Each method is proved equal to a pure
  function of the state before the run: `MigrateSpec`, `RollbackSpec` and
  `RollbackNamedSpec` over a `World` value.
- The lemmas state the package's guarantees about those functions:
  - the registry is sorted;
  - only pending migrations are applied, all in one new batch;
  - runs fail fast, with the error `name: cause`;
  - locking order;
  - rollback undoes only the last batch, or only the named migrations;
  - the name list parse round-trips.

The loops of the source stay loops:

- `filterMigrations`: a set-building loop, then a filtering loop.
- `getMigrationsForBatch`.
- The nested loop of `rollbackNamed`.
- The Up loop of `migrate` and the Down loop of the rollbacks.

Each is a `method` proved against the function that specifies it.

Files:

- `types.dfy`: the values (`int32`, `Outcome`, `Migration`, `Entry`, errors, `World`).
- `order.dfy`: Go's `<` on strings, and the sort applied to the registry.
- `migrate.dfy`: the registry, the database helpers, `filterMigrations`, `migrate`.
- `rollback.dfy`: `getMigrationsForBatch`, the name-list parse, `rollback`, `rollbackNamed`.
- `scenarios.dfy`: cases from `rollback_test.go` and a two-migration apply run,
  over arbitrary names.

## Behaviour of the code worth noting

- `rollback` and `rollbackNamed` take the lock **before** checking for an empty
  ledger. A held lock therefore yields `ErrAlreadyLocked` even when nothing has
  ever run.
- `rollbackNamed` also takes and releases the lock when no completed row
  matches the list. It then returns success without running anything.
- Only `migrate` skips the lock when nothing is pending.
- `rollbackNamed` tests for "no such migrations" on the matched ledger rows,
  before they are intersected with the registry. Rows that match but are not
  registered lead to a run of zero Downs, not to the "no such" exit.
- `batch + 1` is `int32` arithmetic, so it wraps at 2147483647.

## Model

| member | source | states |
|---|---|---|
| Migrate.Registry.UnregisterAll | migrate.go:18-20 | the registry becomes empty |
| Migrate.Registry.Register | migrate.go:24-31 | the migration, with its name, Up, Down and `DisableTransaction`, is appended after those already registered |
| Migrate.Database.Completed | migrate.go:98-110 | the completed migrations are exactly the ledger rows, in id order |
| Migrate.Database.AcquireLock | migrate.go:130-150 | a held lock gives `ErrAlreadyLocked`, otherwise success; either way the lock is held afterwards and the ledger is untouched |
| Migrate.Database.ReleaseLock | migrate.go:152-156 | the lock is free afterwards, whatever it was; the ledger is untouched |
| Migrate.Database.LastBatchNumber | migrate.go:158-167 | returns `LastBatch` of the ledger, i.e. `COALESCE(MAX(batch), 0)` |
| Migrate.LastBatch | migrate.go:158-167 | 0 for an empty ledger; otherwise a batch some row has, and no row's batch is above it |
| Migrate.Database.Insert | migrate.go:87-88 | the row is appended to the ledger; the lock is unchanged |
| Migrate.Database.DeleteNamed | rollback.go:59 | every row with that name is deleted, and the other rows keep their order; the lock is unchanged |
| Migrate.FirstFailure | migrate.go:72-93 | the index of the first migration whose action fails: every earlier action succeeds, and the one at the index fails unless it is the end |
| Migrate.FilteredMembership | migrate.go:112-128 | a migration is kept exactly when it is in `all` and whether its name is in the subset equals `wantCompleted` |
| Migrate.FilteredAppend | migrate.go:121-125 | filtering distributes over concatenation, so the order of `all` is kept |
| Migrate.FilteredPartition | migrate.go:112-128 | the completed and uncompleted selections together are a permutation of `all` |
| Migrate.FilteredSorted | migrate.go:121-125 | filtering a sorted slice gives a sorted slice |
| Migrate.FilteredDistinct | migrate.go:121-125 | filtering keeps registered names distinct |
| Migrate.FilterMigrations | migrate.go:112-128 | the map-building loop and the filtering loop return exactly the migrations of `all` whose membership in `subset` equals `wantCompleted`, in order |
| Migrate.PendingEmpty | migrate.go:46-54 | nothing is uncompleted exactly when every registered name is in the ledger |
| Migrate.StampNames | migrate.go:72-93 | the rows recorded for a run carry exactly the names of the migrations run, and distinct names give distinct rows |
| Migrate.InsertDistinct | migrate.go:36-38 | inserting a fresh name into a sorted slice keeps names distinct |
| Migrate.SortDistinct | migrate.go:36-38 | sorting keeps names distinct |
| Migrate.Migrate | migrate.go:33-96 | the run leaves the registry, ledger and lock, and returns the error, that `MigrateSpec` of the state before gives |
| Migrate.ApplyAll | migrate.go:72-93 | the Up loop records each success with the new batch, in order, stops at the first failure with "name: cause", and leaves the lock alone |
| Migrate.MigrateSortsRegistry | migrate.go:36-38 | afterwards the registry is sorted ascending by name and is a permutation of the registry before |
| Migrate.MigrateUpToDate | migrate.go:46-54 | every registered name is in the ledger exactly when migrate succeeds, changes neither the ledger nor the lock, and finds nothing pending |
| Migrate.MigrateIdempotent | migrate.go:33-96 | after a successful migrate every registered name is in the ledger, and a second migrate is a successful no-op |
| Migrate.MigrateAppendsPending | migrate.go:63-93 | on success the ledger gains exactly one row per pending migration, in ascending name order, all with batch `last + 1`, after the existing rows |
| Migrate.StampAscending | migrate.go:72-93 | rows recorded from the sorted pending list are in ascending name order |
| Migrate.MigrateNewBatch | migrate.go:63-68 | when something is recorded and no wrap occurs, the new batch lies above every earlier batch and becomes the last batch |
| Migrate.MigrateFailFast | migrate.go:72-91 | when the k-th pending Up is the first to fail, exactly the first k are recorded, the error is "name: cause" of the k-th, and the lock is released |
| Migrate.MigrateFailFastLeavesRest | migrate.go:72-91 | with distinct registered names, none of the pending migrations from the failing one on is in the ledger afterwards |
| Migrate.MigrateLock | migrate.go:50-61 | with work to do, a held lock gives `ErrAlreadyLocked` and leaves lock and ledger as they were; a free lock is free again on every exit; `ErrAlreadyLocked` only comes from a held lock |
| Migrate.MigrateKeepsNamesDistinct | migrate.go:72-93 | with distinct ledger and registered names, the ledger's names stay distinct |
| Order.BelowIrreflexive | migrate.go:37 | Go's `<` on strings is irreflexive |
| Order.BelowTransitive | migrate.go:37 | Go's `<` on strings is transitive |
| Order.BelowTotal | migrate.go:37 | any two different strings are ordered one way or the other |
| Order.Insert | migrate.go:36-38 | inserting into a sorted slice gives a sorted slice with that element added |
| Order.Sort | migrate.go:36-38 | the result is sorted (ascending, or descending as in `rollback.go`) and is a permutation of the input |
| Rollback.InBatchMembership | rollback.go:146-156 | a row is selected exactly when it is in the ledger and has that batch |
| Rollback.InBatchAppend | rollback.go:149-153 | selecting by batch distributes over concatenation, so ledger order is kept |
| Rollback.MigrationsForBatch | rollback.go:146-156 | the loop returns exactly the rows of that batch, in ledger order |
| Rollback.StripSpaces | rollback.go:81 | the result has no space, and every other character occurs as often as in the input |
| Rollback.StripSpacesIdentity | rollback.go:81 | a string without spaces is unchanged, so stripping is idempotent |
| Rollback.StripSpacesAppend | rollback.go:81 | stripping distributes over concatenation |
| Rollback.Split | rollback.go:82 | there is at least one piece, and no piece contains the separator |
| Rollback.JoinSplit | rollback.go:82 | joining the pieces with the separator gives the input back |
| Rollback.SplitPrefix | rollback.go:82 | a separator-free prefix becomes the start of the first piece |
| Rollback.SplitJoin | rollback.go:82 | separator-free pieces are recovered by splitting their join |
| Rollback.ParseNamesShape | rollback.go:81-82 | no parsed name contains a space or a comma, and joining the names with commas gives the list without its spaces |
| Rollback.CopiesMembership | rollback.go:105-109 | the inner loop appends the row exactly when its name is in the list |
| Rollback.MatchNamedMembership | rollback.go:103-110 | a row is selected exactly when it is completed and its name is in the list |
| Rollback.SelectNamed | rollback.go:101-110 | the nested loop returns `MatchNamed` of the completed rows and the names: each completed row, in order, once per listed occurrence of its name |
| Rollback.WithoutMembership | rollback.go:59 | a row survives deletion by name exactly when it was there and its name is not deleted |
| Rollback.WithoutTwice | rollback.go:59 | deleting one more name after a set of names equals deleting the enlarged set |
| Rollback.WithoutNone | rollback.go:59 | deleting no name changes nothing |
| Rollback.Unwind | rollback.go:46-64 | the Down loop deletes by name the rows of every migration before the first failure, returns "name: cause" of that failure or nil, and leaves the lock alone |
| Rollback.RollbackLast | rollback.go:11-67 | the run leaves the registry, ledger and lock, and returns the error, that `RollbackSpec` of the state before gives |
| Rollback.RollbackNamed | rollback.go:69-144 | the run leaves the registry, ledger and lock, and returns the error, that `RollbackNamedSpec` of the state before gives |
| Rollback.RollbackSortsRegistry | rollback.go:14-16 | both rollbacks leave the registry sorted descending by name, as a permutation of the registry before |
| Rollback.RollbackLockFirst | rollback.go:24-39 | a held lock gives `ErrAlreadyLocked` with the ledger untouched and the lock held, even with an empty ledger; a free lock is free again afterwards; a free lock with an empty ledger gives success and no change |
| Rollback.RevertDeletes | rollback.go:46-64 | afterwards the ledger holds exactly the rows whose names were not undone before the first failure; rows whose names are not in the list to undo always stay |
| Rollback.RevertFailFast | rollback.go:46-64 | when the k-th Down is the first to fail, the error is "name: cause" of the k-th, the lock is released, the first k names are gone from the ledger, and with distinct names the k-th name's rows stay |
| Rollback.RevertSuccess | rollback.go:46-66 | on success every Down succeeded and the ledger is the old ledger without the rows of all undone names |
| Rollback.LastBatchTodoShape | rollback.go:41-42 | the migrations to undo are sorted descending, and a migration is in them exactly when it is registered and some row of the last batch has its name |
| Rollback.RollbackKeepsUnregistered | rollback.go:41-64 | rollback adds no row, and every row whose name has no registered migration stays |
| Rollback.RollbackOnlyLastBatch | rollback.go:41-64 | with distinct ledger names, every row of an earlier batch stays |
| Rollback.RollbackRemovesLastBatch | rollback.go:31-64 | on success, with distinct names and every last-batch row registered, the remaining rows are exactly those not in the last batch, and the last batch number goes down |
| Rollback.LastBatchGone | rollback.go:41-64 | on success, no registered row of the last batch remains |
| Rollback.BatchesBelow | migrate.go:158-167 | when every batch is below a positive bound, the last batch number is below it too |
| Rollback.NamedTodoShape | rollback.go:101-114 | the migrations `rollbackNamed` undoes are sorted descending, and a migration is in them exactly when it is registered, its name is listed, and some completed row has that name |
| Rollback.RollbackNamedSelects | rollback.go:101-135 | named rollback adds no row and deletes only rows that are both listed and registered, in any batch; on success every such row is gone |
| Rollback.RollbackNamedNoMatch | rollback.go:112-143 | when no completed row is named, it runs nothing, keeps the ledger, releases the lock and succeeds |
| Scenarios.ParseTwoNames | rollback_test.go:115 | a list `a, b` of two names without spaces or commas parses to exactly `[a, b]`, as with `"456, 123"` |
| Scenarios.RollbackSortsInReverse | rollback_test.go:28-41 | for names a < b on an empty ledger, rollback reorders `[a, b]` to `[b, a]` and succeeds |
| Scenarios.RollbackDownFails | rollback_test.go:128-142 | a Down that fails on the only last-batch row gives "name: cause" and keeps the row, whatever `DisableTransaction` is |
| Scenarios.MigrateTwoFresh | migrate.go:33-96 | for names a < b, migrating `[b, a]` on an empty ledger records a then b in batch 1, releases the lock, and a second run succeeds and changes neither the ledger nor the lock |

## Left out

- Migration actions: Up and Down are modelled only by the outcome they return. Their effect on the schema is outside the model.
- Transactions: whether an action runs in a transaction (`DisableTransaction`, `RunInTransaction`) does not change its outcome, so the flag is recorded and nothing more. This is why the two transaction tests of `rollback_test.go` reduce to `RollbackDownFails`.
- Database errors: failures of `getCompletedMigrations`, `getLastBatchNumber` and the lock row queries are not modelled. Persistence calls are taken to succeed.
- Ledger write failures: failed ledger inserts and deletes after a successful action (migrate.go:88-91, rollback.go:59-62) are not modelled, for the same reason.
- Lock atomicity: the lock is a boolean. `SELECT ... FOR UPDATE` and cross-process atomicity are not modelled.
- Lock release errors: the error of the deferred `releaseLock` is ignored by the source, and the release always succeeds in the model.
- Output and unused inputs: `CompletedAt` timestamps, the `id` column (kept only as ledger order), every `fmt.Print` message and the unused `directory` parameter are left out.
- Names are sequences of characters, and `Below` compares characters where Go compares bytes. The two orders agree for names that are valid UTF-8. A name that is not valid UTF-8 cannot be represented.
- `sort.Slice` is not stable. The model picks one sorted permutation (insertion order for equal names), and the lemmas rely only on sortedness and permutation.
- Migrate.MigrateNewBatch: proved only when the last batch is below 2147483647. At that value `NextBatch` wraps to -2147483648, as Go's `int32` addition does, and the new batch is not above the others.
- Rollback.RollbackRemovesLastBatch: requires a positive last batch (negative batches arise only after a wrap). It also requires distinct ledger names and every last-batch row registered. Deletion is by name, so a same-named row of an earlier batch would go too, and unregistered rows stay.
- Rollback.RollbackOnlyLastBatch: requires distinct ledger names, because deletion by name also removes rows of earlier batches that share a name. The other guarantees of `rollback` (no row added, unregistered rows kept) are stated without that premise in `RollbackKeepsUnregistered`.
- Rollback.RevertFailFast: the failing migration's rows are stated to stay only when the names to undo are distinct.
- Migrate.MigrateFailFastLeavesRest: requires distinct registered names, because a later duplicate of an applied name would be in the ledger.
- Migrate.MigrateKeepsNamesDistinct: requires distinct names in the ledger and in the registry.
- The scenarios use arbitrary names `a < b` in place of the test literals `"123"` and `"456"`. The database set-up of the tests is not modelled.
