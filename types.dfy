/** The values the migration runner works on: registered migrations, ledger rows,
    the outcome of a migration action, and the errors the runner returns. */
module Types {

  /** Go's `int32`, the type of the `batch` column. */
  newtype int32 = x: int | -0x8000_0000 <= x < 0x8000_0000

  const MaxInt32: int32 := 0x7fff_ffff
  const MinInt32: int32 := -0x8000_0000

  /** What an Up or Down function returns: nil, or an error with its message. */
  datatype Outcome = Ok | Err(cause: string)

  /** A registered migration. Its Up and Down functions are abstracted to the
      outcome they produce when the runner calls them. */
  datatype Migration = Migration(name: string, up: Outcome, down: Outcome, disableTransaction: bool)

  /** A row of the `migrations` table (the ledger). */
  datatype Entry = Entry(name: string, batch: int32)

  /** The errors the runner returns: the lock is held, or an action failed
      (the message is "name: cause"). */
  datatype Error = AlreadyLocked | Failed(message: string)

  /** A nil or non-nil `error`. */
  datatype Status = Success | Failure(error: Error)

  /** Everything a run reads and writes: the global registry slice, the
      ledger in id order, and the `is_locked` column of the lock row. */
  datatype World = World(registry: seq<Migration>, ledger: seq<Entry>, locked: bool)

  /** The state a run leaves behind and the error it returns. */
  datatype Run = Run(after: World, status: Status)

  /** The Up action when `forward`, else the Down action. */
  function Action(m: Migration, forward: bool): Outcome
  {
    if forward then m.up else m.down
  }

  /** The error text `fmt.Errorf("%s: %s", name, cause)` produces. */
  function Report(name: string, cause: string): string
  {
    name + ": " + cause
  }

  function EntryNames(ledger: seq<Entry>): set<string>
  {
    set e | e in ledger :: e.name
  }

  function MigrationNames(ms: seq<Migration>): set<string>
  {
    set m | m in ms :: m.name
  }

  /** No name occurs twice (the ledger's `name` column is meant to be unique). */
  predicate DistinctEntryNames(ledger: seq<Entry>)
  {
    forall i, j :: 0 <= i < j < |ledger| ==> ledger[i].name != ledger[j].name
  }

  predicate DistinctMigrationNames(ms: seq<Migration>)
  {
    forall i, j :: 0 <= i < j < |ms| ==> ms[i].name != ms[j].name
  }
}
