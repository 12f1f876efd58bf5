/** Registration, the lock protocol, the diff against the ledger, and the
    forward run (`migrate`) that applies every pending migration in one batch. */
module Migrate {
  import opened Types
  import opened Order

  // ---------------------------------------------------------------------------
  // State: the global registry slice and the two tables
  // ---------------------------------------------------------------------------

  /** The package-level `migrations` slice. */
  class Registry {
    var migrations: seq<Migration>

    constructor ()
      ensures migrations == []
    {
      migrations := [];
    }

    /** `UnregisterAll`: drops every registered migration. */
    method UnregisterAll()
      modifies this
      ensures migrations == []
    {
      migrations := [];
    }

    /** `Register`: appends one migration at the end; nothing is checked. */
    method Register(name: string, up: Outcome, down: Outcome, disableTransaction: bool)
      modifies this
      ensures migrations == old(migrations) + [Migration(name, up, down, disableTransaction)]
    {
      migrations := migrations + [Migration(name, up, down, disableTransaction)];
    }
  }

  /** The `migrations` table, its rows in id order, and the `is_locked`
      column of the single `migrations_lock` row. */
  class Database {
    var ledger: seq<Entry>
    var locked: bool

    constructor (ledger: seq<Entry>, locked: bool)
      ensures this.ledger == ledger && this.locked == locked
    {
      this.ledger := ledger;
      this.locked := locked;
    }

    /** `getCompletedMigrations`: every ledger row, ordered by id. */
    method Completed() returns (completed: seq<Entry>)
      ensures completed == ledger
    {
      completed := ledger;
    }

    /** `acquireLock`: fails with ErrAlreadyLocked when the lock is held and
        leaves it held; otherwise takes it. */
    method AcquireLock() returns (status: Status)
      modifies this
      ensures ledger == old(ledger) && locked
      ensures status == if old(locked) then Failure(AlreadyLocked) else Success
    {
      if locked {
        return Failure(AlreadyLocked);
      }
      locked := true;
      status := Success;
    }

    /** `releaseLock`: frees the lock unconditionally. */
    method ReleaseLock()
      modifies this
      ensures ledger == old(ledger) && !locked
    {
      locked := false;
    }

    /** `getLastBatchNumber`: `COALESCE(MAX(batch), 0)`. */
    method LastBatchNumber() returns (batch: int32)
      ensures batch == LastBatch(ledger)
    {
      batch := LastBatch(ledger);
    }

    /** Inserts a row; ids grow, so it lands at the end. */
    method Insert(e: Entry)
      modifies this
      ensures ledger == old(ledger) + [e] && locked == old(locked)
    {
      ledger := ledger + [e];
    }

    /** `DELETE ... WHERE name = ?`: removes every row with that name. */
    method DeleteNamed(name: string)
      modifies this
      ensures ledger == Without(old(ledger), {name}) && locked == old(locked)
    {
      ledger := Without(ledger, {name});
    }
  }

  // ---------------------------------------------------------------------------
  // Pure helpers
  // ---------------------------------------------------------------------------

  /** The migrations of `all` whose name is in `names` exactly when `want`
      holds, in the order of `all`. */
  function Filtered(all: seq<Migration>, names: set<string>, want: bool): seq<Migration>
  {
    if all == [] then []
    else
      var last := all[|all| - 1];
      Filtered(all[..|all| - 1], names, want) + (if (last.name in names) == want then [last] else [])
  }

  /** The ledger rows whose name is not in `names`, in ledger order. */
  function Without(ledger: seq<Entry>, names: set<string>): seq<Entry>
  {
    if ledger == [] then []
    else
      var last := ledger[|ledger| - 1];
      Without(ledger[..|ledger| - 1], names) + (if last.name in names then [] else [last])
  }

  /** The largest batch in the ledger, or 0 when the ledger is empty. */
  function LastBatch(ledger: seq<Entry>): (b: int32)
    ensures ledger == [] ==> b == 0
    ensures ledger != [] ==> exists i :: 0 <= i < |ledger| && ledger[i].batch == b
    ensures forall i :: 0 <= i < |ledger| ==> ledger[i].batch <= b
  {
    if ledger == [] then 0
    else if |ledger| == 1 then ledger[0].batch
    else
      var rest := LastBatch(ledger[1..]);
      assert forall i :: 1 <= i < |ledger| ==> ledger[i] == ledger[1..][i - 1];
      if ledger[0].batch < rest then rest else ledger[0].batch
  }

  /** `batch + 1` on an int32, wrapping past the largest value as Go does. */
  function NextBatch(last: int32): int32
  {
    if last == MaxInt32 then MinInt32 else last + 1
  }

  /** The position of the first migration whose action fails, or the length
      when every action succeeds. */
  function FirstFailure(ms: seq<Migration>, forward: bool): (k: nat)
    ensures k <= |ms|
    ensures forall j :: 0 <= j < k ==> Action(ms[j], forward).Ok?
    ensures k < |ms| ==> Action(ms[k], forward).Err?
  {
    if ms == [] || Action(ms[0], forward).Err? then 0
    else 1 + FirstFailure(ms[1..], forward)
  }

  /** The error a run over `ms` returns: nil when every action succeeds,
      else "name: cause" of the first that fails. */
  function RunStatus(ms: seq<Migration>, forward: bool): Status
  {
    var k := FirstFailure(ms, forward);
    if k == |ms| then Success else Failure(Failed(Report(ms[k].name, Action(ms[k], forward).cause)))
  }

  /** The ledger rows recorded for `ms`, all in one batch. */
  function Stamp(ms: seq<Migration>, batch: int32): seq<Entry>
  {
    seq(|ms|, i requires 0 <= i < |ms| => Entry(ms[i].name, batch))
  }

  /** The registered migrations that are not in the ledger yet. */
  function Pending(registry: seq<Migration>, ledger: seq<Entry>): seq<Migration>
  {
    Filtered(registry, EntryNames(ledger), false)
  }

  // ---------------------------------------------------------------------------
  // Properties of the helpers
  // ---------------------------------------------------------------------------

  /** A migration is kept exactly when it is in `all` and its name's
      membership in `names` agrees with `want`. */
  lemma {:induction false} FilteredMembership(all: seq<Migration>, names: set<string>, want: bool, m: Migration)
    ensures m in Filtered(all, names, want) <==> m in all && (m.name in names) == want
  {
    if all != [] {
      var init := all[..|all| - 1];
      assert all == init + [all[|all| - 1]];
      FilteredMembership(init, names, want, m);
    }
  }

  /** Filtering distributes over concatenation: the relative order is kept. */
  lemma {:induction false} FilteredAppend(a: seq<Migration>, b: seq<Migration>, names: set<string>, want: bool)
    ensures Filtered(a + b, names, want) == Filtered(a, names, want) + Filtered(b, names, want)
  {
    if b != [] {
      var init := b[..|b| - 1];
      assert (a + b)[..|a + b| - 1] == a + init;
      FilteredAppend(a, init, names, want);
    } else {
      assert a + b == a;
    }
  }

  /** The kept and the dropped migrations together are exactly `all`. */
  lemma {:induction false} FilteredPartition(all: seq<Migration>, names: set<string>)
    ensures multiset(Filtered(all, names, true)) + multiset(Filtered(all, names, false)) == multiset(all)
  {
    if all != [] {
      var init := all[..|all| - 1];
      assert all == init + [all[|all| - 1]];
      FilteredPartition(init, names);
    }
  }

  /** Filtering a sorted slice gives a sorted slice, in either direction. */
  lemma {:induction false} FilteredSorted(all: seq<Migration>, names: set<string>, want: bool, ascending: bool)
    requires Sorted(all, ascending)
    ensures Sorted(Filtered(all, names, want), ascending)
  {
    if all != [] {
      var init := all[..|all| - 1];
      var last := all[|all| - 1];
      assert Sorted(init, ascending);
      FilteredSorted(init, names, want, ascending);
      var f := Filtered(init, names, want);
      forall i | 0 <= i < |f|
        ensures Precedes(f[i], last, ascending)
      {
        FilteredMembership(init, names, want, f[i]);
        var j :| 0 <= j < |init| && init[j] == f[i];
      }
    }
  }

  /** Distinct names stay distinct under filtering. */
  lemma {:induction false} FilteredDistinct(all: seq<Migration>, names: set<string>, want: bool)
    requires DistinctMigrationNames(all)
    ensures DistinctMigrationNames(Filtered(all, names, want))
  {
    if all != [] {
      var init := all[..|all| - 1];
      var last := all[|all| - 1];
      FilteredDistinct(init, names, want);
      var f := Filtered(init, names, want);
      forall i | 0 <= i < |f|
        ensures f[i].name != last.name
      {
        FilteredMembership(init, names, want, f[i]);
        var j :| 0 <= j < |init| && init[j] == f[i];
      }
    }
  }

  lemma {:induction false} InsertDistinct(m: Migration, s: seq<Migration>, ascending: bool)
    requires Sorted(s, ascending) && DistinctMigrationNames(s) && m.name !in MigrationNames(s)
    ensures DistinctMigrationNames(Insert(m, s, ascending))
  {
    if s == [] {
    } else if Precedes(m, s[0], ascending) {
      HeadDistinct(m, s);
    } else {
      var tail := s[1..];
      assert MigrationNames(tail) <= MigrationNames(s);
      assert DistinctMigrationNames(tail);
      InsertDistinct(m, tail, ascending);
      var rest := Insert(m, tail, ascending);
      HeadNotInserted(m, s, rest);
      HeadDistinct(s[0], rest);
    }
  }

  /** The head of `s` has a name that neither `m` nor the rest of `s` has. */
  lemma HeadNotInserted(m: Migration, s: seq<Migration>, rest: seq<Migration>)
    requires s != [] && DistinctMigrationNames(s) && m.name !in MigrationNames(s)
    requires multiset(rest) == multiset(s[1..]) + multiset{m}
    ensures s[0].name !in MigrationNames(rest)
  {
    forall x | x in rest
      ensures x.name != s[0].name
    {
      assert x in multiset(rest);
      if x != m {
        assert x in multiset(s[1..]);
        var j :| 0 <= j < |s[1..]| && s[1..][j] == x;
        assert s[j + 1] == x;
      }
    }
  }

  /** Putting a fresh name in front keeps names distinct. */
  lemma HeadDistinct(m: Migration, s: seq<Migration>)
    requires DistinctMigrationNames(s) && m.name !in MigrationNames(s)
    ensures DistinctMigrationNames([m] + s)
  {
    var r := [m] + s;
    forall i, j | 0 <= i < j < |r|
      ensures r[i].name != r[j].name
    {
      assert r[j] == s[j - 1];
      if i > 0 {
        assert r[i] == s[i - 1];
      } else {
        assert s[j - 1] in s;
      }
    }
  }

  /** Sorting keeps names distinct. */
  lemma {:induction false} SortDistinct(s: seq<Migration>, ascending: bool)
    requires DistinctMigrationNames(s)
    ensures DistinctMigrationNames(Sort(s, ascending))
  {
    if s != [] {
      assert s == [s[0]] + s[1..];
      SortDistinct(s[1..], ascending);
      SameNames(s[1..], Sort(s[1..], ascending));
      InsertDistinct(s[0], Sort(s[1..], ascending), ascending);
    }
  }

  /** Nothing is pending exactly when every registered name is in the ledger. */
  lemma PendingEmpty(registry: seq<Migration>, ledger: seq<Entry>)
    ensures Pending(registry, ledger) == [] <==> MigrationNames(registry) <= EntryNames(ledger)
  {
    var names := EntryNames(ledger);
    if Pending(registry, ledger) == [] {
      forall n | n in MigrationNames(registry)
        ensures n in names
      {
        var m :| m in registry && m.name == n;
        FilteredMembership(registry, names, false, m);
      }
    } else {
      var m := Pending(registry, ledger)[0];
      FilteredMembership(registry, names, false, m);
      assert m.name in MigrationNames(registry);
    }
  }

  /** The recorded rows carry the names of `ms`, in order. */
  lemma StampNames(ms: seq<Migration>, batch: int32)
    ensures EntryNames(Stamp(ms, batch)) == MigrationNames(ms)
    ensures DistinctMigrationNames(ms) ==> DistinctEntryNames(Stamp(ms, batch))
  {
    var st := Stamp(ms, batch);
    forall n | n in MigrationNames(ms)
      ensures n in EntryNames(st)
    {
      var i :| 0 <= i < |ms| && ms[i].name == n;
      assert st[i] in st;
    }
  }

  // ---------------------------------------------------------------------------
  // The filter loop
  // ---------------------------------------------------------------------------

  /** `filterMigrations`: builds a name set from `subset`, then keeps the
      migrations of `all` whose membership equals `wantCompleted`. */
  method FilterMigrations(all: seq<Migration>, subset: seq<Entry>, wantCompleted: bool) returns (d: seq<Migration>)
    ensures d == Filtered(all, EntryNames(subset), wantCompleted)
  {
    var subsetMap: map<string, bool> := map[];
    for i := 0 to |subset|
      invariant subsetMap.Keys == EntryNames(subset[..i])
      invariant forall n :: n in subsetMap ==> subsetMap[n]
    {
      assert subset[..i + 1] == subset[..i] + [subset[i]];
      subsetMap := subsetMap[subset[i].name := true];
    }
    assert subset[..|subset|] == subset;
    d := [];
    for i := 0 to |all|
      invariant d == Filtered(all[..i], subsetMap.Keys, wantCompleted)
    {
      var completed := if all[i].name in subsetMap then subsetMap[all[i].name] else false;
      assert all[..i + 1][..i] == all[..i];
      if completed == wantCompleted {
        d := d + [all[i]];
      }
    }
    assert all[..|all|] == all;
  }

  // ---------------------------------------------------------------------------
  // migrate
  // ---------------------------------------------------------------------------

  /** What `migrate` does to the world: sort the registry ascending; with
      nothing pending return at once; otherwise take the lock, run each
      pending Up in order under batch `last + 1`, record each success, stop
      at the first failure, and release the lock. */
  function MigrateSpec(w: World): Run
  {
    var registry := Sort(w.registry, true);
    var pending := Pending(registry, w.ledger);
    if pending == [] then Run(w.(registry := registry), Success)
    else if w.locked then Run(w.(registry := registry), Failure(AlreadyLocked))
    else
      var batch := NextBatch(LastBatch(w.ledger));
      var k := FirstFailure(pending, true);
      Run(World(registry, w.ledger + Stamp(pending[..k], batch), false), RunStatus(pending, true))
  }

  /** `migrate`. */
  method Migrate(reg: Registry, db: Database) returns (status: Status)
    modifies reg, db
    ensures Run(World(reg.migrations, db.ledger, db.locked), status)
         == MigrateSpec(World(old(reg.migrations), old(db.ledger), old(db.locked)))
  {
    ghost var w := World(reg.migrations, db.ledger, db.locked);
    reg.migrations := Sort(reg.migrations, true);
    var completed := db.Completed();
    var uncompleted := FilterMigrations(reg.migrations, completed, false);
    assert uncompleted == Pending(reg.migrations, w.ledger);
    if |uncompleted| == 0 {
      return Success;
    }
    status := db.AcquireLock();
    if status.Failure? {
      return;
    }
    var batch := db.LastBatchNumber();
    batch := NextBatch(batch);
    status := ApplyAll(db, uncompleted, batch);
    db.ReleaseLock();
  }

  /** The loop of `migrate`: runs each Up in order, records each success in
      `batch`, and stops at the first failure. Whether an Up runs inside a
      transaction (DisableTransaction) does not change its outcome here. */
  method ApplyAll(db: Database, pending: seq<Migration>, batch: int32) returns (status: Status)
    modifies db
    ensures db.ledger == old(db.ledger) + Stamp(pending[..FirstFailure(pending, true)], batch)
    ensures db.locked == old(db.locked)
    ensures status == RunStatus(pending, true)
  {
    ghost var k := FirstFailure(pending, true);
    var i := 0;
    while i < |pending|
      invariant 0 <= i <= k
      invariant db.locked == old(db.locked)
      invariant db.ledger == old(db.ledger) + Stamp(pending[..i], batch)
    {
      var m := pending[i];
      if m.up.Err? {
        return Failure(Failed(Report(m.name, m.up.cause)));
      }
      assert Stamp(pending[..i + 1], batch) == Stamp(pending[..i], batch) + [Entry(m.name, batch)];
      db.Insert(Entry(m.name, batch));
      i := i + 1;
    }
    assert pending[..|pending|] == pending;
    status := Success;
  }

  // ---------------------------------------------------------------------------
  // Properties of migrate
  // ---------------------------------------------------------------------------

  /** The registry ends sorted ascending by name and holds the same migrations. */
  lemma MigrateSortsRegistry(w: World)
    ensures Sorted(MigrateSpec(w).after.registry, true)
    ensures multiset(MigrateSpec(w).after.registry) == multiset(w.registry)
  {
  }

  /** When every registered name is already in the ledger, migrate succeeds
      and touches neither the ledger nor the lock; otherwise it does not
      return early. */
  lemma MigrateUpToDate(w: World)
    ensures var r := MigrateSpec(w);
      MigrationNames(w.registry) <= EntryNames(w.ledger)
      <==> r.status == Success && r.after.ledger == w.ledger && r.after.locked == w.locked
           && Pending(r.after.registry, w.ledger) == []
  {
    var registry := Sort(w.registry, true);
    SameNames(w.registry, registry);
    PendingEmpty(registry, w.ledger);
  }

  /** After a successful migrate, every registered name is in the ledger, so
      a second migrate straight away succeeds and changes neither table. */
  lemma MigrateIdempotent(w: World)
    requires MigrateSpec(w).status == Success
    ensures var w' := MigrateSpec(w).after;
      MigrationNames(w'.registry) <= EntryNames(w'.ledger)
      && MigrateSpec(w') == Run(w'.(registry := Sort(w'.registry, true)), Success)
  {
    var registry := Sort(w.registry, true);
    var pending := Pending(registry, w.ledger);
    var w' := MigrateSpec(w).after;
    PendingEmpty(registry, w.ledger);
    if pending != [] {
      var batch := NextBatch(LastBatch(w.ledger));
      assert pending[..|pending|] == pending;
      assert w'.ledger == w.ledger + Stamp(pending, batch);
      StampNames(pending, batch);
      forall n | n in MigrationNames(registry)
        ensures n in EntryNames(w'.ledger)
      {
        var m :| m in registry && m.name == n;
        FilteredMembership(registry, EntryNames(w.ledger), false, m);
        if n !in EntryNames(w.ledger) {
          assert m in pending;
          assert n in EntryNames(Stamp(pending, batch));
        }
      }
    }
    var registry' := Sort(w'.registry, true);
    SameNames(w'.registry, registry');
    PendingEmpty(registry', w'.ledger);
  }

  /** Rows whose names never decrease from one to the next. */
  predicate NamesAscending(rows: seq<Entry>)
  {
    forall i, j :: 0 <= i < j < |rows| ==> !Below(rows[j].name, rows[i].name)
  }

  /** On success the ledger gains one row per pending migration, in
      ascending name order, all in the batch after the last one. */
  lemma MigrateAppendsPending(w: World)
    requires MigrateSpec(w).status == Success
    ensures var pending := Pending(Sort(w.registry, true), w.ledger);
      var batch := NextBatch(LastBatch(w.ledger));
      && MigrateSpec(w).after.ledger == w.ledger + Stamp(pending, batch)
      && NamesAscending(Stamp(pending, batch))
  {
    var registry := Sort(w.registry, true);
    var pending := Pending(registry, w.ledger);
    var batch := NextBatch(LastBatch(w.ledger));
    assert MigrateSpec(w).after.ledger == w.ledger + Stamp(pending, batch) by {
      assert pending[..|pending|] == pending;
    }
    FilteredSorted(registry, EntryNames(w.ledger), false, true);
    StampAscending(pending, batch);
  }

  /** Rows stamped from an ascending slice are in ascending name order. */
  lemma StampAscending(ms: seq<Migration>, batch: int32)
    requires Sorted(ms, true)
    ensures NamesAscending(Stamp(ms, batch))
  {
    var added := Stamp(ms, batch);
    forall i, j | 0 <= i < j < |added|
      ensures !Below(added[j].name, added[i].name)
    {
      assert Precedes(ms[i], ms[j], true);
    }
  }

  /** The batch of a run that records something lies above every earlier
      batch and becomes the last batch, unless `last + 1` wraps. */
  lemma MigrateNewBatch(w: World)
    requires MigrateSpec(w).status == Success
    requires Pending(Sort(w.registry, true), w.ledger) != []
    requires LastBatch(w.ledger) < MaxInt32
    ensures var batch := NextBatch(LastBatch(w.ledger));
      && (forall i :: 0 <= i < |w.ledger| ==> w.ledger[i].batch < batch)
      && LastBatch(MigrateSpec(w).after.ledger) == batch
  {
    var after := MigrateSpec(w).after.ledger;
    var batch := NextBatch(LastBatch(w.ledger));
    MigrateAppendsPending(w);
    assert after[|w.ledger|].batch == batch;
    forall i | 0 <= i < |after|
      ensures after[i].batch <= batch
    {
      if i < |w.ledger| {
        assert after[i] == w.ledger[i];
      }
    }
  }

  /** Fail-fast: when the k-th pending Up is the first to fail, the first k
      are recorded, the error names the k-th, and the lock is released. */
  lemma MigrateFailFast(w: World, k: nat)
    requires !w.locked
    requires var pending := Pending(Sort(w.registry, true), w.ledger);
      k < |pending| && pending[k].up.Err? && forall j :: 0 <= j < k ==> pending[j].up.Ok?
    ensures var pending := Pending(Sort(w.registry, true), w.ledger);
      var r := MigrateSpec(w);
      && r.status == Failure(Failed(Report(pending[k].name, pending[k].up.cause)))
      && r.after.ledger == w.ledger + Stamp(pending[..k], NextBatch(LastBatch(w.ledger)))
      && !r.after.locked
  {
    var pending := Pending(Sort(w.registry, true), w.ledger);
    assert FirstFailure(pending, true) == k;
  }

  /** With distinct registered names, none of the migrations from the
      failing one on is in the ledger after a failed migrate. */
  lemma MigrateFailFastLeavesRest(w: World, k: nat)
    requires !w.locked && DistinctMigrationNames(w.registry)
    requires var pending := Pending(Sort(w.registry, true), w.ledger);
      k < |pending| && pending[k].up.Err? && forall j :: 0 <= j < k ==> pending[j].up.Ok?
    ensures var pending := Pending(Sort(w.registry, true), w.ledger);
      forall j :: k <= j < |pending| ==> pending[j].name !in EntryNames(MigrateSpec(w).after.ledger)
  {
    var registry := Sort(w.registry, true);
    var pending := Pending(registry, w.ledger);
    var batch := NextBatch(LastBatch(w.ledger));
    MigrateFailFast(w, k);
    SortDistinct(w.registry, true);
    FilteredDistinct(registry, EntryNames(w.ledger), false);
    StampNames(pending[..k], batch);
    EntryNamesAppend(w.ledger, Stamp(pending[..k], batch));
    forall j | k <= j < |pending|
      ensures pending[j].name !in EntryNames(MigrateSpec(w).after.ledger)
    {
      FilteredMembership(registry, EntryNames(w.ledger), false, pending[j]);
    }
  }

  lemma EntryNamesAppend(a: seq<Entry>, b: seq<Entry>)
    ensures EntryNames(a + b) == EntryNames(a) + EntryNames(b)
  {
    forall n | n in EntryNames(a + b)
      ensures n in EntryNames(a) + EntryNames(b)
    {
      var e :| e in a + b && e.name == n;
    }
  }

  /** The lock protocol: with work to do, a held lock yields ErrAlreadyLocked
      and is left held with the ledger untouched; a free lock is free again
      on every exit. */
  lemma MigrateLock(w: World)
    ensures var r := MigrateSpec(w);
      && (w.locked && Pending(Sort(w.registry, true), w.ledger) != [] ==>
            r.status == Failure(AlreadyLocked) && r.after.ledger == w.ledger && r.after.locked)
      && (!w.locked ==> !r.after.locked)
      && (r.status == Failure(AlreadyLocked) ==> w.locked && r.after.ledger == w.ledger)
  {
  }

  /** With distinct registered names, migrate keeps the ledger's names
      distinct. */
  lemma MigrateKeepsNamesDistinct(w: World)
    requires DistinctEntryNames(w.ledger) && DistinctMigrationNames(w.registry)
    ensures DistinctEntryNames(MigrateSpec(w).after.ledger)
  {
    var registry := Sort(w.registry, true);
    var pending := Pending(registry, w.ledger);
    if pending != [] && !w.locked {
      SortDistinct(w.registry, true);
      FilteredDistinct(registry, EntryNames(w.ledger), false);
      var k := FirstFailure(pending, true);
      var batch := NextBatch(LastBatch(w.ledger));
      var added := Stamp(pending[..k], batch);
      StampNames(pending[..k], batch);
      forall n | n in MigrationNames(pending[..k])
        ensures n !in EntryNames(w.ledger)
      {
        var m :| m in pending[..k] && m.name == n;
        FilteredMembership(registry, EntryNames(w.ledger), false, m);
      }
      AppendDistinct(w.ledger, added);
    }
  }

  /** Appending rows with distinct names none of which is in the ledger
      keeps the ledger's names distinct. */
  lemma AppendDistinct(ledger: seq<Entry>, added: seq<Entry>)
    requires DistinctEntryNames(ledger) && DistinctEntryNames(added)
    requires forall n :: n in EntryNames(added) ==> n !in EntryNames(ledger)
    ensures DistinctEntryNames(ledger + added)
  {
    var all := ledger + added;
    forall i, j | 0 <= i < j < |all|
      ensures all[i].name != all[j].name
    {
      if j < |ledger| {
        assert all[i] == ledger[i] && all[j] == ledger[j];
      } else if i < |ledger| {
        assert all[j] == added[j - |ledger|] && all[j].name in EntryNames(added);
        assert all[i] == ledger[i] && all[i].name in EntryNames(ledger);
      } else {
        assert all[i] == added[i - |ledger|] && all[j] == added[j - |ledger|];
      }
    }
  }
}
