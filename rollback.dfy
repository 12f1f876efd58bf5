/** The reverse runs: `rollback` undoes the last batch, `rollbackNamed`
    undoes the completed migrations named in a comma-separated list. */
module Rollback {
  import opened Types
  import opened Order
  import opened Migrate

  // ---------------------------------------------------------------------------
  // Selecting the last batch
  // ---------------------------------------------------------------------------

  /** The ledger rows of batch `batch`, in ledger order. */
  function InBatch(ledger: seq<Entry>, batch: int32): seq<Entry>
  {
    if ledger == [] then []
    else
      var last := ledger[|ledger| - 1];
      InBatch(ledger[..|ledger| - 1], batch) + (if last.batch == batch then [last] else [])
  }

  /** A row is selected exactly when it is in the ledger with that batch. */
  lemma {:induction false} InBatchMembership(ledger: seq<Entry>, batch: int32, e: Entry)
    ensures e in InBatch(ledger, batch) <==> e in ledger && e.batch == batch
  {
    if ledger != [] {
      var init := ledger[..|ledger| - 1];
      assert ledger == init + [ledger[|ledger| - 1]];
      InBatchMembership(init, batch, e);
    }
  }

  /** Selecting by batch distributes over concatenation: the order is kept. */
  lemma {:induction false} InBatchAppend(a: seq<Entry>, b: seq<Entry>, batch: int32)
    ensures InBatch(a + b, batch) == InBatch(a, batch) + InBatch(b, batch)
  {
    if b != [] {
      assert (a + b)[..|a + b| - 1] == a + b[..|b| - 1];
      InBatchAppend(a, b[..|b| - 1], batch);
    } else {
      assert a + b == a;
    }
  }

  /** `getMigrationsForBatch`: the loop that keeps the rows of one batch. */
  method MigrationsForBatch(migrations: seq<Entry>, batch: int32) returns (m: seq<Entry>)
    ensures m == InBatch(migrations, batch)
  {
    m := [];
    for i := 0 to |migrations|
      invariant m == InBatch(migrations[..i], batch)
    {
      assert migrations[..i + 1][..i] == migrations[..i];
      if migrations[i].batch == batch {
        m := m + [migrations[i]];
      }
    }
    assert migrations[..|migrations|] == migrations;
  }

  // ---------------------------------------------------------------------------
  // The name list: strings.Replace(s, " ", "", -1) then strings.Split(s, ",")
  // ---------------------------------------------------------------------------

  /** Removes every space character, keeping the other characters in order. */
  function StripSpaces(s: string): (r: string)
    ensures ' ' !in r
    ensures forall c :: c != ' ' ==> multiset(r)[c] == multiset(s)[c]
  {
    if s == [] then []
    else
      assert s == [s[0]] + s[1..];
      (if s[0] == ' ' then [] else [s[0]]) + StripSpaces(s[1..])
  }

  /** A string without spaces is left as it is, so stripping is idempotent. */
  lemma {:induction false} StripSpacesIdentity(s: string)
    requires ' ' !in s
    ensures StripSpaces(s) == s
  {
    if s != [] {
      assert s == [s[0]] + s[1..];
      StripSpacesIdentity(s[1..]);
    }
  }

  /** Stripping works piece by piece: it distributes over concatenation. */
  lemma {:induction false} StripSpacesAppend(a: string, b: string)
    ensures StripSpaces(a + b) == StripSpaces(a) + StripSpaces(b)
  {
    if a != [] {
      assert (a + b)[0] == a[0] && (a + b)[1..] == a[1..] + b;
      StripSpacesAppend(a[1..], b);
    } else {
      assert a + b == b;
    }
  }

  /** The pieces of `s` between occurrences of `sep`; an empty `s` gives one
      empty piece, as `strings.Split` does. */
  function Split(s: string, sep: char): (parts: seq<string>)
    ensures |parts| >= 1
    ensures forall i :: 0 <= i < |parts| ==> sep !in parts[i]
  {
    if s == [] then [[]]
    else
      var rest := Split(s[1..], sep);
      if s[0] == sep then [[]] + rest
      else [[s[0]] + rest[0]] + rest[1..]
  }

  /** The pieces glued back together with `sep`. */
  function Join(parts: seq<string>, sep: char): string
    requires |parts| >= 1
  {
    if |parts| == 1 then parts[0] else parts[0] + [sep] + Join(parts[1..], sep)
  }

  /** Splitting loses nothing: joining the pieces gives the input back. */
  lemma {:induction false} JoinSplit(s: string, sep: char)
    ensures Join(Split(s, sep), sep) == s
  {
    if s != [] {
      var rest := Split(s[1..], sep);
      JoinSplit(s[1..], sep);
      assert s == [s[0]] + s[1..];
      if s[0] != sep {
        var parts := Split(s, sep);
        if |rest| > 1 {
          assert parts[1..] == rest[1..];
        }
      }
    }
  }

  /** A piece without `sep` followed by more text starts the first piece. */
  lemma {:induction false} SplitPrefix(w: string, s: string, sep: char)
    requires sep !in w
    ensures Split(w + s, sep) == [w + Split(s, sep)[0]] + Split(s, sep)[1..]
  {
    var parts := Split(s, sep);
    if w != [] {
      var tail := w[1..] + s;
      assert w + s == [w[0]] + tail;
      SplitCons(w[0], tail, sep);
      SplitPrefix(w[1..], s, sep);
      assert [w[0]] + (w[1..] + parts[0]) == w + parts[0];
    } else {
      assert w + s == s && w + parts[0] == parts[0];
      assert parts == [parts[0]] + parts[1..];
    }
  }

  /** A character other than `sep` joins the first piece of what follows. */
  lemma SplitCons(c: char, t: string, sep: char)
    requires c != sep
    ensures Split([c] + t, sep) == [[c] + Split(t, sep)[0]] + Split(t, sep)[1..]
  {
    assert ([c] + t)[1..] == t;
  }

  /** Pieces without `sep` are recovered by splitting their join. */
  lemma {:induction false} SplitJoin(parts: seq<string>, sep: char)
    requires |parts| >= 1
    requires forall i :: 0 <= i < |parts| ==> sep !in parts[i]
    ensures Split(Join(parts, sep), sep) == parts
  {
    if |parts| == 1 {
      SplitPrefix(parts[0], [], sep);
      assert parts[0] + [] == parts[0];
    } else {
      var tail := Join(parts[1..], sep);
      SplitJoin(parts[1..], sep);
      assert Join(parts, sep) == parts[0] + ([sep] + tail);
      SplitPrefix(parts[0], [sep] + tail, sep);
      assert ([sep] + tail)[1..] == tail;
      assert Split([sep] + tail, sep) == [[]] + parts[1..];
      assert parts[0] + [] == parts[0];
      assert parts == [parts[0]] + parts[1..];
    }
  }

  /** The names `rollbackNamed` is asked to undo. */
  function ParseNames(list: string): seq<string>
  {
    Split(StripSpaces(list), ',')
  }

  /** No parsed name contains a space or a comma, and the parse loses only
      spaces. */
  lemma ParseNamesShape(list: string)
    ensures var names := ParseNames(list);
      && (forall i :: 0 <= i < |names| ==> ' ' !in names[i] && ',' !in names[i])
      && Join(names, ',') == StripSpaces(list)
  {
    JoinSplit(StripSpaces(list), ',');
    JoinOmits(ParseNames(list), ',', ' ');
  }

  /** A character absent from the join is absent from every piece. */
  lemma {:induction false} JoinOmits(parts: seq<string>, sep: char, c: char)
    requires |parts| >= 1 && c !in Join(parts, sep)
    ensures forall i :: 0 <= i < |parts| ==> c !in parts[i]
  {
    if |parts| > 1 {
      var rest := Join(parts[1..], sep);
      assert Join(parts, sep) == parts[0] + ([sep] + rest);
      assert c !in rest && c !in parts[0];
      JoinOmits(parts[1..], sep, c);
      forall i | 1 <= i < |parts|
        ensures c !in parts[i]
      {
        assert parts[i] == parts[1..][i - 1];
      }
    }
  }

  // ---------------------------------------------------------------------------
  // Matching completed rows against the name list
  // ---------------------------------------------------------------------------

  /** One copy of `e` for every entry of `names` equal to its name. */
  function Copies(e: Entry, names: seq<string>): seq<Entry>
  {
    if names == [] then []
    else
      Copies(e, names[..|names| - 1]) + (if e.name == names[|names| - 1] then [e] else [])
  }

  /** The result of the nested loop: for each completed row, in ledger order,
      one copy per matching name in the list. */
  function MatchNamed(completed: seq<Entry>, names: seq<string>): seq<Entry>
  {
    if completed == [] then []
    else
      MatchNamed(completed[..|completed| - 1], names) + Copies(completed[|completed| - 1], names)
  }

  lemma {:induction false} CopiesMembership(e: Entry, names: seq<string>, x: Entry)
    ensures x in Copies(e, names) <==> x == e && e.name in names
  {
    if names != [] {
      var init := names[..|names| - 1];
      assert names == init + [names[|names| - 1]];
      CopiesMembership(e, init, x);
    }
  }

  /** A row is matched exactly when it is completed and its name is listed. */
  lemma {:induction false} MatchNamedMembership(completed: seq<Entry>, names: seq<string>, e: Entry)
    ensures e in MatchNamed(completed, names) <==> e in completed && e.name in names
  {
    if completed != [] {
      var init := completed[..|completed| - 1];
      var last := completed[|completed| - 1];
      assert completed == init + [last];
      MatchNamedMembership(init, names, e);
      CopiesMembership(last, names, e);
    }
  }

  /** The nested loop of `rollbackNamed` over completed rows and names. */
  method SelectNamed(completed: seq<Entry>, names: seq<string>) returns (rollback: seq<Entry>)
    ensures rollback == MatchNamed(completed, names)
  {
    rollback := [];
    for i := 0 to |completed|
      invariant rollback == MatchNamed(completed[..i], names)
    {
      var record := completed[i];
      assert completed[..i + 1][..i] == completed[..i];
      for j := 0 to |names|
        invariant rollback == MatchNamed(completed[..i], names) + Copies(record, names[..j])
      {
        assert names[..j + 1][..j] == names[..j];
        if record.name == names[j] {
          rollback := rollback + [record];
        }
      }
      assert names[..|names|] == names;
    }
    assert completed[..|completed|] == completed;
  }

  // ---------------------------------------------------------------------------
  // Deleting rows by name
  // ---------------------------------------------------------------------------

  /** A row survives exactly when its name is not removed. */
  lemma {:induction false} WithoutMembership(ledger: seq<Entry>, names: set<string>, e: Entry)
    ensures e in Without(ledger, names) <==> e in ledger && e.name !in names
  {
    if ledger != [] {
      var init := ledger[..|ledger| - 1];
      assert ledger == init + [ledger[|ledger| - 1]];
      WithoutMembership(init, names, e);
    }
  }

  /** Deleting one name after a set of names is deleting their union. */
  lemma {:induction false} WithoutTwice(ledger: seq<Entry>, names: set<string>, name: string)
    ensures Without(Without(ledger, names), {name}) == Without(ledger, names + {name})
  {
    if ledger != [] {
      var init := ledger[..|ledger| - 1];
      var last := ledger[|ledger| - 1];
      WithoutTwice(init, names, name);
      var once := Without(init, names);
      assert ledger[..|ledger| - 1] == init;
      if last.name !in names {
        assert Without(ledger, names) == once + [last];
        assert (once + [last])[..|once + [last]| - 1] == once;
        assert Without(once + [last], {name}) == Without(once, {name}) + (if last.name == name then [] else [last]);
        assert Without(ledger, names + {name}) == Without(init, names + {name}) + (if last.name == name then [] else [last]);
      } else {
        assert Without(ledger, names) == once;
        assert Without(ledger, names + {name}) == Without(init, names + {name});
      }
    }
  }

  // ---------------------------------------------------------------------------
  // The shared Down loop
  // ---------------------------------------------------------------------------

  /** The state a Down loop over `todo` leaves: the rows of every migration
      before the first failure are deleted (by name), the lock is released,
      and the error names the first failure. */
  function Revert(registry: seq<Migration>, ledger: seq<Entry>, todo: seq<Migration>): Run
  {
    var k := FirstFailure(todo, false);
    Run(World(registry, Without(ledger, MigrationNames(todo[..k])), false), RunStatus(todo, false))
  }

  /** The loop of `rollback` and `rollbackNamed`: runs each Down in order,
      deletes the rows with that name after each success, stops at the first
      failure. Whether a Down runs in a transaction does not change its
      outcome here. */
  method Unwind(db: Database, todo: seq<Migration>) returns (status: Status)
    modifies db
    ensures db.ledger == Without(old(db.ledger), MigrationNames(todo[..FirstFailure(todo, false)]))
    ensures db.locked == old(db.locked)
    ensures status == RunStatus(todo, false)
  {
    ghost var k := FirstFailure(todo, false);
    ghost var start := db.ledger;
    ghost var gone: set<string> := {};
    assert MigrationNames(todo[..0]) == {};
    WithoutNone(start);
    var i := 0;
    while i < |todo|
      invariant 0 <= i <= k
      invariant db.locked == old(db.locked)
      invariant gone == MigrationNames(todo[..i])
      invariant db.ledger == Without(start, gone)
    {
      var m := todo[i];
      if m.down.Err? {
        assert i == k;
        return Failure(Failed(Report(m.name, m.down.cause)));
      }
      NamesStep(todo, i);
      WithoutTwice(start, gone, m.name);
      db.DeleteNamed(m.name);
      gone := gone + {m.name};
      i := i + 1;
    }
    assert todo[..|todo|] == todo;
    status := Success;
  }

  /** The names of one more migration. */
  lemma NamesStep(ms: seq<Migration>, i: nat)
    requires i < |ms|
    ensures MigrationNames(ms[..i + 1]) == MigrationNames(ms[..i]) + {ms[i].name}
  {
    assert ms[..i + 1] == ms[..i] + [ms[i]];
  }

  lemma {:induction false} WithoutNone(ledger: seq<Entry>)
    ensures Without(ledger, {}) == ledger
  {
    if ledger != [] {
      var init := ledger[..|ledger| - 1];
      WithoutNone(init);
      assert ledger == init + [ledger[|ledger| - 1]];
    }
  }

  // ---------------------------------------------------------------------------
  // rollback and rollbackNamed
  // ---------------------------------------------------------------------------

  /** The registered migrations whose rows form the last batch. */
  function LastBatchTodo(registry: seq<Migration>, ledger: seq<Entry>): seq<Migration>
  {
    Filtered(registry, EntryNames(InBatch(ledger, LastBatch(ledger))), true)
  }

  /** The registered migrations whose rows match the name list. */
  function NamedTodo(registry: seq<Migration>, ledger: seq<Entry>, names: seq<string>): seq<Migration>
  {
    Filtered(registry, EntryNames(MatchNamed(ledger, names)), true)
  }

  /** What `rollback` does: sort the registry descending; take the lock (a
      held lock is an error even on an empty ledger); with no batch, release
      it and succeed; else undo the registered migrations of the last batch. */
  function RollbackSpec(w: World): Run
  {
    var registry := Sort(w.registry, false);
    if w.locked then Run(w.(registry := registry), Failure(AlreadyLocked))
    else if LastBatch(w.ledger) == 0 then Run(World(registry, w.ledger, false), Success)
    else Revert(registry, w.ledger, LastBatchTodo(registry, w.ledger))
  }

  /** What `rollbackNamed` does: as `rollback`, except that the rows undone
      are the completed ones whose name is in the list, whatever their batch;
      when none matches it succeeds without running anything (the lock has
      still been taken and released). */
  function RollbackNamedSpec(w: World, list: string): Run
  {
    var registry := Sort(w.registry, false);
    var names := ParseNames(list);
    if w.locked then Run(w.(registry := registry), Failure(AlreadyLocked))
    else if LastBatch(w.ledger) == 0 then Run(World(registry, w.ledger, false), Success)
    else if MatchNamed(w.ledger, names) == [] then Run(World(registry, w.ledger, false), Success)
    else Revert(registry, w.ledger, NamedTodo(registry, w.ledger, names))
  }

  /** `rollback`. */
  method RollbackLast(reg: Registry, db: Database) returns (status: Status)
    modifies reg, db
    ensures Run(World(reg.migrations, db.ledger, db.locked), status)
         == RollbackSpec(World(old(reg.migrations), old(db.ledger), old(db.locked)))
  {
    reg.migrations := Sort(reg.migrations, false);
    var completed := db.Completed();
    status := db.AcquireLock();
    if status.Failure? {
      return;
    }
    var batch := db.LastBatchNumber();
    if batch == 0 {
      db.ReleaseLock();
      return Success;
    }
    var rollback := MigrationsForBatch(completed, batch);
    var todo := FilterMigrations(reg.migrations, rollback, true);
    status := Unwind(db, todo);
    db.ReleaseLock();
  }

  /** `rollbackNamed`. */
  method RollbackNamed(reg: Registry, db: Database, list: string) returns (status: Status)
    modifies reg, db
    ensures Run(World(reg.migrations, db.ledger, db.locked), status)
         == RollbackNamedSpec(World(old(reg.migrations), old(db.ledger), old(db.locked)), list)
  {
    reg.migrations := Sort(reg.migrations, false);
    var completed := db.Completed();
    var names := Split(StripSpaces(list), ',');
    status := db.AcquireLock();
    if status.Failure? {
      return;
    }
    var batch := db.LastBatchNumber();
    if batch == 0 {
      db.ReleaseLock();
      return Success;
    }
    var rollback := SelectNamed(completed, names);
    if |rollback| > 0 {
      var todo := FilterMigrations(reg.migrations, rollback, true);
      status := Unwind(db, todo);
    } else {
      status := Success;
    }
    db.ReleaseLock();
  }

  // ---------------------------------------------------------------------------
  // Properties of the reverse runs
  // ---------------------------------------------------------------------------

  /** Both reverse runs leave the registry sorted descending by name and
      holding the same migrations, on every exit. */
  lemma RollbackSortsRegistry(w: World, list: string)
    ensures Sorted(RollbackSpec(w).after.registry, false)
    ensures multiset(RollbackSpec(w).after.registry) == multiset(w.registry)
    ensures Sorted(RollbackNamedSpec(w, list).after.registry, false)
    ensures multiset(RollbackNamedSpec(w, list).after.registry) == multiset(w.registry)
  {
  }

  /** The lock is checked before the ledger: a held lock fails with
      ErrAlreadyLocked and stays held even on an empty ledger; a free lock is
      free again on every exit; an empty ledger with a free lock succeeds and
      stays empty. */
  lemma RollbackLockFirst(w: World, list: string)
    ensures w.locked ==>
      && RollbackSpec(w).status == Failure(AlreadyLocked)
      && RollbackSpec(w).after.ledger == w.ledger && RollbackSpec(w).after.locked
      && RollbackNamedSpec(w, list).status == Failure(AlreadyLocked)
      && RollbackNamedSpec(w, list).after.ledger == w.ledger && RollbackNamedSpec(w, list).after.locked
    ensures !w.locked ==> !RollbackSpec(w).after.locked && !RollbackNamedSpec(w, list).after.locked
    ensures !w.locked && w.ledger == [] ==>
      && RollbackSpec(w).status == Success && RollbackSpec(w).after.ledger == []
      && RollbackNamedSpec(w, list).status == Success && RollbackNamedSpec(w, list).after.ledger == []
  {
  }

  /** The Down loop never adds rows, never deletes a row whose name it did
      not undo, and deletes every row whose migration it undid. */
  lemma RevertDeletes(registry: seq<Migration>, ledger: seq<Entry>, todo: seq<Migration>)
    ensures var after := Revert(registry, ledger, todo).after.ledger;
      var k := FirstFailure(todo, false);
      && (forall e :: e in after <==> e in ledger && e.name !in MigrationNames(todo[..k]))
      && (forall e :: e in ledger && e.name !in MigrationNames(todo) ==> e in after)
  {
    var k := FirstFailure(todo, false);
    var after := Revert(registry, ledger, todo).after.ledger;
    forall e | e in ledger || e in after
      ensures e in after <==> e in ledger && e.name !in MigrationNames(todo[..k])
    {
      WithoutMembership(ledger, MigrationNames(todo[..k]), e);
    }
    forall e | e in ledger && e.name !in MigrationNames(todo)
      ensures e in after
    {
      WithoutMembership(ledger, MigrationNames(todo[..k]), e);
    }
  }

  /** Fail-fast for Down: when the k-th migration is the first whose Down
      fails, the error is "name: cause", the rows of the first k are gone,
      the failing one's rows stay (with distinct names in `todo`), and the
      lock is released. */
  lemma RevertFailFast(registry: seq<Migration>, ledger: seq<Entry>, todo: seq<Migration>, k: nat)
    requires k < |todo| && todo[k].down.Err? && forall j :: 0 <= j < k ==> todo[j].down.Ok?
    ensures var r := Revert(registry, ledger, todo);
      && r.status == Failure(Failed(Report(todo[k].name, todo[k].down.cause)))
      && !r.after.locked
      && (forall j :: 0 <= j < k ==> todo[j].name !in EntryNames(r.after.ledger))
      && (DistinctMigrationNames(todo) ==>
            forall e :: e in ledger && e.name == todo[k].name ==> e in r.after.ledger)
  {
    assert FirstFailure(todo, false) == k;
    var r := Revert(registry, ledger, todo);
    var gone := MigrationNames(todo[..k]);
    forall j | 0 <= j < k
      ensures todo[j].name !in EntryNames(r.after.ledger)
    {
      assert todo[j] in todo[..k];
      if todo[j].name in EntryNames(r.after.ledger) {
        var e :| e in r.after.ledger && e.name == todo[j].name;
        WithoutMembership(ledger, gone, e);
      }
    }
    if DistinctMigrationNames(todo) {
      forall e | e in ledger && e.name == todo[k].name
        ensures e in r.after.ledger
      {
        WithoutMembership(ledger, gone, e);
      }
    }
  }

  /** On success every migration in `todo` has had its Down run and its rows
      deleted. */
  lemma RevertSuccess(registry: seq<Migration>, ledger: seq<Entry>, todo: seq<Migration>)
    requires Revert(registry, ledger, todo).status == Success
    ensures forall j :: 0 <= j < |todo| ==> todo[j].down.Ok?
    ensures Revert(registry, ledger, todo).after.ledger == Without(ledger, MigrationNames(todo))
  {
    assert todo[..|todo|] == todo;
  }

  /** What `rollback` undoes: registered migrations with a row in the last
      batch, in descending name order. */
  lemma LastBatchTodoShape(w: World)
    ensures var registry := Sort(w.registry, false);
      var todo := LastBatchTodo(registry, w.ledger);
      && Sorted(todo, false)
      && forall m :: m in todo <==>
           m in w.registry && exists i :: 0 <= i < |w.ledger| && w.ledger[i].name == m.name
                                       && w.ledger[i].batch == LastBatch(w.ledger)
  {
    var registry := Sort(w.registry, false);
    var b := LastBatch(w.ledger);
    var names := EntryNames(InBatch(w.ledger, b));
    FilteredSorted(registry, names, true, false);
    forall m
      ensures m in LastBatchTodo(registry, w.ledger) <==>
        m in w.registry && exists i :: 0 <= i < |w.ledger| && w.ledger[i].name == m.name && w.ledger[i].batch == b
    {
      FilteredMembership(registry, names, true, m);
      assert m in registry <==> m in multiset(w.registry);
      if m.name in names {
        var e :| e in InBatch(w.ledger, b) && e.name == m.name;
        InBatchMembership(w.ledger, b, e);
      }
      if exists i :: 0 <= i < |w.ledger| && w.ledger[i].name == m.name && w.ledger[i].batch == b {
        var i :| 0 <= i < |w.ledger| && w.ledger[i].name == m.name && w.ledger[i].batch == b;
        InBatchMembership(w.ledger, b, w.ledger[i]);
      }
    }
  }

  /** What `rollbackNamed` undoes: registered migrations with a completed
      row whose name is listed, in descending name order. */
  lemma NamedTodoShape(w: World, list: string)
    ensures var registry := Sort(w.registry, false);
      var names := ParseNames(list);
      var todo := NamedTodo(registry, w.ledger, names);
      && Sorted(todo, false)
      && forall m :: m in todo <==>
           m in w.registry && m.name in names && exists i :: 0 <= i < |w.ledger| && w.ledger[i].name == m.name
  {
    var registry := Sort(w.registry, false);
    var names := ParseNames(list);
    var matched := MatchNamed(w.ledger, names);
    FilteredSorted(registry, EntryNames(matched), true, false);
    forall m
      ensures m in NamedTodo(registry, w.ledger, names) <==>
        m in w.registry && m.name in names && exists i :: 0 <= i < |w.ledger| && w.ledger[i].name == m.name
    {
      FilteredMembership(registry, EntryNames(matched), true, m);
      assert m in registry <==> m in multiset(w.registry);
      if m.name in EntryNames(matched) {
        var e :| e in matched && e.name == m.name;
        MatchNamedMembership(w.ledger, names, e);
      }
      if m.name in names && exists i :: 0 <= i < |w.ledger| && w.ledger[i].name == m.name {
        var i :| 0 <= i < |w.ledger| && w.ledger[i].name == m.name;
        MatchNamedMembership(w.ledger, names, w.ledger[i]);
      }
    }
  }

  /** `rollback` never adds a row, and never deletes a row whose name has no
      registered migration: such a row cannot be rolled back. */
  lemma RollbackKeepsUnregistered(w: World)
    ensures var after := RollbackSpec(w).after.ledger;
      && (forall e :: e in after ==> e in w.ledger)
      && (forall i :: 0 <= i < |w.ledger| && w.ledger[i].name !in MigrationNames(w.registry) ==> w.ledger[i] in after)
  {
    var registry := Sort(w.registry, false);
    if !w.locked && LastBatch(w.ledger) != 0 {
      var todo := LastBatchTodo(registry, w.ledger);
      RevertDeletes(registry, w.ledger, todo);
      LastBatchTodoShape(w);
      SameNames(w.registry, registry);
      forall i | 0 <= i < |w.ledger| && w.ledger[i].name !in MigrationNames(w.registry)
        ensures w.ledger[i].name !in MigrationNames(todo)
      {
      }
    }
  }

  /** `rollback` touches only the last batch: with the ledger's names
      distinct, every row of an earlier batch stays. */
  lemma RollbackOnlyLastBatch(w: World)
    requires DistinctEntryNames(w.ledger)
    ensures var after := RollbackSpec(w).after.ledger;
      forall i :: 0 <= i < |w.ledger| && w.ledger[i].batch != LastBatch(w.ledger) ==> w.ledger[i] in after
  {
    var registry := Sort(w.registry, false);
    var b := LastBatch(w.ledger);
    if !w.locked && b != 0 {
      var todo := LastBatchTodo(registry, w.ledger);
      RevertDeletes(registry, w.ledger, todo);
      LastBatchTodoShape(w);
      forall i | 0 <= i < |w.ledger| && w.ledger[i].batch != b
        ensures w.ledger[i].name !in MigrationNames(todo)
      {
      }
    }
  }

  /** A successful `rollback` of a last batch whose migrations are all
      registered leaves exactly the rows of the other batches, all below it,
      so the last batch number drops (test "only rolls back the last batch"). */
  lemma RollbackRemovesLastBatch(w: World)
    requires DistinctEntryNames(w.ledger) && LastBatch(w.ledger) > 0
    requires RollbackSpec(w).status == Success && !w.locked
    requires forall i :: 0 <= i < |w.ledger| && w.ledger[i].batch == LastBatch(w.ledger)
               ==> w.ledger[i].name in MigrationNames(w.registry)
    ensures var after := RollbackSpec(w).after.ledger;
      && (forall e :: e in after <==> e in w.ledger && e.batch != LastBatch(w.ledger))
      && LastBatch(after) < LastBatch(w.ledger)
  {
    var b := LastBatch(w.ledger);
    var after := RollbackSpec(w).after.ledger;
    assert forall e :: e in after ==> e in w.ledger by {
      RollbackKeepsUnregistered(w);
    }
    assert forall e :: e in w.ledger && e.batch != b ==> e in after by {
      RollbackOnlyLastBatch(w);
      forall e | e in w.ledger && e.batch != b
        ensures e in after
      {
        var i :| 0 <= i < |w.ledger| && w.ledger[i] == e;
      }
    }
    assert forall e :: e in after ==> e.batch != b by {
      LastBatchGone(w);
      forall e | e in after
        ensures e.batch != b
      {
        assert e in w.ledger;
        var i :| 0 <= i < |w.ledger| && w.ledger[i] == e;
      }
    }
    forall i | 0 <= i < |after|
      ensures after[i].batch < b
    {
      assert after[i] in after;
    }
    BatchesBelow(after, b);
  }

  /** After a successful `rollback`, no row of the last batch whose migration
      is registered is left. */
  lemma LastBatchGone(w: World)
    requires RollbackSpec(w).status == Success && !w.locked && LastBatch(w.ledger) != 0
    ensures forall e :: e in w.ledger && e.batch == LastBatch(w.ledger) && e.name in MigrationNames(w.registry) ==>
      e !in RollbackSpec(w).after.ledger
  {
    var registry := Sort(w.registry, false);
    var b := LastBatch(w.ledger);
    var todo := LastBatchTodo(registry, w.ledger);
    RevertSuccess(registry, w.ledger, todo);
    LastBatchTodoShape(w);
    SameNames(w.registry, registry);
    forall e | e in w.ledger && e.batch == b && e.name in MigrationNames(w.registry)
      ensures e !in RollbackSpec(w).after.ledger
    {
      var i :| 0 <= i < |w.ledger| && w.ledger[i] == e;
      var m :| m in w.registry && m.name == e.name;
      assert m in todo;
      WithoutMembership(w.ledger, MigrationNames(todo), e);
    }
  }

  /** When every row lies below a positive batch, so does the last batch number. */
  lemma BatchesBelow(ledger: seq<Entry>, b: int32)
    requires b > 0 && forall i :: 0 <= i < |ledger| ==> ledger[i].batch < b
    ensures LastBatch(ledger) < b
  {
  }

  /** `rollbackNamed` deletes only completed rows whose name is both listed
      and registered, whatever their batch; on success (with something
      matched) it deletes all of them. */
  lemma RollbackNamedSelects(w: World, list: string)
    ensures var after := RollbackNamedSpec(w, list).after.ledger;
      && (forall e :: e in after ==> e in w.ledger)
      && (forall e :: e in w.ledger && e !in after ==>
            e.name in ParseNames(list) && e.name in MigrationNames(w.registry))
    ensures var r := RollbackNamedSpec(w, list);
      !w.locked && LastBatch(w.ledger) != 0 && r.status == Success ==>
        forall e :: e in w.ledger && e.name in ParseNames(list) && e.name in MigrationNames(w.registry)
          ==> e.name !in EntryNames(r.after.ledger)
  {
    var registry := Sort(w.registry, false);
    var names := ParseNames(list);
    var matched := MatchNamed(w.ledger, names);
    SameNames(w.registry, registry);
    if !w.locked && LastBatch(w.ledger) != 0 && matched != [] {
      var todo := NamedTodo(registry, w.ledger, names);
      var r := Revert(registry, w.ledger, todo);
      RevertDeletes(registry, w.ledger, todo);
      forall e | e in w.ledger && e !in r.after.ledger
        ensures e.name in names && e.name in MigrationNames(w.registry)
      {
        var m :| m in todo && m.name == e.name;
        FilteredMembership(registry, EntryNames(matched), true, m);
        var x :| x in matched && x.name == m.name;
        MatchNamedMembership(w.ledger, names, x);
        assert m in registry;
      }
      if r.status == Success {
        RevertSuccess(registry, w.ledger, todo);
        forall e | e in w.ledger && e.name in names && e.name in MigrationNames(w.registry)
          ensures e.name !in EntryNames(r.after.ledger)
        {
          MatchNamedMembership(w.ledger, names, e);
          var m :| m in registry && m.name == e.name;
          FilteredMembership(registry, EntryNames(matched), true, m);
          assert m.name in MigrationNames(todo);
          if e.name in EntryNames(r.after.ledger) {
            var x :| x in r.after.ledger && x.name == e.name;
            WithoutMembership(w.ledger, MigrationNames(todo), x);
          }
        }
      }
    } else if !w.locked && LastBatch(w.ledger) != 0 && matched == [] {
      forall e | e in w.ledger && e.name in names && e.name in MigrationNames(w.registry)
        ensures false
      {
        MatchNamedMembership(w.ledger, names, e);
      }
    }
  }

  /** When no completed row is named, `rollbackNamed` runs no Down, leaves
      the ledger as it was and succeeds (with the lock free). */
  lemma RollbackNamedNoMatch(w: World, list: string)
    requires !w.locked
    requires forall i :: 0 <= i < |w.ledger| ==> w.ledger[i].name !in ParseNames(list)
    ensures RollbackNamedSpec(w, list) == Run(World(Sort(w.registry, false), w.ledger, false), Success)
  {
    var matched := MatchNamed(w.ledger, ParseNames(list));
    if matched != [] {
      MatchNamedMembership(w.ledger, ParseNames(list), matched[0]);
    }
  }
}
