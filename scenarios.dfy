/** Cases from the repository's rollback tests, and a two-migration apply
    run, evaluated on the model over arbitrary names. */
module Scenarios {
  import opened Types
  import opened Order
  import opened Migrate
  import opened Rollback

  /** A migration whose Up and Down both succeed. */
  function Noop(name: string): Migration
  {
    Migration(name, Ok, Ok, false)
  }

  /** Two names separated by ", " parse back to the two names: the test's
      list "456, 123" yields "456" and "123". */
  lemma ParseTwoNames(a: string, b: string)
    requires ' ' !in a && ',' !in a && ' ' !in b && ',' !in b
    ensures ParseNames(a + ", " + b) == [a, b]
  {
    var glued := a + [','] + b;
    assert StripSpaces(a + ", " + b) == glued by {
      assert a + ", " + b == (a + [',']) + ([' '] + b);
      StripSpacesAppend(a + [','], [' '] + b);
      StripSpacesIdentity(a + [',']);
      StripSpacesAppend([' '], b);
      StripSpacesIdentity(b);
    }
    assert Join([a, b], ',') == glued by {
      assert [a, b][1..] == [b];
    }
    SplitJoin([a, b], ',');
  }

  /** "sorts migrations in reverse order": for any names a < b, rollback on
      an empty ledger turns [a, b] into [b, a] and succeeds. */
  lemma RollbackSortsInReverse(a: string, b: string)
    requires Below(a, b)
    ensures RollbackSpec(World([Noop(a), Noop(b)], [], false))
         == Run(World([Noop(b), Noop(a)], [], false), Success)
  {
    BelowAsymmetric(a, b);
    assert Sort([Noop(b)], false) == [Noop(b)];
    assert [Noop(a), Noop(b)][1..] == [Noop(b)];
    assert Insert(Noop(a), [Noop(b)], false) == [Noop(b), Noop(a)];
  }

  /** A failing Down on the only row of the last batch: the error is
      "name: cause" and the row stays, whether or not the migration runs
      in a transaction. */
  lemma RollbackDownFails(name: string, cause: string, batch: int32, disableTransaction: bool)
    requires batch != 0
    ensures var m := Migration(name, Ok, Err(cause), disableTransaction);
      RollbackSpec(World([m], [Entry(name, batch)], false))
      == Run(World([m], [Entry(name, batch)], false), Failure(Failed(name + ": " + cause)))
  {
    var m := Migration(name, Ok, Err(cause), disableTransaction);
    var ledger := [Entry(name, batch)];
    assert Sort([m], false) == [m];
    assert LastBatch(ledger) == batch;
    assert EntryNames(InBatch(ledger, batch)) == {name} by {
      assert ledger[..0] == [];
      assert InBatch(ledger, batch) == InBatch([], batch) + ledger;
    }
    assert LastBatchTodo([m], ledger) == [m] by {
      assert [m][..0] == [];
      assert Filtered([m], {name}, true) == Filtered([], {name}, true) + [m];
    }
    assert FirstFailure([m], false) == 0;
    assert Without(ledger, MigrationNames([m][..0])) == ledger by {
      assert MigrationNames([m][..0]) == {};
      WithoutNone(ledger);
    }
  }

  /** Applying [b, a] with a < b to an empty ledger records a then b in
      batch 1, and a second run straight after finds nothing to do. */
  lemma MigrateTwoFresh(a: string, b: string)
    requires Below(a, b)
    ensures var r := MigrateSpec(World([Noop(b), Noop(a)], [], false));
      && r.status == Success
      && r.after.ledger == [Entry(a, 1), Entry(b, 1)]
      && !r.after.locked
      && MigrateSpec(r.after).status == Success
      && MigrateSpec(r.after).after.ledger == r.after.ledger
      && MigrateSpec(r.after).after.locked == r.after.locked
  {
    var w := World([Noop(b), Noop(a)], [], false);
    AscendingPair(a, b);
    FreshPair(a, b);
    assert NextBatch(LastBatch([])) == 1;
    MigrateIdempotent(w);
  }

  /** The ascending sort puts a before b. */
  lemma AscendingPair(a: string, b: string)
    requires Below(a, b)
    ensures Sort([Noop(b), Noop(a)], true) == [Noop(a), Noop(b)]
  {
    BelowAsymmetric(a, b);
    assert Sort([Noop(a)], true) == [Noop(a)];
    assert [Noop(b), Noop(a)][1..] == [Noop(a)];
    assert Insert(Noop(b), [Noop(a)], true) == [Noop(a), Noop(b)];
  }

  /** On an empty ledger both migrations are pending, both Ups succeed, and
      both are stamped with batch 1. */
  lemma FreshPair(a: string, b: string)
    ensures var registry := [Noop(a), Noop(b)];
      && Pending(registry, []) == registry
      && RunStatus(registry, true) == Success
      && Stamp(registry[..FirstFailure(registry, true)], 1) == [Entry(a, 1), Entry(b, 1)]
  {
    var registry := [Noop(a), Noop(b)];
    assert Pending(registry, []) == registry by {
      assert EntryNames([]) == {};
      assert registry[..1] == [Noop(a)] && [Noop(a)][..0] == [];
      assert Filtered([Noop(a)], {}, false) == Filtered([], {}, false) + [Noop(a)];
      assert Filtered(registry, {}, false) == Filtered([Noop(a)], {}, false) + [Noop(b)];
    }
    assert FirstFailure(registry, true) == 2 by {
      assert registry[1..] == [Noop(b)] && [Noop(b)][1..] == [];
    }
    assert registry[..2] == registry;
  }
}
