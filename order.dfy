/** Name order and the sort both runs apply to the registry. */
module Order {
  import opened Types

  /** Go's `<` on strings: lexicographic, a proper prefix coming first. Go
      compares bytes; names here are sequences of characters, and comparing
      those gives the same order as comparing the UTF-8 bytes. */
  predicate Below(a: string, b: string)
  {
    if |a| == 0 then |b| != 0
    else |b| != 0 && (a[0] < b[0] || (a[0] == b[0] && Below(a[1..], b[1..])))
  }

  lemma {:induction false} BelowIrreflexive(a: string)
    ensures !Below(a, a)
  {
    if |a| != 0 {
      BelowIrreflexive(a[1..]);
    }
  }

  lemma {:induction false} BelowTransitive(a: string, b: string, c: string)
    requires Below(a, b) && Below(b, c)
    ensures Below(a, c)
  {
    if |a| != 0 && a[0] == b[0] && b[0] == c[0] {
      BelowTransitive(a[1..], b[1..], c[1..]);
    }
  }

  /** Two different names are always ordered one way or the other. */
  lemma {:induction false} BelowTotal(a: string, b: string)
    requires a != b
    ensures Below(a, b) || Below(b, a)
  {
    if |a| != 0 && |b| != 0 && a[0] == b[0] {
      assert a == [a[0]] + a[1..] && b == [b[0]] + b[1..];
      BelowTotal(a[1..], b[1..]);
    }
  }

  lemma BelowAsymmetric(a: string, b: string)
    requires Below(a, b)
    ensures !Below(b, a)
  {
    if Below(b, a) {
      BelowTransitive(a, b, a);
      BelowIrreflexive(a);
    }
  }

  /** `x` may stand before `y` in a slice sorted with `less(i, j) = Name_i < Name_j`
      (ascending) or `Name_i > Name_j` (descending): `less(y, x)` does not hold. */
  predicate Precedes(x: Migration, y: Migration, ascending: bool)
  {
    if ascending then !Below(y.name, x.name) else !Below(x.name, y.name)
  }

  /** What `sort.Slice` guarantees: no later element is `less` than an earlier one. */
  predicate Sorted(s: seq<Migration>, ascending: bool)
  {
    forall i, j :: 0 <= i < j < |s| ==> Precedes(s[i], s[j], ascending)
  }

  lemma PrecedesTotal(x: Migration, y: Migration, ascending: bool)
    ensures Precedes(x, y, ascending) || Precedes(y, x, ascending)
  {
    if x.name == y.name {
      BelowIrreflexive(x.name);
    } else if Below(x.name, y.name) {
      BelowAsymmetric(x.name, y.name);
    } else {
      BelowTotal(x.name, y.name);
    }
  }

  lemma PrecedesTransitive(x: Migration, y: Migration, z: Migration, ascending: bool)
    requires Precedes(x, y, ascending) && Precedes(y, z, ascending)
    ensures Precedes(x, z, ascending)
  {
    var a, b, c := x.name, y.name, z.name;
    if ascending {
      if Below(c, a) {
        if a == b {
        } else {
          BelowTotal(a, b);
          BelowTransitive(c, a, b);
        }
      }
    } else {
      if Below(a, c) {
        if b == c {
        } else {
          BelowTotal(b, c);
          BelowTransitive(a, c, b);
        }
      }
    }
  }

  /** A migration that precedes the head of a sorted slice precedes all of it. */
  lemma PrecedesAll(m: Migration, s: seq<Migration>, ascending: bool)
    requires Sorted(s, ascending) && s != [] && Precedes(m, s[0], ascending)
    ensures forall j :: 0 <= j < |s| ==> Precedes(m, s[j], ascending)
  {
    forall j | 0 < j < |s|
      ensures Precedes(m, s[j], ascending)
    {
      PrecedesTransitive(m, s[0], s[j], ascending);
    }
  }

  /** Inserts `m` into a sorted slice, keeping it sorted. */
  function Insert(m: Migration, s: seq<Migration>, ascending: bool): (r: seq<Migration>)
    requires Sorted(s, ascending)
    ensures Sorted(r, ascending)
    ensures multiset(r) == multiset(s) + multiset{m}
    ensures |r| == |s| + 1
  {
    if s == [] then [m]
    else if Precedes(m, s[0], ascending) then
      PrecedesAll(m, s, ascending);
      [m] + s
    else
      var rest := Insert(m, s[1..], ascending);
      InsertBehindHead(m, s, rest, ascending);
      [s[0]] + rest
  }

  /** When `m` does not go first, the head of `s` still precedes everything
      `m` is inserted into. */
  lemma InsertBehindHead(m: Migration, s: seq<Migration>, rest: seq<Migration>, ascending: bool)
    requires Sorted(s, ascending) && s != [] && !Precedes(m, s[0], ascending)
    requires Sorted(rest, ascending) && multiset(rest) == multiset(s[1..]) + multiset{m}
    ensures Sorted([s[0]] + rest, ascending)
    ensures multiset([s[0]] + rest) == multiset(s) + multiset{m}
  {
    PrecedesTotal(m, s[0], ascending);
    assert s == [s[0]] + s[1..];
    forall j | 0 <= j < |rest|
      ensures Precedes(s[0], rest[j], ascending)
    {
      assert rest[j] in multiset(rest);
      if rest[j] != m {
        assert rest[j] in multiset(s[1..]);
        var i :| 0 <= i < |s[1..]| && s[1..][i] == rest[j];
        assert s[i + 1] == rest[j];
      }
    }
    var r := [s[0]] + rest;
    forall i, j | 0 <= i < j < |r|
      ensures Precedes(r[i], r[j], ascending)
    {
      if i > 0 {
        assert r[i] == rest[i - 1] && r[j] == rest[j - 1];
      }
    }
  }

  /** The registry order after `sort.Slice`: a sorted permutation of the input. */
  function Sort(s: seq<Migration>, ascending: bool): (r: seq<Migration>)
    ensures Sorted(r, ascending)
    ensures multiset(r) == multiset(s)
    ensures |r| == |s|
  {
    if s == [] then []
    else
      assert s == [s[0]] + s[1..];
      Insert(s[0], Sort(s[1..], ascending), ascending)
  }

  /** A permutation has the same names. */
  lemma SameNames(s: seq<Migration>, t: seq<Migration>)
    requires multiset(s) == multiset(t)
    ensures MigrationNames(s) == MigrationNames(t)
  {
    forall n | n in MigrationNames(s)
      ensures n in MigrationNames(t)
    {
      var m :| m in s && m.name == n;
      assert m in multiset(t);
    }
    forall n | n in MigrationNames(t)
      ensures n in MigrationNames(s)
    {
      var m :| m in t && m.name == n;
      assert m in multiset(s);
    }
  }
}
