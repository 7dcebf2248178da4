// The soft-delete sweep: one DELETE per tracked table, in name order, each with
// what the foreign keys of the target add to it.
module Sweep {
  import opened Wrappers
  import opened Rows
  import opened ForeignKeys

  // The rows one table's DELETE names.
  function ExpiredIn(refs: map<string, TableRef>, db: Db, name: string, bound: Bound): set<RowId> {
    if name in db && name in refs then set k | k in db[name] && SoftDeleted(refs[name], db[name][k], bound) :: (name, k)
    else {}
  }

  // The sweep, table by table.
  ghost function SweptInOrder(refs: map<string, TableRef>, fks: set<ForeignKey>, db: Db, names: seq<string>, bound: Bound): Db {
    if names == [] then db
    else
      var before := SweptInOrder(refs, fks, db, names[..|names| - 1], bound);
      Deleted(before, fks, ExpiredIn(refs, before, names[|names| - 1], bound))
  }

  // Every row of a tracked table that is soft-deleted at or before the bound.
  ghost function ExpiredRows(refs: map<string, TableRef>, db: Db, bound: Bound): set<RowId> {
    set x | x in RowIds(db) && x.0 in refs && SoftDeleted(refs[x.0], db[x.0][x.1], bound)
  }

  ghost function ExpiredAmong(refs: map<string, TableRef>, db: Db, names: seq<string>, bound: Bound): set<RowId> {
    set x | x in ExpiredRows(refs, db, bound) && x.0 in names
  }

  ghost function SweptDb(refs: map<string, TableRef>, fks: set<ForeignKey>, db: Db, bound: Bound): Db {
    Deleted(db, fks, ExpiredRows(refs, db, bound))
  }

  // SET NULL clears no stamp column.
  ghost predicate StampsKept(refs: map<string, TableRef>, fks: set<ForeignKey>) {
    forall fk :: fk in fks && fk.onDelete.SetNull? && fk.child in refs ==> NoStampIn(refs[fk.child], fk.cols)
  }

  predicate NoStampIn(ref: TableRef, cols: seq<string>) {
    ref.createdAt !in cols && ref.updatedAt !in cols && ref.deletedAt !in cols
  }

  lemma StampKept(refs: map<string, TableRef>, fks: set<ForeignKey>, name: string, row: Row, gone: set<RowId>, bound: Bound)
    requires StampsKept(refs, fks) && name in refs
    ensures SoftDeleted(refs[name], ClearedRow(fks, name, row, gone), bound) <==> SoftDeleted(refs[name], row, bound)
    ensures ChangeTime(refs[name], ClearedRow(fks, name, row, gone)) == ChangeTime(refs[name], row)
  {
    forall c | c in {refs[name].createdAt, refs[name].updatedAt, refs[name].deletedAt} ensures !Cleared(fks, name, row, c, gone) {
    }
  }

  // What the next DELETE names is what it would have named at the start, and is left.
  lemma ExpiredLeft(refs: map<string, TableRef>, fks: set<ForeignKey>, db: Db, gone: set<RowId>, name: string, bound: Bound)
    requires StampsKept(refs, fks)
    ensures var left := Without(db, fks, gone);
            ExpiredIn(refs, left, name, bound) == ExpiredIn(refs, db, name, bound) * RowIds(left)
  {
    if name in db && name in refs {
      forall k | k in db[name]
        ensures SoftDeleted(refs[name], ClearedRow(fks, name, db[name][k], gone), bound) <==> SoftDeleted(refs[name], db[name][k], bound)
      {
        StampKept(refs, fks, name, db[name][k], gone, bound);
      }
    }
  }

  lemma NothingDeleted(db: Db, fks: set<ForeignKey>)
    ensures Deleted(db, fks, {}) == db
  {
    assert Fallen(db, fks, {}) == {};
    forall name | name in db ensures TableWithout(fks, name, db[name], {}) == db[name] {
      forall k | k in db[name] ensures ClearedRow(fks, name, db[name][k], {}) == db[name][k] {
      }
    }
  }

  lemma {:induction false} SweptSoFar(refs: map<string, TableRef>, fks: set<ForeignKey>, db: Db, names: seq<string>, bound: Bound)
    requires Separate(fks) && StampsKept(refs, fks)
    ensures SweptInOrder(refs, fks, db, names, bound) == Deleted(db, fks, ExpiredAmong(refs, db, names, bound))
  {
    if names == [] {
      assert ExpiredAmong(refs, db, names, bound) == {};
      NothingDeleted(db, fks);
    } else {
      var init, name := names[..|names| - 1], names[|names| - 1];
      var a, b := ExpiredAmong(refs, db, init, bound), ExpiredIn(refs, db, name, bound);
      SweptSoFar(refs, fks, db, init, bound);
      ExpiredLeft(refs, fks, db, Fallen(db, fks, a), name, bound);
      assert names == init + [name];
      assert b <= RowIds(db) && a + b == ExpiredAmong(refs, db, names, bound);
      DeletedTwice(db, fks, a, b);
    }
  }

  // The order of the tables does not matter: the whole sweep is one deletion.
  lemma SweepIsOneDeletion(refs: map<string, TableRef>, fks: set<ForeignKey>, db: Db, names: seq<string>, bound: Bound)
    requires Separate(fks) && StampsKept(refs, fks)
    requires forall name :: name in refs && refs[name].deletedAt != "" ==> name in names
    ensures SweptInOrder(refs, fks, db, names, bound) == SweptDb(refs, fks, db, bound)
  {
    SweptSoFar(refs, fks, db, names, bound);
    assert ExpiredAmong(refs, db, names, bound) == ExpiredRows(refs, db, bound);
  }

  // A row whose reference the deletion clears.
  ghost predicate LosesParent(db: Db, fks: set<ForeignKey>, dead: set<RowId>, x: RowId)
    requires HasRow(db, x)
  {
    exists fk, c :: fk in fks && c in db[x.0][x.1] && Clears(fk, x.0, db[x.0][x.1], c, Fallen(db, fks, dead))
  }

  // What a deletion leaves of one row.
  lemma AfterDeletion(db: Db, fks: set<ForeignKey>, dead: set<RowId>, x: RowId)
    requires x.0 in db
    ensures x.0 in Deleted(db, fks, dead)
    ensures Lookup(Deleted(db, fks, dead)[x.0], x.1)
            == if HasRow(db, x) && !Falls(db, fks, dead, x)
               then Some(ClearedRow(fks, x.0, db[x.0][x.1], Fallen(db, fks, dead))) else None
    ensures HasRow(db, x) ==>
              (ClearedRow(fks, x.0, db[x.0][x.1], Fallen(db, fks, dead)) == db[x.0][x.1] <==> !LosesParent(db, fks, dead, x))
  {
    if HasRow(db, x) {
      ClearedIff(db, fks, dead, x);
    }
  }

  lemma ClearedIff(db: Db, fks: set<ForeignKey>, dead: set<RowId>, x: RowId)
    requires HasRow(db, x)
    ensures ClearedRow(fks, x.0, db[x.0][x.1], Fallen(db, fks, dead)) == db[x.0][x.1] <==> !LosesParent(db, fks, dead, x)
  {
    var row, gone := db[x.0][x.1], Fallen(db, fks, dead);
    if LosesParent(db, fks, dead, x) {
      var fk, c :| fk in fks && c in row && Clears(fk, x.0, row, c, gone);
      assert Cleared(fks, x.0, row, c, gone) && row[c] != Null;
    } else {
      assert ClearedRow(fks, x.0, row, gone) == row;
    }
  }

  // The row is there before the deletion and survives it as it was.
  ghost predicate Untouched(db: Db, fks: set<ForeignKey>, dead: set<RowId>, x: RowId) {
    HasRow(db, x) && !Falls(db, fks, dead, x) && !LosesParent(db, fks, dead, x)
  }

  // When clearing cannot produce the wanted row from another one: the deletion
  // leaves what is wanted exactly if the wanted row was there and is untouched, or
  // nothing is wanted and nothing was there or it falls.
  lemma WantedIff(db: Db, fks: set<ForeignKey>, dead: set<RowId>, x: RowId, wanted: Option<Row>)
    requires x.0 in db
    requires HasRow(db, x) && wanted == Some(ClearedRow(fks, x.0, db[x.0][x.1], Fallen(db, fks, dead))) ==>
               wanted == Some(db[x.0][x.1])
    ensures x.0 in Deleted(db, fks, dead)
    ensures Lookup(Deleted(db, fks, dead)[x.0], x.1) == wanted <==>
            if wanted.Some? then Lookup(db[x.0], x.1) == wanted && Untouched(db, fks, dead, x)
            else !HasRow(db, x) || Falls(db, fks, dead, x)
  {
    AfterDeletion(db, fks, dead, x);
  }

  // The same for a row that was as wanted before, unless the deletion named it.
  lemma TrueRowAfter(db: Db, fks: set<ForeignKey>, dead: set<RowId>, x: RowId, truth: Option<Row>)
    requires x.0 in db && Lookup(db[x.0], x.1) == truth
    ensures x.0 in Deleted(db, fks, dead)
    ensures x.1 in Deleted(db, fks, dead)[x.0] <==> truth.Some? && x !in dead && !Falls(db, fks, dead, x)
    ensures x.1 in Deleted(db, fks, dead)[x.0] ==>
              (Deleted(db, fks, dead)[x.0][x.1] == truth.value <==> !LosesParent(db, fks, dead, x))
  {
    AfterDeletion(db, fks, dead, x);
    if x in dead {
      assert LeadsTo(db, fks, [x], x, dead);
    }
  }
}
