// The constraints of the target database, read off its columns, and that no
// restore breaks them, however far it gets.
module Integrity {
  import opened Wrappers
  import opened Rows
  import opened Catalog
  import opened Selection
  import opened Upsert
  import opened ForeignKeys
  import opened Sweep
  import opened ApplyScript
  import opened ApplyLaws
  import opened RestoreService
  import opened FileTree

  // Row x holds the key of row y in the columns of the foreign key, none of them NULL.
  predicate References(db: Db, fk: ForeignKey, x: RowId, y: RowId) {
    && fk.child == x.0 && x.0 in db && x.1 in db[x.0] && fk.parent == y.0 && |y.1| == |fk.cols|
    && forall i :: 0 <= i < |fk.cols| ==>
         var c := fk.cols[i]; c in db[x.0][x.1] && db[x.0][x.1][c] == y.1[i] != Null
  }

  // Every reference is to a row that is there.
  ghost predicate Resolves(db: Db, fks: set<ForeignKey>) {
    forall fk, x, y :: fk in fks && References(db, fk, x, y) ==> y.0 in db && y.1 in db[y.0]
  }

  // Two rows have the same values in some columns, none of them NULL.
  predicate SameIn(cols: seq<string>, a: Row, b: Row) {
    forall c :: c in cols ==> c in a && c in b && a[c] == b[c] != Null
  }

  // No two rows agree on a unique column list.
  ghost predicate NoDuplicates(unique: set<seq<string>>, t: Table) {
    forall u, j, k :: u in unique && j in t && k in t && j != k ==> !SameIn(u, t[j], t[k])
  }

  ghost predicate Unique(schema: map<string, Schema>, db: Db) {
    forall name :: name in db && name in schema ==> NoDuplicates(schema[name].unique, db[name])
  }

  ghost predicate Consistent(env: Setting, db: Db) {
    Resolves(db, env.foreignKeys) && Unique(env.schema, db)
  }

  ghost predicate HaveColumns(fks: set<ForeignKey>) {
    forall fk :: fk in fks ==> fk.cols != []
  }

  lemma ReferencesIff(db: Db, fk: ForeignKey, x: RowId, y: RowId)
    ensures References(db, fk, x, y) <==> Refers(db, fk, x, y)
  {
    if HasRow(db, x) && fk.child == x.0 && fk.parent == y.0 {
      ValuesIff(fk.cols, db[x.0][x.1], y.1);
    }
  }

  lemma ValuesIff(cols: seq<string>, row: Row, values: Key)
    ensures ValuesOf(cols, row) == Some(values) <==>
            |values| == |cols| && forall i :: 0 <= i < |cols| ==> var c := cols[i]; c in row && row[c] == values[i] != Null
  {
    if |values| == |cols| && forall i :: 0 <= i < |cols| ==> var c := cols[i]; c in row && row[c] == values[i] != Null {
      assert forall c :: c in cols ==> c in row && row[c] != Null;
      assert ValuesOf(cols, row).value == values;
    }
    if ValuesOf(cols, row) == Some(values) {
      assert forall i :: 0 <= i < |cols| ==> cols[i] in cols;
    }
  }

  lemma SameInIff(cols: seq<string>, a: Row, b: Row)
    ensures SameIn(cols, a, b) <==> ValuesOf(cols, b).Some? && ValuesOf(cols, a) == ValuesOf(cols, b)
  {
    if SameIn(cols, a, b) {
      assert ValuesOf(cols, a).value == ValuesOf(cols, b).value;
    }
    if ValuesOf(cols, b).Some? && ValuesOf(cols, a) == ValuesOf(cols, b) {
      forall c | c in cols ensures c in a && c in b && a[c] == b[c] != Null {
        var i :| 0 <= i < |cols| && cols[i] == c;
        assert ValuesOf(cols, a).value[i] == a[c] && ValuesOf(cols, b).value[i] == b[c];
      }
    }
  }

  // The rows that go with a deletion are the least set that holds those to delete
  // and every row that refers, by a cascading key, to one of them.
  lemma FallenIsLeast(db: Db, fks: set<ForeignKey>, dead: set<RowId>, s: set<RowId>)
    requires dead <= RowIds(db)
    ensures dead <= Fallen(db, fks, dead) && ClosedUnder(db, fks, Fallen(db, fks, dead))
    ensures dead <= s && ClosedUnder(db, fks, s) ==> Fallen(db, fks, dead) <= s
  {
    DeadFall(db, fks, dead);
    forall fk, x, y | fk in fks && fk.onDelete.Cascade? && References(db, fk, x, y) && y in Fallen(db, fks, dead)
      ensures x in Fallen(db, fks, dead)
    {
      ReferencesIff(db, fk, x, y);
      FallsStep(db, fks, dead, x, y);
    }
    if dead <= s && ClosedUnder(db, fks, s) {
      forall x | x in Fallen(db, fks, dead) ensures x in s {
        var p :| LeadsTo(db, fks, p, x, dead);
        ChainIn(db, fks, s, p, 0);
      }
    }
  }

  ghost predicate ClosedUnder(db: Db, fks: set<ForeignKey>, s: set<RowId>) {
    forall fk, x, y :: fk in fks && fk.onDelete.Cascade? && References(db, fk, x, y) && y in s ==> x in s
  }

  lemma {:induction false} ChainIn(db: Db, fks: set<ForeignKey>, s: set<RowId>, p: seq<RowId>, i: nat)
    requires ClosedUnder(db, fks, s) && i < |p| && Cascades(db, fks, p) && p[|p| - 1] in s
    ensures p[i] in s
    decreases |p| - i
  {
    if i < |p| - 1 {
      ChainIn(db, fks, s, p, i + 1);
      assert CascadesTo(db, fks, p[i], p[i + 1]);
      var fk :| fk in fks && fk.onDelete.Cascade? && Refers(db, fk, p[i], p[i + 1]);
      ReferencesIff(db, fk, p[i], p[i + 1]);
    }
  }

  // A row that a deletion leaves keeps every column, but for the NULLs of the SET
  // NULL keys by which it referred to a row that fell.
  lemma SurvivorsKeep(db: Db, fks: set<ForeignKey>, dead: set<RowId>, x: RowId)
    requires HasRow(db, x) && x !in Fallen(db, fks, dead)
    ensures HasRow(Deleted(db, fks, dead), x)
    ensures var row, left := db[x.0][x.1], Deleted(db, fks, dead)[x.0][x.1];
            left.Keys == row.Keys
            && forall c :: c in row ==> left[c] == if LosesColumn(db, fks, Fallen(db, fks, dead), x, c) then Null else row[c]
  {
    var row, gone := db[x.0][x.1], Fallen(db, fks, dead);
    forall c | c in row ensures Cleared(fks, x.0, row, c, gone) <==> LosesColumn(db, fks, gone, x, c) {
      if Cleared(fks, x.0, row, c, gone) {
        var fk :| fk in fks && Clears(fk, x.0, row, c, gone);
        ReferencesIff(db, fk, x, (fk.parent, ValuesOf(fk.cols, row).value));
      }
      if LosesColumn(db, fks, gone, x, c) {
        var fk, y :| fk in fks && fk.onDelete.SetNull? && c in fk.cols && y in gone && References(db, fk, x, y);
        ReferencesIff(db, fk, x, y);
        assert Clears(fk, x.0, row, c, gone);
      }
    }
  }

  ghost predicate LosesColumn(db: Db, fks: set<ForeignKey>, gone: set<RowId>, x: RowId, c: string) {
    exists fk, y :: fk in fks && fk.onDelete.SetNull? && c in fk.cols && y in gone && References(db, fk, x, y)
  }

  // What a row refers to after a deletion it referred to before, and that did not fall.
  lemma NoneRefersToFallen(db: Db, fks: set<ForeignKey>, dead: set<RowId>, fk: ForeignKey, x: RowId, y: RowId)
    requires HaveColumns(fks) && fk in fks && References(Deleted(db, fks, dead), fk, x, y)
    ensures References(db, fk, x, y) && y !in Fallen(db, fks, dead)
  {
    SurvivorsKeep(db, fks, dead, x);
    assert fk.cols[0] in fk.cols && Deleted(db, fks, dead)[x.0][x.1][fk.cols[0]] != Null;
    if y in Fallen(db, fks, dead) {
      ReferrerIsTouched(db, fks, dead, fk, x, y);
    }
  }

  lemma ReferrerIsTouched(db: Db, fks: set<ForeignKey>, dead: set<RowId>, fk: ForeignKey, x: RowId, y: RowId)
    requires fk in fks && References(db, fk, x, y) && y in Fallen(db, fks, dead)
    ensures x in Fallen(db, fks, dead) || forall c :: c in fk.cols ==> LosesColumn(db, fks, Fallen(db, fks, dead), x, c)
  {
    if fk.onDelete.Cascade? {
      ReferencesIff(db, fk, x, y);
      FallsStep(db, fks, dead, x, y);
    }
  }

  // A deletion leaves no reference open and makes no two rows alike.
  lemma DeletionKeepsConsistent(env: Setting, db: Db, dead: set<RowId>)
    requires Consistent(env, db) && HaveColumns(env.foreignKeys)
    ensures Consistent(env, Deleted(db, env.foreignKeys, dead))
  {
    var fks := env.foreignKeys;
    var left := Deleted(db, fks, dead);
    forall fk, x, y | fk in fks && References(left, fk, x, y) ensures y.0 in left && y.1 in left[y.0] {
      NoneRefersToFallen(db, fks, dead, fk, x, y);
    }
    forall name | name in left && name in env.schema ensures NoDuplicates(env.schema[name].unique, left[name]) {
      forall u, j, k | u in env.schema[name].unique && j in left[name] && k in left[name] && j != k
        ensures !SameIn(u, left[name][j], left[name][k])
      {
        SurvivorsKeep(db, fks, dead, (name, j));
        SurvivorsKeep(db, fks, dead, (name, k));
        assert !SameIn(u, db[name][j], db[name][k]);
      }
    }
  }

  lemma {:induction false} SweepKeepsConsistent(env: Setting, db: Db, names: seq<string>, bound: Bound)
    requires Consistent(env, db) && HaveColumns(env.foreignKeys)
    ensures Consistent(env, SweptInOrder(env.refs, env.foreignKeys, db, names, bound))
  {
    if names != [] {
      var n := |names| - 1;
      var before := SweptInOrder(env.refs, env.foreignKeys, db, names[..n], bound);
      SweepKeepsConsistent(env, db, names[..n], bound);
      DeletionKeepsConsistent(env, before, ExpiredIn(env.refs, before, names[n], bound));
    }
  }

  // The unique indexes admit a row: it is left alone, or what is stored of it is
  // like no other row of the table.
  predicate Admits(u: OnConflict, unique: set<seq<string>>, t: Table, k: Key, row: Row) {
    || (k in t && u.DoNothing?)
    || var next := if k in t then ConflictRow(u, t[k], row) else row;
       forall l, j :: l in unique && j in t && j != k ==> !SameIn(l, t[j], next)
  }

  lemma UpsertRowIff(u: OnConflict, unique: set<seq<string>>, t: Table, k: Key, row: Row)
    ensures UpsertRow(u, unique, t, k, row).Some? <==> Admits(u, unique, t, k, row)
  {
    var next := if k in t then ConflictRow(u, t[k], row) else row;
    forall l, j | l in unique && j in t ensures SameIn(l, t[j], next) <==> ValuesOf(l, next).Some? && ValuesOf(l, t[j]) == ValuesOf(l, next) {
      SameInIff(l, t[j], next);
    }
  }

  // The loaded rows among some keys.
  function Among(loaded: Table, ks: seq<Key>): Table {
    map k | k in ks && k in loaded :: loaded[k]
  }

  lemma {:induction false} OneRowMore(u: OnConflict, unique: set<seq<string>>, t: Table, loaded: Table, ks: seq<Key>, k: Key)
    requires k in loaded && forall j :: j in ks ==> j in loaded
    ensures UpsertRows(u, unique, t, loaded, ks + [k])
            == match UpsertRows(u, unique, t, loaded, ks)
               case None => None
               case Some(made) => UpsertRow(u, unique, made, k, loaded[k])
    decreases |ks|
  {
    if ks == [] {
      assert [] + [k] == [k] && [k][1..] == [];
    } else {
      var next := UpsertRow(u, unique, t, ks[0], loaded[ks[0]]);
      assert (ks + [k])[1..] == ks[1..] + [k];
      if next.Some? {
        OneRowMore(u, unique, next.value, loaded, ks[1..], k);
      }
    }
  }

  // What an INSERT has made of a table after some rows of the file.
  lemma MadeSoFar(u: OnConflict, unique: set<seq<string>>, t: Table, loaded: Table, order: seq<Key>)
    requires DistinctKeys(order)
    ensures var made := UpsertRows(u, unique, t, loaded, InFileOrder(order, loaded));
            made.Some? ==> made.value == Upserted(u, t, Among(loaded, order))
  {
    var ks := InFileOrder(order, loaded);
    var made := UpsertRows(u, unique, t, loaded, ks);
    FileOrderDistinct(order, loaded);
    if made.Some? {
      forall k ensures Lookup(made.value, k) == Lookup(Upserted(u, t, Among(loaded, order)), k) {
        UpsertRowsLookup(u, unique, t, loaded, ks, k);
      }
      SameLookups(made.value, Upserted(u, t, Among(loaded, order)));
    }
  }

  // An INSERT goes through exactly when each loaded row is admitted into the table
  // that the rows before it in the file have made.
  lemma {:induction false} InsertedIff(u: OnConflict, unique: set<seq<string>>, t: Table, loaded: Table, order: seq<Key>)
    requires DistinctKeys(order)
    ensures UpsertRows(u, unique, t, loaded, InFileOrder(order, loaded)).Some? <==> AllAdmitted(u, unique, t, loaded, order)
    decreases |order|
  {
    if order != [] {
      var init, last := order[..|order| - 1], order[|order| - 1];
      InsertedIff(u, unique, t, loaded, init);
      MadeSoFar(u, unique, t, loaded, init);
      if last in loaded {
        var ks, made := InFileOrder(init, loaded), Upserted(u, t, Among(loaded, init));
        OneRowMore(u, unique, t, loaded, ks, last);
        assert InFileOrder(order, loaded) == ks + [last];
        UpsertRowIff(u, unique, made, last, loaded[last]);
        assert AllAdmitted(u, unique, t, loaded, order) <==>
               AllAdmitted(u, unique, t, loaded, init) && Admits(u, unique, made, last, loaded[last]);
      } else {
        assert InFileOrder(order, loaded) == InFileOrder(init, loaded);
      }
    }
  }

  ghost predicate AllAdmitted(u: OnConflict, unique: set<seq<string>>, t: Table, loaded: Table, order: seq<Key>) {
    order == [] ||
    var init, last := order[..|order| - 1], order[|order| - 1];
    && AllAdmitted(u, unique, t, loaded, init)
    && (last in loaded ==> Admits(u, unique, Upserted(u, t, Among(loaded, init)), last, loaded[last]))
  }

  // Every row that the loaded rows refer to is in the target or loaded no later.
  ghost predicate AllPresent(env: Setting, db: Db, after: Db, inc: Backup, i: nat, ks: set<Key>, bound: Bound)
    requires i < |env.order|
  {
    var upTo := i + 1;
    forall y :: ReferredTo(after, env.foreignKeys, env.order[i], ks, y) ==> Present(env, db, inc, upTo, bound, y)
  }

  // One of these rows of the table refers to row y.
  ghost predicate ReferredTo(db: Db, fks: set<ForeignKey>, name: string, ks: set<Key>, y: RowId) {
    exists fk, k :: fk in fks && k in ks && References(db, fk, (name, k), y)
  }

  // The references of the loaded rows, as they are stored.
  lemma LoadedParentsIff(env: Setting, db: Db, t: Table, inc: Backup, name: string, bound: Bound, y: RowId)
    requires InScript(env, inc, name)
    ensures y in LoadedParents(env, t, inc, name, bound) <==>
            ReferredTo(db[name := t], env.foreignKeys, name, LoadedRows(env, inc, name, bound).Keys, y)
  {
    var loaded := LoadedRows(env, inc, name, bound);
    forall fk, k | fk in env.foreignKeys && k in loaded
      ensures References(db[name := t], fk, (name, k), y) <==>
              fk.child == name && k in t && ValuesOf(fk.cols, t[k]).Some? && y == (fk.parent, ValuesOf(fk.cols, t[k]).value)
    {
      ReferencesIff(db[name := t], fk, (name, k), y);
    }
  }

  lemma AcceptedIff(env: Setting, db: Db, inc: Backup, name: string, bound: Bound)
    requires InScript(env, inc, name) && FilesOk(env, inc)
    ensures Accepted(env, db, inc, name, bound) <==>
            AllAdmitted(ConflictClause(env.schema[name].pk, ColumnsFor(env, name)), env.schema[name].unique, TableOf(db, name),
                        LoadedRows(env, inc, name, bound), env.fileOrder(inc.meta.id, name))
  {
    InsertedIff(ConflictClause(env.schema[name].pk, ColumnsFor(env, name)), env.schema[name].unique, TableOf(db, name),
                LoadedRows(env, inc, name, bound), env.fileOrder(inc.meta.id, name));
  }

  lemma ParentsPresentIff(env: Setting, db: Db, t: Table, inc: Backup, i: nat, bound: Bound)
    requires i < |env.order| && InScript(env, inc, env.order[i])
    ensures var name := env.order[i];
            (forall y :: y in LoadedParents(env, t, inc, name, bound) ==> Present(env, db, inc, i + 1, bound, y)) <==>
            AllPresent(env, db, db[name := t], inc, i, LoadedRows(env, inc, name, bound).Keys, bound)
  {
    var name, after := env.order[i], db[env.order[i] := t];
    var ks := LoadedRows(env, inc, name, bound).Keys;
    forall y ensures y in LoadedParents(env, t, inc, name, bound) <==> ReferredTo(after, env.foreignKeys, name, ks, y) {
      LoadedParentsIff(env, db, t, inc, name, bound, y);
    }
    if AllPresent(env, db, after, inc, i, ks, bound) {
      forall y | y in LoadedParents(env, t, inc, name, bound) ensures Present(env, db, inc, i + 1, bound, y) {
        assert ReferredTo(after, env.foreignKeys, name, ks, y);
      }
    }
  }

  // A table's transaction goes through exactly if the unique indexes admit each
  // loaded row in file order, and each reference of a loaded row is to a row that is in
  // the target or loaded no later.
  lemma PassesIff(env: Setting, db: Db, inc: Backup, i: nat, bound: Bound)
    requires i < |env.order| && InScript(env, inc, env.order[i]) && FilesOk(env, inc)
    ensures var name := env.order[i];
            var loaded := LoadedRows(env, inc, name, bound);
            Passes(env, db, inc, i, bound) <==>
            && AllAdmitted(ConflictClause(env.schema[name].pk, ColumnsFor(env, name)), env.schema[name].unique, TableOf(db, name),
                           loaded, env.fileOrder(inc.meta.id, name))
            && AllPresent(env, db, db[name := UpsertedTable(env, TableOf(db, name), inc, name, bound)], inc, i, loaded.Keys, bound)
  {
    var name := env.order[i];
    AcceptedIff(env, db, inc, name, bound);
    ParentsPresentIff(env, db, UpsertedTable(env, TableOf(db, name), inc, name, bound), inc, i, bound);
  }

  lemma {:induction false} InsertKeepsUnique(u: OnConflict, unique: set<seq<string>>, t: Table, loaded: Table, ks: seq<Key>)
    requires NoDuplicates(unique, t) && forall k :: k in ks ==> k in loaded
    requires UpsertRows(u, unique, t, loaded, ks).Some?
    ensures NoDuplicates(unique, UpsertRows(u, unique, t, loaded, ks).value)
    decreases |ks|
  {
    if ks != [] {
      var next := UpsertRow(u, unique, t, ks[0], loaded[ks[0]]).value;
      UpsertRowIff(u, unique, t, ks[0], loaded[ks[0]]);
      forall l, j, k | l in unique && j in next && k in next && j != k ensures !SameIn(l, next[j], next[k]) {
        UpsertRowLookup(u, unique, t, ks[0], loaded[ks[0]], j);
        UpsertRowLookup(u, unique, t, ks[0], loaded[ks[0]], k);
        assert Lookup(next, j) == Some(next[j]) && Lookup(next, k) == Some(next[k]);
        if j == ks[0] && next != t {
          assert !SameIn(l, t[k], next[j]);
        }
      }
      InsertKeepsUnique(u, unique, next, loaded, ks[1..]);
    }
  }

  // One table upserted: its rows are unique as before, the loaded rows refer to rows
  // that are there, and no row was taken away.
  lemma UpsertKeepsResolves(env: Setting, db: Db, inc: Backup, name: string, bound: Bound)
    requires InScript(env, inc, name) && FilesOk(env, inc) && Resolves(db, env.foreignKeys)
    requires InsertedTable(env, TableOf(db, name), inc, name, bound).Some?
    requires var t := InsertedTable(env, TableOf(db, name), inc, name, bound).value;
             HasRows(db[name := t], LoadedParents(env, t, inc, name, bound))
    ensures Resolves(db[name := InsertedTable(env, TableOf(db, name), inc, name, bound).value], env.foreignKeys)
  {
    var loaded := LoadedRows(env, inc, name, bound);
    var t := InsertedTable(env, TableOf(db, name), inc, name, bound).value;
    var after := db[name := t];
    InsertIsUpsert(env, TableOf(db, name), inc, name, bound);
    forall fk, x, y | fk in env.foreignKeys && References(after, fk, x, y) ensures y.0 in after && y.1 in after[y.0] {
      if x.0 == name && x.1 in loaded {
        ReferencesIff(after, fk, x, y);
        assert y in LoadedParents(env, t, inc, name, bound);
        assert HasRow(after, y);
      } else {
        assert References(db, fk, x, y);
      }
    }
  }

  lemma TransactionKeepsConsistent(env: Setting, db: Db, inc: Backup, name: string, bound: Bound)
    requires Consistent(env, db) && FilesOk(env, inc) && Transaction(env, db, inc, name, bound).Some?
    ensures Consistent(env, Transaction(env, db, inc, name, bound).value)
  {
    if InScript(env, inc, name) {
      var loaded := LoadedRows(env, inc, name, bound);
      UpsertKeepsResolves(env, db, inc, name, bound);
      InsertKeepsUnique(ConflictClause(env.schema[name].pk, ColumnsFor(env, name)), env.schema[name].unique, TableOf(db, name),
                        loaded, InFileOrder(env.fileOrder(inc.meta.id, name), loaded));
    }
  }

  lemma {:induction false} ScriptKeepsConsistent(env: Setting, db: Db, inc: Backup, names: seq<string>, bound: Bound)
    requires Consistent(env, db) && FilesOk(env, inc)
    ensures Consistent(env, RunAll((d, name) => Transaction(env, d, inc, name, bound), db, names).0)
    decreases |names|
  {
    if names != [] {
      var step := Transaction(env, db, inc, names[0], bound);
      if step.Some? {
        TransactionKeepsConsistent(env, db, inc, names[0], bound);
        ScriptKeepsConsistent(env, step.value, inc, names[1..], bound);
      }
    }
  }

  lemma {:induction false} ChainKeepsConsistent(env: Setting, dirs: map<BackupId, Files>, db: Db, incs: seq<Backup>, bound: Bound)
    requires Consistent(env, db) && forall i :: 0 <= i < |incs| ==> FilesOk(env, incs[i])
    ensures Consistent(env, AppliedAll(env, dirs, db, incs, bound).0)
    decreases |incs|
  {
    if incs != [] {
      var n := |incs| - 1;
      ChainKeepsConsistent(env, dirs, db, incs[..n], bound);
      ScriptKeepsConsistent(env, AppliedAll(env, dirs, db, incs[..n], bound).0, incs[n], env.order, bound);
    }
  }

  // Wherever a restore ends, with success, at a damaged directory, a drifted table
  // or an aborted transaction: the target's references resolve and its unique columns
  // are unique, if they did in what pg_restore left.
  lemma RestoreKeepsConsistent(env: Setting, dirs: map<BackupId, Files>, prepared: Db, chain: Chain, target: Option<int>)
    requires HaveColumns(env.foreignKeys) && forall i :: 0 <= i < |chain.incs| ==> FilesOk(env, chain.incs[i])
    requires Consistent(env, prepared) && Consistent(env, prepared + chain.base.data)
    ensures Consistent(env, Restored(env, dirs, prepared, chain, target).0)
  {
    ChainKeepsConsistent(env, dirs, prepared + chain.base.data, chain.incs, BoundFor(target));
    SweepKeepsConsistent(env, AppliedAll(env, dirs, prepared + chain.base.data, chain.incs, BoundFor(target)).0, env.order, BoundFor(target));
  }
}
