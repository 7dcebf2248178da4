// The apply script of one incremental: a transaction per table, in the order
// the tables were discovered, each checked against the target's constraints.
module ApplyScript {
  import opened Wrappers
  import opened Rows
  import opened Catalog
  import opened Upsert
  import opened ForeignKeys
  import opened FileTree
  import opened Assembler

  // What the restorer finds around the chain: the target's schema and foreign
  // keys, the columns each incremental recorded for a table, the tracked tables with
  // their stamp columns and in name order, the order of the rows in each captured file,
  // the split manifest of each backup, and the hash.
  datatype Setting = Setting(schema: map<string, Schema>, foreignKeys: set<ForeignKey>, recorded: map<string, seq<string>>,
                             refs: map<string, TableRef>, order: seq<string>, fileOrder: (BackupId, string) -> seq<Key>,
                             splits: map<BackupId, seq<SplitInfo>>, hash: Bytes -> string)

  predicate Applicable(env: Setting, name: string) {
    && name in env.refs && name in env.schema
    && env.schema[name].columns != [] && env.schema[name].pk != []
  }

  function ColumnsFor(env: Setting, name: string): seq<string>
    requires name in env.schema
  {
    if name in env.recorded && env.recorded[name] != [] then env.recorded[name] else env.schema[name].columns
  }

  predicate Drifted(env: Setting, name: string)
    requires name in env.schema
  {
    exists c :: c in ColumnsFor(env, name) && c !in env.schema[name].columns
  }

  function TableOf(db: Db, name: string): Table {
    if name in db then db[name] else map[]
  }

  // Another row has the same values in a unique column list.
  predicate Clashes(unique: set<seq<string>>, t: Table, k: Key, row: Row) {
    exists u, j :: u in unique && j in t && j != k && ValuesOf(u, row).Some? && ValuesOf(u, t[j]) == ValuesOf(u, row)
  }

  // INSERT ... ON CONFLICT of one row; None when a unique index rejects it.
  function UpsertRow(u: OnConflict, unique: set<seq<string>>, t: Table, k: Key, row: Row): Option<Table> {
    if k in t && u.DoNothing? then Some(t)
    else
      var next := if k in t then ConflictRow(u, t[k], row) else row;
      if Clashes(unique, t, k, next) then None else Some(t[k := next])
  }

  function UpsertRows(u: OnConflict, unique: set<seq<string>>, t: Table, loaded: Table, ks: seq<Key>): Option<Table>
    requires forall k :: k in ks ==> k in loaded
    decreases |ks|
  {
    if ks == [] then Some(t)
    else match UpsertRow(u, unique, t, ks[0], loaded[ks[0]])
      case None => None
      case Some(next) => UpsertRows(u, unique, next, loaded, ks[1..])
  }

  // The loaded rows in file order, without those the DELETE dropped.
  function InFileOrder(order: seq<Key>, loaded: Table): (ks: seq<Key>)
    ensures forall k :: k in ks <==> k in order && k in loaded
  {
    if order == [] then []
    else
      var last := order[|order| - 1];
      assert order == order[..|order| - 1] + [last];
      InFileOrder(order[..|order| - 1], loaded) + if last in loaded then [last] else []
  }

  // The rows that some rows of one table refer to.
  function ParentsOf(fks: set<ForeignKey>, name: string, t: Table, ks: set<Key>): set<RowId> {
    set fk, k | fk in fks && fk.child == name && k in ks && k in t && ValuesOf(fk.cols, t[k]).Some? ::
      (fk.parent, ValuesOf(fk.cols, t[k]).value)
  }

  // Tables without captured data, columns or primary key are skipped.
  predicate InScript(env: Setting, inc: Backup, name: string) {
    name in inc.data && Applicable(env, name)
  }

  // What is left of one table's captured rows for the INSERT.
  function LoadedRows(env: Setting, inc: Backup, name: string, bound: Bound): Table
    requires InScript(env, inc, name)
  {
    DropNewer(env.refs[name], inc.data[name], bound)
  }

  function InsertedTable(env: Setting, t: Table, inc: Backup, name: string, bound: Bound): Option<Table>
    requires InScript(env, inc, name)
  {
    var s, loaded := env.schema[name], LoadedRows(env, inc, name, bound);
    UpsertRows(ConflictClause(s.pk, ColumnsFor(env, name)), s.unique, t, loaded,
               InFileOrder(env.fileOrder(inc.meta.id, name), loaded))
  }

  // The rows that the loaded rows of one table refer to.
  function LoadedParents(env: Setting, t: Table, inc: Backup, name: string, bound: Bound): set<RowId>
    requires InScript(env, inc, name)
  {
    ParentsOf(env.foreignKeys, name, t, LoadedRows(env, inc, name, bound).Keys)
  }

  predicate HasRows(db: Db, xs: set<RowId>) {
    forall x :: x in xs ==> HasRow(db, x)
  }

  // One table's BEGIN ... COMMIT block; None when it aborts. Unique indexes are
  // checked row by row, foreign keys at the end of the INSERT.
  function Transaction(env: Setting, db: Db, inc: Backup, name: string, bound: Bound): Option<Db> {
    if !InScript(env, inc, name) then Some(db)
    else match InsertedTable(env, TableOf(db, name), inc, name, bound)
      case None => None
      case Some(t) =>
        if HasRows(db[name := t], LoadedParents(env, t, inc, name, bound)) then Some(db[name := t]) else None
  }

  // Transactions one after the other. The first that aborts stops them; the ones
  // before it are committed.
  function RunAll(transact: (Db, string) -> Option<Db>, db: Db, names: seq<string>): (Db, Option<string>)
    decreases |names|
  {
    if names == [] then (db, None)
    else match transact(db, names[0])
      case None => (db, Some(names[0]))
      case Some(after) => RunAll(transact, after, names[1..])
  }

  function ScriptRun(env: Setting, db: Db, inc: Backup, bound: Bound): (Db, Option<string>) {
    RunAll((d, name) => Transaction(env, d, inc, name, bound), db, env.order)
  }

  ghost predicate DistinctKeys<T>(ks: seq<T>) {
    forall i, j :: 0 <= i < j < |ks| ==> ks[i] != ks[j]
  }

  // Each captured file holds its rows once each.
  ghost predicate FilesOk(env: Setting, inc: Backup) {
    forall name :: name in inc.data ==> FileLists(env.fileOrder(inc.meta.id, name), inc.data[name])
  }

  ghost predicate FileLists(order: seq<Key>, t: Table) {
    DistinctKeys(order) && forall k :: k in order <==> k in t
  }

  lemma {:induction false} FileOrderDistinct(order: seq<Key>, loaded: Table)
    requires DistinctKeys(order)
    ensures DistinctKeys(InFileOrder(order, loaded))
  {
    if order != [] {
      FileOrderDistinct(order[..|order| - 1], loaded);
      assert order[|order| - 1] !in order[..|order| - 1];
    }
  }

  // The rows one after the other, when all are accepted, are the INSERT as a whole.
  lemma {:induction false} UpsertRowsLookup(u: OnConflict, unique: set<seq<string>>, t: Table, loaded: Table, ks: seq<Key>, k: Key)
    requires DistinctKeys(ks) && forall j :: j in ks ==> j in loaded
    requires UpsertRows(u, unique, t, loaded, ks).Some?
    ensures Lookup(UpsertRows(u, unique, t, loaded, ks).value, k)
            == if k !in ks then Lookup(t, k) else Some(if k in t then ConflictRow(u, t[k], loaded[k]) else loaded[k])
    decreases |ks|
  {
    if ks != [] {
      var next := UpsertRow(u, unique, t, ks[0], loaded[ks[0]]).value;
      assert ks == [ks[0]] + ks[1..] && ks[0] !in ks[1..];
      UpsertRowLookup(u, unique, t, ks[0], loaded[ks[0]], k);
      UpsertRowsLookup(u, unique, next, loaded, ks[1..], k);
      assert k in next <==> Lookup(next, k).Some?;
    }
  }

  lemma UpsertRowLookup(u: OnConflict, unique: set<seq<string>>, t: Table, k: Key, row: Row, j: Key)
    requires UpsertRow(u, unique, t, k, row).Some?
    ensures Lookup(UpsertRow(u, unique, t, k, row).value, j)
            == if j != k then Lookup(t, j) else Some(if k in t then ConflictRow(u, t[k], row) else row)
  {
  }

  // An INSERT that goes through is the upsert of every loaded row.
  lemma InsertIsUpsert(env: Setting, t: Table, inc: Backup, name: string, bound: Bound)
    requires InScript(env, inc, name)
    requires FileLists(env.fileOrder(inc.meta.id, name), inc.data[name])
    requires InsertedTable(env, t, inc, name, bound).Some?
    ensures InsertedTable(env, t, inc, name, bound).value
            == Upserted(ConflictClause(env.schema[name].pk, ColumnsFor(env, name)), t, LoadedRows(env, inc, name, bound))
  {
    var u, loaded := ConflictClause(env.schema[name].pk, ColumnsFor(env, name)), LoadedRows(env, inc, name, bound);
    var order := env.fileOrder(inc.meta.id, name);
    var ks := InFileOrder(order, loaded);
    FileOrderDistinct(order, loaded);
    var got, want := InsertedTable(env, t, inc, name, bound).value, Upserted(u, t, loaded);
    forall k ensures Lookup(got, k) == Lookup(want, k) {
      UpsertRowsLookup(u, env.schema[name].unique, t, loaded, ks, k);
    }
    SameLookups(got, want);
  }
}
