// The restorer: it rebuilds a target database in place from a selected chain.
module RestoreService {
  import opened Wrappers
  import opened Rows
  import opened Catalog
  import opened Selection
  import opened Upsert
  import opened ForeignKeys
  import opened Sweep
  import opened ApplyScript
  import opened PartNames
  import opened FileTree
  import opened PartJoins
  import opened Assembler
  import opened Checksums

  // Rejected names the table at which a script aborted.
  datatype RestoreError = NoBase(why: SelectError) | Damaged(id: BackupId) | SchemaDrift(table: string) | Rejected(table: string)

  function SplitsOf(env: Setting, id: BackupId): seq<SplitInfo> {
    if id in env.splits then env.splits[id] else []
  }

  // A directory without a checksum file is taken as it is.
  ghost predicate Verifies(hash: Bytes -> string, files: Files) {
    SUMS in files ==> forall l :: l in Lines(files[SUMS]) ==> LineHolds(hash, files, l)
  }

  // The directory passes verification and reassembly.
  ghost predicate Opens(env: Setting, dirs: map<BackupId, Files>, id: BackupId) {
    id in dirs && Verifies(env.hash, dirs[id]) && Assemblable(env.hash, dirs[id], ManifestOf(SplitsOf(env, id)))
  }

  // Some file is in data/ once the directory is assembled.
  ghost predicate HasDump(files: Files) {
    exists p :: "data/" <= p && (HasParts(files, p) || (p in files && !IsPart(p)))
  }

  ghost predicate OpensAsBase(env: Setting, dirs: map<BackupId, Files>, id: BackupId) {
    Opens(env, dirs, id) && HasDump(dirs[id])
  }

  // The first covered table whose columns the target no longer has.
  function FirstDrift(env: Setting, inc: Backup, names: seq<string>): Option<string> {
    if names == [] then None
    else if InScript(env, inc, names[0]) && Drifted(env, names[0]) then Some(names[0])
    else FirstDrift(env, inc, names[1..])
  }

  // Applying one incremental: the directory, then the whole script is built, then it runs.
  ghost function Applied(env: Setting, dirs: map<BackupId, Files>, db: Db, inc: Backup, bound: Bound): (Db, Option<RestoreError>) {
    if !Opens(env, dirs, inc.meta.id) then (db, Some(Damaged(inc.meta.id)))
    else match FirstDrift(env, inc, env.order)
      case Some(name) => (db, Some(SchemaDrift(name)))
      case None =>
        var (after, failed) := ScriptRun(env, db, inc, bound);
        (after, if failed.Some? then Some(Rejected(failed.value)) else None)
  }

  ghost function AppliedAll(env: Setting, dirs: map<BackupId, Files>, db: Db, incs: seq<Backup>, bound: Bound)
    : (Db, Option<RestoreError>)
  {
    if incs == [] then (db, None)
    else
      var (before, failed) := AppliedAll(env, dirs, db, incs[..|incs| - 1], bound);
      if failed.Some? then (before, failed) else Applied(env, dirs, before, incs[|incs| - 1], bound)
  }

  function BoundFor(target: Option<int>): Bound {
    if target.None? then Infinity else At(Micros(target.value))
  }

  // The target database after a restore from the chain, and the error if it failed.
  ghost function Restored(env: Setting, dirs: map<BackupId, Files>, prepared: Db, chain: Chain, target: Option<int>)
    : (Db, Option<RestoreError>)
  {
    if !OpensAsBase(env, dirs, chain.base.meta.id) then (prepared, Some(Damaged(chain.base.meta.id)))
    else
      var (db, failed) := AppliedAll(env, dirs, prepared + chain.base.data, chain.incs, BoundFor(target));
      if failed.Some? || target.None? then (db, failed)
      else (SweptInOrder(env.refs, env.foreignKeys, db, env.order, BoundFor(target)), None)
  }

  function Members(chain: Chain): seq<Backup> { [chain.base] + chain.incs }

  // Every directory has one assembled form, and no name is listed twice.
  ghost predicate Orderly(dirs: map<BackupId, Files>, backups: seq<Backup>) {
    && (forall id :: id in dirs ==> Settled(dirs[id]))
    && DistinctIds(backups)
  }

  ghost predicate DistinctIds(backups: seq<Backup>) {
    forall i, j :: 0 <= i < j < |backups| ==> backups[i].meta.id != backups[j].meta.id
  }

  // The directories of the members hold the assembled files, all others what they held.
  ghost predicate Opened(was: map<BackupId, Files>, dirs: map<BackupId, Files>, members: seq<Backup>) {
    && (forall b :: b in members ==> b.meta.id in was && b.meta.id in dirs && AssembledTo(was[b.meta.id], dirs[b.meta.id]))
    && (forall id :: (forall b :: b in members ==> b.meta.id != id) ==> Lookup(dirs, id) == Lookup(was, id))
  }

  class Restorer {
    const env: Setting
    const dropDatabase: bool
    var dirs: map<BackupId, Files>
    var tables: Db

    constructor (env: Setting, dropDatabase: bool, dirs: map<BackupId, Files>, tables: Db)
      ensures this.env == env && this.dropDatabase == dropDatabase && this.dirs == dirs && this.tables == tables
    {
      this.env, this.dropDatabase, this.dirs, this.tables := env, dropDatabase, dirs, tables;
    }

    method RestoreToTime(backups: seq<Backup>, target: Option<int>) returns (r: Result<Chain, RestoreError>)
      modifies this
      ensures r.Err? && r.error.NoBase? <==> Select(backups, target).Err?
      ensures Select(backups, target).Err? ==> tables == old(tables) && dirs == old(dirs)
      ensures Orderly(old(dirs), backups) && Select(backups, target).Ok? ==>
                var chain := Select(backups, target).value;
                && (tables, if r.Ok? then None else Some(r.error))
                   == Restored(env, old(dirs), if dropDatabase then map[] else old(tables), chain, target)
                && (r.Ok? ==> r.value == chain && Opened(old(dirs), dirs, Members(chain)))
    {
      var selected := SelectChain(backups, target);
      if selected.Err? {
        return Err(NoBase(selected.error));
      }
      var chain := selected.value;
      if DistinctIds(backups) {
        SelectedAreDistinct(backups, target);
      }
      if dropDatabase {
        tables := map[];
      }
      var ok := OpenBase(chain.base.meta.id);
      if !ok {
        return Err(Damaged(chain.base.meta.id));
      }
      if Orderly(old(dirs), backups) {
        BaseOpened(old(dirs), dirs, chain);
      }
      tables := tables + chain.base.data;
      var bound := BoundFor(target);
      ghost var was := old(dirs);
      var failed := ApplyAll(chain, bound, was, Orderly(was, backups));
      if failed.Some? {
        return Err(failed.value);
      }
      if target.Some? {
        SweepSoftDeletes(bound);
      }
      r := Ok(chain);
    }

    method ApplyAll(chain: Chain, bound: Bound, ghost was: map<BackupId, Files>, ghost orderly: bool)
      returns (failed: Option<RestoreError>)
      requires orderly ==> OpenedTo(was, dirs, chain, 0)
      modifies this
      ensures failed.Some? ==> !failed.value.NoBase?
      ensures orderly ==> (tables, failed) == AppliedAll(env, was, old(tables), chain.incs, bound)
      ensures orderly && failed.None? ==> Opened(was, dirs, Members(chain))
    {
      failed := None;
      for i := 0 to |chain.incs|
        invariant failed.None?
        invariant orderly ==> AppliedAll(env, was, old(tables), chain.incs[..i], bound) == (tables, None)
        invariant orderly ==> OpenedTo(was, dirs, chain, i)
      {
        ghost var before := tables;
        failed := ApplyNext(chain, i, bound, was, orderly);
        if orderly {
          AppliedNext(env, was, old(tables), chain.incs, i, bound, before);
        }
        if failed.Some? {
          if orderly {
            StoppedAt(env, was, old(tables), chain.incs, i, bound, tables, failed.value);
          }
          return;
        }
      }
      assert chain.incs[..|chain.incs|] == chain.incs;
    }

    method ApplyNext(chain: Chain, i: nat, bound: Bound, ghost was: map<BackupId, Files>, ghost orderly: bool)
      returns (failed: Option<RestoreError>)
      requires i < |chain.incs| && (orderly ==> OpenedTo(was, dirs, chain, i))
      modifies this
      ensures failed.Some? ==> !failed.value.NoBase?
      ensures orderly ==> (tables, failed) == Applied(env, was, old(tables), chain.incs[i], bound)
      ensures orderly && failed.None? ==> OpenedTo(was, dirs, chain, i + 1)
    {
      ghost var before := dirs;
      if orderly {
        NotYetOpened(was, before, chain, i);
      }
      failed := ApplyIncremental(chain.incs[i], bound);
      if orderly && failed.None? {
        NextOpened(was, before, dirs, chain, i);
      }
    }

    // VerifyChecksums, then AssembleFiles, in the directory itself.
    method OpenDirectory(id: BackupId) returns (ok: bool)
      modifies this`dirs
      ensures forall other :: other != id ==> Lookup(dirs, other) == Lookup(old(dirs), other)
      ensures ok ==> id in old(dirs) && id in dirs
      ensures id in old(dirs) && Settled(old(dirs)[id]) ==>
                (ok <==> Opens(env, old(dirs), id)) && (ok ==> AssembledTo(old(dirs)[id], dirs[id]))
    {
      if id !in dirs {
        return false;
      }
      var tree := new Tree(dirs[id]);
      var sums := new ChecksumFile(env.hash);
      var verified := sums.VerifyChecksums(tree);
      if verified == Broken {
        return false;
      }
      var assembler := new FileAssembler(env.hash);
      var failed := assembler.AssembleFiles(tree, SplitsOf(env, id));
      dirs := dirs[id := tree.files];
      ok := failed.None?;
    }

    method OpenBase(id: BackupId) returns (ok: bool)
      modifies this`dirs
      ensures forall other :: other != id ==> Lookup(dirs, other) == Lookup(old(dirs), other)
      ensures ok ==> id in old(dirs) && id in dirs
      ensures id in old(dirs) && Settled(old(dirs)[id]) ==>
                (ok <==> OpensAsBase(env, old(dirs), id)) && (ok ==> AssembledTo(old(dirs)[id], dirs[id]))
    {
      ok := OpenDirectory(id);
      if ok {
        ok := exists p :: p in dirs[id] && "data/" <= p;
      }
    }

    // The whole script is built before any of it runs, so a drifted table
    // leaves the target as it was; an aborted transaction leaves the ones before it.
    method ApplyIncremental(inc: Backup, bound: Bound) returns (failed: Option<RestoreError>)
      modifies this
      ensures failed.Some? ==> !failed.value.NoBase?
      ensures forall other :: other != inc.meta.id ==> Lookup(dirs, other) == Lookup(old(dirs), other)
      ensures inc.meta.id in old(dirs) ==> Settled(old(dirs)[inc.meta.id]) ==>
                && (tables, failed) == Applied(env, old(dirs), old(tables), inc, bound)
                && (failed.None? ==> inc.meta.id in dirs && AssembledTo(old(dirs)[inc.meta.id], dirs[inc.meta.id]))
      ensures failed.None? ==> inc.meta.id in old(dirs)
      ensures inc.meta.id !in old(dirs) ==> (tables, failed) == Applied(env, old(dirs), old(tables), inc, bound)
    {
      var ok := OpenDirectory(inc.meta.id);
      if !ok {
        return Some(Damaged(inc.meta.id));
      }
      var drifted := BuildScript(inc);
      if drifted.Some? {
        return Some(SchemaDrift(drifted.value));
      }
      var rejected := RunScript(inc, bound);
      failed := if rejected.Some? then Some(Rejected(rejected.value)) else None;
    }

    method BuildScript(inc: Backup) returns (drifted: Option<string>)
      ensures drifted == FirstDrift(env, inc, env.order)
    {
      for i := 0 to |env.order|
        invariant FirstDrift(env, inc, env.order) == FirstDrift(env, inc, env.order[i..])
      {
        var name := env.order[i];
        if !InScript(env, inc, name) {
          continue;
        }
        var cols := ColumnsFor(env, name);
        if exists c :: c in cols && c !in env.schema[name].columns {
          assert Drifted(env, name);
          return Some(name);
        }
        assert !Drifted(env, name);
      }
      drifted := None;
    }

    // psql stops at the first transaction that aborts.
    method RunScript(inc: Backup, bound: Bound) returns (rejected: Option<string>)
      modifies this`tables
      ensures (tables, rejected) == ScriptRun(env, old(tables), inc, bound)
    {
      ghost var transact := (d, name) => Transaction(env, d, inc, name, bound);
      for i := 0 to |env.order|
        invariant RunAll(transact, old(tables), env.order) == RunAll(transact, tables, env.order[i..])
      {
        assert env.order[i..][0] == env.order[i] && env.order[i..][1..] == env.order[i + 1..];
        var committed := RunTransaction(inc, env.order[i], bound);
        if !committed {
          return Some(env.order[i]);
        }
      }
      rejected := None;
    }

    // BEGIN; load; DELETE past the bound; INSERT ... ON CONFLICT; COMMIT.
    method RunTransaction(inc: Backup, name: string, bound: Bound) returns (committed: bool)
      modifies this`tables
      ensures committed <==> Transaction(env, old(tables), inc, name, bound).Some?
      ensures tables == if committed then Transaction(env, old(tables), inc, name, bound).value else old(tables)
    {
      if !InScript(env, inc, name) {
        return true;
      }
      var inserted := InsertRows(TableOf(tables, name), inc, name, bound);
      if inserted.None? || !HasRows(tables[name := inserted.value], LoadedParents(env, inserted.value, inc, name, bound)) {
        return false;
      }
      tables := tables[name := inserted.value];
      committed := true;
    }

    // Row by row in file order, up to a row that a unique index rejects.
    method InsertRows(t: Table, inc: Backup, name: string, bound: Bound) returns (r: Option<Table>)
      requires InScript(env, inc, name)
      ensures r == InsertedTable(env, t, inc, name, bound)
    {
      var s, loaded := env.schema[name], LoadedRows(env, inc, name, bound);
      var upsert := BuildUpsert(s.pk, ColumnsFor(env, name));
      var ks := InFileOrder(env.fileOrder(inc.meta.id, name), loaded);
      var now := t;
      for i := 0 to |ks|
        invariant UpsertRows(upsert, s.unique, t, loaded, ks) == UpsertRows(upsert, s.unique, now, loaded, ks[i..])
      {
        assert ks[i..][0] == ks[i] && ks[i..][1..] == ks[i + 1..];
        var next := UpsertRow(upsert, s.unique, now, ks[i], loaded[ks[i]]);
        if next.None? {
          return None;
        }
        now := next.value;
      }
      r := Some(now);
    }

    // One DELETE per tracked table with a deleted-at column, in name order.
    method SweepSoftDeletes(bound: Bound)
      modifies this`tables
      ensures tables == SweptInOrder(env.refs, env.foreignKeys, old(tables), env.order, bound)
    {
      for i := 0 to |env.order|
        invariant tables == SweptInOrder(env.refs, env.foreignKeys, old(tables), env.order[..i], bound)
      {
        var name := env.order[i];
        assert env.order[..i + 1][..i] == env.order[..i];
        if name !in env.refs || env.refs[name].deletedAt == "" {
          NothingExpired(env.refs, tables, name, bound);
          NothingDeleted(tables, env.foreignKeys);
          continue;
        }
        DeleteRows(ExpiredIn(env.refs, tables, name, bound));
      }
      assert env.order[..|env.order|] == env.order;
    }

    // The rows of one DELETE, and, round by round, the rows that cascade from those
    // already deleted; references that SET NULL clears go with them.
    method DeleteRows(dead: set<RowId>)
      requires dead <= RowIds(tables)
      modifies this`tables
      ensures tables == Deleted(old(tables), env.foreignKeys, dead)
    {
      var gone := GoneWith(dead);
      tables := Without(tables, env.foreignKeys, gone);
    }

    method GoneWith(dead: set<RowId>) returns (gone: set<RowId>)
      requires dead <= RowIds(tables)
      ensures gone == Fallen(tables, env.foreignKeys, dead)
    {
      gone := dead;
      var next := Referring(tables, env.foreignKeys, gone);
      DeadFall(tables, env.foreignKeys, dead);
      while next != {}
        invariant AmongFallen(tables, env.foreignKeys, dead, gone) && next == Referring(tables, env.foreignKeys, gone)
        decreases RowIds(tables) - gone
      {
        MoreFall(tables, env.foreignKeys, dead, gone, next);
        LessLeft(RowIds(tables), gone, next);
        gone := gone + next;
        next := Referring(tables, env.foreignKeys, gone);
      }
      AllFell(tables, env.foreignKeys, dead, gone);
    }
  }

  lemma NothingExpired(refs: map<string, TableRef>, db: Db, name: string, bound: Bound)
    requires name !in refs || refs[name].deletedAt == ""
    ensures ExpiredIn(refs, db, name, bound) == {}
  {
  }

  // What the directories look like before incremental i is opened.
  ghost predicate OpenedTo(was: map<BackupId, Files>, dirs: map<BackupId, Files>, chain: Chain, i: nat)
    requires i <= |chain.incs|
  {
    && Opened(was, dirs, [chain.base] + chain.incs[..i])
    && (forall id :: id in was ==> Settled(was[id]))
    && DistinctIds(Members(chain))
  }

  // The directory of incremental i is still as it was.
  lemma NotYetOpened(was: map<BackupId, Files>, dirs: map<BackupId, Files>, chain: Chain, i: nat)
    requires i < |chain.incs| && OpenedTo(was, dirs, chain, i)
    ensures Lookup(dirs, chain.incs[i].meta.id) == Lookup(was, chain.incs[i].meta.id)
    ensures forall b :: b in [chain.base] + chain.incs[..i] ==> b.meta.id != chain.incs[i].meta.id
  {
    var members, done := Members(chain), [chain.base] + chain.incs[..i];
    forall b | b in done ensures b.meta.id != chain.incs[i].meta.id {
      var j :| 0 <= j < |done| && done[j] == b;
      assert members[j] == b && members[i + 1] == chain.incs[i];
    }
  }

  lemma NextOpened(was: map<BackupId, Files>, before: map<BackupId, Files>, dirs: map<BackupId, Files>, chain: Chain, i: nat)
    requires i < |chain.incs| && OpenedTo(was, before, chain, i)
    requires var id := chain.incs[i].meta.id;
             (forall other :: other != id ==> Lookup(dirs, other) == Lookup(before, other))
             && id in before && id in dirs && AssembledTo(before[id], dirs[id])
    ensures OpenedTo(was, dirs, chain, i + 1)
  {
    var id, done, next := chain.incs[i].meta.id, [chain.base] + chain.incs[..i], [chain.base] + chain.incs[..i + 1];
    NotYetOpened(was, before, chain, i);
    assert next == done + [chain.incs[i]];
    forall b | b in next ensures b.meta.id in was && b.meta.id in dirs && AssembledTo(was[b.meta.id], dirs[b.meta.id]) {
      if b in done {
        assert Lookup(dirs, b.meta.id) == Lookup(before, b.meta.id);
      } else {
        assert b == chain.incs[i] && Lookup(before, id) == Lookup(was, id);
      }
    }
    forall other | forall b :: b in next ==> b.meta.id != other ensures Lookup(dirs, other) == Lookup(was, other) {
      assert chain.incs[i] in next && forall b :: b in done ==> b in next;
    }
  }

  lemma AppliedNext(env: Setting, was: map<BackupId, Files>, db: Db, incs: seq<Backup>, i: nat, bound: Bound, now: Db)
    requires i < |incs| && AppliedAll(env, was, db, incs[..i], bound) == (now, None)
    ensures AppliedAll(env, was, db, incs[..i + 1], bound) == Applied(env, was, now, incs[i], bound)
  {
    assert incs[..i + 1][..i] == incs[..i];
  }

  lemma {:induction false} StoppedAt(env: Setting, was: map<BackupId, Files>, db: Db, incs: seq<Backup>, i: nat, bound: Bound,
                                     now: Db, e: RestoreError)
    requires i < |incs| && AppliedAll(env, was, db, incs[..i + 1], bound) == (now, Some(e))
    ensures AppliedAll(env, was, db, incs, bound) == (now, Some(e))
    decreases |incs| - i
  {
    if i + 1 == |incs| {
      assert incs[..i + 1] == incs;
    } else {
      assert incs[..i + 2][..i + 1] == incs[..i + 1];
      StoppedAt(env, was, db, incs, i + 1, bound, now, e);
    }
  }

  lemma BaseOpened(was: map<BackupId, Files>, dirs: map<BackupId, Files>, chain: Chain)
    requires (forall id :: id in was ==> Settled(was[id])) && DistinctIds(Members(chain))
    requires var id := chain.base.meta.id;
             (forall other :: other != id ==> Lookup(dirs, other) == Lookup(was, other))
             && id in was && id in dirs && AssembledTo(was[id], dirs[id])
    ensures OpenedTo(was, dirs, chain, 0)
  {
  }

  lemma SelectedAreDistinct(backups: seq<Backup>, target: Option<int>)
    requires Select(backups, target).Ok? && DistinctIds(backups)
    ensures DistinctIds(Members(Select(backups, target).value))
  {
    var chain := Select(backups, target).value;
    var b := BaseForIsLatest(backups, target);
    ApplyingIsDistinct(backups, chain.base, target);
    ApplyingAreListed(backups, chain.base, target);
    forall m | m in chain.incs ensures m.meta.id != chain.base.meta.id {
      var i :| 0 <= i < |backups| && backups[i] == m;
      assert m.meta.kind.Incremental? && backups[b].meta.kind.Full?;
    }
  }

  lemma {:induction false} ApplyingAreListed(c: seq<Backup>, base: Backup, target: Option<int>)
    ensures forall m :: m in Applying(c, base, target) ==> m in c && m.meta.kind.Incremental?
  {
    if c != [] {
      ApplyingAreListed(c[..|c| - 1], base, target);
    }
  }

  lemma {:induction false} ApplyingIsDistinct(c: seq<Backup>, base: Backup, target: Option<int>)
    requires DistinctIds(c)
    ensures DistinctIds(Applying(c, base, target))
  {
    if c != [] {
      var init := c[..|c| - 1];
      ApplyingIsDistinct(init, base, target);
      ApplyingAreListed(init, base, target);
      forall m | m in init ensures m.meta.id != c[|c| - 1].meta.id {
      }
    }
  }
}
