// The restored database, as the restorer's SQL leaves it, against the source's history.
module RestoreTheorem {
  import opened Wrappers
  import opened Rows
  import opened History
  import opened Replay
  import opened ReplayLaws
  import opened Catalog
  import opened ChainLaws
  import opened Selection
  import opened PointInTime
  import opened Upsert
  import opened ForeignKeys
  import opened Sweep
  import opened ApplyScript
  import opened ApplyLaws
  import opened RestoreService
  import opened FileTree

  // The table has the same columns on the source, in the recorded metadata and on the target.
  ghost predicate SameSchema(env: Setting, name: string) {
    && Applicable(env, name) && name in env.order
    && ColumnsFor(env, name) == env.schema[name].columns
    && (forall c :: c in env.schema[name].pk ==> c in env.schema[name].columns)
  }

  ghost predicate ChainFits(s: Schema, incs: seq<Backup>, name: string) {
    forall i :: 0 <= i < |incs| && name in incs[i].data ==> Fits(s, incs[i].data[name])
  }

  ghost predicate ChainFilesOk(env: Setting, incs: seq<Backup>) {
    forall i :: 0 <= i < |incs| ==> FilesOk(env, incs[i])
  }

  function CapturedRows(inc: Backup, name: string): Table {
    if name in inc.data then inc.data[name] else map[]
  }

  // A script that goes through is the map update of the replay.
  lemma ScriptIsApply(env: Setting, db: Db, inc: Backup, bound: Bound, name: string)
    requires DistinctKeys(env.order) && FilesOk(env, inc) && ScriptRun(env, db, inc, bound).1 == None
    requires SameSchema(env, name) && name in db && Fits(env.schema[name], db[name])
    requires name in inc.data ==> Fits(env.schema[name], inc.data[name])
    ensures var after := ScriptRun(env, db, inc, bound).0;
            var want := Apply(env.refs[name], db[name], CapturedRows(inc, name), bound);
            name in after && after[name] == want && Fits(env.schema[name], want)
  {
    var j := ScriptCommitsIff(env, db, inc, bound);
    assert env.order[..j] == env.order;
    ScriptedLookup(env, db, inc, j, bound, name);
    UpsertIsApply(env.schema[name], env.refs[name], db[name], CapturedRows(inc, name), bound);
    if name !in inc.data {
      assert Apply(env.refs[name], db[name], map[], bound) == db[name];
    }
  }

  lemma ReplayStep(ref: TableRef, base: Table, incs: seq<Backup>, bound: Bound, name: string)
    requires incs != []
    ensures var n := |incs| - 1;
            Replayed(ref, base, TablesOf(incs, name), bound)
            == Apply(ref, Replayed(ref, base, TablesOf(incs[..n], name), bound), CapturedRows(incs[n], name), bound)
  {
    var n := |incs| - 1;
    assert TablesOf(incs, name)[..n] == TablesOf(incs[..n], name);
  }

  // The scripts of a chain, when all go through, compute the replay of its rows.
  lemma {:induction false} ScriptsReplay(env: Setting, dirs: map<BackupId, Files>, db: Db, incs: seq<Backup>, bound: Bound, name: string)
    requires DistinctKeys(env.order) && ChainFilesOk(env, incs) && AppliedAll(env, dirs, db, incs, bound).1 == None
    requires SameSchema(env, name) && name in db && Fits(env.schema[name], db[name])
    requires ChainFits(env.schema[name], incs, name)
    ensures var got := AppliedAll(env, dirs, db, incs, bound).0;
            && name in got && Fits(env.schema[name], got[name])
            && got[name] == Replayed(env.refs[name], db[name], TablesOf(incs, name), bound)
    decreases |incs|
  {
    if incs != [] {
      var n := |incs| - 1;
      ScriptsReplay(env, dirs, db, incs[..n], bound, name);
      ScriptIsApply(env, AppliedAll(env, dirs, db, incs[..n], bound).0, incs[n], bound, name);
      ReplayStep(env.refs[name], db[name], incs, bound, name);
    }
  }

  // The target before the sweep.
  ghost function Replays(env: Setting, dirs: map<BackupId, Files>, before: Db, chain: Chain, target: Option<int>): Db {
    AppliedAll(env, dirs, before + chain.base.data, chain.incs, BoundFor(target)).0
  }

  // Before the sweep a tracked table is the replay of its chain, whatever the target held.
  lemma ReplaysTable(env: Setting, dirs: map<BackupId, Files>, before: Db, chain: Chain, target: Option<int>, name: string)
    requires DistinctKeys(env.order) && ChainFilesOk(env, chain.incs) && Restored(env, dirs, before, chain, target).1 == None
    requires SameSchema(env, name) && name in chain.base.data && Fits(env.schema[name], chain.base.data[name])
    requires ChainFits(env.schema[name], chain.incs, name)
    ensures var db := Replays(env, dirs, before, chain, target);
            name in db && db[name] == RestoredTable(env.refs, chain, BoundFor(target), name)
  {
    ScriptsReplay(env, dirs, before + chain.base.data, chain.incs, BoundFor(target), name);
  }

  // The foreign keys are as the migrations declare them, and the sweep covers
  // every tracked table with a deleted-at column.
  ghost predicate SettingOk(env: Setting) {
    && DistinctKeys(env.order) && Separate(env.foreignKeys) && StampsKept(env.refs, env.foreignKeys)
    && (forall name :: name in env.refs && env.refs[name].deletedAt != "" ==> name in env.order)
  }

  // The rows the sweep names, in the database before it: those of a tracked table
  // whose deleted-at stamp is at or before the target.
  ghost function SweptRows(env: Setting, db: Db, target: int): set<RowId> {
    set x | x in RowIds(db) && x.0 in env.refs && DeletedBy(env.refs[x.0], db[x.0][x.1], Micros(target))
  }

  // The sweep of a restore, in any order of the tables, is one deletion with all
  // its cascades.
  lemma RestoredIsOneDeletion(env: Setting, dirs: map<BackupId, Files>, before: Db, chain: Chain, target: int)
    requires SettingOk(env) && Restored(env, dirs, before, chain, Some(target)).1 == None
    ensures var db := Replays(env, dirs, before, chain, Some(target));
            Restored(env, dirs, before, chain, Some(target)).0 == Deleted(db, env.foreignKeys, SweptRows(env, db, target))
  {
    var db := Replays(env, dirs, before, chain, Some(target));
    SweepIsOneDeletion(env.refs, env.foreignKeys, db, env.order, At(Micros(target)));
    assert ExpiredRows(env.refs, db, At(Micros(target))) == SweptRows(env, db, target);
  }

  // Rows captured from a source whose writes fit the schema fit it too.
  lemma CatalogFits(src: Source, c: seq<Backup>, s: Schema, name: string)
    requires DataInv(src, c) && name in src.history && WritesFit(s, src.history[name])
    ensures forall b :: b in c && name in b.data ==> Fits(s, b.data[name])
  {
    forall b | b in c && name in b.data ensures Fits(s, b.data[name]) {
      var i :| 0 <= i < |c| && c[i] == b;
      assert DataOk(src, b);
      TableAtFits(s, src.history[name], b.readAt);
    }
  }

  lemma SelectedFits(src: Source, c: seq<Backup>, target: Option<int>, s: Schema, name: string)
    requires ChainInv(c) && DataInv(src, c) && Select(c, target).Ok?
    requires name in src.history && name in src.refs && WritesFit(s, src.history[name])
    ensures var chain := Select(c, target).value;
            name in chain.base.data && Fits(s, chain.base.data[name]) && ChainFits(s, chain.incs, name)
  {
    var b, e := SelectionIsPlan(c, target);
    CatalogFits(src, c, s, name);
    assert DataOk(src, c[b]);
    assert c[b] in c;
    forall i | b < i < e ensures c[i] in c {
    }
  }

  // The row of `k` at the target instant, if it exists there and is not soft-deleted.
  function LiveRow(src: Source, target: int, name: string, k: Key): Option<Row>
    requires name in src.history && name in src.refs
  {
    var t := TableAt(src.history[name], Micros(target));
    if k in t && !DeletedBy(src.refs[name], t[k], Micros(target)) then Some(t[k]) else None
  }

  // A successful restore of a listing kept by a run, to a target with a base.
  ghost predicate RestoredFrom(src: Source, run: seq<Attempt>, env: Setting, dirs: map<BackupId, Files>, before: Db, target: int) {
    && SourceOk(src) && Serial(src, run) && env.refs == src.refs && SettingOk(env)
    && Select(Run(src, run), Some(target)).Ok?
    && ChainFilesOk(env, Select(Run(src, run), Some(target)).value.incs)
    && Restored(env, dirs, before, Select(Run(src, run), Some(target)).value, Some(target)).1 == None
  }

  ghost predicate TrackedTable(src: Source, env: Setting, name: string) {
    name in src.history && name in src.refs && SameSchema(env, name) && WritesFit(env.schema[name], src.history[name])
  }

  // What is known of one key before the sweep.
  lemma BeforeSweep(src: Source, run: seq<Attempt>, env: Setting, dirs: map<BackupId, Files>, before: Db,
                    target: int, name: string, k: Key)
    requires RestoredFrom(src, run, env, dirs, before, target) && TrackedTable(src, env, name)
    ensures var chain := Select(Run(src, run), Some(target)).value;
            var db := Replays(env, dirs, before, chain, Some(target));
            && name in chain.base.data && name in db
            && db[name] == RestoredTable(src.refs, chain, At(Micros(target)), name)
            && (Lookup(db[name], k) == Lookup(TableAt(src.history[name], Micros(target)), k)
                <==> Captured(src.history[name], k, Readings(chain), Micros(target)))
  {
    var c := Run(src, run);
    var chain := Select(c, Some(target)).value;
    RestoreIsExactIff(src, run, target, name, k);
    RunKeepsInvariants(src, run);
    SelectedFits(src, c, Some(target), env.schema[name], name);
    ReplaysTable(env, dirs, before, chain, Some(target), name);
  }

  // A row of the database whose cleared form is the true row at the target is the
  // true row itself: clearing leaves the stamps, and no two versions share one.
  lemma ClearedVersionIsSame(src: Source, run: seq<Attempt>, env: Setting, target: int, name: string, k: Key, gone: set<RowId>)
    requires SourceOk(src) && Serial(src, run) && env.refs == src.refs && SettingOk(env)
    requires name in src.history && name in src.refs && Select(Run(src, run), Some(target)).Ok?
    requires name in Select(Run(src, run), Some(target)).value.base.data
    requires k in RestoredTable(src.refs, Select(Run(src, run), Some(target)).value, At(Micros(target)), name)
    requires k in TableAt(src.history[name], Micros(target))
    ensures var row := RestoredTable(src.refs, Select(Run(src, run), Some(target)).value, At(Micros(target)), name)[k];
            var truth := TableAt(src.history[name], Micros(target))[k];
            ClearedRow(env.foreignKeys, name, row, gone) == truth ==> row == truth
  {
    var c, h := Run(src, run), src.history[name];
    var chain := Select(c, Some(target)).value;
    RunKeepsInvariants(src, run);
    var b, e := SelectionIsPlan(c, Some(target));
    PlanIsFaithful(src, c, Some(target), b, e, name);
    var ts := Readings(chain);
    var limit := if Micros(target) < ts[0].readAt then ts[0].readAt else Micros(target);
    ReplayedRowsAreGenuine(src.refs[name], h, ts, chain.base.data[name], TablesOf(chain.incs, name), Micros(target), k, limit);
    var row := RestoredTable(src.refs, chain, At(Micros(target)), name)[k];
    StampKept(src.refs, env.foreignKeys, name, row, gone, At(Micros(target)));
    StampTellsVersion(src.refs[name], h, k, row, limit, Micros(target));
  }

  lemma StampTellsVersion(ref: TableRef, h: seq<Write>, k: Key, row: Row, limit: int, t: int)
    requires WellStamped(ref, h) && Genuine(h, k, row, limit) && k in TableAt(h, t)
    ensures ChangeTime(ref, row) == ChangeTime(ref, TableAt(h, t)[k]) ==> row == TableAt(h, t)[k]
  {
    var i :| 0 <= i < |h| && h[i].key == k && h[i].row == row && h[i].at <= limit;
    VersionIsLastWrite(h, k, t);
    StampOfVersion(ref, h, k, t);
    ChangeIsCommit(ref, h, i);
  }

  // The whole promise of a restore, from the writes of the source to the rows of
  // the target, exactly: over every serial run of backups and every key of every
  // tracked table. A key that is live at the target instant has its true row after the
  // restore if and only if that version was captured, no row it refers to through a
  // chain of cascades is swept, and no row a SET NULL column of it refers to falls. Any
  // other key is rightly absent if and only if the replay brought no row of it, or one
  // that falls.
  lemma RestoreIsRightIff(src: Source, run: seq<Attempt>, env: Setting, dirs: map<BackupId, Files>, before: Db,
                          target: int, name: string, k: Key)
    requires RestoredFrom(src, run, env, dirs, before, target) && TrackedTable(src, env, name)
    ensures var chain := Select(Run(src, run), Some(target)).value;
            var got := Restored(env, dirs, before, chain, Some(target)).0;
            var db := Replays(env, dirs, before, chain, Some(target));
            var live := LiveRow(src, target, name, k);
            && name in got && name in db
            && (Lookup(got[name], k) == live <==>
                if live.Some? then
                  Captured(src.history[name], k, Readings(chain), Micros(target))
                  && Untouched(db, env.foreignKeys, SweptRows(env, db, target), (name, k))
                else k !in db[name] || Falls(db, env.foreignKeys, SweptRows(env, db, target), (name, k)))
  {
    var chain := Select(Run(src, run), Some(target)).value;
    var db := Replays(env, dirs, before, chain, Some(target));
    var dead, x := SweptRows(env, db, target), (name, k);
    BeforeSweep(src, run, env, dirs, before, target, name, k);
    RestoredIsOneDeletion(env, dirs, before, chain, target);
    if k in db[name] && LiveRow(src, target, name, k).Some? {
      ClearedVersionIsSame(src, run, env, target, name, k, Fallen(db, env.foreignKeys, dead));
    }
    WantedIff(db, env.foreignKeys, dead, x, LiveRow(src, target, name, k));
  }

  // A captured key is there after the restore exactly when it is live at the
  // target and no row it refers to through cascades is swept, with its true row
  // exactly when it loses no parent either.
  lemma CapturedKeysAreRestored(src: Source, run: seq<Attempt>, env: Setting, dirs: map<BackupId, Files>, before: Db,
                                target: int, name: string, k: Key)
    requires RestoredFrom(src, run, env, dirs, before, target) && TrackedTable(src, env, name)
    ensures var chain := Select(Run(src, run), Some(target)).value;
            var got := Restored(env, dirs, before, chain, Some(target)).0;
            var db := Replays(env, dirs, before, chain, Some(target));
            var live := LiveRow(src, target, name, k);
            name in got
            && (Captured(src.history[name], k, Readings(chain), Micros(target)) ==>
                 && (k in got[name] <==> live.Some? && !Falls(db, env.foreignKeys, SweptRows(env, db, target), (name, k)))
                 && (k in got[name] ==>
                      HasRow(db, (name, k))
                      && (got[name][k] == live.value <==> !LosesParent(db, env.foreignKeys, SweptRows(env, db, target), (name, k)))))
  {
    var chain := Select(Run(src, run), Some(target)).value;
    var db := Replays(env, dirs, before, chain, Some(target));
    var dead, x := SweptRows(env, db, target), (name, k);
    BeforeSweep(src, run, env, dirs, before, target, name, k);
    RestoredIsOneDeletion(env, dirs, before, chain, target);
    TrueRowAfter(db, env.foreignKeys, dead, x, Lookup(db[name], k));
  }

  // Without read delay, by the window rule: a key has the right row, or is rightly
  // absent, exactly when the row that the last window leaves of it is the live row and is
  // untouched by the sweep, or when nothing is live and that row is missing or falls.
  lemma RestoreIsRightByWindow(src: Source, run: seq<Attempt>, env: Setting, dirs: map<BackupId, Files>, before: Db,
                               target: int, name: string, k: Key)
    requires RestoredFrom(src, run, env, dirs, before, target) && TrackedTable(src, env, name) && InstantRun(run)
    ensures var chain := Select(Run(src, run), Some(target)).value;
            var got := Restored(env, dirs, before, chain, Some(target)).0;
            var db := Replays(env, dirs, before, chain, Some(target));
            var live := LiveRow(src, target, name, k);
            var left := WindowRow(src.refs[name], src.history[name], chain, target, k);
            && name in got && name in db && Lookup(db[name], k) == left
            && (Lookup(got[name], k) == live <==>
                if live.Some? then left == live && Untouched(db, env.foreignKeys, SweptRows(env, db, target), (name, k))
                else left == None || Falls(db, env.foreignKeys, SweptRows(env, db, target), (name, k)))
  {
    var chain := Select(Run(src, run), Some(target)).value;
    var db := Replays(env, dirs, before, chain, Some(target));
    BeforeSweep(src, run, env, dirs, before, target, name, k);
    var _ := RestoreWithoutDelay(src, run, target, name, k);
    RestoreIsRightIff(src, run, env, dirs, before, target, name, k);
  }

  // A successful restore to latest of a listing kept by a run.
  ghost predicate RestoredLatest(src: Source, run: seq<Attempt>, env: Setting, dirs: map<BackupId, Files>, before: Db) {
    && SourceOk(src) && Serial(src, run) && env.refs == src.refs && DistinctKeys(env.order)
    && Run(src, run) != [] && Select(Run(src, run), None).Ok?
    && ChainFilesOk(env, Select(Run(src, run), None).value.incs)
    && Restored(env, dirs, before, Select(Run(src, run), None).value, None).1 == None
  }

  // A restore without a target, from the writes of the source to the rows of the
  // target database: a key of a tracked table has the row it had at the last listed
  // snapshot, or is missing as it was then, exactly if that version was captured. It is
  // whole with the rows that were soft-deleted by then, because nothing sweeps them.
  lemma LatestIsRightIff(src: Source, run: seq<Attempt>, env: Setting, dirs: map<BackupId, Files>, before: Db,
                         name: string, k: Key)
    requires RestoredLatest(src, run, env, dirs, before) && TrackedTable(src, env, name)
    ensures var c := Run(src, run);
            var chain := Select(c, None).value;
            var got := Restored(env, dirs, before, chain, None).0;
            var last := Micros(c[|c| - 1].meta.snapshot);
            && name in got
            && (Lookup(got[name], k) == Lookup(TableAt(src.history[name], last), k)
                <==> Captured(src.history[name], k, Readings(chain), last))
  {
    var c := Run(src, run);
    var chain := LatestIsExactIff(src, run, name, k);
    RunKeepsInvariants(src, run);
    SelectedFits(src, c, None, env.schema[name], name);
    ReplaysTable(env, dirs, before, chain, None, name);
  }

  // Without read delay, a restore to latest gives every tracked table as a full
  // dump at the last listed snapshot holds it.
  lemma LatestIsFullDump(src: Source, run: seq<Attempt>, env: Setting, dirs: map<BackupId, Files>, before: Db, name: string)
    requires RestoredLatest(src, run, env, dirs, before) && TrackedTable(src, env, name) && InstantRun(run)
    ensures var c := Run(src, run);
            var got := Restored(env, dirs, before, Select(c, None).value, None).0;
            name in got && got[name] == TableAt(src.history[name], Micros(c[|c| - 1].meta.snapshot))
  {
    var c := Run(src, run);
    var got := Restored(env, dirs, before, Select(c, None).value, None).0;
    var want := TableAt(src.history[name], Micros(c[|c| - 1].meta.snapshot));
    forall k ensures name in got && Lookup(got[name], k) == Lookup(want, k) {
      LatestIsCaptured(src, run, name, k);
      LatestIsRightIff(src, run, env, dirs, before, name, k);
    }
    LatestIsRightIff(src, run, env, dirs, before, name, []);
    SameLookups(got[name], want);
  }

  lemma LatestIsCaptured(src: Source, run: seq<Attempt>, name: string, k: Key)
    requires Serial(src, run) && InstantRun(run) && Run(src, run) != [] && name in src.history
    ensures var c := Run(src, run);
            Select(c, None).Ok?
            && Captured(src.history[name], k, Readings(Select(c, None).value), Micros(c[|c| - 1].meta.snapshot))
  {
    var c := Run(src, run);
    RunKeepsInvariants(src, run);
    InstantEntries(src, run);
    LastSnapshotIsCaptured(src, c, src.history[name], k);
  }

  lemma {:induction false} OtherTableStays(env: Setting, dirs: map<BackupId, Files>, db: Db, incs: seq<Backup>, bound: Bound, name: string)
    requires DistinctKeys(env.order) && ChainFilesOk(env, incs)
    requires name !in env.refs || forall i :: 0 <= i < |incs| ==> name !in incs[i].data
    ensures Lookup(AppliedAll(env, dirs, db, incs, bound).0, name) == Lookup(db, name)
    decreases |incs|
  {
    if incs != [] {
      var n := |incs| - 1;
      var before := AppliedAll(env, dirs, db, incs[..n], bound).0;
      OtherTableStays(env, dirs, db, incs[..n], bound, name);
      var j := ScriptCommitsIff(env, before, incs[n], bound);
      ScriptedLookup(env, before, incs[n], j, bound, name);
    }
  }

  // A restore to latest leaves a table that no incremental captures as the base's
  // dump has it, and one that the dump does not have either as the target had it.
  lemma OtherTablesStay(env: Setting, dirs: map<BackupId, Files>, prepared: Db, chain: Chain, name: string)
    requires DistinctKeys(env.order) && ChainFilesOk(env, chain.incs)
    requires name !in env.refs || forall i :: 0 <= i < |chain.incs| ==> name !in chain.incs[i].data
    requires Restored(env, dirs, prepared, chain, None).1 == None
    ensures Lookup(Restored(env, dirs, prepared, chain, None).0, name)
            == if name in chain.base.data then Some(chain.base.data[name]) else Lookup(prepared, name)
  {
    OtherTableStays(env, dirs, prepared + chain.base.data, chain.incs, Infinity, name);
  }
}
