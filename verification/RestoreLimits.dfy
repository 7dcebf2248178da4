// Inputs on which a restore loses or refuses rows because of the foreign keys of
// the repository's own schema, and one on which the assembler's result is a matter of
// order. Each is an instance of an exact condition proved elsewhere.
module RestoreLimits {
  import opened Wrappers
  import opened Rows
  import opened History
  import opened Catalog
  import opened Selection
  import opened PointInTime
  import opened ForeignKeys
  import opened Sweep
  import opened Upsert
  import opened ApplyScript
  import opened ApplyLaws
  import opened RestoreService
  import opened RestoreTheorem
  import opened PartNames
  import opened FileTree
  import opened PartJoins
  import opened Assembler
  import opened AssemblyLaws

  const REF := TableRef("", "updated_at", "deleted_at")
  const COURSE: Key := [Text("c")]
  const DEADLINE: Key := [Text("d")]
  const DEADLINES := Schema(["id", "course_id", "updated_at", "deleted_at"], ["id"], {})
  const DEADLINE_COURSE := ForeignKey("deadlines", ["course_id"], "courses", Cascade)
  const DEADLINE_HOMEWORK := ForeignKey("deadlines", ["homework_id"], "homework", Cascade)

  // Deleting a course writes its deletion stamp alone.
  function CourseRow(deleted: Value): Row {
    map["id" := Text("c"), "updated_at" := Stamp(1_000_000), "deleted_at" := deleted]
  }

  function DeadlineRow(): Row {
    map["id" := Text("d"), "course_id" := Text("c"), "updated_at" := Stamp(3_000_000), "deleted_at" := Null]
  }

  // A course written at 1 and soft-deleted at 5, and a deadline of it written at 3.
  function CourseHistory(): seq<Write> {
    [Write(1_000_000, COURSE, CourseRow(Null)), Write(5_000_000, COURSE, CourseRow(Stamp(5_000_000)))]
  }

  function DeadlineHistory(): seq<Write> { [Write(3_000_000, DEADLINE, DeadlineRow())] }

  function School(): Source {
    Source(map["courses" := REF, "deadlines" := REF], map["courses" := CourseHistory(), "deadlines" := DeadlineHistory()])
  }

  // A full backup at 7.
  function FullAtSeven(): Attempt {
    Attempt(Config(true, 7, 0), false, false, 7_000_000_000, 7_000_000, true, 7_000_000_000)
  }

  function FullBackup(): Backup { NewBackup(School(), FullAtSeven(), None) }

  lemma SchoolStamps()
    ensures SourceOk(School())
  {
    assert HasStamp(CourseRow(Null), "updated_at", 1_000_000);
    assert HasStamp(CourseRow(Stamp(5_000_000)), "deleted_at", 5_000_000);
    assert forall i :: 0 <= i < 2 ==> LastStamp(REF, CourseHistory()[i].row, CourseHistory()[i].at);
    assert LastStamp(REF, DeadlineRow(), 3_000_000);
  }

  lemma SchoolRun()
    ensures Serial(School(), [FullAtSeven()]) && Run(School(), [FullAtSeven()]) == [FullBackup()]
  {
    assert [FullAtSeven()][..0] == [] && Run(School(), []) == [];
  }

  lemma SchoolChain()
    ensures Select([FullBackup()], Some(10_000_000_000)) == Ok(Chain(FullBackup(), []))
  {
    OnlyFull(FullBackup(), 10_000_000_000);
  }

  lemma OnlyFull(b: Backup, target: int)
    requires b.meta.kind.Full? && b.meta.snapshot <= target
    ensures Select([b], Some(target)) == Ok(Chain(b, []))
  {
    assert [b][..0] == [];
    assert Applying([], b, Some(target)) == [];
    assert Applying([b], b, Some(target)) == [];
  }

  lemma SchoolTables(t: int)
    requires t >= 5_000_000
    ensures TableAt(CourseHistory(), t) == map[COURSE := CourseRow(Stamp(5_000_000))]
    ensures TableAt(DeadlineHistory(), t) == map[DEADLINE := DeadlineRow()]
  {
    var h, d := CourseHistory(), DeadlineHistory();
    assert h[..1][..0] == [] && d[..0] == [];
    assert TableAt(h[..1], t) == map[COURSE := CourseRow(Null)];
  }

  // Restored to 10, the course is swept and takes its deadline with it, although
  // the deadline is live at 10 and was captured.
  lemma SweepTakesLiveDeadline(env: Setting, dirs: map<BackupId, Files>, before: Db)
    requires env.refs == School().refs && env.order == ["courses", "deadlines"] && env.foreignKeys == {DEADLINE_COURSE}
    requires OpensAsBase(env, dirs, FullBackup().meta.id)
    ensures var run, target := [FullAtSeven()], 10_000_000_000;
            && SourceOk(School()) && Serial(School(), run)
            && Select(Run(School(), run), Some(target)) == Ok(Chain(FullBackup(), []))
            && LiveRow(School(), target, "deadlines", DEADLINE) == Some(DeadlineRow())
            && var (got, failed) := Restored(env, dirs, before, Chain(FullBackup(), []), Some(target));
               failed == None && "deadlines" in got && DEADLINE !in got["deadlines"]
  {
    SchoolStamps();
    SchoolRun();
    SchoolChain();
    DeadlineIsLive();
    DeadlineIsLost(env, dirs, before);
  }

  // The theorems about a restore speak of this one: with the deadlines' own columns
  // on the target, it is a successful restore of a run, and the table is tracked.
  lemma SchoolIsRestored(env: Setting, dirs: map<BackupId, Files>, before: Db)
    requires env.refs == School().refs && env.order == ["courses", "deadlines"] && env.foreignKeys == {DEADLINE_COURSE}
    requires env.schema == map["deadlines" := DEADLINES] && env.recorded == map[]
    requires OpensAsBase(env, dirs, FullBackup().meta.id)
    ensures RestoredFrom(School(), [FullAtSeven()], env, dirs, before, 10_000_000_000)
    ensures TrackedTable(School(), env, "deadlines")
  {
    SchoolStamps();
    SchoolRun();
    SchoolChain();
    SchoolSetting(env);
    DeadlineIsLost(env, dirs, before);
    DeadlineFits();
  }

  lemma DeadlineFits()
    ensures WritesFit(DEADLINES, DeadlineHistory())
  {
    assert KeyOf(["id"], DeadlineRow()) == DEADLINE;
    assert DeadlineRow().Keys == set c | c in DEADLINES.columns;
  }

  lemma DeadlineIsLive()
    ensures LiveRow(School(), 10_000_000_000, "deadlines", DEADLINE) == Some(DeadlineRow())
  {
    SchoolTables(10_000_000);
  }

  lemma DeadlineIsLost(env: Setting, dirs: map<BackupId, Files>, before: Db)
    requires env.refs == School().refs && env.order == ["courses", "deadlines"] && env.foreignKeys == {DEADLINE_COURSE}
    requires OpensAsBase(env, dirs, FullBackup().meta.id)
    ensures var (got, failed) := Restored(env, dirs, before, Chain(FullBackup(), []), Some(10_000_000_000));
            failed == None && "deadlines" in got && DEADLINE !in got["deadlines"]
  {
    var target := 10_000_000_000;
    var chain := Chain(FullBackup(), []);
    var db := Replays(env, dirs, before, chain, Some(target));
    SchoolDb(before);
    assert db == before + FullBackup().data;
    SchoolSetting(env);
    RestoredIsOneDeletion(env, dirs, before, chain, target);
    CourseTakesDeadline(env, db, target);
    AfterDeletion(db, env.foreignKeys, SweptRows(env, db, target), ("deadlines", DEADLINE));
  }

  lemma SchoolSetting(env: Setting)
    requires env.refs == School().refs && env.order == ["courses", "deadlines"] && env.foreignKeys == {DEADLINE_COURSE}
    ensures SettingOk(env)
  {
  }

  lemma SchoolDb(before: Db)
    ensures var db := before + FullBackup().data;
            && "courses" in db && db["courses"] == map[COURSE := CourseRow(Stamp(5_000_000))]
            && "deadlines" in db && db["deadlines"] == map[DEADLINE := DeadlineRow()]
  {
    SchoolTables(7_000_000);
  }

  lemma CourseTakesDeadline(env: Setting, db: Db, target: int)
    requires env.refs == School().refs && env.foreignKeys == {DEADLINE_COURSE} && Micros(target) >= 5_000_000
    requires "courses" in db && db["courses"] == map[COURSE := CourseRow(Stamp(5_000_000))]
    requires "deadlines" in db && db["deadlines"] == map[DEADLINE := DeadlineRow()]
    ensures Falls(db, env.foreignKeys, SweptRows(env, db, target), ("deadlines", DEADLINE))
  {
    var x, y := ("deadlines", DEADLINE), ("courses", COURSE);
    assert y in RowIds(db) && StampIn(db["courses"][COURSE], "deleted_at") == Some(5_000_000);
    assert y in SweptRows(env, db, target);
    assert ValuesOf(["course_id"], DeadlineRow()).value == COURSE;
    assert Refers(db, DEADLINE_COURSE, x, y);
    assert CascadesTo(db, env.foreignKeys, x, y);
    assert LeadsTo(db, env.foreignKeys, [x, y], x, SweptRows(env, db, target));
  }

  // A window with a new deadline of a new homework aborts at `deadlines`, which
  // comes before `homework` in name order, if not at `courses`; unless it was that,
  // `courses` is committed by then.
  lemma NewHomeworkAborts(env: Setting, db: Db, inc: Backup, k: Key, hw: Value) returns (j: nat)
    requires env.order == ["courses", "deadlines", "homework"] && DEADLINE_HOMEWORK in env.foreignKeys
    requires FilesOk(env, inc) && InScript(env, inc, "deadlines")
    requires k in inc.data["deadlines"] && k !in TableOf(db, "deadlines")
    requires var row := inc.data["deadlines"][k]; "homework_id" in row && row["homework_id"] == hw != Null
    requires !HasRow(db, ("homework", [hw]))
    ensures j <= 1 && ScriptRun(env, db, inc, Infinity) == (Scripted(env, db, inc, j, Infinity), Some(env.order[j]))
  {
    DeadlinesDoNotPass(env, db, inc, k, hw);
    j := StopsBy(env, db, inc, Infinity, 1);
  }

  lemma DeadlinesDoNotPass(env: Setting, db: Db, inc: Backup, k: Key, hw: Value)
    requires env.order == ["courses", "deadlines", "homework"] && DEADLINE_HOMEWORK in env.foreignKeys
    requires InScript(env, inc, "deadlines")
    requires k in inc.data["deadlines"] && k !in TableOf(db, "deadlines")
    requires var row := inc.data["deadlines"][k]; "homework_id" in row && row["homework_id"] == hw != Null
    requires !HasRow(db, ("homework", [hw]))
    ensures !Passes(env, db, inc, 1, Infinity)
  {
    NewDeadlineParent(env, db, inc, k, hw);
    assert env.order[..2] == ["courses", "deadlines"];
    assert !Present(env, db, inc, 2, Infinity, ("homework", [hw]));
  }

  lemma NewDeadlineParent(env: Setting, db: Db, inc: Backup, k: Key, hw: Value)
    requires DEADLINE_HOMEWORK in env.foreignKeys && InScript(env, inc, "deadlines")
    requires k in inc.data["deadlines"] && k !in TableOf(db, "deadlines")
    requires var row := inc.data["deadlines"][k]; "homework_id" in row && row["homework_id"] == hw != Null
    ensures ("homework", [hw])
            in LoadedParents(env, UpsertedTable(env, TableOf(db, "deadlines"), inc, "deadlines", Infinity), inc, "deadlines", Infinity)
  {
    var t := UpsertedTable(env, TableOf(db, "deadlines"), inc, "deadlines", Infinity);
    assert k in LoadedRows(env, inc, "deadlines", Infinity);
    NewRowParent(env.foreignKeys, t, LoadedRows(env, inc, "deadlines", Infinity).Keys, k, hw);
  }

  lemma NewRowParent(fks: set<ForeignKey>, t: Table, ks: set<Key>, k: Key, hw: Value)
    requires DEADLINE_HOMEWORK in fks && k in ks && k in t
    requires "homework_id" in t[k] && t[k]["homework_id"] == hw != Null
    ensures ("homework", [hw]) in ParentsOf(fks, "deadlines", t, ks)
  {
    assert ValuesOf(DEADLINE_HOMEWORK.cols, t[k]).value == [hw];
  }

  // a.part001 beside a.part001.part001: taken in one order the part is left with
  // the bytes of its own part, in the other it is used up.
  lemma OrderDecides() returns (one: Files, other: Files)
    ensures var part := PartName("a", 1);
            var tree := map[part := "x", PartName(part, 1) := "y"];
            IsOutcome(tree, one) && IsOutcome(tree, other) && part in one && part !in other
  {
    var part := PartName("a", 1);
    PartNameParses("a", 1);
    PartNameParses(part, 1);
    var tree := map[part := "x", PartName(part, 1) := "y"];
    assert IsPartOf(PartName(part, 1), part) && PartName(part, 1) in tree;
    assert Nested(tree, part);
    one, other := NestedDiverges(tree, part);
  }
}
