// Inputs on which the backup service does less than its name promises. Each is
// an instance of an exact condition proved elsewhere, on runs of backup attempts.
module Limits {
  import opened Wrappers
  import opened Rows
  import opened History
  import opened Replay
  import opened Catalog
  import opened Selection
  import opened PointInTime

  const REF := TableRef("", "updated_at", "")
  const KEY: Key := [Text("k")]
  const SECOND := 1_000_000_000
  const DAY := 86_400 * SECOND

  // One table with one key, written at these seconds.
  function Version(second: int): Row { map["updated_at" := Stamp(second * 1_000_000)] }

  function WriteAt(second: int): Write { Write(second * 1_000_000, KEY, Version(second)) }

  function SourceOf(h: seq<Write>): Source { Source(map["t" := REF], map["t" := h]) }

  // An attempt that nothing forces and nothing disturbs.
  function AttemptAt(cfg: Config, snapshot: int, readAt: int): Attempt {
    Attempt(cfg, false, false, snapshot, readAt, true, snapshot)
  }

  const INCREMENTAL := Config(true, 7, 0)

  lemma StampedWrites(h: seq<Write>, seconds: seq<int>)
    requires |h| == |seconds| && forall i :: 0 <= i < |h| ==> h[i] == WriteAt(seconds[i])
    requires forall i, j :: 0 <= i < j < |h| ==> seconds[i] < seconds[j]
    ensures SourceOk(SourceOf(h))
  {
    forall i | 0 <= i < |h| ensures LastStamp(REF, h[i].row, h[i].at) {
      assert HasStamp(Version(seconds[i]), "updated_at", seconds[i] * 1_000_000);
    }
  }

  // A full backup and the incremental after it.
  lemma FullThenIncremental(src: Source, a: Attempt, b: Attempt)
    requires CanCapture(src) && a == AttemptAt(INCREMENTAL, a.snapshot, a.readAt) && b == AttemptAt(INCREMENTAL, b.snapshot, b.readAt)
    requires ClockOk(a) && ClockOk(b) && Earlier(a, b)
    ensures Serial(src, [a, b])
    ensures var full := NewBackup(src, a, None);
            Run(src, [a, b]) == [full, NewBackup(src, b, Some(full))]
  {
    var full := NewBackup(src, a, None);
    OneFull(src, a);
    assert [a, b][..1] == [a];
    assert [full][..0] == [];
    assert ChainLength([full], full.meta.baseFull) == 1;
    assert NameAt(src, [a, b], 0) == full.meta.id && NameAt(src, [a, b], 1).kind == Incremental;
  }

  lemma OneFull(src: Source, a: Attempt)
    requires a.completes && !a.forceIncremental && a.cfg.retentionDays <= 0
    ensures Run(src, [a]) == [NewBackup(src, a, None)]
  {
    assert [a][..0] == [];
    assert Run(src, []) == [];
  }

  lemma ChainOfTwo(src: Source, a: Attempt, b: Attempt, target: int)
    requires a.snapshot < b.snapshot && a.snapshot <= target
    ensures var full := NewBackup(src, a, None);
            var inc := NewBackup(src, b, Some(full));
            Select([full, inc], Some(target)) == Ok(Chain(full, [inc]))
            && Readings(Chain(full, [inc])) == [Reading(Micros(a.snapshot), a.readAt), Reading(Micros(b.snapshot), b.readAt)]
  {
    var full := NewBackup(src, a, None);
    var inc := NewBackup(src, b, Some(full));
    assert [full, inc][..1] == [full] && [full][..0] == [];
    assert BaseFor([full, inc], Some(target)) == BaseFor([full], Some(target)) == Some(full);
    assert Applying([full], full, Some(target)) == [];
    assert Applying([full, inc], full, Some(target)) == [inc];
  }

  // Two attempts, and a restore to a target whose version was not captured.
  lemma NotRestored(h: seq<Write>, a: Attempt, b: Attempt, target: int)
    requires SourceOk(SourceOf(h)) && Micros(target) * 1000 == target
    requires a == AttemptAt(INCREMENTAL, a.snapshot, a.readAt) && b == AttemptAt(INCREMENTAL, b.snapshot, b.readAt)
    requires ClockOk(a) && ClockOk(b) && Earlier(a, b) && a.snapshot <= target
    requires !Captured(h, KEY, [Reading(Micros(a.snapshot), a.readAt), Reading(Micros(b.snapshot), b.readAt)], Micros(target))
    ensures IsMissed(h, [a, b], target)
  {
    var src := SourceOf(h);
    assert "t" in src.history && "t" in src.refs;
    FullThenIncremental(src, a, b);
    ChainOfTwo(src, a, b, target);
    RestoreIsExactIff(src, [a, b], target, "t", KEY);
  }

  // The run is serial, a restore to the target finds a base, and the key does not
  // come back with its row at the target.
  ghost predicate IsMissed(h: seq<Write>, run: seq<Attempt>, target: int) {
    var src := SourceOf(h);
    && Serial(src, run) && Select(Run(src, run), Some(target)).Ok?
    && var chain := Select(Run(src, run), Some(target)).value;
       "t" in chain.base.data
       && Lookup(RestoredTable(src.refs, chain, At(Micros(target)), "t"), KEY) != Lookup(TableAt(h, Micros(target)), KEY)
  }

  // A row written at 1, 5 and 8; a full at 2 and an incremental at 10, with no
  // read delay. Restoring to 6 does not give the row its version of second 5.
  lemma TargetInsideWindowIsMissed()
    ensures IsMissed([WriteAt(1), WriteAt(5), WriteAt(8)],
                     [AttemptAt(INCREMENTAL, 2 * SECOND, 2_000_000), AttemptAt(INCREMENTAL, 10 * SECOND, 10_000_000)], 6 * SECOND)
  {
    var h := [WriteAt(1), WriteAt(5), WriteAt(8)];
    StampedWrites(h, [1, 5, 8]);
    assert LastWrite(h, KEY, 6_000_000) == 1;
    assert h[2].key == KEY && WrittenIn(h, KEY, 6_000_000, 10_000_000);
    NotRestored(h, AttemptAt(INCREMENTAL, 2 * SECOND, 2_000_000), AttemptAt(INCREMENTAL, 10 * SECOND, 10_000_000), 6 * SECOND);
  }

  // A row written at 1, 5 and 11; the incremental takes its snapshot time at 10
  // and reads at 12. Restoring to its own snapshot misses the version of second 5.
  lemma ReadDelayLosesRow()
    ensures IsMissed([WriteAt(1), WriteAt(5), WriteAt(11)],
                     [AttemptAt(INCREMENTAL, 2 * SECOND, 2_000_000), AttemptAt(INCREMENTAL, 10 * SECOND, 12_000_000)], 10 * SECOND)
  {
    var h := [WriteAt(1), WriteAt(5), WriteAt(11)];
    StampedWrites(h, [1, 5, 11]);
    assert LastWrite(h, KEY, 10_000_000) == 1;
    assert h[2].key == KEY && WrittenIn(h, KEY, 10_000_000, 12_000_000);
    NotRestored(h, AttemptAt(INCREMENTAL, 2 * SECOND, 2_000_000), AttemptAt(INCREMENTAL, 10 * SECOND, 12_000_000), 10 * SECOND);
  }

  // Full backups only, kept for this many days.
  function FullOn(day: int, retentionDays: int): Attempt {
    AttemptAt(Config(true, 1, retentionDays), day * DAY, day * 86_400_000_000)
  }

  function FullBackup(src: Source, day: int): Backup { NewBackup(src, FullOn(day, 0), None) }

  // Fulls on days 1 and 40, kept for 30 days. The second one's cleanup has its
  // cutoff at day 10 and drops the first, so day 20 can no longer be restored,
  // although it is not past the retention limit.
  lemma RetentionDropsRestorableTime(src: Source)
    ensures var kept, all := Run(src, [FullOn(1, 30), FullOn(40, 30)]), Run(src, [FullOn(1, 0), FullOn(40, 0)]);
            Cutoff(FullOn(40, 30).cfg, FullOn(40, 30).wallClock) < 20 * DAY
            && Select(all, Some(20 * DAY)).Ok? && Select(kept, Some(20 * DAY)).Err?
  {
    var one, two := FullBackup(src, 1), FullBackup(src, 40);
    BothFulls(src);
    KeptFull(src);
    assert [one, two][..1] == [one] && [one][..0] == [] && [two][..0] == [];
    assert BaseFor([one, two], Some(20 * DAY)) == BaseFor([one], Some(20 * DAY)) == Some(one);
    assert BaseFor([two], Some(20 * DAY)) == BaseFor([], Some(20 * DAY)) == None;
  }

  lemma BothFulls(src: Source)
    ensures Run(src, [FullOn(1, 0), FullOn(40, 0)]) == [FullBackup(src, 1), FullBackup(src, 40)]
  {
    var a, b := FullOn(1, 0), FullOn(40, 0);
    OneFull(src, a);
    assert [a, b][..1] == [a];
  }

  lemma KeptFull(src: Source)
    ensures Run(src, [FullOn(1, 30), FullOn(40, 30)]) == [FullBackup(src, 40)]
  {
    var a, b := FullOn(1, 30), FullOn(40, 30);
    var one := FullBackup(src, 1);
    assert [a, b][..1] == [a] && [a][..0] == [] && Run(src, []) == [];
    KeptAlone(src);
    assert Extended(src, a, []) == [one];
    assert Run(src, [a]) == [one];
    assert Decide(b, [one]) == None && Extended(src, b, [one]) == [one, FullBackup(src, 40)];
    KeptSecond(src);
  }

  lemma KeptAlone(src: Source)
    ensures Retained([FullBackup(src, 1)], FullOn(1, 30).cfg, FullOn(1, 30).wallClock) == [FullBackup(src, 1)]
  {
    var one := FullBackup(src, 1);
    var cutoff := Cutoff(FullOn(1, 30).cfg, FullOn(1, 30).wallClock);
    NewestOfFulls(src);
    assert [one][..0] == [] && Unexpired([one], [], cutoff) == [];
    assert cutoff < 0 && !Expired([one], one.meta.baseFull, cutoff);
  }

  lemma KeptSecond(src: Source)
    ensures var one, two := FullBackup(src, 1), FullBackup(src, 40);
            Retained([one, two], FullOn(40, 30).cfg, FullOn(40, 30).wallClock) == [two]
  {
    var one, two := FullBackup(src, 1), FullBackup(src, 40);
    var cutoff := Cutoff(FullOn(40, 30).cfg, FullOn(40, 30).wallClock);
    NewestOfFulls(src);
    assert [one, two][..1] == [one] && [one][..0] == [];
    assert Unexpired([one, two], [one], cutoff) == [];
  }

  lemma NewestOfFulls(src: Source)
    ensures var one, two := FullBackup(src, 1), FullBackup(src, 40);
            && Newest([one], one.meta.id) == 1 * DAY
            && Newest([one, two], one.meta.id) == 1 * DAY && Newest([one, two], two.meta.id) == 40 * DAY
  {
    var one, two := FullBackup(src, 1), FullBackup(src, 40);
    assert [one][..0] == [] && [one, two][..1] == [one];
    assert Newest([], one.meta.id) == 0 && Newest([], two.meta.id) == 0;
    assert Newest([one], two.meta.id) == 0;
  }
}
