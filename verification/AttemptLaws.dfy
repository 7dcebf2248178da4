// What one attempt adds to the listing, in terms of the settings, the source's
// rows and the days of retention.
module AttemptLaws {
  import opened Wrappers
  import opened Rows
  import opened History
  import opened Catalog
  import opened ChainLaws
  import opened Cadence

  // The attempt hangs an incremental on the last listed entry: nothing asks for a
  // full one, and either an incremental is asked for, or change tracking is on and the
  // last full and what follows it are fewer than the settings want.
  predicate Extends(a: Attempt, c: seq<Backup>) {
    && c != [] && !a.forceFull
    && (|| a.forceIncremental
        || (a.cfg.pitrEnabled && 1 < a.cfg.fullBackupEvery && |c| - BaseIndex(c, |c| - 1) < a.cfg.fullBackupEvery))
  }

  lemma DecideIff(a: Attempt, c: seq<Backup>)
    requires ChainInv(c)
    ensures Decide(a, c) == if Extends(a, c) then Some(c[|c| - 1]) else None
  {
    if c != [] {
      LastChainLength(c);
    }
  }

  // Nanoseconds.
  const DAY := 24 * 60 * 60 * 1_000_000_000

  // Retention keeps an entry exactly if some backup of its chain is at most the
  // given number of days old.
  lemma RetainedIff(c: seq<Backup>, cfg: Config, wallClock: int, b: Backup)
    requires ChainInv(c)
    ensures b in Retained(c, cfg, wallClock) <==>
            && b in c
            && (cfg.retentionDays <= 0
                || exists m :: m in c && m.meta.baseFull == b.meta.baseFull && wallClock - m.meta.snapshot <= cfg.retentionDays * DAY)
  {
    if cfg.retentionDays > 0 && b in c {
      var cutoff := Cutoff(cfg, wallClock);
      var m := RetentionDropsWholeChains(c, cutoff);
      var i :| 0 <= i < |c| && c[i] == b;
      YoungestDecides(c, i, cutoff);
      DroppedIff(c, m, i);
    }
  }

  lemma DroppedIff(c: seq<Backup>, m: nat, i: nat)
    requires ChainInv(c) && m <= |c| && i < |c|
    ensures c[i] in c[m..] <==> m <= i
  {
    if m <= i {
      assert c[m..][i - m] == c[i];
    } else {
      forall j | m <= j < |c| ensures c[j] != c[i] {
        SnapshotsIncrease(c, i, j);
      }
    }
  }

  lemma YoungestDecides(c: seq<Backup>, i: nat, cutoff: int)
    requires ChainInv(c) && i < |c|
    ensures Newest(c, c[i].meta.baseFull) < cutoff <==>
            forall m :: m in c && m.meta.baseFull == c[i].meta.baseFull ==> m.meta.snapshot < cutoff
  {
    assert Named(c[i]);
    var base := c[i].meta.baseFull;
    var j :| 0 <= j < |c| && c[j].meta.baseFull == base && c[j].meta.snapshot == Newest(c, base);
    assert c[j] in c;
  }

  // A full backup holds every table as its read saw it.
  ghost predicate HoldsAll(src: Source, b: Backup) {
    && b.data.Keys == src.history.Keys
    && forall name :: name in src.history ==> b.data[name] == TableAt(src.history[name], b.readAt)
  }

  // An incremental holds, of each tracked table, the rows its read saw whose last
  // stamp is after the one snapshot and up to the other, in whole microseconds.
  ghost predicate HoldsChanges(src: Source, b: Backup) {
    && b.data.Keys == src.history.Keys * src.refs.Keys
    && forall name, k :: name in src.history && name in src.refs ==>
         Lookup(b.data[name], k) == ChangedRow(src.refs[name], src.history[name], b, k)
  }

  ghost function ChangedRow(ref: TableRef, h: seq<Write>, b: Backup, k: Key): Option<Row> {
    var seen := TableAt(h, b.readAt);
    if k in seen && exists x :: LastStamp(ref, seen[k], x) && b.meta.since / 1000 < x <= b.meta.snapshot / 1000
    then Some(seen[k]) else None
  }

  lemma DumpHoldsAll(src: Source, b: Backup)
    requires b.data == DumpAt(src, b.readAt)
    ensures HoldsAll(src, b)
  {
  }

  lemma CaptureHoldsChanges(src: Source, b: Backup)
    requires b.data == CaptureAt(src, b.readAt, Micros(b.meta.since), Micros(b.meta.snapshot))
    ensures HoldsChanges(src, b)
  {
    forall name, k | name in src.history && name in src.refs
      ensures Lookup(b.data[name], k) == ChangedRow(src.refs[name], src.history[name], b, k)
    {
      WindowIff(src.refs[name], TableAt(src.history[name], b.readAt), Micros(b.meta.since), Micros(b.meta.snapshot), k);
    }
  }

  // Every listed backup of every serial run holds what it should: a full one all
  // tables, an incremental exactly the rows created, updated or soft-deleted since the
  // entry before it.
  lemma EntryHolds(src: Source, run: seq<Attempt>, i: nat)
    requires Serial(src, run) && i < |Run(src, run)|
    ensures var c := Run(src, run);
            if c[i].meta.kind.Full? then HoldsAll(src, c[i])
            else i > 0 && c[i].meta.since == c[i - 1].meta.snapshot && HoldsChanges(src, c[i])
  {
    var c := Run(src, run);
    RunKeepsInvariants(src, run);
    assert Linked(c, i) && DataOk(src, c[i]);
    if c[i].meta.kind.Full? {
      DumpHoldsAll(src, c[i]);
    } else {
      CaptureHoldsChanges(src, c[i]);
    }
  }

  // The entry a successful attempt makes.
  ghost predicate IsEntryOf(src: Source, a: Attempt, c: seq<Backup>, b: Backup) {
    && b.meta.snapshot == a.snapshot && b.readAt == a.readAt
    && if Extends(a, c) then
         var last := c[|c| - 1].meta;
         && b.meta.kind.Incremental? && b.meta.parent == Some(last.id) && b.meta.baseFull == last.baseFull
         && b.meta.since == last.snapshot && HoldsChanges(src, b)
       else b.meta.kind.Full? && b.meta.parent == None && b.meta.baseFull == b.meta.id && HoldsAll(src, b)
  }

  // An attempt that completes, and for an incremental finds a tracked table, is listed
  // last, unless its own cleanup comes so late that it is past retention; any other
  // attempt changes nothing.
  lemma AttemptIsListedIff(src: Source, a: Attempt, c: seq<Backup>)
    requires ChainInv(c) && DataInv(src, c) && ClockOk(a) && Before(c, a)
    requires a.cfg.retentionDays > 0 ==> a.wallClock - a.snapshot <= a.cfg.retentionDays * DAY
    ensures var after := Created(src, a, c);
            if a.completes && (Extends(a, c) ==> exists name :: name in src.history && name in src.refs)
            then after != [] && IsEntryOf(src, a, c, after[|after| - 1])
            else after == c
  {
    DecideIff(a, c);
    if Succeeds(src, a, c) {
      var b := NewBackup(src, a, Decide(a, c));
      NewEntry(src, a, c);
      AppendKeepsChain(src, a, c);
      NewIsLast(Extended(src, a, c), a.cfg, a.wallClock);
    }
  }

  lemma NewEntry(src: Source, a: Attempt, c: seq<Backup>)
    requires ChainInv(c)
    ensures IsEntryOf(src, a, c, NewBackup(src, a, Decide(a, c)))
  {
    DecideIff(a, c);
    var b := NewBackup(src, a, Decide(a, c));
    if Extends(a, c) {
      CaptureHoldsChanges(src, b);
    } else {
      DumpHoldsAll(src, b);
    }
  }

  lemma NewIsLast(c: seq<Backup>, cfg: Config, wallClock: int)
    requires ChainInv(c) && c != []
    requires cfg.retentionDays > 0 ==> wallClock - c[|c| - 1].meta.snapshot <= cfg.retentionDays * DAY
    ensures var kept := Retained(c, cfg, wallClock); kept != [] && kept[|kept| - 1] == c[|c| - 1]
  {
    if cfg.retentionDays > 0 {
      var m := RetentionDropsWholeChains(c, Cutoff(cfg, wallClock));
      RetentionKeepsNewChain(c, Cutoff(cfg, wallClock));
      DroppedIff(c, m, |c| - 1);
    }
  }
}
