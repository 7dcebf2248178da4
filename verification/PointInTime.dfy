// Point-in-time restore from end to end: any serial run of backup attempts,
// then a selection, a replay and a sweep.
module PointInTime {
  import opened Wrappers
  import opened Rows
  import opened History
  import opened Replay
  import opened ReplayLaws
  import opened Catalog
  import opened ChainLaws
  import opened Selection

  // What each selected incremental holds for one table.
  function TablesOf(incs: seq<Backup>, name: string): seq<Table> {
    seq(|incs|, i requires 0 <= i < |incs| => if name in incs[i].data then incs[i].data[name] else map[])
  }

  function ReadingOf(b: Backup): Reading {
    Reading(Micros(b.meta.snapshot), b.readAt)
  }

  function ReadingsOf(members: seq<Backup>): seq<Reading> {
    seq(|members|, i requires 0 <= i < |members| => ReadingOf(members[i]))
  }

  function Readings(chain: Chain): seq<Reading> {
    ReadingsOf([chain.base] + chain.incs)
  }

  // One table after the base and the incrementals; tables without tracked
  // columns come from the base alone.
  function RestoredTable(refs: map<string, TableRef>, chain: Chain, bound: Bound, name: string): Table
    requires name in chain.base.data
  {
    if name in refs then Replayed(refs[name], chain.base.data[name], TablesOf(chain.incs, name), bound)
    else chain.base.data[name]
  }

  ghost predicate SourceOk(src: Source) {
    forall name :: name in src.refs && name in src.history ==> WellStamped(src.refs[name], src.history[name])
  }

  lemma PlanReadings(c: seq<Backup>, b: int, e: int)
    requires 0 <= b < e <= |c|
    ensures Readings(Chain(c[b], c[b + 1..e])) == ReadingsOf(c[b..e])
  {
    assert [c[b]] + c[b + 1..e] == c[b..e];
  }

  // The snapshot of one entry of c[b..e].
  lemma PlanReading(c: seq<Backup>, b: int, e: int, i: int)
    requires 0 <= b <= i < e <= |c|
    ensures var ts := Readings(Chain(c[b], c[b + 1..e]));
            |ts| == e - b && ts[i - b].snapshot == Micros(c[i].meta.snapshot)
  {
    PlanReadings(c, b, e);
  }

  lemma PlanIsOrdered(src: Source, c: seq<Backup>, b: int, e: int)
    requires DataInv(src, c) && 0 <= b < e <= |c|
    ensures Ordered(Readings(Chain(c[b], c[b + 1..e])))
  {
    PlanReadings(c, b, e);
    forall i | b <= i < e ensures Micros(c[i].meta.snapshot) <= c[i].readAt {
      assert DataOk(src, c[i]);
    }
  }

  lemma PlanIsFaithful(src: Source, c: seq<Backup>, target: Option<int>, b: int, e: int, name: string)
    requires DataInv(src, c) && IsPlan(c, target, b, e)
    requires name in src.history && name in src.refs
    ensures name in c[b].data
    ensures var chain := Chain(c[b], c[b + 1..e]);
            Faithful(src.refs[name], src.history[name], Readings(chain), c[b].data[name], TablesOf(chain.incs, name))
  {
    var chain := Chain(c[b], c[b + 1..e]);
    var ts, incs := Readings(chain), TablesOf(chain.incs, name);
    PlanReadings(c, b, e);
    PlanIsOrdered(src, c, b, e);
    assert DataOk(src, c[b]);
    forall i | 0 <= i < |incs|
      ensures incs[i] == Window(src.refs[name], TableAt(src.history[name], ts[i + 1].readAt), ts[i].snapshot, ts[i + 1].snapshot)
    {
      CapturedTable(src, c[b + 1 + i], name);
      assert c[b + 1 + i].meta.since == c[b + i].meta.snapshot;
    }
  }

  lemma CapturedTable(src: Source, m: Backup, name: string)
    requires DataOk(src, m) && m.meta.kind.Incremental?
    requires name in src.history && name in src.refs
    ensures name in m.data
    ensures m.data[name] == Window(src.refs[name], TableAt(src.history[name], m.readAt),
                                   Micros(m.meta.since), Micros(m.meta.snapshot))
  {
  }

  // The result of the selection loops on one listing, and what the replay of it is worth.
  lemma SelectedIsExactIff(src: Source, c: seq<Backup>, target: int, name: string, k: Key)
    requires SourceOk(src) && ChainInv(c) && DataInv(src, c) && Select(c, Some(target)).Ok?
    requires name in src.history && name in src.refs
    ensures var chain := Select(c, Some(target)).value;
            name in chain.base.data
            && (Lookup(RestoredTable(src.refs, chain, At(Micros(target)), name), k)
                == Lookup(TableAt(src.history[name], Micros(target)), k)
                <==> Captured(src.history[name], k, Readings(chain), Micros(target)))
  {
    var b, e := SelectionIsPlan(c, Some(target));
    var chain := Select(c, Some(target)).value;
    PlanIsFaithful(src, c, Some(target), b, e, name);
    ReplayExactIff(src.refs[name], src.history[name], Readings(chain), chain.base.data[name],
                   TablesOf(chain.incs, name), Micros(target), k);
  }

  // For every source, every serial run of attempts and every target instant:
  // the restore finds a base exactly when some listed full backup is at or before
  // the target; and each key of each tracked table is then restored (before the
  // sweep) to its true row at the target if and only if that version was still
  // there when the backup responsible for it read the table.
  lemma RestoreIsExactIff(src: Source, run: seq<Attempt>, target: int, name: string, k: Key)
    requires SourceOk(src) && Serial(src, run)
    requires name in src.history && name in src.refs
    ensures var c := Run(src, run);
            match Select(c, Some(target))
            case Err(_) => forall i :: 0 <= i < |c| && c[i].meta.kind.Full? ==> target < c[i].meta.snapshot
            case Ok(chain) =>
              name in chain.base.data
              && (Lookup(RestoredTable(src.refs, chain, At(Micros(target)), name), k)
                  == Lookup(TableAt(src.history[name], Micros(target)), k)
                  <==> Captured(src.history[name], k, Readings(chain), Micros(target)))
  {
    RunKeepsInvariants(src, run);
    var c := Run(src, run);
    var b, e := SelectionIsPlan(c, Some(target));
    if Select(c, Some(target)).Ok? {
      SelectedIsExactIff(src, c, target, name, k);
    }
  }

  // Restoring the latest state always finds a base, and amounts to restoring
  // to the last listed snapshot.
  lemma LatestIsExactIff(src: Source, run: seq<Attempt>, name: string, k: Key) returns (chain: Chain)
    requires SourceOk(src) && Serial(src, run) && Run(src, run) != []
    requires name in src.history && name in src.refs
    ensures Select(Run(src, run), None) == Ok(chain) && name in chain.base.data
    ensures var c := Run(src, run);
            var last := Micros(c[|c| - 1].meta.snapshot);
            Lookup(RestoredTable(src.refs, chain, Infinity, name), k) == Lookup(TableAt(src.history[name], last), k)
            <==> Captured(src.history[name], k, Readings(chain), last)
  {
    RunKeepsInvariants(src, run);
    chain := LatestOfListing(src, Run(src, run), name, k);
  }

  lemma LatestOfListing(src: Source, c: seq<Backup>, name: string, k: Key) returns (chain: Chain)
    requires SourceOk(src) && ChainInv(c) && DataInv(src, c) && c != []
    requires name in src.history && name in src.refs
    ensures Select(c, None) == Ok(chain) && name in chain.base.data
    ensures var last := Micros(c[|c| - 1].meta.snapshot);
            Lookup(RestoredTable(src.refs, chain, Infinity, name), k) == Lookup(TableAt(src.history[name], last), k)
            <==> Captured(src.history[name], k, Readings(chain), last)
  {
    var b := LatestPlan(c);
    chain := Chain(c[b], c[b + 1..|c|]);
    LatestOfPlan(src, c, b, name, k);
  }

  lemma LatestOfPlan(src: Source, c: seq<Backup>, b: int, name: string, k: Key)
    requires SourceOk(src) && DataInv(src, c) && IsPlan(c, None, b, |c|)
    requires name in src.history && name in src.refs
    ensures name in c[b].data
    ensures var chain := Chain(c[b], c[b + 1..|c|]);
            var last := Micros(c[|c| - 1].meta.snapshot);
            Lookup(RestoredTable(src.refs, chain, Infinity, name), k) == Lookup(TableAt(src.history[name], last), k)
            <==> Captured(src.history[name], k, Readings(chain), last)
  {
    PlanIsFaithful(src, c, None, b, |c|, name);
    PlanReading(c, b, |c|, |c| - 1);
    LatestReplay(src.refs[name], src.history[name], Chain(c[b], c[b + 1..|c|]), name, Micros(c[|c| - 1].meta.snapshot), k);
  }

  lemma LatestPlan(c: seq<Backup>) returns (b: int)
    requires ChainInv(c) && c != []
    ensures IsPlan(c, None, b, |c|)
    ensures Select(c, None) == Ok(Chain(c[b], c[b + 1..|c|]))
  {
    LatestHasBase(c);
    var e;
    b, e := SelectionIsPlan(c, None);
  }

  lemma LatestHasBase(c: seq<Backup>)
    requires ChainInv(c) && c != []
    ensures Select(c, None).Ok?
  {
    assert Linked(c, 0);
    var b := BaseForIsLatest(c, None);
    assert AtOrBefore(c[0].meta.snapshot, None);
  }

  lemma LatestReplay(ref: TableRef, h: seq<Write>, chain: Chain, name: string, last: int, k: Key)
    requires WellStamped(ref, h) && name in chain.base.data
    requires Faithful(ref, h, Readings(chain), chain.base.data[name], TablesOf(chain.incs, name))
    requires Readings(chain)[|chain.incs|].snapshot == last
    ensures Lookup(Replayed(ref, chain.base.data[name], TablesOf(chain.incs, name), Infinity), k) == Lookup(TableAt(h, last), k)
            <==> Captured(h, k, Readings(chain), last)
  {
    var ts, incs := Readings(chain), TablesOf(chain.incs, name);
    NoBoundIsLastSnapshot(ref, h, ts, chain.base.data[name], incs, last);
    ReplayExactIff(ref, h, ts, chain.base.data[name], incs, last, k);
  }

  // Every attempt reads at the microsecond of its own snapshot.
  ghost predicate InstantRun(run: seq<Attempt>) {
    forall i :: 0 <= i < |run| ==> run[i].readAt == Micros(run[i].snapshot)
  }

  ghost predicate InstantCatalog(c: seq<Backup>) {
    forall b :: b in c ==> b.readAt == Micros(b.meta.snapshot)
  }

  lemma {:induction false} InstantEntries(src: Source, run: seq<Attempt>)
    requires InstantRun(run)
    ensures InstantCatalog(Run(src, run))
  {
    if run != [] {
      InstantEntries(src, run[..|run| - 1]);
    }
  }

  lemma PlanIsInstant(c: seq<Backup>, b: int, e: int)
    requires InstantCatalog(c) && 0 <= b < e <= |c|
    ensures Instant(Readings(Chain(c[b], c[b + 1..e])))
  {
    PlanReadings(c, b, e);
    forall i | b <= i < e ensures c[i].readAt == Micros(c[i].meta.snapshot) {
      assert c[i] in c;
    }
  }

  // Without read delay, restoring to the snapshot of any listed backup gives
  // exactly the tables a full dump at that snapshot would hold.
  lemma RestoreToSnapshotIsDump(src: Source, run: seq<Attempt>, i: nat, name: string)
    requires SourceOk(src) && Serial(src, run) && InstantRun(run) && i < |Run(src, run)|
    requires name in src.history && name in src.refs
    ensures var c := Run(src, run);
            var t := c[i].meta.snapshot;
            Select(c, Some(t)).Ok?
            && name in Select(c, Some(t)).value.base.data
            && RestoredTable(src.refs, Select(c, Some(t)).value, At(Micros(t)), name) == DumpAt(src, Micros(t))[name]
  {
    var c := Run(src, run);
    RunKeepsInvariants(src, run);
    InstantEntries(src, run);
    SnapshotIsSelectable(c, i);
    var t := c[i].meta.snapshot;
    var chain := Select(c, Some(t)).value;
    var want := TableAt(src.history[name], Micros(t));
    forall k
      ensures name in chain.base.data
      ensures Lookup(RestoredTable(src.refs, chain, At(Micros(t)), name), k) == Lookup(want, k)
    {
      SelectedIsExactIff(src, c, t, name, k);
      SnapshotTargetIsCaptured(src, c, i, name, k);
    }
    SelectedIsExactIff(src, c, t, name, []);
    SameLookups(RestoredTable(src.refs, chain, At(Micros(t)), name), want);
  }

  lemma SnapshotIsSelectable(c: seq<Backup>, i: nat)
    requires ChainInv(c) && i < |c|
    ensures Select(c, Some(c[i].meta.snapshot)).Ok?
  {
    BaseIndexIsBase(c, i);
    var base := BaseIndex(c, i);
    if base < i {
      SnapshotsIncrease(c, base, i);
    }
    assert AtOrBefore(c[base].meta.snapshot, Some(c[i].meta.snapshot));
    var b, e := SelectionIsPlan(c, Some(c[i].meta.snapshot));
  }

  lemma SnapshotTargetIsCaptured(src: Source, c: seq<Backup>, i: nat, name: string, k: Key)
    requires ChainInv(c) && DataInv(src, c) && InstantCatalog(c) && i < |c| && name in src.history
    requires Select(c, Some(c[i].meta.snapshot)).Ok?
    ensures Captured(src.history[name], k, Readings(Select(c, Some(c[i].meta.snapshot)).value), Micros(c[i].meta.snapshot))
  {
    var b, e := SelectionIsPlan(c, Some(c[i].meta.snapshot));
    PlanCapturesSnapshot(src, c, i, b, e, name, k);
  }

  lemma PlanCapturesSnapshot(src: Source, c: seq<Backup>, i: nat, b: int, e: int, name: string, k: Key)
    requires ChainInv(c) && DataInv(src, c) && InstantCatalog(c) && i < |c| && name in src.history
    requires IsPlan(c, Some(c[i].meta.snapshot), b, e)
    ensures Captured(src.history[name], k, Readings(Chain(c[b], c[b + 1..e])), Micros(c[i].meta.snapshot))
  {
    PlanReaches(c, i, b, e);
    MemberSnapshotIsCaptured(src, c, i, b, e, src.history[name], k);
  }

  lemma MemberSnapshotIsCaptured(src: Source, c: seq<Backup>, i: nat, b: int, e: int, h: seq<Write>, k: Key)
    requires DataInv(src, c) && InstantCatalog(c) && 0 <= b <= i < e <= |c|
    ensures Captured(h, k, Readings(Chain(c[b], c[b + 1..e])), Micros(c[i].meta.snapshot))
  {
    PlanReading(c, b, e, i);
    PlanIsOrdered(src, c, b, e);
    PlanIsInstant(c, b, e);
    SnapshotIsCaptured(h, k, Readings(Chain(c[b], c[b + 1..e])), i - b);
  }

  // Without a target the chain of the last entry is selected, and its snapshot is captured.
  lemma LastSnapshotIsCaptured(src: Source, c: seq<Backup>, h: seq<Write>, k: Key)
    requires ChainInv(c) && DataInv(src, c) && InstantCatalog(c) && c != []
    ensures Select(c, None).Ok?
    ensures Captured(h, k, Readings(Select(c, None).value), Micros(c[|c| - 1].meta.snapshot))
  {
    var b := LatestChain(c);
    MemberSnapshotIsCaptured(src, c, |c| - 1, b, |c|, h, k);
  }

  lemma LatestChain(c: seq<Backup>) returns (b: nat)
    requires ChainInv(c) && c != []
    ensures b < |c| && Select(c, None) == Ok(Chain(c[b], c[b + 1..|c|]))
  {
    b := LatestPlan(c);
  }

  // The plan for the snapshot of entry i contains entry i.
  lemma PlanReaches(c: seq<Backup>, i: nat, b: int, e: int)
    requires ChainInv(c) && i < |c| && IsPlan(c, Some(c[i].meta.snapshot), b, e)
    ensures b <= i < e
  {
    SnapshotOrder(c);
  }

  // Without read delay, every version visible at a snapshot of the chain was captured.
  lemma SnapshotIsCaptured(h: seq<Write>, k: Key, ts: seq<Reading>, m: nat)
    requires m < |ts| && Ordered(ts) && Instant(ts)
    ensures Captured(h, k, ts, ts[m].snapshot)
  {
    var t, w := ts[m].snapshot, LastWrite(h, k, ts[m].snapshot);
    if w < 0 || h[w].at <= ts[0].readAt {
      assert CapturedBy(h, k, ts, t, 0);
    } else {
      var j := m;
      while h[w].at <= ts[j - 1].snapshot
        invariant 0 < j <= m && h[w].at <= ts[j].snapshot
        decreases j
      {
        j := j - 1;
      }
      assert CapturedBy(h, k, ts, t, j);
    }
  }

  // What one key holds after a restore without read delay: its row at the end
  // of the last selected window if that row had not changed after the target, else its
  // row at the start of the window. With no incremental selected, its row at the base's
  // snapshot.
  ghost function WindowRow(ref: TableRef, h: seq<Write>, chain: Chain, target: int, k: Key): Option<Row> {
    if chain.incs == [] then Lookup(TableAt(h, Micros(chain.base.meta.snapshot)), k)
    else
      var last := chain.incs[|chain.incs| - 1].meta;
      if SettledBy(ref, TableAt(h, Micros(last.snapshot)), k, target) then Some(TableAt(h, Micros(last.snapshot))[k])
      else Lookup(TableAt(h, Micros(last.since)), k)
  }

  ghost predicate SettledBy(ref: TableRef, t: Table, k: Key, target: int) {
    k in t && StampedBy(ref, t[k], Micros(target))
  }

  // In the first case the row is the true one at a target within the window.
  ghost predicate WindowMeaning(ref: TableRef, h: seq<Write>, chain: Chain, target: int, k: Key, got: Option<Row>) {
    && got == WindowRow(ref, h, chain, target, k)
    && (chain.incs != [] ==>
         var last := chain.incs[|chain.incs| - 1].meta;
         target <= last.snapshot && SettledBy(ref, TableAt(h, Micros(last.snapshot)), k, target) ==>
           got == Lookup(TableAt(h, Micros(target)), k))
  }

  lemma RestoreWithoutDelay(src: Source, run: seq<Attempt>, target: int, name: string, k: Key) returns (chain: Chain)
    requires SourceOk(src) && Serial(src, run) && InstantRun(run) && Select(Run(src, run), Some(target)).Ok?
    requires name in src.history && name in src.refs
    ensures Select(Run(src, run), Some(target)) == Ok(chain) && name in chain.base.data
    ensures WindowMeaning(src.refs[name], src.history[name], chain, target, k,
                          Lookup(RestoredTable(src.refs, chain, At(Micros(target)), name), k))
  {
    RunKeepsInvariants(src, run);
    InstantEntries(src, run);
    var c := Run(src, run);
    var b, e := SelectionIsPlan(c, Some(target));
    chain := Chain(c[b], c[b + 1..e]);
    PlanIsFaithful(src, c, Some(target), b, e, name);
    PlanReplayMeaning(src, c, target, b, e, name, k);
  }

  lemma PlanReplayMeaning(src: Source, c: seq<Backup>, target: int, b: int, e: int, name: string, k: Key)
    requires SourceOk(src) && InstantCatalog(c) && IsPlan(c, Some(target), b, e)
    requires name in src.history && name in src.refs && name in c[b].data
    requires var chain := Chain(c[b], c[b + 1..e]);
             Faithful(src.refs[name], src.history[name], Readings(chain), c[b].data[name], TablesOf(chain.incs, name))
    ensures var chain := Chain(c[b], c[b + 1..e]);
            WindowMeaning(src.refs[name], src.history[name], chain, target, k,
                          Lookup(RestoredTable(src.refs, chain, At(Micros(target)), name), k))
  {
    PlanIsInstant(c, b, e);
    PlanEnd(c, target, b, e);
    ChainReplayMeaning(src.refs, src.history[name], Chain(c[b], c[b + 1..e]), target, name, k);
  }

  // The last window of a plan, seen from its readings.
  lemma PlanEnd(c: seq<Backup>, target: int, b: int, e: int)
    requires IsPlan(c, Some(target), b, e)
    ensures EndsBefore(Chain(c[b], c[b + 1..e]), target)
  {
    PlanReading(c, b, e, e - 1);
    if e - 1 > b {
      PlanReading(c, b, e, e - 2);
      assert c[b + 1..e][e - b - 2] == c[e - 1] && c[e - 1].meta.since == c[e - 2].meta.snapshot;
    }
  }

  ghost predicate EndsBefore(chain: Chain, target: int) {
    var n := |chain.incs|;
    if n == 0 then Readings(chain)[0].snapshot == Micros(chain.base.meta.snapshot)
    else
      var last := chain.incs[n - 1].meta;
      Readings(chain)[n].snapshot == Micros(last.snapshot)
      && Readings(chain)[n - 1].snapshot == Micros(last.since) && last.since <= target
  }

  lemma ChainReplayMeaning(refs: map<string, TableRef>, h: seq<Write>, chain: Chain, target: int, name: string, k: Key)
    requires name in refs && name in chain.base.data && WellStamped(refs[name], h)
    requires Faithful(refs[name], h, Readings(chain), chain.base.data[name], TablesOf(chain.incs, name))
    requires Instant(Readings(chain))
    requires EndsBefore(chain, target)
    ensures WindowMeaning(refs[name], h, chain, target, k,
                          Lookup(RestoredTable(refs, chain, At(Micros(target)), name), k))
  {
    var ts, incs := Readings(chain), TablesOf(chain.incs, name);
    if |incs| > 0 {
      ReplayMeaning(refs[name], h, ts, chain.base.data[name], incs, Micros(target), k);
    } else {
      assert Replayed(refs[name], chain.base.data[name], incs, At(Micros(target))) == chain.base.data[name];
    }
  }

  // A table without tracked columns never moves past its base: whatever the
  // target, it holds what the base's dump read.
  lemma UntrackedTableIsBaseDump(src: Source, run: seq<Attempt>, target: Option<int>, bound: Bound, name: string)
    requires Serial(src, run) && Select(Run(src, run), target).Ok?
    requires name in src.history && name !in src.refs
    ensures var chain := Select(Run(src, run), target).value;
            name in chain.base.data
            && RestoredTable(src.refs, chain, bound, name) == TableAt(src.history[name], chain.base.readAt)
  {
    RunKeepsInvariants(src, run);
    var c := Run(src, run);
    var b, e := SelectionIsPlan(c, target);
    assert DataOk(src, c[b]);
  }
}
