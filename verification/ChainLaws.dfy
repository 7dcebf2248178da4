// The chain invariant of the catalog, kept by every attempt, and what retention
// does to it.
module ChainLaws {
  import opened Wrappers
  import opened Catalog

  // Entry i is linked to the entry just before it, or starts a chain of its own.
  ghost predicate Linked(c: seq<Backup>, i: nat)
    requires i < |c|
  {
    var m := c[i].meta;
    if m.kind.Full? then m.baseFull == m.id && m.parent.None?
    else i > 0 && m.parent == Some(c[i - 1].meta.id) && m.since == c[i - 1].meta.snapshot
         && m.baseFull == c[i - 1].meta.baseFull
  }

  ghost predicate Named(b: Backup) {
    b.meta.id == BackupId(b.meta.kind, SecondOf(b.meta.snapshot)) && 0 < b.meta.snapshot
  }

  ghost predicate ChainInv(c: seq<Backup>) {
    && (forall i {:trigger Linked(c, i)} :: 0 <= i < |c| ==> Linked(c, i))
    && (forall i {:trigger Named(c[i])} :: 0 <= i < |c| ==> Named(c[i]))
    && (forall i, j :: 0 <= i < j < |c| ==> c[i].meta.snapshot < c[j].meta.snapshot)
    && (forall i, j :: 0 <= i < j < |c| ==> c[i].meta.id != c[j].meta.id)
  }

  // The full backup that entry i's chain starts with.
  function BaseIndex(c: seq<Backup>, i: nat): (b: nat)
    requires i < |c|
    ensures b <= i
    ensures forall j :: b < j <= i ==> c[j].meta.kind.Incremental?
  {
    if i == 0 || c[i].meta.kind.Full? then i else BaseIndex(c, i - 1)
  }

  lemma {:induction false} BaseIndexIsBase(c: seq<Backup>, i: nat)
    requires ChainInv(c) && i < |c|
    ensures c[BaseIndex(c, i)].meta.kind.Full?
    ensures c[i].meta.baseFull == c[BaseIndex(c, i)].meta.id
  {
    assert Linked(c, i);
    if c[i].meta.kind.Incremental? {
      BaseIndexIsBase(c, i - 1);
    }
  }

  lemma SnapshotsIncrease(c: seq<Backup>, i: nat, j: nat)
    requires ChainInv(c) && i < j < |c|
    ensures c[i].meta.snapshot < c[j].meta.snapshot
    ensures c[i].meta.id != c[j].meta.id
  {
  }

  lemma SnapshotOrder(c: seq<Backup>)
    requires ChainInv(c)
    ensures forall i, j :: 0 <= i < j < |c| ==> c[i].meta.snapshot < c[j].meta.snapshot
  {
    forall i, j | 0 <= i < j < |c| ensures c[i].meta.snapshot < c[j].meta.snapshot {
      SnapshotsIncrease(c, i, j);
    }
  }

  // Chains are contiguous: two entries share a base exactly when no full backup
  // lies after the first and up to the second.
  lemma {:induction false} SameChainIff(c: seq<Backup>, i: nat, j: nat)
    requires ChainInv(c) && i <= j < |c|
    ensures c[i].meta.baseFull == c[j].meta.baseFull <==> forall m :: i < m <= j ==> c[m].meta.kind.Incremental?
  {
    BaseIndexIsBase(c, i);
    BaseIndexIsBase(c, j);
    var bi, bj := BaseIndex(c, i), BaseIndex(c, j);
    if bi < bj {
      SnapshotsIncrease(c, bi, bj);
    } else if bj < bi {
      SnapshotsIncrease(c, bj, bi);
    }
  }

  // The first entry that retention keeps.
  function FirstKept(c: seq<Backup>, cutoff: int, i: nat): (m: nat)
    requires i <= |c|
    ensures i <= m <= |c|
    ensures m < |c| ==> !Expired(c, c[m].meta.baseFull, cutoff)
    ensures forall j :: i <= j < m ==> Expired(c, c[j].meta.baseFull, cutoff)
    decreases |c| - i
  {
    if i < |c| && Expired(c, c[i].meta.baseFull, cutoff) then FirstKept(c, cutoff, i + 1) else i
  }

  // Once a chain is kept, every later one is.
  lemma {:induction false} KeptIsUpward(c: seq<Backup>, cutoff: int, i: nat, j: nat)
    requires ChainInv(c) && i <= j < |c|
    requires !Expired(c, c[i].meta.baseFull, cutoff)
    ensures !Expired(c, c[j].meta.baseFull, cutoff)
  {
    assert Named(c[i]) && Named(c[j]);
    var t := Newest(c, c[i].meta.baseFull);
    var last :| 0 <= last < |c| && c[last].meta.baseFull == c[i].meta.baseFull && c[last].meta.snapshot == t;
    if c[i].meta.baseFull != c[j].meta.baseFull {
      if j < last {
        SameChainIff(c, i, last);
        SameChainIff(c, i, j);
      } else if last < j {
        SnapshotsIncrease(c, last, j);
      }
    }
  }

  // A filter that drops exactly the first m entries leaves the rest.
  lemma {:induction false} UnexpiredIsSuffix(all: seq<Backup>, c: seq<Backup>, cutoff: int, m: nat)
    requires forall i :: 0 <= i < |c| ==> (i < m <==> Expired(all, c[i].meta.baseFull, cutoff))
    ensures Unexpired(all, c, cutoff) == if |c| <= m then [] else c[m..]
  {
    if c != [] {
      var init := c[..|c| - 1];
      UnexpiredIsSuffix(all, init, cutoff, m);
      if m < |c| {
        assert c[m..] == init[m..] + [c[|c| - 1]];
      }
    }
  }

  lemma SuffixKeepsChain(c: seq<Backup>, m: nat)
    requires ChainInv(c) && m <= |c| && (m < |c| ==> c[m].meta.kind.Full?)
    ensures ChainInv(c[m..])
  {
    var r := c[m..];
    forall i | 0 <= i < |r| ensures Named(r[i]) && Linked(r, i) {
      assert Named(c[m + i]) && Linked(c, m + i);
    }
  }

  // Retention drops a prefix of the listing made of whole chains: an entry goes
  // exactly when its chain's newest snapshot is before the cutoff, what stays
  // starts with a full backup, and no incremental loses its base or parent.
  lemma RetentionDropsWholeChains(c: seq<Backup>, cutoff: int) returns (m: nat)
    requires ChainInv(c)
    ensures m <= |c| && Unexpired(c, c, cutoff) == c[m..]
    ensures m < |c| ==> c[m].meta.kind.Full?
    ensures forall i :: 0 <= i < |c| ==> (i < m <==> Newest(c, c[i].meta.baseFull) < cutoff)
    ensures ChainInv(Unexpired(c, c, cutoff))
  {
    m := FirstKept(c, cutoff, 0);
    if 0 < m < |c| {
      assert c[m - 1].meta.baseFull != c[m].meta.baseFull;
    }
    if m < |c| {
      assert Linked(c, m);
    }
    forall i | 0 <= i < |c|
      ensures i < m <==> Expired(c, c[i].meta.baseFull, cutoff)
      ensures i < m <==> Newest(c, c[i].meta.baseFull) < cutoff
    {
      assert Named(c[i]);
      if m <= i {
        KeptIsUpward(c, cutoff, m, i);
      }
    }
    UnexpiredIsSuffix(c, c, cutoff, m);
    SuffixKeepsChain(c, m);
  }

  // The chain just extended survives its own cleanup when the cutoff is not past the new snapshot.
  lemma RetentionKeepsNewChain(c: seq<Backup>, cutoff: int)
    requires ChainInv(c) && |c| > 0 && cutoff <= c[|c| - 1].meta.snapshot
    ensures var kept := Unexpired(c, c, cutoff);
            forall i :: 0 <= i < |c| && c[i].meta.baseFull == c[|c| - 1].meta.baseFull ==> c[i] in kept
  {
    var m := RetentionDropsWholeChains(c, cutoff);
    forall i | 0 <= i < |c| && c[i].meta.baseFull == c[|c| - 1].meta.baseFull ensures c[i] in c[m..] {
      assert !(i < m);
      assert c[i] == c[m..][i - m];
    }
  }

  lemma AppendKeepsChain(src: Source, a: Attempt, c: seq<Backup>)
    requires ChainInv(c) && ClockOk(a) && Before(c, a)
    ensures ChainInv(Extended(src, a, c))
  {
    var r := Extended(src, a, c);
    forall i | 0 <= i < |r| ensures Named(r[i]) && Linked(r, i) {
      if i < |c| {
        assert Named(c[i]) && Linked(c, i);
      }
    }
  }

  // Every listed backup was taken before attempt `a`, under another name.
  ghost predicate Before(c: seq<Backup>, a: Attempt) {
    forall b :: b in c ==> b.meta.id != NameFor(a, c) && b.meta.snapshot < a.snapshot && 1000 * b.readAt <= a.snapshot
  }

  // A listed backup is the work of some attempt of the run.
  ghost predicate MadeBy(src: Source, run: seq<Attempt>, b: Backup, i: nat) {
    i < |run| && b.meta.id == NameAt(src, run, i) && b.meta.snapshot == run[i].snapshot && b.readAt == run[i].readAt
  }

  lemma {:induction false} ListedWasMade(src: Source, run: seq<Attempt>, b: Backup) returns (i: nat)
    requires b in Run(src, run)
    ensures MadeBy(src, run, b, i)
  {
    var n := |run| - 1;
    var before := Run(src, run[..n]);
    if b in before {
      i := ListedWasMade(src, run[..n], b);
      assert run[..n][..i] == run[..i];
    } else {
      assert b in Extended(src, run[n], before);
      i := n;
    }
  }

  lemma RunIsBefore(src: Source, run: seq<Attempt>, n: nat)
    requires Serial(src, run) && n < |run|
    ensures Serial(src, run[..n]) && Before(Run(src, run[..n]), run[n])
  {
    forall i: nat | i < n ensures NameAt(src, run[..n], i) == NameAt(src, run, i) {
      assert run[..n][..i] == run[..i];
    }
    forall b | b in Run(src, run[..n])
      ensures b.meta.id != NameAt(src, run, n) && b.meta.snapshot < run[n].snapshot && 1000 * b.readAt <= run[n].snapshot
    {
      var i := ListedWasMade(src, run[..n], b);
      assert Earlier(run[i], run[n]);
    }
  }

  // The data of every listed backup: a full is a dump at its read instant, an
  // incremental the window between its parent's snapshot and its own, and every
  // read lies between the backup's snapshot and the next one's.
  ghost predicate DataInv(src: Source, c: seq<Backup>) {
    && (forall i :: 0 <= i < |c| ==> DataOk(src, c[i]))
    && (forall i, j :: 0 <= i < j < |c| ==> 1000 * c[i].readAt <= c[j].meta.snapshot)
  }

  ghost predicate DataOk(src: Source, b: Backup) {
    && Micros(b.meta.snapshot) <= b.readAt
    && b.data == if b.meta.kind.Full? then DumpAt(src, b.readAt)
                 else CaptureAt(src, b.readAt, Micros(b.meta.since), Micros(b.meta.snapshot))
  }

  lemma AppendKeepsData(src: Source, a: Attempt, c: seq<Backup>)
    requires DataInv(src, c) && ClockOk(a) && Before(c, a)
    ensures DataInv(src, Extended(src, a, c))
  {
    var b := NewBackup(src, a, Decide(a, c));
    assert DataOk(src, b);
    var r := Extended(src, a, c);
    forall i, j | 0 <= i < j < |r| ensures 1000 * r[i].readAt <= r[j].meta.snapshot {
      assert c[i] in c;
    }
  }

  lemma SuffixKeepsData(src: Source, c: seq<Backup>, m: nat)
    requires DataInv(src, c) && m <= |c|
    ensures DataInv(src, c[m..])
  {
  }

  lemma CreatedKeepsInvariants(src: Source, a: Attempt, c: seq<Backup>)
    requires ChainInv(c) && DataInv(src, c) && ClockOk(a) && Before(c, a)
    ensures ChainInv(Created(src, a, c)) && DataInv(src, Created(src, a, c))
  {
    if Succeeds(src, a, c) {
      AppendKeepsChain(src, a, c);
      AppendKeepsData(src, a, c);
      RetainedKeepsInvariants(src, Extended(src, a, c), a.cfg, a.wallClock);
    }
  }

  lemma RetainedKeepsInvariants(src: Source, c: seq<Backup>, cfg: Config, wallClock: int)
    requires ChainInv(c) && DataInv(src, c)
    ensures ChainInv(Retained(c, cfg, wallClock)) && DataInv(src, Retained(c, cfg, wallClock))
  {
    if cfg.retentionDays > 0 {
      UnexpiredKeepsInvariants(src, c, Cutoff(cfg, wallClock));
    }
  }

  lemma UnexpiredKeepsInvariants(src: Source, c: seq<Backup>, cutoff: int)
    requires ChainInv(c) && DataInv(src, c)
    ensures ChainInv(Unexpired(c, c, cutoff)) && DataInv(src, Unexpired(c, c, cutoff))
  {
    var m := RetentionDropsWholeChains(c, cutoff);
    SuffixKeepsData(src, c, m);
  }

  // Over every serial run of attempts, with any settings, force flags, failures
  // and cleanups: the listing is in time order, every incremental hangs off the
  // entry just before it, and every entry holds the rows it should.
  lemma {:induction false} RunKeepsInvariants(src: Source, run: seq<Attempt>)
    requires Serial(src, run)
    ensures ChainInv(Run(src, run)) && DataInv(src, Run(src, run))
  {
    if run != [] {
      var n := |run| - 1;
      RunIsBefore(src, run, n);
      RunKeepsInvariants(src, run[..n]);
      CreatedKeepsInvariants(src, run[n], Run(src, run[..n]));
    }
  }
}
