// How often a full backup is taken when nothing is forced.
module Cadence {
  import opened Catalog
  import opened ChainLaws
  import opened Arithmetic

  // Change tracking is on, nothing is forced, one full every n backups.
  predicate Steady(a: Attempt, n: int) {
    a.cfg.pitrEnabled && a.cfg.fullBackupEvery == n && !a.forceFull && !a.forceIncremental
  }

  // One full followed by n - 1 incrementals, over and over.
  ghost predicate Periodic(c: seq<Backup>, n: int)
    requires n > 0
  {
    forall i :: 0 <= i < |c| ==> (c[i].meta.kind.Full? <==> i % n == 0)
  }

  // The counting loop of decideBackup counts the last chain.
  lemma {:induction false} ChainLengthCounts(c: seq<Backup>, base: BackupId, b: nat)
    requires forall i :: 0 <= i < |c| ==> (c[i].meta.baseFull == base <==> b <= i)
    ensures ChainLength(c, base) == if |c| <= b then 0 else |c| - b
  {
    if c != [] {
      ChainLengthCounts(c[..|c| - 1], base, b);
    }
  }

  lemma LastChainLength(c: seq<Backup>)
    requires ChainInv(c) && c != []
    ensures ChainLength(c, c[|c| - 1].meta.baseFull) == |c| - BaseIndex(c, |c| - 1)
  {
    var last := |c| - 1;
    var b := BaseIndex(c, last);
    BaseIndexIsBase(c, last);
    forall i | 0 <= i < |c| ensures c[i].meta.baseFull == c[last].meta.baseFull <==> b <= i {
      SameChainIff(c, i, last);
    }
    ChainLengthCounts(c, c[last].meta.baseFull, b);
  }

  lemma {:induction false} PeriodicBase(c: seq<Backup>, n: int, i: nat)
    requires n >= 2 && Periodic(c, n) && i < |c|
    ensures BaseIndex(c, i) == i - i % n
  {
    if i % n != 0 {
      PeriodicBase(c, n, i - 1);
      NextModulo(i - 1, n);
    }
  }

  lemma StepIsPeriodic(src: Source, a: Attempt, c: seq<Backup>, n: int)
    requires n >= 2 && Steady(a, n) && ChainInv(c) && Periodic(c, n)
    ensures Periodic(Extended(src, a, c), n)
  {
    if c != [] {
      var last := |c| - 1;
      LastChainLength(c);
      PeriodicBase(c, n, last);
      assert ChainLength(c, c[last].meta.baseFull) == last % n + 1;
      assert |c| % n == 0 <==> last % n + 1 >= n by {
        NextModulo(last, n);
      }
    }
  }

  lemma NextModulo(i: nat, n: int)
    requires n >= 2
    ensures (i + 1) % n == if i % n + 1 >= n then 0 else i % n + 1
  {
    var q, r := i / n, i % n;
    assert i == q * n + r;
    if r + 1 >= n {
      assert (q + 1) * n == q * n + n;
      DivModUnique(i + 1, q + 1, 0, n);
    } else {
      DivModUnique(i + 1, q, r + 1, n);
    }
  }

  lemma ShiftModulo(i: nat, m: nat, n: int)
    requires n >= 2 && m % n == 0
    ensures (m + i) % n == i % n
  {
    var q, p := m / n, i / n;
    assert (q + p) * n == q * n + p * n;
    DivModUnique(m + i, q + p, i % n, n);
  }

  // Retention drops a multiple of n entries, or all of them.
  lemma RetainedIsPeriodic(c: seq<Backup>, cutoff: int, n: int)
    requires n >= 2 && ChainInv(c) && Periodic(c, n)
    ensures Periodic(Unexpired(c, c, cutoff), n)
  {
    var m := RetentionDropsWholeChains(c, cutoff);
    if m < |c| {
      forall i: nat | i < |c| - m ensures c[m..][i].meta.kind.Full? <==> i % n == 0 {
        ShiftModulo(i, m, n);
      }
    }
  }

  // With change tracking on, nothing forced and one full every n >= 2 backups,
  // every run from an empty directory is one full and n - 1 incrementals,
  // repeating, whatever attempts fail and whatever retention removes.
  lemma {:induction false} RunIsPeriodic(src: Source, run: seq<Attempt>, n: int)
    requires n >= 2 && Serial(src, run)
    requires forall i :: 0 <= i < |run| ==> Steady(run[i], n)
    ensures Periodic(Run(src, run), n)
  {
    if run != [] {
      var last := |run| - 1;
      var c, a := Run(src, run[..last]), run[last];
      RunIsBefore(src, run, last);
      RunIsPeriodic(src, run[..last], n);
      RunKeepsInvariants(src, run[..last]);
      CreatedIsPeriodic(src, a, c, n);
    }
  }

  lemma CreatedIsPeriodic(src: Source, a: Attempt, c: seq<Backup>, n: int)
    requires n >= 2 && Steady(a, n) && ChainInv(c) && Periodic(c, n) && ClockOk(a) && Before(c, a)
    ensures Periodic(Created(src, a, c), n)
  {
    StepIsPeriodic(src, a, c, n);
    AppendKeepsChain(src, a, c);
    if Succeeds(src, a, c) && a.cfg.retentionDays > 0 {
      RetainedIsPeriodic(Extended(src, a, c), Cutoff(a.cfg, a.wallClock), n);
    }
  }

  // So no chain is longer than n.
  lemma ChainsAreShort(src: Source, run: seq<Attempt>, n: int, base: BackupId)
    requires n >= 2 && Serial(src, run)
    requires forall i :: 0 <= i < |run| ==> Steady(run[i], n)
    ensures ChainLength(Run(src, run), base) <= n
  {
    var c := Run(src, run);
    RunIsPeriodic(src, run, n);
    RunKeepsInvariants(src, run);
    ChainLengthAtMost(c, base, n, |c|);
    assert c[..|c|] == c;
  }

  // A chain's members lie in one period.
  lemma {:induction false} ChainLengthAtMost(c: seq<Backup>, base: BackupId, n: int, k: nat)
    requires n >= 2 && ChainInv(c) && Periodic(c, n) && k <= |c|
    ensures ChainLength(c[..k], base) <= n
    ensures k > 0 && c[k - 1].meta.baseFull == base ==> ChainLength(c[..k], base) == k - BaseIndex(c, k - 1)
  {
    if k > 0 {
      assert c[..k][..k - 1] == c[..k - 1];
      ChainLengthAtMost(c, base, n, k - 1);
      if c[k - 1].meta.baseFull == base {
        LengthAt(c, n, k);
      }
    }
  }

  lemma LengthAt(c: seq<Backup>, n: int, k: nat)
    requires n >= 2 && ChainInv(c) && Periodic(c, n) && 0 < k <= |c|
    ensures ChainLength(c[..k], c[k - 1].meta.baseFull) == k - BaseIndex(c, k - 1) <= n
  {
    PrefixKeepsChain(c, k);
    LastChainLength(c[..k]);
    SameBaseIndex(c, k, k - 1);
    PeriodicBase(c, n, k - 1);
  }

  lemma PrefixKeepsChain(c: seq<Backup>, k: nat)
    requires ChainInv(c) && k <= |c|
    ensures ChainInv(c[..k])
  {
    forall i | 0 <= i < k ensures Linked(c[..k], i) && Named(c[..k][i]) {
      assert Linked(c, i) && Named(c[i]);
    }
  }

  lemma {:induction false} SameBaseIndex(c: seq<Backup>, k: nat, i: nat)
    requires i < k <= |c|
    ensures BaseIndex(c[..k], i) == BaseIndex(c, i)
  {
    if i > 0 && c[i].meta.kind.Incremental? {
      SameBaseIndex(c, k, i - 1);
    }
  }
}
