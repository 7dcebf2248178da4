// Which backups a restore uses: the functional meaning of the selection loops,
// and what they select on a listing that keeps the chain invariant.
module Selection {
  import opened Wrappers
  import opened Catalog
  import opened ChainLaws

  // The chain to restore: a full backup and the incrementals to apply, in order.
  datatype Chain = Chain(base: Backup, incs: seq<Backup>)

  datatype SelectError = NoBackups | NoFullBefore(earliest: int)

  // None stands for the latest state.
  predicate AtOrBefore(snapshot: int, target: Option<int>) {
    target.None? || snapshot <= target.value
  }

  // The last listed full backup at or before the target.
  function BaseFor(c: seq<Backup>, target: Option<int>): Option<Backup> {
    if c == [] then None
    else
      var m := c[|c| - 1];
      if m.meta.kind.Full? && AtOrBefore(m.meta.snapshot, target) then Some(m) else BaseFor(c[..|c| - 1], target)
  }

  predicate Applies(m: Backup, base: Backup, target: Option<int>) {
    && m.meta.kind.Incremental? && m.meta.baseFull == base.meta.id
    && base.meta.snapshot < m.meta.snapshot
    && AtOrBefore(m.meta.since, target)
  }

  function Applying(c: seq<Backup>, base: Backup, target: Option<int>): seq<Backup> {
    if c == [] then []
    else
      var m := c[|c| - 1];
      Applying(c[..|c| - 1], base, target) + if Applies(m, base, target) then [m] else []
  }

  function Select(c: seq<Backup>, target: Option<int>): Result<Chain, SelectError> {
    if c == [] then Err(NoBackups)
    else match BaseFor(c, target)
      case None => Err(NoFullBefore(c[0].meta.snapshot))
      case Some(base) => Ok(Chain(base, Applying(c, base, target)))
  }

  // The loops of selectChain.
  method SelectChain(c: seq<Backup>, target: Option<int>) returns (r: Result<Chain, SelectError>)
    ensures r == Select(c, target)
  {
    if |c| == 0 {
      return Err(NoBackups);
    }
    var base: Option<Backup> := None;
    for i := 0 to |c|
      invariant base == BaseFor(c[..i], target)
    {
      var m := c[i];
      assert c[..i + 1][..i] == c[..i];
      if m.meta.kind.Full? && AtOrBefore(m.meta.snapshot, target) {
        base := Some(m);
      }
    }
    assert c[..|c|] == c;
    if base.None? {
      return Err(NoFullBefore(c[0].meta.snapshot));
    }
    var incs := [];
    for i := 0 to |c|
      invariant incs == Applying(c[..i], base.value, target)
    {
      var m := c[i];
      assert c[..i + 1][..i] == c[..i];
      if m.meta.kind != Incremental || m.meta.baseFull != base.value.meta.id {
        continue;
      }
      if m.meta.snapshot <= base.value.meta.snapshot {
        continue;
      }
      if target.Some? && m.meta.since > target.value {
        continue;
      }
      incs := incs + [m];
    }
    r := Ok(Chain(base.value, incs));
  }

  lemma {:induction false} BaseForIsLatest(c: seq<Backup>, target: Option<int>) returns (b: int)
    ensures -1 <= b < |c|
    ensures b >= 0 ==> BaseFor(c, target) == Some(c[b]) && c[b].meta.kind.Full? && AtOrBefore(c[b].meta.snapshot, target)
    ensures b == -1 ==> BaseFor(c, target) == None
    ensures forall j :: b < j < |c| && c[j].meta.kind.Full? ==> !AtOrBefore(c[j].meta.snapshot, target)
  {
    if c == [] {
      b := -1;
    } else {
      var m := c[|c| - 1];
      if m.meta.kind.Full? && AtOrBefore(m.meta.snapshot, target) {
        b := |c| - 1;
      } else {
        b := BaseForIsLatest(c[..|c| - 1], target);
      }
    }
  }

  // A filter that accepts exactly the entries of an interval returns the interval.
  lemma {:induction false} ApplyingIsInterval(c: seq<Backup>, base: Backup, target: Option<int>, lo: nat, hi: nat)
    requires forall i :: 0 <= i < |c| ==> (Applies(c[i], base, target) <==> lo <= i < hi)
    ensures Applying(c, base, target) == if |c| <= lo || hi <= lo then [] else c[lo..if hi < |c| then hi else |c|]
  {
    if c != [] {
      var n := |c| - 1;
      ApplyingIsInterval(c[..n], base, target, lo, hi);
      if lo <= n < hi {
        assert Applying(c[..n], base, target) == c[lo..n] by {
          assert c[..n][lo..n] == c[lo..n];
        }
        assert c[lo..n] + [c[n]] == c[lo..|c|];
      } else if lo < hi <= n {
        assert c[..n][lo..hi] == c[lo..hi];
      }
    }
  }

  // Where the selected part of the chain starting at b ends.
  function EndOfChain(c: seq<Backup>, target: Option<int>, i: nat): (e: nat)
    requires i <= |c|
    ensures i <= e <= |c|
    ensures forall j :: i <= j < e ==> c[j].meta.kind.Incremental? && AtOrBefore(c[j].meta.since, target)
    ensures e < |c| ==> c[e].meta.kind.Full? || !AtOrBefore(c[e].meta.since, target)
    decreases |c| - i
  {
    if i < |c| && c[i].meta.kind.Incremental? && AtOrBefore(c[i].meta.since, target)
    then EndOfChain(c, target, i + 1) else i
  }

  // Past the end of the selected part, an incremental of the chain starts after the target.
  lemma PastEnd(c: seq<Backup>, target: Option<int>, b: nat, e: nat, i: nat)
    requires ChainInv(c) && b < e <= i < |c| && e == EndOfChain(c, target, b + 1)
    requires forall m :: b < m <= i ==> c[m].meta.kind.Incremental?
    ensures !AtOrBefore(c[i].meta.since, target)
  {
    assert Linked(c, e) && Linked(c, i);
    if e < i {
      SnapshotsIncrease(c, e - 1, i - 1);
    }
  }

  lemma AppliesIff(c: seq<Backup>, target: Option<int>, b: nat, i: nat)
    requires ChainInv(c) && b < |c| && i < |c| && c[b].meta.kind.Full?
    ensures Applies(c[i], c[b], target) <==> b < i < EndOfChain(c, target, b + 1)
  {
    var e := EndOfChain(c, target, b + 1);
    assert Linked(c, b);
    if i < b {
      SnapshotsIncrease(c, i, b);
    } else if b < i {
      SameChainIff(c, b, i);
      SnapshotsIncrease(c, b, i);
      if e <= i && c[i].meta.baseFull == c[b].meta.baseFull {
        PastEnd(c, target, b, e, i);
      }
    }
  }

  // c[b..e] is what a restore to the target should use: the latest full backup
  // at or before it, and the entries right after, up to the next full backup or
  // the first one that starts after the target. Each window starts where the
  // one before it ends.
  ghost predicate IsPlan(c: seq<Backup>, target: Option<int>, b: int, e: int) {
    && 0 <= b < e <= |c|
    && c[b].meta.kind.Full? && AtOrBefore(c[b].meta.snapshot, target)
    && (forall j :: b < j < |c| && c[j].meta.kind.Full? ==> !AtOrBefore(c[j].meta.snapshot, target))
    && (forall j :: b < j < e ==> c[j].meta.kind.Incremental?)
    && (forall j {:trigger c[j].meta.since} :: b < j < e ==>
         c[j].meta.since == c[j - 1].meta.snapshot && AtOrBefore(c[j].meta.since, target))
    && (e < |c| ==> target.Some? && target.value < (if c[e].meta.kind.Full? then c[e] else c[e - 1]).meta.snapshot)
  }

  lemma SelectionIsPlan(c: seq<Backup>, target: Option<int>) returns (b: int, e: int)
    requires ChainInv(c)
    ensures Select(c, target).Err? <==>
            forall i :: 0 <= i < |c| && c[i].meta.kind.Full? ==> !AtOrBefore(c[i].meta.snapshot, target)
    ensures Select(c, target).Err? ==> Select(c, target).error == if c == [] then NoBackups else NoFullBefore(c[0].meta.snapshot)
    ensures Select(c, target).Ok? ==>
            IsPlan(c, target, b, e) && Select(c, target).value == Chain(c[b], c[b + 1..e])
  {
    b := BaseForIsLatest(c, target);
    if b < 0 {
      e := 0;
    } else {
      e := EndOfChain(c, target, b + 1);
      SelectedInterval(c, target, b, e);
      SelectedIsPlan(c, target, b, e);
    }
  }

  lemma SelectedIsPlan(c: seq<Backup>, target: Option<int>, b: nat, e: nat)
    requires ChainInv(c) && b < |c| && e == EndOfChain(c, target, b + 1)
    requires c[b].meta.kind.Full? && AtOrBefore(c[b].meta.snapshot, target)
    requires forall j :: b < j < |c| && c[j].meta.kind.Full? ==> !AtOrBefore(c[j].meta.snapshot, target)
    ensures IsPlan(c, target, b, e)
  {
    forall j | b < j < e ensures c[j].meta.since == c[j - 1].meta.snapshot {
      assert Linked(c, j);
    }
    if e < |c| {
      assert Linked(c, e);
    }
  }

  lemma SelectedInterval(c: seq<Backup>, target: Option<int>, b: nat, e: nat)
    requires ChainInv(c) && b < |c| && c[b].meta.kind.Full? && e == EndOfChain(c, target, b + 1)
    ensures Applying(c, c[b], target) == c[b + 1..e]
  {
    forall i | 0 <= i < |c| ensures Applies(c[i], c[b], target) <==> b + 1 <= i < e {
      AppliesIff(c, target, b, i);
    }
    ApplyingIsInterval(c, c[b], target, b + 1, e);
  }

  // Entries that do not apply can be dropped from the front.
  lemma {:induction false} ApplyingSkips(c: seq<Backup>, base: Backup, target: Option<int>, m: nat)
    requires m <= |c|
    requires forall i :: 0 <= i < m ==> !Applies(c[i], base, target)
    ensures Applying(c[m..], base, target) == Applying(c, base, target)
    decreases |c|
  {
    if m == |c| {
      ApplyingIsInterval(c, base, target, |c|, |c|);
    } else {
      var init := c[..|c| - 1];
      ApplyingSkips(init, base, target, m);
      assert c[m..][..|c[m..]| - 1] == init[m..];
    }
  }

  lemma {:induction false} BaseForSkips(c: seq<Backup>, target: Option<int>, m: nat)
    requires m < |c| && c[m].meta.kind.Full? && AtOrBefore(c[m].meta.snapshot, target)
    ensures BaseFor(c[m..], target) == BaseFor(c, target)
    decreases |c|
  {
    var last := c[|c| - 1];
    if m < |c| - 1 && !(last.meta.kind.Full? && AtOrBefore(last.meta.snapshot, target)) {
      BaseForSkips(c[..|c| - 1], target, m);
      assert c[m..][..|c[m..]| - 1] == c[..|c| - 1][m..];
    }
  }

  // Cleanup leaves the selection as it was exactly for the targets at or after
  // the oldest kept full backup, and for the latest state while one is kept.
  lemma RetentionKeepsSelection(c: seq<Backup>, cutoff: int, target: Option<int>)
    requires ChainInv(c) && Unexpired(c, c, cutoff) != c
    ensures var kept := Unexpired(c, c, cutoff);
            Select(kept, target) == Select(c, target) <==>
            kept != [] && AtOrBefore(kept[0].meta.snapshot, target)
  {
    var m := RetentionDropsWholeChains(c, cutoff);
    assert c != [] && m > 0;
    if m < |c| {
      SuffixSelection(c, m, target);
    }
  }

  lemma SuffixSelection(c: seq<Backup>, m: nat, target: Option<int>)
    requires ChainInv(c) && 0 < m < |c| && c[m].meta.kind.Full?
    ensures Select(c[m..], target) == Select(c, target) <==> AtOrBefore(c[m].meta.snapshot, target)
  {
    SnapshotsIncrease(c, 0, m);
    if AtOrBefore(c[m].meta.snapshot, target) {
      BaseForSkips(c, target, m);
      var b := BaseForIsLatest(c, target);
      assert m <= b;
      forall i | 0 <= i < m ensures !Applies(c[i], c[b], target) {
        AppliesIff(c, target, b, i);
      }
      ApplyingSkips(c, c[b], target, m);
    } else {
      var b := BaseForIsLatest(c[m..], target);
      if b > 0 {
        SnapshotsIncrease(c, m, m + b);
      }
      assert Select(c[m..], target) == Err(NoFullBefore(c[m].meta.snapshot));
    }
  }
}
