// Consequences of the replay when every backup reads at its own snapshot, and
// laws of the bound that hold with any read delay.
module ReplayLaws {
  import opened Wrappers
  import opened Rows
  import opened History
  import opened Replay

  // One incremental turns the dump at its parent's snapshot into the dump at its own.
  lemma WindowAdvancesDump(ref: TableRef, h: seq<Write>, since: int, until: int, bound: Bound)
    requires WellStamped(ref, h) && since <= until
    requires bound.At? ==> until <= bound.micros
    ensures Apply(ref, TableAt(h, since), Window(ref, TableAt(h, until), since, until), bound) == TableAt(h, until)
  {
    var got := Apply(ref, TableAt(h, since), Window(ref, TableAt(h, until), since, until), bound);
    forall k ensures Lookup(got, k) == Lookup(TableAt(h, until), k) {
      SameVersionIff(ref, h, k, since, until);
      VersionIsLastWrite(h, k, until);
      if k in TableAt(h, until) {
        StampOfVersion(ref, h, k, until);
      }
    }
    SameLookups(got, TableAt(h, until));
  }

  // Incrementals refine a full: without a bound, or with a bound at or past the
  // last snapshot, the replay is the table a full dump at that snapshot holds.
  lemma {:induction false} ReplayIsFullDump(ref: TableRef, h: seq<Write>, ts: seq<Reading>,
                                            base: Table, incs: seq<Table>, bound: Bound)
    requires WellStamped(ref, h) && Faithful(ref, h, ts, base, incs) && Instant(ts)
    requires bound.At? ==> |incs| == 0 || ts[|incs|].snapshot <= bound.micros
    ensures Replayed(ref, base, incs, bound) == TableAt(h, ts[|incs|].snapshot)
    decreases |incs|
  {
    if incs != [] {
      var n := |incs|;
      FaithfulPrefix(ref, h, ts, base, incs);
      ReplayIsFullDump(ref, h, ts[..n], base, incs[..n - 1], bound);
      WindowAdvancesDump(ref, h, ts[n - 1].snapshot, ts[n].snapshot, bound);
    }
  }

  // An incremental whose window starts at or after the bound contributes nothing.
  lemma PastBoundAddsNothing(ref: TableRef, target: Table, seen: Table, since: int, until: int, b: int)
    requires b <= since
    ensures Apply(ref, target, Window(ref, seen, since, until), At(b)) == target
  {
    assert DropNewer(ref, Window(ref, seen, since, until), At(b)) == map[];
  }

  // Point-in-time meaning without read delay, for a target inside or past the
  // last selected window: a key whose row at the end of that window changed at
  // or before the target gets that row, which is the true one at the target; every
  // other key falls back to its row at the start of the window.
  lemma ReplayMeaning(ref: TableRef, h: seq<Write>, ts: seq<Reading>,
                      base: Table, incs: seq<Table>, target: int, k: Key)
    requires WellStamped(ref, h) && Faithful(ref, h, ts, base, incs) && Instant(ts)
    requires |incs| > 0 && ts[|incs| - 1].snapshot <= target
    ensures var n := |incs|;
            var atEnd := TableAt(h, ts[n].snapshot);
            var got := Lookup(Replayed(ref, base, incs, At(target)), k);
            if k in atEnd && StampedBy(ref, atEnd[k], target)
            then got == Some(atEnd[k]) && (target <= ts[n].snapshot ==> got == Lookup(TableAt(h, target), k))
            else got == Lookup(TableAt(h, ts[n - 1].snapshot), k)
  {
    var n := |incs|;
    var s, e := ts[n - 1].snapshot, ts[n].snapshot;
    FaithfulPrefix(ref, h, ts, base, incs);
    ReplayIsFullDump(ref, h, ts[..n], base, incs[..n - 1], At(target));
    assert Replayed(ref, base, incs, At(target)) == Apply(ref, TableAt(h, s), incs[n - 1], At(target));
    SameVersionIff(ref, h, k, s, e);
    if k in TableAt(h, e) {
      NewerIff(ref, TableAt(h, e)[k], target);
      StampOfVersion(ref, h, k, e);
      if target <= e {
        SameVersionIff(ref, h, k, target, e);
      }
    }
  }

  // With any read delay: no bound and a bound at the last snapshot replay the same rows.
  lemma {:induction false} NoBoundIsLastSnapshot(ref: TableRef, h: seq<Write>, ts: seq<Reading>,
                                                 base: Table, incs: seq<Table>, b: int)
    requires Faithful(ref, h, ts, base, incs) && ts[|incs|].snapshot <= b
    ensures Replayed(ref, base, incs, Infinity) == Replayed(ref, base, incs, At(b))
    decreases |incs|
  {
    if incs != [] {
      var n := |incs|;
      FaithfulPrefix(ref, h, ts, base, incs);
      NoBoundIsLastSnapshot(ref, h, ts[..n], base, incs[..n - 1], b);
      assert DropNewer(ref, incs[n - 1], Infinity) == DropNewer(ref, incs[n - 1], At(b));
    }
  }

  // The row was written to that key, no later than the limit.
  ghost predicate Genuine(h: seq<Write>, k: Key, row: Row, limit: int) {
    exists i :: 0 <= i < |h| && h[i].key == k && h[i].row == row && h[i].at <= limit
  }

  lemma SeenIsGenuine(ref: TableRef, h: seq<Write>, k: Key, read: int, limit: int)
    requires WellStamped(ref, h) && k in TableAt(h, read)
    requires read <= limit || !Newer(ChangeTime(ref, TableAt(h, read)[k]), At(limit))
    ensures Genuine(h, k, TableAt(h, read)[k], limit)
  {
    VersionIsLastWrite(h, k, read);
    StampOfVersion(ref, h, k, read);
    assert h[LastWrite(h, k, read)].row == TableAt(h, read)[k];
  }

  lemma LoadedIsGenuine(ref: TableRef, h: seq<Write>, k: Key, read: int, since: int, until: int, target: int, limit: int)
    requires WellStamped(ref, h) && target <= limit
    requires k in DropNewer(ref, Window(ref, TableAt(h, read), since, until), At(target))
    ensures Genuine(h, k, DropNewer(ref, Window(ref, TableAt(h, read), since, until), At(target))[k], limit)
  {
    SeenIsGenuine(ref, h, k, read, limit);
  }

  // Whatever the read delays, the replay invents nothing: every row it holds was
  // written to that key, no later than the target or the read of the dump.
  lemma {:induction false} ReplayedRowsAreGenuine(ref: TableRef, h: seq<Write>, ts: seq<Reading>, base: Table,
                                                  incs: seq<Table>, target: int, k: Key, limit: int)
    requires WellStamped(ref, h) && Faithful(ref, h, ts, base, incs)
    requires target <= limit && ts[0].readAt <= limit
    requires k in Replayed(ref, base, incs, At(target))
    ensures Genuine(h, k, Replayed(ref, base, incs, At(target))[k], limit)
    decreases |incs|
  {
    var n := |incs|;
    if n == 0 {
      SeenIsGenuine(ref, h, k, ts[0].readAt, limit);
    } else {
      var before := Replayed(ref, base, incs[..n - 1], At(target));
      var loaded := DropNewer(ref, incs[n - 1], At(target));
      assert Replayed(ref, base, incs, At(target)) == before + loaded;
      if k in loaded {
        LoadedIsGenuine(ref, h, k, ts[n].readAt, ts[n - 1].snapshot, ts[n].snapshot, target, limit);
      } else {
        FaithfulPrefix(ref, h, ts, base, incs);
        ReplayedRowsAreGenuine(ref, h, ts[..n], base, incs[..n - 1], target, k, limit);
      }
    }
  }
}
