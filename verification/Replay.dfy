// What replaying a full dump and its incrementals means, one table at a time.
//
// A backup records the server time before it starts to read (`snapshot`), and
// reads its rows a little later (`readAt`), so rows that change in between are
// already gone from the window they belonged to.
module Replay {
  import opened Wrappers
  import opened Rows
  import opened History

  datatype Reading = Reading(snapshot: int, readAt: int)

  // The target table after the base and the incrementals, applied in order.
  function Replayed(ref: TableRef, base: Table, incs: seq<Table>, bound: Bound): Table {
    if incs == [] then base
    else Apply(ref, Replayed(ref, base, incs[..|incs| - 1], bound), incs[|incs| - 1], bound)
  }

  // Each backup reads at or after its own snapshot and before the next one's.
  ghost predicate Ordered(ts: seq<Reading>) {
    && (forall i :: 0 <= i < |ts| ==> ts[i].snapshot <= ts[i].readAt)
    && (forall i, j :: 0 <= i < j < |ts| ==> ts[i].readAt <= ts[j].snapshot)
  }

  // The base is a dump read at ts[0]; incremental i holds the rows that a
  // reader at ts[i + 1] sees with a change in its own window.
  ghost predicate Faithful(ref: TableRef, h: seq<Write>, ts: seq<Reading>, base: Table, incs: seq<Table>) {
    && |ts| == |incs| + 1
    && Ordered(ts)
    && base == TableAt(h, ts[0].readAt)
    && forall i :: 0 <= i < |incs| ==>
         incs[i] == Window(ref, TableAt(h, ts[i + 1].readAt), ts[i].snapshot, ts[i + 1].snapshot)
  }

  // No backup reads later than its snapshot.
  ghost predicate Instant(ts: seq<Reading>) {
    forall i :: 0 <= i < |ts| ==> ts[i].readAt == ts[i].snapshot
  }

  // Backup j is responsible for the version of `k` at `target`, and no later
  // write replaced that version before the backup was read. The base is
  // responsible for everything it already saw, an incremental for its window.
  ghost predicate CapturedBy(h: seq<Write>, k: Key, ts: seq<Reading>, target: int, j: nat)
    requires j < |ts|
  {
    var w := LastWrite(h, k, target);
    && !WrittenIn(h, k, target, ts[j].readAt)
    && if j == 0 then w < 0 || h[w].at <= ts[0].readAt
       else w >= 0 && ts[j - 1].snapshot < h[w].at <= ts[j].snapshot && ts[0].readAt < h[w].at
  }

  ghost predicate Captured(h: seq<Write>, k: Key, ts: seq<Reading>, target: int) {
    exists j: nat :: j < |ts| && CapturedBy(h, k, ts, target, j)
  }

  lemma FaithfulPrefix(ref: TableRef, h: seq<Write>, ts: seq<Reading>, base: Table, incs: seq<Table>)
    requires Faithful(ref, h, ts, base, incs) && |incs| > 0
    ensures Faithful(ref, h, ts[..|ts| - 1], base, incs[..|incs| - 1])
  {
  }

  lemma CapturedStep(h: seq<Write>, k: Key, ts: seq<Reading>, target: int)
    requires |ts| > 1
    ensures var n := |ts| - 1;
            Captured(h, k, ts, target) <==> Captured(h, k, ts[..n], target) || CapturedBy(h, k, ts, target, n)
  {
    var n := |ts| - 1;
    assert forall j: nat :: j < n ==> (CapturedBy(h, k, ts, target, j) <==> CapturedBy(h, k, ts[..n], target, j));
  }

  // A reader at `read` and the target instant see the same version exactly when
  // the target's version was there at the read and none replaced it in between.
  lemma SameRowIff(ref: TableRef, h: seq<Write>, k: Key, read: int, target: int)
    requires WellStamped(ref, h)
    ensures Lookup(TableAt(h, read), k) == Lookup(TableAt(h, target), k) <==>
            var w := LastWrite(h, k, target);
            (w < 0 || h[w].at <= read) && !WrittenIn(h, k, target, read)
  {
    if target <= read {
      SameVersionIff(ref, h, k, target, read);
    } else {
      SameVersionIff(ref, h, k, read, target);
      var w := LastWrite(h, k, target);
      if w >= 0 && h[w].at <= read {
        assert !WrittenIn(h, k, read, target);
      }
    }
  }

  // Point-in-time restore, per key, with the read delay of every backup: the
  // replay holds the true version at `target` if and only if that version was captured.
  lemma {:induction false} ReplayExactIff(ref: TableRef, h: seq<Write>, ts: seq<Reading>,
                                          base: Table, incs: seq<Table>, target: int, k: Key)
    requires WellStamped(ref, h) && Faithful(ref, h, ts, base, incs)
    ensures Lookup(Replayed(ref, base, incs, At(target)), k) == Lookup(TableAt(h, target), k)
            <==> Captured(h, k, ts, target)
    decreases |incs|
  {
    if incs == [] {
      SameRowIff(ref, h, k, ts[0].readAt, target);
      assert Captured(h, k, ts, target) <==> CapturedBy(h, k, ts, target, 0);
    } else {
      var n := |incs|;
      FaithfulPrefix(ref, h, ts, base, incs);
      ReplayExactIff(ref, h, ts[..n], base, incs[..n - 1], target, k);
      CapturedStep(h, k, ts, target);
      if k in DropNewer(ref, incs[n - 1], At(target)) {
        LoadedExactIff(ref, h, ts, base, incs, target, k);
      } else {
        NotLoaded(ref, h, ts, base, incs, target, k);
      }
    }
  }

  // The last incremental brings a row for `k`.
  lemma LoadedExactIff(ref: TableRef, h: seq<Write>, ts: seq<Reading>,
                       base: Table, incs: seq<Table>, target: int, k: Key)
    requires WellStamped(ref, h) && Faithful(ref, h, ts, base, incs) && |incs| > 0
    requires k in DropNewer(ref, incs[|incs| - 1], At(target))
    ensures Some(incs[|incs| - 1][k]) == Lookup(TableAt(h, target), k) <==> Captured(h, k, ts, target)
  {
    var n, w := |incs|, LastWrite(h, k, target);
    var read := ts[n].readAt;
    LoadedWasWritten(ref, h, k, ts[n - 1].snapshot, ts[n].snapshot, read, target);
    SameRowIff(ref, h, k, read, target);
    if h[w].at <= read && !WrittenIn(h, k, target, read) {
      LastWindowCaptures(h, k, ts, target);
    } else if Captured(h, k, ts, target) {
      CapturedWasThere(h, k, ts, target);
      assert false;
    }
  }

  // A row that is loaded under the target was seen by the read, so no later
  // write was: the read saw the target's version or an earlier one.
  lemma LoadedWasWritten(ref: TableRef, h: seq<Write>, k: Key, since: int, until: int, read: int, target: int)
    requires WellStamped(ref, h)
    ensures var w := LastWrite(h, k, target);
            k in DropNewer(ref, Window(ref, TableAt(h, read), since, until), At(target)) ==>
              w >= 0 && (h[w].at <= read ==> since < h[w].at <= until && !WrittenIn(h, k, target, read))
  {
    if k in DropNewer(ref, Window(ref, TableAt(h, read), since, until), At(target)) {
      StampOfVersion(ref, h, k, read);
      var r, w := LastWrite(h, k, read), LastWrite(h, k, target);
      assert r <= w && (r == w || h[r].at < h[w].at);
    }
  }

  lemma LastWindowCaptures(h: seq<Write>, k: Key, ts: seq<Reading>, target: int)
    requires |ts| > 1 && Ordered(ts) && LastWrite(h, k, target) >= 0
    requires ts[|ts| - 2].snapshot < h[LastWrite(h, k, target)].at <= ts[|ts| - 1].snapshot
    requires !WrittenIn(h, k, target, ts[|ts| - 1].readAt)
    ensures Captured(h, k, ts, target)
  {
    var n := |ts| - 1;
    assert ts[0].readAt <= ts[n].snapshot <= ts[n].readAt;
    if h[LastWrite(h, k, target)].at <= ts[0].readAt {
      assert CapturedBy(h, k, ts, target, 0);
    } else {
      assert CapturedBy(h, k, ts, target, n);
    }
  }

  // A captured version was written before the last read.
  lemma CapturedWasThere(h: seq<Write>, k: Key, ts: seq<Reading>, target: int)
    requires |ts| > 0 && Ordered(ts) && Captured(h, k, ts, target)
    requires LastWrite(h, k, target) >= 0
    ensures h[LastWrite(h, k, target)].at <= ts[|ts| - 1].readAt
  {
    var j: nat :| j < |ts| && CapturedBy(h, k, ts, target, j);
    if j < |ts| - 1 {
      assert ts[j].readAt <= ts[|ts| - 1].snapshot;
    }
  }

  // The last incremental brings no row for `k`, so it captured nothing.
  lemma NotLoaded(ref: TableRef, h: seq<Write>, ts: seq<Reading>,
                  base: Table, incs: seq<Table>, target: int, k: Key)
    requires WellStamped(ref, h) && Faithful(ref, h, ts, base, incs) && |incs| > 0
    requires k !in DropNewer(ref, incs[|incs| - 1], At(target))
    ensures !CapturedBy(h, k, ts, target, |incs|)
  {
    var n, w := |incs|, LastWrite(h, k, target);
    if CapturedBy(h, k, ts, target, n) {
      SameRowIff(ref, h, k, ts[n].readAt, target);
      VersionIsLastWrite(h, k, target);
      StampOfVersion(ref, h, k, target);
      assert false;
    }
  }
}
