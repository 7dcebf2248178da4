// The write history of one table of the source database, and the table it
// shows to a reader at any instant.
module History {
  import opened Wrappers
  import opened Rows

  // One committed insert or update; soft deletes are updates of the stamp column.
  datatype Write = Write(at: int, key: Key, row: Row)

  // Every write stamps its row with its commit time, in one of the stamp columns
  // and with no later stamp in the others, and a key is written again only later.
  // Writes of different keys may share a commit.
  ghost predicate WellStamped(ref: TableRef, h: seq<Write>) {
    && (forall i, j :: 0 <= i < j < |h| && h[i].key == h[j].key ==> h[i].at < h[j].at)
    && (forall i :: 0 <= i < |h| ==> LastStamp(ref, h[i].row, h[i].at))
  }

  lemma ChangeIsCommit(ref: TableRef, h: seq<Write>, i: nat)
    requires WellStamped(ref, h) && i < |h|
    ensures ChangeTime(ref, h[i].row) == Some(h[i].at)
  {
    ChangeTimeIsLast(ref, h[i].row);
  }

  // The table as a transaction that reads at instant `t` sees it.
  function TableAt(h: seq<Write>, t: int): Table {
    if h == [] then map[]
    else
      var last := h[|h| - 1];
      var before := TableAt(h[..|h| - 1], t);
      if last.at <= t then before[last.key := last.row] else before
  }

  // Some write of `k` commits in (from, upTo].
  ghost predicate WrittenIn(h: seq<Write>, k: Key, from: int, upTo: int) {
    exists i :: 0 <= i < |h| && h[i].key == k && from < h[i].at <= upTo
  }

  // The index of the last write of `k` at or before `t`, or -1.
  function LastWrite(h: seq<Write>, k: Key, t: int): (i: int)
    ensures -1 <= i < |h|
    ensures i >= 0 ==> h[i].key == k && h[i].at <= t
    ensures forall j :: i < j < |h| && h[j].key == k ==> t < h[j].at
  {
    if h == [] then -1
    else if h[|h| - 1].key == k && h[|h| - 1].at <= t then |h| - 1
    else LastWrite(h[..|h| - 1], k, t)
  }

  // The version of `k` at `t` is what the last write of `k` at or before `t` put there.
  lemma {:induction false} VersionIsLastWrite(h: seq<Write>, k: Key, t: int)
    ensures Lookup(TableAt(h, t), k) ==
            if LastWrite(h, k, t) < 0 then None else Some(h[LastWrite(h, k, t)].row)
  {
    if h != [] {
      VersionIsLastWrite(h[..|h| - 1], k, t);
    }
  }

  // The stamp of a version is the commit time of the write that made it, and no
  // later write of the key is visible at `t`.
  lemma StampOfVersion(ref: TableRef, h: seq<Write>, k: Key, t: int)
    requires WellStamped(ref, h)
    requires k in TableAt(h, t)
    ensures var i := LastWrite(h, k, t);
            i >= 0 && ChangeTime(ref, TableAt(h, t)[k]) == Some(h[i].at) && h[i].at <= t
    ensures forall t0 :: WrittenIn(h, k, t0, t) <==> t0 < h[LastWrite(h, k, t)].at
  {
    VersionIsLastWrite(h, k, t);
    ChangeIsCommit(ref, h, LastWrite(h, k, t));
    forall t0 ensures WrittenIn(h, k, t0, t) <==> t0 < h[LastWrite(h, k, t)].at {
      WrittenIffLast(ref, h, k, t0, t);
    }
  }

  lemma WrittenIffLast(ref: TableRef, h: seq<Write>, k: Key, t0: int, t: int)
    requires WellStamped(ref, h) && LastWrite(h, k, t) >= 0
    ensures WrittenIn(h, k, t0, t) <==> t0 < h[LastWrite(h, k, t)].at
  {
    var i := LastWrite(h, k, t);
    if j :| 0 <= j < |h| && h[j].key == k && t0 < h[j].at <= t {
      assert j <= i && (j == i || h[j].at < h[i].at);
    }
  }

  // Two instants show the same version of a key exactly when no write of the
  // key commits between them.
  lemma SameVersionIff(ref: TableRef, h: seq<Write>, k: Key, t1: int, t2: int)
    requires WellStamped(ref, h)
    requires t1 <= t2
    ensures Lookup(TableAt(h, t1), k) == Lookup(TableAt(h, t2), k) <==> !WrittenIn(h, k, t1, t2)
  {
    VersionIsLastWrite(h, k, t1);
    VersionIsLastWrite(h, k, t2);
    var i1, i2 := LastWrite(h, k, t1), LastWrite(h, k, t2);
    if i1 >= 0 && i2 >= 0 && i1 != i2 {
      ChangeIsCommit(ref, h, i1);
      ChangeIsCommit(ref, h, i2);
      assert ChangeTime(ref, h[i1].row) != ChangeTime(ref, h[i2].row);
    }
  }
}
