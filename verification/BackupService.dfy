// The backuper: the output directory it lists, extends and cleans in place.
module BackupService {
  import opened Wrappers
  import opened Rows
  import opened Catalog
  import opened ChainLaws
  import opened Sorting

  // A backup directory: `listed` is None until its metadata file is renamed into place.
  datatype Dir = Dir(listed: Option<Metadata>, readAt: int, data: map<string, Table>)

  datatype BackupError = BackupFailed | NoTrackedTables

  // The entry a directory contributes to the listing.
  predicate Lists(root: map<BackupId, Dir>, b: Backup) {
    b.meta.id in root && root[b.meta.id] == Dir(Some(b.meta), b.readAt, b.data)
  }

  // c holds the entry of every directory with readable metadata, and nothing else.
  ghost predicate Shows(root: map<BackupId, Dir>, c: seq<Backup>) {
    && (forall b :: b in c ==> Lists(root, b))
    && (forall id :: id in root && root[id].listed.Some? ==>
         Backup(root[id].listed.value, root[id].readAt, root[id].data) in c)
  }

  // Each metadata file carries the name of its own directory.
  ghost predicate OwnNames(root: map<BackupId, Dir>) {
    forall id :: id in root && root[id].listed.Some? ==> root[id].listed.value.id == id
  }

  function TimeOf(): Backup -> int {
    (b: Backup) => b.meta.snapshot
  }

  // A listing in strict time order is determined by what the directory shows.
  lemma ListingIsUnique(root: map<BackupId, Dir>, c: seq<Backup>, d: seq<Backup>)
    requires Shows(root, c) && Shows(root, d)
    requires StrictlyBy(c, TimeOf()) && StrictlyBy(d, TimeOf())
    ensures c == d
  {
    StrictlySortedIsUnique(c, d, TimeOf());
  }

  // ListBackups: directories in any order, those without readable metadata
  // skipped, the rest sorted by snapshot time.
  method ListBackups(root: map<BackupId, Dir>) returns (out: seq<Backup>)
    requires OwnNames(root)
    ensures Shows(root, out) && SortedBy(out, TimeOf())
    ensures forall b :: b in out <==> b.meta.id in root && root[b.meta.id] == Dir(Some(b.meta), b.readAt, b.data)
    ensures forall c :: Shows(root, c) && StrictlyBy(c, TimeOf()) ==> out == c
  {
    var todo := root.Keys;
    var found := [];
    while todo != {}
      invariant todo <= root.Keys
      invariant forall b :: b in found ==> Lists(root, b) && b.meta.id !in todo
      invariant forall id :: id in root && id !in todo && root[id].listed.Some? ==>
                  Backup(root[id].listed.value, root[id].readAt, root[id].data) in found
      invariant forall i, j :: 0 <= i < j < |found| ==> found[i].meta.id != found[j].meta.id
      decreases todo
    {
      var id :| id in todo;
      todo := todo - {id};
      var d := root[id];
      if d.listed.None? {
        continue;
      }
      found := found + [Backup(d.listed.value, d.readAt, d.data)];
    }
    out := SortBy(found, TimeOf());
    SameElements(found, out);
    forall c | Shows(root, c) && StrictlyBy(c, TimeOf()) ensures out == c {
      SortedListing(root, found, out, c);
    }
  }

  lemma SortedListing(root: map<BackupId, Dir>, found: seq<Backup>, out: seq<Backup>, c: seq<Backup>)
    requires Shows(root, found) && Shows(root, c) && Shows(root, out)
    requires forall i, j :: 0 <= i < j < |found| ==> found[i].meta.id != found[j].meta.id
    requires StrictlyBy(c, TimeOf()) && SortedBy(out, TimeOf()) && multiset(out) == multiset(found)
    ensures out == c
  {
    forall i, j | 0 <= i < j < |found| ensures TimeOf()(found[i]) != TimeOf()(found[j]) {
      assert found[i] in found && found[j] in found;
      assert found[i] in c && found[j] in c;
    }
    DistinctSortsStrictly(found, out, TimeOf());
    ListingIsUnique(root, out, c);
  }

  // Removing directories and removing their entries from the listing go together.
  lemma ShowsAfterRemoval(root: map<BackupId, Dir>, c: seq<Backup>, cutoff: int)
    requires Shows(root, c) && OwnNames(root)
    ensures Shows(root - DeadIds(c, cutoff), Unexpired(c, c, cutoff))
  {
    var left := root - DeadIds(c, cutoff);
    UnexpiredMembers(c, c, cutoff);
    forall b | b in Unexpired(c, c, cutoff) ensures Lists(left, b) {
      assert Lists(root, b);
      assert b.meta.id in DeadIds(c, cutoff) ==>
               exists d :: d in c && Expired(c, d.meta.baseFull, cutoff) && d.meta.id == b.meta.id && Lists(root, d);
    }
    forall id | id in left && left[id].listed.Some?
      ensures Backup(left[id].listed.value, left[id].readAt, left[id].data) in Unexpired(c, c, cutoff)
    {
      var b := Backup(root[id].listed.value, root[id].readAt, root[id].data);
      assert b in c && b.meta.id == id;
    }
  }

  lemma CleanedIsValid(root: map<BackupId, Dir>, c: seq<Backup>, cutoff: int)
    requires ChainInv(c) && Shows(root, c) && OwnNames(root)
    ensures var left := root - DeadIds(c, cutoff);
            ChainInv(Unexpired(c, c, cutoff)) && Shows(left, Unexpired(c, c, cutoff)) && OwnNames(left)
  {
    ShowsAfterRemoval(root, c, cutoff);
    var _ := RetentionDropsWholeChains(c, cutoff);
  }

  // The directories cleanup removes.
  ghost function DeadIds(c: seq<Backup>, cutoff: int): set<BackupId> {
    set b | b in c && Expired(c, b.meta.baseFull, cutoff) :: b.meta.id
  }

  // Those of them in some of the chains.
  ghost function DeadIn(c: seq<Backup>, bases: set<BackupId>, cutoff: int): set<BackupId> {
    set b | b in c && b.meta.baseFull in bases && Expired(c, b.meta.baseFull, cutoff) :: b.meta.id
  }

  ghost function IdSet(ids: seq<BackupId>): set<BackupId> {
    set id | id in ids
  }

  lemma {:induction false} UnexpiredMembers(all: seq<Backup>, c: seq<Backup>, cutoff: int)
    ensures forall b :: b in Unexpired(all, c, cutoff) <==> b in c && !Expired(all, b.meta.baseFull, cutoff)
  {
    if c != [] {
      UnexpiredMembers(all, c[..|c| - 1], cutoff);
      assert c == c[..|c| - 1] + [c[|c| - 1]];
    }
  }

  function IdsOf(c: seq<Backup>, base: BackupId): seq<BackupId> {
    if c == [] then []
    else
      var last := c[|c| - 1];
      IdsOf(c[..|c| - 1], base) + if last.meta.baseFull == base then [last.meta.id] else []
  }

  lemma {:induction false} IdsOfMembers(c: seq<Backup>, base: BackupId)
    ensures forall id :: id in IdsOf(c, base) <==> exists b :: b in c && b.meta.baseFull == base && b.meta.id == id
  {
    if c != [] {
      var last := c[|c| - 1];
      IdsOfMembers(c[..|c| - 1], base);
      assert c == c[..|c| - 1] + [last];
      assert forall id :: id in IdsOf(c, base) <==>
               id in IdsOf(c[..|c| - 1], base) || (last.meta.baseFull == base && id == last.meta.id);
    }
  }

  // `newest` holds each chain's newest snapshot; a chain with none after the zero time has no entry.
  ghost predicate NewestOf(c: seq<Backup>, newest: map<BackupId, int>) {
    forall base :: NewestAt(newest, base, Newest(c, base))
  }

  predicate NewestAt(newest: map<BackupId, int>, base: BackupId, t: int) {
    if base in newest then newest[base] == t > 0 else t <= 0
  }

  ghost predicate MembersOf(c: seq<Backup>, members: map<BackupId, seq<BackupId>>) {
    forall base :: IdsOf(c, base) == if base in members then members[base] else []
  }

  lemma AppendGroups(c: seq<Backup>, b: Backup, base: BackupId)
    ensures base != b.meta.baseFull ==> Newest(c + [b], base) == Newest(c, base) && IdsOf(c + [b], base) == IdsOf(c, base)
    ensures base == b.meta.baseFull ==>
              && Newest(c + [b], base) == (if b.meta.snapshot > Newest(c, base) then b.meta.snapshot else Newest(c, base))
              && IdsOf(c + [b], base) == IdsOf(c, base) + [b.meta.id]
  {
    assert (c + [b])[..|c|] == c;
  }

  // One iteration of the grouping loop.
  lemma GroupStep(c: seq<Backup>, b: Backup, newest: map<BackupId, int>, members: map<BackupId, seq<BackupId>>)
    requires NewestOf(c, newest) && MembersOf(c, members)
    ensures NewestOf(c + [b], WithNewest(newest, b.meta.baseFull, b.meta.snapshot))
    ensures var base := b.meta.baseFull;
            MembersOf(c + [b], members[base := (if base in members then members[base] else []) + [b.meta.id]])
  {
    NewestStep(c, b, newest);
    MembersStep(c, b, members);
  }

  function WithNewest(newest: map<BackupId, int>, base: BackupId, t: int): map<BackupId, int> {
    if t > (if base in newest then newest[base] else 0) then newest[base := t] else newest
  }

  lemma NewestStep(c: seq<Backup>, b: Backup, newest: map<BackupId, int>)
    requires NewestOf(c, newest)
    ensures NewestOf(c + [b], WithNewest(newest, b.meta.baseFull, b.meta.snapshot))
  {
    forall base ensures NewestAt(WithNewest(newest, b.meta.baseFull, b.meta.snapshot), base, Newest(c + [b], base)) {
      AppendGroups(c, b, base);
      assert NewestAt(newest, base, Newest(c, base));
    }
  }

  lemma MembersStep(c: seq<Backup>, b: Backup, members: map<BackupId, seq<BackupId>>)
    requires MembersOf(c, members)
    ensures var base := b.meta.baseFull;
            MembersOf(c + [b], members[base := (if base in members then members[base] else []) + [b.meta.id]])
  {
    AppendGroups(c, b, b.meta.baseFull);
    forall base | base != b.meta.baseFull ensures IdsOf(c + [b], base) == IdsOf(c, base) {
      AppendGroups(c, b, base);
    }
  }

  // One iteration of the removal loop.
  lemma DeadStep(c: seq<Backup>, newest: map<BackupId, int>, members: map<BackupId, seq<BackupId>>,
                 done: set<BackupId>, base: BackupId, cutoff: int)
    requires NewestOf(c, newest) && MembersOf(c, members) && base in newest
    ensures DeadIn(c, done + {base}, cutoff)
            == DeadIn(c, done, cutoff)
               + if newest[base] < cutoff then IdSet(if base in members then members[base] else []) else {}
  {
    assert NewestAt(newest, base, Newest(c, base));
    IdsOfMembers(c, base);
    var ids := IdsOf(c, base);
    assert IdSet(ids) == set b | b in c && b.meta.baseFull == base :: b.meta.id;
  }

  lemma RemoveTwice(root: map<BackupId, Dir>, a: set<BackupId>, b: set<BackupId>)
    ensures root - a - b == root - (a + b)
  {
  }

  lemma AllDead(c: seq<Backup>, newest: map<BackupId, int>, cutoff: int)
    requires NewestOf(c, newest)
    ensures DeadIn(c, newest.Keys, cutoff) == DeadIds(c, cutoff)
  {
    forall b | b in c && Expired(c, b.meta.baseFull, cutoff) ensures b.meta.baseFull in newest {
      assert NewestAt(newest, b.meta.baseFull, Newest(c, b.meta.baseFull));
    }
  }

  // A new directory is not listed until its metadata is there, and then it is the last entry.
  lemma NewDirectory(root: map<BackupId, Dir>, c: seq<Backup>, a: Attempt, b: Backup)
    requires Shows(root, c) && OwnNames(root) && Before(c, a)
    requires b.meta.id == NameFor(a, c)
    ensures Shows(root[b.meta.id := Dir(None, b.readAt, map[])], c)
    ensures Shows(root[b.meta.id := Dir(Some(b.meta), b.readAt, b.data)], c + [b])
    ensures OwnNames(root[b.meta.id := Dir(None, b.readAt, map[])])
    ensures OwnNames(root[b.meta.id := Dir(Some(b.meta), b.readAt, b.data)])
  {
    assert forall x :: x in c ==> x.meta.id != b.meta.id;
    assert forall id :: id in root && root[id].listed.Some? ==> id != b.meta.id;
    assert forall x :: x in c + [b] <==> x in c || x == b;
  }

  class Backuper {
    const cfg: Config
    var forceFull: bool
    var forceIncremental: bool
    var root: map<BackupId, Dir>
    // What ListBackups returns, in time order.
    ghost var catalog: seq<Backup>

    ghost predicate Valid()
      reads this
    {
      ChainInv(catalog) && Shows(root, catalog) && OwnNames(root)
    }

    function AttemptAt(snapshot: int, readAt: int, completes: bool, wallClock: int): Attempt
      reads this`forceFull, this`forceIncremental
    {
      Attempt(cfg, forceFull, forceIncremental, snapshot, readAt, completes, wallClock)
    }

    constructor (cfg: Config)
      ensures Valid() && catalog == [] && this.cfg == cfg && !forceFull && !forceIncremental
    {
      this.cfg := cfg;
      forceFull, forceIncremental, root, catalog := false, false, map[], [];
    }

    method List() returns (out: seq<Backup>)
      requires Valid()
      ensures out == catalog
    {
      SnapshotOrder(catalog);
      out := ListBackups(root);
    }

    method DecideBackup(backups: seq<Backup>, ghost a: Attempt) returns (parent: Option<Backup>)
      requires a.cfg == cfg && a.forceFull == forceFull && a.forceIncremental == forceIncremental
      ensures parent == Decide(a, backups)
    {
      if forceFull || |backups| == 0 {
        return None;
      }
      var last := backups[|backups| - 1];
      if forceIncremental {
        return Some(last);
      }
      if !cfg.pitrEnabled || cfg.fullBackupEvery <= 1 {
        return None;
      }
      var chainLen := 0;
      for i := 0 to |backups|
        invariant chainLen == ChainLength(backups[..i], last.meta.baseFull)
      {
        assert backups[..i + 1][..i] == backups[..i];
        if backups[i].meta.baseFull == last.meta.baseFull {
          chainLen := chainLen + 1;
        }
      }
      assert backups[..|backups|] == backups;
      if chainLen >= cfg.fullBackupEvery {
        return None;
      }
      return Some(last);
    }

    // One run of CreateBackup. A failed run may leave a directory behind, but
    // never one with metadata.
    method CreateBackup(src: Source, snapshot: int, readAt: int, completes: bool, wallClock: int)
      returns (r: Result<Metadata, BackupError>)
      requires Valid()
      requires var a := AttemptAt(snapshot, readAt, completes, wallClock); ClockOk(a) && Before(catalog, a)
      modifies this`root, this`catalog
      ensures Valid()
      ensures catalog == Created(src, AttemptAt(snapshot, readAt, completes, wallClock), old(catalog))
      ensures var a := AttemptAt(snapshot, readAt, completes, wallClock);
              r == if Decide(a, old(catalog)).Some? && !CanCapture(src) then Err(NoTrackedTables)
                   else if !completes then Err(BackupFailed)
                   else Ok(NewBackup(src, a, Decide(a, old(catalog))).meta)
    {
      var a := AttemptAt(snapshot, readAt, completes, wallClock);
      var existing := List();
      var parent := DecideBackup(existing, a);
      var b := NewBackup(src, a, parent);
      MakeDirectory(b, a);
      if parent.Some? && !CanCapture(src) {
        return Err(NoTrackedTables);
      }
      if !completes {
        return Err(BackupFailed);
      }
      CompleteBackup(b, src, a);
      r := Ok(b.meta);
    }

    method CompleteBackup(b: Backup, ghost src: Source, a: Attempt)
      requires Valid() && a.cfg == cfg
      requires ClockOk(a) && Before(catalog, a) && b == NewBackup(src, a, Decide(a, catalog))
      modifies this`root, this`catalog
      ensures Valid() && catalog == Retained(Extended(src, a, old(catalog)), cfg, a.wallClock)
    {
      CommitMetadata(b, src, a);
      CleanOldBackups(a.wallClock);
    }

    method MakeDirectory(b: Backup, ghost a: Attempt)
      requires Valid() && Before(catalog, a) && b.meta.id == NameFor(a, catalog)
      modifies this`root
      ensures Valid() && root == old(root)[b.meta.id := Dir(None, b.readAt, map[])]
    {
      NewDirectory(root, catalog, a, b);
      root := root[b.meta.id := Dir(None, b.readAt, map[])];
    }

    // The rename of the metadata file: the new backup is listed, as the last entry.
    method CommitMetadata(b: Backup, ghost src: Source, ghost a: Attempt)
      requires Valid() && ClockOk(a) && Before(catalog, a) && b == NewBackup(src, a, Decide(a, catalog))
      modifies this`root, this`catalog
      ensures Valid() && catalog == Extended(src, a, old(catalog))
      ensures root == old(root)[b.meta.id := Dir(Some(b.meta), b.readAt, b.data)]
    {
      NewDirectory(root, catalog, a, b);
      AppendKeepsChain(src, a, catalog);
      root := root[b.meta.id := Dir(Some(b.meta), b.readAt, b.data)];
      catalog := catalog + [b];
    }

    method CleanOldBackups(wallClock: int)
      requires Valid()
      modifies this`root, this`catalog
      ensures Valid() && catalog == Retained(old(catalog), cfg, wallClock)
      ensures root == if cfg.retentionDays <= 0 then old(root)
                      else old(root) - DeadIds(old(catalog), Cutoff(cfg, wallClock))
    {
      if cfg.retentionDays <= 0 {
        return;
      }
      var cutoff := Cutoff(cfg, wallClock);
      RemoveChainsBefore(cutoff);
    }

    method RemoveChainsBefore(cutoff: int)
      requires Valid()
      modifies this`root, this`catalog
      ensures Valid() && catalog == Unexpired(old(catalog), old(catalog), cutoff)
      ensures root == old(root) - DeadIds(old(catalog), cutoff)
    {
      var backups := List();
      var newest, members := GroupChains(backups);
      RemoveExpired(backups, newest, members, cutoff);
      CleanedIsValid(old(root), backups, cutoff);
      catalog := Unexpired(backups, backups, cutoff);
    }

    // The removal loops: every member of every expired chain.
    method RemoveExpired(backups: seq<Backup>, newest: map<BackupId, int>,
                         members: map<BackupId, seq<BackupId>>, cutoff: int)
      requires NewestOf(backups, newest) && MembersOf(backups, members)
      modifies this`root
      ensures root == old(root) - DeadIds(backups, cutoff)
    {
      var todo := newest.Keys;
      ghost var done: set<BackupId> := {};
      while todo != {}
        invariant todo <= newest.Keys && done == newest.Keys - todo
        invariant root == old(root) - DeadIn(backups, done, cutoff)
        decreases todo
      {
        var base :| base in todo;
        DeadStep(backups, newest, members, done, base, cutoff);
        if newest[base] < cutoff {
          var ids := if base in members then members[base] else [];
          RemoveAll(ids);
          RemoveTwice(old(root), DeadIn(backups, done, cutoff), IdSet(ids));
        }
        todo, done := todo - {base}, done + {base};
      }
      AllDead(backups, newest, cutoff);
    }

    method RemoveAll(ids: seq<BackupId>)
      modifies this`root
      ensures root == old(root) - IdSet(ids)
    {
      for i := 0 to |ids|
        invariant root == old(root) - IdSet(ids[..i])
      {
        root := root - {ids[i]};
        assert IdSet(ids[..i + 1]) == IdSet(ids[..i]) + {ids[i]};
      }
      assert ids[..|ids|] == ids;
    }

    // The newest snapshot and the members of every chain.
    method GroupChains(backups: seq<Backup>)
      returns (newest: map<BackupId, int>, members: map<BackupId, seq<BackupId>>)
      ensures NewestOf(backups, newest) && MembersOf(backups, members)
    {
      newest, members := map[], map[];
      for i := 0 to |backups|
        invariant NewestOf(backups[..i], newest) && MembersOf(backups[..i], members)
      {
        var m := backups[i].meta;
        GroupStep(backups[..i], backups[i], newest, members);
        assert backups[..i] + [backups[i]] == backups[..i + 1];
        members := members[m.baseFull := (if m.baseFull in members then members[m.baseFull] else []) + [m.id]];
        if m.snapshot > (if m.baseFull in newest then newest[m.baseFull] else 0) {
          newest := newest[m.baseFull := m.snapshot];
        }
      }
      assert backups[..|backups|] == backups;
    }
  }
}
