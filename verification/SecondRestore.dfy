// Restoring again from the directories that a restore has used.
module SecondRestore {
  import opened Wrappers
  import opened Rows
  import opened Catalog
  import opened Selection
  import opened ForeignKeys
  import opened ApplyScript
  import opened RestoreService
  import opened FileTree
  import opened PartJoins
  import opened Assembler
  import opened Packing
  import opened PackingLaws

  // What a backup stored: the dump, the largest size kept whole, the packed files
  // and those beside them.
  datatype Stored = Stored(data: Files, max: nat, files: Files, extra: Files)

  ghost predicate IsStored(env: Setting, id: BackupId, d: Stored) {
    Finished(env.hash, d.data, d.max, d.files, d.extra, SplitsOf(env, id))
  }

  ghost predicate HasSplits(d: Stored) {
    ToSplit(d.data, d.max) != {}
  }

  // A stored directory opens, to the dump.
  lemma StoredOpens(env: Setting, dirs: map<BackupId, Files>, id: BackupId, d: Stored)
    requires IsStored(env, id, d) && id in dirs && dirs[id] == d.files + d.extra
    ensures Opens(env, dirs, id) && Settled(dirs[id])
    ensures forall out :: AssembledTo(dirs[id], out) ==> out == d.data + d.extra
  {
    ReservedNames(d.data, d.extra);
    VerifiesAgainIffUnsplit(env.hash, d.data, d.max, d.files, d.extra);
    PackedIsAssemblable(env.hash, d.data, d.max, d.files, d.extra, SplitsOf(env, id));
    forall out | AssembledTo(dirs[id], out) ensures out == d.data + d.extra {
      AssemblyRestoresDump(d.data, d.max, d.files, d.extra, out);
    }
  }

  lemma UnsplitIsWhole(d: Stored, hash: Bytes -> string, manifest: seq<SplitInfo>)
    requires Finished(hash, d.data, d.max, d.files, d.extra, manifest) && !HasSplits(d)
    ensures d.files == d.data
  {
    forall p ensures Lookup(d.files, p) == Lookup(d.data, p) {
    }
    SameLookups(d.files, d.data);
  }

  // What a restore leaves of it opens again exactly when nothing was split, and is
  // then what it was.
  lemma LeftOpensIff(env: Setting, dirs: map<BackupId, Files>, id: BackupId, d: Stored)
    requires IsStored(env, id, d) && id in dirs && dirs[id] == d.data + d.extra
    ensures Opens(env, dirs, id) <==> !HasSplits(d)
    ensures !HasSplits(d) ==> dirs[id] == d.files + d.extra
    ensures Settled(dirs[id])
  {
    ReservedNames(d.data, d.extra);
    VerifiesAgainIffUnsplit(env.hash, d.data, d.max, d.files, d.extra);
    if !HasSplits(d) {
      UnsplitIsWhole(d, env.hash, SplitsOf(env, id));
      StoredOpens(env, dirs, id, d);
    }
  }

  // The members' directories before a restore and after it.
  ghost predicate UsedOnce(env: Setting, was: map<BackupId, Files>, dirs: map<BackupId, Files>,
                           stored: map<BackupId, Stored>, b: Backup)
  {
    var id := b.meta.id;
    && id in stored && IsStored(env, id, stored[id])
    && id in was && was[id] == stored[id].files + stored[id].extra
    && id in dirs && dirs[id] == stored[id].data + stored[id].extra
  }

  ghost predicate AllUsed(env: Setting, was: map<BackupId, Files>, dirs: map<BackupId, Files>,
                          stored: map<BackupId, Stored>, members: seq<Backup>)
  {
    forall b :: b in members ==> UsedOnce(env, was, dirs, stored, b)
  }

  // Some member has split files.
  ghost predicate AnySplit(stored: map<BackupId, Stored>, members: seq<Backup>) {
    exists b :: b in members && IsSplit(stored, b.meta.id)
  }

  ghost predicate IsSplit(stored: map<BackupId, Stored>, id: BackupId) {
    id in stored && HasSplits(stored[id])
  }

  // One used directory, the first time and the second.
  lemma UsedOpens(env: Setting, was: map<BackupId, Files>, dirs: map<BackupId, Files>, stored: map<BackupId, Stored>, b: Backup)
    requires UsedOnce(env, was, dirs, stored, b)
    ensures Opens(env, was, b.meta.id)
    ensures Opens(env, dirs, b.meta.id) <==> !IsSplit(stored, b.meta.id)
    ensures !IsSplit(stored, b.meta.id) ==> dirs[b.meta.id] == was[b.meta.id]
  {
    StoredOpens(env, was, b.meta.id, stored[b.meta.id]);
    LeftOpensIff(env, dirs, b.meta.id, stored[b.meta.id]);
  }

  lemma {:induction false} AppliedAgain(env: Setting, was: map<BackupId, Files>, dirs: map<BackupId, Files>,
                                        stored: map<BackupId, Stored>, db: Db, incs: seq<Backup>, bound: Bound)
    requires AllUsed(env, was, dirs, stored, incs) && AppliedAll(env, was, db, incs, bound).1 == None
    ensures if AnySplit(stored, incs) then AppliedAll(env, dirs, db, incs, bound).1.Some?
            else AppliedAll(env, dirs, db, incs, bound) == AppliedAll(env, was, db, incs, bound)
  {
    if incs != [] {
      var init, last := incs[..|incs| - 1], incs[|incs| - 1];
      assert incs == init + [last] && UsedOnce(env, was, dirs, stored, last);
      AppliedAgain(env, was, dirs, stored, db, init, bound);
      UsedOpens(env, was, dirs, stored, last);
      AnySplitStep(stored, init, last);
    }
  }

  lemma AnySplitStep(stored: map<BackupId, Stored>, init: seq<Backup>, last: Backup)
    ensures AnySplit(stored, init + [last]) <==> AnySplit(stored, init) || IsSplit(stored, last.meta.id)
  {
    forall b ensures b in init + [last] <==> b in init || b == last {
    }
  }

  // A second restore of the same chain, after a successful one, fails if and only
  // if some member of the chain has split files; otherwise it does the same again.
  lemma SecondRestoreFailsIff(env: Setting, was: map<BackupId, Files>, dirs: map<BackupId, Files>, stored: map<BackupId, Stored>,
                              prepared: Db, chain: Chain, target: Option<int>)
    requires AllUsed(env, was, dirs, stored, Members(chain)) && Restored(env, was, prepared, chain, target).1 == None
    ensures if AnySplit(stored, Members(chain)) then Restored(env, dirs, prepared, chain, target).1.Some?
            else Restored(env, dirs, prepared, chain, target) == Restored(env, was, prepared, chain, target)
  {
    UsedMembers(env, was, dirs, stored, chain);
    BaseAgain(env, was, dirs, stored, chain.base);
    AppliedAgain(env, was, dirs, stored, prepared + chain.base.data, chain.incs, BoundFor(target));
  }

  lemma UsedMembers(env: Setting, was: map<BackupId, Files>, dirs: map<BackupId, Files>, stored: map<BackupId, Stored>, chain: Chain)
    requires AllUsed(env, was, dirs, stored, Members(chain))
    ensures UsedOnce(env, was, dirs, stored, chain.base) && AllUsed(env, was, dirs, stored, chain.incs)
    ensures AnySplit(stored, Members(chain)) <==> IsSplit(stored, chain.base.meta.id) || AnySplit(stored, chain.incs)
  {
    forall b ensures b in Members(chain) <==> b == chain.base || b in chain.incs {
    }
  }

  lemma BaseAgain(env: Setting, was: map<BackupId, Files>, dirs: map<BackupId, Files>, stored: map<BackupId, Stored>, base: Backup)
    requires UsedOnce(env, was, dirs, stored, base) && OpensAsBase(env, was, base.meta.id)
    ensures OpensAsBase(env, dirs, base.meta.id) <==> !IsSplit(stored, base.meta.id)
  {
    UsedOpens(env, was, dirs, stored, base);
  }

  // Each member's directory is as its backup stored it.
  ghost predicate AllStored(env: Setting, dirs: map<BackupId, Files>, stored: map<BackupId, Stored>, members: seq<Backup>) {
    forall b :: b in members ==>
      var id := b.meta.id;
      id in stored && id in dirs && IsStored(env, id, stored[id]) && dirs[id] == stored[id].files + stored[id].extra
  }

  lemma OpenedIsUsed(env: Setting, was: map<BackupId, Files>, dirs: map<BackupId, Files>, stored: map<BackupId, Stored>,
                     members: seq<Backup>)
    requires AllStored(env, was, stored, members) && Opened(was, dirs, members)
    requires forall id :: id in was ==> Settled(was[id])
    ensures AllUsed(env, was, dirs, stored, members)
    ensures forall id :: id in dirs ==> Settled(dirs[id])
  {
    forall b | b in members ensures UsedOnce(env, was, dirs, stored, b) && Settled(dirs[b.meta.id]) {
      StoredOpens(env, was, b.meta.id, stored[b.meta.id]);
      LeftOpensIff(env, dirs, b.meta.id, stored[b.meta.id]);
    }
    forall id | id in dirs ensures Settled(dirs[id]) {
      if forall b :: b in members ==> b.meta.id != id {
        assert Lookup(dirs, id) == Lookup(was, id);
      }
    }
  }

  // The restorer itself, twice, into a database that is dropped each time.
  method RestoreTwice(restorer: Restorer, backups: seq<Backup>, target: Option<int>, ghost stored: map<BackupId, Stored>)
    returns (first: Result<Chain, RestoreError>, second: Result<Chain, RestoreError>)
    requires restorer.dropDatabase && Orderly(restorer.dirs, backups) && Select(backups, target).Ok?
    requires AllStored(restorer.env, restorer.dirs, stored, Members(Select(backups, target).value))
    modifies restorer
    ensures first.Ok? ==>
              (second.Err? <==> AnySplit(stored, Members(Select(backups, target).value)))
  {
    ghost var chain, was := Select(backups, target).value, restorer.dirs;
    first := restorer.RestoreToTime(backups, target);
    ghost var dirs := restorer.dirs;
    if first.Ok? {
      OpenedIsUsed(restorer.env, was, dirs, stored, Members(chain));
      SecondRestoreFailsIff(restorer.env, was, dirs, stored, map[], chain, target);
    }
    second := restorer.RestoreToTime(backups, target);
  }
}
