// When a restore goes through: exactly what can stop it, read off the stored
// directories, the recorded columns and the captured rows.
module RestoreProgress {
  import opened Wrappers
  import opened Rows
  import opened Catalog
  import opened Selection
  import opened ForeignKeys
  import opened ApplyScript
  import opened ApplyLaws
  import opened RestoreService
  import opened SecondRestore
  import opened PartNames
  import opened FileTree
  import opened PartJoins
  import opened Assembler
  import opened Packing
  import opened PackingLaws

  // The incremental has rows of the table, with a recorded column that the target
  // no longer has.
  ghost predicate Drifts(env: Setting, inc: Backup, name: string) {
    && name in inc.data && name in env.refs && name in env.schema
    && env.schema[name].columns != [] && env.schema[name].pk != []
    && name in env.recorded && exists c :: c in env.recorded[name] && c !in env.schema[name].columns
  }

  lemma {:induction false} FirstDriftIsFirst(env: Setting, inc: Backup, names: seq<string>) returns (i: nat)
    ensures i <= |names| && forall j :: 0 <= j < i ==> !Drifts(env, inc, names[j])
    ensures i < |names| ==> Drifts(env, inc, names[i])
    ensures FirstDrift(env, inc, names) == if i < |names| then Some(names[i]) else None
  {
    if names == [] || (InScript(env, inc, names[0]) && Drifted(env, names[0])) {
      i := 0;
    } else {
      var rest := FirstDriftIsFirst(env, inc, names[1..]);
      i := rest + 1;
      forall j | 0 <= j < i ensures !Drifts(env, inc, names[j]) {
        if j > 0 {
          assert names[1..][j - 1] == names[j];
        }
      }
    }
  }

  // A directory without a checksum file is taken as it is.
  lemma OpensUnchecked(env: Setting, dirs: map<BackupId, Files>, id: BackupId)
    requires id in dirs && "SHA256SUMS" !in dirs[id]
    ensures Opens(env, dirs, id) <==> Assemblable(env.hash, dirs[id], ManifestOf(SplitsOf(env, id)))
  {
  }

  // One incremental fits the target as it is: no table drifted, and every table's
  // rows are accepted and find the rows they refer to.
  ghost predicate GoesThrough(env: Setting, db: Db, inc: Backup, bound: Bound) {
    && (forall name :: name in env.order ==> !Drifts(env, inc, name))
    && (forall i :: 0 <= i < |env.order| ==> Passes(env, db, inc, i, bound))
  }

  // Applying an incremental fails, and for the reason it gives, exactly if its
  // directory is damaged, or else a table drifted, or else a table does not pass.
  lemma AppliesIff(env: Setting, dirs: map<BackupId, Files>, db: Db, inc: Backup, bound: Bound)
    requires DistinctKeys(env.order) && FilesOk(env, inc)
    ensures Applied(env, dirs, db, inc, bound).1 == None <==> Opens(env, dirs, inc.meta.id) && GoesThrough(env, db, inc, bound)
    ensures match Applied(env, dirs, db, inc, bound).1
            case None => true
            case Some(Damaged(id)) => id == inc.meta.id && !Opens(env, dirs, id)
            case Some(SchemaDrift(name)) => name in env.order && Drifts(env, inc, name)
            case Some(Rejected(name)) => exists i :: 0 <= i < |env.order| && env.order[i] == name && !Passes(env, db, inc, i, bound)
            case Some(NoBase(_)) => false
  {
    var d := FirstDriftIsFirst(env, inc, env.order);
    var j := ScriptCommitsIff(env, db, inc, bound);
    if d == |env.order| {
      forall name | name in env.order ensures !Drifts(env, inc, name) {
        var i :| 0 <= i < |env.order| && env.order[i] == name;
      }
    }
  }

  // Each incremental fits what the ones before it left.
  ghost predicate AllGoThrough(env: Setting, dirs: map<BackupId, Files>, db: Db, incs: seq<Backup>, bound: Bound) {
    incs == [] ||
    var init, last := incs[..|incs| - 1], incs[|incs| - 1];
    AllGoThrough(env, dirs, db, init, bound) && GoesThrough(env, AppliedAll(env, dirs, db, init, bound).0, last, bound)
  }

  lemma {:induction false} AllApplyIff(env: Setting, dirs: map<BackupId, Files>, db: Db, incs: seq<Backup>, bound: Bound)
    requires DistinctKeys(env.order) && forall i :: 0 <= i < |incs| ==> FilesOk(env, incs[i]) && Opens(env, dirs, incs[i].meta.id)
    ensures AppliedAll(env, dirs, db, incs, bound).1 == None <==> AllGoThrough(env, dirs, db, incs, bound)
    decreases |incs|
  {
    if incs != [] {
      var n := |incs| - 1;
      AllApplyIff(env, dirs, db, incs[..n], bound);
      AppliesIff(env, dirs, AppliedAll(env, dirs, db, incs[..n], bound).0, incs[n], bound);
    }
  }

  // A stored directory opens as a base exactly if the dump left a file in data/.
  lemma StoredBaseIff(env: Setting, dirs: map<BackupId, Files>, id: BackupId, d: Stored)
    requires IsStored(env, id, d) && id in dirs && dirs[id] == d.files + d.extra
    ensures OpensAsBase(env, dirs, id) <==> exists p :: p in d.data && "data/" <= p
  {
    StoredOpens(env, dirs, id, d);
    StoredHasDumpIff(env, id, d);
  }

  lemma StoredHasDumpIff(env: Setting, id: BackupId, d: Stored)
    requires IsStored(env, id, d)
    ensures HasDump(d.files + d.extra) <==> exists p :: p in d.data && "data/" <= p
  {
    ReservedNames(d.data, d.extra);
    forall p | p in d.extra ensures !("data/" <= p) {
      assert p[0] != 'd';
    }
    HasDumpIff(d.data, d.max, d.files, d.extra);
  }

  lemma HasDumpIff(data: Files, max: nat, files: Files, extra: Files)
    requires max > 0 && IsDump(data) && IsBeside(data, extra) && Packed(data, max, files)
    requires forall p :: p in extra ==> !("data/" <= p)
    ensures HasDump(files + extra) <==> exists p :: p in data && "data/" <= p
  {
    forall p | "data/" <= p
      ensures (HasParts(files + extra, p) || (p in files + extra && !IsPart(p))) <==> p in data
    {
      DumpedIff(data, max, files, extra, p);
    }
  }

  lemma DumpedIff(data: Files, max: nat, files: Files, extra: Files, p: string)
    requires max > 0 && IsDump(data) && IsBeside(data, extra) && Packed(data, max, files) && p !in extra
    ensures (HasParts(files + extra, p) || (p in files + extra && !IsPart(p))) <==> p in data
  {
    SplitIff(data, max, files, extra, p);
    if !IsPart(p) {
      StoredWhole(data, max, files, extra, p);
    }
  }

  // From directories as their backups stored them, a restore goes through exactly
  // if the base's dump left a file in data/ and every incremental of the chain fits the
  // target that the ones before it left; nothing else stops it.
  lemma RestoreSucceedsIff(env: Setting, dirs: map<BackupId, Files>, stored: map<BackupId, Stored>, prepared: Db,
                           chain: Chain, target: Option<int>)
    requires AllStored(env, dirs, stored, Members(chain)) && DistinctKeys(env.order)
    requires forall i :: 0 <= i < |chain.incs| ==> FilesOk(env, chain.incs[i])
    ensures chain.base.meta.id in stored
    ensures var bound := if target.None? then Infinity else At(Micros(target.value));
            Restored(env, dirs, prepared, chain, target).1 == None <==>
            && (exists p :: p in stored[chain.base.meta.id].data && "data/" <= p)
            && AllGoThrough(env, dirs, prepared + chain.base.data, chain.incs, bound)
  {
    assert chain.base in Members(chain);
    StoredBaseIff(env, dirs, chain.base.meta.id, stored[chain.base.meta.id]);
    forall i | 0 <= i < |chain.incs| ensures Opens(env, dirs, chain.incs[i].meta.id) {
      assert chain.incs[i] in Members(chain);
      StoredOpens(env, dirs, chain.incs[i].meta.id, stored[chain.incs[i].meta.id]);
    }
    AllApplyIff(env, dirs, prepared + chain.base.data, chain.incs, BoundFor(target));
  }
}
