// The rename of the metadata file as the commit point of a backup: a crash
// anywhere before it leaves the listing as it was, the rename adds a finished entry.
module CommitPoint {
  import opened Wrappers
  import opened PartNames
  import opened FileTree
  import opened Splitter
  import opened PartJoins
  import opened Assembler
  import opened Checksums
  import opened Packing
  import opened PackingLaws
  import Catalog

  // The backup directories under the output directory.
  type Root = map<string, Files>

  // A metadata file: what identifies the backup, and its split manifest.
  datatype Entry = Entry(meta: Catalog.Metadata, splits: seq<SplitInfo>)

  predicate IsBackupDir(name: string) {
    "full_" <= name || "incremental_" <= name
  }

  // ListBackups: the metadata of every directory that has a readable one.
  function Listing(root: Root, parse: Bytes -> Option<Entry>): map<string, Entry> {
    map name | name in root && IsBackupDir(name) && METADATA in root[name] && parse(root[name][METADATA]).Some? ::
      parse(root[name][METADATA]).value
  }

  // A path in the subdirectory of a full dump or of an incremental's CSV files.
  predicate InDump(path: string) {
    "data/" <= path || "cdc/" <= path
  }

  predicate OnDump(op: FileOp) {
    match op
    case WriteFile(path, _) => InDump(path)
    case RemoveFile(path) => InDump(path)
    case RenameFile(from, to) => InDump(from) && InDump(to)
  }

  // pg_dump or the COPY transaction: any operations under its own directory.
  ghost predicate Dumps(ops: seq<FileOp>, data: Files) {
    (forall op :: op in ops ==> OnDump(op)) && ExecAll(map[], ops) == data
  }

  // What the database is asked for leaves a dump with printable names.
  ghost predicate DumpOk(data: Files) {
    IsDump(data) && forall p :: p in data ==> OneLine(p)
  }

  // Everything CreateBackup does to its new directory, in order.
  function BackupOps(dump: seq<FileOp>, data: Files, max: nat, fs: seq<string>, lines: seq<string>, metadata: Bytes): seq<FileOp>
    requires max > 0 && forall f :: f in fs ==> f in data
  {
    dump + StoreOps(data, max, fs, lines, metadata)
  }

  // The operation does not create the metadata file.
  predicate Quiet(op: FileOp) {
    (op.WriteFile? ==> op.path != METADATA) && (op.RenameFile? ==> op.to != METADATA)
  }

  ghost predicate AllQuiet(ops: seq<FileOp>) {
    forall op :: op in ops ==> Quiet(op)
  }

  lemma {:induction false} QuietOpsWriteNoMetadata(files: Files, ops: seq<FileOp>)
    requires METADATA !in files && AllQuiet(ops)
    ensures METADATA !in ExecAll(files, ops)
  {
    if ops != [] {
      QuietOpsWriteNoMetadata(files, ops[..|ops| - 1]);
      assert Quiet(ops[|ops| - 1]);
    }
  }

  lemma {:induction false} DumpStaysInDump(ops: seq<FileOp>)
    requires forall op :: op in ops ==> OnDump(op)
    ensures forall p :: p in ExecAll(map[], ops) ==> InDump(p)
  {
    if ops != [] {
      DumpStaysInDump(ops[..|ops| - 1]);
      assert OnDump(ops[|ops| - 1]);
    }
  }

  lemma DumpIsQuiet(ops: seq<FileOp>)
    requires forall op :: op in ops ==> OnDump(op)
    ensures AllQuiet(ops)
  {
    assert METADATA[0] == 'b' && !InDump(METADATA);
    forall op | op in ops ensures Quiet(op) {
      assert OnDump(op);
    }
  }

  // A part is in the directory of its file.
  lemma PartInDump(f: string, n: nat)
    requires InDump(f)
    ensures InDump(PartName(f, n))
  {
    assert f <= PartName(f, n);
  }

  lemma {:induction false} PartOpsInDump(f: string, pieces: seq<Bytes>)
    requires InDump(f)
    ensures forall op :: op in PartOps(f, pieces) ==> OnDump(op)
  {
    if pieces != [] {
      PartOpsInDump(f, pieces[..|pieces| - 1]);
      PartInDump(f, |pieces|);
    }
  }

  lemma SplitOpsInDump(f: string, content: Bytes, max: nat)
    requires InDump(f) && max > 0
    ensures forall op :: op in SplitOps(f, content, max) ==> OnDump(op)
  {
    PartOpsInDump(f, Chunks(content, max));
    PartInDump(f, |Chunks(content, max)| + 1);
  }

  lemma {:induction false} SplitAllInDump(data: Files, max: nat, fs: seq<string>)
    requires max > 0 && forall f :: f in fs ==> f in data && InDump(f)
    ensures forall op :: op in SplitAllOps(data, max, fs) ==> OnDump(op)
  {
    if fs != [] {
      var f := fs[|fs| - 1];
      SplitAllInDump(data, max, fs[..|fs| - 1]);
      SplitOpsInDump(f, data[f], max);
    }
  }

  // Every operation but the last is quiet.
  lemma QuietUntilRename(dump: seq<FileOp>, data: Files, max: nat, fs: seq<string>, lines: seq<string>, metadata: Bytes)
    requires max > 0 && Dumps(dump, data) && forall f :: f in fs ==> f in data
    ensures var ops := BackupOps(dump, data, max, fs, lines, metadata);
            ops != [] && AllQuiet(ops[..|ops| - 1])
  {
    var split, sums := SplitAllOps(data, max, fs), ReplaceOps(SUMS, Content(lines));
    var written := WriteOps(METADATA + ".tmp", metadata);
    DumpStaysInDump(dump);
    SplitAllInDump(data, max, fs);
    DumpIsQuiet(dump + split);
    var ops := BackupOps(dump, data, max, fs, lines, metadata);
    assert ops == dump + split + sums + written + [RenameFile(METADATA + ".tmp", METADATA)];
    assert ops[..|ops| - 1] == dump + split + sums + written;
    forall op | op in dump + split + sums + written ensures Quiet(op) {
      if op in sums {
        assert op in WriteOps(SUMS + ".tmp", Content(lines)) || op == RenameFile(SUMS + ".tmp", SUMS);
      }
    }
  }

  // The files before the checksums are written, and their recorded hashes.
  ghost function PackedFiles(data: Files, max: nat, fs: seq<string>): Files
    requires max > 0 && forall f :: f in fs ==> f in data
  {
    ExecAll(data, SplitAllOps(data, max, fs))
  }

  ghost predicate SumsOf(hash: Bytes -> string, files: Files, lines: seq<string>) {
    Records(lines, map p | p in files && Recorded(p) :: hash(files[p]))
  }

  lemma DumpHasNoReserved(data: Files)
    requires forall p :: p in data ==> InDump(p)
    ensures forall p :: p in {SUMS, METADATA, SUMS + ".tmp", METADATA + ".tmp"} ==> p !in data
  {
    forall p | p in {SUMS, METADATA, SUMS + ".tmp", METADATA + ".tmp"} ensures !InDump(p) {
      assert p[0] == 'S' || p[0] == 'b';
    }
  }

  // What all the operations together leave.
  lemma ExecBackup(dump: seq<FileOp>, data: Files, max: nat, fs: seq<string>, lines: seq<string>, metadata: Bytes)
    requires max > 0 && Dumps(dump, data) && IsDump(data) && ListsSplit(data, max, fs)
    ensures Packed(data, max, PackedFiles(data, max, fs))
    ensures ExecAll(map[], BackupOps(dump, data, max, fs, lines, metadata))
            == PackedFiles(data, max, fs) + map[SUMS := Content(lines), METADATA := metadata]
  {
    var files := PackedFiles(data, max, fs);
    var split, sums, meta := SplitAllOps(data, max, fs), ReplaceOps(SUMS, Content(lines)), ReplaceOps(METADATA, metadata);
    ExecSplitAll(data, max, fs, ToSplit(data, max));
    DumpStaysInDump(dump);
    DumpHasNoReserved(data);
    PackedHasNoTemp(data, max, files);
    ExecAppend(map[], dump, split + sums + meta);
    ExecAppend(data, split + sums, meta);
    ExecAppend(data, split, sums);
    ExecReplace(files, SUMS, Content(lines));
    ExecReplace(files[SUMS := Content(lines)] - {SUMS + ".tmp"}, METADATA, metadata);
    StoredFiles(files, Content(lines), metadata);
  }

  lemma UnlistedDirectory(root: Root, id: string, files: Files, parse: Bytes -> Option<Entry>)
    requires id !in root && METADATA !in files
    ensures Listing(root[id := files], parse) == Listing(root, parse)
  {
  }

  // The directory verifies against its checksums, fits the manifest, and whatever
  // the assembler makes of it is `whole`.
  ghost predicate Complete(hash: Bytes -> string, files: Files, splits: seq<SplitInfo>, whole: Files) {
    && SUMS in files && (forall l :: l in Lines(files[SUMS]) ==> LineHolds(hash, files, l))
    && Settled(files) && Assemblable(hash, files, ManifestOf(splits))
    && (forall out :: AssembledTo(files, out) ==> out == whole)
  }

  // With a fresh directory name, after any number of operations, each write
  // counted byte by byte. Before the last one the listing is what it was. After it the
  // listing has exactly the new entry more, and its directory verifies against its
  // checksums and reassembles to the dump under the manifest that entry lists.
  lemma CrashSafety(root: Root, id: string, hash: Bytes -> string, dump: seq<FileOp>, data: Files, max: nat, fs: seq<string>,
                    lines: seq<string>, meta: Catalog.Metadata,
                    encode: Entry -> Bytes, parse: Bytes -> Option<Entry>, k: nat)
    requires id !in root && ("full_" <= id || "incremental_" <= id) && HexDigest(hash) && max > 0
    requires Dumps(dump, data) && DumpOk(data) && ListsSplit(data, max, fs)
    requires SumsOf(hash, PackedFiles(data, max, fs), lines) && forall e :: parse(encode(e)) == Some(e)
    ensures var entry := Entry(meta, ManifestFor(hash, data, max, fs));
            var ops := BackupOps(dump, data, max, fs, lines, encode(entry));
            k <= |ops| ==>
            var now := root[id := ExecAll(map[], ops[..k])];
            if k < |ops| then Listing(now, parse) == Listing(root, parse)
            else
              && Listing(now, parse) == Listing(root, parse)[id := entry]
              && Complete(hash, now[id], entry.splits, data + map[SUMS := Content(lines), METADATA := encode(entry)])
  {
    var entry := Entry(meta, ManifestFor(hash, data, max, fs));
    var ops := BackupOps(dump, data, max, fs, lines, encode(entry));
    if k < |ops| {
      CrashIsInvisible(root, id, dump, data, max, fs, lines, encode(entry), parse, k);
    } else if k == |ops| {
      assert ops[..k] == ops;
      RenameIsVisible(root, id, hash, dump, data, max, fs, lines, entry, encode, parse);
    }
  }

  lemma RenameIsVisible(root: Root, id: string, hash: Bytes -> string, dump: seq<FileOp>, data: Files, max: nat, fs: seq<string>,
                        lines: seq<string>, entry: Entry, encode: Entry -> Bytes, parse: Bytes -> Option<Entry>)
    requires id !in root && IsBackupDir(id) && HexDigest(hash) && max > 0
    requires Dumps(dump, data) && DumpOk(data) && ListsSplit(data, max, fs)
    requires SumsOf(hash, PackedFiles(data, max, fs), lines)
    requires parse(encode(entry)) == Some(entry) && entry.splits == ManifestFor(hash, data, max, fs)
    ensures var now := ExecAll(map[], BackupOps(dump, data, max, fs, lines, encode(entry)));
            Listing(root[id := now], parse) == Listing(root, parse)[id := entry]
            && Complete(hash, now, entry.splits, data + map[SUMS := Content(lines), METADATA := encode(entry)])
  {
    var now := ExecAll(map[], BackupOps(dump, data, max, fs, lines, encode(entry)));
    ExecBackup(dump, data, max, fs, lines, encode(entry));
    DumpStaysInDump(dump);
    FinishedBackup(hash, data, max, fs, lines, encode(entry));
    assert METADATA in now && now[METADATA] == encode(entry);
    ListedDirectory(root, id, now, parse, entry);
  }

  lemma ListedDirectory(root: Root, id: string, files: Files, parse: Bytes -> Option<Entry>, entry: Entry)
    requires IsBackupDir(id) && METADATA in files && parse(files[METADATA]) == Some(entry)
    ensures Listing(root[id := files], parse) == Listing(root, parse)[id := entry]
  {
  }

  lemma CrashIsInvisible(root: Root, id: string, dump: seq<FileOp>, data: Files, max: nat, fs: seq<string>,
                         lines: seq<string>, metadata: Bytes, parse: Bytes -> Option<Entry>, k: nat)
    requires id !in root && max > 0 && Dumps(dump, data) && forall f :: f in fs ==> f in data
    requires k < |BackupOps(dump, data, max, fs, lines, metadata)|
    ensures var ops := BackupOps(dump, data, max, fs, lines, metadata);
            Listing(root[id := ExecAll(map[], ops[..k])], parse) == Listing(root, parse)
  {
    var ops := BackupOps(dump, data, max, fs, lines, metadata);
    QuietUntilRename(dump, data, max, fs, lines, metadata);
    assert ops[..k] == ops[..|ops| - 1][..k];
    QuietOpsWriteNoMetadata(map[], ops[..k]);
    UnlistedDirectory(root, id, ExecAll(map[], ops[..k]), parse);
  }

  // The finished directory: it verifies, fits its manifest, and assembles to the dump.
  lemma FinishedBackup(hash: Bytes -> string, data: Files, max: nat, fs: seq<string>, lines: seq<string>, metadata: Bytes)
    requires HexDigest(hash) && max > 0 && DumpOk(data) && ListsSplit(data, max, fs)
    requires (forall p :: p in data ==> InDump(p)) && SumsOf(hash, PackedFiles(data, max, fs), lines)
    requires Packed(data, max, PackedFiles(data, max, fs))
    ensures var extra := map[SUMS := Content(lines), METADATA := metadata];
            var stored := PackedFiles(data, max, fs) + extra;
            Complete(hash, stored, ManifestFor(hash, data, max, fs), data + extra)
  {
    var files, extra := PackedFiles(data, max, fs), map[SUMS := Content(lines), METADATA := metadata];
    DumpHasNoReserved(data);
    ReservedNames(data, extra);
    ManifestDescribes(hash, data, max, fs);
    PackedIsAssemblable(hash, data, max, files, extra, ManifestFor(hash, data, max, fs));
    VerifyStored(hash, data, max, files, lines, files + extra);
    VerifiesAgainIffUnsplit(hash, data, max, files, extra);
    forall out | AssembledTo(files + extra, out) ensures out == data + extra {
      AssemblyRestoresDump(data, max, files, extra, out);
    }
  }
}
