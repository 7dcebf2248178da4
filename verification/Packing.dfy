// The files of one backup directory from dump to restore: large files split,
// checksums written, checksums verified, parts reassembled.
module Packing {
  import opened Wrappers
  import opened PartNames
  import opened FileTree
  import opened Splitter
  import opened PartJoins
  import opened Sorting
  import opened Assembler
  import opened Checksums

  predicate HasSuffix(s: string, suffix: string) {
    |suffix| <= |s| && s[|s| - |suffix|..] == suffix
  }

  predicate NeedsSplit(data: Files, max: nat, p: string) {
    p in data && !IsPart(p) && !HasSuffix(p, METADATA) && |data[p]| > max
  }

  // What a dump leaves: no file named like a part or like a directory, sizes
  // that fit int64.
  ghost predicate IsDump(data: Files) {
    forall p :: p in data ==> !IsPart(p) && NamesFile(data, p) && |data[p]| <= MAX_INT64
  }

  // No other file lies under this name as a directory.
  ghost predicate NamesFile(data: Files, p: string) {
    p != "" && p[|p| - 1] != '/' && forall q :: q in data ==> !(p + "/" <= q)
  }

  // The content of a part of a split file.
  function PieceAt(data: Files, max: nat, p: string): Option<Bytes>
    requires max > 0
  {
    var f, n := OrigOf(p), PartNumber(p);
    if f in data && 1 <= n <= |Chunks(data[f], max)| && p == PartName(f, n) then Some(Chunks(data[f], max)[n - 1]) else None
  }

  // The dump with the files in `done` split.
  ghost predicate PackedSome(data: Files, max: nat, done: set<string>, files: Files)
    requires max > 0
  {
    forall p {:trigger Lookup(files, p)} :: Lookup(files, p) ==
      if p in done then None else if IsPart(p) && OrigOf(p) in done then PieceAt(data, max, p) else Lookup(data, p)
  }

  ghost function ToSplit(data: Files, max: nat): set<string> {
    set p | p in data && NeedsSplit(data, max, p)
  }

  ghost predicate Packed(data: Files, max: nat, files: Files)
    requires max > 0
  {
    PackedSome(data, max, ToSplit(data, max), files)
  }

  function EntryFor(hash: Bytes -> string, data: Files, max: nat, f: string): SplitInfo
    requires max > 0 && f in data
  {
    SplitInfo(f, |Chunks(data[f], max)|, |data[f]|, hash(data[f]))
  }

  // One entry per split file, with its number of parts, size and hash.
  ghost predicate Describes(hash: Bytes -> string, data: Files, max: nat, done: set<string>, manifest: seq<SplitInfo>)
    requires max > 0
  {
    && (forall s :: s in manifest ==> s.file in done && s.file in data && s == EntryFor(hash, data, max, s.file))
    && (forall f :: f in done ==> exists s :: s in manifest && s.file == f)
  }

  lemma SplitLookup(files: Files, file: string, max: nat, p: string)
    requires file in files && max > 0 && |files[file]| <= MAX_INT64
    requires forall q :: q in files ==> !IsPartOf(q, file)
    ensures Lookup(AfterSplit(files, file, max), p) ==
              if p == file then None
              else if IsPartOf(p, file) then PieceAt(files, max, p) else Lookup(files, p)
  {
    var pieces := Chunks(files[file], max);
    var written := WithParts(files, file, pieces);
    ExtraIsNew(files, file, pieces);
    Removal(written, file, PartName(file, |pieces| + 1), WholePieces(files[file], max), p);
    WrittenParts(files, file, pieces, p);
  }

  // Splitting an empty file leaves neither the file nor a part of it; any
  // other file leaves parts. The size test of the caller keeps empty files out.
  lemma SplitLosesOnlyEmptyFile(files: Files, file: string, max: nat)
    requires file in files && max > 0 && |files[file]| <= MAX_INT64
    requires forall q :: q in files ==> !IsPartOf(q, file)
    ensures file !in AfterSplit(files, file, max)
    ensures HasParts(AfterSplit(files, file, max), file) <==> files[file] != ""
  {
    SplitLookup(files, file, max, file);
    if files[file] != "" {
      PartNameParses(file, 1);
      SplitLookup(files, file, max, PartName(file, 1));
    } else {
      forall p | IsPartOf(p, file) ensures p !in AfterSplit(files, file, max) {
        SplitLookup(files, file, max, p);
      }
    }
  }

  lemma Removal(written: Files, file: string, extra: string, whole: bool, p: string)
    requires extra !in written
    ensures Lookup((if whole then written - {extra} else written) - {file}, p) ==
            if p == file then None else Lookup(written, p)
  {
  }

  // The part the loop opens last and removes again was never there.
  lemma ExtraIsNew(files: Files, file: string, pieces: seq<Bytes>)
    requires |pieces| <= MAX_INT64 && forall q :: q in files ==> !IsPartOf(q, file)
    ensures PartName(file, |pieces| + 1) !in WithParts(files, file, pieces)
  {
    var extra := PartName(file, |pieces| + 1);
    PartNameParses(file, |pieces| + 1);
    WrittenParts(files, file, pieces, extra);
    assert IsPartOf(extra, file);
    assert Lookup(files, extra) == None;
  }

  lemma WrittenParts(files: Files, file: string, pieces: seq<Bytes>, p: string)
    requires |pieces| <= MAX_INT64
    ensures var n := PartNumber(p);
            Lookup(WithParts(files, file, pieces), p) ==
              if IsPartOf(p, file) && 1 <= n <= |pieces| && p == PartName(file, n) then Some(pieces[n - 1]) else Lookup(files, p)
  {
    WithPartsLookup(files, file, pieces, p);
    PartNameParses(file, PartNumber(p));
  }

  // Splitting one more file of the dump.
  lemma PackStep(data: Files, max: nat, done: set<string>, files: Files, f: string)
    requires max > 0 && IsDump(data) && PackedSome(data, max, done, files)
    requires f in data && f !in done && forall d :: d in done ==> d in data
    ensures f in files && files[f] == data[f]
    ensures PackedSome(data, max, done + {f}, AfterSplit(files, f, max))
  {
    assert Lookup(files, f) == Lookup(data, f);
    forall q | q in files ensures !IsPartOf(q, f) {
      assert Lookup(files, q) == if q in done then None
        else if IsPart(q) && OrigOf(q) in done then PieceAt(data, max, q) else Lookup(data, q);
    }
    forall p
      ensures Lookup(AfterSplit(files, f, max), p) ==
        if p in done + {f} then None
        else if IsPart(p) && OrigOf(p) in done + {f} then PieceAt(data, max, p) else Lookup(data, p)
    {
      SplitLookup(files, f, max, p);
      assert Lookup(files, p) == if p in done then None
        else if IsPart(p) && OrigOf(p) in done then PieceAt(data, max, p) else Lookup(data, p);
    }
  }

  // Metadata is never split, wherever it is found.
  predicate EndsInMetadata(p: string) {
    p[if |p| < 20 then 0 else |p| - 20..] == "backup_metadata.json"
  }

  // Packing replaces exactly the files over the limit, by parts within it, and no
  // file over the limit is left.
  lemma PackedBySize(data: Files, max: nat, files: Files, p: string)
    requires max > 0 && IsDump(data) && Packed(data, max, files)
    ensures p in data ==>
              if |data[p]| > max && !EndsInMetadata(p) then p !in files && HasParts(files, p)
              else p in files && files[p] == data[p] && !HasParts(files, p)
    ensures p in files && p !in data ==>
              0 < |files[p]| <= max && exists f, n :: f in data && |data[f]| > max && p == PartName(f, n)
    ensures p in files && |files[p]| > max ==> EndsInMetadata(p)
  {
    assert HasSuffix(p, METADATA) <==> EndsInMetadata(p);
    if p in data {
      PackedDump(data, max, files, p);
    } else {
      PackedRest(data, max, files, p);
    }
  }

  lemma PackedDump(data: Files, max: nat, files: Files, p: string)
    requires max > 0 && IsDump(data) && Packed(data, max, files) && p in data
    ensures if p in ToSplit(data, max) then p !in files && HasParts(files, p)
            else p in files && files[p] == data[p] && !HasParts(files, p)
  {
    assert Lookup(files, p) == if p in ToSplit(data, max) then None else Lookup(data, p);
    if p in ToSplit(data, max) {
      FirstPartIsThere(data, max, files, p);
    } else {
      forall q | IsPartOf(q, p) ensures q !in files {
        assert Lookup(files, q) == if q in ToSplit(data, max) then None else Lookup(data, q);
      }
    }
  }

  lemma PackedRest(data: Files, max: nat, files: Files, p: string)
    requires max > 0 && IsDump(data) && Packed(data, max, files) && p !in data
    ensures p in files ==>
              0 < |files[p]| <= max && exists f, n :: f in data && |data[f]| > max && p == PartName(f, n)
  {
    assert Lookup(files, p) == if p in ToSplit(data, max) then None
      else if IsPart(p) && OrigOf(p) in ToSplit(data, max) then PieceAt(data, max, p) else Lookup(data, p);
    if p in files {
      PieceSize(data, max, p);
    }
  }

  lemma PieceSize(data: Files, max: nat, p: string)
    requires max > 0 && PieceAt(data, max, p).Some?
    ensures OrigOf(p) in data && p == PartName(OrigOf(p), PartNumber(p)) && 0 < |PieceAt(data, max, p).value| <= max
  {
    ChunksPartition(data[OrigOf(p)], max);
  }

  lemma FirstPartIsThere(data: Files, max: nat, files: Files, f: string)
    requires max > 0 && IsDump(data) && Packed(data, max, files) && f in ToSplit(data, max)
    ensures HasParts(files, f)
  {
    var p := PartName(f, 1);
    PartNameParses(f, 1);
    assert Lookup(files, p) == if p in ToSplit(data, max) then None
      else if IsPart(p) && OrigOf(p) in ToSplit(data, max) then PieceAt(data, max, p) else Lookup(data, p);
  }

  class Packer {
    const hash: Bytes -> string

    constructor (hash: Bytes -> string)
      ensures this.hash == hash
    {
      this.hash := hash;
    }

    // The walk collects the files to split first, then each is hashed, split and recorded.
    method SplitLargeFiles(tree: Tree, splitSizeMB: nat) returns (manifest: seq<SplitInfo>, ghost fs: seq<string>)
      requires IsDump(tree.files)
      modifies tree
      ensures splitSizeMB == 0 ==> manifest == [] && fs == [] && tree.files == old(tree.files) && tree.log == old(tree.log)
      ensures splitSizeMB > 0 ==>
                var max := splitSizeMB * 1024 * 1024;
                && Packed(old(tree.files), max, tree.files) && ListsSplit(old(tree.files), max, fs)
                && manifest == ManifestFor(hash, old(tree.files), max, fs)
                && Describes(hash, old(tree.files), max, ToSplit(old(tree.files), max), manifest)
                && tree.log == old(tree.log) + SplitAllOps(old(tree.files), max, fs)
    {
      manifest, fs := [], [];
      if splitSizeMB == 0 {
        return;
      }
      var splitter := new FileSplitter(splitSizeMB);
      manifest, fs := SplitAll(tree, splitter);
    }

    method SplitAll(tree: Tree, splitter: FileSplitter) returns (manifest: seq<SplitInfo>, ghost fs: seq<string>)
      requires IsDump(tree.files) && splitter.maxBytes > 0
      modifies tree
      ensures var data, max := old(tree.files), splitter.maxBytes;
              && Packed(data, max, tree.files) && ListsSplit(data, max, fs) && manifest == ManifestFor(hash, data, max, fs)
              && Describes(hash, data, max, ToSplit(data, max), manifest)
              && tree.log == old(tree.log) + SplitAllOps(data, max, fs)
    {
      manifest, fs := [], [];
      var max := splitter.maxBytes;
      var todo := set p | p in tree.files && NeedsSplit(tree.files, max, p);
      ghost var data, log, all := tree.files, tree.log, todo;
      while todo != {}
        invariant todo <= all == ToSplit(data, max) && ListsDone(fs, all - todo)
        invariant PackedSome(data, max, all - todo, tree.files)
        invariant SplitSoFar(hash, data, max, fs, log, manifest, tree.log)
        decreases todo
      {
        var f :| f in todo;
        PackStep(data, max, all - todo, tree.files, f);
        ghost var logged := tree.log;
        var sum, size := hash(tree.files[f]), |tree.files[f]|;
        var parts := splitter.SplitFile(tree, f);
        SplitNext(hash, data, max, fs, log, manifest, logged, f);
        manifest := manifest + [SplitInfo(f, parts.value, size, sum)];
        OneLess(all, todo, f);
        DoneNext(fs, all - todo, f);
        todo, fs := todo - {f}, fs + [f];
      }
      assert all - todo == all;
      ManifestDescribes(hash, data, max, fs);
    }
  }

  // The order in which the files were split, and the operations that did it.
  ghost predicate ListsDone(fs: seq<string>, done: set<string>) {
    Distinct(fs) && forall f :: f in fs <==> f in done
  }

  ghost predicate ListsSplit(data: Files, max: nat, fs: seq<string>) {
    ListsDone(fs, ToSplit(data, max))
  }

  function SplitAllOps(data: Files, max: nat, fs: seq<string>): seq<FileOp>
    requires max > 0 && forall f :: f in fs ==> f in data
  {
    if fs == [] then []
    else SplitAllOps(data, max, fs[..|fs| - 1]) + SplitOps(fs[|fs| - 1], data[fs[|fs| - 1]], max)
  }

  // One entry per split file, in the order they were split.
  function ManifestFor(hash: Bytes -> string, data: Files, max: nat, fs: seq<string>): seq<SplitInfo>
    requires max > 0 && forall f :: f in fs ==> f in data
  {
    seq(|fs|, i requires 0 <= i < |fs| => EntryFor(hash, data, max, fs[i]))
  }

  ghost predicate SplitSoFar(hash: Bytes -> string, data: Files, max: nat, fs: seq<string>, log: seq<FileOp>,
                             manifest: seq<SplitInfo>, logged: seq<FileOp>)
    requires max > 0
  {
    && (forall f :: f in fs ==> f in data)
    && manifest == ManifestFor(hash, data, max, fs) && logged == log + SplitAllOps(data, max, fs)
  }

  lemma SplitNext(hash: Bytes -> string, data: Files, max: nat, fs: seq<string>, log: seq<FileOp>,
                  manifest: seq<SplitInfo>, logged: seq<FileOp>, f: string)
    requires max > 0 && SplitSoFar(hash, data, max, fs, log, manifest, logged) && f in data
    ensures SplitSoFar(hash, data, max, fs + [f], log, manifest + [EntryFor(hash, data, max, f)], logged + SplitOps(f, data[f], max))
  {
    assert (fs + [f])[..|fs|] == fs;
    Assoc(log, SplitAllOps(data, max, fs), SplitOps(f, data[f], max));
  }

  lemma DoneNext(fs: seq<string>, done: set<string>, f: string)
    requires ListsDone(fs, done) && f !in done
    ensures ListsDone(fs + [f], done + {f})
  {
    assert forall x :: x in fs + [f] <==> x in fs || x == f;
  }

  lemma ManifestDescribes(hash: Bytes -> string, data: Files, max: nat, fs: seq<string>)
    requires max > 0 && ListsSplit(data, max, fs)
    ensures Describes(hash, data, max, ToSplit(data, max), ManifestFor(hash, data, max, fs))
  {
    var m := ManifestFor(hash, data, max, fs);
    forall f | f in ToSplit(data, max) ensures exists s :: s in m && s.file == f {
      assert f in fs;
      var i :| 0 <= i < |fs| && fs[i] == f;
      assert m[i] in m;
    }
  }

  // The operations on the dump leave it packed.
  lemma {:induction false} ExecSplitAll(data: Files, max: nat, fs: seq<string>, done: set<string>)
    requires max > 0 && IsDump(data) && ListsDone(fs, done) && forall f :: f in done ==> f in data
    ensures PackedSome(data, max, done, ExecAll(data, SplitAllOps(data, max, fs)))
  {
    if fs != [] {
      var init, f := fs[..|fs| - 1], fs[|fs| - 1];
      assert fs == init + [f];
      DoneBefore(init, f, done);
      ExecSplitAll(data, max, init, done - {f});
      PackNext(data, max, init, f, done - {f});
      assert done - {f} + {f} == done;
    }
  }

  lemma DoneBefore(init: seq<string>, f: string, done: set<string>)
    requires ListsDone(init + [f], done)
    ensures ListsDone(init, done - {f}) && f in done
  {
    var fs := init + [f];
    assert fs[..|init|] == init && fs[|init|] == f;
    forall x ensures x in init <==> x in done - {f} {
      assert x in fs <==> x in init || x == f;
    }
  }

  lemma PackNext(data: Files, max: nat, init: seq<string>, f: string, done: set<string>)
    requires max > 0 && IsDump(data) && f in data && f !in done && (forall d :: d in done ==> d in data)
    requires (forall g :: g in init ==> g in data) && PackedSome(data, max, done, ExecAll(data, SplitAllOps(data, max, init)))
    ensures forall g :: g in init + [f] ==> g in data
    ensures PackedSome(data, max, done + {f}, ExecAll(data, SplitAllOps(data, max, init + [f])))
  {
    PackStep(data, max, done, ExecAll(data, SplitAllOps(data, max, init)), f);
    ExecNextSplit(data, max, init, f);
  }

  lemma ExecNextSplit(data: Files, max: nat, init: seq<string>, f: string)
    requires max > 0 && f in data && forall g :: g in init ==> g in data
    requires var before := ExecAll(data, SplitAllOps(data, max, init)); f in before && before[f] == data[f]
    ensures forall g :: g in init + [f] ==> g in data
    ensures ExecAll(data, SplitAllOps(data, max, init + [f]))
            == AfterSplit(ExecAll(data, SplitAllOps(data, max, init)), f, max)
  {
    assert (init + [f])[..|init|] == init;
    ExecAppend(data, SplitAllOps(data, max, init), SplitOps(f, data[f], max));
    ExecSplit(ExecAll(data, SplitAllOps(data, max, init)), f, max);
  }
}
