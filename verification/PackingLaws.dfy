// The round trip of a backup directory: what is packed verifies and reassembles
// to the bytes of the dump, and can be verified again exactly when nothing was split.
module PackingLaws {
  import opened Wrappers
  import opened PartNames
  import opened FileTree
  import opened Splitter
  import opened PartJoins
  import opened Assembler
  import opened Checksums
  import opened Packing

  // The files kept beside the dump: the checksum file and the metadata.
  ghost predicate IsBeside(data: Files, extra: Files) {
    && (forall p :: p in extra ==> !IsPart(p) && p !in data)
    && (forall p, f :: p in extra && f in data ==> !(f + "/" <= p))
  }

  lemma StoredPart(data: Files, max: nat, files: Files, extra: Files, p: string)
    requires max > 0 && IsDump(data) && IsBeside(data, extra) && Packed(data, max, files) && IsPart(p)
    ensures Lookup(files + extra, p) == if OrigOf(p) in ToSplit(data, max) then PieceAt(data, max, p) else None
  {
    assert Lookup(files, p) == if p in ToSplit(data, max) then None
      else if IsPart(p) && OrigOf(p) in ToSplit(data, max) then PieceAt(data, max, p) else Lookup(data, p);
  }

  lemma StoredWhole(data: Files, max: nat, files: Files, extra: Files, p: string)
    requires max > 0 && IsDump(data) && IsBeside(data, extra) && Packed(data, max, files) && !IsPart(p)
    ensures Lookup(files + extra, p) == if p in ToSplit(data, max) then None else Lookup(data + extra, p)
  {
    assert Lookup(files, p) == if p in ToSplit(data, max) then None else Lookup(data, p);
  }

  // Every part stored is a printed one, of a file of the dump.
  lemma StoredIsSettled(data: Files, max: nat, files: Files, extra: Files)
    requires max > 0 && IsDump(data) && IsBeside(data, extra) && Packed(data, max, files)
    ensures Settled(files + extra) && forall o :: HasParts(files + extra, o) ==> !IsPart(o)
  {
    var stored := files + extra;
    forall p | p in stored && IsPart(p)
      ensures OrigOf(p) in ToSplit(data, max) && p == PartName(OrigOf(p), PartNumber(p))
    {
      StoredPart(data, max, files, extra, p);
    }
    forall p, q | SameNumber(stored, p, q) ensures p == q {
    }
  }

  // No file is stored under the name of a split one as a directory.
  lemma StoredUnderNoFile(data: Files, max: nat, files: Files, extra: Files, f: string)
    requires max > 0 && IsDump(data) && IsBeside(data, extra) && Packed(data, max, files) && f in data
    ensures !NamesDirectory(files + extra, f)
  {
    var stored := files + extra;
    forall q | q in stored ensures !(f + "/" <= q) {
      if IsPart(q) {
        StoredPart(data, max, files, extra, q);
        if f + "/" <= q {
          PartIsBesideOrig(q, f);
        }
      } else {
        StoredWhole(data, max, files, extra, q);
        assert q in data ==> !(f + "/" <= q);
      }
    }
  }

  function PartList(f: string, n: nat): seq<string> {
    seq(n, i requires 0 <= i < n => PartName(f, i + 1))
  }

  // A split file has exactly its printed parts, and sorting them by number
  // gives them in the order they were cut, past part 999 too.
  lemma PartsOfSplit(data: Files, max: nat, files: Files, extra: Files, f: string)
    requires max > 0 && IsDump(data) && IsBeside(data, extra) && Packed(data, max, files) && f in ToSplit(data, max)
    ensures Ordered(files + extra, f, PartList(f, |Chunks(data[f], max)|))
    ensures Joined(files + extra, PartList(f, |Chunks(data[f], max)|)) == data[f]
    ensures HasParts(files + extra, f)
  {
    var pieces := Chunks(data[f], max);
    var ps := PartList(f, |pieces|);
    PrintedParts(data, max, files, extra, f, ps, pieces);
    NoOtherParts(data, max, files, extra, f, ps);
    ListIsOrdered(files + extra, f, ps, pieces);
    JoinedPieces(files + extra, f, ps, pieces);
    ChunksPartition(data[f], max);
    assert ps[0] in files + extra;
  }

  // p is the part of f with number i + 1, and holds the piece.
  ghost predicate PrintedPart(files: Files, f: string, p: string, i: nat, piece: Bytes) {
    IsPartOf(p, f) && PartNumber(p) == i + 1 && p in files && files[p] == piece
  }

  lemma PrintedParts(data: Files, max: nat, files: Files, extra: Files, f: string, ps: seq<string>, pieces: seq<Bytes>)
    requires max > 0 && IsDump(data) && IsBeside(data, extra) && Packed(data, max, files) && f in ToSplit(data, max)
    requires pieces == Chunks(data[f], max) && ps == PartList(f, |pieces|)
    ensures forall i :: 0 <= i < |ps| ==> PrintedPart(files + extra, f, ps[i], i, pieces[i])
  {
    var stored := files + extra;
    forall i | 0 <= i < |ps| ensures PrintedPart(stored, f, ps[i], i, pieces[i]) {
      PartAt(data, max, files, extra, f, i);
      assert Lookup(stored, ps[i]) == Some(pieces[i]);
    }
  }

  lemma NoOtherParts(data: Files, max: nat, files: Files, extra: Files, f: string, ps: seq<string>)
    requires max > 0 && IsDump(data) && IsBeside(data, extra) && Packed(data, max, files) && f in ToSplit(data, max)
    requires ps == PartList(f, |Chunks(data[f], max)|)
    ensures forall p :: p in files + extra && IsPartOf(p, f) ==> p in ps
  {
    forall p | p in files + extra && IsPartOf(p, f) ensures p in ps {
      OnlyPrintedParts(data, max, files, extra, f, p);
    }
  }

  lemma ListIsOrdered(files: Files, f: string, ps: seq<string>, pieces: seq<Bytes>)
    requires |ps| == |pieces| && forall i :: 0 <= i < |ps| ==> PrintedPart(files, f, ps[i], i, pieces[i])
    requires forall p :: p in files && IsPartOf(p, f) ==> p in ps
    ensures Ordered(files, f, ps)
  {
  }

  lemma PrintedIsListed(f: string, n: nat, count: nat)
    ensures 1 <= n <= count ==> PartName(f, n) in PartList(f, count)
  {
    if 1 <= n <= count {
      assert PartList(f, count)[n - 1] == PartName(f, n);
    }
  }

  lemma OnlyPrintedParts(data: Files, max: nat, files: Files, extra: Files, f: string, p: string)
    requires max > 0 && IsDump(data) && IsBeside(data, extra) && Packed(data, max, files) && f in ToSplit(data, max)
    requires p in files + extra && IsPartOf(p, f)
    ensures p in PartList(f, |Chunks(data[f], max)|)
  {
    StoredPart(data, max, files, extra, p);
    PrintedIsListed(f, PartNumber(p), |Chunks(data[f], max)|);
  }

  lemma JoinedPieces(files: Files, f: string, ps: seq<string>, pieces: seq<Bytes>)
    requires |ps| == |pieces| && forall i :: 0 <= i < |ps| ==> PrintedPart(files, f, ps[i], i, pieces[i])
    ensures (forall p :: p in ps ==> p in files) && Joined(files, ps) == Concat(pieces)
  {
    assert seq(|ps|, i requires 0 <= i < |ps| => files[ps[i]]) == pieces;
  }

  lemma PartAt(data: Files, max: nat, files: Files, extra: Files, f: string, i: nat)
    requires max > 0 && IsDump(data) && IsBeside(data, extra) && Packed(data, max, files) && f in ToSplit(data, max)
    requires i < |Chunks(data[f], max)|
    ensures var p := PartName(f, i + 1);
            IsPartOf(p, f) && PartNumber(p) == i + 1 && Lookup(files + extra, p) == Some(Chunks(data[f], max)[i])
  {
    PartNameParses(f, i + 1);
    StoredPart(data, max, files, extra, PartName(f, i + 1));
  }

  lemma SplitIff(data: Files, max: nat, files: Files, extra: Files, f: string)
    requires max > 0 && IsDump(data) && IsBeside(data, extra) && Packed(data, max, files)
    ensures HasParts(files + extra, f) <==> f in ToSplit(data, max)
  {
    if f in ToSplit(data, max) {
      PartsOfSplit(data, max, files, extra, f);
    } else {
      forall p | IsPartOf(p, f) ensures p !in files + extra {
        StoredPart(data, max, files, extra, p);
      }
    }
  }

  // The packed directory can be assembled against its own manifest.
  lemma PackedIsAssemblable(hash: Bytes -> string, data: Files, max: nat, files: Files, extra: Files, manifest: seq<SplitInfo>)
    requires max > 0 && IsDump(data) && IsBeside(data, extra) && Packed(data, max, files)
    requires Describes(hash, data, max, ToSplit(data, max), manifest)
    ensures Settled(files + extra) && Assemblable(hash, files + extra, ManifestOf(manifest))
  {
    StoredIsSettled(data, max, files, extra);
    var m := ManifestOf(manifest);
    forall p | p in files + extra && IsPart(p) ensures !NamesDirectory(files + extra, OrigOf(p)) {
      StoredPart(data, max, files, extra, p);
      StoredUnderNoFile(data, max, files, extra, OrigOf(p));
    }
    forall f | f in m ensures f in ToSplit(data, max) && m[f] == EntryFor(hash, data, max, f) {
      assert m[f] in manifest;
    }
    forall f | f in m
      ensures HasParts(files + extra, f)
      ensures exists ps :: Ordered(files + extra, f, ps) && |ps| == m[f].parts && Matches(hash, Joined(files + extra, ps), m[f])
    {
      PartsOfSplit(data, max, files, extra, f);
      assert |PartList(f, |Chunks(data[f], max)|)| == m[f].parts;
    }
  }

  // Whatever the assembler makes of the packed directory, it is the dump, byte
  // for byte, beside the checksum file and the metadata.
  lemma AssemblyRestoresDump(data: Files, max: nat, files: Files, extra: Files, out: Files)
    requires max > 0 && IsDump(data) && IsBeside(data, extra) && Packed(data, max, files)
    requires AssembledTo(files + extra, out)
    ensures out == data + extra
  {
    StoredIsSettled(data, max, files, extra);
    forall p ensures Lookup(out, p) == Lookup(data + extra, p) {
      SplitIff(data, max, files, extra, p);
      if p in ToSplit(data, max) {
        PartsOfSplit(data, max, files, extra, p);
        assert JoinsTo(files + extra, p, data[p]);
        JoinIsUnique(files + extra, p, out[p], data[p]);
      } else if !IsPart(p) {
        StoredWhole(data, max, files, extra, p);
      }
    }
    forall p ensures p in out <==> p in data + extra {
      assert Lookup(out, p) == Lookup(data + extra, p);
    }
    forall p | p in out ensures out[p] == (data + extra)[p] {
      assert Lookup(out, p) == Lookup(data + extra, p);
    }
  }

  // A part is never one of the files the checksum file leaves out.
  lemma PartsAreRecorded(f: string, n: nat)
    ensures Recorded(PartName(f, n))
  {
    var p := PartName(f, n);
    var last := p[|p| - 1];
    assert last == Pad3(n)[|Pad3(n)| - 1] && IsDigit(last);
    BaseNameEnd(p);
    assert SUMS[|SUMS| - 1] == 'S' && METADATA[|METADATA| - 1] == 'n' && (METADATA + ".tmp")[|METADATA| + 3] == 'p';
  }

  lemma BaseNameEnd(p: string)
    requires p != "" && p[|p| - 1] != '/'
    ensures BaseName(p) != "" && BaseName(p)[|BaseName(p)| - 1] == p[|p| - 1]
  {
    var i := LastIndex(p, "/");
    if i >= 0 {
      assert p[i..i + 1][0] == '/';
    }
  }

  // The files a checksum file made from `files` holds against.
  ghost predicate Holds(hash: Bytes -> string, files: Files, tree: Files) {
    forall p :: p in files && Recorded(p) ==> p in tree && hash(tree[p]) == hash(files[p])
  }

  // With the checksums of the packed files: the stored directory verifies, and
  // the reassembled one does exactly when no file was split, because the parts
  // that the checksums record are gone.
  lemma VerifiesAgainIffUnsplit(hash: Bytes -> string, data: Files, max: nat, files: Files, extra: Files)
    requires max > 0 && IsDump(data) && IsBeside(data, extra) && Packed(data, max, files)
    requires forall p :: p in extra ==> !Recorded(p)
    ensures Holds(hash, files, files + extra)
    ensures Holds(hash, files, data + extra) <==> ToSplit(data, max) == {}
  {
    if f :| f in ToSplit(data, max) {
      FirstPartIsRecorded(data, max, files, f);
    } else {
      forall p | p in files && Recorded(p) ensures p in data && data[p] == files[p] {
        assert Lookup(files, p) == Lookup(data, p);
      }
    }
  }

  lemma FirstPartIsRecorded(data: Files, max: nat, files: Files, f: string)
    requires max > 0 && IsDump(data) && Packed(data, max, files) && f in ToSplit(data, max)
    ensures var p := PartName(f, 1); p in files && Recorded(p) && IsPart(p)
  {
    PartAt(data, max, files, map[], f, 0);
    assert files + map[] == files;
    PartsAreRecorded(f, 1);
  }

  // A part's name ends in a digit.
  lemma NoPart(p: string)
    requires p != "" && !IsDigit(p[|p| - 1])
    ensures !IsPart(p)
  {
    forall i | 0 <= i < |p| ensures !PartMatchAt(p, i) {
      if |p| - (i + 5) >= 3 {
        assert p[i + 5..][|p| - i - 6] == p[|p| - 1];
      }
    }
  }

  lemma SlashIn(p: string, dir: string)
    requires dir + "/" <= p
    ensures '/' in p
  {
    assert p[|dir|] == (dir + "/")[|dir|] == '/';
  }

  // The reserved files are not parts and not recorded.
  lemma ReservedNames(data: Files, extra: Files)
    requires extra.Keys == {SUMS, METADATA} && SUMS !in data && METADATA !in data
    ensures IsBeside(data, extra) && forall p :: p in extra ==> !Recorded(p)
  {
    forall p | p in {SUMS, METADATA} ensures !IsPart(p) && !Recorded(p) {
      NoPart(p);
      forall j ensures !MatchesAt(p, "/", j) {
        assert 0 <= j < |p| ==> p[j..j + 1][0] == p[j];
      }
      assert LastIndex(p, "/") == -1;
    }
    forall p, f | p in extra && f in data ensures !(f + "/" <= p) {
      if f + "/" <= p {
        SlashIn(p, f);
        assert false;
      }
    }
  }

  // A finished backup directory: the packed dump, its checksums and its metadata.
  ghost predicate Finished(hash: Bytes -> string, data: Files, max: nat, files: Files, extra: Files, manifest: seq<SplitInfo>) {
    && max > 0 && IsDump(data) && Packed(data, max, files)
    && Describes(hash, data, max, ToSplit(data, max), manifest)
    && extra.Keys == {SUMS, METADATA} && SUMS !in data && METADATA !in data
    && forall tree: Files :: (forall l :: l in Lines(extra[SUMS]) ==> LineHolds(hash, tree, l)) <==> Holds(hash, files, tree)
  }

  ghost function MaxBytes(splitSizeMB: nat): (max: nat)
    ensures max > 0
  {
    if splitSizeMB == 0 then MAX_INT64 else splitSizeMB * 1024 * 1024
  }

  // The operations of a backup after the dump: split, checksums, metadata.
  function StoreOps(data: Files, max: nat, fs: seq<string>, lines: seq<string>, metadata: Bytes): seq<FileOp>
    requires max > 0 && forall f :: f in fs ==> f in data
  {
    SplitAllOps(data, max, fs) + ReplaceOps(SUMS, Content(lines)) + ReplaceOps(METADATA, metadata)
  }

  // The file steps of CreateBackup after the dump: split, write checksums, write
  // the metadata, which records the split files.
  method StoreFiles(hash: Bytes -> string, tree: Tree, splitSizeMB: nat, encode: seq<SplitInfo> -> Bytes)
    returns (manifest: seq<SplitInfo>, ghost files: Files, ghost extra: Files, ghost fs: seq<string>, ghost lines: seq<string>)
    requires HexDigest(hash) && IsDump(tree.files) && forall p :: p in tree.files ==> OneLine(p)
    requires forall p :: p in {SUMS, METADATA, SUMS + ".tmp", METADATA + ".tmp"} ==> p !in tree.files
    modifies tree
    ensures Finished(hash, old(tree.files), MaxBytes(splitSizeMB), files, extra, manifest)
    ensures tree.files == files + extra && extra == map[SUMS := Content(lines), METADATA := encode(manifest)]
    ensures ListsSplit(old(tree.files), MaxBytes(splitSizeMB), fs)
    ensures manifest == ManifestFor(hash, old(tree.files), MaxBytes(splitSizeMB), fs)
    ensures tree.log == old(tree.log) + StoreOps(old(tree.files), MaxBytes(splitSizeMB), fs, lines, encode(manifest))
  {
    ghost var data, max, log := tree.files, MaxBytes(splitSizeMB), tree.log;
    manifest, fs := PackFiles(hash, tree, splitSizeMB);
    files := tree.files;
    PackedHasNoTemp(data, max, files);
    var sums := new ChecksumFile(hash);
    lines := sums.WriteChecksums(tree);
    tree.Replace(METADATA, encode(manifest));
    extra := map[SUMS := Content(lines), METADATA := encode(manifest)];
    WholeLog(log, SplitAllOps(data, max, fs), ReplaceOps(SUMS, Content(lines)), ReplaceOps(METADATA, encode(manifest)));
    StoredIsFinished(hash, data, max, files, lines, encode(manifest), manifest);
    StoredFiles(files, Content(lines), encode(manifest));
  }

  lemma WholeLog(log: seq<FileOp>, a: seq<FileOp>, b: seq<FileOp>, c: seq<FileOp>)
    ensures log + a + b + c == log + (a + b + c)
  {
  }

  lemma StoredFiles(files: Files, sums: Bytes, metadata: Bytes)
    requires SUMS + ".tmp" !in files && METADATA + ".tmp" !in files
    ensures (files[SUMS := sums] - {SUMS + ".tmp"})[METADATA := metadata] - {METADATA + ".tmp"}
            == files + map[SUMS := sums, METADATA := metadata]
  {
  }

  method PackFiles(hash: Bytes -> string, tree: Tree, splitSizeMB: nat) returns (manifest: seq<SplitInfo>, ghost fs: seq<string>)
    requires IsDump(tree.files)
    modifies tree
    ensures var data, max := old(tree.files), MaxBytes(splitSizeMB);
            && Packed(data, max, tree.files) && ListsSplit(data, max, fs)
            && manifest == ManifestFor(hash, data, max, fs) && tree.log == old(tree.log) + SplitAllOps(data, max, fs)
    ensures Describes(hash, old(tree.files), MaxBytes(splitSizeMB), ToSplit(old(tree.files), MaxBytes(splitSizeMB)), manifest)
  {
    NothingToSplit(hash, tree.files);
    var packer := new Packer(hash);
    manifest, fs := packer.SplitLargeFiles(tree, splitSizeMB);
  }

  lemma StoredIsFinished(hash: Bytes -> string, data: Files, max: nat, files: Files, lines: seq<string>, metadata: Bytes,
                         manifest: seq<SplitInfo>)
    requires HexDigest(hash) && max > 0 && IsDump(data) && Packed(data, max, files)
    requires forall p :: p in data ==> OneLine(p)
    requires SUMS !in data && METADATA !in data
    requires Describes(hash, data, max, ToSplit(data, max), manifest)
    requires Records(lines, map p | p in files && Recorded(p) :: hash(files[p]))
    ensures Finished(hash, data, max, files, map[SUMS := Content(lines), METADATA := metadata], manifest)
  {
    forall t: Files ensures (forall l :: l in Lines(Content(lines)) ==> LineHolds(hash, t, l)) <==> Holds(hash, files, t) {
      VerifyStored(hash, data, max, files, lines, t);
    }
  }

  // The file steps of a restore from a finished directory: verify, reassemble.
  // The dump comes back byte for byte; and verification of what is left in the
  // directory, as a second restore from it starts with, passes exactly when nothing
  // had been split.
  method RestoreFiles(hash: Bytes -> string, tree: Tree, manifest: seq<SplitInfo>,
                      ghost data: Files, ghost max: nat, ghost files: Files, ghost extra: Files)
    returns (verified: VerifyResult, failed: Option<AssembleError>, again: VerifyResult)
    requires Finished(hash, data, max, files, extra, manifest) && tree.files == files + extra
    modifies tree
    ensures verified == Intact && failed == None && tree.files == data + extra
    ensures again == if ToSplit(data, max) == {} then Intact else Broken
  {
    ReservedNames(data, extra);
    VerifiesAgainIffUnsplit(hash, data, max, files, extra);
    var sums := new ChecksumFile(hash);
    verified := sums.VerifyChecksums(tree);
    PackedIsAssemblable(hash, data, max, files, extra, manifest);
    var assembler := new FileAssembler(hash);
    failed := assembler.AssembleFiles(tree, manifest);
    AssemblyRestoresDump(data, max, files, extra, tree.files);
    again := sums.VerifyChecksums(tree);
  }

  // Without splitting, the directory is packed for the largest size there is.
  lemma NothingToSplit(hash: Bytes -> string, data: Files)
    requires IsDump(data)
    ensures ToSplit(data, MAX_INT64) == {} && Packed(data, MAX_INT64, data) && ListsSplit(data, MAX_INT64, [])
    ensures Describes(hash, data, MAX_INT64, {}, [])
  {
  }

  lemma PackedHasNoTemp(data: Files, max: nat, files: Files)
    requires max > 0 && IsDump(data) && Packed(data, max, files)
    requires forall p :: p in {SUMS, METADATA, SUMS + ".tmp", METADATA + ".tmp"} ==> p !in data
    ensures forall p :: p in {SUMS, METADATA, SUMS + ".tmp", METADATA + ".tmp"} ==> p !in files
  {
    forall p | p in files && !IsPart(p) ensures p in data {
      assert Lookup(files, p) == if p in ToSplit(data, max) then None else Lookup(data, p);
    }
    forall p | p in {SUMS, METADATA, SUMS + ".tmp", METADATA + ".tmp"} ensures !IsPart(p) {
      NoPart(p);
    }
  }

  // The checksum file written over the packed files holds on a tree exactly
  // when the tree has all of them that are recorded, with the same hashes.
  lemma VerifyStored(hash: Bytes -> string, data: Files, max: nat, files: Files, lines: seq<string>, tree: Files)
    requires HexDigest(hash) && max > 0 && IsDump(data) && Packed(data, max, files)
    requires forall p :: p in data ==> OneLine(p)
    requires Records(lines, map p | p in files && Recorded(p) :: hash(files[p]))
    ensures (forall l :: l in Lines(Content(lines)) ==> LineHolds(hash, tree, l)) <==> Holds(hash, files, tree)
  {
    var recorded := map p | p in files && Recorded(p) :: hash(files[p]);
    forall p | p in recorded ensures IsHash(recorded[p]) && OneLine(p) {
      PackedIsOneLine(data, max, files, p);
    }
    VerifyIff(hash, lines, recorded, tree);
  }

  lemma PackedIsOneLine(data: Files, max: nat, files: Files, p: string)
    requires max > 0 && IsDump(data) && Packed(data, max, files) && p in files
    requires forall f :: f in data ==> OneLine(f)
    ensures OneLine(p)
  {
    assert Lookup(files, p) == if p in ToSplit(data, max) then None
      else if IsPart(p) && OrigOf(p) in ToSplit(data, max) then PieceAt(data, max, p) else Lookup(data, p);
    if p !in data {
      PartNameIsOneLine(OrigOf(p), PartNumber(p));
    }
  }

  lemma PartNameIsOneLine(f: string, n: nat)
    requires OneLine(f)
    ensures OneLine(PartName(f, n))
  {
    var p := PartName(f, n);
    forall i | 0 <= i < |p| ensures p[i] != '\n' {
      assert p[i] == if i < |f| then f[i] else if i < |f| + 5 then SUFFIX[i - |f|] else Pad3(n)[i - |f| - 5];
      assert i >= |f| + 5 ==> IsDigit(p[i]);
    }
  }
}
