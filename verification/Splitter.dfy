// Splitting large files into numbered parts.
module Splitter {
  import opened Wrappers
  import opened PartNames
  import opened FileTree
  import opened Arithmetic

  // The pieces CopyN cuts off a stream.
  function Chunks(content: Bytes, max: nat): (r: seq<Bytes>)
    requires max > 0
    ensures |r| <= |content|
    ensures r == [] <==> content == []
    decreases |content|
  {
    if content == [] then []
    else if |content| <= max then [content]
    else [content[..max]] + Chunks(content[max..], max)
  }

  function Concat(pieces: seq<Bytes>): Bytes {
    if pieces == [] then [] else pieces[0] + Concat(pieces[1..])
  }

  lemma {:induction false} ConcatSnoc(pieces: seq<Bytes>, last: Bytes)
    ensures Concat(pieces + [last]) == Concat(pieces) + last
  {
    if pieces == [] {
      assert [last][1..] == [];
    } else {
      ConcatSnoc(pieces[1..], last);
      assert (pieces + [last])[1..] == pieces[1..] + [last];
    }
  }

  // Splitting loses nothing, and only the last piece may be short.
  lemma {:induction false} ChunksPartition(content: Bytes, max: nat)
    requires max > 0
    ensures var r := Chunks(content, max);
            && Concat(r) == content
            && (forall i :: 0 <= i < |r| - 1 ==> |r[i]| == max)
            && (r != [] ==> 0 < |r[|r| - 1]| <= max)
    decreases |content|
  {
    if content == [] {
    } else if |content| <= max {
      assert [content][1..] == [];
      assert Concat([content]) == content + Concat([]);
    } else {
      var rest := Chunks(content[max..], max);
      ChunksPartition(content[max..], max);
      assert ([content[..max]] + rest)[1..] == rest;
    }
  }

  // There are ceil(size / max) pieces.
  lemma {:induction false} ChunkCount(content: Bytes, max: nat)
    requires max > 0
    ensures |Chunks(content, max)| == (|content| + max - 1) / max
    decreases |content|
  {
    if content == [] {
      DivModUnique(max - 1, 0, max - 1, max);
    } else if |content| <= max {
      DivModUnique(|content| + max - 1, 1, |content| - 1, max);
    } else {
      ChunkCount(content[max..], max);
      NextQuotient(|content| - 1, max);
    }
  }

  lemma NextQuotient(x: int, n: int)
    requires n > 0
    ensures (x + n) / n == x / n + 1
  {
    assert (x / n + 1) * n == (x / n) * n + n;
    DivModUnique(x + n, x / n + 1, x % n, n);
  }

  // The tree with the parts 1..|pieces| of `file` written into it.
  function WithParts(files: Files, file: string, pieces: seq<Bytes>): Files {
    if pieces == [] then files
    else WithParts(files, file, pieces[..|pieces| - 1])[PartName(file, |pieces|) := pieces[|pieces| - 1]]
  }

  // The content is a whole number of full pieces.
  predicate WholePieces(content: Bytes, max: nat)
    requires max > 0
    decreases |content|
  {
    content == [] || (|content| >= max && WholePieces(content[max..], max))
  }

  // A whole number of pieces makes the loop open one part more, find it
  // empty, and remove it again.
  function AfterSplit(files: Files, file: string, max: nat): Files
    requires file in files && max > 0
  {
    var pieces := Chunks(files[file], max);
    var written := WithParts(files, file, pieces);
    (if WholePieces(files[file], max) then written - {PartName(file, |pieces| + 1)} else written) - {file}
  }

  function PartOps(file: string, pieces: seq<Bytes>): seq<FileOp> {
    if pieces == [] then []
    else PartOps(file, pieces[..|pieces| - 1]) + WriteOps(PartName(file, |pieces|), pieces[|pieces| - 1])
  }

  // The last part of a whole number of pieces is created, and removed again.
  function ExtraOps(file: string, content: Bytes, max: nat): seq<FileOp>
    requires max > 0
  {
    var extra := PartName(file, |Chunks(content, max)| + 1);
    if WholePieces(content, max) then WriteOps(extra, "") + [RemoveFile(extra)] else []
  }

  // Everything the splitter does to the directory.
  function SplitOps(file: string, content: Bytes, max: nat): seq<FileOp>
    requires max > 0
  {
    PartOps(file, Chunks(content, max)) + ExtraOps(file, content, max) + [RemoveFile(file)]
  }

  lemma {:induction false} ExecParts(files: Files, file: string, pieces: seq<Bytes>)
    ensures ExecAll(files, PartOps(file, pieces)) == WithParts(files, file, pieces)
  {
    if pieces != [] {
      var n := |pieces| - 1;
      ExecParts(files, file, pieces[..n]);
      ExecAppend(files, PartOps(file, pieces[..n]), WriteOps(PartName(file, n + 1), pieces[n]));
      ExecWrite(WithParts(files, file, pieces[..n]), PartName(file, n + 1), pieces[n]);
    }
  }

  lemma ExecExtra(files: Files, file: string, content: Bytes, max: nat)
    requires max > 0
    ensures ExecAll(files, ExtraOps(file, content, max))
            == if WholePieces(content, max) then files - {PartName(file, |Chunks(content, max)| + 1)} else files
  {
    var extra := PartName(file, |Chunks(content, max)| + 1);
    if WholePieces(content, max) {
      ExecWrite(files, extra, "");
      ExecAppend(files, WriteOps(extra, ""), [RemoveFile(extra)]);
      ExecOne(files[extra := ""], RemoveFile(extra));
      assert files[extra := ""] - {extra} == files - {extra};
    }
  }

  lemma ExecOne(files: Files, op: FileOp)
    ensures ExecAll(files, [op]) == Exec(files, op)
  {
    assert [op][..0] == [];
  }

  // The operations of the splitter, one after the other, leave the parts.
  lemma ExecSplit(files: Files, file: string, max: nat)
    requires file in files && max > 0
    ensures ExecAll(files, SplitOps(file, files[file], max)) == AfterSplit(files, file, max)
  {
    var content := files[file];
    var parts, extra := PartOps(file, Chunks(content, max)), ExtraOps(file, content, max);
    ExecParts(files, file, Chunks(content, max));
    ExecAppend(files, parts, extra);
    ExecExtra(WithParts(files, file, Chunks(content, max)), file, content, max);
    ExecAppend(files, parts + extra, [RemoveFile(file)]);
    ExecOne(ExecAll(files, parts + extra), RemoveFile(file));
  }

  lemma {:induction false} WithPartsLookup(files: Files, file: string, pieces: seq<Bytes>, p: string)
    requires |pieces| <= MAX_INT64
    ensures var n := PartNumber(p);
            Lookup(WithParts(files, file, pieces), p) ==
              if 1 <= n <= |pieces| && p == PartName(file, n) then Some(pieces[n - 1]) else Lookup(files, p)
    decreases |pieces|
  {
    if pieces != [] {
      WithPartsLookup(files, file, pieces[..|pieces| - 1], p);
      PartNameParses(file, |pieces|);
    }
  }

  class FileSplitter {
    const maxBytes: nat

    constructor (maxSizeMB: nat)
      requires maxSizeMB > 0
      ensures maxBytes == maxSizeMB * 1024 * 1024 && maxBytes > 0
    {
      maxBytes := maxSizeMB * 1024 * 1024;
    }

    // The number of parts, or None when the file cannot be opened.
    method SplitFile(tree: Tree, file: string) returns (parts: Option<nat>)
      requires maxBytes > 0
      modifies tree
      ensures parts.None? <==> file !in old(tree.files)
      ensures parts.None? ==> tree.files == old(tree.files) && tree.log == old(tree.log)
      ensures parts.Some? ==> parts.value == |Chunks(old(tree.files)[file], maxBytes)|
                              && tree.files == AfterSplit(old(tree.files), file, maxBytes)
                              && tree.log == old(tree.log) + SplitOps(file, old(tree.files)[file], maxBytes)
    {
      if file !in tree.files {
        return None;
      }
      var n := WriteParts(tree, file, tree.files[file]);
      tree.Delete(file);
      parts := Some(n);
    }

    method WriteParts(tree: Tree, file: string, content: Bytes) returns (n: nat)
      requires maxBytes > 0
      modifies tree
      ensures n == |Chunks(content, maxBytes)|
      ensures var written := WithParts(old(tree.files), file, Chunks(content, maxBytes));
              tree.files == if WholePieces(content, maxBytes) then written - {PartName(file, n + 1)} else written
      ensures tree.log == old(tree.log) + (PartOps(file, Chunks(content, maxBytes)) + ExtraOps(file, content, maxBytes))
    {
      ghost var files, log := tree.files, tree.log;
      ghost var pieces: seq<Bytes> := [];
      var rest := content;
      n := 0;
      while true
        invariant n == |pieces| && CutSoFar(content, maxBytes, pieces, rest)
        invariant PartsWritten(files, log, file, pieces, tree.files, tree.log)
        decreases |rest|
      {
        ghost var before, logged := tree.files, tree.log;
        var written := CopyPart(tree, file, n, rest);
        if written == 0 {
          EmptyPart(files, log, file, content, maxBytes, pieces, before, logged);
          return;
        }
        CutNext(content, pieces, rest, maxBytes);
        NextPart(files, log, file, pieces, rest[..written], before, logged);
        pieces := pieces + [rest[..written]];
        n := n + 1;
        rest := rest[written..];
        if written < maxBytes {
          assert PartOps(file, pieces) + [] == PartOps(file, pieces);
          return;
        }
      }
    }

    // Create the next part and copy into it; a part that stays empty is removed again.
    method CopyPart(tree: Tree, file: string, n: nat, rest: Bytes) returns (written: nat)
      modifies tree
      ensures written == if |rest| < maxBytes then |rest| else maxBytes
      ensures var name := PartName(file, n + 1);
              tree.files == (if written == 0 then old(tree.files) - {name} else old(tree.files)[name := rest[..written]])
              && tree.log == old(tree.log)
                             + if written == 0 then WriteOps(name, "") + [RemoveFile(name)] else WriteOps(name, rest[..written])
    {
      var name := PartName(file, n + 1);
      written := if |rest| < maxBytes then |rest| else maxBytes;
      tree.Create(name, rest[..written]);
      if written == 0 {
        Assoc(old(tree.log), WriteOps(name, ""), [RemoveFile(name)]);
        tree.Delete(name);
        assert tree.files == old(tree.files) - {name};
      }
    }
  }

  lemma Assoc<T>(a: seq<T>, b: seq<T>, c: seq<T>)
    ensures (a + b) + c == a + (b + c)
  {
  }

  // These parts have been written since `files` and `log`.
  ghost predicate PartsWritten(files: Files, log: seq<FileOp>, file: string, pieces: seq<Bytes>, now: Files, logged: seq<FileOp>) {
    now == WithParts(files, file, pieces) && logged == log + PartOps(file, pieces)
  }

  lemma NextPart(files: Files, log: seq<FileOp>, file: string, pieces: seq<Bytes>, piece: Bytes, now: Files, logged: seq<FileOp>)
    requires PartsWritten(files, log, file, pieces, now, logged)
    ensures var name := PartName(file, |pieces| + 1);
            PartsWritten(files, log, file, pieces + [piece], now[name := piece], logged + WriteOps(name, piece))
  {
    assert (pieces + [piece])[..|pieces|] == pieces;
    Assoc(log, PartOps(file, pieces), WriteOps(PartName(file, |pieces| + 1), piece));
  }

  lemma EmptyPart(files: Files, log: seq<FileOp>, file: string, content: Bytes, max: nat, pieces: seq<Bytes>,
                  now: Files, logged: seq<FileOp>)
    requires max > 0 && CutSoFar(content, max, pieces, []) && PartsWritten(files, log, file, pieces, now, logged)
    ensures Chunks(content, max) == pieces && WholePieces(content, max)
    ensures var name := PartName(file, |pieces| + 1);
            logged + (WriteOps(name, "") + [RemoveFile(name)]) == log + (PartOps(file, pieces) + ExtraOps(file, content, max))
  {
    AllCut(content, max, pieces);
    Assoc(log, PartOps(file, pieces), ExtraOps(file, content, max));
  }

  // The pieces taken from the stream so far, and what is left of it.
  ghost predicate CutSoFar(content: Bytes, max: nat, pieces: seq<Bytes>, rest: Bytes)
    requires max > 0
  {
    && Chunks(content, max) == pieces + Chunks(rest, max)
    && (WholePieces(content, max) <==> WholePieces(rest, max))
  }

  lemma AllCut(content: Bytes, max: nat, pieces: seq<Bytes>)
    requires max > 0 && CutSoFar(content, max, pieces, [])
    ensures Chunks(content, max) == pieces && WholePieces(content, max)
  {
  }

  // One more piece; a short one is the last.
  lemma CutNext(content: Bytes, pieces: seq<Bytes>, rest: Bytes, max: nat)
    requires max > 0 && rest != [] && CutSoFar(content, max, pieces, rest)
    ensures var n := if |rest| < max then |rest| else max;
            if n < max then Chunks(content, max) == pieces + [rest[..n]] && !WholePieces(content, max)
            else CutSoFar(content, max, pieces + [rest[..n]], rest[n..])
  {
    var piece := if |rest| < max then rest else rest[..max];
    assert rest[..|piece|] == piece;
    Cut(rest, max);
    assert pieces + ([piece] + Chunks(rest[|piece|..], max)) == (pieces + [piece]) + Chunks(rest[|piece|..], max);
  }

  lemma Cut(rest: Bytes, max: nat)
    requires max > 0 && rest != []
    ensures var piece := if |rest| < max then rest else rest[..max];
            Chunks(rest, max) == [piece] + Chunks(rest[|piece|..], max)
  {
    if |rest| <= max {
      assert (if |rest| < max then rest else rest[..max]) == rest;
      assert rest[|rest|..] == [];
    }
  }
}
