// The files under one backup directory, and the file operations on them one by
// one, fine enough to crash anywhere in between.
module FileTree {
  // File contents, one char per byte, as Go's strings and byte slices are.
  type Bytes = string

  // The regular files under one directory, by relative path.
  type Files = map<string, Bytes>

  datatype FileOp = WriteFile(path: string, content: Bytes) | RemoveFile(path: string) | RenameFile(from: string, to: string)

  function Exec(files: Files, op: FileOp): Files {
    match op
    case WriteFile(path, content) => files[path := content]
    case RemoveFile(path) => files - {path}
    case RenameFile(from, to) => if from in files then (files - {from})[to := files[from]] else files
  }

  function ExecAll(files: Files, ops: seq<FileOp>): Files {
    if ops == [] then files else Exec(ExecAll(files, ops[..|ops| - 1]), ops[|ops| - 1])
  }

  // Creating a file and writing its content, byte after byte.
  function WriteOps(path: string, content: Bytes): (ops: seq<FileOp>)
    ensures ops != []
    ensures forall op :: op in ops ==> op.WriteFile? && op.path == path
  {
    seq(|content| + 1, i requires 0 <= i <= |content| => WriteFile(path, content[..i]))
  }

  // Writing a file under a temporary name and renaming it into place.
  function ReplaceOps(path: string, content: Bytes): seq<FileOp> {
    WriteOps(path + ".tmp", content) + [RenameFile(path + ".tmp", path)]
  }

  lemma {:induction false} ExecAppend(files: Files, a: seq<FileOp>, b: seq<FileOp>)
    ensures ExecAll(files, a + b) == ExecAll(ExecAll(files, a), b)
    decreases |b|
  {
    if b == [] {
      assert a + b == a;
    } else {
      var n := |b| - 1;
      ExecAppend(files, a, b[..n]);
      assert (a + b)[..|a| + n] == a + b[..n];
    }
  }

  lemma {:induction false} ExecWrites(files: Files, path: string, content: Bytes, n: nat)
    requires n <= |content|
    ensures ExecAll(files, WriteOps(path, content)[..n + 1]) == files[path := content[..n]]
  {
    var ops := WriteOps(path, content);
    assert ops[..n + 1][..n] == ops[..n];
    if n == 0 {
      assert ExecAll(files, ops[..0]) == files;
    } else {
      ExecWrites(files, path, content, n - 1);
    }
  }

  lemma ExecWrite(files: Files, path: string, content: Bytes)
    ensures ExecAll(files, WriteOps(path, content)) == files[path := content]
  {
    ExecWrites(files, path, content, |content|);
    assert WriteOps(path, content)[..|content| + 1] == WriteOps(path, content);
    assert content[..|content|] == content;
  }

  lemma ExecReplace(files: Files, path: string, content: Bytes)
    ensures ExecAll(files, ReplaceOps(path, content)) == files[path := content] - {path + ".tmp"}
  {
    var ops := ReplaceOps(path, content);
    ExecWrite(files, path + ".tmp", content);
    assert ops[..|ops| - 1] == WriteOps(path + ".tmp", content);
    assert (files[path + ".tmp" := content] - {path + ".tmp"})[path := content] == files[path := content] - {path + ".tmp"};
  }

  class Tree {
    var files: Files
    // Every operation of a backup on this directory.
    ghost var log: seq<FileOp>

    constructor (files: Files)
      ensures this.files == files && log == []
    {
      this.files, log := files, [];
    }

    method Create(path: string, content: Bytes)
      modifies this
      ensures files == old(files)[path := content] && log == old(log) + WriteOps(path, content)
    {
      files, log := files[path := content], log + WriteOps(path, content);
    }

    method Delete(path: string)
      modifies this
      ensures files == old(files) - {path} && log == old(log) + [RemoveFile(path)]
    {
      files, log := files - {path}, log + [RemoveFile(path)];
    }

    method Replace(path: string, content: Bytes)
      modifies this
      ensures files == old(files)[path := content] - {path + ".tmp"} && log == old(log) + ReplaceOps(path, content)
    {
      files := files[path + ".tmp" := content];
      files := (files - {path + ".tmp"})[path := files[path + ".tmp"]];
      log := log + ReplaceOps(path, content);
      assert files == old(files)[path := content] - {path + ".tmp"};
    }
  }
}
