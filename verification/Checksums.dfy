// The SHA256SUMS file: printed when a backup is written, parsed when it is verified.
module Checksums {
  import opened PartNames
  import opened FileTree

  const SUMS := "SHA256SUMS"
  const METADATA := "backup_metadata.json"
  const SEPARATOR := "  "

  datatype VerifyResult = Intact | NoChecksums | Broken

  // The first match of `sub` at or after `from`, or -1.
  function FirstMatch(s: string, sub: string, from: nat): (i: int)
    ensures i == -1 || (from <= i && MatchesAt(s, sub, i))
    ensures i == -1 ==> forall j :: from <= j ==> !MatchesAt(s, sub, j)
    ensures i >= 0 ==> forall j :: from <= j < i ==> !MatchesAt(s, sub, j)
    decreases |s| - from
  {
    if from + |sub| > |s| then -1 else if MatchesAt(s, sub, from) then from else FirstMatch(s, sub, from + 1)
  }

  function Join(lines: seq<string>): string {
    if lines == [] then "" else if |lines| == 1 then lines[0] else lines[0] + "\n" + Join(lines[1..])
  }

  function Split(s: string): seq<string>
    decreases |s|
  {
    var i := FirstMatch(s, "\n", 0);
    if i < 0 then [s] else [s[..i]] + Split(s[i + 1..])
  }

  function TrimNewlines(s: string): string {
    if s != "" && s[|s| - 1] == '\n' then TrimNewlines(s[..|s| - 1]) else s
  }

  function SumLine(sum: string, path: string): string { sum + SEPARATOR + path }

  function Content(lines: seq<string>): string {
    var s := Join(lines);
    if s == "" then "" else s + "\n"
  }

  function Lines(content: string): seq<string> { Split(TrimNewlines(content)) }

  function BaseName(path: string): string { path[LastIndex(path, "/") + 1..] }

  // The checksum file and the metadata are not recorded.
  predicate Recorded(path: string) {
    BaseName(path) != SUMS && BaseName(path) != METADATA && BaseName(path) != METADATA + ".tmp"
  }

  // One line of the file, checked against the tree; the first double space
  // separates the hash from the path.
  predicate LineHolds(hash: Bytes -> string, files: Files, line: string) {
    var i := FirstMatch(line, SEPARATOR, 0);
    line == "" || (i >= 0 && line[i + 2..] in files && hash(files[line[i + 2..]]) == line[..i])
  }

  // Hashes print as hexadecimal digits.
  ghost predicate HexDigest(hash: Bytes -> string) {
    forall b :: IsHash(hash(b))
  }

  predicate IsHash(s: string) {
    s != "" && forall i :: 0 <= i < |s| ==> s[i] != ' ' && s[i] != '\n'
  }

  predicate OneLine(path: string) {
    forall i :: 0 <= i < |path| ==> path[i] != '\n'
  }

  lemma NewlineAt(s: string, i: int)
    requires MatchesAt(s, "\n", i)
    ensures s[i] == '\n'
  {
    assert s[i..i + 1][0] == '\n';
  }

  lemma OneLineHasNoBreak(l: string)
    requires OneLine(l)
    ensures FirstMatch(l, "\n", 0) == -1
  {
    var i := FirstMatch(l, "\n", 0);
    if i >= 0 {
      NewlineAt(l, i);
    }
  }

  // The first line of a text.
  lemma FirstBreak(line: string, rest: string)
    requires OneLine(line)
    ensures var s := line + "\n" + rest;
            FirstMatch(s, "\n", 0) == |line| && s[..|line|] == line && s[|line| + 1..] == rest
  {
    var s := line + "\n" + rest;
    var i := FirstMatch(s, "\n", 0);
    assert s[|line|..|line| + 1] == "\n";
    assert MatchesAt(s, "\n", |line|);
    NewlineAt(s, i);
  }

  lemma {:induction false} JoinSplits(lines: seq<string>)
    requires lines != [] && forall l :: l in lines ==> OneLine(l)
    ensures Split(Join(lines)) == lines
  {
    assert OneLine(lines[0]);
    if |lines| == 1 {
      OneLineHasNoBreak(lines[0]);
    } else {
      FirstBreak(lines[0], Join(lines[1..]));
      JoinSplits(lines[1..]);
    }
  }

  lemma {:induction false} JoinEnd(lines: seq<string>)
    requires lines != [] && forall l :: l in lines ==> OneLine(l) && l != ""
    ensures Join(lines) != "" && Join(lines)[|Join(lines)| - 1] != '\n'
  {
    var last := lines[|lines| - 1];
    assert OneLine(last) && last != "";
    if |lines| > 1 {
      JoinEnd(lines[1..]);
    }
  }

  // The file parses back to the lines it was printed from.
  lemma ContentParses(lines: seq<string>)
    requires forall l :: l in lines ==> OneLine(l) && l != ""
    ensures Lines(Content(lines)) == if lines == [] then [""] else lines
  {
    if lines == [] {
      assert FirstMatch("", "\n", 0) == -1;
    } else {
      JoinEnd(lines);
      JoinSplits(lines);
      var s := Join(lines);
      assert (s + "\n")[..|s|] == s;
      assert TrimNewlines(s + "\n") == TrimNewlines(s);
    }
  }

  // A line splits at its first double space, so a path may contain any number of them.
  lemma SumLineParses(sum: string, path: string)
    requires IsHash(sum)
    ensures FirstMatch(SumLine(sum, path), SEPARATOR, 0) == |sum|
    ensures SumLine(sum, path)[|sum| + 2..] == path && SumLine(sum, path)[..|sum|] == sum
  {
    var line := SumLine(sum, path);
    var i := FirstMatch(line, SEPARATOR, 0);
    assert line[|sum|..|sum| + 2] == SEPARATOR;
    assert MatchesAt(line, SEPARATOR, |sum|);
    assert line[i..i + 2][0] == ' ';
  }

  // A line holds if it is empty, or splits at its first double space into the hash
  // and the path of a file that is there; without a double space it never does.
  lemma LineHoldsIff(hash: Bytes -> string, files: Files, line: string)
    ensures LineHolds(hash, files, line) <==>
            line == "" || exists i :: IsFirst(line, "  ", i) && line[i + 2..] in files && hash(files[line[i + 2..]]) == line[..i]
  {
    var i := FirstMatch(line, SEPARATOR, 0);
    if i >= 0 {
      assert IsFirst(line, "  ", i);
    }
  }

  predicate IsFirst(s: string, sub: string, i: int) {
    MatchesAt(s, sub, i) && forall j :: 0 <= j < i ==> !MatchesAt(s, sub, j)
  }

  // The lines that record a set of files with their hashes, in some order.
  ghost predicate Records(lines: seq<string>, recorded: map<string, string>) {
    && (forall l :: l in lines ==> exists p :: p in recorded && l == SumLine(recorded[p], p))
    && (forall p :: p in recorded ==> SumLine(recorded[p], p) in lines)
  }

  // Verification of any later tree against a printed file succeeds exactly when
  // every recorded path exists with the recorded hash.
  lemma VerifyIff(hash: Bytes -> string, lines: seq<string>, recorded: map<string, string>, files: Files)
    requires Records(lines, recorded)
    requires forall p :: p in recorded ==> IsHash(recorded[p]) && OneLine(p)
    ensures (forall l :: l in Lines(Content(lines)) ==> LineHolds(hash, files, l)) <==>
            forall p :: p in recorded ==> p in files && hash(files[p]) == recorded[p]
  {
    forall l | l in lines ensures OneLine(l) && l != "" {
      var p :| p in recorded && l == SumLine(recorded[p], p);
    }
    ContentParses(lines);
    forall p | p in recorded
      ensures LineHolds(hash, files, SumLine(recorded[p], p)) <==> p in files && hash(files[p]) == recorded[p]
    {
      SumLineParses(recorded[p], p);
    }
  }

  lemma RecordsAdd(lines: seq<string>, recorded: map<string, string>, p: string, sum: string)
    requires Records(lines, recorded) && p !in recorded
    ensures Records(lines + [SumLine(sum, p)], recorded[p := sum])
  {
    var ls, r := lines + [SumLine(sum, p)], recorded[p := sum];
    forall l | l in ls ensures exists q :: q in r && l == SumLine(r[q], q) {
      if l in lines {
        var q :| q in recorded && l == SumLine(recorded[q], q);
        assert r[q] == recorded[q];
      } else {
        assert l == SumLine(r[p], p);
      }
    }
    forall q | q in r ensures SumLine(r[q], q) in ls {
      if q != p {
        assert SumLine(recorded[q], q) in lines;
      }
    }
  }

  // The last element of the path is this name.
  predicate IsNamed(path: string, name: string) {
    path == name || (|name| < |path| && path[|path| - |name| - 1..] == "/" + name)
  }

  // What a backup puts beside its data, wherever it is found.
  predicate Bookkeeping(path: string) {
    IsNamed(path, "SHA256SUMS") || IsNamed(path, "backup_metadata.json") || IsNamed(path, "backup_metadata.json.tmp")
  }

  lemma BaseNameIff(path: string, name: string)
    requires forall i :: 0 <= i < |name| ==> name[i] != '/'
    ensures BaseName(path) == name <==> IsNamed(path, name)
  {
    var i, j := LastIndex(path, "/"), |path| - |name| - 1;
    if i >= 0 {
      assert path[i..i + 1][0] == '/';
      assert path[i..] == [path[i]] + path[i + 1..];
    }
    if IsNamed(path, name) {
      forall k | j < k < |path| ensures !MatchesAt(path, "/", k) {
        assert path != name ==> path[j..][k - j] == ("/" + name)[k - j];
        assert path[k] == name[k - j - 1] && path[k..k + 1][0] == path[k];
      }
      if path != name {
        assert path[j..][0] == '/' && path[j..j + 1] == "/" && MatchesAt(path, "/", j);
      }
      assert i <= j;
      assert i == j;
      assert BaseName(path) == path[j + 1..];
      if path != name {
        assert path[j + 1..] == path[j..][1..];
      }
    }
  }

  lemma RecordedIff(path: string)
    ensures Recorded(path) <==> !Bookkeeping(path)
  {
    BaseNameIff(path, "SHA256SUMS");
    BaseNameIff(path, "backup_metadata.json");
    BaseNameIff(path, "backup_metadata.json.tmp");
    assert METADATA + ".tmp" == "backup_metadata.json.tmp";
  }

  // Against the file written for one tree, another one verifies exactly when it has
  // every file of the first but the bookkeeping, each with its hash.
  lemma WrittenVerifiesIff(hash: Bytes -> string, lines: seq<string>, files: Files, later: Files)
    requires HexDigest(hash) && forall p :: p in files ==> OneLine(p)
    requires Records(lines, map p | p in files && Recorded(p) :: hash(files[p]))
    ensures (forall l :: l in Lines(Content(lines)) ==> LineHolds(hash, later, l)) <==>
            forall p :: p in files && !Bookkeeping(p) ==> p in later && hash(later[p]) == hash(files[p])
  {
    var recorded := map p | p in files && Recorded(p) :: hash(files[p]);
    VerifyIff(hash, lines, recorded, later);
    forall p ensures p in recorded <==> p in files && !Bookkeeping(p) {
      RecordedIff(p);
    }
  }

  class ChecksumFile {
    const hash: Bytes -> string

    constructor (hash: Bytes -> string)
      ensures this.hash == hash
    {
      this.hash := hash;
    }

    ghost function RecordOf(files: Files): map<string, string> {
      map p | p in files && Recorded(p) :: hash(files[p])
    }

    // Walks the tree in any order; the sort only fixes which order is written.
    method WriteChecksums(tree: Tree) returns (lines: seq<string>)
      modifies tree
      ensures Records(lines, RecordOf(old(tree.files)))
      ensures tree.files == old(tree.files)[SUMS := Content(lines)] - {SUMS + ".tmp"}
      ensures tree.log == old(tree.log) + ReplaceOps(SUMS, Content(lines))
    {
      lines := PrintLines(tree.files);
      tree.Replace(SUMS, Content(lines));
    }

    method PrintLines(files: Files) returns (lines: seq<string>)
      ensures Records(lines, RecordOf(files))
    {
      lines := [];
      var todo := files.Keys;
      ghost var recorded: map<string, string> := map[];
      while todo != {}
        invariant todo <= files.Keys
        invariant forall p :: p in recorded <==> p in files && p !in todo && Recorded(p)
        invariant forall p :: p in recorded ==> recorded[p] == hash(files[p])
        invariant Records(lines, recorded)
        decreases todo
      {
        var p :| p in todo;
        if Recorded(p) {
          RecordsAdd(lines, recorded, p, hash(files[p]));
          lines := lines + [SumLine(hash(files[p]), p)];
          recorded := recorded[p := hash(files[p])];
        }
        todo := todo - {p};
      }
      assert recorded == RecordOf(files);
    }

    // Collects a problem for every line that does not hold.
    method VerifyChecksums(tree: Tree) returns (r: VerifyResult)
      ensures r == if SUMS !in tree.files then NoChecksums
                   else if forall l :: l in Lines(tree.files[SUMS]) ==> LineHolds(hash, tree.files, l) then Intact
                   else Broken
    {
      if SUMS !in tree.files {
        return NoChecksums;
      }
      var lines := Lines(tree.files[SUMS]);
      var problems := 0;
      for i := 0 to |lines|
        invariant problems == 0 <==> forall j :: 0 <= j < i ==> LineHolds(hash, tree.files, lines[j])
        invariant problems >= 0
      {
        var line := lines[i];
        if line == "" {
          continue;
        }
        var idx := FirstMatch(line, SEPARATOR, 0);
        if idx < 0 {
          problems := problems + 1;
          continue;
        }
        var want, rel := line[..idx], line[idx + 2..];
        if rel !in tree.files || hash(tree.files[rel]) != want {
          problems := problems + 1;
        }
      }
      assert problems == 0 <==> forall l :: l in lines ==> LineHolds(hash, tree.files, l);
      r := if problems > 0 then Broken else Intact;
    }
  }

  // Checksums written for one tree and verified on another that has the same checksum
  // file, such as the tree itself some time later.
  method WriteThenVerify(sums: ChecksumFile, tree: Tree, later: Files) returns (r: VerifyResult)
    requires HexDigest(sums.hash) && forall p :: p in tree.files ==> OneLine(p)
    modifies tree
    ensures r == if forall p :: p in old(tree.files) && !Bookkeeping(p) ==>
                      p in later && sums.hash(later[p]) == sums.hash(old(tree.files)[p])
                 then Intact else Broken
  {
    ghost var files := tree.files;
    var lines := sums.WriteChecksums(tree);
    var copy := new Tree(later[SUMS := Content(lines)]);
    WrittenVerifiesIff(sums.hash, lines, files, copy.files);
    forall p | p in files && !Bookkeeping(p) ensures p != SUMS {
    }
    r := sums.VerifyChecksums(copy);
  }
}
