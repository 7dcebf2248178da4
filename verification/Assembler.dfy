// Reassembling split files in place, and what a successful run guarantees.
module Assembler {
  import opened Wrappers
  import opened PartNames
  import opened FileTree
  import opened Sorting
  import opened PartJoins

  // One manifest entry: the original file, its number of parts, its size and hash.
  datatype SplitInfo = SplitInfo(file: string, parts: nat, size: nat, sha: string)

  datatype AssembleError = WrongPartCount(file: string) | CannotAssemble(file: string) | Mismatch(file: string) | Missing(file: string)

  // A later entry for the same file replaces an earlier one.
  function ManifestOf(expected: seq<SplitInfo>): (m: map<string, SplitInfo>)
    ensures forall f :: f in m ==> m[f] in expected && m[f].file == f
    ensures forall s :: s in expected ==> s.file in m
  {
    if expected == [] then map[]
    else
      var last := expected[|expected| - 1];
      assert expected == expected[..|expected| - 1] + [last];
      ManifestOf(expected[..|expected| - 1])[last.file := last]
  }

  // Entry i is the last one for its file.
  lemma {:induction false} LastEntryCounts(expected: seq<SplitInfo>, i: nat)
    requires i < |expected| && forall j :: i < j < |expected| ==> expected[j].file != expected[i].file
    ensures expected[i].file in ManifestOf(expected) && ManifestOf(expected)[expected[i].file] == expected[i]
    decreases |expected|
  {
    if i < |expected| - 1 {
      LastEntryCounts(expected[..|expected| - 1], i);
    }
  }

  predicate Matches(hash: Bytes -> string, content: Bytes, exp: SplitInfo) {
    |content| == exp.size && hash(content) == exp.sha
  }

  ghost function NameSet(ps: seq<string>): set<string> { set p | p in ps }

  // One file assembled: the parts the walk found, joined as they are by now.
  ghost predicate Assembles(before: Files, mid: Files, orig: string, ps: seq<string>, after: Files) {
    && Ordered(before, orig, ps) && (forall p :: p in ps ==> p in mid)
    && after == mid[orig := Joined(mid, ps)] - NameSet(ps)
  }

  ghost predicate AssemblesTo(before: Files, mid: Files, orig: string, after: Files) {
    exists ps :: Assembles(before, mid, orig, ps, after)
  }

  // The trees on the way when the files in `origs` are assembled in that order,
  // each with its parts sorted in some way that respects their numbers.
  ghost predicate IsTrace(before: Files, origs: seq<string>, trees: seq<Files>) {
    && |trees| == |origs| + 1 && trees[0] == before
    && forall i :: 0 <= i < |origs| ==> AssemblesTo(before, trees[i], origs[i], trees[i + 1])
  }

  ghost predicate ListsOrigs(before: Files, origs: seq<string>) {
    Distinct(origs) && forall o :: o in origs <==> HasParts(before, o)
  }

  // One of the trees that assembling can leave, whatever the order of the map and
  // of equal numbers.
  ghost predicate IsOutcome(before: Files, after: Files) {
    exists origs, trees :: ListsOrigs(before, origs) && IsTrace(before, origs, trees) && trees[|origs|] == after
  }

  lemma TraceNext(before: Files, origs: seq<string>, trees: seq<Files>, o: string, after: Files)
    requires IsTrace(before, origs, trees) && AssemblesTo(before, trees[|origs|], o, after)
    ensures IsTrace(before, origs + [o], trees + [after])
  {
    var os, ts := origs + [o], trees + [after];
    forall i | 0 <= i < |os| ensures AssemblesTo(before, ts[i], os[i], ts[i + 1]) {
    }
  }

  // Every file with parts is replaced by their join; everything else stays.
  ghost predicate AssembledTo(before: Files, after: Files) {
    && (forall p :: p in after <==> HasParts(before, p) || (p in before && !IsPart(p)))
    && (forall p :: p in after && !HasParts(before, p) ==> after[p] == before[p])
    && (forall p :: p in after && HasParts(before, p) ==> JoinsTo(before, p, after[p]))
  }

  // The result does not depend on the order in which the files are taken.
  lemma AssemblyIsUnique(before: Files, a: Files, b: Files)
    requires Settled(before) && AssembledTo(before, a) && AssembledTo(before, b)
    ensures a == b
  {
    forall p | p in a ensures a[p] == b[p] {
      if HasParts(before, p) {
        JoinIsUnique(before, p, a[p], b[p]);
      }
    }
  }

  // When a settled tree can be assembled against a manifest.
  ghost predicate Assemblable(hash: Bytes -> string, files: Files, manifest: map<string, SplitInfo>) {
    && (forall p :: p in files && IsPart(p) ==> !NamesDirectory(files, OrigOf(p)))
    && (forall f :: f in manifest && HasParts(files, f) ==>
         exists ps :: Ordered(files, f, ps) && |ps| == manifest[f].parts && Matches(hash, Joined(files, ps), manifest[f]))
    && (forall f :: f in manifest && !HasParts(files, f) ==>
         f in files && !IsPart(f) && Matches(hash, files[f], manifest[f]))
  }

  // A file called just .partNNN would be assembled into its own directory, and a
  // file beside a directory of the name without its suffix into that directory.
  predicate NamesDirectory(files: Files, orig: string) {
    orig == "" || orig[|orig| - 1] == '/' || exists p :: p in files && orig + "/" <= p
  }

  class FileAssembler {
    const hash: Bytes -> string

    constructor (hash: Bytes -> string)
      ensures this.hash == hash
    {
      this.hash := hash;
    }

    // Sort by number, truncate the original, copy every part behind it, remove the parts.
    method AssembleOne(tree: Tree, orig: string, parts: seq<string>) returns (ok: bool, sorted: seq<string>)
      requires orig !in parts
      modifies tree
      ensures multiset(sorted) == multiset(parts) && SortedBy(sorted, NumberOf())
      ensures ok <==> !NamesDirectory(old(tree.files), orig) && forall p :: p in parts ==> p in old(tree.files)
      ensures ok ==> forall p :: p in sorted ==> p in old(tree.files)
      ensures ok ==> tree.files == old(tree.files)[orig := Joined(old(tree.files), sorted)] - NameSet(parts)
      ensures !ok ==> forall p :: p != orig ==> Lookup(tree.files, p) == Lookup(old(tree.files), p)
    {
      sorted := SortBy(parts, NumberOf());
      SameElements(sorted, parts);
      if NamesDirectory(tree.files, orig) {
        return false, sorted;
      }
      tree.files := tree.files[orig := []];
      for i := 0 to |sorted|
        invariant forall j :: 0 <= j < i ==> sorted[j] in old(tree.files)
        invariant tree.files == old(tree.files)[orig := Joined(old(tree.files), sorted[..i])]
      {
        if sorted[i] !in tree.files {
          return false, sorted;
        }
        JoinNext(old(tree.files), sorted, i);
        tree.files := tree.files[orig := tree.files[orig] + tree.files[sorted[i]]];
      }
      assert sorted[..|sorted|] == sorted;
      RemoveParts(tree, sorted);
      assert NameSet(sorted) == NameSet(parts);
      ok := true;
    }

    method RemoveParts(tree: Tree, parts: seq<string>)
      modifies tree
      ensures tree.files == old(tree.files) - NameSet(parts)
    {
      for i := 0 to |parts|
        invariant tree.files == old(tree.files) - NameSet(parts[..i])
      {
        tree.files := tree.files - {parts[i]};
        assert NameSet(parts[..i + 1]) == NameSet(parts[..i]) + {parts[i]};
      }
      assert parts[..|parts|] == parts;
    }

    // One iteration of the first loop of AssembleFiles: count, assemble, verify.
    method AssembleGroup(tree: Tree, orig: string, ps: seq<string>, manifest: map<string, SplitInfo>)
      returns (failed: Option<AssembleError>, ghost sorted: seq<string>)
      requires orig !in ps
      modifies tree
      ensures multiset(sorted) == multiset(ps) && SortedBy(sorted, NumberOf())
      ensures failed.None? ==> forall p :: p in sorted ==> p in old(tree.files)
      ensures failed.None? ==>
                tree.files == old(tree.files)[orig := Joined(old(tree.files), sorted)] - NameSet(ps)
      ensures failed.None? <==>
                && !NamesDirectory(old(tree.files), orig) && (forall p :: p in sorted ==> p in old(tree.files))
                && (orig in manifest ==> |ps| == manifest[orig].parts
                                         && Matches(hash, Joined(old(tree.files), sorted), manifest[orig]))
      ensures forall p :: p != orig && p !in ps ==> Lookup(tree.files, p) == Lookup(old(tree.files), p)
    {
      if orig in manifest && |ps| != manifest[orig].parts {
        sorted := SortBy(ps, NumberOf());
        return Some(WrongPartCount(orig)), sorted;
      }
      var ok;
      ok, sorted := AssembleOne(tree, orig, ps);
      SameElements(sorted, ps);
      if !ok {
        return Some(CannotAssemble(orig)), sorted;
      }
      if orig in manifest && !Matches(hash, tree.files[orig], manifest[orig]) {
        return Some(Mismatch(orig)), sorted;
      }
      failed := None;
    }

    // The first loop of AssembleFiles, over the groups in any order.
    method AssembleGroups(tree: Tree, parts: map<string, seq<string>>, manifest: map<string, SplitInfo>)
      returns (failed: Option<AssembleError>)
      requires GroupsOf(tree.files.Keys, parts)
      modifies tree
      ensures failed.None? ==> Verified(hash, old(tree.files), tree.files, parts.Keys, manifest)
      ensures Settled(old(tree.files)) ==>
                (failed.None? <==> forall o :: o in parts ==> GroupFits(hash, old(tree.files), o, manifest))
      ensures Settled(old(tree.files)) && failed.None? ==> PartlyAssembled(old(tree.files), tree.files, parts.Keys)
      ensures failed.None? ==> IsOutcome(old(tree.files), tree.files)
    {
      ghost var before := tree.files;
      ghost var last, origs, trees;
      failed, last, origs, trees := AssembleAll(tree, parts, manifest);
      if failed.None? {
        TraceIsOutcome(before, parts, origs, trees, tree.files);
      }
    }

    // `last` is the file at which a failed loop stopped.
    method AssembleAll(tree: Tree, parts: map<string, seq<string>>, manifest: map<string, SplitInfo>)
      returns (failed: Option<AssembleError>, ghost last: string, ghost origs: seq<string>, ghost trees: seq<Files>)
      requires GroupsOf(tree.files.Keys, parts)
      modifies tree
      ensures failed.None? ==> LoopInv(hash, old(tree.files), tree.files, parts.Keys, manifest, origs, trees)
      ensures failed.Some? ==> last in parts && (Settled(old(tree.files)) ==> !GroupFits(hash, old(tree.files), last, manifest))
    {
      ghost var before := tree.files;
      var todo := parts.Keys;
      ghost var done: set<string> := {};
      last, origs, trees := "", [], [tree.files];
      LoopStarts(hash, before, manifest);
      while todo != {}
        invariant todo <= parts.Keys && done == parts.Keys - todo
        invariant LoopInv(hash, before, tree.files, done, manifest, origs, trees)
        decreases todo
      {
        var orig :| orig in todo;
        failed := AssembleNext(tree, parts, orig, manifest, before, done, origs, trees);
        if failed.Some? {
          last := orig;
          return;
        }
        OneLess(parts.Keys, todo, orig);
        todo, done, origs, trees := todo - {orig}, done + {orig}, origs + [orig], trees + [tree.files];
      }
      assert done == parts.Keys;
      failed := None;
    }

    method AssembleNext(tree: Tree, parts: map<string, seq<string>>, orig: string, manifest: map<string, SplitInfo>,
                        ghost before: Files, ghost done: set<string>, ghost origs: seq<string>, ghost trees: seq<Files>)
      returns (failed: Option<AssembleError>)
      requires GroupsOf(before.Keys, parts) && orig in parts && orig !in done
      requires LoopInv(hash, before, tree.files, done, manifest, origs, trees)
      modifies tree
      ensures failed.None? ==> LoopInv(hash, before, tree.files, done + {orig}, manifest, origs + [orig], trees + [tree.files])
      ensures Settled(before) ==> (failed.None? <==> GroupFits(hash, before, orig, manifest))
    {
      GroupsAreParts(before, parts, orig);
      assert PartsAmong(before.Keys, orig, parts[orig]);
      ghost var files := tree.files;
      ghost var sorted;
      failed, sorted := AssembleGroup(tree, orig, parts[orig], manifest);
      LoopStep(hash, before, files, tree.files, done, orig, parts[orig], sorted, manifest, failed.None?);
      if failed.None? {
        SortedAssembles(before, files, orig, parts[orig], sorted, tree.files);
        TraceOverNext(before, done, origs, trees, files, orig, tree.files);
      }
    }

    // The second loop: manifest files without parts must already be whole.
    method CheckWhole(tree: Tree, parts: map<string, seq<string>>, manifest: map<string, SplitInfo>)
      returns (failed: Option<AssembleError>)
      ensures failed.None? <==> forall f :: f in manifest && f !in parts ==>
                f in tree.files && Matches(hash, tree.files[f], manifest[f])
    {
      var todo := manifest.Keys;
      while todo != {}
        invariant todo <= manifest.Keys
        invariant forall f :: f in manifest.Keys - todo && f !in parts ==>
                    f in tree.files && Matches(hash, tree.files[f], manifest[f])
        decreases todo
      {
        var f :| f in todo;
        todo := todo - {f};
        if f in parts {
          continue;
        }
        if f !in tree.files {
          return Some(Missing(f));
        }
        if !Matches(hash, tree.files[f], manifest[f]) {
          return Some(Mismatch(f));
        }
      }
      failed := None;
    }

    // On any tree, success means that every file of the manifest is there with its
    // recorded size and hash, but for those that are parts of another file. On a settled
    // tree, success happens exactly when it can, and the result is determined by the tree.
    method AssembleFiles(tree: Tree, expected: seq<SplitInfo>) returns (failed: Option<AssembleError>)
      modifies tree
      ensures failed.None? ==>
                forall f :: f in ManifestOf(expected) && !Nested(old(tree.files), f) ==>
                  && f in tree.files && |tree.files[f]| == ManifestOf(expected)[f].size
                  && hash(tree.files[f]) == ManifestOf(expected)[f].sha
      ensures Settled(old(tree.files)) ==> (failed.None? <==> Assemblable(hash, old(tree.files), ManifestOf(expected)))
      ensures Settled(old(tree.files)) && failed.None? ==> AssembledTo(old(tree.files), tree.files)
      ensures failed.None? ==> IsOutcome(old(tree.files), tree.files)
    {
      var manifest := BuildManifest(expected);
      var parts := GroupParts(tree.files);
      ghost var before := tree.files;
      forall o ensures o in parts <==> HasParts(before, o) { GroupsAreParts(before, parts, o); }
      failed := AssembleGroups(tree, parts, manifest);
      if Settled(before) {
        AssemblableIff(hash, before, tree.files, parts.Keys, manifest);
      }
      if failed.Some? {
        return;
      }
      failed := CheckWhole(tree, parts, manifest);
    }

    method BuildManifest(expected: seq<SplitInfo>) returns (manifest: map<string, SplitInfo>)
      ensures manifest == ManifestOf(expected)
    {
      manifest := map[];
      for i := 0 to |expected|
        invariant manifest == ManifestOf(expected[..i])
      {
        assert expected[..i + 1][..i] == expected[..i];
        manifest := manifest[expected[i].file := expected[i]];
      }
      assert expected[..|expected|] == expected;
    }
  }

  // One file with parts is fit for the manifest.
  ghost predicate GroupFits(hash: Bytes -> string, files: Files, o: string, manifest: map<string, SplitInfo>) {
    && !NamesDirectory(files, o)
    && (o in manifest ==>
         exists ps :: Ordered(files, o, ps) && |ps| == manifest[o].parts && Matches(hash, Joined(files, ps), manifest[o]))
  }

  // The files `done` have been assembled; every other file and its parts are as before.
  ghost predicate PartlyAssembled(before: Files, after: Files, done: set<string>) {
    && (forall p :: p in done ==> p in after && JoinsTo(before, p, after[p]))
    && (forall p :: p !in done && !(IsPart(p) && OrigOf(p) in done) ==> Lookup(after, p) == Lookup(before, p))
    && (forall p :: p !in done && IsPart(p) && OrigOf(p) in done ==> p !in after)
  }

  // ps are the parts of one file among the files seen.
  ghost predicate PartsAmong(seen: set<string>, orig: string, ps: seq<string>) {
    && Distinct(ps)
    && (forall i :: 0 <= i < |ps| ==> ps[i] in seen && IsPartOf(ps[i], orig))
    && (forall p :: p in seen && IsPartOf(p, orig) ==> p in ps)
  }

  // The groups of the files seen.
  ghost predicate GroupsOf(seen: set<string>, parts: map<string, seq<string>>) {
    && (forall o :: o in parts ==> parts[o] != [])
    && (forall o :: PartsAmong(seen, o, if o in parts then parts[o] else []))
  }

  // The parts of every file, in the order the walk meets them.
  method GroupParts(files: Files) returns (parts: map<string, seq<string>>)
    ensures GroupsOf(files.Keys, parts)
  {
    parts := map[];
    var todo := files.Keys;
    ghost var seen: set<string> := {};
    while todo != {}
      invariant todo <= files.Keys && seen == files.Keys - todo
      invariant GroupsOf(seen, parts)
      decreases todo
    {
      var p :| p in todo;
      ghost var before := parts;
      if IsPart(p) {
        var o := OrigOf(p);
        parts := parts[o := (if o in parts then parts[o] else []) + [p]];
      }
      GroupsStep(seen, before, p, parts);
      todo, seen := todo - {p}, seen + {p};
    }
  }

  lemma GroupsStep(seen: set<string>, parts: map<string, seq<string>>, p: string, next: map<string, seq<string>>)
    requires GroupsOf(seen, parts) && p !in seen
    requires var o := OrigOf(p);
             next == if IsPart(p) then parts[o := (if o in parts then parts[o] else []) + [p]] else parts
    ensures GroupsOf(seen + {p}, next)
  {
    forall o ensures PartsAmong(seen + {p}, o, if o in next then next[o] else []) {
      var ps := if o in parts then parts[o] else [];
      AmongStep(seen, o, ps, p);
      assert (if o in next then next[o] else []) == if IsPartOf(p, o) then ps + [p] else ps;
    }
  }

  lemma AmongStep(seen: set<string>, o: string, ps: seq<string>, p: string)
    requires PartsAmong(seen, o, ps) && p !in seen
    ensures PartsAmong(seen + {p}, o, if IsPartOf(p, o) then ps + [p] else ps)
  {
    assert forall q :: q in ps + [p] <==> q in ps || q == p;
  }

  // A trace over the files done so far, up to the present tree.
  ghost predicate TraceOver(before: Files, done: set<string>, origs: seq<string>, trees: seq<Files>, files: Files) {
    && Distinct(origs) && (forall o :: o in origs <==> o in done)
    && IsTrace(before, origs, trees) && trees[|origs|] == files
  }

  lemma TraceOverNext(before: Files, done: set<string>, origs: seq<string>, trees: seq<Files>, mid: Files, o: string, after: Files)
    requires TraceOver(before, done, origs, trees, mid) && o !in done && AssemblesTo(before, mid, o, after)
    ensures TraceOver(before, done + {o}, origs + [o], trees + [after], after)
  {
    TraceNext(before, origs, trees, o, after);
    assert forall d :: d in origs + [o] <==> d in origs || d == o;
  }

  lemma TraceIsOutcome(before: Files, parts: map<string, seq<string>>, origs: seq<string>, trees: seq<Files>, files: Files)
    requires GroupsOf(before.Keys, parts) && TraceOver(before, parts.Keys, origs, trees, files)
    ensures IsOutcome(before, files)
  {
    forall o ensures o in origs <==> HasParts(before, o) {
      GroupsAreParts(before, parts, o);
    }
  }

  lemma SortedAssembles(before: Files, mid: Files, o: string, ps: seq<string>, sorted: seq<string>, after: Files)
    requires Distinct(ps) && forall p :: p in ps <==> p in before && IsPartOf(p, o)
    requires multiset(sorted) == multiset(ps) && SortedBy(sorted, NumberOf()) && forall p :: p in sorted ==> p in mid
    requires after == mid[o := Joined(mid, sorted)] - NameSet(ps)
    ensures AssemblesTo(before, mid, o, after)
  {
    SortedPartsAreOrdered(before, o, ps, sorted);
    SameElements(sorted, ps);
    assert NameSet(sorted) == NameSet(ps);
    assert Assembles(before, mid, o, sorted, after);
  }

  // The walk finds a group exactly for the files that have parts.
  lemma GroupsAreParts(files: Files, parts: map<string, seq<string>>, o: string)
    requires GroupsOf(files.Keys, parts)
    ensures o in parts <==> HasParts(files, o)
    ensures o in parts ==> o !in parts[o] && forall p :: p in parts[o] <==> p in files && IsPartOf(p, o)
  {
    var ps := if o in parts then parts[o] else [];
    assert PartsAmong(files.Keys, o, ps);
    if o in parts {
      assert parts[o][0] in files && IsPartOf(parts[o][0], o);
      if o in parts[o] {
        OrigIsShorter(o);
      }
    }
  }

  // Sorting the parts of a file lists them in order.
  lemma SortedPartsAreOrdered(files: Files, o: string, ps: seq<string>, sorted: seq<string>)
    requires Distinct(ps) && forall p :: p in ps <==> p in files && IsPartOf(p, o)
    requires multiset(sorted) == multiset(ps) && SortedBy(sorted, NumberOf())
    ensures Ordered(files, o, sorted)
  {
    SameElements(sorted, ps);
    forall i, j | 0 <= i < j < |sorted| ensures sorted[i] != sorted[j] {
      if sorted[i] == sorted[j] {
        Twice(sorted, i, j);
        OnceDistinct(ps, sorted[i]);
        assert false;
      }
    }
  }

  // The assembled files of the manifest have their recorded contents, unless they
  // are parts of another file themselves.
  ghost predicate Verified(hash: Bytes -> string, before: Files, files: Files, done: set<string>, manifest: map<string, SplitInfo>) {
    forall f :: f in manifest && f in done && !Nested(before, f) ==> f in files && Matches(hash, files[f], manifest[f])
  }

  // On a settled tree: what has been assembled so far was fit and is joined.
  ghost predicate Progress(hash: Bytes -> string, before: Files, files: Files, done: set<string>, manifest: map<string, SplitInfo>) {
    && PartlyAssembled(before, files, done)
    && (forall o :: o in done ==> HasParts(before, o) && GroupFits(hash, before, o, manifest))
  }

  lemma VerifiedStep(hash: Bytes -> string, before: Files, files: Files, after: Files, done: set<string>, o: string,
                     ps: seq<string>, manifest: map<string, SplitInfo>, ok: bool)
    requires Verified(hash, before, files, done, manifest)
    requires forall d :: d in done ==> HasParts(before, d)
    requires forall p :: p in ps ==> IsPart(p) && p in before
    requires forall p :: p != o && p !in ps ==> Lookup(after, p) == Lookup(files, p)
    requires ok && o in manifest ==> o in after && Matches(hash, after[o], manifest[o])
    ensures ok ==> Verified(hash, before, after, done + {o}, manifest)
  {
    forall f | f in manifest && f in done && !Nested(before, f) && f != o ensures f in after && Matches(hash, after[f], manifest[f]) {
      assert Lookup(after, f) == Lookup(files, f);
    }
  }

  ghost predicate LoopInv(hash: Bytes -> string, before: Files, files: Files, done: set<string>, manifest: map<string, SplitInfo>,
                          origs: seq<string>, trees: seq<Files>) {
    TraceOver(before, done, origs, trees, files) && Sound(hash, before, files, done, manifest)
  }

  ghost predicate Sound(hash: Bytes -> string, before: Files, files: Files, done: set<string>, manifest: map<string, SplitInfo>) {
    && Verified(hash, before, files, done, manifest)
    && (forall d :: d in done ==> HasParts(before, d))
    && (Settled(before) ==> Progress(hash, before, files, done, manifest))
  }

  lemma LoopStarts(hash: Bytes -> string, before: Files, manifest: map<string, SplitInfo>)
    ensures LoopInv(hash, before, before, {}, manifest, [], [before])
  {
  }

  lemma LoopStep(hash: Bytes -> string, before: Files, files: Files, after: Files, done: set<string>, o: string,
                 ps: seq<string>, sorted: seq<string>, manifest: map<string, SplitInfo>, ok: bool)
    requires Sound(hash, before, files, done, manifest) && o !in done && HasParts(before, o)
    requires Distinct(ps) && forall p :: p in ps <==> p in before && IsPartOf(p, o)
    requires multiset(sorted) == multiset(ps) && SortedBy(sorted, NumberOf())
    requires forall p :: p != o && p !in ps ==> Lookup(after, p) == Lookup(files, p)
    requires ok ==> (forall p :: p in sorted ==> p in files) && after == files[o := Joined(files, sorted)] - NameSet(ps)
    requires ok <==> && !NamesDirectory(files, o) && (forall p :: p in sorted ==> p in files)
                     && (o in manifest ==> |ps| == manifest[o].parts && Matches(hash, Joined(files, sorted), manifest[o]))
    ensures ok ==> Sound(hash, before, after, done + {o}, manifest)
    ensures Settled(before) ==> (ok <==> GroupFits(hash, before, o, manifest))
  {
    if ok {
      SelfIsNoPart(o, ps);
    }
    VerifiedStep(hash, before, files, after, done, o, ps, manifest, ok);
    if Settled(before) {
      GroupStep(hash, before, files, done, o, ps, sorted, manifest);
    }
  }

  lemma SelfIsNoPart(o: string, ps: seq<string>)
    requires forall p :: p in ps ==> IsPartOf(p, o)
    ensures o !in NameSet(ps)
  {
    if o in ps {
      OrigIsShorter(o);
    }
  }

  // One iteration of the first loop, on a settled tree.
  lemma GroupStep(hash: Bytes -> string, before: Files, files: Files, done: set<string>, o: string,
                  ps: seq<string>, sorted: seq<string>, manifest: map<string, SplitInfo>)
    requires Settled(before) && Progress(hash, before, files, done, manifest)
    requires o !in done && HasParts(before, o) && Distinct(ps) && forall p :: p in ps <==> p in before && IsPartOf(p, o)
    requires multiset(sorted) == multiset(ps) && SortedBy(sorted, NumberOf())
    ensures forall p :: p in sorted ==> p in files
    ensures !NamesDirectory(files, o)
            && (o in manifest ==> |ps| == manifest[o].parts && Matches(hash, Joined(files, sorted), manifest[o]))
            <==> GroupFits(hash, before, o, manifest)
    ensures GroupFits(hash, before, o, manifest) ==>
              Progress(hash, before, files[o := Joined(files, sorted)] - NameSet(ps), done + {o}, manifest)
  {
    SortedPartsAreOrdered(before, o, ps, sorted);
    SameElements(sorted, ps);
    OrigsAreNotParts(before, done + {o});
    PartsStillThere(before, files, done, o, sorted);
    DirectoryStays(before, files, done, o);
    FitsIff(hash, before, o, sorted, manifest);
    StepIsPartly(before, files, done, o, ps, sorted);
  }

  // On a settled tree, one sorted list of the parts decides.
  lemma FitsIff(hash: Bytes -> string, before: Files, o: string, sorted: seq<string>, manifest: map<string, SplitInfo>)
    requires Settled(before) && Ordered(before, o, sorted)
    ensures GroupFits(hash, before, o, manifest) <==>
            !NamesDirectory(before, o)
            && (o in manifest ==> |sorted| == manifest[o].parts && Matches(hash, Joined(before, sorted), manifest[o]))
  {
    forall qs | Ordered(before, o, qs) ensures |qs| == |sorted| && Joined(before, qs) == Joined(before, sorted) {
      OrderedJoinSame(before, o, qs, sorted);
    }
  }

  lemma OrigsAreNotParts(before: Files, origs: set<string>)
    requires Settled(before) && forall o :: o in origs ==> HasParts(before, o)
    ensures forall o :: o in origs && o in before ==> !IsPart(o)
  {
    forall o | o in origs && o in before ensures !IsPart(o) {
      assert !Nested(before, o);
    }
  }

  // Assembling changes no directory: a part and its file are in the same one.
  lemma DirectoryStays(before: Files, files: Files, done: set<string>, o: string)
    requires PartlyAssembled(before, files, done) && forall d :: d in done ==> HasParts(before, d)
    ensures NamesDirectory(files, o) <==> NamesDirectory(before, o)
  {
    if p :| p in files && o + "/" <= p {
      NewIsBesideOld(before, files, done, o, p);
    }
    if p :| p in before && o + "/" <= p {
      if p !in files {
        assert Lookup(files, p) != Lookup(before, p);
        PartIsBesideOrig(p, o);
        assert OrigOf(p) in files;
      }
    }
  }

  lemma NewIsBesideOld(before: Files, files: Files, done: set<string>, o: string, p: string)
    requires PartlyAssembled(before, files, done) && forall d :: d in done ==> HasParts(before, d)
    requires p in files && o + "/" <= p
    ensures exists q :: q in before && o + "/" <= q
  {
    if p in done {
      var q :| q in before && IsPartOf(q, p);
      OrigIsShorter(q);
      assert o + "/" <= q;
    } else {
      assert Lookup(files, p) == Lookup(before, p);
    }
  }

  lemma PartIsBesideOrig(p: string, dir: string)
    requires IsPart(p) && dir + "/" <= p
    ensures dir + "/" <= OrigOf(p)
  {
    var i :| 0 <= i < |p| && PartMatchAt(p, i);
    PartMatchIsLast(p, i);
    assert p[|dir|] == (dir + "/")[|dir|] == '/';
    if i <= |dir| {
      NoSlashAfter(p, i, |dir|);
    }
    assert OrigOf(p) == p[..i] && p[..|dir| + 1] == dir + "/";
  }

  lemma PartsStillThere(before: Files, files: Files, done: set<string>, o: string, sorted: seq<string>)
    requires PartlyAssembled(before, files, done) && forall d :: d in done && d in before ==> !IsPart(d)
    requires o !in done && Ordered(before, o, sorted)
    ensures forall p :: p in sorted ==> p in files && files[p] == before[p]
    ensures Joined(files, sorted) == Joined(before, sorted)
  {
    forall p | p in sorted ensures p in files && files[p] == before[p] {
      assert Lookup(files, p) == Lookup(before, p);
    }
    assert forall i :: 0 <= i < |sorted| ==> sorted[i] in sorted;
    assert seq(|sorted|, i requires 0 <= i < |sorted| => files[sorted[i]])
        == seq(|sorted|, i requires 0 <= i < |sorted| => before[sorted[i]]);
  }

  lemma StepIsPartly(before: Files, files: Files, done: set<string>, o: string, ps: seq<string>, sorted: seq<string>)
    requires PartlyAssembled(before, files, done) && forall d :: d in done + {o} && d in before ==> !IsPart(d)
    requires o !in done && forall p :: p in ps <==> p in before && IsPartOf(p, o)
    requires Ordered(before, o, sorted) && (forall p :: p in sorted ==> p in files)
    requires Joined(files, sorted) == Joined(before, sorted)
    ensures PartlyAssembled(before, files[o := Joined(files, sorted)] - NameSet(ps), done + {o})
  {
    var content := Joined(files, sorted);
    assert JoinsTo(before, o, content);
    StepJoins(before, files, done, o, ps, content);
    StepLeaves(before, files, done, o, ps, content);
  }

  lemma StepJoins(before: Files, files: Files, done: set<string>, o: string, ps: seq<string>, content: Bytes)
    requires PartlyAssembled(before, files, done) && forall d :: d in done + {o} && d in before ==> !IsPart(d)
    requires forall p :: p in ps ==> p in before && IsPart(p)
    requires JoinsTo(before, o, content)
    ensures var after := files[o := content] - NameSet(ps);
            forall p :: p in done + {o} ==> p in after && JoinsTo(before, p, after[p])
  {
    var after := files[o := content] - NameSet(ps);
    forall p | p in done + {o} ensures p in after && after[p] == if p == o then content else files[p] {
      assert p !in NameSet(ps);
    }
  }

  lemma StepLeaves(before: Files, files: Files, done: set<string>, o: string, ps: seq<string>, content: Bytes)
    requires PartlyAssembled(before, files, done)
    requires o !in done && forall p :: p in ps <==> p in before && IsPartOf(p, o)
    ensures var after := files[o := content] - NameSet(ps);
            && (forall p :: p !in done + {o} && !(IsPart(p) && OrigOf(p) in done + {o}) ==> Lookup(after, p) == Lookup(before, p))
            && (forall p :: p !in done + {o} && IsPart(p) && OrigOf(p) in done + {o} ==> p !in after)
  {
    var after := files[o := content] - NameSet(ps);
    forall p | p !in done + {o} ensures Lookup(after, p) == if p in ps then None else Lookup(files, p) {
      assert p in NameSet(ps) <==> p in ps;
    }
  }

  // When every group is assembled, the tree is, and the second loop decides the rest.
  lemma AssemblableIff(hash: Bytes -> string, before: Files, after: Files, origs: set<string>, manifest: map<string, SplitInfo>)
    requires Settled(before) && forall o :: o in origs <==> HasParts(before, o)
    ensures PartlyAssembled(before, after, origs) ==> AssembledTo(before, after)
    ensures Assemblable(hash, before, manifest) ==> forall o :: o in origs ==> GroupFits(hash, before, o, manifest)
    ensures PartlyAssembled(before, after, origs) && (forall o :: o in origs ==> GroupFits(hash, before, o, manifest)) ==>
              (Assemblable(hash, before, manifest) <==>
               forall f :: f in manifest && f !in origs ==> f in after && Matches(hash, after[f], manifest[f]))
  {
    OrigsAreNotParts(before, origs);
    forall p | p in before && IsPart(p) ensures OrigOf(p) in origs {
      assert IsPartOf(p, OrigOf(p));
    }
    if PartlyAssembled(before, after, origs) {
      PartlyIsAssembled(before, after, origs);
    }
  }

  lemma PartlyIsAssembled(before: Files, after: Files, origs: set<string>)
    requires PartlyAssembled(before, after, origs)
    requires forall o :: o in origs <==> HasParts(before, o)
    requires forall o :: o in origs && o in before ==> !IsPart(o)
    requires forall p :: p in before && IsPart(p) ==> OrigOf(p) in origs
    ensures AssembledTo(before, after)
    ensures forall p :: p !in origs && IsPart(p) ==> p !in after
    ensures forall p :: p !in origs && !IsPart(p) ==> Lookup(after, p) == Lookup(before, p)
  {
    forall p | p !in origs && IsPart(p) ensures p !in after {
      if OrigOf(p) !in origs {
        assert Lookup(after, p) == Lookup(before, p);
      }
    }
    forall p | p !in origs && !IsPart(p) ensures p in after <==> p in before {
      assert Lookup(after, p) == Lookup(before, p);
    }
    forall p | p in after && !HasParts(before, p) ensures after[p] == before[p] {
      assert Lookup(after, p) == Lookup(before, p);
    }
  }
}
