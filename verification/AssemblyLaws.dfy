// When the assembler's result is determined, and when assembling again changes nothing.
module AssemblyLaws {
  import opened Wrappers
  import opened PartNames
  import opened FileTree
  import opened Sorting
  import opened PartJoins
  import opened Assembler

  // Up to step i of a trace over a settled tree, the files done are joined.
  lemma {:induction false} TraceIsPartly(before: Files, origs: seq<string>, trees: seq<Files>, i: nat)
    requires Settled(before) && ListsOrigs(before, origs) && IsTrace(before, origs, trees) && i <= |origs|
    ensures PartlyAssembled(before, trees[i], NameSet(origs[..i]))
  {
    if i > 0 {
      TraceIsPartly(before, origs, trees, i - 1);
      assert AssemblesTo(before, trees[i - 1], origs[i - 1], trees[i]);
      var ps :| Assembles(before, trees[i - 1], origs[i - 1], ps, trees[i]);
      assert NameSet(origs[..i]) == NameSet(origs[..i - 1]) + {origs[i - 1]};
      assert origs[i - 1] in origs && forall o :: o in NameSet(origs[..i]) ==> o in origs;
      OrigsAreNotParts(before, NameSet(origs[..i]));
      PartsStillThere(before, trees[i - 1], NameSet(origs[..i - 1]), origs[i - 1], ps);
      StepIsPartly(before, trees[i - 1], NameSet(origs[..i - 1]), origs[i - 1], ps, ps);
    }
  }

  // On a settled tree, every outcome is the one described by the tree.
  lemma OutcomeIsAssembled(before: Files, after: Files)
    requires Settled(before) && IsOutcome(before, after)
    ensures AssembledTo(before, after)
  {
    var origs, trees :| ListsOrigs(before, origs) && IsTrace(before, origs, trees) && trees[|origs|] == after;
    TraceIsPartly(before, origs, trees, |origs|);
    assert origs[..|origs|] == origs;
    forall p | p in before && IsPart(p) ensures OrigOf(p) in NameSet(origs) {
      assert IsPartOf(p, OrigOf(p));
    }
    OrigsAreNotParts(before, NameSet(origs));
    PartlyIsAssembled(before, after, NameSet(origs));
  }

  // Some order of the parts by number, and some order of any names.
  lemma {:induction false} SortedList(names: set<string>) returns (ps: seq<string>)
    ensures Distinct(ps) && SortedBy(ps, NumberOf()) && forall p :: p in ps <==> p in names
    decreases names
  {
    if names == {} {
      ps := [];
    } else {
      var last := GreatestOf(names, NumberOf());
      var rest := SortedList(names - {last});
      ps := rest + [last];
    }
  }

  lemma {:induction false} GreatestOf(names: set<string>, key: string -> int) returns (m: string)
    requires names != {}
    ensures m in names && forall p :: p in names ==> key(p) <= key(m)
    decreases names
  {
    var x :| x in names;
    if names == {x} {
      m := x;
    } else {
      var y := GreatestOf(names - {x}, key);
      m := if key(y) < key(x) then x else y;
      assert names == (names - {x}) + {x};
    }
  }

  function PartSet(files: Files, o: string): set<string> {
    set p | p in files && IsPartOf(p, o)
  }

  // Until its own file is assembled, a part stays where it is.
  lemma {:induction false} PartsStay(before: Files, origs: seq<string>, trees: seq<Files>, i: nat, p: string)
    requires IsTrace(before, origs, trees) && i <= |origs| && p in before && IsPart(p) && OrigOf(p) !in origs[..i]
    ensures p in trees[i]
    ensures !Nested(before, p) && (forall o :: o in origs ==> HasParts(before, o)) ==> trees[i][p] == before[p]
  {
    if i > 0 {
      assert origs[..i] == origs[..i - 1] + [origs[i - 1]];
      PartsStay(before, origs, trees, i - 1, p);
      assert AssemblesTo(before, trees[i - 1], origs[i - 1], trees[i]);
      var ps :| Assembles(before, trees[i - 1], origs[i - 1], ps, trees[i]);
      assert p !in ps;
      assert origs[i - 1] in origs;
    }
  }

  // A trace can go on with any file that is not done, in any order of its parts.
  lemma TraceGoesOn(before: Files, origs: seq<string>, trees: seq<Files>, o: string, ps: seq<string>) returns (after: Files)
    requires IsTrace(before, origs, trees) && o !in origs && Ordered(before, o, ps)
    ensures forall p :: p in ps ==> p in trees[|origs|]
    ensures after == trees[|origs|][o := Joined(trees[|origs|], ps)] - NameSet(ps)
    ensures IsTrace(before, origs + [o], trees + [after])
  {
    var mid := trees[|origs|];
    assert origs[..|origs|] == origs;
    forall p | p in ps ensures p in mid {
      PartsStay(before, origs, trees, |origs|, p);
    }
    after := mid[o := Joined(mid, ps)] - NameSet(ps);
    assert Assembles(before, mid, o, ps, after);
    TraceNext(before, origs, trees, o, after);
  }

  lemma AnyOrdered(files: Files, o: string) returns (ps: seq<string>)
    ensures Ordered(files, o, ps)
  {
    ps := SortedList(PartSet(files, o));
  }

  // Any list of files can be assembled in its order.
  lemma {:induction false} SomeTrace(before: Files, origs: seq<string>) returns (trees: seq<Files>)
    requires Distinct(origs)
    ensures IsTrace(before, origs, trees)
  {
    if origs == [] {
      trees := [before];
    } else {
      var n := |origs| - 1;
      var init := SomeTrace(before, origs[..n]);
      assert origs[n] !in origs[..n] && origs == origs[..n] + [origs[n]];
      var ps := AnyOrdered(before, origs[n]);
      var after := TraceGoesOn(before, origs[..n], init, origs[n], ps);
      trees := init + [after];
    }
  }

  function OrigSet(files: Files): set<string> {
    set p | p in files && IsPart(p) :: OrigOf(p)
  }

  lemma OrigSetIff(files: Files, o: string)
    ensures o in OrigSet(files) <==> HasParts(files, o)
  {
    if HasParts(files, o) {
      var p :| p in files && IsPartOf(p, o);
    }
  }

  // Two files assembled last: the second is there at the end, and its parts are not.
  lemma TwoMore(before: Files, rest: seq<string>, o: string, x: string) returns (after: Files)
    requires Distinct(rest) && o != x && HasParts(before, o) && HasParts(before, x)
    requires forall d :: d in rest <==> d in OrigSet(before) - {o, x}
    ensures IsOutcome(before, after)
    ensures x in after && forall p :: p in before && IsPartOf(p, x) ==> p !in after
  {
    var trees := SomeTrace(before, rest);
    var ps := AnyOrdered(before, o);
    var qs := AnyOrdered(before, x);
    SelfIsNoPart(x, qs);
    var mid := TraceGoesOn(before, rest, trees, o, ps);
    after := TraceGoesOn(before, rest + [o], trees + [mid], x, qs);
    ListsBoth(before, rest, o, x);
    TraceEnds(before, rest + [o] + [x], trees + [mid] + [after], after);
  }

  lemma TraceEnds(before: Files, origs: seq<string>, trees: seq<Files>, after: Files)
    requires ListsOrigs(before, origs) && IsTrace(before, origs, trees) && trees[|origs|] == after
    ensures IsOutcome(before, after)
  {
  }

  // A part that has parts of its own is there at the end if its file is assembled
  // before it, and gone if after it.
  lemma NestedDiverges(before: Files, x: string) returns (a: Files, b: Files)
    requires Nested(before, x)
    ensures IsOutcome(before, a) && IsOutcome(before, b) && x in a && x !in b
  {
    OrigIsShorter(x);
    assert IsPartOf(x, OrigOf(x));
    var rest := SortedList(OrigSet(before) - {OrigOf(x), x});
    a := TwoMore(before, rest, OrigOf(x), x);
    b := TwoMore(before, rest, x, OrigOf(x));
  }

  lemma ListsBoth(before: Files, rest: seq<string>, o: string, x: string)
    requires Distinct(rest) && o != x && HasParts(before, o) && HasParts(before, x)
    requires forall d :: d in rest <==> d in OrigSet(before) - {o, x}
    ensures ListsOrigs(before, rest + [o] + [x])
  {
    var all := rest + [o] + [x];
    forall d ensures d in all <==> HasParts(before, d) {
      OrigSetIff(before, d);
    }
  }

  // Two sorted lists of the same parts that differ in the order of two equal numbers.
  lemma TiedLists(files: Files, p: string, q: string) returns (l: seq<string>, r: seq<string>)
    requires SameNumber(files, p, q) && p != q
    ensures Ordered(files, OrigOf(p), l + [p, q] + r) && Ordered(files, OrigOf(p), l + [q, p] + r)
  {
    var n, others := PartNumber(p), PartSet(files, OrigOf(p)) - {p, q};
    l := SortedList(set x | x in others && PartNumber(x) <= n);
    r := SortedList(set x | x in others && PartNumber(x) > n);
    TiedIsOrdered(files, p, q, l, r);
    TiedIsOrdered(files, q, p, l, r);
  }

  lemma TiedIsOrdered(files: Files, p: string, q: string, l: seq<string>, r: seq<string>)
    requires SameNumber(files, p, q) && p != q
    requires Distinct(l) && Distinct(r) && SortedBy(l, NumberOf()) && SortedBy(r, NumberOf())
    requires forall x :: x in l <==> x in PartSet(files, OrigOf(p)) - {p, q} && PartNumber(x) <= PartNumber(p)
    requires forall x :: x in r <==> x in PartSet(files, OrigOf(p)) - {p, q} && PartNumber(x) > PartNumber(p)
    ensures Ordered(files, OrigOf(p), l + [p, q] + r)
  {
    var ps := l + [p, q] + r;
    SortedAround(l, p, q, r, NumberOf());
    forall x ensures x in ps <==> x in files && IsPartOf(x, OrigOf(p)) {
      assert x in ps <==> x in l || x == p || x == q || x in r;
      assert x in PartSet(files, OrigOf(p)) <==> x in files && IsPartOf(x, OrigOf(p));
    }
  }

  lemma JoinedOne(files: Files, p: string)
    requires p in files
    ensures Joined(files, [p]) == files[p]
  {
    JoinSnoc(files, [p], 0);
    assert [p][..1] == [p] && [p][..0] == [];
    assert Joined(files, []) == [];
  }

  lemma JoinedAround(files: Files, l: seq<string>, p: string, q: string, r: seq<string>)
    requires forall x :: x in l + [p, q] + r ==> x in files
    ensures (forall x :: x in l ==> x in files) && (forall x :: x in r ==> x in files) && p in files && q in files
    ensures Joined(files, l + [p, q] + r) == Joined(files, l) + (files[p] + files[q]) + Joined(files, r)
  {
    assert forall x :: x in l || x == p || x == q || x in r ==> x in l + [p, q] + r;
    JoinedAppend(files, l, [p, q]);
    JoinedAppend(files, l + [p, q], r);
    JoinedAppend(files, [p], [q]);
    JoinedOne(files, p);
    JoinedOne(files, q);
    assert [p] + [q] == [p, q];
  }

  lemma Cancels(a: Bytes, x: Bytes, y: Bytes, b: Bytes)
    requires a + x + b == a + y + b && |x| == |y|
    ensures x == y
  {
    assert x == (a + x + b)[|a|..|a| + |x|] && y == (a + y + b)[|a|..|a| + |y|];
  }

  // Parts with the same number that do not commute leave their file either way round.
  lemma TiesDiverge(before: Files, p: string, q: string) returns (a: Files, b: Files)
    requires SameNumber(before, p, q) && before[p] + before[q] != before[q] + before[p]
    requires forall x :: x in before ==> !Nested(before, x)
    ensures IsOutcome(before, a) && IsOutcome(before, b) && a != b
  {
    var o := OrigOf(p);
    var l, r := TiedLists(before, p, q);
    var rest := SortedList(OrigSet(before) - {o});
    var trees := SomeTrace(before, rest);
    ListsOne(before, rest, o);
    var mid := trees[|rest|];
    a := TraceGoesOn(before, rest, trees, o, l + [p, q] + r);
    b := TraceGoesOn(before, rest, trees, o, l + [q, p] + r);
    TraceEnds(before, rest + [o], trees + [a], a);
    TraceEnds(before, rest + [o], trees + [b], b);
    PartsUnchanged(before, rest, trees, o);
    assert p in mid && q in mid && mid[p] == before[p] && mid[q] == before[q];
    DifferentJoins(mid, o, l, p, q, r);
    SelfIsNoPart(o, l + [p, q] + r);
    SelfIsNoPart(o, l + [q, p] + r);
    assert a[o] != b[o];
  }

  lemma PartsUnchanged(before: Files, rest: seq<string>, trees: seq<Files>, o: string)
    requires IsTrace(before, rest, trees) && o !in rest && forall d :: d in rest ==> HasParts(before, d)
    requires forall x :: x in before ==> !Nested(before, x)
    ensures forall x :: x in before && IsPartOf(x, o) ==> x in trees[|rest|] && trees[|rest|][x] == before[x]
  {
    assert rest[..|rest|] == rest;
    forall x | x in before && IsPartOf(x, o) ensures x in trees[|rest|] && trees[|rest|][x] == before[x] {
      PartsStay(before, rest, trees, |rest|, x);
    }
  }

  lemma DifferentJoins(mid: Files, o: string, l: seq<string>, p: string, q: string, r: seq<string>)
    requires (forall x :: x in l + [p, q] + r ==> x in mid) && (forall x :: x in l + [q, p] + r ==> x in mid)
    requires p in mid && q in mid && mid[p] + mid[q] != mid[q] + mid[p]
    ensures Joined(mid, l + [p, q] + r) != Joined(mid, l + [q, p] + r)
  {
    JoinedAround(mid, l, p, q, r);
    JoinedAround(mid, l, q, p, r);
    if Joined(mid, l + [p, q] + r) == Joined(mid, l + [q, p] + r) {
      Cancels(Joined(mid, l), mid[p] + mid[q], mid[q] + mid[p], Joined(mid, r));
    }
  }

  lemma ListsOne(before: Files, rest: seq<string>, o: string)
    requires Distinct(rest) && HasParts(before, o) && forall d :: d in rest <==> d in OrigSet(before) - {o}
    ensures ListsOrigs(before, rest + [o]) && forall d :: d in rest ==> HasParts(before, d)
  {
    forall d ensures d in rest + [o] <==> HasParts(before, d) {
      OrigSetIff(before, d);
    }
  }

  // The assembled tree does not depend on the order of the map or of equal numbers
  // if and only if the tree is settled.
  lemma OutcomeIsUniqueIff(before: Files)
    ensures (forall a, b :: IsOutcome(before, a) && IsOutcome(before, b) ==> a == b) <==> Settled(before)
  {
    if Settled(before) {
      forall a, b | IsOutcome(before, a) && IsOutcome(before, b) ensures a == b {
        OutcomeIsAssembled(before, a);
        OutcomeIsAssembled(before, b);
        AssemblyIsUnique(before, a, b);
      }
    } else if x :| x in before && Nested(before, x) {
      var a, b := NestedDiverges(before, x);
    } else {
      var p, q :| SameNumber(before, p, q) && before[p] + before[q] != before[q] + before[p];
      var a, b := TiesDiverge(before, p, q);
    }
  }

  // What is left of a settled tree is settled when no file that was assembled is
  // itself named like a part, and fits the same manifest.
  lemma AssembledFitsAgain(hash: Bytes -> string, before: Files, after: Files, manifest: map<string, SplitInfo>)
    requires AssembledTo(before, after) && Assemblable(hash, before, manifest)
    requires Settled(before) && forall o :: HasParts(before, o) ==> !IsPart(o)
    ensures forall p :: p in after ==> !IsPart(p)
    ensures Settled(after) && Assemblable(hash, after, manifest)
  {
    forall f | f in manifest ensures f in after && Matches(hash, after[f], manifest[f]) {
      if HasParts(before, f) {
        var ps :| Ordered(before, f, ps) && |ps| == manifest[f].parts && Matches(hash, Joined(before, ps), manifest[f]);
        assert JoinsTo(before, f, Joined(before, ps));
        JoinIsUnique(before, f, after[f], Joined(before, ps));
      }
    }
  }

  // Assembling what is left changes nothing if and only if no file that was
  // assembled is itself named like a part.
  lemma AssemblyIsIdempotentIff(before: Files, after: Files, again: Files)
    requires AssembledTo(before, after) && AssembledTo(after, again)
    ensures again == after <==> forall o :: HasParts(before, o) ==> !IsPart(o)
  {
    if o :| HasParts(before, o) && IsPart(o) {
      assert o in after;
      var p := LongestPart(after, o);
      assert p !in again;
    } else {
      forall q | q in after ensures !IsPart(q) {
      }
    }
  }

  ghost function Longer(files: Files, n: nat): set<string> {
    set q | q in files && |q| > n
  }

  // Among parts of parts there is one without parts of its own.
  lemma {:induction false} LongestPart(files: Files, p: string) returns (r: string)
    requires p in files && IsPart(p)
    ensures r in files && IsPart(r) && !HasParts(files, r)
    decreases Longer(files, |p|)
  {
    if q :| q in files && IsPartOf(q, p) {
      OrigIsShorter(q);
      assert q in Longer(files, |p|) && q !in Longer(files, |q|);
      r := LongestPart(files, q);
    } else {
      r := p;
    }
  }

  // A second run on what a successful one left succeeds and changes nothing, unless
  // a file that was assembled is itself named like a part.
  method AssembleTwice(hash: Bytes -> string, tree: Tree, expected: seq<SplitInfo>)
    returns (first: Option<AssembleError>, second: Option<AssembleError>, ghost once: Files)
    requires Settled(tree.files) && forall o :: HasParts(tree.files, o) ==> !IsPart(o)
    modifies tree
    ensures first.None? ==> second.None? && tree.files == once && AssembledTo(old(tree.files), once)
  {
    ghost var before := tree.files;
    var assembler := new FileAssembler(hash);
    first := assembler.AssembleFiles(tree, expected);
    once := tree.files;
    if first.None? {
      AssembledFitsAgain(hash, before, once, ManifestOf(expected));
    }
    second := assembler.AssembleFiles(tree, expected);
    if first.None? {
      AssemblyIsIdempotentIff(before, once, tree.files);
    }
  }

  function PartsOf(files: Files, f: string): set<string> {
    set p | p in files && IsPartOf(p, f)
  }

  lemma {:induction false} DistinctLength<T>(s: seq<T>, all: set<T>)
    requires Distinct(s) && forall x :: x in s <==> x in all
    ensures |s| == |all|
    decreases |s|
  {
    if s == [] {
      assert all == {};
    } else {
      var init, last := s[..|s| - 1], s[|s| - 1];
      assert s == init + [last] && last !in init;
      DistinctLength(init, all - {last});
    }
  }

  // What one file of the manifest has to be in the tree: as many parts as recorded,
  // which join to the recorded size and hash, or, without parts, a whole file of them.
  ghost predicate FileFits(hash: Bytes -> string, files: Files, f: string, exp: SplitInfo) {
    if HasParts(files, f) then
      |PartsOf(files, f)| == exp.parts
      && exists content :: JoinsTo(files, f, content) && |content| == exp.size && hash(content) == exp.sha
    else f in files && !IsPart(f) && |files[f]| == exp.size && hash(files[f]) == exp.sha
  }

  lemma JoinedFits(hash: Bytes -> string, files: Files, f: string, exp: SplitInfo)
    requires HasParts(files, f)
    ensures FileFits(hash, files, f, exp) <==>
            exists ps :: Ordered(files, f, ps) && |ps| == exp.parts && Matches(hash, Joined(files, ps), exp)
  {
    forall ps | Ordered(files, f, ps) ensures |ps| == |PartsOf(files, f)| && JoinsTo(files, f, Joined(files, ps)) {
      DistinctLength(ps, PartsOf(files, f));
    }
    if FileFits(hash, files, f, exp) {
      var content :| JoinsTo(files, f, content) && |content| == exp.size && hash(content) == exp.sha;
      var ps :| Ordered(files, f, ps) && content == Joined(files, ps);
    }
  }

  // A tree fits a manifest exactly if no file with parts is the name of a directory
  // and every file of the manifest is as recorded.
  lemma AssemblableMeans(hash: Bytes -> string, files: Files, manifest: map<string, SplitInfo>)
    ensures Assemblable(hash, files, manifest) <==>
            && (forall p :: p in files && IsPart(p) ==>
                 OrigOf(p) != "" && OrigOf(p)[|OrigOf(p)| - 1] != '/' && forall q :: q in files ==> !(OrigOf(p) + "/" <= q))
            && forall f :: f in manifest ==> FileFits(hash, files, f, manifest[f])
  {
    forall f | f in manifest && HasParts(files, f) {
      JoinedFits(hash, files, f, manifest[f]);
    }
  }
}
