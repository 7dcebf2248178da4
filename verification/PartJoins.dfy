// The parts of a file in a tree, and what they join to in number order.
module PartJoins {
  import opened PartNames
  import opened FileTree
  import opened Splitter
  import opened Sorting

  function NumberOf(): string -> int { (p: string) => PartNumber(p) }

  predicate IsPartOf(p: string, orig: string) { IsPart(p) && OrigOf(p) == orig }

  predicate HasParts(files: Files, orig: string) {
    exists p :: p in files && IsPartOf(p, orig)
  }

  // ps lists the parts of one file, in number order.
  ghost predicate Ordered(files: Files, orig: string, ps: seq<string>) {
    && Distinct(ps) && SortedBy(ps, NumberOf())
    && forall p :: p in ps <==> p in files && IsPartOf(p, orig)
  }

  function Joined(files: Files, ps: seq<string>): Bytes
    requires forall p :: p in ps ==> p in files
  {
    Concat(seq(|ps|, i requires 0 <= i < |ps| => files[ps[i]]))
  }

  // The joined content of a file's parts.
  ghost predicate JoinsTo(files: Files, orig: string, content: Bytes) {
    exists ps :: Ordered(files, orig, ps) && content == Joined(files, ps)
  }

  // A part that has parts of its own.
  ghost predicate Nested(files: Files, p: string) {
    p in files && IsPart(p) && HasParts(files, p)
  }

  ghost predicate SameNumber(files: Files, p: string, q: string) {
    p in files && q in files && IsPart(p) && IsPartOf(q, OrigOf(p)) && PartNumber(p) == PartNumber(q)
  }

  // No part has parts of its own, and parts of one file with the same number join
  // to the same bytes in either order.
  ghost predicate Settled(files: Files) {
    && (forall p :: p in files ==> !Nested(files, p))
    && (forall p, q :: SameNumber(files, p, q) ==> files[p] + files[q] == files[q] + files[p])
  }

  lemma JoinSnoc(files: Files, ps: seq<string>, i: nat)
    requires i < |ps| && forall p :: p in ps ==> p in files
    ensures Joined(files, ps[..i + 1]) == Joined(files, ps[..i]) + files[ps[i]]
  {
    var before := seq(i, j requires 0 <= j < i => files[ps[..i][j]]);
    ConcatSnoc(before, files[ps[i]]);
    assert seq(i + 1, j requires 0 <= j < i + 1 => files[ps[..i + 1][j]]) == before + [files[ps[i]]];
  }

  lemma JoinNext(files: Files, ps: seq<string>, i: nat)
    requires i < |ps| && ps[i] in files && forall j :: 0 <= j < i ==> ps[j] in files
    ensures (forall p :: p in ps[..i] ==> p in files) && (forall p :: p in ps[..i + 1] ==> p in files)
    ensures Joined(files, ps[..i + 1]) == Joined(files, ps[..i]) + files[ps[i]]
  {
    JoinSnoc(files, ps[..i + 1], i);
    assert ps[..i + 1][..i] == ps[..i] && ps[..i + 1][..i + 1] == ps[..i + 1];
  }

  lemma JoinedAppend(files: Files, ps: seq<string>, qs: seq<string>)
    requires (forall p :: p in ps ==> p in files) && (forall p :: p in qs ==> p in files)
    ensures (forall p :: p in ps + qs ==> p in files) && Joined(files, ps + qs) == Joined(files, ps) + Joined(files, qs)
    decreases |qs|
  {
    if qs == [] {
      assert ps + qs == ps;
    } else {
      var n := |qs| - 1;
      JoinedAppend(files, ps, qs[..n]);
      assert (ps + qs)[..|ps| + n] == ps + qs[..n] && (ps + qs)[..|ps| + n + 1] == ps + qs;
      assert qs[..n + 1] == qs;
      JoinSnoc(files, ps + qs, |ps| + n);
      JoinSnoc(files, qs, n);
    }
  }

  // Content that commutes with every part of a list commutes with their join.
  lemma {:induction false} JoinedCommutes(files: Files, ps: seq<string>, c: Bytes)
    requires forall p :: p in ps ==> p in files && files[p] + c == c + files[p]
    ensures Joined(files, ps) + c == c + Joined(files, ps)
    decreases |ps|
  {
    if ps != [] {
      var n := |ps| - 1;
      JoinedCommutes(files, ps[..n], c);
      assert ps[..n + 1] == ps;
      JoinSnoc(files, ps, n);
      var a, b := Joined(files, ps[..n]), files[ps[n]];
      assert ps[n] in ps;
      assert (a + b) + c == a + (b + c) == a + (c + b) == (a + c) + b == (c + a) + b == c + (a + b);
    }
  }

  // When equal numbers commute, all sorted lists of the same parts join to the same bytes.
  lemma {:induction false} SortedListsJoinSame(files: Files, ps: seq<string>, qs: seq<string>, key: string -> int)
    requires Distinct(ps) && Distinct(qs) && SortedBy(ps, key) && SortedBy(qs, key)
    requires (forall p :: p in ps <==> p in qs) && (forall p :: p in ps ==> p in files)
    requires TiesCommute(files, ps, key)
    ensures |ps| == |qs| && Joined(files, ps) == Joined(files, qs)
    decreases |ps|
  {
    assert |qs| > 0 ==> qs[0] in ps;
    if ps != [] {
      var n := |ps| - 1;
      assert ps[n] in qs;
      var i :| 0 <= i < |qs| && qs[i] == ps[n];
      SameWithoutLast(ps, qs, i);
      WithoutAtSorts(qs, i, key);
      SortedListsJoinSame(files, ps[..n], WithoutAt(qs, i), key);
      TiesMoveToEnd(files, ps, qs, i, key);
      assert ps[..n + 1] == ps;
      JoinSnoc(files, ps, n);
    }
  }

  ghost predicate TiesCommute(files: Files, ps: seq<string>, key: string -> int)
    requires forall p :: p in ps ==> p in files
  {
    forall p, q :: p in ps && q in ps && key(p) == key(q) ==> files[p] + files[q] == files[q] + files[p]
  }

  lemma TiesMoveToEnd(files: Files, ps: seq<string>, qs: seq<string>, i: nat, key: string -> int)
    requires ps != [] && SortedBy(ps, key) && SortedBy(qs, key)
    requires (forall p :: p in ps <==> p in qs) && (forall p :: p in ps ==> p in files)
    requires i < |qs| && qs[i] == ps[|ps| - 1] && TiesCommute(files, ps, key)
    ensures (forall q :: q in WithoutAt(qs, i) ==> q in files) && Joined(files, qs) == Joined(files, WithoutAt(qs, i)) + files[qs[i]]
  {
    TiesWithLast(ps, qs, i, key);
    forall q | q in qs[i + 1..] ensures files[q] + files[qs[i]] == files[qs[i]] + files[q] {
      assert q in ps && qs[i] in ps;
    }
    MoveToEnd(files, qs, i);
  }

  lemma MoveToEnd(files: Files, qs: seq<string>, i: nat)
    requires i < |qs| && forall q :: q in qs ==> q in files
    requires forall q :: q in qs[i + 1..] ==> files[q] + files[qs[i]] == files[qs[i]] + files[q]
    ensures forall q :: q in WithoutAt(qs, i) ==> q in files
    ensures Joined(files, qs) == Joined(files, WithoutAt(qs, i)) + files[qs[i]]
  {
    var a, b := qs[..i], qs[i + 1..];
    JoinedAppend(files, a, b);
    JoinedAppend(files, qs[..i + 1], b);
    assert qs[..i + 1] + b == qs;
    JoinSnoc(files, qs, i);
    JoinedCommutes(files, b, files[qs[i]]);
    SwapLast(Joined(files, a), files[qs[i]], Joined(files, b));
  }

  lemma SwapLast(a: Bytes, c: Bytes, b: Bytes)
    requires b + c == c + b
    ensures (a + c) + b == (a + b) + c
  {
    assert (a + c) + b == a + (c + b) && (a + b) + c == a + (b + c);
  }

  lemma OrderedJoinSame(files: Files, orig: string, ps: seq<string>, qs: seq<string>)
    requires Settled(files) && Ordered(files, orig, ps) && Ordered(files, orig, qs)
    ensures |ps| == |qs| && Joined(files, ps) == Joined(files, qs)
  {
    forall p, q | p in ps && q in ps && NumberOf()(p) == NumberOf()(q) ensures files[p] + files[q] == files[q] + files[p] {
      assert SameNumber(files, p, q);
    }
    SortedListsJoinSame(files, ps, qs, NumberOf());
  }

  lemma JoinIsUnique(files: Files, orig: string, a: Bytes, b: Bytes)
    requires Settled(files) && JoinsTo(files, orig, a) && JoinsTo(files, orig, b)
    ensures a == b
  {
    var ps :| Ordered(files, orig, ps) && a == Joined(files, ps);
    var qs :| Ordered(files, orig, qs) && b == Joined(files, qs);
    OrderedJoinSame(files, orig, ps, qs);
  }
}
