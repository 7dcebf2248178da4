// The score sheet built from a leaderboard: one row per entry, one column per
// homework that occurs in any of them.
module ExportGrid {
  import opened Wrappers
  import opened Leaderboard
  import opened Sorting

  datatype Cell = Text(text: string) | Number(value: int)

  // Cells by (column, row), both counted from 1.
  type Grid = map<(nat, nat), Cell>

  datatype Column = Column(id: Id, title: string)

  // Byte order of strings.
  predicate Less(a: string, b: string) {
    b != "" && (a == "" || a[0] < b[0] || (a[0] == b[0] && Less(a[1..], b[1..])))
  }

  // At the first difference the lesser string has the lesser byte, or has ended.
  lemma {:induction false} LessIff(a: string, b: string)
    ensures Less(a, b) <==> exists n :: DifferAt(a, b, n) && n < |b| && (n == |a| || a[n] < b[n])
  {
    if a != "" && b != "" && a[0] == b[0] {
      LessIff(a[1..], b[1..]);
      forall n: nat ensures DifferAt(a[1..], b[1..], n) <==> DifferAt(a, b, n + 1) {
        assert n + 1 <= |a| && n + 1 <= |b| ==> a[..n + 1] == [a[0]] + a[1..][..n] && b[..n + 1] == [b[0]] + b[1..][..n];
      }
      if n :| DifferAt(a, b, n) && n < |b| && (n == |a| || a[n] < b[n]) {
        assert n > 0 && DifferAt(a[1..], b[1..], n - 1);
      }
      if n :| DifferAt(a[1..], b[1..], n) && n < |b[1..]| && (n == |a[1..]| || a[1..][n] < b[1..][n]) {
        assert DifferAt(a, b, n + 1);
      }
    } else if a == "" || b == "" || a[0] < b[0] {
      assert DifferAt(a, b, 0);
    }
  }

  predicate DifferAt(a: string, b: string, n: int) {
    0 <= n <= |a| && n <= |b| && a[..n] == b[..n] && (n < |a| && n < |b| ==> a[n] != b[n])
  }

  lemma {:induction false} LessIsAsymmetric(a: string, b: string)
    ensures !(Less(a, b) && Less(b, a))
  {
    if a != "" && b != "" {
      LessIsAsymmetric(a[1..], b[1..]);
    }
  }

  ghost predicate ByTitle(cols: seq<Column>) {
    forall i :: 0 < i < |cols| ==> !Less(cols[i].title, cols[i - 1].title)
  }

  ghost predicate DistinctColumns(cols: seq<Column>) {
    forall i, j :: 0 <= i < j < |cols| ==> cols[i].id != cols[j].id
  }

  predicate HasHomework(e: Entry, id: Id) {
    exists h :: h in e.scores.homeworks && h.homeworkId == id
  }

  predicate HasColumn(cols: seq<Column>, id: Id) {
    exists i :: 0 <= i < |cols| && cols[i].id == id
  }

  // The total of one homework in an entry's list.
  function TotalOf(hws: seq<HomeworkScore>, id: Id): Option<int> {
    if hws == [] then None
    else if hws[|hws| - 1].homeworkId == id then Some(hws[|hws| - 1].total)
    else TotalOf(hws[..|hws| - 1], id)
  }

  function HeaderCell(cols: seq<Column>, col: nat): Option<Cell> {
    if col == 1 then Some(Text("Username"))
    else if col == |cols| + 2 then Some(Text("Total"))
    else if 2 <= col < |cols| + 2 then Some(Text(cols[col - 2].title)) else None
  }

  function HomeworkCell(hws: seq<HomeworkScore>, cols: seq<Column>, col: nat): Option<Cell> {
    if 2 <= col < |cols| + 2 then
      match TotalOf(hws, cols[col - 2].id)
      case None => None
      case Some(t) => Some(Number(t))
    else None
  }

  function EntryCell(e: Entry, cols: seq<Column>, col: nat): Option<Cell> {
    if col == 1 then Some(Text(e.scores.username))
    else if col == |cols| + 2 then Some(Number(e.scores.total))
    else HomeworkCell(e.scores.homeworks, cols, col)
  }

  // What each cell of the finished sheet holds.
  function CellAt(entries: seq<Entry>, cols: seq<Column>, at: (nat, nat)): Option<Cell> {
    if at.1 == 1 then HeaderCell(cols, at.0)
    else if 2 <= at.1 < |entries| + 2 then EntryCell(entries[at.1 - 2], cols, at.0)
    else None
  }

  function Shown(cell: Option<Cell>): int {
    if cell.Some? && cell.value.Number? then cell.value.value else 0
  }

  // The sum of a row's first k homework cells.
  function RowSum(grid: Grid, row: nat, k: nat): int {
    if k == 0 then 0 else RowSum(grid, row, k - 1) + Shown(Lookup(grid, (k + 1, row)))
  }

  // The Total cell of entry r's row is the sum of the row's n homework cells.
  predicate RowAddsUp(grid: Grid, r: nat, n: nat) {
    Lookup(grid, (n + 2, r + 2)) == Some(Number(RowSum(grid, r + 2, n)))
  }

  // The same sum, over an entry's own list.
  function ColumnSum(hws: seq<HomeworkScore>, cols: seq<Column>): int {
    if cols == [] then 0
    else ColumnSum(hws, cols[..|cols| - 1]) + (match TotalOf(hws, cols[|cols| - 1].id) case None => 0 case Some(t) => t)
  }

  lemma {:induction false} AbsentTotal(hws: seq<HomeworkScore>, id: Id)
    requires forall h :: h in hws ==> h.homeworkId != id
    ensures TotalOf(hws, id) == None
  {
    if hws != [] {
      AbsentTotal(hws[..|hws| - 1], id);
    }
  }

  // One homework more, of a new ID, adds its total in the one column it has.
  lemma {:induction false} ColumnSumGrows(hws: seq<HomeworkScore>, h: HomeworkScore, cols: seq<Column>)
    requires DistinctColumns(cols) && forall x :: x in hws ==> x.homeworkId != h.homeworkId
    ensures ColumnSum(hws + [h], cols) == ColumnSum(hws, cols) + if HasColumn(cols, h.homeworkId) then h.total else 0
  {
    if cols != [] {
      var n := |cols| - 1;
      ColumnSumGrows(hws, h, cols[..n]);
      assert (hws + [h])[..|hws|] == hws;
      if cols[n].id == h.homeworkId {
        AbsentTotal(hws, h.homeworkId);
        assert !HasColumn(cols[..n], h.homeworkId);
      } else if HasColumn(cols, h.homeworkId) {
        var i :| 0 <= i < |cols| && cols[i].id == h.homeworkId;
        assert cols[..n][i].id == h.homeworkId;
      }
    }
  }

  // Over columns that cover a list of distinct homeworks, nothing is lost or counted twice.
  lemma {:induction false} ColumnsCoverTotal(hws: seq<HomeworkScore>, cols: seq<Column>)
    requires DistinctColumns(cols) && DistinctHomeworks(hws) && forall h :: h in hws ==> HasColumn(cols, h.homeworkId)
    ensures ColumnSum(hws, cols) == SumHomeworks(hws)
    decreases |hws|
  {
    if hws == [] {
      EmptySum(cols);
    } else {
      var n := |hws| - 1;
      ColumnsCoverTotal(hws[..n], cols);
      assert hws == hws[..n] + [hws[n]];
      ColumnSumGrows(hws[..n], hws[n], cols);
    }
  }

  lemma {:induction false} EmptySum(cols: seq<Column>)
    ensures ColumnSum([], cols) == 0
  {
    if cols != [] {
      EmptySum(cols[..|cols| - 1]);
    }
  }

  lemma {:induction false} RowIsColumnSum(entries: seq<Entry>, cols: seq<Column>, grid: Grid, r: nat, k: nat)
    requires r < |entries| && k <= |cols| && forall at :: Lookup(grid, at) == CellAt(entries, cols, at)
    ensures RowSum(grid, r + 2, k) == ColumnSum(entries[r].scores.homeworks, cols[..k])
  {
    if k > 0 {
      RowIsColumnSum(entries, cols, grid, r, k - 1);
      assert cols[..k][..k - 1] == cols[..k - 1];
      assert Lookup(grid, (k + 1, r + 2)) == CellAt(entries, cols, (k + 1, r + 2));
    }
  }

  // On a leaderboard's entries, each row's homework cells sum to its Total cell.
  lemma RowSumsToTotal(rows: seq<ScoreRow>, entries: seq<Entry>, cols: seq<Column>, grid: Grid, r: nat)
    requires r < |entries| && Summarises(rows, entries[r].userId, entries[r].scores)
    requires DistinctColumns(cols) && forall id :: HasHomework(entries[r], id) ==> HasColumn(cols, id)
    requires forall at :: Lookup(grid, at) == CellAt(entries, cols, at)
    ensures RowAddsUp(grid, r, |cols|)
  {
    var hws := entries[r].scores.homeworks;
    forall h | h in hws ensures HasColumn(cols, h.homeworkId) {
      assert HasHomework(entries[r], h.homeworkId);
    }
    ColumnsCoverTotal(hws, cols);
    RowIsColumnSum(entries, cols, grid, r, |cols|);
    assert cols[..|cols|] == cols;
    assert Lookup(grid, (|cols| + 2, r + 2)) == CellAt(entries, cols, (|cols| + 2, r + 2));
  }

  // sort.Slice by title; columns with equal titles may come in any order.
  method SortByTitle(cols: seq<Column>) returns (r: seq<Column>)
    ensures ByTitle(r) && multiset(r) == multiset(cols)
  {
    r := [];
    for i := 0 to |cols|
      invariant ByTitle(r) && multiset(r) == multiset(cols[..i])
    {
      assert cols[..i + 1] == cols[..i] + [cols[i]];
      r := InsertByTitle(r, cols[i]);
    }
    assert cols[..|cols|] == cols;
  }

  method InsertByTitle(cols: seq<Column>, c: Column) returns (r: seq<Column>)
    requires ByTitle(cols)
    ensures ByTitle(r) && multiset(r) == multiset(cols) + multiset{c}
  {
    var j := |cols|;
    while j > 0 && Less(c.title, cols[j - 1].title)
      invariant 0 <= j <= |cols|
      invariant j < |cols| ==> Less(c.title, cols[j].title)
    {
      j := j - 1;
    }
    if j < |cols| {
      LessIsAsymmetric(c.title, cols[j].title);
    }
    InsertedByTitle(cols, c, j);
    InsertedElements(cols, c, j);
    r := cols[..j] + [c] + cols[j..];
  }

  lemma InsertedByTitle(cols: seq<Column>, c: Column, j: nat)
    requires ByTitle(cols) && j <= |cols|
    requires j > 0 ==> !Less(c.title, cols[j - 1].title)
    requires j < |cols| ==> !Less(cols[j].title, c.title)
    ensures ByTitle(cols[..j] + [c] + cols[j..])
  {
    var r := cols[..j] + [c] + cols[j..];
    forall i | 0 < i < |r| ensures !Less(r[i].title, r[i - 1].title) {
      assert r[i] == if i < j then cols[i] else if i == j then c else cols[i - 1];
      assert r[i - 1] == if i - 1 < j then cols[i - 1] else if i - 1 == j then c else cols[i - 2];
    }
  }

  // The column's title is one its homework has in some entry.
  ghost predicate TitleFrom(entries: seq<Entry>, c: Column) {
    exists i :: 0 <= i < |entries| && TitledIn(entries[i].scores.homeworks, c)
  }

  ghost predicate TitledIn(hws: seq<HomeworkScore>, c: Column) {
    exists h :: h in hws && h.homeworkId == c.id && h.title == c.title
  }

  // The first loop: every homework once, under the title it first comes with.
  method CollectColumns(entries: seq<Entry>) returns (cols: seq<Column>)
    ensures DistinctColumns(cols) && forall c :: c in cols ==> TitleFrom(entries, c)
    ensures forall id :: HasColumn(cols, id) <==> exists i :: 0 <= i < |entries| && HasHomework(entries[i], id)
  {
    cols := [];
    var seen: set<Id> := {};
    for i := 0 to |entries|
      invariant DistinctColumns(cols) && forall c :: c in cols ==> TitleFrom(entries, c)
      invariant forall id :: id in seen <==> HasColumn(cols, id)
      invariant forall id :: id in seen <==> exists k :: 0 <= k < i && HasHomework(entries[k], id)
    {
      var hws := entries[i].scores.homeworks;
      ghost var before := seen;
      cols, seen := CollectFrom(hws, cols, seen);
      forall id ensures id in seen <==> id in before || HasHomework(entries[i], id) {
      }
    }
  }

  method CollectFrom(hws: seq<HomeworkScore>, cols: seq<Column>, seen: set<Id>)
    returns (cols': seq<Column>, seen': set<Id>)
    requires DistinctColumns(cols) && forall id :: id in seen <==> HasColumn(cols, id)
    ensures DistinctColumns(cols') && forall id :: id in seen' <==> HasColumn(cols', id)
    ensures forall id :: id in seen' <==> id in seen || exists h :: h in hws && h.homeworkId == id
    ensures forall c :: c in cols' ==> c in cols || TitledIn(hws, c)
  {
    cols', seen' := cols, seen;
    for j := 0 to |hws|
      invariant DistinctColumns(cols') && forall id :: id in seen' <==> HasColumn(cols', id)
      invariant forall id :: id in seen' <==> id in seen || exists k :: 0 <= k < j && hws[k].homeworkId == id
      invariant forall c :: c in cols' ==> c in cols || TitledIn(hws, c)
    {
      var h := hws[j];
      assert TitledIn(hws, Column(h.homeworkId, h.title));
      if h.homeworkId !in seen' {
        ColumnAdded(cols', Column(h.homeworkId, h.title));
        seen' := seen' + {h.homeworkId};
        cols' := cols' + [Column(h.homeworkId, h.title)];
      }
    }
    forall id ensures id in seen' <==> id in seen || exists h :: h in hws && h.homeworkId == id {
      if k :| 0 <= k < |hws| && hws[k].homeworkId == id {
        assert hws[k] in hws;
      }
    }
  }

  lemma ColumnAdded(cols: seq<Column>, c: Column)
    ensures forall id :: HasColumn(cols + [c], id) <==> HasColumn(cols, id) || id == c.id
  {
    forall id ensures HasColumn(cols + [c], id) <==> HasColumn(cols, id) || id == c.id {
      if i :| 0 <= i < |cols| && cols[i].id == id {
        assert (cols + [c])[i].id == id;
      }
      assert (cols + [c])[|cols|] == c;
    }
  }

  lemma SortedColumns(cols: seq<Column>, r: seq<Column>)
    requires DistinctColumns(cols) && multiset(r) == multiset(cols)
    ensures DistinctColumns(r) && forall id :: HasColumn(r, id) <==> HasColumn(cols, id)
  {
    SameElements(r, cols);
    var key := (c: Column) => c.id as int;
    forall i, j | 0 <= i < j < |r| ensures r[i].id != r[j].id {
      if r[i].id == r[j].id {
        assert r[i] in cols && r[j] in cols;
        assert r[i] == r[j];
        Twice(r, i, j);
        Once(cols, r[i], key);
      }
    }
    forall id ensures HasColumn(r, id) <==> HasColumn(cols, id) {
      if i :| 0 <= i < |r| && r[i].id == id { assert r[i] in cols; }
      if i :| 0 <= i < |cols| && cols[i].id == id { assert cols[i] in r; }
    }
  }

  method WriteHeaders(cols: seq<Column>) returns (grid: Grid)
    ensures forall at :: Lookup(grid, at) == if at.1 == 1 then HeaderCell(cols, at.0) else None
    ensures |grid| == |cols| + 2
  {
    grid := map[(1, 1) := Text("Username")];
    for i := 0 to |cols|
      invariant forall at: (nat, nat) :: Lookup(grid, at) == if at.1 == 1 && at.0 < i + 2 then HeaderCell(cols, at.0) else None
      invariant |grid| == i + 1
    {
      assert Lookup(grid, (i + 2, 1)) == None;
      grid := grid[(i + 2, 1) := Text(cols[i].title)];
    }
    assert Lookup(grid, (|cols| + 2, 1)) == None;
    grid := grid[(|cols| + 2, 1) := Text("Total")];
  }

  // hwColIndex: each homework's column number, from 2 to the number of columns plus one.
  method IndexColumns(cols: seq<Column>) returns (index: map<Id, nat>)
    requires DistinctColumns(cols)
    ensures forall id :: id in index <==> HasColumn(cols, id)
    ensures forall id :: id in index ==> 2 <= index[id] < |cols| + 2 && cols[index[id] - 2].id == id
  {
    index := map[];
    for i := 0 to |cols|
      invariant forall id :: id in index <==> HasColumn(cols[..i], id)
      invariant forall id :: id in index ==> 2 <= index[id] < i + 2 && cols[index[id] - 2].id == id
    {
      assert cols[..i] + [cols[i]] == cols[..i + 1];
      ColumnAdded(cols[..i], cols[i]);
      index := index[cols[i].id := i + 2];
    }
    assert cols[..|cols|] == cols;
  }

  // One row: the user name, a cell per homework of the entry, the total. No cell
  // is written twice, so each write adds one.
  method WriteRow(grid: Grid, row: nat, e: Entry, cols: seq<Column>, index: map<Id, nat>) returns (r: Grid)
    requires DistinctColumns(cols) && DistinctHomeworks(e.scores.homeworks)
    requires forall id :: HasHomework(e, id) ==> id in index
    requires forall id :: id in index ==> 2 <= index[id] < |cols| + 2 && cols[index[id] - 2].id == id
    requires forall at :: at in grid ==> at.1 != row
    ensures forall at :: Lookup(r, at) == if at.1 == row then EntryCell(e, cols, at.0) else Lookup(grid, at)
    ensures |r| == |grid| + |e.scores.homeworks| + 2
  {
    r := grid[(1, row) := Text(e.scores.username)];
    r := WriteHomeworks(r, row, e, cols, index);
    assert Lookup(r, (|cols| + 2, row)) == None;
    r := r[(|cols| + 2, row) := Number(e.scores.total)];
  }

  // The score cells of one row, beside its name.
  method WriteHomeworks(grid: Grid, row: nat, e: Entry, cols: seq<Column>, index: map<Id, nat>) returns (r: Grid)
    requires DistinctColumns(cols) && DistinctHomeworks(e.scores.homeworks)
    requires forall id :: HasHomework(e, id) ==> id in index
    requires forall id :: id in index ==> 2 <= index[id] < |cols| + 2 && cols[index[id] - 2].id == id
    requires forall at :: at in grid && at.1 == row ==> at.0 == 1
    ensures forall at :: Lookup(r, at) ==
              if at.1 == row && at.0 != 1 then HomeworkCell(e.scores.homeworks, cols, at.0) else Lookup(grid, at)
    ensures |r| == |grid| + |e.scores.homeworks|
  {
    var hws := e.scores.homeworks;
    r := grid;
    NoCells(grid, row, cols);
    for j := 0 to |hws|
      invariant HasCells(grid, row, hws[..j], cols, r)
      invariant |r| == |grid| + j
    {
      assert hws[j] in hws && HasHomework(e, hws[j].homeworkId);
      var col := index[hws[j].homeworkId];
      NextCell(grid, row, hws, j, cols, col, r);
      r := r[(col, row) := Number(hws[j].total)];
    }
    assert hws[..|hws|] == hws;
  }

  // The score cells of some homeworks have been written into the row.
  ghost predicate HasCells(grid: Grid, row: nat, hws: seq<HomeworkScore>, cols: seq<Column>, r: Grid) {
    forall at :: Lookup(r, at) == if at.1 == row && at.0 != 1 then HomeworkCell(hws, cols, at.0) else Lookup(grid, at)
  }

  lemma NoCells(grid: Grid, row: nat, cols: seq<Column>)
    requires forall at :: at in grid && at.1 == row ==> at.0 == 1
    ensures HasCells(grid, row, [], cols, grid)
  {
  }

  lemma NextCell(grid: Grid, row: nat, hws: seq<HomeworkScore>, j: nat, cols: seq<Column>, col: nat, r: Grid)
    requires j < |hws| && DistinctHomeworks(hws) && DistinctColumns(cols)
    requires 2 <= col < |cols| + 2 && cols[col - 2].id == hws[j].homeworkId
    requires HasCells(grid, row, hws[..j], cols, r)
    ensures (col, row) !in r && HasCells(grid, row, hws[..j + 1], cols, r[(col, row) := Number(hws[j].total)])
  {
    NextHomework(hws, j, cols, col);
    assert Lookup(r, (col, row)) == None;
  }

  lemma NextHomework(hws: seq<HomeworkScore>, j: nat, cols: seq<Column>, col: nat)
    requires j < |hws| && DistinctHomeworks(hws) && DistinctColumns(cols)
    requires 2 <= col < |cols| + 2 && cols[col - 2].id == hws[j].homeworkId
    ensures HomeworkCell(hws[..j], cols, col) == None
    ensures forall c :: HomeworkCell(hws[..j + 1], cols, c) ==
              if c == col then Some(Number(hws[j].total)) else HomeworkCell(hws[..j], cols, c)
  {
    assert hws[..j + 1][..j] == hws[..j];
    AbsentTotal(hws[..j], hws[j].homeworkId);
  }

  lemma {:induction false} ListedTotal(hws: seq<HomeworkScore>, j: nat)
    requires DistinctHomeworks(hws) && j < |hws|
    ensures TotalOf(hws, hws[j].homeworkId) == Some(hws[j].total)
    decreases |hws|
  {
    if j < |hws| - 1 {
      ListedTotal(hws[..|hws| - 1], j);
    }
  }

  lemma {:induction false} ListedOnly(hws: seq<HomeworkScore>, id: Id)
    requires TotalOf(hws, id).Some?
    ensures exists h :: h in hws && h.homeworkId == id && TotalOf(hws, id) == Some(h.total)
  {
    if hws[|hws| - 1].homeworkId != id {
      ListedOnly(hws[..|hws| - 1], id);
    } else {
      assert hws[|hws| - 1] in hws;
    }
  }

  // The header row: the user's column, the homeworks' titles, the total.
  ghost predicate HeadedBy(grid: Grid, cols: seq<Column>) {
    && Lookup(grid, (1, 1)) == Some(Text("Username")) && Lookup(grid, (|cols| + 2, 1)) == Some(Text("Total"))
    && forall i :: 0 <= i < |cols| ==> Lookup(grid, (i + 2, 1)) == Some(Text(cols[i].title))
  }

  lemma HeaderReads(entries: seq<Entry>, cols: seq<Column>, grid: Grid)
    requires forall at :: Lookup(grid, at) == CellAt(entries, cols, at)
    ensures HeadedBy(grid, cols)
  {
    assert Lookup(grid, (1, 1)) == CellAt(entries, cols, (1, 1));
    assert Lookup(grid, (|cols| + 2, 1)) == CellAt(entries, cols, (|cols| + 2, 1));
    forall i | 0 <= i < |cols| ensures Lookup(grid, (i + 2, 1)) == Some(Text(cols[i].title)) {
      assert Lookup(grid, (i + 2, 1)) == CellAt(entries, cols, (i + 2, 1));
    }
  }

  // Row r + 2 is about entry r: its name, its total, a cell for each of its
  // homeworks in that homework's column, and no other cell.
  ghost predicate RowIsAbout(grid: Grid, cols: seq<Column>, index: map<Id, nat>, r: nat, e: Entry) {
    && Lookup(grid, (1, r + 2)) == Some(Text(e.scores.username))
    && Lookup(grid, (|cols| + 2, r + 2)) == Some(Number(e.scores.total))
    && (forall j :: 0 <= j < |e.scores.homeworks| ==>
         var h := e.scores.homeworks[j];
         h.homeworkId in index && Lookup(grid, (index[h.homeworkId], r + 2)) == Some(Number(h.total)))
    && (forall at :: at in grid && at.1 == r + 2 ==>
         at.0 == 1 || at.0 == |cols| + 2 || exists h :: h in e.scores.homeworks && h.homeworkId in index && index[h.homeworkId] == at.0)
  }

  lemma SheetReads(entries: seq<Entry>, cols: seq<Column>, index: map<Id, nat>, grid: Grid, r: nat)
    requires r < |entries| && DistinctColumns(cols) && DistinctHomeworks(entries[r].scores.homeworks)
    requires forall id :: HasHomework(entries[r], id) ==> id in index
    requires forall id :: id in index ==> 2 <= index[id] < |cols| + 2 && cols[index[id] - 2].id == id
    requires forall at :: Lookup(grid, at) == CellAt(entries, cols, at)
    ensures RowIsAbout(grid, cols, index, r, entries[r])
  {
    var hws := entries[r].scores.homeworks;
    assert Lookup(grid, (1, r + 2)) == CellAt(entries, cols, (1, r + 2));
    assert Lookup(grid, (|cols| + 2, r + 2)) == CellAt(entries, cols, (|cols| + 2, r + 2));
    forall j | 0 <= j < |hws|
      ensures hws[j].homeworkId in index && Lookup(grid, (index[hws[j].homeworkId], r + 2)) == Some(Number(hws[j].total))
    {
      assert hws[j] in hws && HasHomework(entries[r], hws[j].homeworkId);
      ListedTotal(hws, j);
      var at := (index[hws[j].homeworkId], r + 2);
      assert Lookup(grid, at) == CellAt(entries, cols, at);
    }
    forall at | at in grid && at.1 == r + 2 && at.0 != 1 && at.0 != |cols| + 2
      ensures exists h :: h in hws && h.homeworkId in index && index[h.homeworkId] == at.0
    {
      assert Lookup(grid, at) == CellAt(entries, cols, at);
      ListedOnly(hws, cols[at.0 - 2].id);
      var h :| h in hws && h.homeworkId == cols[at.0 - 2].id;
      assert HasHomework(entries[r], h.homeworkId);
    }
  }

  // The whole sheet, the column of each homework, and how many cells were written.
  method BuildSheet(entries: seq<Entry>) returns (grid: Grid, cols: seq<Column>, index: map<Id, nat>, writes: nat)
    requires forall i :: 0 <= i < |entries| ==> DistinctHomeworks(entries[i].scores.homeworks)
    ensures DistinctColumns(cols) && ByTitle(cols) && forall c :: c in cols ==> TitleFrom(entries, c)
    ensures forall id :: id in index <==> exists i :: 0 <= i < |entries| && HasHomework(entries[i], id)
    ensures forall id :: id in index ==> 2 <= index[id] < |cols| + 2 && cols[index[id] - 2].id == id
    ensures forall at :: Lookup(grid, at) == CellAt(entries, cols, at)
    ensures HeadedBy(grid, cols) && forall i :: 0 <= i < |entries| ==> RowIsAbout(grid, cols, index, i, entries[i])
    ensures writes == |grid|
  {
    var found := CollectColumns(entries);
    cols := SortByTitle(found);
    SortedColumns(found, cols);
    SameElements(found, cols);
    index := IndexColumns(cols);
    grid := WriteHeaders(cols);
    writes := |cols| + 2;
    for i := 0 to |entries|
      invariant forall at :: Lookup(grid, at) == CellAt(entries[..i], cols, at)
      invariant writes == |grid|
    {
      forall at | at in grid ensures at.1 != i + 2 {
        assert Lookup(grid, at) == CellAt(entries[..i], cols, at);
      }
      grid := WriteRow(grid, i + 2, entries[i], cols, index);
      writes := writes + |entries[i].scores.homeworks| + 2;
      forall at ensures Lookup(grid, at) == CellAt(entries[..i + 1], cols, at) {
      }
    }
    assert entries[..|entries|] == entries;
    HeaderReads(entries, cols, grid);
    forall i | 0 <= i < |entries| ensures RowIsAbout(grid, cols, index, i, entries[i]) {
      SheetReads(entries, cols, index, grid, i);
    }
  }

  // The export of a course: a sheet of its leaderboard in which every row adds up.
  method ExportScores(rows: seq<ScoreRow>) returns (entries: seq<Entry>, grid: Grid, cols: seq<Column>)
    ensures forall u :: Appears(rows, u) <==> exists e :: e in entries && e.userId == u
    ensures forall i :: 0 <= i < |entries| ==> Summarises(rows, entries[i].userId, entries[i].scores)
    ensures DistinctColumns(cols) && forall at :: Lookup(grid, at) == CellAt(entries, cols, at)
    ensures forall i :: 0 <= i < |entries| ==> RowAddsUp(grid, i, |cols|)
  {
    entries := GetLeaderboard(rows);
    var index, writes;
    grid, cols, index, writes := BuildSheet(entries);
    forall i | 0 <= i < |entries| ensures RowAddsUp(grid, i, |cols|) {
      forall id | HasHomework(entries[i], id) ensures HasColumn(cols, id) {
        assert id in index;
      }
      RowSumsToTotal(rows, entries, cols, grid, i);
    }
  }
}
