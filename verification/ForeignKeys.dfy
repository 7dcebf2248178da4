// Foreign keys of the target database: what a row refers to, and what the
// deletion of rows takes with it.
module ForeignKeys {
  import opened Wrappers
  import opened Rows

  type Db = map<string, Table>

  // A row of the database: its table and its key.
  type RowId = (string, Key)

  datatype OnDelete = Cascade | SetNull

  // The columns `cols` of `child` refer to the primary key of `parent`.
  datatype ForeignKey = ForeignKey(child: string, cols: seq<string>, parent: string, onDelete: OnDelete)

  predicate HasRow(db: Db, x: RowId) { x.0 in db && x.1 in db[x.0] }

  function RowIds(db: Db): set<RowId> {
    set name, k | name in db && k in db[name] :: (name, k)
  }

  // The values of some columns; none if one of them is NULL.
  function ValuesOf(cols: seq<string>, row: Row): Option<Key> {
    if forall c :: c in cols ==> c in row && row[c] != Null
    then Some(seq(|cols|, i requires 0 <= i < |cols| => assert cols[i] in cols; row[cols[i]]))
    else None
  }

  // Row x refers to row y through one foreign key.
  predicate Refers(db: Db, fk: ForeignKey, x: RowId, y: RowId) {
    HasRow(db, x) && fk.child == x.0 && fk.parent == y.0 && ValuesOf(fk.cols, db[x.0][x.1]) == Some(y.1)
  }

  // Deleting y deletes x.
  predicate CascadesTo(db: Db, fks: set<ForeignKey>, x: RowId, y: RowId) {
    exists fk :: fk in fks && fk.onDelete.Cascade? && Refers(db, fk, x, y)
  }

  // Each row of p goes with the next one.
  ghost predicate Cascades(db: Db, fks: set<ForeignKey>, p: seq<RowId>) {
    forall i :: 0 <= i < |p| - 1 ==> CascadesTo(db, fks, p[i], p[i + 1])
  }

  ghost predicate LeadsTo(db: Db, fks: set<ForeignKey>, p: seq<RowId>, x: RowId, dead: set<RowId>) {
    p != [] && Cascades(db, fks, p) && p[0] == x && p[|p| - 1] in dead
  }

  // x is one of the rows to delete, or refers to one directly or through a chain of cascades.
  ghost predicate Falls(db: Db, fks: set<ForeignKey>, dead: set<RowId>, x: RowId) {
    exists p :: LeadsTo(db, fks, p, x, dead)
  }

  ghost function Fallen(db: Db, fks: set<ForeignKey>, dead: set<RowId>): set<RowId> {
    set x | x in RowIds(db) && Falls(db, fks, dead, x)
  }

  // Column c of a surviving row is set to NULL, because its parent goes.
  predicate Cleared(fks: set<ForeignKey>, name: string, row: Row, c: string, gone: set<RowId>) {
    exists fk :: fk in fks && Clears(fk, name, row, c, gone)
  }

  predicate Clears(fk: ForeignKey, name: string, row: Row, c: string, gone: set<RowId>) {
    && fk.onDelete.SetNull? && fk.child == name && c in fk.cols
    && ValuesOf(fk.cols, row).Some? && (fk.parent, ValuesOf(fk.cols, row).value) in gone
  }

  function ClearedRow(fks: set<ForeignKey>, name: string, row: Row, gone: set<RowId>): Row {
    map c | c in row :: if Cleared(fks, name, row, c, gone) then Null else row[c]
  }

  function TableWithout(fks: set<ForeignKey>, name: string, t: Table, gone: set<RowId>): Table {
    map k | k in t && (name, k) !in gone :: ClearedRow(fks, name, t[k], gone)
  }

  // The database without the rows in `gone`, and without references to them.
  function Without(db: Db, fks: set<ForeignKey>, gone: set<RowId>): Db {
    map name | name in db :: TableWithout(fks, name, db[name], gone)
  }

  // What a DELETE of the rows in `dead` leaves: everything that falls is gone.
  ghost function Deleted(db: Db, fks: set<ForeignKey>, dead: set<RowId>): Db {
    Without(db, fks, Fallen(db, fks, dead))
  }

  // A column that SET NULL clears belongs to one foreign key of its table only.
  ghost predicate Separate(fks: set<ForeignKey>) {
    forall f, g :: f in fks && g in fks && f.onDelete.SetNull? && f.child == g.child && f != g ==> Disjoint(f.cols, g.cols)
  }

  predicate Disjoint(cs: seq<string>, ds: seq<string>) {
    forall c :: c in cs ==> c !in ds
  }

  lemma SameValues(cols: seq<string>, row: Row, kept: Row)
    requires forall c :: c in cols ==> Lookup(row, c) == Lookup(kept, c)
    ensures ValuesOf(cols, row) == ValuesOf(cols, kept)
  {
    assert forall c :: c in cols ==> (c in row <==> c in kept) && (c in row ==> row[c] == kept[c]);
    if ValuesOf(cols, row).Some? {
      assert ValuesOf(cols, row).value == ValuesOf(cols, kept).value;
    }
  }

  // Clearing leaves the columns of a foreign key alone, or clears it as a whole.
  lemma ClearedValues(fks: set<ForeignKey>, name: string, row: Row, gone: set<RowId>, fk: ForeignKey, c: string)
    requires Separate(fks) && fk in fks && fk.child == name && c in fk.cols && !Cleared(fks, name, row, c, gone)
    ensures ValuesOf(fk.cols, ClearedRow(fks, name, row, gone)) == ValuesOf(fk.cols, row)
  {
    forall d | d in fk.cols ensures !Cleared(fks, name, row, d, gone) {
      ClearedTogether(fks, name, row, gone, fk, c, d);
    }
    SameValues(fk.cols, row, ClearedRow(fks, name, row, gone));
  }

  lemma ClearedTogether(fks: set<ForeignKey>, name: string, row: Row, gone: set<RowId>, fk: ForeignKey, c: string, d: string)
    requires Separate(fks) && fk in fks && fk.child == name && c in fk.cols && d in fk.cols
    ensures Cleared(fks, name, row, d, gone) ==> Cleared(fks, name, row, c, gone)
  {
    if f :| f in fks && Clears(f, name, row, d, gone) {
      assert f == fk;
      assert Clears(fk, name, row, c, gone);
    }
  }

  lemma CascadesKeepValues(fks: set<ForeignKey>, name: string, row: Row, gone: set<RowId>, fk: ForeignKey)
    requires Separate(fks) && fk in fks && fk.child == name && fk.onDelete.Cascade?
    ensures ValuesOf(fk.cols, ClearedRow(fks, name, row, gone)) == ValuesOf(fk.cols, row)
  {
    if c :| c in fk.cols {
      assert !Cleared(fks, name, row, c, gone);
      ClearedValues(fks, name, row, gone, fk, c);
    } else {
      SameValues(fk.cols, row, ClearedRow(fks, name, row, gone));
    }
  }

  lemma ClearedTwice(fks: set<ForeignKey>, name: string, row: Row, a: set<RowId>, b: set<RowId>)
    requires Separate(fks)
    ensures ClearedRow(fks, name, ClearedRow(fks, name, row, a), b) == ClearedRow(fks, name, row, a + b)
  {
    var once := ClearedRow(fks, name, row, a);
    forall c | c in row
      ensures (if Cleared(fks, name, once, c, b) then Null else once[c])
              == if Cleared(fks, name, row, c, a + b) then Null else row[c]
    {
      if Cleared(fks, name, row, c, a) {
        var fk :| fk in fks && Clears(fk, name, row, c, a);
        assert Clears(fk, name, row, c, a + b);
      } else {
        forall fk | fk in fks ensures Clears(fk, name, once, c, b) <==> Clears(fk, name, row, c, a + b) {
          if fk.child == name && c in fk.cols {
            ClearedValues(fks, name, row, a, fk, c);
            assert !Clears(fk, name, row, c, a);
          }
        }
      }
    }
  }

  lemma WithoutTwice(db: Db, fks: set<ForeignKey>, a: set<RowId>, b: set<RowId>)
    requires Separate(fks)
    ensures Without(Without(db, fks, a), fks, b) == Without(db, fks, a + b)
  {
    forall name | name in db
      ensures TableWithout(fks, name, TableWithout(fks, name, db[name], a), b) == TableWithout(fks, name, db[name], a + b)
    {
      forall k | k in db[name]
        ensures ClearedRow(fks, name, ClearedRow(fks, name, db[name][k], a), b) == ClearedRow(fks, name, db[name][k], a + b)
      {
        ClearedTwice(fks, name, db[name][k], a, b);
      }
    }
  }

  // Deletions only remove cascade references, they never change one.
  lemma SurvivorsCascade(db: Db, fks: set<ForeignKey>, gone: set<RowId>, x: RowId, y: RowId)
    requires Separate(fks) && HasRow(db, x) && x !in gone
    ensures CascadesTo(Without(db, fks, gone), fks, x, y) <==> CascadesTo(db, fks, x, y)
  {
    forall fk | fk in fks && fk.onDelete.Cascade?
      ensures Refers(Without(db, fks, gone), fk, x, y) <==> Refers(db, fk, x, y)
    {
      if fk.child == x.0 {
        CascadesKeepValues(fks, x.0, db[x.0][x.1], gone, fk);
      }
    }
  }

  lemma FallsThrough(db: Db, fks: set<ForeignKey>, dead: set<RowId>, p: seq<RowId>, i: nat)
    requires Cascades(db, fks, p) && i < |p| && Falls(db, fks, dead, p[i])
    ensures Falls(db, fks, dead, p[0])
  {
    var q :| LeadsTo(db, fks, q, p[i], dead);
    var r := p[..i] + q;
    forall j | 0 <= j < |r| - 1 ensures CascadesTo(db, fks, r[j], r[j + 1]) {
      if j < i {
        assert r[j] == p[j] && r[j + 1] == p[j + 1];
      } else {
        assert r[j] == q[j - i] && r[j + 1] == q[j - i + 1];
      }
    }
    assert LeadsTo(db, fks, r, p[0], dead);
  }

  // What falls to the second deletion, in the database the first one left.
  lemma FallenTwice(db: Db, fks: set<ForeignKey>, a: set<RowId>, b: set<RowId>)
    requires Separate(fks) && a <= RowIds(db) && b <= RowIds(db)
    ensures var left := Deleted(db, fks, a);
            Fallen(db, fks, a) + Fallen(left, fks, b * RowIds(left)) == Fallen(db, fks, a + b)
  {
    var gone, left := Fallen(db, fks, a), Deleted(db, fks, a);
    forall x ensures x in RowIds(left) <==> x in RowIds(db) && x !in gone {
    }
    forall x | x in RowIds(db) && x !in gone
      ensures Falls(left, fks, b * RowIds(left), x) <==> Falls(db, fks, a + b, x)
    {
      if Falls(left, fks, b * RowIds(left), x) {
        FallsBefore(db, fks, a, b, x);
      }
      if Falls(db, fks, a + b, x) {
        FallsAfter(db, fks, a, b, x);
      }
    }
    forall x | x in gone ensures Falls(db, fks, a + b, x) {
      var p :| LeadsTo(db, fks, p, x, a);
      assert LeadsTo(db, fks, p, x, a + b);
    }
  }

  lemma FallsBefore(db: Db, fks: set<ForeignKey>, a: set<RowId>, b: set<RowId>, x: RowId)
    requires Separate(fks)
    requires var left := Deleted(db, fks, a); Falls(left, fks, b * RowIds(left), x)
    ensures Falls(db, fks, a + b, x)
  {
    var left := Deleted(db, fks, a);
    var p :| LeadsTo(left, fks, p, x, b * RowIds(left));
    forall i | 0 <= i < |p| - 1 ensures CascadesTo(db, fks, p[i], p[i + 1]) {
      assert CascadesTo(left, fks, p[i], p[i + 1]);
      SurvivorsCascade(db, fks, Fallen(db, fks, a), p[i], p[i + 1]);
    }
    assert LeadsTo(db, fks, p, x, a + b);
  }

  lemma FallsAfter(db: Db, fks: set<ForeignKey>, a: set<RowId>, b: set<RowId>, x: RowId)
    requires Separate(fks) && a <= RowIds(db) && b <= RowIds(db)
    requires Falls(db, fks, a + b, x) && !Falls(db, fks, a, x)
    ensures var left := Deleted(db, fks, a); Falls(left, fks, b * RowIds(left), x)
  {
    var left := Deleted(db, fks, a);
    var p :| LeadsTo(db, fks, p, x, a + b);
    var n := |p| - 1;
    forall i | 0 <= i <= n ensures !Falls(db, fks, a, p[i]) && HasRow(db, p[i]) {
      if Falls(db, fks, a, p[i]) {
        FallsThrough(db, fks, a, p, i);
      }
      if i < n {
        assert CascadesTo(db, fks, p[i], p[i + 1]);
      }
    }
    if p[n] in a {
      assert LeadsTo(db, fks, [p[n]], p[n], a);
    }
    forall i | 0 <= i < n ensures CascadesTo(left, fks, p[i], p[i + 1]) {
      SurvivorsCascade(db, fks, Fallen(db, fks, a), p[i], p[i + 1]);
    }
    assert LeadsTo(left, fks, p, x, b * RowIds(left));
  }

  // Deleting some rows and then those of some others that are left is deleting
  // all of them at once.
  lemma DeletedTwice(db: Db, fks: set<ForeignKey>, a: set<RowId>, b: set<RowId>)
    requires Separate(fks) && a <= RowIds(db) && b <= RowIds(db)
    ensures var left := Deleted(db, fks, a);
            Deleted(left, fks, b * RowIds(left)) == Deleted(db, fks, a + b)
  {
    var left := Deleted(db, fks, a);
    FallenTwice(db, fks, a, b);
    WithoutTwice(db, fks, Fallen(db, fks, a), Fallen(left, fks, b * RowIds(left)));
  }

  // The rows left that cascade from the ones gone.
  function Referring(db: Db, fks: set<ForeignKey>, gone: set<RowId>): set<RowId> {
    set x | x in RowIds(db) && x !in gone && CascadesInto(db, fks, x, gone)
  }

  predicate CascadesInto(db: Db, fks: set<ForeignKey>, x: RowId, gone: set<RowId>) {
    exists y :: y in gone && CascadesTo(db, fks, x, y)
  }

  // `gone` holds the rows to delete, and some that fall with them.
  ghost predicate AmongFallen(db: Db, fks: set<ForeignKey>, dead: set<RowId>, gone: set<RowId>) {
    dead <= gone <= RowIds(db) && forall x :: x in gone ==> Falls(db, fks, dead, x)
  }

  lemma DeadFall(db: Db, fks: set<ForeignKey>, dead: set<RowId>)
    requires dead <= RowIds(db)
    ensures AmongFallen(db, fks, dead, dead)
  {
    forall x | x in dead ensures Falls(db, fks, dead, x) {
      assert LeadsTo(db, fks, [x], x, dead);
    }
  }

  // One more round of cascades.
  lemma MoreFall(db: Db, fks: set<ForeignKey>, dead: set<RowId>, gone: set<RowId>, next: set<RowId>)
    requires AmongFallen(db, fks, dead, gone) && next == Referring(db, fks, gone)
    ensures AmongFallen(db, fks, dead, gone + next)
    ensures next <= RowIds(db) && next !! gone
  {
    forall x | x in next ensures Falls(db, fks, dead, x) {
      ReferringFalls(db, fks, dead, gone, x);
    }
  }

  lemma ReferringFalls(db: Db, fks: set<ForeignKey>, dead: set<RowId>, gone: set<RowId>, x: RowId)
    requires AmongFallen(db, fks, dead, gone) && CascadesInto(db, fks, x, gone)
    ensures Falls(db, fks, dead, x)
  {
    var y :| y in gone && CascadesTo(db, fks, x, y);
    FallsStep(db, fks, dead, x, y);
  }

  lemma FallsStep(db: Db, fks: set<ForeignKey>, dead: set<RowId>, x: RowId, y: RowId)
    requires CascadesTo(db, fks, x, y) && Falls(db, fks, dead, y)
    ensures Falls(db, fks, dead, x)
  {
    FallsThrough(db, fks, dead, [x, y], 1);
  }

  // When no row is left that cascades from the ones gone, everything fell.
  lemma AllFell(db: Db, fks: set<ForeignKey>, dead: set<RowId>, gone: set<RowId>)
    requires AmongFallen(db, fks, dead, gone) && Referring(db, fks, gone) == {}
    ensures gone == Fallen(db, fks, dead)
  {
    forall x | Falls(db, fks, dead, x) ensures x in gone {
      var p :| LeadsTo(db, fks, p, x, dead);
      ChainIsGone(db, fks, gone, p, 0);
    }
  }

  lemma {:induction false} ChainIsGone(db: Db, fks: set<ForeignKey>, gone: set<RowId>, p: seq<RowId>, i: nat)
    requires Referring(db, fks, gone) == {} && i < |p| && Cascades(db, fks, p) && p[|p| - 1] in gone
    ensures p[i] in gone
    decreases |p| - i
  {
    if i < |p| - 1 {
      ChainIsGone(db, fks, gone, p, i + 1);
      assert CascadesTo(db, fks, p[i], p[i + 1]);
      assert CascadesInto(db, fks, p[i], gone);
      assert p[i] !in Referring(db, fks, gone);
    }
  }
}
