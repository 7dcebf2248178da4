// The upsert of the apply script, column by column, and when it replaces whole rows.
module Upsert {
  import opened Wrappers
  import opened Rows
  import opened History

  // The columns and primary key of a table, in ordinal order, and its other
  // unique column lists.
  datatype Schema = Schema(columns: seq<string>, pk: seq<string>, unique: set<seq<string>>)

  datatype OnConflict = DoNothing | DoUpdate(sets: seq<string>)

  function NonKey(pk: seq<string>, cols: seq<string>): (r: seq<string>)
    ensures forall c :: c in r <==> c in cols && c !in pk
  {
    if cols == [] then []
    else
      var last := cols[|cols| - 1];
      NonKey(pk, cols[..|cols| - 1]) + if last in pk then [] else [last]
  }

  function ConflictClause(pk: seq<string>, cols: seq<string>): OnConflict {
    if NonKey(pk, cols) == [] then DoNothing else DoUpdate(NonKey(pk, cols))
  }

  // The loop of buildUpsert.
  method BuildUpsert(pk: seq<string>, cols: seq<string>) returns (r: OnConflict)
    ensures r == ConflictClause(pk, cols)
  {
    var pkSet := set c | c in pk;
    var sets := [];
    for i := 0 to |cols|
      invariant sets == NonKey(pk, cols[..i])
    {
      assert cols[..i + 1][..i] == cols[..i];
      if cols[i] in pkSet {
        continue;
      }
      sets := sets + [cols[i]];
    }
    assert cols[..|cols|] == cols;
    r := if |sets| == 0 then DoNothing else DoUpdate(sets);
  }

  // What ON CONFLICT leaves of the stored row.
  function ConflictRow(u: OnConflict, stored: Row, excluded: Row): Row {
    match u
    case DoNothing => stored
    case DoUpdate(sets) => stored + (map c | c in sets && c in excluded :: excluded[c])
  }

  // INSERT INTO target SELECT ... FROM loaded ON CONFLICT ...
  function Upserted(u: OnConflict, target: Table, loaded: Table): Table {
    map k | k in target.Keys + loaded.Keys ::
      if k !in loaded then target[k] else if k in target then ConflictRow(u, target[k], loaded[k]) else loaded[k]
  }

  // Column by column: on conflict, those of the list that are not of the key take the
  // new value and every other one stays.
  lemma ConflictColumn(pk: seq<string>, cols: seq<string>, stored: Row, excluded: Row, c: string)
    ensures Lookup(ConflictRow(ConflictClause(pk, cols), stored, excluded), c)
            == if c in cols && c !in pk && c in excluded then Some(excluded[c]) else Lookup(stored, c)
  {
    assert c in NonKey(pk, cols) <==> c in cols && c !in pk;
  }

  function KeyOf(pk: seq<string>, row: Row): Key {
    seq(|pk|, i requires 0 <= i < |pk| => if pk[i] in row then row[pk[i]] else Null)
  }

  // A row that has exactly the table's columns and is stored under its key.
  predicate RowFits(s: Schema, k: Key, row: Row) {
    row.Keys == (set c | c in s.columns) && KeyOf(s.pk, row) == k
  }

  predicate Fits(s: Schema, t: Table) {
    forall k :: k in t ==> RowFits(s, k, t[k])
  }

  // Two rows with the same key and columns: the upsert leaves the new one.
  lemma UpsertReplacesRow(s: Schema, k: Key, stored: Row, excluded: Row)
    requires RowFits(s, k, stored) && RowFits(s, k, excluded)
    requires forall c :: c in s.pk ==> c in s.columns
    ensures ConflictRow(ConflictClause(s.pk, s.columns), stored, excluded) == excluded
  {
    var got := ConflictRow(ConflictClause(s.pk, s.columns), stored, excluded);
    assert got.Keys == excluded.Keys;
    forall c | c in excluded ensures got[c] == excluded[c] {
      if c in s.pk {
        var i :| 0 <= i < |s.pk| && s.pk[i] == c;
        assert KeyOf(s.pk, stored)[i] == KeyOf(s.pk, excluded)[i];
      } else {
        assert c in NonKey(s.pk, s.columns);
      }
    }
  }

  // So applying an incremental through the emitted SQL is the map update of Rows.Apply.
  lemma UpsertIsApply(s: Schema, ref: TableRef, target: Table, captured: Table, bound: Bound)
    requires Fits(s, target) && Fits(s, captured)
    requires forall c :: c in s.pk ==> c in s.columns
    ensures Upserted(ConflictClause(s.pk, s.columns), target, DropNewer(ref, captured, bound))
            == Apply(ref, target, captured, bound)
    ensures Fits(s, Apply(ref, target, captured, bound))
  {
    var loaded := DropNewer(ref, captured, bound);
    forall k | k in loaded ensures RowFits(s, k, loaded[k]) {
      assert RowFits(s, k, captured[k]);
    }
    UpsertIsUpdate(s, target, loaded);
  }

  lemma UpsertIsUpdate(s: Schema, target: Table, loaded: Table)
    requires Fits(s, target) && Fits(s, loaded)
    requires forall c :: c in s.pk ==> c in s.columns
    ensures Upserted(ConflictClause(s.pk, s.columns), target, loaded) == target + loaded
    ensures Fits(s, target + loaded)
  {
    var u := ConflictClause(s.pk, s.columns);
    forall k | k in target && k in loaded ensures ConflictRow(u, target[k], loaded[k]) == loaded[k] {
      assert RowFits(s, k, target[k]) && RowFits(s, k, loaded[k]);
      UpsertReplacesRow(s, k, target[k], loaded[k]);
    }
    UpsertIsSum(u, target, loaded);
    forall k | k in target + loaded ensures RowFits(s, k, (target + loaded)[k]) {
      assert k !in loaded ==> RowFits(s, k, target[k]);
      assert k in loaded ==> RowFits(s, k, loaded[k]);
    }
  }

  lemma UpsertIsSum(u: OnConflict, target: Table, loaded: Table)
    requires forall k :: k in target && k in loaded ==> ConflictRow(u, target[k], loaded[k]) == loaded[k]
    ensures Upserted(u, target, loaded) == target + loaded
  {
  }

  ghost predicate WritesFit(s: Schema, h: seq<Write>) {
    forall i :: 0 <= i < |h| ==> RowFits(s, h[i].key, h[i].row)
  }

  lemma {:induction false} TableAtFits(s: Schema, h: seq<Write>, t: int)
    requires WritesFit(s, h)
    ensures Fits(s, TableAt(h, t))
  {
    if h != [] {
      TableAtFits(s, h[..|h| - 1], t);
    }
  }
}
