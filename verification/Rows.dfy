// Rows of a tracked table, the change time computed from their stamp columns,
// and the meaning of the SQL the backup service emits over them.
//
// SQL stamps have microsecond resolution. A NULL stamp makes every comparison
// NULL, so such a row is neither captured by the COPY nor dropped by the DELETE.
module Rows {
  import opened Wrappers

  datatype Value = Null | Stamp(micros: int) | Text(text: string)

  // One value per column name.
  type Row = map<string, Value>

  // The primary-key values, in key order.
  type Key = seq<Value>

  type Table = map<Key, Row>

  // The stamp columns of a tracked table; "" stands for a missing column.
  datatype TableRef = TableRef(createdAt: string, updatedAt: string, deletedAt: string)

  // The right-hand side of a comparison with :'bound'::timestamptz.
  datatype Bound = Infinity | At(micros: int)

  function StampIn(row: Row, col: string): Option<int> {
    if col != "" && col in row && row[col].Stamp? then Some(row[col].micros) else None
  }

  // SQL GREATEST skips NULL arguments.
  function Greatest(a: Option<int>, b: Option<int>): Option<int> {
    match (a, b)
    case (None, _) => b
    case (_, None) => a
    case (Some(x), Some(y)) => Some(if x < y then y else x)
  }

  // The value of the change expression on one row.
  function ChangeTime(ref: TableRef, row: Row): Option<int> {
    Greatest(Greatest(StampIn(row, ref.updatedAt), StampIn(row, ref.createdAt)), StampIn(row, ref.deletedAt))
  }

  // The row has stamp t in this column.
  predicate HasStamp(row: Row, col: string, t: int) {
    col != "" && col in row && row[col] == Stamp(t)
  }

  predicate Stamped(ref: TableRef, row: Row, t: int) {
    HasStamp(row, ref.updatedAt, t) || HasStamp(row, ref.createdAt, t) || HasStamp(row, ref.deletedAt, t)
  }

  // t is the largest stamp the row has, whichever column it is in.
  ghost predicate LastStamp(ref: TableRef, row: Row, t: int) {
    Stamped(ref, row, t) && forall u :: Stamped(ref, row, u) ==> u <= t
  }

  // No stamp of the row is past t.
  ghost predicate StampedBy(ref: TableRef, row: Row, t: int) {
    forall x :: Stamped(ref, row, x) ==> x <= t
  }

  // The change expression computes the largest stamp, and NULL only if there is none.
  lemma ChangeTimeIsLast(ref: TableRef, row: Row)
    ensures forall t :: ChangeTime(ref, row) == Some(t) <==> LastStamp(ref, row, t)
    ensures ChangeTime(ref, row) == None <==> forall t :: !Stamped(ref, row, t)
  {
    var change := ChangeTime(ref, row);
    forall u | Stamped(ref, row, u) ensures change.Some? && u <= change.value {
    }
    assert change.Some? ==> Stamped(ref, row, change.value);
    forall t ensures change == Some(t) <==> LastStamp(ref, row, t) {
    }
  }

  // change > since AND change <= until
  predicate InWindow(change: Option<int>, since: int, until: int) {
    change.Some? && since < change.value <= until
  }

  // change > bound
  predicate Newer(change: Option<int>, bound: Bound) {
    bound.At? && change.Some? && bound.micros < change.value
  }

  // The rows one COPY of an incremental backup captures.
  function Window(ref: TableRef, t: Table, since: int, until: int): Table {
    map k | k in t && InWindow(ChangeTime(ref, t[k]), since, until) :: t[k]
  }

  // What is left of the loaded rows after the DELETE of the apply script.
  function DropNewer(ref: TableRef, t: Table, bound: Bound): Table {
    map k | k in t && !Newer(ChangeTime(ref, t[k]), bound) :: t[k]
  }

  // Applying one incremental to a table, when every upsert replaces a whole row.
  function Apply(ref: TableRef, target: Table, captured: Table, bound: Bound): Table {
    target + DropNewer(ref, captured, bound)
  }

  // A COPY captures a row exactly when its largest stamp is in the window, whether
  // it was created, updated or soft-deleted then, and captures it as it is.
  lemma WindowIff(ref: TableRef, t: Table, since: int, until: int, k: Key)
    ensures k in Window(ref, t, since, until) <==>
            k in t && exists x :: LastStamp(ref, t[k], x) && since < x <= until
    ensures k in Window(ref, t, since, until) ==> Window(ref, t, since, until)[k] == t[k]
  {
    if k in t {
      ChangeTimeIsLast(ref, t[k]);
      if x :| LastStamp(ref, t[k], x) && since < x <= until {
        assert ChangeTime(ref, t[k]) == Some(x);
      }
    }
  }

  // The DELETE drops a loaded row exactly when one of its stamps is past the bound,
  // and none when there is no bound.
  lemma DropNewerIff(ref: TableRef, t: Table, bound: Bound, k: Key)
    ensures k in DropNewer(ref, t, bound) <==> k in t && (bound.At? ==> StampedBy(ref, t[k], bound.micros))
    ensures k in DropNewer(ref, t, bound) ==> DropNewer(ref, t, bound)[k] == t[k]
  {
    if k in t && bound.At? {
      NewerIff(ref, t[k], bound.micros);
    }
  }

  lemma NewerIff(ref: TableRef, row: Row, t: int)
    ensures Newer(ChangeTime(ref, row), At(t)) <==> !StampedBy(ref, row, t)
  {
    ChangeTimeIsLast(ref, row);
    var change := ChangeTime(ref, row);
    assert change.Some? ==> LastStamp(ref, row, change.value);
  }

  // The row was soft-deleted at or before instant t.
  predicate DeletedBy(ref: TableRef, row: Row, t: int) {
    && ref.deletedAt != "" && ref.deletedAt in row
    && match row[ref.deletedAt]
       case Stamp(d) => d <= t
       case _ => false
  }

  // deleted_at IS NOT NULL AND deleted_at <= bound
  predicate SoftDeleted(ref: TableRef, row: Row, bound: Bound) {
    var d := StampIn(row, ref.deletedAt);
    d.Some? && (bound.Infinity? || d.value <= bound.micros)
  }

  // The table after the soft-delete sweep.
  function Swept(ref: TableRef, t: Table, bound: Bound): Table {
    map k | k in t && !SoftDeleted(ref, t[k], bound) :: t[k]
  }
}
