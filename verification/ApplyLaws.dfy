// When an apply script goes through, and what it leaves in the target.
module ApplyLaws {
  import opened Wrappers
  import opened Rows
  import opened Catalog
  import opened Upsert
  import opened ForeignKeys
  import opened ApplyScript

  // One table after the upsert of every loaded row.
  function UpsertedTable(env: Setting, t: Table, inc: Backup, name: string, bound: Bound): Table
    requires InScript(env, inc, name)
  {
    Upserted(ConflictClause(env.schema[name].pk, ColumnsFor(env, name)), t, LoadedRows(env, inc, name, bound))
  }

  // The first i tables upserted, each from what it held before the script.
  function Scripted(env: Setting, db: Db, inc: Backup, i: nat, bound: Bound): Db
    requires i <= |env.order|
  {
    if i == 0 then db
    else
      var name, before := env.order[i - 1], Scripted(env, db, inc, i - 1, bound);
      if InScript(env, inc, name) then before[name := UpsertedTable(env, TableOf(db, name), inc, name, bound)] else before
  }

  // The unique indexes of the table accept the captured rows in file order.
  predicate Accepted(env: Setting, db: Db, inc: Backup, name: string, bound: Bound)
    requires InScript(env, inc, name)
  {
    InsertedTable(env, TableOf(db, name), inc, name, bound).Some?
  }

  // The row is in the target, or is loaded into one of the first i tables.
  predicate Present(env: Setting, db: Db, inc: Backup, i: nat, bound: Bound, x: RowId)
    requires i <= |env.order|
  {
    HasRow(db, x) || (x.0 in env.order[..i] && InScript(env, inc, x.0) && x.1 in LoadedRows(env, inc, x.0, bound))
  }

  // Table i goes through: its rows are accepted, and every reference of theirs is
  // to a row that is in the target or is loaded no later.
  predicate Passes(env: Setting, db: Db, inc: Backup, i: nat, bound: Bound)
    requires i < |env.order|
  {
    var name := env.order[i];
    InScript(env, inc, name) ==>
      && Accepted(env, db, inc, name, bound)
      && forall x :: x in LoadedParents(env, UpsertedTable(env, TableOf(db, name), inc, name, bound), inc, name, bound) ==>
           Present(env, db, inc, i + 1, bound, x)
  }

  lemma {:induction false} ScriptedLookup(env: Setting, db: Db, inc: Backup, i: nat, bound: Bound, n: string)
    requires i <= |env.order|
    ensures Lookup(Scripted(env, db, inc, i, bound), n)
            == if n in env.order[..i] && InScript(env, inc, n) then Some(UpsertedTable(env, TableOf(db, n), inc, n, bound))
               else Lookup(db, n)
  {
    if i > 0 {
      assert env.order[..i] == env.order[..i - 1] + [env.order[i - 1]];
      ScriptedLookup(env, db, inc, i - 1, bound, n);
    }
  }

  lemma ScriptedHas(env: Setting, db: Db, inc: Backup, i: nat, bound: Bound, x: RowId)
    requires i <= |env.order|
    ensures HasRow(Scripted(env, db, inc, i, bound), x) <==> Present(env, db, inc, i, bound, x)
  {
    ScriptedLookup(env, db, inc, i, bound, x.0);
  }

  // A transaction whose rows are accepted commits if the references resolve.
  lemma TransactionAt(env: Setting, before: Db, t0: Table, inc: Backup, name: string, bound: Bound)
    requires InScript(env, inc, name) && FilesOk(env, inc) && TableOf(before, name) == t0
    ensures var t := UpsertedTable(env, t0, inc, name, bound);
            Transaction(env, before, inc, name, bound)
            == if InsertedTable(env, t0, inc, name, bound).Some? && HasRows(before[name := t], LoadedParents(env, t, inc, name, bound))
               then Some(before[name := t]) else None
  {
    if InsertedTable(env, t0, inc, name, bound).Some? {
      InsertIsUpsert(env, t0, inc, name, bound);
    }
  }

  lemma HasRowsIff(env: Setting, db: Db, inc: Backup, i: nat, bound: Bound, xs: set<RowId>)
    requires i <= |env.order|
    ensures HasRows(Scripted(env, db, inc, i, bound), xs) <==> forall x :: x in xs ==> Present(env, db, inc, i, bound, x)
  {
    forall x ensures HasRow(Scripted(env, db, inc, i, bound), x) <==> Present(env, db, inc, i, bound, x) {
      ScriptedHas(env, db, inc, i, bound, x);
    }
  }

  // One more transaction commits exactly when its table passes.
  lemma TransactionIff(env: Setting, db: Db, inc: Backup, i: nat, bound: Bound)
    requires DistinctKeys(env.order) && FilesOk(env, inc) && i < |env.order|
    ensures Transaction(env, Scripted(env, db, inc, i, bound), inc, env.order[i], bound)
            == if Passes(env, db, inc, i, bound) then Some(Scripted(env, db, inc, i + 1, bound)) else None
  {
    var name := env.order[i];
    var t0 := TableOf(db, name);
    if InScript(env, inc, name) {
      assert name !in env.order[..i];
      ScriptedLookup(env, db, inc, i, bound, name);
      TransactionAt(env, Scripted(env, db, inc, i, bound), t0, inc, name, bound);
      HasRowsIff(env, db, inc, i + 1, bound, LoadedParents(env, UpsertedTable(env, t0, inc, name, bound), inc, name, bound));
    }
  }

  // A transaction that takes one state to the next when it passes, and aborts otherwise.
  ghost predicate Leads(transact: (Db, string) -> Option<Db>, state: Db, next: Db, passes: bool, name: string) {
    transact(state, name) == if passes then Some(next) else None
  }

  // Transactions that take states[i] to states[i + 1] when they pass, and abort
  // otherwise, stop at the first one that does not pass.
  lemma {:induction false} RunsToFirst(transact: (Db, string) -> Option<Db>, states: seq<Db>, passes: seq<bool>, names: seq<string>)
    returns (j: nat)
    requires |states| == |names| + 1 && |passes| == |names|
    requires forall i :: 0 <= i < |names| ==> Leads(transact, states[i], states[i + 1], passes[i], names[i])
    ensures j <= |names| && (forall i :: 0 <= i < j ==> passes[i]) && (j < |names| ==> !passes[j])
    ensures RunAll(transact, states[0], names) == (states[j], if j < |names| then Some(names[j]) else None)
    decreases |names|
  {
    assert names != [] ==> Leads(transact, states[0], states[1], passes[0], names[0]);
    if names == [] || !passes[0] {
      j := 0;
    } else {
      var rest := RunsToFirst(transact, states[1..], passes[1..], names[1..]);
      j := rest + 1;
      forall i | 0 <= i < j ensures passes[i] {
        if i > 0 {
          assert passes[1..][i - 1];
        }
      }
    }
  }

  // A script commits its tables in order up to the first one with a row that a
  // unique index rejects or a reference that is not there yet; what it leaves is the
  // upsert of the tables before. It succeeds if and only if there is no such table.
  lemma ScriptCommitsIff(env: Setting, db: Db, inc: Backup, bound: Bound) returns (j: nat)
    requires DistinctKeys(env.order) && FilesOk(env, inc)
    ensures j <= |env.order| && forall i :: 0 <= i < j ==> Passes(env, db, inc, i, bound)
    ensures j < |env.order| ==> !Passes(env, db, inc, j, bound)
    ensures ScriptRun(env, db, inc, bound)
            == (Scripted(env, db, inc, j, bound), if j < |env.order| then Some(env.order[j]) else None)
  {
    var n := |env.order|;
    var states := seq(n + 1, i requires 0 <= i <= n => Scripted(env, db, inc, i, bound));
    var passes := seq(n, i requires 0 <= i < n => Passes(env, db, inc, i, bound));
    var transact := (d, name) => Transaction(env, d, inc, name, bound);
    forall i | 0 <= i < n ensures Leads(transact, states[i], states[i + 1], passes[i], env.order[i]) {
      TransactionIff(env, db, inc, i, bound);
    }
    j := RunsToFirst(transact, states, passes, env.order);
    forall i | 0 <= i < j ensures Passes(env, db, inc, i, bound) {
      assert passes[i];
    }
  }

  // A table that does not pass stops the script there, or earlier.
  lemma StopsBy(env: Setting, db: Db, inc: Backup, bound: Bound, i: nat) returns (j: nat)
    requires DistinctKeys(env.order) && FilesOk(env, inc) && i < |env.order| && !Passes(env, db, inc, i, bound)
    ensures j <= i && ScriptRun(env, db, inc, bound) == (Scripted(env, db, inc, j, bound), Some(env.order[j]))
  {
    j := ScriptCommitsIff(env, db, inc, bound);
  }

  // A row that refers to one which is not in the target and not in a table loaded
  // no later aborts the script, wherever else the incremental holds it.
  lemma ForwardReferenceAborts(env: Setting, db: Db, inc: Backup, bound: Bound, i: nat, x: RowId)
    requires DistinctKeys(env.order) && FilesOk(env, inc) && i < |env.order| && InScript(env, inc, env.order[i])
    requires x in LoadedParents(env, UpsertedTable(env, TableOf(db, env.order[i]), inc, env.order[i], bound), inc, env.order[i], bound)
    requires !HasRow(db, x) && x.0 !in env.order[..i + 1]
    ensures ScriptRun(env, db, inc, bound).1.Some?
  {
    var j := StopsBy(env, db, inc, bound, i);
  }
}
