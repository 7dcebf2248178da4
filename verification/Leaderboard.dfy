// The grouping and ranking loops of the course leaderboard.
module Leaderboard {
  import opened Sorting

  type Id = nat

  // uuid.Nil, which a row has for a user without scores.
  const NIL: Id := 0

  datatype ScoreRow = ScoreRow(userId: Id, username: string, taskId: Id, taskTitle: string, score: int,
                               homeworkId: Id, homeworkTitle: string)

  datatype TaskScore = TaskScore(taskId: Id, title: string, score: int)

  datatype HomeworkScore = HomeworkScore(homeworkId: Id, title: string, tasks: seq<TaskScore>, total: int)

  datatype UserScores = UserScores(username: string, total: int, homeworks: seq<HomeworkScore>)

  // An entry keeps the user's identifier to say whose it is; the service drops it.
  datatype Entry = Entry(userId: Id, rank: nat, scores: UserScores)

  predicate Scores(row: ScoreRow, user: Id) { row.userId == user && row.taskId != NIL }

  // The sum of a user's scored rows.
  function UserTotal(rows: seq<ScoreRow>, user: Id): int {
    if rows == [] then 0
    else
      var last := rows[|rows| - 1];
      UserTotal(rows[..|rows| - 1], user) + if Scores(last, user) then last.score else 0
  }

  // A user's scored rows of one homework, in order.
  function TasksOf(rows: seq<ScoreRow>, user: Id, hw: Id): seq<TaskScore> {
    if rows == [] then []
    else
      var last := rows[|rows| - 1];
      TasksOf(rows[..|rows| - 1], user, hw)
      + if Scores(last, user) && last.homeworkId == hw then [TaskScore(last.taskId, last.taskTitle, last.score)] else []
  }

  // The names a user and a homework are shown under: those of their first row.
  function NameOf(rows: seq<ScoreRow>, user: Id): string {
    if rows == [] then ""
    else
      var init, last := rows[..|rows| - 1], rows[|rows| - 1];
      if !Appears(init, user) && last.userId == user then last.username else NameOf(init, user)
  }

  function TitleOf(rows: seq<ScoreRow>, user: Id, hw: Id): string {
    if rows == [] then ""
    else
      var init, last := rows[..|rows| - 1], rows[|rows| - 1];
      if TasksOf(init, user, hw) == [] && Scores(last, user) && last.homeworkId == hw then last.homeworkTitle
      else TitleOf(init, user, hw)
  }

  function SumTasks(tasks: seq<TaskScore>): int {
    if tasks == [] then 0 else SumTasks(tasks[..|tasks| - 1]) + tasks[|tasks| - 1].score
  }

  function SumHomeworks(hws: seq<HomeworkScore>): int {
    if hws == [] then 0 else SumHomeworks(hws[..|hws| - 1]) + hws[|hws| - 1].total
  }

  predicate Appears(rows: seq<ScoreRow>, user: Id) {
    exists i :: 0 <= i < |rows| && rows[i].userId == user
  }

  ghost predicate DistinctHomeworks(hws: seq<HomeworkScore>) {
    forall i, j :: 0 <= i < j < |hws| ==> hws[i].homeworkId != hws[j].homeworkId
  }

  // What one user's entry says about the rows: it lists exactly the homeworks
  // the user has scored rows in, each once, each with exactly its rows in order, and
  // every total is the sum of what it covers.
  ghost predicate Summarises(rows: seq<ScoreRow>, user: Id, us: UserScores) {
    us.username == NameOf(rows, user) && ScoresOk(rows, user, us)
  }

  ghost predicate ScoresOk(rows: seq<ScoreRow>, user: Id, us: UserScores) {
    && us.total == UserTotal(rows, user)
    && us.total == SumHomeworks(us.homeworks)
    && DistinctHomeworks(us.homeworks)
    && (forall h :: h in us.homeworks ==> HomeworkOk(rows, user, h))
    && (forall i :: 0 <= i < |rows| && Scores(rows[i], user) ==> Lists(us.homeworks, rows[i].homeworkId))
  }

  ghost predicate Lists(hws: seq<HomeworkScore>, hw: Id) {
    exists h :: h in hws && h.homeworkId == hw
  }

  ghost predicate HomeworkOk(rows: seq<ScoreRow>, user: Id, h: HomeworkScore) {
    && h.tasks == TasksOf(rows, user, h.homeworkId) && h.tasks != []
    && h.title == TitleOf(rows, user, h.homeworkId)
    && h.total == SumTasks(h.tasks)
  }

  // The index of a homework in a user's list, or its length.
  method FindHomework(hws: seq<HomeworkScore>, hw: Id) returns (i: nat)
    ensures i <= |hws|
    ensures i < |hws| ==> hws[i].homeworkId == hw
    ensures i == |hws| ==> forall h :: h in hws ==> h.homeworkId != hw
    ensures forall j :: 0 <= j < i ==> hws[j].homeworkId != hw
  {
    i := 0;
    while i < |hws|
      invariant i <= |hws| && forall j :: 0 <= j < i ==> hws[j].homeworkId != hw
    {
      if hws[i].homeworkId == hw {
        return;
      }
      i := i + 1;
    }
  }

  function TaskOf(row: ScoreRow): TaskScore {
    TaskScore(row.taskId, row.taskTitle, row.score)
  }

  function WithTask(h: HomeworkScore, row: ScoreRow): HomeworkScore {
    h.(tasks := h.tasks + [TaskOf(row)], total := h.total + row.score)
  }

  // One more row, seen from the functions above.
  lemma RowStep(rows: seq<ScoreRow>, row: ScoreRow, user: Id, hw: Id)
    ensures UserTotal(rows + [row], user) == UserTotal(rows, user) + if Scores(row, user) then row.score else 0
    ensures TasksOf(rows + [row], user, hw)
            == TasksOf(rows, user, hw) + if Scores(row, user) && row.homeworkId == hw then [TaskOf(row)] else []
    ensures Appears(rows + [row], user) <==> Appears(rows, user) || row.userId == user
    ensures NameOf(rows + [row], user)
            == if !Appears(rows, user) && row.userId == user then row.username else NameOf(rows, user)
    ensures TitleOf(rows + [row], user, hw)
            == if TasksOf(rows, user, hw) == [] && Scores(row, user) && row.homeworkId == hw then row.homeworkTitle
               else TitleOf(rows, user, hw)
  {
    var r := rows + [row];
    assert r[..|rows|] == rows && r[|rows|] == row;
    if Appears(rows, user) {
      var i :| 0 <= i < |rows| && rows[i].userId == user;
      assert r[i].userId == user;
    }
  }

  lemma {:induction false} SumUpdate(hws: seq<HomeworkScore>, i: nat, h: HomeworkScore)
    requires i < |hws|
    ensures SumHomeworks(hws[i := h]) == SumHomeworks(hws) - hws[i].total + h.total
    decreases |hws|
  {
    var n := |hws| - 1;
    if i < n {
      SumUpdate(hws[..n], i, h);
      assert hws[i := h][..n] == hws[..n][i := h];
    } else {
      assert hws[i := h][..n] == hws[..n];
    }
  }

  lemma SumSnoc(hws: seq<HomeworkScore>, h: HomeworkScore)
    ensures SumHomeworks(hws + [h]) == SumHomeworks(hws) + h.total
  {
    assert (hws + [h])[..|hws|] == hws;
  }

  lemma TasksSnoc(tasks: seq<TaskScore>, t: TaskScore)
    ensures SumTasks(tasks + [t]) == SumTasks(tasks) + t.score
  {
    assert (tasks + [t])[..|tasks|] == tasks;
  }

  // A row that gives the user no score leaves the user's scores right.
  lemma OtherRow(rows: seq<ScoreRow>, row: ScoreRow, user: Id, us: UserScores)
    requires ScoresOk(rows, user, us) && !Scores(row, user)
    ensures ScoresOk(rows + [row], user, us)
  {
    forall hw
      ensures TasksOf(rows + [row], user, hw) == TasksOf(rows, user, hw)
      ensures TitleOf(rows + [row], user, hw) == TitleOf(rows, user, hw)
    {
      RowStep(rows, row, user, hw);
    }
    RowStep(rows, row, user, 0);
    forall h | h in us.homeworks ensures HomeworkOk(rows + [row], user, h) {
      assert HomeworkOk(rows, user, h);
    }
  }

  // A user without rows has nothing to sum.
  lemma {:induction false} Unseen(rows: seq<ScoreRow>, user: Id, hw: Id)
    requires !Appears(rows, user)
    ensures UserTotal(rows, user) == 0 && TasksOf(rows, user, hw) == []
  {
    if rows != [] {
      var n := |rows| - 1;
      assert rows[n].userId != user;
      assert forall i :: 0 <= i < n ==> rows[..n][i] == rows[i];
      Unseen(rows[..n], user, hw);
    }
  }

  lemma NewUser(rows: seq<ScoreRow>, user: Id, us: UserScores)
    requires !Appears(rows, user) && us.total == 0 && us.homeworks == []
    ensures ScoresOk(rows, user, us)
  {
    Unseen(rows, user, 0);
    forall hw ensures TasksOf(rows, user, hw) == [] {
      Unseen(rows, user, hw);
    }
  }

  // The homework at i got the row, as a new last one if i is past the end.
  ghost predicate GotRow(hws: seq<HomeworkScore>, row: ScoreRow, i: nat, after: seq<HomeworkScore>) {
    && i <= |hws| && |after| == (if i < |hws| then |hws| else |hws| + 1)
    && (i < |hws| ==> hws[i].homeworkId == row.homeworkId)
    && (i == |hws| ==> forall h :: h in hws ==> h.homeworkId != row.homeworkId)
    && (forall j :: 0 <= j < |hws| && j != i ==> after[j] == hws[j])
    && after[i] == WithTask(if i < |hws| then hws[i] else HomeworkScore(row.homeworkId, row.homeworkTitle, [], 0), row)
  }

  // One scored row: its homework is appended if new, and the row is added to
  // its tasks and to both totals through the pointers.
  method AddScore(us: UserScores, row: ScoreRow, ghost rows: seq<ScoreRow>) returns (r: UserScores)
    requires ScoresOk(rows, row.userId, us) && row.taskId != NIL
    ensures ScoresOk(rows + [row], row.userId, r) && r.username == us.username
  {
    var hws := us.homeworks;
    var i := FindHomework(hws, row.homeworkId);
    if i == |hws| {
      hws := hws + [HomeworkScore(row.homeworkId, row.homeworkTitle, [], 0)];
    }
    hws := hws[i := WithTask(hws[i], row)];
    r := UserScores(us.username, us.total + row.score, hws);
    ScoredRow(rows, row, us, i, r);
  }

  lemma ScoredRow(rows: seq<ScoreRow>, row: ScoreRow, us: UserScores, i: nat, r: UserScores)
    requires ScoresOk(rows, row.userId, us) && row.taskId != NIL
    requires r.total == us.total + row.score && GotRow(us.homeworks, row, i, r.homeworks)
    ensures ScoresOk(rows + [row], row.userId, r)
  {
    TotalsStep(rows, row, us, i, r);
    HomeworksStep(rows, row, us, i, r);
    CoverStep(rows, row, us, i, r);
  }

  lemma TotalsStep(rows: seq<ScoreRow>, row: ScoreRow, us: UserScores, i: nat, r: UserScores)
    requires ScoresOk(rows, row.userId, us) && row.taskId != NIL
    requires r.total == us.total + row.score && GotRow(us.homeworks, row, i, r.homeworks)
    ensures r.total == UserTotal(rows + [row], row.userId) == SumHomeworks(r.homeworks)
  {
    RowStep(rows, row, row.userId, 0);
    ChangedHomework(rows, row, us, i, r);
  }

  lemma HomeworksStep(rows: seq<ScoreRow>, row: ScoreRow, us: UserScores, i: nat, r: UserScores)
    requires ScoresOk(rows, row.userId, us) && row.taskId != NIL && GotRow(us.homeworks, row, i, r.homeworks)
    ensures DistinctHomeworks(r.homeworks) && forall h :: h in r.homeworks ==> HomeworkOk(rows + [row], row.userId, h)
  {
    ChangedHomework(rows, row, us, i, r);
    SameHomeworks(rows, row, us, i, r);
    AllHomeworksOk(rows, row, us, i, r);
  }

  lemma CoverStep(rows: seq<ScoreRow>, row: ScoreRow, us: UserScores, i: nat, r: UserScores)
    requires ScoresOk(rows, row.userId, us) && row.taskId != NIL && GotRow(us.homeworks, row, i, r.homeworks)
    ensures var next := rows + [row];
            forall j :: 0 <= j < |next| && Scores(next[j], row.userId) ==> Lists(r.homeworks, next[j].homeworkId)
  {
    ChangedHomework(rows, row, us, i, r);
    SameHomeworks(rows, row, us, i, r);
  }

  lemma AllHomeworksOk(rows: seq<ScoreRow>, row: ScoreRow, us: UserScores, i: nat, r: UserScores)
    requires GotRow(us.homeworks, row, i, r.homeworks)
    requires HomeworkOk(rows + [row], row.userId, r.homeworks[i])
    requires forall j :: 0 <= j < |us.homeworks| && j != i ==>
               us.homeworks[j].homeworkId != row.homeworkId && HomeworkOk(rows, row.userId, us.homeworks[j])
    ensures forall h :: h in r.homeworks ==> HomeworkOk(rows + [row], row.userId, h)
  {
    forall j | 0 <= j < |r.homeworks| ensures HomeworkOk(rows + [row], row.userId, r.homeworks[j]) {
      if j != i {
        OtherHomework(rows, row, row.userId, us.homeworks[j]);
      }
    }
  }

  lemma OtherHomework(rows: seq<ScoreRow>, row: ScoreRow, user: Id, h: HomeworkScore)
    requires HomeworkOk(rows, user, h) && h.homeworkId != row.homeworkId
    ensures HomeworkOk(rows + [row], user, h)
  {
    RowStep(rows, row, user, h.homeworkId);
  }

  // The list keeps its homeworks, at the same places, and gains at most the row's.
  lemma SameHomeworks(rows: seq<ScoreRow>, row: ScoreRow, us: UserScores, i: nat, r: UserScores)
    requires ScoresOk(rows, row.userId, us) && GotRow(us.homeworks, row, i, r.homeworks)
    ensures DistinctHomeworks(r.homeworks)
    ensures forall j :: 0 <= j < |us.homeworks| && j != i ==>
              us.homeworks[j].homeworkId != row.homeworkId && HomeworkOk(rows, row.userId, us.homeworks[j])
    ensures forall hw :: Lists(us.homeworks, hw) || hw == row.homeworkId ==> Lists(r.homeworks, hw)
  {
    var user, hws := row.userId, us.homeworks;
    forall j | 0 <= j < |hws| && j != i ensures hws[j].homeworkId != row.homeworkId && HomeworkOk(rows, user, hws[j]) {
      assert hws[j] in hws;
    }
    forall hw | Lists(hws, hw) || hw == row.homeworkId ensures Lists(r.homeworks, hw) {
      if hw == row.homeworkId {
        assert r.homeworks[i] in r.homeworks;
      } else {
        var h :| h in hws && h.homeworkId == hw;
        var j :| 0 <= j < |hws| && hws[j] == h;
        assert r.homeworks[j] == h;
      }
    }
  }

  lemma {:induction false} NoRowsNoTasks(rows: seq<ScoreRow>, user: Id, hw: Id)
    requires forall i :: 0 <= i < |rows| && Scores(rows[i], user) ==> rows[i].homeworkId != hw
    ensures TasksOf(rows, user, hw) == []
  {
    if rows != [] {
      assert forall i :: 0 <= i < |rows| - 1 ==> rows[..|rows| - 1][i] == rows[i];
      NoRowsNoTasks(rows[..|rows| - 1], user, hw);
    }
  }

  // The homework that got the row, and the sum over all of them.
  lemma ChangedHomework(rows: seq<ScoreRow>, row: ScoreRow, us: UserScores, i: nat, r: UserScores)
    requires ScoresOk(rows, row.userId, us) && row.taskId != NIL && GotRow(us.homeworks, row, i, r.homeworks)
    ensures HomeworkOk(rows + [row], row.userId, r.homeworks[i]) && r.homeworks[i].homeworkId == row.homeworkId
    ensures SumHomeworks(r.homeworks) == SumHomeworks(us.homeworks) + row.score
  {
    var user, hws := row.userId, us.homeworks;
    if i < |hws| {
      assert hws[i] in hws && HomeworkOk(rows, user, hws[i]);
      GrownHomework(rows, row, hws[i]);
      assert r.homeworks == hws[i := WithTask(hws[i], row)];
      SumUpdate(hws, i, WithTask(hws[i], row));
    } else {
      var blank := HomeworkScore(row.homeworkId, row.homeworkTitle, [], 0);
      forall j | 0 <= j < |rows| && Scores(rows[j], user) ensures rows[j].homeworkId != row.homeworkId {
        assert Lists(hws, rows[j].homeworkId);
      }
      NewHomework(rows, row);
      assert r.homeworks == hws + [WithTask(blank, row)];
      SumSnoc(hws, WithTask(blank, row));
    }
  }

  lemma GrownHomework(rows: seq<ScoreRow>, row: ScoreRow, h: HomeworkScore)
    requires HomeworkOk(rows, row.userId, h) && row.taskId != NIL && h.homeworkId == row.homeworkId
    ensures HomeworkOk(rows + [row], row.userId, WithTask(h, row))
  {
    RowStep(rows, row, row.userId, row.homeworkId);
    TasksSnoc(h.tasks, TaskOf(row));
  }

  lemma NewHomework(rows: seq<ScoreRow>, row: ScoreRow)
    requires row.taskId != NIL && forall j :: 0 <= j < |rows| && Scores(rows[j], row.userId) ==> rows[j].homeworkId != row.homeworkId
    ensures HomeworkOk(rows + [row], row.userId, WithTask(HomeworkScore(row.homeworkId, row.homeworkTitle, [], 0), row))
  {
    RowStep(rows, row, row.userId, row.homeworkId);
    NoRowsNoTasks(rows, row.userId, row.homeworkId);
    TasksSnoc([], TaskOf(row));
  }

  // The users met so far, in the order of their first rows, with their summaries.
  ghost predicate Grouped(rows: seq<ScoreRow>, order: seq<Id>, users: map<Id, UserScores>) {
    && (forall i, j :: 0 <= i < j < |order| ==> order[i] != order[j])
    && (forall u :: u in order <==> u in users)
    && (forall u :: GroupedUser(rows, users, u))
  }

  // A user has a summary exactly if the user appears, and it is the right one.
  ghost predicate GroupedUser(rows: seq<ScoreRow>, users: map<Id, UserScores>, u: Id) {
    (u in users <==> Appears(rows, u)) && (u in users ==> Summarises(rows, u, users[u]))
  }

  method GroupRows(rows: seq<ScoreRow>) returns (order: seq<Id>, users: map<Id, UserScores>)
    ensures Grouped(rows, order, users)
    ensures forall u :: u in order <==> Appears(rows, u)
    ensures forall u :: u in users ==> Summarises(rows, u, users[u])
  {
    order, users := [], map[];
    for i := 0 to |rows|
      invariant Grouped(rows[..i], order, users)
    {
      var row := rows[i];
      assert rows[..i] + [row] == rows[..i + 1];
      order, users := GroupRow(rows[..i], row, order, users);
    }
    assert rows[..|rows|] == rows;
    forall u ensures (u in users <==> Appears(rows, u)) && (u in users ==> Summarises(rows, u, users[u])) {
      assert GroupedUser(rows, users, u);
    }
  }

  // One iteration of the grouping loop.
  method GroupRow(ghost rows: seq<ScoreRow>, row: ScoreRow, order: seq<Id>, users: map<Id, UserScores>)
    returns (order': seq<Id>, users': map<Id, UserScores>)
    requires Grouped(rows, order, users)
    ensures Grouped(rows + [row], order', users')
  {
    order' := order;
    assert GroupedUser(rows, users, row.userId);
    var us;
    if row.userId in users {
      us := users[row.userId];
    } else {
      us := UserScores(row.username, 0, []);
      order' := order + [row.userId];
      NewUser(rows, row.userId, us);
    }
    if row.taskId != NIL {
      us := AddScore(us, row, rows);
    } else {
      OtherRow(rows, row, row.userId, us);
    }
    users' := users[row.userId := us];
    GroupedStep(rows, row, order, users, us);
  }

  lemma GroupedStep(rows: seq<ScoreRow>, row: ScoreRow, order: seq<Id>, users: map<Id, UserScores>, us: UserScores)
    requires Grouped(rows, order, users) && ScoresOk(rows + [row], row.userId, us)
    requires us.username == if row.userId in users then users[row.userId].username else row.username
    ensures Grouped(rows + [row], if row.userId in users then order else order + [row.userId], users[row.userId := us])
  {
    var seen, users' := rows + [row], users[row.userId := us];
    forall u ensures GroupedUser(seen, users', u) {
      assert GroupedUser(rows, users, u);
      UserStep(rows, row, users, us, u);
    }
    assert forall u :: u in order + [row.userId] <==> u in order || u == row.userId;
  }

  lemma UserStep(rows: seq<ScoreRow>, row: ScoreRow, users: map<Id, UserScores>, us: UserScores, u: Id)
    requires GroupedUser(rows, users, u) && ScoresOk(rows + [row], row.userId, us)
    requires us.username == if row.userId in users then users[row.userId].username else row.username
    ensures GroupedUser(rows + [row], users[row.userId := us], u)
  {
    RowStep(rows, row, u, 0);
    if u in users && u != row.userId {
      OtherRow(rows, row, u, users[u]);
    }
  }

  // The sum of every row that scores a task, and the sum of the entries' totals.
  function AllScores(rows: seq<ScoreRow>): int {
    if rows == [] then 0
    else AllScores(rows[..|rows| - 1]) + if rows[|rows| - 1].taskId != NIL then rows[|rows| - 1].score else 0
  }

  function SumTotals(entries: seq<Entry>): int {
    if entries == [] then 0 else SumTotals(entries[..|entries| - 1]) + entries[|entries| - 1].scores.total
  }

  function SumUsers(rows: seq<ScoreRow>, us: seq<Id>): int {
    if us == [] then 0 else SumUsers(rows, us[..|us| - 1]) + UserTotal(rows, us[|us| - 1])
  }

  // A row counts for its own user only.
  lemma {:induction false} SumUsersStep(rows: seq<ScoreRow>, row: ScoreRow, us: seq<Id>)
    requires Distinct(us)
    ensures SumUsers(rows + [row], us) == SumUsers(rows, us) + if row.userId in us && row.taskId != NIL then row.score else 0
    decreases |us|
  {
    if us != [] {
      var init, last := us[..|us| - 1], us[|us| - 1];
      assert us == init + [last];
      SumUsersStep(rows, row, init);
      RowStep(rows, row, last, 0);
    }
  }

  lemma {:induction false} UsersShareAll(rows: seq<ScoreRow>, us: seq<Id>)
    requires Distinct(us) && forall i :: 0 <= i < |rows| ==> rows[i].userId in us
    ensures SumUsers(rows, us) == AllScores(rows)
    decreases |rows|
  {
    if rows == [] {
      NoRowsNoSum(us);
    } else {
      var n := |rows| - 1;
      assert rows == rows[..n] + [rows[n]];
      UsersShareAll(rows[..n], us);
      SumUsersStep(rows[..n], rows[n], us);
    }
  }

  lemma {:induction false} NoRowsNoSum(us: seq<Id>)
    ensures SumUsers([], us) == 0
  {
    if us != [] {
      NoRowsNoSum(us[..|us| - 1]);
    }
  }

  lemma {:induction false} TotalsAreUsers(rows: seq<ScoreRow>, entries: seq<Entry>, us: seq<Id>)
    requires |us| == |entries|
    requires forall i :: 0 <= i < |us| ==> us[i] == entries[i].userId && entries[i].scores.total == UserTotal(rows, us[i])
    ensures SumTotals(entries) == SumUsers(rows, us)
    decreases |us|
  {
    if us != [] {
      var n := |us| - 1;
      TotalsAreUsers(rows, entries[..n], us[..n]);
    }
  }

  // No score is lost or counted twice between the rows and the leaderboard.
  lemma ScoresAreConserved(rows: seq<ScoreRow>, entries: seq<Entry>)
    requires forall i, j :: 0 <= i < j < |entries| ==> entries[i].userId != entries[j].userId
    requires forall u :: Appears(rows, u) ==> exists i :: 0 <= i < |entries| && entries[i].userId == u
    requires forall i :: 0 <= i < |entries| ==> entries[i].scores.total == UserTotal(rows, entries[i].userId)
    ensures SumTotals(entries) == AllScores(rows)
  {
    var us := seq(|entries|, i requires 0 <= i < |entries| => entries[i].userId);
    forall i | 0 <= i < |rows| ensures rows[i].userId in us {
      assert Appears(rows, rows[i].userId);
      var j :| 0 <= j < |entries| && entries[j].userId == rows[i].userId;
      assert us[j] == rows[i].userId;
    }
    TotalsAreUsers(rows, entries, us);
    UsersShareAll(rows, us);
  }

  // Row i is the first that scores a task of the homework for the user.
  ghost predicate FirstOf(rows: seq<ScoreRow>, user: Id, hw: Id, i: nat) {
    && i < |rows| && Scores(rows[i], user) && rows[i].homeworkId == hw
    && forall j :: 0 <= j < i && Scores(rows[j], user) ==> rows[j].homeworkId != hw
  }

  // A user is shown under the name of their first row, a homework under the title of
  // the user's first scored row of it.
  lemma {:induction false} ShownAsFirst(rows: seq<ScoreRow>, user: Id, hw: Id, i: nat)
    requires i < |rows|
    ensures rows[i].userId == user && (forall j :: 0 <= j < i ==> rows[j].userId != user) ==> NameOf(rows, user) == rows[i].username
    ensures FirstOf(rows, user, hw, i) ==> TitleOf(rows, user, hw) == rows[i].homeworkTitle
    decreases |rows|
  {
    var n := |rows| - 1;
    assert rows == rows[..n] + [rows[n]];
    RowStep(rows[..n], rows[n], user, hw);
    if i < n {
      ShownAsFirst(rows[..n], user, hw, i);
      assert rows[..n][i] == rows[i];
      if Scores(rows[i], user) && rows[i].homeworkId == hw {
        TasksFrom(rows[..n], user, hw, i);
      }
    } else {
      forall j | 0 <= j < n ensures rows[..n][j] == rows[j] {
      }
      if FirstOf(rows, user, hw, n) {
        NoRowsNoTasks(rows[..n], user, hw);
      }
    }
  }

  lemma {:induction false} TasksFrom(rows: seq<ScoreRow>, user: Id, hw: Id, i: nat)
    requires i < |rows| && Scores(rows[i], user) && rows[i].homeworkId == hw
    ensures TasksOf(rows, user, hw) != []
    decreases |rows|
  {
    if i < |rows| - 1 {
      TasksFrom(rows[..|rows| - 1], user, hw, i);
    }
  }

  predicate ScoresFor(rows: seq<ScoreRow>, user: Id, hw: Id, i: int) {
    0 <= i < |rows| && rows[i].userId == user && rows[i].taskId != 0 && rows[i].homeworkId == hw
  }

  // The tasks are those of the rows at these places, in order, and no scored row of
  // the user's is missing.
  ghost predicate AreRows(rows: seq<ScoreRow>, user: Id, hw: Id, tasks: seq<TaskScore>, at: seq<nat>) {
    && |at| == |tasks| && (forall i, j :: 0 <= i < j < |at| ==> at[i] < at[j])
    && (forall i :: ScoresFor(rows, user, hw, i) ==> i in at)
    && (forall j :: 0 <= j < |at| ==>
         ScoresFor(rows, user, hw, at[j])
         && tasks[j] == TaskScore(rows[at[j]].taskId, rows[at[j]].taskTitle, rows[at[j]].score))
  }

  lemma AreRowsStep(rows: seq<ScoreRow>, row: ScoreRow, user: Id, hw: Id, tasks: seq<TaskScore>, at: seq<nat>)
    requires AreRows(rows, user, hw, tasks, at)
    ensures if Scores(row, user) && row.homeworkId == hw
            then AreRows(rows + [row], user, hw, tasks + [TaskOf(row)], at + [|rows|])
            else AreRows(rows + [row], user, hw, tasks, at)
  {
    var all := rows + [row];
    forall i | ScoresFor(all, user, hw, i) ensures i in at + [|rows|] && (i < |rows| ==> i in at) {
      if i < |rows| {
        assert ScoresFor(rows, user, hw, i);
      } else {
        assert (at + [|rows|])[|at|] == i;
      }
    }
    forall j | 0 <= j < |at| ensures ScoresFor(all, user, hw, at[j]) && all[at[j]] == rows[at[j]] {
      assert ScoresFor(rows, user, hw, at[j]);
    }
  }

  // The tasks of a homework are the user's scored rows of it, each once and in order.
  lemma {:induction false} TasksAreRows(rows: seq<ScoreRow>, user: Id, hw: Id) returns (at: seq<nat>)
    ensures AreRows(rows, user, hw, TasksOf(rows, user, hw), at)
  {
    if rows == [] {
      at := [];
    } else {
      var n := |rows| - 1;
      at := TasksAreRows(rows[..n], user, hw);
      assert rows == rows[..n] + [rows[n]];
      RowStep(rows[..n], rows[n], user, hw);
      AreRowsStep(rows[..n], rows[n], user, hw, TasksOf(rows[..n], user, hw), at);
      at := if Scores(rows[n], user) && rows[n].homeworkId == hw then at + [n] else at;
    }
  }

  method SortedScores(rows: seq<ScoreRow>) returns (entries: seq<Entry>)
    ensures forall u :: Appears(rows, u) <==> exists e :: e in entries && e.userId == u
    ensures forall i, j :: 0 <= i < j < |entries| ==>
              entries[i].userId != entries[j].userId && entries[i].scores.total >= entries[j].scores.total
    ensures forall i :: 0 <= i < |entries| ==>
              entries[i].rank == i + 1 && Summarises(rows, entries[i].userId, entries[i].scores)
  {
    var order, users := GroupRows(rows);
    var unranked := ListEntries(order, users);
    var sorted := SortBy(unranked, (e: Entry) => -e.scores.total);
    SortedEntries(order, users, unranked, sorted);
    entries := RankEntries(sorted);
    forall u ensures Appears(rows, u) <==> exists e :: e in entries && e.userId == u {
      if u in order {
        var i :| 0 <= i < |sorted| && sorted[i].userId == u;
        assert entries[i] in entries;
      }
    }
  }

  lemma RankedConserve(rows: seq<ScoreRow>, entries: seq<Entry>)
    requires forall u :: Appears(rows, u) <==> exists e :: e in entries && e.userId == u
    requires forall i, j :: 0 <= i < j < |entries| ==> entries[i].userId != entries[j].userId
    requires forall i :: 0 <= i < |entries| ==> Summarises(rows, entries[i].userId, entries[i].scores)
    ensures SumTotals(entries) == AllScores(rows)
  {
    forall u | Appears(rows, u) ensures exists i :: 0 <= i < |entries| && entries[i].userId == u {
      var e :| e in entries && e.userId == u;
    }
    forall i | 0 <= i < |entries| ensures entries[i].scores.total == UserTotal(rows, entries[i].userId) {
      assert Summarises(rows, entries[i].userId, entries[i].scores);
    }
    ScoresAreConserved(rows, entries);
  }

  method ListEntries(order: seq<Id>, users: map<Id, UserScores>) returns (unranked: seq<Entry>)
    requires forall u :: u in order ==> u in users
    ensures |unranked| == |order|
    ensures forall j :: 0 <= j < |order| ==> unranked[j] == Entry(order[j], 0, users[order[j]])
  {
    unranked := [];
    for i := 0 to |order|
      invariant |unranked| == i
      invariant forall j :: 0 <= j < i ==> unranked[j] == Entry(order[j], 0, users[order[j]])
    {
      unranked := unranked + [Entry(order[i], 0, users[order[i]])];
    }
  }

  method RankEntries(sorted: seq<Entry>) returns (entries: seq<Entry>)
    ensures |entries| == |sorted|
    ensures forall j :: 0 <= j < |sorted| ==> entries[j] == sorted[j].(rank := j + 1)
  {
    entries := [];
    for i := 0 to |sorted|
      invariant |entries| == i
      invariant forall j :: 0 <= j < i ==> entries[j] == sorted[j].(rank := j + 1)
    {
      entries := entries + [sorted[i].(rank := i + 1)];
    }
  }

  lemma SortedEntries(order: seq<Id>, users: map<Id, UserScores>, unranked: seq<Entry>, sorted: seq<Entry>)
    requires forall i, j :: 0 <= i < j < |order| ==> order[i] != order[j]
    requires |unranked| == |order| && forall u :: u in order ==> u in users
    requires forall j :: 0 <= j < |order| ==> unranked[j] == Entry(order[j], 0, users[order[j]])
    requires multiset(sorted) == multiset(unranked)
    ensures forall i :: 0 <= i < |sorted| ==>
              sorted[i].userId in order && sorted[i].scores == users[sorted[i].userId]
    ensures forall u :: u in order ==> exists i :: 0 <= i < |sorted| && sorted[i].userId == u
    ensures forall i, j :: 0 <= i < j < |sorted| ==> sorted[i].userId != sorted[j].userId
  {
    SameElements(sorted, unranked);
    forall i | 0 <= i < |sorted|
      ensures sorted[i].userId in order && sorted[i] == Entry(sorted[i].userId, 0, users[sorted[i].userId])
    {
      assert sorted[i] in unranked;
    }
    forall u | u in order ensures exists i :: 0 <= i < |sorted| && sorted[i].userId == u {
      var j :| 0 <= j < |order| && order[j] == u;
      assert unranked[j] in sorted;
    }
    var id := (e: Entry) => e.userId as int;
    forall i, j | 0 <= i < j < |sorted| ensures sorted[i].userId != sorted[j].userId {
      if sorted[i].userId == sorted[j].userId {
        assert sorted[i] == sorted[j];
        Twice(sorted, i, j);
        Once(unranked, sorted[i], id);
      }
    }
  }

  // The entries: one per user who appears, with the user's summary, by
  // descending total, ranked from 1. Users with equal totals may come in any order.
  method GetLeaderboard(rows: seq<ScoreRow>) returns (entries: seq<Entry>)
    ensures forall u :: Appears(rows, u) <==> exists e :: e in entries && e.userId == u
    ensures forall i, j :: 0 <= i < j < |entries| ==>
              entries[i].userId != entries[j].userId && entries[i].scores.total >= entries[j].scores.total
    ensures forall i :: 0 <= i < |entries| ==>
              entries[i].rank == i + 1 && Summarises(rows, entries[i].userId, entries[i].scores)
    ensures SumTotals(entries) == AllScores(rows)
  {
    entries := SortedScores(rows);
    RankedConserve(rows, entries);
  }
}
