/** The `tasks` and `users` tables and the operations on them: listing and drawing open
    tasks, completing a task (which awards points to the user), and signing users in.
    The database is a class whose fields are the two tables, kept both as maps from
    primary key to row and as the sequence of keys in row order. Clock readings and fresh
    identifiers are passed in by the caller. */
module TaskStore {
  import opened Text
  import opened Ordering

  datatype TaskStatus = Open | Completed

  datatype Task = Task(id: string, text: string, context: string, status: TaskStatus,
                       completedBy: Option<string>, userAgrees: Option<bool>,
                       userAnalysis: Option<string>, createdAt: int, updatedAt: int)

  /** A new row of the tasks table: an open task nobody has worked on yet. */
  function NewTask(id: string, text: string, context: string, now: int): (t: Task)
    ensures t.status == Open && t.completedBy.None? && t.userAgrees.None? && t.userAnalysis.None?
    ensures t.id == id && t.createdAt == t.updatedAt
  {
    Task(id, text, context, Open, None, None, None, now, now)
  }

  datatype User = User(id: string, email: string, name: Option<string>, hashedPassword: Option<string>,
                       picture: Option<string>, points: int, completedTasks: int)

  /** A new row of the users table: no points and no completed tasks. */
  function NewUser(id: string, email: string, name: Option<string>, hashedPassword: Option<string>,
                   picture: Option<string>): (u: User)
    ensures u.points == 0 && u.completedTasks == 0
    ensures u.id == id && u.email == email
  {
    User(id, email, name, hashedPassword, picture, 0, 0)
  }

  /** Points for completing a task: more for disagreeing with the claim. */
  function Award(agrees: bool): (n: nat)
    ensures agrees ==> n == 10
    ensures !agrees ==> n == 25
  {
    if !agrees then 25 else 10
  }

  /** Points shown for a completed task, from its stored answer; a missing answer counts
      as disagreeing, since `not None` is true. */
  function PointsEarned(userAgrees: Option<bool>): (n: nat)
    ensures userAgrees.None? ==> n == 25
    ensures n == 10 <==> userAgrees == Some(true)
    ensures n == 10 || n == 25
  {
    if userAgrees == Some(true) then 10 else 25
  }

  /** The points shown for a completed task are the points its completion awarded. */
  lemma PointsEarnedIsAward(agrees: bool)
    ensures PointsEarned(Some(agrees)) == Award(agrees)
  {
  }

  // ---------------------------------------------------------------------------
  // Totals over the tasks table

  /** What a task contributes to a user's counters. */
  datatype Measure = PointsOf(user: string) | DoneBy(user: string)

  function Value(m: Measure, t: Task): int {
    if t.completedBy != Some(m.user) then 0
    else match m
      case PointsOf(_) => PointsEarned(t.userAgrees)
      case DoneBy(_) => 1
  }

  /** The sum of `m` over the rows with keys `ids`. */
  function Total(ids: seq<string>, tasks: map<string, Task>, m: Measure): int
    decreases |ids|
  {
    if ids == [] then 0
    else (if ids[0] in tasks then Value(m, tasks[ids[0]]) else 0) + Total(ids[1..], tasks, m)
  }

  predicate Distinct(ids: seq<string>) {
    forall i, j :: 0 <= i < j < |ids| ==> ids[i] != ids[j]
  }

  /** `ids` lists the keys of a table, each once. */
  predicate Listed(ids: seq<string>, keys: set<string>) {
    Distinct(ids) && (forall i :: 0 <= i < |ids| ==> ids[i] in keys) && (forall k :: k in keys ==> k in ids)
  }

  /** Changing a row outside `ids` does not change the total. */
  lemma {:induction false} TotalSame(ids: seq<string>, tasks: map<string, Task>, id: string, t: Task, m: Measure)
    requires id !in ids
    ensures Total(ids, tasks[id := t], m) == Total(ids, tasks, m)
  {
    if ids != [] {
      TotalSame(ids[1..], tasks, id, t, m);
    }
  }

  /** Changing one listed row changes the total by the change of that row's value. */
  lemma {:induction false} TotalUpdate(ids: seq<string>, tasks: map<string, Task>, id: string, t: Task, m: Measure)
    requires Distinct(ids) && id in ids && id in tasks
    ensures Total(ids, tasks[id := t], m) == Total(ids, tasks, m) - Value(m, tasks[id]) + Value(m, t)
  {
    if ids[0] == id {
      assert id !in ids[1..] by {
        forall k | 0 <= k < |ids[1..]| ensures ids[1..][k] != id { assert ids[1..][k] == ids[k + 1]; }
      }
      TotalSame(ids[1..], tasks, id, t, m);
    } else {
      TotalUpdate(ids[1..], tasks, id, t, m);
    }
  }

  /** A row appended to the list adds its value. */
  lemma {:induction false} TotalAppend(ids: seq<string>, x: string, tasks: map<string, Task>, m: Measure)
    ensures Total(ids + [x], tasks, m) == Total(ids, tasks, m) + (if x in tasks then Value(m, tasks[x]) else 0)
  {
    if ids != [] {
      assert (ids + [x])[1..] == ids[1..] + [x];
      TotalAppend(ids[1..], x, tasks, m);
    } else {
      assert ids + [x] == [x];
    }
  }

  /** Rows that contribute nothing add up to nothing. */
  lemma {:induction false} TotalZero(ids: seq<string>, tasks: map<string, Task>, m: Measure)
    requires forall i :: 0 <= i < |ids| && ids[i] in tasks ==> Value(m, tasks[ids[i]]) == 0
    ensures Total(ids, tasks, m) == 0
  {
    if ids != [] {
      TotalZero(ids[1..], tasks, m);
    }
  }

  // ---------------------------------------------------------------------------
  // Filters over the tasks table

  /** A list of each key once is as long as the set of keys. */
  lemma {:induction false} ListedCard(ids: seq<string>, keys: set<string>)
    requires Listed(ids, keys)
    ensures |ids| == |keys|
  {
    if ids == [] {
      assert keys == {};
    } else {
      var x := ids[0];
      forall i | 0 <= i < |ids[1..]| ensures ids[1..][i] in keys - {x} {
        assert ids[1..][i] == ids[i + 1];
      }
      forall k | k in keys - {x} ensures k in ids[1..] {
        var i :| 0 <= i < |ids| && ids[i] == k;
        assert ids[1..][i - 1] == k;
      }
      ListedCard(ids[1..], keys - {x});
    }
  }

  /** Every row is stored under its own id. */
  predicate KeyedById(tasks: map<string, Task>) {
    forall id :: id in tasks ==> tasks[id].id == id
  }

  /** `WHERE status = 'OPEN'`, in row order. */
  function OpenOf(ids: seq<string>, tasks: map<string, Task>): (r: seq<Task>)
    requires KeyedById(tasks)
    ensures forall k :: 0 <= k < |r| ==> r[k].status == Open && r[k].id in tasks && tasks[r[k].id] == r[k]
    decreases |ids|
  {
    if ids == [] then []
    else if ids[0] in tasks && tasks[ids[0]].status == Open then [tasks[ids[0]]] + OpenOf(ids[1..], tasks)
    else OpenOf(ids[1..], tasks)
  }

  /** Every open row in the list is returned. */
  lemma {:induction false} OpenOfComplete(ids: seq<string>, tasks: map<string, Task>, id: string)
    requires KeyedById(tasks)
    requires id in ids && id in tasks && tasks[id].status == Open
    ensures tasks[id] in OpenOf(ids, tasks)
  {
    if ids[0] != id {
      OpenOfComplete(ids[1..], tasks, id);
    }
  }

  /** `WHERE completed_by = user`, in row order. */
  function DoneOf(ids: seq<string>, tasks: map<string, Task>, user: string): (r: seq<Task>)
    requires KeyedById(tasks)
    ensures forall k :: 0 <= k < |r| ==> r[k].completedBy == Some(user) && r[k].id in tasks && tasks[r[k].id] == r[k]
    decreases |ids|
  {
    if ids == [] then []
    else if ids[0] in tasks && tasks[ids[0]].completedBy == Some(user) then [tasks[ids[0]]] + DoneOf(ids[1..], tasks, user)
    else DoneOf(ids[1..], tasks, user)
  }

  /** Every row of the list completed by the user is returned. */
  lemma {:induction false} DoneOfComplete(ids: seq<string>, tasks: map<string, Task>, user: string, id: string)
    requires KeyedById(tasks)
    requires id in ids && id in tasks && tasks[id].completedBy == Some(user)
    ensures tasks[id] in DoneOf(ids, tasks, user)
  {
    if ids[0] != id {
      DoneOfComplete(ids[1..], tasks, user, id);
    }
  }

  /** There are as many rows completed by the user as the user's completion count says. */
  lemma {:induction false} DoneOfCount(ids: seq<string>, tasks: map<string, Task>, user: string)
    requires KeyedById(tasks)
    ensures |DoneOf(ids, tasks, user)| == Total(ids, tasks, DoneBy(user))
  {
    if ids != [] {
      DoneOfCount(ids[1..], tasks, user);
    }
  }

  /** The key of `ORDER BY updated_at DESC`. */
  function Recency(t: Task): int { t.updatedAt }

  /** A row's status agrees with its completion columns, and the completing user exists. */
  predicate TaskConsistent(t: Task, userKeys: set<string>) {
    (t.status == Open <==> t.completedBy.None?)
    && (t.completedBy.Some? ==> t.completedBy.value in userKeys && t.userAgrees.Some?)
  }

  /** Keys listed once each, rows stored under their ids, e-mail addresses unique, and
      every task consistent. */
  predicate Tables(taskIds: seq<string>, tasks: map<string, Task>, userIds: seq<string>, users: map<string, User>) {
    Listed(taskIds, tasks.Keys) && Listed(userIds, users.Keys)
    && KeyedById(tasks)
    && (forall id :: id in users ==> users[id].id == id)
    && (forall a, b :: a in users && b in users && users[a].email == users[b].email ==> a == b)
    && (forall id :: id in tasks ==> TaskConsistent(tasks[id], users.Keys))
  }

  /** Every user's counters are the sums over the tasks that user completed. */
  predicate Balanced(taskIds: seq<string>, tasks: map<string, Task>, users: map<string, User>) {
    forall u :: u in users ==>
      users[u].points == Total(taskIds, tasks, PointsOf(u))
      && users[u].completedTasks == Total(taskIds, tasks, DoneBy(u))
  }

  /** The task row after `complete_task`. */
  function Completion(t: Task, userId: string, agrees: bool, analysis: string, now: int): Task {
    t.(status := Completed, completedBy := Some(userId), userAgrees := Some(agrees),
       userAnalysis := Some(analysis), updatedAt := now)
  }

  /** The user row after `complete_task`. */
  function Credited(u: User, agrees: bool): User {
    u.(points := u.points + Award(agrees), completedTasks := u.completedTasks + 1)
  }

  /** Completing an open task and crediting its user keeps the counters balanced. */
  lemma CompletionBalanced(taskIds: seq<string>, tasks: map<string, Task>, users: map<string, User>,
                           taskId: string, userId: string, agrees: bool, analysis: string, now: int)
    requires Balanced(taskIds, tasks, users) && Distinct(taskIds)
    requires taskId in taskIds && taskId in tasks && tasks[taskId].completedBy.None? && userId in users
    ensures Balanced(taskIds, tasks[taskId := Completion(tasks[taskId], userId, agrees, analysis, now)],
                     users[userId := Credited(users[userId], agrees)])
  {
    var done := Completion(tasks[taskId], userId, agrees, analysis, now);
    forall u | u in users
      ensures Total(taskIds, tasks[taskId := done], PointsOf(u)) == Total(taskIds, tasks, PointsOf(u)) + (if u == userId then Award(agrees) else 0)
      ensures Total(taskIds, tasks[taskId := done], DoneBy(u)) == Total(taskIds, tasks, DoneBy(u)) + (if u == userId then 1 else 0)
    {
      TotalUpdate(taskIds, tasks, taskId, done, PointsOf(u));
      TotalUpdate(taskIds, tasks, taskId, done, DoneBy(u));
    }
  }

  /** Crediting a user is adding the award to the points, then counting one more task. */
  lemma CreditIsTwoUpdates(users: map<string, User>, userId: string, agrees: bool)
    requires userId in users
    ensures var once := users[userId := users[userId].(points := users[userId].points + Award(agrees))];
            once[userId := once[userId].(completedTasks := once[userId].completedTasks + 1)]
            == users[userId := Credited(users[userId], agrees)]
  {
  }

  /** Replacing a user row by one with the same id and address keeps the tables well formed. */
  lemma RowUpdateKeepsTables(taskIds: seq<string>, tasks: map<string, Task>, userIds: seq<string>,
                             users: map<string, User>, userId: string, u: User)
    requires Tables(taskIds, tasks, userIds, users) && userId in users
    requires u.id == users[userId].id && u.email == users[userId].email
    ensures Tables(taskIds, tasks, userIds, users[userId := u])
  {
    assert users[userId := u].Keys == users.Keys;
  }

  /** Completing an open task by an existing user keeps the tables well formed. */
  lemma CompletionKeepsTables(taskIds: seq<string>, tasks: map<string, Task>, userIds: seq<string>,
                              users: map<string, User>, taskId: string, userId: string, agrees: bool,
                              analysis: string, now: int)
    requires Tables(taskIds, tasks, userIds, users) && taskId in tasks && userId in users
    ensures Tables(taskIds, tasks[taskId := Completion(tasks[taskId], userId, agrees, analysis, now)], userIds, users)
  {
    assert tasks[taskId := Completion(tasks[taskId], userId, agrees, analysis, now)].Keys == tasks.Keys;
  }

  class Store {
    var taskIds: seq<string>
    var tasks: map<string, Task>
    var userIds: seq<string>
    var users: map<string, User>

    ghost predicate Valid()
      reads this
    {
      Tables(taskIds, tasks, userIds, users)
    }

    ghost predicate Ledger()
      reads this
    {
      Balanced(taskIds, tasks, users)
    }

    constructor()
      ensures Valid() && Ledger()
      ensures taskIds == [] && tasks == map[] && userIds == [] && users == map[]
    {
      taskIds := [];
      tasks := map[];
      userIds := [];
      users := map[];
    }

    /** Inserting a task row with the column defaults. */
    method AddTask(id: string, text: string, context: string, now: int)
      requires Valid() && id !in tasks
      modifies this
      ensures tasks == old(tasks)[id := NewTask(id, text, context, now)] && taskIds == old(taskIds) + [id]
      ensures users == old(users) && userIds == old(userIds)
      ensures Valid() && (old(Ledger()) ==> Ledger())
    {
      ghost var before := tasks;
      assert id !in taskIds;
      var t := NewTask(id, text, context, now);
      tasks := tasks[id := t];
      taskIds := taskIds + [id];
      forall u | u in users
        ensures Total(taskIds, tasks, PointsOf(u)) == Total(old(taskIds), before, PointsOf(u))
        ensures Total(taskIds, tasks, DoneBy(u)) == Total(old(taskIds), before, DoneBy(u))
      {
        TotalAppend(old(taskIds), id, tasks, PointsOf(u));
        TotalAppend(old(taskIds), id, tasks, DoneBy(u));
        TotalSame(old(taskIds), before, id, t, PointsOf(u));
        TotalSame(old(taskIds), before, id, t, DoneBy(u));
      }
    }

    /** `get_task`. */
    function GetTask(id: string): (r: Option<Task>)
      reads this
      ensures r.Some? <==> id in tasks
      ensures r.Some? ==> r.value == tasks[id]
    {
      if id in tasks then Some(tasks[id]) else None
    }

    /** `get_open_tasks`: the open tasks, in row order. */
    function OpenTasks(): (r: seq<Task>)
      reads this
      requires Valid()
      ensures forall k :: 0 <= k < |r| ==> r[k].status == Open && r[k].id in tasks && tasks[r[k].id] == r[k]
    {
      OpenOf(taskIds, tasks)
    }

    /** Every open task is listed. */
    lemma OpenTasksComplete(id: string)
      requires Valid() && id in tasks && tasks[id].status == Open
      ensures tasks[id] in OpenTasks()
    {
      OpenOfComplete(taskIds, tasks, id);
    }

    /** `get_random_open_task`: None exactly when no task is open, otherwise some open task. */
    method GetRandomOpenTask() returns (r: Option<Task>)
      requires Valid()
      ensures r.None? <==> forall id :: id in tasks ==> tasks[id].status != Open
      ensures r.Some? ==> r.value.status == Open && r.value.id in tasks && tasks[r.value.id] == r.value
    {
      var open := OpenTasks();
      if |open| == 0 {
        forall id | id in tasks ensures tasks[id].status != Open {
          if tasks[id].status == Open {
            OpenTasksComplete(id);
          }
        }
        r := None;
      } else {
        var i :| 0 <= i < |open|;
        r := GetTask(open[i].id);
      }
    }

    /** `User.add_points`. */
    method AddPoints(userId: string, k: int)
      requires userId in users
      modifies this
      ensures users == old(users)[userId := old(users)[userId].(points := old(users)[userId].points + k)]
      ensures tasks == old(tasks) && taskIds == old(taskIds) && userIds == old(userIds)
      ensures old(Valid()) ==> Valid()
    {
      if Valid() {
        RowUpdateKeepsTables(taskIds, tasks, userIds, users, userId, users[userId].(points := users[userId].points + k));
      }
      users := users[userId := users[userId].(points := users[userId].points + k)];
    }

    /** `User.increment_completed_tasks`. */
    method IncrementCompletedTasks(userId: string)
      requires userId in users
      modifies this
      ensures users == old(users)[userId := old(users)[userId].(completedTasks := old(users)[userId].completedTasks + 1)]
      ensures tasks == old(tasks) && taskIds == old(taskIds) && userIds == old(userIds)
      ensures old(Valid()) ==> Valid()
    {
      if Valid() {
        RowUpdateKeepsTables(taskIds, tasks, userIds, users, userId, users[userId].(completedTasks := users[userId].completedTasks + 1));
      }
      users := users[userId := users[userId].(completedTasks := users[userId].completedTasks + 1)];
    }

    /** `complete_task`: fails, changing nothing, unless the task exists and is open and
        the user exists; otherwise records the answer on the task and awards the points. */
    method CompleteTask(taskId: string, userId: string, agrees: bool, analysis: string, now: int)
      returns (ok: bool)
      requires Valid()
      modifies this
      ensures !ok <==> taskId !in old(tasks) || userId !in old(users) || old(tasks)[taskId].status != Open
      ensures !ok ==> tasks == old(tasks) && users == old(users)
      ensures ok ==> tasks == old(tasks)[taskId := Completion(old(tasks)[taskId], userId, agrees, analysis, now)]
      ensures ok ==> users == old(users)[userId := Credited(old(users)[userId], agrees)]
      ensures taskIds == old(taskIds) && userIds == old(userIds)
      ensures Valid() && (old(Ledger()) ==> Ledger())
    {
      if taskId !in tasks || userId !in users || tasks[taskId].status != Open {
        return false;
      }
      if Ledger() {
        CompletionBalanced(taskIds, tasks, users, taskId, userId, agrees, analysis, now);
      }
      CompletionKeepsTables(taskIds, tasks, userIds, users, taskId, userId, agrees, analysis, now);
      tasks := tasks[taskId := Completion(tasks[taskId], userId, agrees, analysis, now)];
      RowUpdateKeepsTables(taskIds, tasks, userIds, users, userId, Credited(users[userId], agrees));
      users := users[userId := Credited(users[userId], agrees)];
      ok := true;
    }

    /** A task is completed at most once: the second of two submissions fails. */
    method CompleteTaskTwice(taskId: string, first: string, second: string, agrees1: bool, agrees2: bool,
                             analysis1: string, analysis2: string, now1: int, now2: int)
      returns (ok1: bool, ok2: bool)
      requires Valid()
      modifies this
      ensures ok1 ==> !ok2
      ensures ok1 ==> taskId in tasks && tasks[taskId].completedBy == Some(first)
    {
      ok1 := CompleteTask(taskId, first, agrees1, analysis1, now1);
      ok2 := CompleteTask(taskId, second, agrees2, analysis2, now2);
    }

    /** `get_user_by_id`. */
    function GetUserById(id: string): (r: Option<User>)
      reads this
      ensures r.None? <==> id !in users
      ensures r.Some? ==> r.value == users[id]
    {
      if id in users then Some(users[id]) else None
    }

    /** `get_or_create_user`: the user with this e-mail address, unchanged, or a new one
        with no points under `freshId` (a fresh UUID) when there is none. */
    method GetOrCreateUser(email: string, name: Option<string>, hashedPassword: Option<string>,
                           picture: Option<string>, freshId: string) returns (u: User)
      requires Valid() && freshId !in users
      modifies this
      ensures (exists id :: id in old(users) && old(users)[id].email == email) ==>
                users == old(users) && userIds == old(userIds)
      ensures !(exists id :: id in old(users) && old(users)[id].email == email) ==>
                u == NewUser(freshId, email, name, hashedPassword, picture)
                && users == old(users)[freshId := u] && userIds == old(userIds) + [freshId]
      ensures u.id in users && users[u.id] == u && u.email == email
      ensures tasks == old(tasks) && taskIds == old(taskIds)
      ensures Valid() && (old(Ledger()) ==> Ledger())
    {
      if exists id :: id in users && users[id].email == email {
        var id :| id in users && users[id].email == email;
        u := users[id];
      } else {
        assert freshId !in userIds;
        u := NewUser(freshId, email, name, hashedPassword, picture);
        forall i | 0 <= i < |taskIds| && taskIds[i] in tasks
          ensures Value(PointsOf(freshId), tasks[taskIds[i]]) == 0 && Value(DoneBy(freshId), tasks[taskIds[i]]) == 0
        {
          assert TaskConsistent(tasks[taskIds[i]], users.Keys);
        }
        TotalZero(taskIds, tasks, PointsOf(freshId));
        TotalZero(taskIds, tasks, DoneBy(freshId));
        users := users[freshId := u];
        userIds := userIds + [freshId];
      }
    }

    /** Signing in twice with one address yields one record. */
    method SignInTwice(email: string, name: Option<string>, picture: Option<string>, id1: string, id2: string)
      returns (u1: User, u2: User)
      requires Valid() && id1 !in users && id2 !in users && id1 != id2
      modifies this
      ensures u1 == u2
      ensures |userIds| <= |old(userIds)| + 1
    {
      u1 := GetOrCreateUser(email, name, None, picture, id1);
      u2 := GetOrCreateUser(email, name, None, picture, id2);
    }

    /** `get_user_completed_tasks`: the tasks the user completed, most recently updated first. */
    function UserCompletedTasks(user: string): (r: seq<Task>)
      reads this
      requires Valid()
      ensures SortedDesc(r, Recency)
      ensures multiset(r) == multiset(DoneOf(taskIds, tasks, user))
    {
      SortDesc(DoneOf(taskIds, tasks, user), Recency)
    }

    /** A task is in the list exactly when the user completed it. */
    lemma UserCompletedTasksExactly(user: string, id: string)
      requires Valid() && id in tasks
      ensures tasks[id] in UserCompletedTasks(user) <==> tasks[id].completedBy == Some(user)
    {
      var done := DoneOf(taskIds, tasks, user);
      SortDescMembers(done, Recency, tasks[id]);
      if tasks[id].completedBy == Some(user) {
        DoneOfComplete(taskIds, tasks, user, id);
      }
    }

    /** The list is as long as the user's completion counter. */
    lemma UserCompletedTasksCount(user: string)
      requires Valid() && Ledger() && user in users
      ensures |UserCompletedTasks(user)| == users[user].completedTasks
    {
      DoneOfCount(taskIds, tasks, user);
    }
  }
}
