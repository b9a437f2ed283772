/** The HTTP routes of the backend that read or change the task and user tables:
    bearer-token sign-in, the task endpoints, the per-user endpoints (owner only), the
    leaderboard and the platform totals. A route's reply is a body or an HTTP error status.
    Verifying the token's signature is left to the caller: a route receives the token's
    subject when it verifies and None when it does not. */
module Routes {
  import opened Text
  import opened Ordering
  import opened TaskStore

  /** What a route sends back: a body, or an error status. */
  datatype Reply<T> = Ok(body: T) | Err(status: nat)

  // ---------------------------------------------------------------------------
  // Authentication

  /** The token verified and names a user of the table. */
  predicate SignedIn(store: Store, sub: Option<string>)
    reads store
  {
    sub.Some? && sub.value in store.users
  }

  /** `get_current_user`: 401 unless the token verifies and its subject is a known user. */
  function CurrentUser(store: Store, sub: Option<string>): (r: Reply<User>)
    reads store
    requires store.Valid()
    ensures r.Ok? <==> SignedIn(store, sub)
    ensures r.Err? ==> r.status == 401
    ensures r.Ok? ==> r.body == store.users[sub.value] && r.body.id == sub.value
  {
    if sub.None? then Err(401)
    else match store.GetUserById(sub.value)
      case None => Err(401)
      case Some(u) => Ok(u)
  }

  // ---------------------------------------------------------------------------
  // Tasks

  /** The value of a status column. */
  function StatusValue(s: TaskStatus): string {
    match s
    case Open => "OPEN"
    case Completed => "COMPLETED"
  }

  /** One task as the task page shows it: fixed topic, difficulty and XP, and the claim
      is the task text. */
  datatype TaskDetail = TaskDetail(id: string, text: string, topic: string, difficulty: string,
                                   status: string, context: string, claim: string,
                                   references: seq<string>, xp: int)

  function Detail(t: Task): TaskDetail {
    TaskDetail(t.id, t.text, "Wikipedia Fact Check", "Medium", StatusValue(t.status), t.context,
               t.text, [], 25)
  }

  /** One row of the task list, with placeholder topic, difficulty and status. */
  datatype TaskSummary = TaskSummary(id: string, text: string, topic: string, difficulty: string, status: string)

  function Summaries(open: seq<Task>): (r: seq<TaskSummary>)
    ensures |r| == |open|
    ensures forall k :: 0 <= k < |r| ==> r[k] == TaskSummary(open[k].id, open[k].text, "Topic", "Difficulty", "Status")
  {
    seq(|open|, k requires 0 <= k < |open| => TaskSummary(open[k].id, open[k].text, "Topic", "Difficulty", "Status"))
  }

  /** `GET /api/tasks`: the open tasks, for a signed-in user. */
  function GetTasks(store: Store, sub: Option<string>): (r: Reply<seq<TaskSummary>>)
    reads store
    requires store.Valid()
    ensures r.Ok? <==> SignedIn(store, sub)
    ensures r.Err? ==> r.status == 401
    ensures r.Ok? ==> forall k :: 0 <= k < |r.body| ==>
              r.body[k].id in store.tasks && store.tasks[r.body[k].id].status == Open
              && r.body[k].text == store.tasks[r.body[k].id].text
  {
    match CurrentUser(store, sub)
    case Err(s) => Err(s)
    case Ok(_) => Ok(Summaries(store.OpenTasks()))
  }

  /** Every open task is in the list. */
  lemma GetTasksListsEveryOpenTask(store: Store, sub: Option<string>, id: string)
    requires store.Valid() && SignedIn(store, sub)
    requires id in store.tasks && store.tasks[id].status == Open
    ensures exists k :: 0 <= k < |GetTasks(store, sub).body| && GetTasks(store, sub).body[k].id == id
  {
    store.OpenTasksComplete(id);
    var open := store.OpenTasks();
    var k :| 0 <= k < |open| && open[k] == store.tasks[id];
    assert GetTasks(store, sub).body[k].id == id;
  }

  /** `GET /api/tasks/rand` as written: with no open task the handler reads a field of
      `None`, which the framework turns into status 500. */
  method GetRandomTaskAsWritten(store: Store) returns (r: Reply<TaskDetail>)
    requires store.Valid()
    ensures r.Err? <==> forall id :: id in store.tasks ==> store.tasks[id].status != Open
    ensures r.Err? ==> r.status == 500
    ensures r.Ok? ==> r.body.id in store.tasks && store.tasks[r.body.id].status == Open && r.body.status == "OPEN"
  {
    var t := store.GetRandomOpenTask();
    if t.None? {
      r := Err(500);
    } else {
      r := Ok(Detail(t.value));
    }
  }

  /** `GET /api/tasks/rand` answering "not found" when no task is open, as the
      single-task route does for a missing task. */
  method GetRandomTask(store: Store) returns (r: Reply<TaskDetail>)
    requires store.Valid()
    ensures r.Err? <==> forall id :: id in store.tasks ==> store.tasks[id].status != Open
    ensures r.Err? ==> r.status == 404
    ensures r.Ok? ==> r.body.id in store.tasks && store.tasks[r.body.id].status == Open && r.body.status == "OPEN"
  {
    var t := store.GetRandomOpenTask();
    match t
    case None => r := Err(404);
    case Some(task) => r := Ok(Detail(task));
  }

  /** `GET /api/tasks/{task_id}`: 401 before anything else, then 404 for an unknown task. */
  function GetTaskById(store: Store, sub: Option<string>, taskId: string): (r: Reply<TaskDetail>)
    reads store
    requires store.Valid()
    ensures !SignedIn(store, sub) ==> r == Err(401)
    ensures SignedIn(store, sub) && taskId !in store.tasks ==> r == Err(404)
    ensures r.Ok? <==> SignedIn(store, sub) && taskId in store.tasks
    ensures r.Ok? ==> r.body.id == taskId && r.body.text == r.body.claim == store.tasks[taskId].text
                      && r.body.status == StatusValue(store.tasks[taskId].status)
                      && r.body.xp == 25 && r.body.references == []
  {
    match CurrentUser(store, sub)
    case Err(s) => Err(s)
    case Ok(_) =>
      match store.GetTask(taskId)
      case None => Err(404)
      case Some(t) => Ok(Detail(t))
  }

  /** `POST /api/tasks/{task_id}/submit`: 401 for a bad token, 400 when the task cannot be
      completed; otherwise the task is completed by the signed-in user, who is credited. */
  method SubmitTask(store: Store, sub: Option<string>, taskId: string, agrees: bool, analysis: string, now: int)
    returns (r: Reply<bool>)
    requires store.Valid()
    modifies store
    ensures store.Valid() && (old(store.Ledger()) ==> store.Ledger())
    ensures store.taskIds == old(store.taskIds) && store.userIds == old(store.userIds)
    ensures !old(SignedIn(store, sub)) ==> r == Err(401)
    ensures old(SignedIn(store, sub)) ==>
              (r == Err(400) <==> taskId !in old(store.tasks) || old(store.tasks)[taskId].status != Open)
    ensures r.Err? ==> store.tasks == old(store.tasks) && store.users == old(store.users)
    ensures r.Ok? ==> r.body && old(SignedIn(store, sub))
                      && store.tasks == old(store.tasks)[taskId := Completion(old(store.tasks)[taskId], sub.value, agrees, analysis, now)]
                      && store.users == old(store.users)[sub.value := Credited(old(store.users)[sub.value], agrees)]
    ensures r.Ok? ==> PlatformStats(store).totalPointsAwarded == old(PlatformStats(store)).totalPointsAwarded + Award(agrees)
                      && PlatformStats(store).totalCompletedTasks == old(PlatformStats(store)).totalCompletedTasks + 1
                      && PlatformStats(store).totalUsers == old(PlatformStats(store)).totalUsers
  {
    var me := CurrentUser(store, sub);
    if me.Err? {
      return Err(me.status);
    }
    var userId := me.body.id;
    CreditRaisesTotals(store.userIds, store.users, userId, agrees);
    var ok := store.CompleteTask(taskId, userId, agrees, analysis, now);
    if !ok {
      return Err(400);
    }
    r := Ok(true);
  }

  // ---------------------------------------------------------------------------
  // Per-user endpoints: only the signed-in user may read their own data

  /** 401 for a bad token, 403 for another user's id, otherwise the signed-in user. */
  function Owner(store: Store, sub: Option<string>, userId: string): (r: Reply<User>)
    reads store
    requires store.Valid()
    ensures !SignedIn(store, sub) ==> r == Err(401)
    ensures SignedIn(store, sub) && sub.value != userId ==> r == Err(403)
    ensures r.Ok? <==> SignedIn(store, sub) && sub.value == userId
    ensures r.Ok? ==> r.body == store.users[userId]
  {
    match CurrentUser(store, sub)
    case Err(s) => Err(s)
    case Ok(u) => if u.id != userId then Err(403) else Ok(u)
  }

  /** `GET /api/users/{user_id}/completed-tasks`: the user's completion counter. */
  function CompletedTasksCount(store: Store, sub: Option<string>, userId: string): (r: Reply<int>)
    reads store
    requires store.Valid()
    ensures r.Ok? <==> SignedIn(store, sub) && sub.value == userId
    ensures r.Err? ==> r.status == (if SignedIn(store, sub) then 403 else 401)
    ensures r.Ok? ==> r.body == store.users[userId].completedTasks
  {
    match Owner(store, sub, userId)
    case Err(s) => Err(s)
    case Ok(u) => Ok(u.completedTasks)
  }

  datatype Stats = Stats(points: int, completedTasks: int, badges: int, rank: int)

  /** `GET /api/users/{user_id}/stats`: the user's counters, with badges always 0 and rank always 1. */
  function UserStats(store: Store, sub: Option<string>, userId: string): (r: Reply<Stats>)
    reads store
    requires store.Valid()
    ensures r.Ok? <==> SignedIn(store, sub) && sub.value == userId
    ensures r.Err? ==> r.status == (if SignedIn(store, sub) then 403 else 401)
    ensures r.Ok? ==> r.body.points == store.users[userId].points
                      && r.body.completedTasks == store.users[userId].completedTasks
                      && r.body.badges == 0 && r.body.rank == 1
  {
    match Owner(store, sub, userId)
    case Err(s) => Err(s)
    case Ok(u) => Ok(Stats(u.points, u.completedTasks, 0, 1))
  }

  /** One completed task as the profile lists it. */
  datatype CompletedView = CompletedView(id: string, text: string, agreesWithClaim: Option<bool>,
                                         analysis: Option<string>, completedAt: int, pointsEarned: int)

  function Views(done: seq<Task>): (r: seq<CompletedView>)
    ensures |r| == |done|
    ensures forall k :: 0 <= k < |r| ==>
              r[k] == CompletedView(done[k].id, done[k].text, done[k].userAgrees, done[k].userAnalysis,
                                    done[k].updatedAt, PointsEarned(done[k].userAgrees))
  {
    seq(|done|, k requires 0 <= k < |done| =>
      CompletedView(done[k].id, done[k].text, done[k].userAgrees, done[k].userAnalysis,
                    done[k].updatedAt, PointsEarned(done[k].userAgrees)))
  }

  /** `GET /api/users/{user_id}/completed-tasks/list`: the user's completed tasks, most
      recently updated first. */
  function CompletedTasksList(store: Store, sub: Option<string>, userId: string): (r: Reply<seq<CompletedView>>)
    reads store
    requires store.Valid()
    ensures r.Ok? <==> SignedIn(store, sub) && sub.value == userId
    ensures r.Err? ==> r.status == (if SignedIn(store, sub) then 403 else 401)
    ensures r.Ok? ==> forall i, j :: 0 <= i < j < |r.body| ==> r.body[i].completedAt >= r.body[j].completedAt
  {
    match Owner(store, sub, userId)
    case Err(s) => Err(s)
    case Ok(_) =>
      var done := store.UserCompletedTasks(userId);
      var views := Views(done);
      assert forall i, j :: 0 <= i < j < |views| ==> views[i].completedAt >= views[j].completedAt by {
        forall i, j | 0 <= i < j < |views| ensures views[i].completedAt >= views[j].completedAt {
          assert Recency(done[i]) >= Recency(done[j]);
        }
      }
      Ok(views)
  }

  /** The list holds exactly the tasks the user completed. */
  lemma CompletedTasksListExactly(store: Store, sub: Option<string>, userId: string, id: string)
    requires store.Valid() && SignedIn(store, sub) && sub.value == userId && id in store.tasks
    ensures (exists k :: 0 <= k < |CompletedTasksList(store, sub, userId).body|
                         && CompletedTasksList(store, sub, userId).body[k].id == id)
            <==> store.tasks[id].completedBy == Some(userId)
  {
    var done := store.UserCompletedTasks(userId);
    var views := CompletedTasksList(store, sub, userId).body;
    assert views == Views(done);
    store.UserCompletedTasksExactly(userId, id);
    if store.tasks[id].completedBy == Some(userId) {
      var k :| 0 <= k < |done| && done[k] == store.tasks[id];
      assert views[k].id == id;
    }
    if k :| 0 <= k < |views| && views[k].id == id {
      CompletedMember(store, userId, k);
    }
  }

  /** A listed task is a stored row the user completed. */
  lemma CompletedMember(store: Store, userId: string, k: nat)
    requires store.Valid() && k < |store.UserCompletedTasks(userId)|
    ensures var t := store.UserCompletedTasks(userId)[k];
            t.id in store.tasks && store.tasks[t.id] == t && t.completedBy == Some(userId)
  {
    var done := store.UserCompletedTasks(userId);
    var all := DoneOf(store.taskIds, store.tasks, userId);
    assert done[k] in multiset(all) by { assert done[k] in multiset(done); }
    var i :| 0 <= i < |all| && all[i] == done[k];
  }

  /** Each listed task shows the points its completion awarded. */
  lemma CompletedTasksListPoints(store: Store, sub: Option<string>, userId: string, k: nat)
    requires store.Valid() && SignedIn(store, sub) && sub.value == userId
    requires k < |CompletedTasksList(store, sub, userId).body|
    ensures var v := CompletedTasksList(store, sub, userId).body[k];
            v.agreesWithClaim.Some? && v.pointsEarned == Award(v.agreesWithClaim.value)
  {
    var done := store.UserCompletedTasks(userId);
    assert CompletedTasksList(store, sub, userId).body == Views(done);
    CompletedMember(store, userId, k);
    assert TaskConsistent(store.tasks[done[k].id], store.users.Keys);
    PointsEarnedIsAward(done[k].userAgrees.value);
  }

  /** While the counters are balanced, the list is as long as the count endpoint says. */
  lemma CompletedTasksListLength(store: Store, sub: Option<string>, userId: string)
    requires store.Valid() && store.Ledger() && SignedIn(store, sub) && sub.value == userId
    ensures |CompletedTasksList(store, sub, userId).body| == CompletedTasksCount(store, sub, userId).body
  {
    store.UserCompletedTasksCount(userId);
  }

  // ---------------------------------------------------------------------------
  // Leaderboard

  function UserPoints(u: User): int { u.points }

  /** The users table in row order. */
  function Rows(ids: seq<string>, users: map<string, User>): (r: seq<User>)
    requires forall i :: 0 <= i < |ids| ==> ids[i] in users
    ensures |r| == |ids|
    ensures forall k :: 0 <= k < |r| ==> r[k] == users[ids[k]]
  {
    seq(|ids|, k requires 0 <= k < |ids| => users[ids[k]])
  }

  /** The users table ordered by points, highest first. */
  function Ranked(store: Store): (r: seq<User>)
    reads store
    requires store.Valid()
    ensures SortedDesc(r, UserPoints)
    ensures forall k :: 0 <= k < |r| ==> r[k].id in store.users && store.users[r[k].id] == r[k]
  {
    var rows := Rows(store.userIds, store.users);
    var r := SortDesc(rows, UserPoints);
    assert forall k :: 0 <= k < |r| ==> r[k].id in store.users && store.users[r[k].id] == r[k] by {
      forall k | 0 <= k < |r| ensures r[k].id in store.users && store.users[r[k].id] == r[k] {
        assert r[k] in multiset(rows) by { assert r[k] in multiset(r); }
        var i :| 0 <= i < |rows| && rows[i] == r[k];
      }
    }
    r
  }

  /** A user's place: one more than the number of users with strictly more points, so
      users with equal points share a place. */
  function RankOf(store: Store, p: int): (n: nat)
    reads store
    ensures 1 <= n <= |store.users| + 1
  {
    var above := set id | id in store.users && store.users[id].points > p;
    assert above <= store.users.Keys;
    SubsetCard(above, store.users.Keys);
    1 + |above|
  }

  lemma SubsetCard<T>(a: set<T>, b: set<T>)
    requires a <= b
    ensures |a| <= |b|
  {
    if a != {} {
      var x :| x in a;
      SubsetCard(a - {x}, b - {x});
    }
  }

  lemma RowsTail(ids: seq<string>, users: map<string, User>)
    requires ids != [] && forall i :: 0 <= i < |ids| ==> ids[i] in users
    ensures Rows(ids, users)[1..] == Rows(ids[1..], users)
    ensures Rows(ids, users)[0] == users[ids[0]]
  {
  }

  lemma DistinctTail(ids: seq<string>)
    requires ids != [] && Distinct(ids)
    ensures Distinct(ids[1..]) && ids[0] !in ids[1..]
  {
    var rest := ids[1..];
    forall i | 0 <= i < |rest| ensures rest[i] == ids[i + 1] {
    }
  }

  /** Counting the rows with more points counts the users with more points. */
  lemma {:induction false} CountRows(ids: seq<string>, users: map<string, User>, p: int)
    requires Distinct(ids) && forall i :: 0 <= i < |ids| ==> ids[i] in users
    ensures CountAbove(Rows(ids, users), UserPoints, p) == |set id | id in ids && users[id].points > p|
  {
    if ids != [] {
      RowsTail(ids, users);
      DistinctTail(ids);
      CountRows(ids[1..], users, p);
      AboveSplit(ids, users, p);
    }
  }

  /** The users above `p` among `ids` are those among its tail, plus its head if above. */
  lemma AboveSplit(ids: seq<string>, users: map<string, User>, p: int)
    requires ids != [] && ids[0] !in ids[1..] && forall i :: 0 <= i < |ids| ==> ids[i] in users
    ensures |set id | id in ids && users[id].points > p|
         == (if users[ids[0]].points > p then 1 else 0) + |set id | id in ids[1..] && users[id].points > p|
  {
    var x, rest := ids[0], ids[1..];
    var above := set id | id in ids && users[id].points > p;
    var restAbove := set id | id in rest && users[id].points > p;
    assert forall id :: id in ids <==> id == x || id in rest by {
      assert ids == [x] + rest;
    }
    if users[x].points > p {
      assert above == restAbove + {x};
    } else {
      assert above == restAbove;
    }
  }

  /** The place of a user with `p` points, counted over the table's rows. */
  lemma RankCountsRows(store: Store, p: int)
    requires store.Valid()
    ensures RankOf(store, p) == 1 + CountAbove(Rows(store.userIds, store.users), UserPoints, p)
  {
    CountRows(store.userIds, store.users, p);
    assert (set id | id in store.userIds && store.users[id].points > p)
        == (set id | id in store.users && store.users[id].points > p);
  }

  datatype Entry = Entry(id: string, name: string, points: int, completedTasks: int, rank: int)

  datatype Board = Board(totalUsers: nat, userRank: int, users: seq<Entry>)

  /** `user.name or user.email`: the e-mail address when the name is missing or empty. */
  function DisplayName(u: User): (s: string)
    ensures u.name.Some? && u.name.value != [] ==> s == u.name.value
    ensures u.name.None? || u.name.value == [] ==> s == u.email
  {
    if u.name.Some? && u.name.value != [] then u.name.value else u.email
  }

  function Entries(page: seq<User>, offset: int): (r: seq<Entry>)
    ensures |r| == |page|
    ensures forall k :: 0 <= k < |r| ==>
              r[k] == Entry(page[k].id, DisplayName(page[k]), page[k].points, page[k].completedTasks, offset + k + 1)
  {
    seq(|page|, k requires 0 <= k < |page| =>
      Entry(page[k].id, DisplayName(page[k]), page[k].points, page[k].completedTasks, offset + k + 1))
  }

  /** `GET /api/leaderboard`: the number of users, the caller's place, and one page of the
      users ordered by points, numbered from `offset + 1`. */
  function Leaderboard(store: Store, sub: Option<string>, limit: int, offset: int): (r: Reply<Board>)
    reads store
    requires store.Valid()
    ensures r.Ok? <==> SignedIn(store, sub)
    ensures r.Err? ==> r.status == 401
    ensures r.Ok? ==> r.body.totalUsers == |store.users|
    ensures r.Ok? ==> r.body.userRank == RankOf(store, store.users[sub.value].points)
    ensures r.Ok? ==> 1 <= r.body.userRank <= r.body.totalUsers
    ensures r.Ok? && limit >= 0 ==> |r.body.users| <= limit
    ensures r.Ok? ==> forall k :: 0 <= k < |r.body.users| ==>
              r.body.users[k].rank == offset + k + 1
              && r.body.users[k].id in store.users
              && r.body.users[k].points == store.users[r.body.users[k].id].points
    ensures r.Ok? ==> forall i, j :: 0 <= i < j < |r.body.users| ==> r.body.users[i].points >= r.body.users[j].points
  {
    match CurrentUser(store, sub)
    case Err(s) => Err(s)
    case Ok(me) =>
      var rows := Rows(store.userIds, store.users);
      var ranked := Ranked(store);
      var page := Window(ranked, offset, limit);
      LeaderboardFacts(store, me, ranked, page, offset, limit);
      Ok(Board(|store.userIds|, 1 + CountAbove(rows, UserPoints, me.points), Entries(page, offset)))
  }

  /** The counting facts behind the leaderboard's contract. */
  lemma LeaderboardFacts(store: Store, me: User, ranked: seq<User>, page: seq<User>, offset: int, limit: int)
    requires store.Valid() && me.id in store.users && store.users[me.id] == me
    requires ranked == Ranked(store) && page == Window(ranked, offset, limit)
    ensures |store.userIds| == |store.users|
    ensures 1 + CountAbove(Rows(store.userIds, store.users), UserPoints, me.points) == RankOf(store, me.points)
    ensures 1 + CountAbove(Rows(store.userIds, store.users), UserPoints, me.points) <= |store.users|
    ensures SortedDesc(page, UserPoints)
    ensures forall k :: 0 <= k < |page| ==> page[k].id in store.users && store.users[page[k].id] == page[k]
  {
    ListedCard(store.userIds, store.users.Keys);
    RankCountsRows(store, me.points);
    var rows := Rows(store.userIds, store.users);
    var i :| 0 <= i < |store.userIds| && store.userIds[i] == me.id;
    CountAboveBelowAll(rows, UserPoints, me.points, i);
    WindowSorted(ranked, offset, limit, UserPoints);
  }

  /** The place printed next to a leaderboard entry is the place that user sees as their
      own, whenever the entry opens a run of equal points in the full ordering and the
      offset is not negative. */
  lemma LeaderboardRankAgrees(store: Store, sub: Option<string>, limit: int, offset: int, k: nat)
    requires store.Valid() && SignedIn(store, sub) && offset >= 0
    requires k < |Leaderboard(store, sub, limit, offset).body.users|
    requires offset + k == 0 || (offset + k - 1 < |Ranked(store)|
      && Ranked(store)[offset + k - 1].points > Leaderboard(store, sub, limit, offset).body.users[k].points)
    ensures Leaderboard(store, sub, limit, offset).body.users[k].rank
            == RankOf(store, Leaderboard(store, sub, limit, offset).body.users[k].points)
  {
    var ranked := Ranked(store);
    assert Leaderboard(store, sub, limit, offset).body.users == Entries(Window(ranked, offset, limit), offset);
    PagePlace(store, ranked, offset, limit, k);
  }

  /** The same, for entry `k` of the page of `ranked` starting at `offset`. */
  lemma PagePlace(store: Store, ranked: seq<User>, offset: int, limit: int, k: nat)
    requires store.Valid() && ranked == Ranked(store) && offset >= 0
    requires k < |Entries(Window(ranked, offset, limit), offset)|
    requires offset + k == 0 || (offset + k - 1 < |ranked|
      && ranked[offset + k - 1].points > Entries(Window(ranked, offset, limit), offset)[k].points)
    ensures Entries(Window(ranked, offset, limit), offset)[k].rank
            == RankOf(store, Entries(Window(ranked, offset, limit), offset)[k].points)
  {
    var page := Window(ranked, offset, limit);
    assert offset <= |ranked| && k + offset < |ranked| && page[k] == ranked[offset + k];
    EntryPlace(store, Entries(page, offset)[k], offset + k);
  }

  /** An entry carrying the points and the 1-based position of a user at the head of a run
      of equal points carries that user's place. */
  lemma EntryPlace(store: Store, e: Entry, i: nat)
    requires store.Valid() && i < |Ranked(store)|
    requires e.points == Ranked(store)[i].points && e.rank == i + 1
    requires i == 0 || Ranked(store)[i - 1].points > e.points
    ensures e.rank == RankOf(store, e.points)
  {
    RankedPlace(store, i);
  }

  /** Entry `k` of a page is the user at place `offset + k` of the full ordering. */
  lemma LeaderboardEntry(store: Store, sub: Option<string>, limit: int, offset: int, k: nat)
    requires store.Valid() && SignedIn(store, sub) && offset >= 0
    requires k < |Leaderboard(store, sub, limit, offset).body.users|
    ensures offset + k < |Ranked(store)|
    ensures Leaderboard(store, sub, limit, offset).body.users[k].points == Ranked(store)[offset + k].points
    ensures Leaderboard(store, sub, limit, offset).body.users[k].rank == offset + k + 1
  {
    var page := Window(Ranked(store), offset, limit);
    assert Leaderboard(store, sub, limit, offset).body.users == Entries(page, offset);
  }

  /** The user at the head of a run of equal points in the full ordering has the place that
      counts the users with more points. */
  lemma RankedPlace(store: Store, i: nat)
    requires store.Valid() && i < |Ranked(store)|
    requires i == 0 || Ranked(store)[i - 1].points > Ranked(store)[i].points
    ensures RankOf(store, Ranked(store)[i].points) == i + 1
  {
    var ranked := Ranked(store);
    var rows := Rows(store.userIds, store.users);
    var p := ranked[i].points;
    CountAboveSorted(ranked, UserPoints, i);
    assert multiset(ranked) == multiset(rows);
    CountAbovePerm(ranked, rows, UserPoints, p);
    RankCountsRows(store, p);
  }

  // ---------------------------------------------------------------------------
  // Platform totals

  /** The sum of `f` over the rows with keys `ids`. */
  function SumBy(ids: seq<string>, users: map<string, User>, f: User -> int): int
    decreases |ids|
  {
    if ids == [] then 0
    else (if ids[0] in users then f(users[ids[0]]) else 0) + SumBy(ids[1..], users, f)
  }

  lemma {:induction false} SumBySame(ids: seq<string>, users: map<string, User>, id: string, u: User, f: User -> int)
    requires id !in ids
    ensures SumBy(ids, users[id := u], f) == SumBy(ids, users, f)
  {
    if ids != [] {
      SumBySame(ids[1..], users, id, u, f);
    }
  }

  /** Replacing one listed row changes the sum by the change of that row's value. */
  lemma {:induction false} SumByUpdate(ids: seq<string>, users: map<string, User>, id: string, u: User, f: User -> int)
    requires Distinct(ids) && id in ids && id in users
    ensures SumBy(ids, users[id := u], f) == SumBy(ids, users, f) - f(users[id]) + f(u)
  {
    if ids[0] == id {
      assert id !in ids[1..] by {
        forall k | 0 <= k < |ids[1..]| ensures ids[1..][k] != id { assert ids[1..][k] == ids[k + 1]; }
      }
      SumBySame(ids[1..], users, id, u, f);
    } else {
      SumByUpdate(ids[1..], users, id, u, f);
    }
  }

  function UserCompleted(u: User): int { u.completedTasks }

  datatype Platform = Platform(totalUsers: nat, totalCompletedTasks: int, totalPointsAwarded: int)

  /** `GET /api/stats/platform` without the average: the number of users and the sums of
      their counters, 0 when there are none. */
  function PlatformStats(store: Store): (r: Platform)
    reads store
    requires store.Valid()
    ensures r.totalUsers == |store.users|
    ensures |store.users| == 0 ==> r.totalCompletedTasks == 0 && r.totalPointsAwarded == 0
    ensures r.totalCompletedTasks == SumBy(store.userIds, store.users, UserCompleted)
    ensures r.totalPointsAwarded == SumBy(store.userIds, store.users, UserPoints)
  {
    ListedCard(store.userIds, store.users.Keys);
    Platform(|store.userIds|, SumBy(store.userIds, store.users, UserCompleted), SumBy(store.userIds, store.users, UserPoints))
  }

  /** Crediting a listed user raises the point total by the award and the completion total by one. */
  lemma CreditRaisesTotals(ids: seq<string>, users: map<string, User>, userId: string, agrees: bool)
    requires Distinct(ids) && userId in ids && userId in users
    ensures SumBy(ids, users[userId := Credited(users[userId], agrees)], UserPoints) == SumBy(ids, users, UserPoints) + Award(agrees)
    ensures SumBy(ids, users[userId := Credited(users[userId], agrees)], UserCompleted) == SumBy(ids, users, UserCompleted) + 1
  {
    SumByUpdate(ids, users, userId, Credited(users[userId], agrees), UserPoints);
    SumByUpdate(ids, users, userId, Credited(users[userId], agrees), UserCompleted);
  }
}
