/** The rows of the `users` and `tasks` tables and the statements app.py runs
    on them, as functions on sequences of rows in rowid (insertion) order. */
module Tables {
  import opened SqliteText

  datatype Option<T> = None | Some(value: T)

  /** The three values app.py ever writes to `tasks.status`. The column is
      TEXT, so other values are representable; see `AllKnownStatus`. */
  const PENDING: string := "pending"
  const COMPLETED: string := "completed"
  const MISSED: string := "missed"

  predicate KnownStatus(s: string)
  {
    s == PENDING || s == COMPLETED || s == MISSED
  }

  /** A row of `users`: `password` holds the salted hash, never the password. */
  datatype User = User(id: int, username: string, passwordHash: string)

  /** A row of `tasks`. `deadline` is a nullable TEXT column. */
  datatype Task = Task(id: int, userId: int, title: string, deadline: Option<string>, status: string)

  // ---------------- table invariants ----------------

  /** `id` is the primary key of `tasks`. */
  ghost predicate UniqueTaskIds(ts: seq<Task>)
  {
    forall i, j :: 0 <= i < j < |ts| ==> ts[i].id != ts[j].id
  }

  ghost predicate AllKnownStatus(ts: seq<Task>)
  {
    forall i :: 0 <= i < |ts| ==> KnownStatus(ts[i].status)
  }

  /** `username` is declared UNIQUE. */
  ghost predicate UniqueUsernames(us: seq<User>)
  {
    forall i, j :: 0 <= i < j < |us| ==> us[i].username != us[j].username
  }

  /** `id` is the primary key of `users`. */
  ghost predicate UniqueUserIds(us: seq<User>)
  {
    forall i, j :: 0 <= i < j < |us| ==> us[i].id != us[j].id
  }

  // ---------------- users ----------------

  /** `SELECT id, password FROM users WHERE username=?` followed by
      `fetchone()`: the first matching row, if any. */
  function FindUser(us: seq<User>, username: string): (r: Option<User>)
    ensures r.None? <==> forall i :: 0 <= i < |us| ==> us[i].username != username
    ensures r.Some? ==> exists i :: 0 <= i < |us| && us[i] == r.value && us[i].username == username
  {
    if us == [] then None
    else if us[0].username == username then Some(us[0])
    else
      var r := FindUser(us[1..], username);
      assert r.Some? ==> us[1..][0..] == us[1..];
      r
  }

  /** With unique usernames the row found is the only row with that name. */
  lemma {:induction false} FindUserUnique(us: seq<User>, username: string, k: nat)
    requires UniqueUsernames(us)
    requires k < |us| && us[k].username == username
    ensures FindUser(us, username) == Some(us[k])
  {
    if k > 0 {
      assert us[0].username != username;
      assert UniqueUsernames(us[1..]) by {
        forall i, j | 0 <= i < j < |us| - 1 ensures us[1..][i].username != us[1..][j].username {
          assert us[1..][i] == us[i + 1] && us[1..][j] == us[j + 1];
        }
      }
      FindUserUnique(us[1..], username, k - 1);
    }
  }

  // ---------------- the missed-task sweep ----------------

  /** The WHERE clause of the sweep: `status = 'pending' AND deadline < ?`.
      A NULL deadline makes `<` NULL, which never selects the row. On two
      `YYYY-MM-DD` dates the text test is the calendar test. */
  function IsOverdue(t: Task, today: string): (r: bool)
    ensures r ==> t.status == PENDING
    ensures t.deadline.None? ==> !r
    ensures t.deadline.Some? && IsIsoDate(t.deadline.value) && IsIsoDate(today) ==>
      (r <==> t.status == PENDING && Earlier(t.deadline.value, today))
  {
    match t.deadline
    case None => false
    case Some(d) =>
      if IsIsoDate(d) && IsIsoDate(today) then
        IsoDateOrder(d, today);
        t.status == PENDING && LexLess(d, today)
      else
        t.status == PENDING && LexLess(d, today)
  }

  /** One row as the sweep leaves it. */
  function SweepRow(t: Task, today: string): Task
  {
    if IsOverdue(t, today) then t.(status := MISSED) else t
  }

  /** `UPDATE tasks SET status = 'missed' WHERE status = 'pending' AND
      deadline < today`, over every user's rows. */
  function MarkMissed(ts: seq<Task>, today: string): (r: seq<Task>)
    ensures |r| == |ts|
    ensures forall i :: 0 <= i < |ts| && IsOverdue(ts[i], today) ==> r[i] == ts[i].(status := MISSED)
    ensures forall i :: 0 <= i < |ts| && !IsOverdue(ts[i], today) ==> r[i] == ts[i]
  {
    if ts == [] then [] else [SweepRow(ts[0], today)] + MarkMissed(ts[1..], today)
  }

  /** A second sweep on the same day changes nothing. */
  lemma MarkMissedIdempotent(ts: seq<Task>, today: string)
    ensures MarkMissed(MarkMissed(ts, today), today) == MarkMissed(ts, today)
  {
    var once := MarkMissed(ts, today);
    var twice := MarkMissed(once, today);
    forall i | 0 <= i < |ts| ensures twice[i] == once[i] {
      assert !IsOverdue(once[i], today);
    }
  }

  /** The sweep only ever rewrites `status`, only from `pending` to `missed`:
      a completed or missed task keeps its status, and id, owner, title and
      deadline never change. */
  lemma MarkMissedOnlyFlipsPending(ts: seq<Task>, today: string)
    ensures var r := MarkMissed(ts, today);
      forall i :: 0 <= i < |ts| ==>
        r[i].id == ts[i].id && r[i].userId == ts[i].userId && r[i].title == ts[i].title &&
        r[i].deadline == ts[i].deadline &&
        (r[i].status == ts[i].status || (ts[i].status == PENDING && r[i].status == MISSED))
  {
  }

  /** An empty deadline string, which the add route stores when the form
      field is left blank, is missed on any day; a NULL deadline never is. */
  lemma MarkMissedDeadlineEdgeCases(t: Task, today: string)
    requires t.status == PENDING && |today| > 0
    ensures t.deadline == Some("") ==> MarkMissed([t], today) == [t.(status := MISSED)]
    ensures t.deadline.None? ==> MarkMissed([t], today) == [t]
  {
  }

  // ---------------- owner-scoped and unscoped updates ----------------

  predicate Owned(t: Task, id: int, uid: int)
  {
    t.id == id && t.userId == uid
  }

  /** `UPDATE tasks SET status='completed' WHERE id=? AND user_id=?`. */
  function CompleteTask(ts: seq<Task>, id: int, uid: int): (r: seq<Task>)
    ensures |r| == |ts|
    ensures forall i :: 0 <= i < |ts| && Owned(ts[i], id, uid) ==> r[i] == ts[i].(status := COMPLETED)
    ensures forall i :: 0 <= i < |ts| && !Owned(ts[i], id, uid) ==> r[i] == ts[i]
  {
    if ts == [] then []
    else [if Owned(ts[0], id, uid) then ts[0].(status := COMPLETED) else ts[0]] + CompleteTask(ts[1..], id, uid)
  }

  /** Completing an already completed task, or completing twice, changes
      nothing further; completing a task the user does not own, or that does
      not exist, changes nothing at all. */
  lemma CompleteTaskIdempotent(ts: seq<Task>, id: int, uid: int)
    ensures CompleteTask(CompleteTask(ts, id, uid), id, uid) == CompleteTask(ts, id, uid)
    ensures (forall i :: 0 <= i < |ts| ==> !Owned(ts[i], id, uid) || ts[i].status == COMPLETED) ==>
      CompleteTask(ts, id, uid) == ts
  {
    var once := CompleteTask(ts, id, uid);
    assert forall i :: 0 <= i < |ts| ==> CompleteTask(once, id, uid)[i] == once[i];
    if forall i :: 0 <= i < |ts| ==> !Owned(ts[i], id, uid) || ts[i].status == COMPLETED {
      assert forall i :: 0 <= i < |ts| ==> once[i] == ts[i];
    }
  }

  /** `UPDATE tasks SET status='pending' WHERE id=?`: neither the owner nor
      the current status is part of the condition. */
  function RecoverTask(ts: seq<Task>, id: int): (r: seq<Task>)
    ensures |r| == |ts|
    ensures forall i :: 0 <= i < |ts| && ts[i].id == id ==> r[i] == ts[i].(status := PENDING)
    ensures forall i :: 0 <= i < |ts| && ts[i].id != id ==> r[i] == ts[i]
  {
    if ts == [] then []
    else [if ts[0].id == id then ts[0].(status := PENDING) else ts[0]] + RecoverTask(ts[1..], id)
  }

  /** `DELETE FROM tasks WHERE id=? AND user_id=?`. */
  function DeleteTask(ts: seq<Task>, id: int, uid: int): (r: seq<Task>)
    ensures |r| <= |ts|
    ensures |r| == |ts| <==> forall i :: 0 <= i < |ts| ==> !Owned(ts[i], id, uid)
  {
    if ts == [] then []
    else
      (if Owned(ts[0], id, uid) then [] else [ts[0]]) + DeleteTask(ts[1..], id, uid)
  }

  /** The rows left are exactly the rows that do not match both the id and
      the owner. */
  lemma {:induction false} DeleteTaskMembers(ts: seq<Task>, id: int, uid: int)
    ensures forall t :: t in DeleteTask(ts, id, uid) <==> t in ts && !Owned(t, id, uid)
  {
    if ts != [] {
      DeleteTaskMembers(ts[1..], id, uid);
      assert ts == [ts[0]] + ts[1..];
    }
  }

  /** Deleting a task that does not exist, or that another user owns, is a
      silent no-op. */
  lemma {:induction false} DeleteTaskNoMatch(ts: seq<Task>, id: int, uid: int)
    requires forall i :: 0 <= i < |ts| ==> !Owned(ts[i], id, uid)
    ensures DeleteTask(ts, id, uid) == ts
  {
    if ts != [] {
      var tail := ts[1..];
      assert forall i :: 0 <= i < |tail| ==> tail[i] == ts[i + 1];
      DeleteTaskNoMatch(tail, id, uid);
      assert ts == [ts[0]] + tail;
    }
  }

  /** When the row at `k` is owned and no other row has its id, deleting
      removes exactly that row and keeps the order of all the others. */
  lemma {:induction false} DeleteTaskRemovesRow(ts: seq<Task>, id: int, uid: int, k: nat)
    requires k < |ts| && Owned(ts[k], id, uid)
    requires forall i :: 0 <= i < |ts| && i != k ==> ts[i].id != id
    ensures DeleteTask(ts, id, uid) == ts[..k] + ts[k + 1..]
  {
    var tail := ts[1..];
    assert forall i :: 0 <= i < |tail| ==> tail[i] == ts[i + 1];
    if k == 0 {
      DeleteTaskNoMatch(tail, id, uid);
      assert ts[..0] + ts[1..] == tail;
    } else {
      DeleteTaskRemovesRow(tail, id, uid, k - 1);
      calc {
        DeleteTask(ts, id, uid);
        [ts[0]] + DeleteTask(tail, id, uid);
        [ts[0]] + (tail[..k - 1] + tail[k..]);
        { assert [ts[0]] + tail[..k - 1] == ts[..k]; assert tail[k..] == ts[k + 1..]; }
        ts[..k] + ts[k + 1..];
      }
    }
  }

  /** Deleting keeps the primary key. */
  lemma {:induction false} DeleteTaskKeepsUniqueIds(ts: seq<Task>, id: int, uid: int)
    requires UniqueTaskIds(ts)
    ensures UniqueTaskIds(DeleteTask(ts, id, uid))
  {
    if ts != [] {
      var tail := ts[1..];
      assert forall i :: 0 <= i < |tail| ==> tail[i] == ts[i + 1];
      DeleteTaskKeepsUniqueIds(tail, id, uid);
      var rest := DeleteTask(tail, id, uid);
      if !Owned(ts[0], id, uid) {
        var r := [ts[0]] + rest;
        DeleteTaskMembers(tail, id, uid);
        forall j | 0 <= j < |rest| ensures rest[j].id != ts[0].id {
          assert rest[j] in rest;
          var k :| 0 <= k < |tail| && tail[k] == rest[j];
        }
        forall a, b | 0 <= a < b < |r| ensures r[a].id != r[b].id {
          assert r[b] == rest[b - 1];
          if a > 0 {
            assert r[a] == rest[a - 1];
          }
        }
      }
    }
  }

  /** Deleting keeps every id within the AUTOINCREMENT bound. */
  lemma DeleteTaskKeepsIdBound(ts: seq<Task>, id: int, uid: int, bound: int)
    requires forall i :: 0 <= i < |ts| ==> 1 <= ts[i].id < bound
    ensures forall i :: 0 <= i < |DeleteTask(ts, id, uid)| ==> 1 <= DeleteTask(ts, id, uid)[i].id < bound
  {
    var r := DeleteTask(ts, id, uid);
    DeleteTaskMembers(ts, id, uid);
    forall i | 0 <= i < |r| ensures exists j :: 0 <= j < |ts| && ts[j] == r[i] {
      assert r[i] in r;
    }
  }

  /** Deleting keeps every status within the three values. */
  lemma DeleteTaskKeepsStatuses(ts: seq<Task>, id: int, uid: int)
    requires AllKnownStatus(ts)
    ensures AllKnownStatus(DeleteTask(ts, id, uid))
  {
    var r := DeleteTask(ts, id, uid);
    DeleteTaskMembers(ts, id, uid);
    forall i | 0 <= i < |r| ensures exists j :: 0 <= j < |ts| && ts[j] == r[i] {
      assert r[i] in r;
    }
  }

  // ---------------- the dashboard queries ----------------

  /** `SELECT ... FROM tasks WHERE user_id = ?`, in rowid order. */
  function TasksOf(ts: seq<Task>, uid: int): (r: seq<Task>)
    ensures |r| <= |ts|
    ensures forall i :: 0 <= i < |r| ==> r[i].userId == uid
  {
    if ts == [] then []
    else (if ts[0].userId == uid then [ts[0]] else []) + TasksOf(ts[1..], uid)
  }

  /** The list holds exactly the user's rows. */
  lemma {:induction false} TasksOfMembers(ts: seq<Task>, uid: int)
    ensures forall t :: t in TasksOf(ts, uid) <==> t in ts && t.userId == uid
  {
    if ts != [] {
      TasksOfMembers(ts[1..], uid);
      assert ts == [ts[0]] + ts[1..];
    }
  }

  /** A new row appears at the end of its owner's list, and only there. */
  lemma {:induction false} TasksOfAppend(ts: seq<Task>, t: Task, uid: int)
    ensures TasksOf(ts + [t], uid) == TasksOf(ts, uid) + (if t.userId == uid then [t] else [])
  {
    if ts == [] {
      assert [] + [t] == [t];
    } else {
      assert (ts + [t])[1..] == ts[1..] + [t];
      TasksOfAppend(ts[1..], t, uid);
    }
  }

  /** `complete` is owner-scoped: the caller's list changes as if the update
      ran on that list alone, and every other user's list is untouched. */
  lemma {:induction false} CompleteTaskIsolation(ts: seq<Task>, id: int, uid: int, other: int)
    ensures TasksOf(CompleteTask(ts, id, uid), uid) == CompleteTask(TasksOf(ts, uid), id, uid)
    ensures other != uid ==> TasksOf(CompleteTask(ts, id, uid), other) == TasksOf(ts, other)
  {
    if ts != [] {
      CompleteTaskIsolation(ts[1..], id, uid, other);
      assert CompleteTask(ts, id, uid)[1..] == CompleteTask(ts[1..], id, uid);
    }
  }

  /** `delete` is owner-scoped in the same way. */
  lemma {:induction false} DeleteTaskIsolation(ts: seq<Task>, id: int, uid: int, other: int)
    ensures TasksOf(DeleteTask(ts, id, uid), uid) == DeleteTask(TasksOf(ts, uid), id, uid)
    ensures other != uid ==> TasksOf(DeleteTask(ts, id, uid), other) == TasksOf(ts, other)
  {
    if ts != [] {
      var tail := ts[1..];
      DeleteTaskIsolation(tail, id, uid, other);
      var head := if Owned(ts[0], id, uid) then [] else [ts[0]];
      var rest := DeleteTask(tail, id, uid);
      assert DeleteTask(ts, id, uid) == head + rest;
      TasksOfConcat(head, rest, uid);
      TasksOfConcat(head, rest, other);
      assert TasksOf(ts, uid) == (if ts[0].userId == uid then [ts[0]] else []) + TasksOf(tail, uid);
      assert TasksOf([ts[0]], uid) == (if ts[0].userId == uid then [ts[0]] else []);
      assert TasksOf([ts[0]], other) == (if ts[0].userId == other then [ts[0]] else []);
      if ts[0].userId == uid {
        var mine := TasksOf(ts, uid);
        assert TasksOf(head, uid) == head;
        assert mine[0] == ts[0] && mine[1..] == TasksOf(tail, uid);
        assert DeleteTask(mine, id, uid) == head + DeleteTask(TasksOf(tail, uid), id, uid);
      } else {
        assert head == [ts[0]] && TasksOf(head, uid) == [];
        assert TasksOf(ts, uid) == TasksOf(tail, uid);
      }
    }
  }

  /** After the owner deletes a task, no row with that id is left in the
      owner's list. */
  lemma DeletedTaskLeavesList(ts: seq<Task>, id: int, uid: int)
    ensures forall t :: t in TasksOf(DeleteTask(ts, id, uid), uid) ==> t.id != id
  {
    TasksOfMembers(DeleteTask(ts, id, uid), uid);
    DeleteTaskMembers(ts, id, uid);
  }

  /** `recover` is not scoped: every user's list, not only the caller's, is
      changed by it wherever the id occurs. */
  lemma {:induction false} RecoverTaskReachesEveryUser(ts: seq<Task>, id: int, u: int)
    ensures TasksOf(RecoverTask(ts, id), u) == RecoverTask(TasksOf(ts, u), id)
  {
    if ts != [] {
      RecoverTaskReachesEveryUser(ts[1..], id, u);
      assert RecoverTask(ts, id)[1..] == RecoverTask(ts[1..], id);
    }
  }

  /** The sweep is not scoped either: each user's list is swept as a whole. */
  lemma {:induction false} MarkMissedReachesEveryUser(ts: seq<Task>, today: string, u: int)
    ensures TasksOf(MarkMissed(ts, today), u) == MarkMissed(TasksOf(ts, u), today)
  {
    if ts != [] {
      MarkMissedReachesEveryUser(ts[1..], today, u);
      assert MarkMissed(ts, today)[1..] == MarkMissed(ts[1..], today);
    }
  }

  lemma {:induction false} TasksOfConcat(a: seq<Task>, b: seq<Task>, uid: int)
    ensures TasksOf(a + b, uid) == TasksOf(a, uid) + TasksOf(b, uid)
  {
    if a == [] {
      assert a + b == b;
    } else {
      var ab := a + b;
      assert ab[0] == a[0] && ab[1..] == a[1..] + b;
      TasksOfConcat(a[1..], b, uid);
      var head := if a[0].userId == uid then [a[0]] else [];
      calc {
        TasksOf(ab, uid);
        head + TasksOf(a[1..] + b, uid);
        head + (TasksOf(a[1..], uid) + TasksOf(b, uid));
        (head + TasksOf(a[1..], uid)) + TasksOf(b, uid);
        TasksOf(a, uid) + TasksOf(b, uid);
      }
    }
  }


  /** Some row of `ts` has status `s`. */
  predicate HasStatus(ts: seq<Task>, s: string)
  {
    exists i :: 0 <= i < |ts| && ts[i].status == s
  }

  /** `COUNT(*)` of the rows with a given status. */
  function CountStatus(ts: seq<Task>, s: string): (n: nat)
    ensures n <= |ts|
    ensures n > 0 <==> HasStatus(ts, s)
  {
    if ts == [] then 0
    else
      var rest := CountStatus(ts[1..], s);
      assert forall i :: 0 < i < |ts| ==> ts[i] == ts[1..][i - 1];
      (if ts[0].status == s then 1 else 0) + rest
  }

  /** While every status is one of the three app.py writes, the three counts
      together account for every row. */
  lemma {:induction false} CountsCoverKnownStatuses(ts: seq<Task>)
    requires AllKnownStatus(ts)
    ensures CountStatus(ts, PENDING) + CountStatus(ts, COMPLETED) + CountStatus(ts, MISSED) == |ts|
  {
    if ts != [] {
      assert AllKnownStatus(ts[1..]) by {
        forall i | 0 <= i < |ts| - 1 ensures KnownStatus(ts[1..][i].status) {
          assert ts[1..][i] == ts[i + 1];
        }
      }
      CountsCoverKnownStatuses(ts[1..]);
    }
  }

  /** The distinct statuses of `ts`, each once. */
  function StatusesIn(ts: seq<Task>): (r: seq<string>)
    ensures forall i, j :: 0 <= i < j < |r| ==> r[i] != r[j]
    ensures forall s :: s in r <==> HasStatus(ts, s)
  {
    if ts == [] then []
    else
      var rest := StatusesIn(ts[1..]);
      assert forall i :: 0 < i < |ts| ==> ts[i] == ts[1..][i - 1];
      if ts[0].status in rest then rest else [ts[0].status] + rest
  }

  /** Some pair of a GROUP BY result has key `s`. */
  predicate HasGroup(g: seq<(string, nat)>, s: string)
  {
    exists i :: 0 <= i < |g| && g[i].0 == s
  }

  /** `SELECT status, COUNT(*) ... GROUP BY status`: one pair per status that
      occurs, with its count. SQLite does not promise an order of the groups. */
  function GroupByStatus(ts: seq<Task>): (g: seq<(string, nat)>)
    ensures forall i, j :: 0 <= i < j < |g| ==> g[i].0 != g[j].0
    ensures forall i :: 0 <= i < |g| ==> g[i].1 == CountStatus(ts, g[i].0) && g[i].1 > 0
    ensures forall s :: HasGroup(g, s) <==> HasStatus(ts, s)
  {
    var ss := StatusesIn(ts);
    var g := seq(|ss|, i requires 0 <= i < |ss| => (ss[i], CountStatus(ts, ss[i])));
    assert forall i :: 0 <= i < |g| ==> g[i].0 == ss[i] && ss[i] in ss;
    assert forall s :: HasGroup(g, s) <==> s in ss by {
      forall s ensures HasGroup(g, s) <==> s in ss {
        if s in ss {
          var i :| 0 <= i < |ss| && ss[i] == s;
          assert g[i].0 == s;
        }
      }
    }
    g
  }

  const STATS_SEED: map<string, nat> := map[PENDING := 0, COMPLETED := 0, MISSED := 0]

  /** The dashboard's `stats` dictionary for `uid`, as a reference: the three
      seeded statuses and every status the user's rows hold, each mapped to
      the number of the user's rows in that status. */
  function StatsFor(ts: seq<Task>, uid: int): (r: map<string, nat>)
    ensures forall s :: s in r <==> KnownStatus(s) || HasStatus(TasksOf(ts, uid), s)
    ensures forall s :: s in r ==> r[s] == CountStatus(TasksOf(ts, uid), s)
  {
    var mine := TasksOf(ts, uid);
    map s | s in STATS_SEED.Keys + (set i | 0 <= i < |mine| :: mine[i].status) :: CountStatus(mine, s)
  }

  /** Each seeded status is present; one the user has no task in shows 0. */
  lemma StatsDefaultToZero(ts: seq<Task>, uid: int, s: string)
    requires KnownStatus(s)
    ensures s in StatsFor(ts, uid)
    ensures StatsFor(ts, uid)[s] == 0 <==> forall t :: t in ts && t.userId == uid ==> t.status != s
  {
    var mine := TasksOf(ts, uid);
    TasksOfMembers(ts, uid);
    if exists t :: t in ts && t.userId == uid && t.status == s {
      var t :| t in ts && t.userId == uid && t.status == s;
      var i :| 0 <= i < |mine| && mine[i] == t;
    }
  }

  /** While the status invariant holds, the three counts sum to the length of
      the user's task list. */
  lemma StatsSumToListLength(ts: seq<Task>, uid: int)
    requires AllKnownStatus(ts)
    ensures StatsFor(ts, uid)[PENDING] + StatsFor(ts, uid)[COMPLETED] + StatsFor(ts, uid)[MISSED] == |TasksOf(ts, uid)|
  {
    var mine := TasksOf(ts, uid);
    TasksOfMembers(ts, uid);
    assert AllKnownStatus(mine) by {
      forall i | 0 <= i < |mine| ensures KnownStatus(mine[i].status) {
        assert mine[i] in ts;
      }
    }
    CountsCoverKnownStatuses(mine);
  }
}
