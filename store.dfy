/** The database app.py keeps in `tasks.db`, and the route handlers as the
    table operations they perform. The session user is passed in as `uid`. */
module Store {
  import opened SqliteText
  import opened Tables

  /** Some pair among the first `n` of a GROUP BY result has key `s`. */
  ghost predicate SeenBefore(raw: seq<(string, nat)>, s: string, n: int)
  {
    exists j :: 0 <= j < n && j < |raw| && raw[j].0 == s
  }

  /** No pair after position `i` and before `n` has the key of pair `i`, so
      pair `i` is the last word on its key. */
  ghost predicate LastOfKey(raw: seq<(string, nat)>, i: int, n: int)
    requires 0 <= i < |raw|
  {
    forall k :: i < k < n && k < |raw| ==> raw[k].0 != raw[i].0
  }

  /** What the stats loop has built after the first `n` pairs: the seeded
      keys plus the keys seen, zero for a seeded key not yet seen, and for
      each key the count of its latest pair. */
  ghost predicate StatsSoFar(raw: seq<(string, nat)>, stats: map<string, nat>, n: int)
  {
    (forall s :: s in stats <==> s in STATS_SEED || SeenBefore(raw, s, n)) &&
    (forall s :: s in STATS_SEED && !SeenBefore(raw, s, n) ==> stats[s] == 0) &&
    (forall j :: 0 <= j < n && j < |raw| && LastOfKey(raw, j, n) ==>
       raw[j].0 in stats && stats[raw[j].0] == raw[j].1)
  }

  /** One turn of the loop: overwriting the key of pair `n` with its count. */
  lemma StatsStep(raw: seq<(string, nat)>, stats: map<string, nat>, n: nat)
    requires n < |raw| && StatsSoFar(raw, stats, n)
    ensures StatsSoFar(raw, stats[raw[n].0 := raw[n].1], n + 1)
  {
    var next := stats[raw[n].0 := raw[n].1];
    forall s ensures SeenBefore(raw, s, n + 1) <==> SeenBefore(raw, s, n) || s == raw[n].0 {
      if SeenBefore(raw, s, n + 1) && s != raw[n].0 {
        var j :| 0 <= j < n + 1 && j < |raw| && raw[j].0 == s;
        assert SeenBefore(raw, s, n);
      }
      if s == raw[n].0 {
        assert raw[n].0 == s;
      }
    }
    forall j | 0 <= j < n + 1 && LastOfKey(raw, j, n + 1)
      ensures raw[j].0 in next && next[raw[j].0] == raw[j].1
    {
      if j < n {
        assert LastOfKey(raw, j, n) && raw[j].0 != raw[n].0;
      }
    }
  }

  /** The loop that turns the `(status, count)` rows into the `stats`
      dictionary: seeded with a zero for each known status, then each row
      overwrites its key. */
  method StatsFromGroups(raw: seq<(string, nat)>) returns (stats: map<string, nat>)
    ensures forall s :: s in stats <==> s in STATS_SEED || HasGroup(raw, s)
    ensures forall s :: s in STATS_SEED && !HasGroup(raw, s) ==> stats[s] == 0
    ensures forall i :: 0 <= i < |raw| && LastOfKey(raw, i, |raw|) ==>
      raw[i].0 in stats && stats[raw[i].0] == raw[i].1
  {
    stats := STATS_SEED;
    var i := 0;
    while i < |raw|
      invariant 0 <= i <= |raw|
      invariant StatsSoFar(raw, stats, i)
    {
      var (status, count) := raw[i];
      StatsStep(raw, stats, i);
      stats := stats[status := count];
      i := i + 1;
    }
    forall s ensures HasGroup(raw, s) <==> SeenBefore(raw, s, |raw|) {
      if HasGroup(raw, s) {
        var j :| 0 <= j < |raw| && raw[j].0 == s;
      }
    }
  }

  /** A map with the keys and values `StatsFromGroups` promises for the
      grouped `rows` equals any map whose keys are the known statuses plus
      the statuses of `rows`, each mapped to its count: the shape of the
      reference `StatsFor`. */
  lemma GroupedStatsMatch(rows: seq<Task>, stats: map<string, nat>, expected: map<string, nat>)
    requires var raw := GroupByStatus(rows);
      (forall s :: s in stats <==> s in STATS_SEED || HasGroup(raw, s)) &&
      (forall s :: s in STATS_SEED && !HasGroup(raw, s) ==> stats[s] == 0) &&
      (forall i :: 0 <= i < |raw| && LastOfKey(raw, i, |raw|) ==>
         raw[i].0 in stats && stats[raw[i].0] == raw[i].1)
    requires forall s :: s in expected <==> KnownStatus(s) || HasStatus(rows, s)
    requires forall s :: s in expected ==> expected[s] == CountStatus(rows, s)
    ensures stats == expected
  {
    var raw := GroupByStatus(rows);
    assert forall s :: s in STATS_SEED <==> KnownStatus(s);
    assert stats.Keys == expected.Keys;
    forall s | s in stats ensures stats[s] == expected[s] {
      if HasGroup(raw, s) {
        var i :| 0 <= i < |raw| && raw[i].0 == s;
        assert LastOfKey(raw, i, |raw|);
      }
    }
  }

  /** The two tables with their AUTOINCREMENT counters: `nextUserId` and
      `nextTaskId` are one more than the largest id handed out so far. */
  class TrackerDb {
    var users: seq<User>
    var nextUserId: int
    var tasks: seq<Task>
    var nextTaskId: int

    /** The constraints the schema declares, and the status set app.py keeps. */
    ghost predicate Valid()
      reads this
    {
      1 <= nextUserId && 1 <= nextTaskId &&
      UniqueUsernames(users) && UniqueUserIds(users) &&
      (forall i :: 0 <= i < |users| ==> 1 <= users[i].id < nextUserId) &&
      UniqueTaskIds(tasks) && AllKnownStatus(tasks) &&
      (forall i :: 0 <= i < |tasks| ==> 1 <= tasks[i].id < nextTaskId)
    }

    /** Freshly created, empty tables. */
    constructor ()
      ensures Valid()
      ensures users == [] && tasks == [] && nextUserId == 1 && nextTaskId == 1
    {
      users, nextUserId := [], 1;
      tasks, nextTaskId := [], 1;
    }

    /** The POST branch of the register route: insert the user, or fail on
        the UNIQUE constraint and leave the table as it was. */
    method Register(username: string, passwordHash: string) returns (ok: bool)
      requires Valid()
      modifies this`users, this`nextUserId
      ensures Valid()
      ensures ok <==> forall i :: 0 <= i < |old(users)| ==> old(users)[i].username != username
      ensures ok ==> users == old(users) + [User(old(nextUserId), username, passwordHash)] &&
                     nextUserId == old(nextUserId) + 1
      ensures !ok ==> users == old(users) && nextUserId == old(nextUserId)
    {
      var existing := FindUser(users, username);
      if existing.Some? {
        ok := false;
      } else {
        users := users + [User(nextUserId, username, passwordHash)];
        nextUserId := nextUserId + 1;
        ok := true;
      }
    }

    /** The POST branch of the login route: the id of the user with that
        name, when the stored hash accepts the password. */
    method Login(username: string, password: string, checkPasswordHash: (string, string) -> bool)
      returns (uid: Option<int>)
      requires Valid()
      ensures uid.Some? <==> exists i :: 0 <= i < |users| && users[i].username == username &&
                                         checkPasswordHash(users[i].passwordHash, password)
      ensures uid.Some? ==> exists i :: 0 <= i < |users| && users[i].id == uid.value &&
                                        users[i].username == username
    {
      var found := FindUser(users, username);
      if exists i :: 0 <= i < |users| && users[i].username == username {
        var i :| 0 <= i < |users| && users[i].username == username;
        FindUserUnique(users, username, i);
      }
      if found.Some? && checkPasswordHash(found.value.passwordHash, password) {
        uid := Some(found.value.id);
      } else {
        uid := None;
      }
    }

    /** The add route: one new row for the session user, `pending` by
        default, with the next AUTOINCREMENT id. */
    method AddTask(uid: int, title: string, deadline: string) returns (id: int)
      requires Valid()
      modifies this`tasks, this`nextTaskId
      ensures Valid()
      ensures id == old(nextTaskId) && nextTaskId == id + 1
      ensures forall i :: 0 <= i < |old(tasks)| ==> old(tasks)[i].id < id
      ensures tasks == old(tasks) + [Task(id, uid, title, Some(deadline), PENDING)]
    {
      id := nextTaskId;
      tasks := tasks + [Task(id, uid, title, Some(deadline), PENDING)];
      nextTaskId := nextTaskId + 1;
    }

    /** The complete route, scoped to the session user. */
    method Complete(taskId: int, uid: int)
      requires Valid()
      modifies this`tasks
      ensures Valid()
      ensures tasks == CompleteTask(old(tasks), taskId, uid)
    {
      tasks := CompleteTask(tasks, taskId, uid);
    }

    /** The recover route. The session user plays no part in the statement. */
    method Recover(taskId: int)
      requires Valid()
      modifies this`tasks
      ensures Valid()
      ensures tasks == RecoverTask(old(tasks), taskId)
    {
      tasks := RecoverTask(tasks, taskId);
    }

    /** The delete route, scoped to the session user. */
    method Delete(taskId: int, uid: int)
      requires Valid()
      modifies this`tasks
      ensures Valid()
      ensures tasks == DeleteTask(old(tasks), taskId, uid)
    {
      DeleteTaskKeepsUniqueIds(tasks, taskId, uid);
      DeleteTaskKeepsIdBound(tasks, taskId, uid, nextTaskId);
      DeleteTaskKeepsStatuses(tasks, taskId, uid);
      tasks := DeleteTask(tasks, taskId, uid);
    }

    /** The sweep at the start of every dashboard view, row by row over the
        whole table, every user's tasks included. */
    method AutoMarkMissed(today: string)
      requires Valid()
      modifies this`tasks
      ensures Valid()
      ensures tasks == MarkMissed(old(tasks), today)
    {
      var i := 0;
      while i < |tasks|
        invariant 0 <= i <= |tasks| == |old(tasks)|
        invariant forall k :: 0 <= k < i ==> tasks[k] == SweepRow(old(tasks)[k], today)
        invariant forall k :: i <= k < |tasks| ==> tasks[k] == old(tasks)[k]
      {
        if IsOverdue(tasks[i], today) {
          tasks := tasks[i := tasks[i].(status := MISSED)];
        }
        i := i + 1;
      }
      forall k | 0 <= k < |tasks| ensures tasks[k].id == old(tasks)[k].id && 1 <= tasks[k].id < nextTaskId {
        assert old(tasks)[k] == old(tasks[k]);
      }
    }

    /** The dashboard route: sweep, then the user's rows and their stats. */
    method Dashboard(uid: int, today: string) returns (rows: seq<Task>, stats: map<string, nat>)
      requires Valid()
      modifies this`tasks
      ensures Valid()
      ensures tasks == MarkMissed(old(tasks), today)
      ensures rows == TasksOf(tasks, uid)
      ensures stats == StatsFor(tasks, uid)
    {
      AutoMarkMissed(today);
      rows := TasksOf(tasks, uid);
      var raw := GroupByStatus(rows);
      stats := StatsFromGroups(raw);
      GroupedStatsMatch(rows, stats, StatsFor(tasks, uid));
    }
  }
}
