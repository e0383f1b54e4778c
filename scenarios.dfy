/** Request sequences against a fresh database, with what the model proves
    about each step. The password check is a stand-in for the hashing
    library: a hash accepts exactly the password it was made from. */
module Scenarios {
  import opened SqliteText
  import opened Tables
  import opened Store

  function StandInHash(password: string): string
  {
    "hash:" + password
  }

  predicate StandInCheck(hash: string, password: string)
  {
    hash == StandInHash(password)
  }

  /** The second registration of a name fails and adds no row. */
  method RegisterTwice()
  {
    var db := new TrackerDb();
    var ok := db.Register("alice", StandInHash("pw-a"));
    assert ok && db.users == [User(1, "alice", StandInHash("pw-a"))];
    assert db.users[0].username == "alice";
    ok := db.Register("alice", StandInHash("other"));
    assert !ok && db.users == [User(1, "alice", StandInHash("pw-a"))];
    ok := db.Register("bob", StandInHash("pw-b"));
    assert ok && db.users[1] == User(2, "bob", StandInHash("pw-b"));
  }

  /** Login needs both a registered name and the password its hash was made
      from, and yields that user's id. */
  method LoginNeedsPassword()
  {
    var db := new TrackerDb();
    var ok := db.Register("alice", StandInHash("pw-a"));
    ok := db.Register("bob", StandInHash("pw-b"));
    assert db.users == [User(1, "alice", StandInHash("pw-a")), User(2, "bob", StandInHash("pw-b"))];

    var session := db.Login("alice", "pw-a", StandInCheck);
    assert StandInCheck(db.users[0].passwordHash, "pw-a");
    assert db.users[1].username != "alice";
    assert session == Some(1);
    session := db.Login("alice", "pw-b", StandInCheck);
    assert StandInHash("pw-a")[8] != StandInHash("pw-b")[8];
    assert session.None?;
    session := db.Login("carol", "pw-a", StandInCheck);
    assert session.None?;
  }

  /** Bob (user 2) can neither complete nor delete Alice's (user 1) task,
      but his recover reaches it. */
  method OwnerScoping()
  {
    var db := new TrackerDb();
    var alice, bob := 1, 2;
    var id := db.AddTask(alice, "report", "2020-01-01");
    assert id == 1;
    db.Complete(id, alice);
    var done := db.tasks;
    assert done == [Task(1, alice, "report", Some("2020-01-01"), COMPLETED)];

    db.Complete(id, bob);
    assert db.tasks == done;
    db.Delete(id, bob);
    assert db.tasks == done;
    db.Recover(id);
    assert db.tasks == [Task(1, alice, "report", Some("2020-01-01"), PENDING)];
    db.Delete(id, alice);
    assert db.tasks == [];
  }

  /** On 2026-10-14 the sweep marks a 2020 deadline missed and leaves a 2999
      deadline and a completed task alone, whoever owns them. */
  lemma SweepOnAGivenDay()
    ensures var ts := [Task(1, 1, "report", Some("2020-01-01"), PENDING),
                       Task(2, 1, "party", Some("2999-01-01"), PENDING),
                       Task(3, 2, "taxes", Some("2020-01-01"), COMPLETED)];
      MarkMissed(ts, "2026-10-14") == [ts[0].(status := MISSED), ts[1], ts[2]]
  {
    var ts := [Task(1, 1, "report", Some("2020-01-01"), PENDING),
               Task(2, 1, "party", Some("2999-01-01"), PENDING),
               Task(3, 2, "taxes", Some("2020-01-01"), COMPLETED)];
    ExampleDates();
    assert IsOverdue(ts[0], "2026-10-14");
    assert !IsOverdue(ts[1], "2026-10-14") && !IsOverdue(ts[2], "2026-10-14");
  }

  /** The three dates of the sweep example are ISO dates of the years 2020,
      2026 and 2999. */
  lemma ExampleYears()
    ensures IsIsoDate("2020-01-01") && IsIsoDate("2026-10-14") && IsIsoDate("2999-01-01")
    ensures Year("2020-01-01") == 2020 && Year("2026-10-14") == 2026 && Year("2999-01-01") == 2999
  {
    assert IsIsoDate("2020-01-01");
    assert IsIsoDate("2026-10-14");
    assert IsIsoDate("2999-01-01");
    YearDigits("2020-01-01");
    YearDigits("2026-10-14");
    YearDigits("2999-01-01");
  }

  /** The three dates of the sweep example, ordered as calendar dates; the
      first pair also shows BINARY order relating strings that are not
      prefixes of each other. */
  lemma ExampleDates()
    ensures LexLess("2020-01-01", "2026-10-14") && !LexLess("2999-01-01", "2026-10-14")
    ensures !("2020-01-01" < "2026-10-14")
  {
    ExampleYears();
    IsoDateOrder("2020-01-01", "2026-10-14");
    IsoDateOrder("2999-01-01", "2026-10-14");
    assert "2020-01-01"[3] != "2026-10-14"[3];
  }

  /** Of the three example rows, the first and the last are user 1's. */
  lemma ExampleOwnRows(t0: Task, t1: Task, t2: Task)
    requires t0.userId == 1 && t1.userId == 2 && t2.userId == 1
    ensures TasksOf([t0, t1, t2], 1) == [t0, t2]
  {
    assert [t0, t1, t2][1..] == [t1, t2] && [t1, t2][1..] == [t2] && [t2][1..] == [];
    assert TasksOf([t2], 1) == [t2];
    assert TasksOf([t1, t2], 1) == [t2];
  }

  /** One pending and one completed task give `{pending: 1, completed: 1,
      missed: 0}`; another user's tasks do not count. */
  lemma StatsExample()
    ensures var ts := [Task(1, 1, "a", Some("2999-01-01"), PENDING),
                       Task(2, 2, "b", None, MISSED),
                       Task(3, 1, "c", Some(""), COMPLETED)];
      StatsFor(ts, 1) == map[PENDING := 1, COMPLETED := 1, MISSED := 0]
  {
    var t0, t1, t2 := Task(1, 1, "a", Some("2999-01-01"), PENDING),
                      Task(2, 2, "b", None, MISSED),
                      Task(3, 1, "c", Some(""), COMPLETED);
    ExampleOwnRows(t0, t1, t2);
    var mine := [t0, t2];
    assert mine[1..] == [t2] && [t2][1..] == [];
    assert CountStatus(mine, PENDING) == 1;
    assert CountStatus(mine, COMPLETED) == 1;
    assert CountStatus(mine, MISSED) == 0;
    assert forall s :: HasStatus(mine, s) ==> KnownStatus(s);
  }
}
