/**
 * DatabaseManager: the single connection to the H2 database, as an object whose fields are
 * the seven tables, their AUTO_INCREMENT counters and the clock that stands for
 * CURRENT_TIMESTAMP. Every method states its result and the new tables in terms of the
 * functions of `Queries`, and keeps `Valid()`: ids increase along each table, usernames
 * and resume owners are unique, timestamps increase in insertion order, and each user has
 * at most one active session.
 */
module Database {
  import opened Schema
  import opened Tables
  import opened JavaText
  import opened Queries

  /** The five columns of a job row that callers supply, as in `SampleJobs`. */
  function JobColumns(j: Job): (string, string, string, string, string) {
    (j.title, j.company, j.location, j.salary, j.description)
  }

  /** `LOWER(username) != 'admin'` as a row predicate. */
  predicate NotAdminRow(x: User) {
    !IsAdminName(x.username)
  }

  /** The six tables a user's rows live in, as one value. */
  datatype Snapshot = Snapshot(users: seq<User>, sessions: seq<UserSession>, applications: seq<Application>,
                               notifications: seq<Notification>, resumes: seq<Resume>, contacts: seq<ContactMessage>)

  /** Every row owned by a name in `names` deleted from each of the six tables. */
  function PurgeAll(t: Snapshot, names: set<string>): Snapshot {
    Snapshot(Without(t.users, UserName, names), Without(t.sessions, SessionOwner, names),
             Without(t.applications, ApplicationOwner, names), Without(t.notifications, NotificationOwner, names),
             Without(t.resumes, ResumeOwner, names), Without(t.contacts, ContactOwner, names))
  }

  lemma PurgeAllNothing(t: Snapshot)
    ensures PurgeAll(t, {}) == t
  {
    WithoutNothing(t.users, UserName);
    WithoutNothing(t.sessions, SessionOwner);
    WithoutNothing(t.applications, ApplicationOwner);
    WithoutNothing(t.notifications, NotificationOwner);
    WithoutNothing(t.resumes, ResumeOwner);
    WithoutNothing(t.contacts, ContactOwner);
  }

  /** Deleting one more name is one delete of the enlarged set. */
  lemma PurgeAllUnion(t: Snapshot, names: set<string>, name: string)
    ensures PurgeAll(PurgeAll(t, names), {name}) == PurgeAll(t, names + {name})
  {
    WithoutUnion(t.users, UserName, names, {name});
    WithoutUnion(t.sessions, SessionOwner, names, {name});
    WithoutUnion(t.applications, ApplicationOwner, names, {name});
    WithoutUnion(t.notifications, NotificationOwner, names, {name});
    WithoutUnion(t.resumes, ResumeOwner, names, {name});
    WithoutUnion(t.contacts, ContactOwner, names, {name});
  }

  /** Deleting the rows of some users keeps every table's ids, timestamps and unique columns in order. */
  lemma PurgeAllOk(t: Snapshot, names: set<string>, nu: int, ns: int, na: int, nn: int, nr: int, nc: int, clock: int)
    requires UsersOk(t.users, nu) && SessionsOk(t.sessions, ns, clock) && ApplicationsOk(t.applications, na, clock)
    requires NotificationsOk(t.notifications, nn, clock) && ResumesOk(t.resumes, nr) && ContactsOk(t.contacts, nc, clock)
    ensures var r := PurgeAll(t, names);
      UsersOk(r.users, nu) && SessionsOk(r.sessions, ns, clock) && ApplicationsOk(r.applications, na, clock) &&
      NotificationsOk(r.notifications, nn, clock) && ResumesOk(r.resumes, nr) && ContactsOk(r.contacts, nc, clock)
  {
    WithoutKeeps(t.users, UserName, names, UserId, 1, nu);
    WithoutUnique(t.users, UserName, names, UserName);
    WithoutKeeps(t.sessions, SessionOwner, names, SessionId, 1, ns);
    WithoutKeeps(t.sessions, SessionOwner, names, SessionLogin, 0, clock);
    WithoutKeepsOneActive(t.sessions, names);
    WithoutKeeps(t.applications, ApplicationOwner, names, ApplicationId, 1, na);
    WithoutKeeps(t.applications, ApplicationOwner, names, ApplicationStamp, 0, clock);
    WithoutKeeps(t.notifications, NotificationOwner, names, NotificationId, 1, nn);
    WithoutKeeps(t.notifications, NotificationOwner, names, NotificationStamp, 0, clock);
    WithoutKeeps(t.resumes, ResumeOwner, names, ResumeId, 1, nr);
    WithoutUnique(t.resumes, ResumeOwner, names, ResumeOwner);
    WithoutKeeps(t.contacts, ContactOwner, names, ContactId, 1, nc);
    WithoutKeeps(t.contacts, ContactOwner, names, ContactStamp, 0, clock);
  }

  /**
   * The loop of deleteAllUsersExceptAdmin over the selected usernames, on the six tables of
   * a user: each target whose deletion does not fail loses its rows and is counted.
   */
  method PurgeTargets(base: Snapshot, targets: seq<User>, failing: set<string>) returns (t: Snapshot, count: int)
    requires Unique(targets, UserName)
    ensures t == PurgeAll(base, Chosen(targets, |targets|, failing))
    ensures count == |Chosen(targets, |targets|, failing)|
  {
    t := base;
    PurgeAllNothing(base);
    count := 0;
    var i := 0;
    while i < |targets|
      invariant 0 <= i <= |targets|
      invariant count == ChosenCount(targets, i, failing)
      invariant t == PurgeAll(base, Chosen(targets, i, failing))
    {
      t, count := PurgeNext(base, targets, i, failing, t, count);
      i := i + 1;
    }
    ChosenCounted(targets, |targets|, failing);
  }

  /** An AUTO_INCREMENT counter: the id the next inserted row receives. */
  type Serial = n: int | 1 <= n witness 1

  /** Ids increase along the users table and lie below the counter; usernames are unique. */
  ghost predicate UsersOk(users: seq<User>, next: int) {
    Ascending(users, UserId) && Bounded(users, UserId, 1, next) && Unique(users, UserName)
  }

  /** Ids and login times increase along user_sessions; each user has at most one active session. */
  ghost predicate SessionsOk(sessions: seq<UserSession>, next: int, clock: int) {
    Ascending(sessions, SessionId) && Bounded(sessions, SessionId, 1, next) &&
    Ascending(sessions, SessionLogin) && Bounded(sessions, SessionLogin, 0, clock) && OneActivePerUser(sessions)
  }

  ghost predicate JobsOk(jobs: seq<Job>, next: int) {
    Ascending(jobs, JobId) && Bounded(jobs, JobId, 1, next)
  }

  ghost predicate ApplicationsOk(applications: seq<Application>, next: int, clock: int) {
    Ascending(applications, ApplicationId) && Bounded(applications, ApplicationId, 1, next) &&
    Ascending(applications, ApplicationStamp) && Bounded(applications, ApplicationStamp, 0, clock)
  }

  ghost predicate NotificationsOk(notifications: seq<Notification>, next: int, clock: int) {
    Ascending(notifications, NotificationId) && Bounded(notifications, NotificationId, 1, next) &&
    Ascending(notifications, NotificationStamp) && Bounded(notifications, NotificationStamp, 0, clock)
  }

  /** Ids increase along the resumes table; each user has at most one resume. */
  ghost predicate ResumesOk(resumes: seq<Resume>, next: int) {
    Ascending(resumes, ResumeId) && Bounded(resumes, ResumeId, 1, next) && Unique(resumes, ResumeOwner)
  }

  ghost predicate ContactsOk(contacts: seq<ContactMessage>, next: int, clock: int) {
    Ascending(contacts, ContactId) && Bounded(contacts, ContactId, 1, next) &&
    Ascending(contacts, ContactStamp) && Bounded(contacts, ContactStamp, 0, clock)
  }

  class Store {
    var users: seq<User>
    var sessions: seq<UserSession>
    var jobs: seq<Job>
    var applications: seq<Application>
    var notifications: seq<Notification>
    var resumes: seq<Resume>
    var contacts: seq<ContactMessage>

    var nextUserId: Serial
    var nextSessionId: Serial
    var nextJobId: Serial
    var nextApplicationId: Serial
    var nextNotificationId: Serial
    var nextResumeId: Serial
    var nextContactId: Serial

    /** CURRENT_TIMESTAMP: advanced by every statement that stamps a row. */
    var clock: nat

    /** The six tables that hold rows of a user. */
    ghost function Snap(): Snapshot
      reads this`users, this`sessions, this`applications, this`notifications, this`resumes, this`contacts
    {
      Snapshot(users, sessions, applications, notifications, resumes, contacts)
    }

    ghost predicate Valid()
      reads this
    {
      UsersOk(users, nextUserId) && SessionsOk(sessions, nextSessionId, clock) && JobsOk(jobs, nextJobId) &&
      ApplicationsOk(applications, nextApplicationId, clock) &&
      NotificationsOk(notifications, nextNotificationId, clock) && ResumesOk(resumes, nextResumeId) &&
      ContactsOk(contacts, nextContactId, clock)
    }

    /**
     * `new DatabaseManager()` on an empty database: createTables, whose MERGE inserts the
     * admin account as the first user row.
     */
    constructor()
      ensures Valid()
      ensures users == [User(1, AdminName, SeedPassword, None, AdminRole)]
      ensures sessions == [] && jobs == [] && applications == [] && notifications == [] &&
              resumes == [] && contacts == []
    {
      SeedEmpty();
      users := MergeSeedAdmin([], 1);
      sessions, jobs, applications, notifications, resumes, contacts := [], [], [], [], [], [];
      nextUserId, nextSessionId, nextJobId, nextApplicationId := 2, 1, 1, 1;
      nextNotificationId, nextResumeId, nextContactId := 1, 1, 1;
      clock := 0;
    }

    /** The admin MERGE of createTables. */
    method SeedAdmin()
      requires Valid()
      modifies this`users, this`nextUserId
      ensures Valid()
      ensures users == MergeSeedAdmin(old(users), old(nextUserId))
      ensures exists x :: x in users && x.username == AdminName && x.password == SeedPassword && x.role == AdminRole
    {
      SeedAdminPresent(users, nextUserId);
      if HasUser(users, AdminName) {
        var r := ResetAdmin(users);
        SameKeys(users, r, UserId, 1, nextUserId);
        users := r;
      } else {
        var seed := User(nextUserId, AdminName, SeedPassword, None, AdminRole);
        AppendAscending(users, seed, UserId, 1, nextUserId);
        users := users + [seed];
        nextUserId := nextUserId + 1;
      }
    }

    // ---------------- users ----------------

    /** userExists */
    method UserExists(u: string) returns (b: bool)
      ensures b <==> exists x :: x in users && x.username == u
    {
      b := exists x :: x in users && x.username == u;
    }

    /** addUser: the INSERT fails on the UNIQUE username column when the name is taken. */
    method AddUser(u: string, p: string, email: Option<string>, role: string) returns (r: Outcome<bool>)
      requires Valid()
      modifies this`users, this`nextUserId
      ensures Valid()
      ensures HasUser(old(users), u) ==>
                r == Err(UsernameTaken) && users == old(users) && nextUserId == old(nextUserId)
      ensures !HasUser(old(users), u) ==>
                r == Ok(true) && users == old(users) + [User(old(nextUserId), u, p, email, role)] &&
                nextUserId == old(nextUserId) + 1
    {
      if HasUser(users, u) {
        return Err(UsernameTaken);
      }
      var x := User(nextUserId, u, p, email, role);
      AppendAscending(users, x, UserId, 1, nextUserId);
      forall i, j | 0 <= i < j < |users + [x]| ensures UserName((users + [x])[i]) != UserName((users + [x])[j]) {
        if j == |users| { assert (users + [x])[i] in users; }
      }
      users := users + [x];
      nextUserId := nextUserId + 1;
      r := Ok(true);
    }

    /** `DELETE FROM user_sessions WHERE username = ?` */
    method DeleteSessionsOf(u: string)
      requires Valid()
      modifies this`sessions
      ensures Valid()
      ensures sessions == Without(old(sessions), SessionOwner, {u})
    {
      WithoutKeeps(sessions, SessionOwner, {u}, SessionId, 1, nextSessionId);
      WithoutKeeps(sessions, SessionOwner, {u}, SessionLogin, 0, clock);
      WithoutKeepsOneActive(sessions, {u});
      sessions := Without(sessions, SessionOwner, {u});
    }

    /** `DELETE FROM applications WHERE username = ?` */
    method DeleteApplicationsOf(u: string)
      requires Valid()
      modifies this`applications
      ensures Valid()
      ensures applications == Without(old(applications), ApplicationOwner, {u})
    {
      WithoutKeeps(applications, ApplicationOwner, {u}, ApplicationId, 1, nextApplicationId);
      WithoutKeeps(applications, ApplicationOwner, {u}, ApplicationStamp, 0, clock);
      applications := Without(applications, ApplicationOwner, {u});
    }

    /** `DELETE FROM notifications WHERE username = ?` */
    method DeleteNotificationsOf(u: string)
      requires Valid()
      modifies this`notifications
      ensures Valid()
      ensures notifications == Without(old(notifications), NotificationOwner, {u})
    {
      WithoutKeeps(notifications, NotificationOwner, {u}, NotificationId, 1, nextNotificationId);
      WithoutKeeps(notifications, NotificationOwner, {u}, NotificationStamp, 0, clock);
      notifications := Without(notifications, NotificationOwner, {u});
    }

    /** `DELETE FROM resumes WHERE username = ?` */
    method DeleteResumesOf(u: string)
      requires Valid()
      modifies this`resumes
      ensures Valid()
      ensures resumes == Without(old(resumes), ResumeOwner, {u})
    {
      WithoutKeeps(resumes, ResumeOwner, {u}, ResumeId, 1, nextResumeId);
      WithoutUnique(resumes, ResumeOwner, {u}, ResumeOwner);
      resumes := Without(resumes, ResumeOwner, {u});
    }

    /** `DELETE FROM contact_messages WHERE username = ?` */
    method DeleteContactsOf(u: string)
      requires Valid()
      modifies this`contacts
      ensures Valid()
      ensures contacts == Without(old(contacts), ContactOwner, {u})
    {
      WithoutKeeps(contacts, ContactOwner, {u}, ContactId, 1, nextContactId);
      WithoutKeeps(contacts, ContactOwner, {u}, ContactStamp, 0, clock);
      contacts := Without(contacts, ContactOwner, {u});
    }

    /** The five DELETE ... WHERE username = ? statements deleteUser and the bulk delete run before the user row. */
    method PurgeDependents(u: string)
      requires Valid()
      modifies this`sessions, this`applications, this`notifications, this`resumes, this`contacts
      ensures Valid()
      ensures sessions == Without(old(sessions), SessionOwner, {u})
      ensures applications == Without(old(applications), ApplicationOwner, {u})
      ensures notifications == Without(old(notifications), NotificationOwner, {u})
      ensures resumes == Without(old(resumes), ResumeOwner, {u})
      ensures contacts == Without(old(contacts), ContactOwner, {u})
    {
      DeleteSessionsOf(u);
      DeleteApplicationsOf(u);
      DeleteNotificationsOf(u);
      DeleteResumesOf(u);
      DeleteContactsOf(u);
    }

    /**
     * deleteUser(userId, username): refused for "admin" in any letter case; otherwise the
     * username's sessions, applications, notifications, resume and messages are deleted, then
     * the user row BY ID. When the pair is consistent, no "admin" account is ever removed.
     */
    method DeleteUser(id: int, u: string) returns (r: Outcome<bool>)
      requires Valid()
      modifies this`users, this`sessions, this`applications, this`notifications, this`resumes, this`contacts
      ensures Valid()
      ensures EqualsIgnoreCase(AdminName, u) ==>
                r == Err(CannotDeleteAdmin) && users == old(users) && sessions == old(sessions) &&
                applications == old(applications) && notifications == old(notifications) &&
                resumes == old(resumes) && contacts == old(contacts)
      ensures !EqualsIgnoreCase(AdminName, u) ==>
                r == Ok(exists x :: x in old(users) && x.id == id) &&
                users == WithoutUserId(old(users), id) &&
                sessions == Without(old(sessions), SessionOwner, {u}) &&
                applications == Without(old(applications), ApplicationOwner, {u}) &&
                notifications == Without(old(notifications), NotificationOwner, {u}) &&
                resumes == Without(old(resumes), ResumeOwner, {u}) &&
                contacts == Without(old(contacts), ContactOwner, {u})
      ensures (forall x :: x in old(users) && x.id == id ==> x.username == u) ==>
                forall x :: x in old(users) && IsAdminName(x.username) ==> x in users
    {
      if EqualsIgnoreCase(AdminName, u) {
        return Err(CannotDeleteAdmin);
      }
      PurgeDependents(u);
      var existed := DeleteUserRow(id);
      AdminSurvivesDelete(old(users), id, u);
      r := Ok(existed);
    }

    /** `DELETE FROM users WHERE id = ?`: true iff a row with the id existed. */
    method DeleteUserRow(id: int) returns (existed: bool)
      requires Valid()
      modifies this`users
      ensures Valid()
      ensures users == WithoutUserId(old(users), id)
      ensures existed <==> exists x :: x in old(users) && x.id == id
    {
      existed := exists x :: x in users && x.id == id;
      FilterKeeps(users, (x: User) => x.id != id, UserId, 1, nextUserId);
      FilterUnique(users, (x: User) => x.id != id, UserName);
      users := WithoutUserId(users, id);
    }

    /**
     * deleteAllUsersExceptAdmin: for each username not "admin" ignoring case, in table order,
     * delete its rows and the user; a user whose first DELETE fails (`failing`) is skipped and
     * keeps all its rows. Returns the number of users deleted. The six tables are carried
     * through the loop as one `Snapshot` value and stored when it ends.
     */
    method DeleteAllUsersExceptAdmin(failing: set<string>) returns (count: int)
      requires Valid()
      modifies this`users, this`sessions, this`applications, this`notifications, this`resumes, this`contacts
      ensures Valid()
      ensures count == |Doomed(old(users), failing)|
      ensures users == Without(old(users), UserName, Doomed(old(users), failing))
      ensures sessions == Without(old(sessions), SessionOwner, Doomed(old(users), failing))
      ensures applications == Without(old(applications), ApplicationOwner, Doomed(old(users), failing))
      ensures notifications == Without(old(notifications), NotificationOwner, Doomed(old(users), failing))
      ensures resumes == Without(old(resumes), ResumeOwner, Doomed(old(users), failing))
      ensures contacts == Without(old(contacts), ContactOwner, Doomed(old(users), failing))
      ensures forall x :: x in users ==> IsAdminName(x.username) || x.username in failing
    {
      var targets := Filter(users, NotAdminRow);
      FilterUnique(users, NotAdminRow, UserName);
      var t;
      t, count := PurgeTargets(Snapshot(users, sessions, applications, notifications, resumes, contacts), targets, failing);
      ChosenAll(old(users), failing);
      PurgeAllOk(old(Snap()), Doomed(old(users), failing), nextUserId, nextSessionId, nextApplicationId,
                 nextNotificationId, nextResumeId, nextContactId, clock);
      StoreTables(t);
      BulkDeleteOutcome(old(users), failing);
    }

    /** Writes the six tables of a user back, keeping `Valid()`. */
    method StoreTables(t: Snapshot)
      requires JobsOk(jobs, nextJobId)
      requires UsersOk(t.users, nextUserId) && SessionsOk(t.sessions, nextSessionId, clock) &&
               ApplicationsOk(t.applications, nextApplicationId, clock) &&
               NotificationsOk(t.notifications, nextNotificationId, clock) &&
               ResumesOk(t.resumes, nextResumeId) && ContactsOk(t.contacts, nextContactId, clock)
      modifies this`users, this`sessions, this`applications, this`notifications, this`resumes, this`contacts
      ensures Valid() && Snap() == t
    {
      users, sessions, applications, notifications, resumes, contacts :=
        t.users, t.sessions, t.applications, t.notifications, t.resumes, t.contacts;
    }

    // ---------------- sessions ----------------

    /** recordLogin: close the user's active sessions and open a new one. */
    method RecordLogin(u: string)
      requires Valid()
      modifies this`sessions, this`nextSessionId, this`clock
      ensures Valid()
      ensures sessions == StartSession(old(sessions), u, old(nextSessionId), old(clock))
      ensures ActiveOf(sessions, u) == [UserSession(old(nextSessionId), u, old(clock), None, true)]
      ensures forall v :: v != u ==> SessionsOf(sessions, v) == SessionsOf(old(sessions), v)
      ensures nextSessionId == old(nextSessionId) + 1 && clock == old(clock) + 1
    {
      var d := Deactivate(sessions, u);
      var x := UserSession(nextSessionId, u, clock, None, true);
      SameKeys(sessions, d, SessionId, 1, nextSessionId);
      SameKeys(sessions, d, SessionLogin, 0, clock);
      AppendAscending(d, x, SessionId, 1, nextSessionId);
      AppendAscending(d, x, SessionLogin, 0, clock);
      LoginLeavesOneActive(sessions, u, nextSessionId, clock);
      LoginKeepsOneActive(sessions, u, nextSessionId, clock);
      sessions := d + [x];
      nextSessionId := nextSessionId + 1;
      clock := clock + 1;
    }

    /** recordLogout: close the user's active sessions, stamping the logout time. */
    method RecordLogout(u: string)
      requires Valid()
      modifies this`sessions, this`clock
      ensures Valid()
      ensures sessions == CloseSessions(old(sessions), u, old(clock))
      ensures ActiveOf(sessions, u) == []
      ensures forall v :: v != u ==> SessionsOf(sessions, v) == SessionsOf(old(sessions), v)
      ensures clock == old(clock) + 1
    {
      var r := CloseSessions(sessions, u, clock);
      SameKeys(sessions, r, SessionId, 1, nextSessionId);
      SameKeys(sessions, r, SessionLogin, 0, clock + 1);
      LogoutLeavesNoneActive(sessions, u, clock);
      sessions := r;
      clock := clock + 1;
    }

    /** validateLogin: the role of the first row matching both columns, and a new session when there is one. */
    method ValidateLogin(u: string, p: string) returns (role: Option<string>)
      requires Valid()
      modifies this`sessions, this`nextSessionId, this`clock
      ensures Valid()
      ensures role == MatchingRole(users, u, p)
      ensures role.Some? ==> sessions == StartSession(old(sessions), u, old(nextSessionId), old(clock)) &&
                             nextSessionId == old(nextSessionId) + 1 && clock == old(clock) + 1
      ensures role.None? ==> sessions == old(sessions) && nextSessionId == old(nextSessionId) && clock == old(clock)
      ensures forall x :: x in users && x.username == u && x.password == p ==> role == Some(x.role)
    {
      role := MatchingRole(users, u, p);
      if role.Some? {
        RecordLogin(u);
      }
      forall x | x in users && x.username == u && x.password == p ensures role == Some(x.role) {
        MatchingRoleOfUser(users, x);
      }
    }

    /** getActiveUserCount: the number of distinct usernames with an active session. */
    method GetActiveUserCount() returns (n: int)
      requires Valid()
      ensures n == ActiveUserCount(sessions)
      ensures n == |ActiveRows(sessions)|
    {
      ActiveCountIsActiveRows(sessions);
      n := |ActiveNames(sessions)|;
    }

    /** getAllUsersWithSessions */
    method GetAllUsersWithSessions() returns (r: seq<UserSummary>)
      ensures r == AllUsersWithSessions(users, sessions)
      ensures |r| == |users| && SortedByName(r)
      ensures forall x :: x in users ==> Summarize(x, sessions) in r
    {
      UserListingComplete(users, sessions);
      r := AllUsersWithSessions(users, sessions);
    }

    // ---------------- jobs ----------------

    /** addJob: returns the generated id, which no existing job has. */
    method AddJob(title: string, company: string, location: string, salary: string, description: string)
      returns (id: int)
      requires Valid()
      modifies this`jobs, this`nextJobId, this`clock
      ensures Valid()
      ensures id == old(nextJobId) && forall j :: j in old(jobs) ==> j.id != id
      ensures jobs == old(jobs) + [Job(id, title, company, location, salary, description, old(clock))]
      ensures nextJobId == old(nextJobId) + 1 && clock == old(clock) + 1
    {
      id := nextJobId;
      var j := Job(id, title, company, location, salary, description, clock);
      AppendAscending(jobs, j, JobId, 1, nextJobId);
      jobs := jobs + [j];
      nextJobId := nextJobId + 1;
      clock := clock + 1;
    }

    /** addSampleJobs: the five sample rows, inserted one after another, only into an empty table. */
    method AddSampleJobs()
      requires Valid()
      modifies this`jobs, this`nextJobId, this`clock
      ensures Valid()
      ensures old(jobs) != [] ==> jobs == old(jobs)
      ensures old(jobs) == [] ==> |jobs| == |SampleJobs| && forall k :: 0 <= k < |jobs| ==> JobColumns(jobs[k]) == SampleJobs[k]
    {
      if jobs != [] {
        return;
      }
      var i := 0;
      while i < |SampleJobs|
        invariant 0 <= i <= |SampleJobs|
        invariant Valid()
        invariant |jobs| == i
        invariant forall k :: 0 <= k < i ==> JobColumns(jobs[k]) == SampleJobs[k]
      {
        var (title, company, location, salary, description) := SampleJobs[i];
        var _ := AddJob(title, company, location, salary, description);
        i := i + 1;
      }
    }

    /** getAllJobs: newest id first. */
    method GetAllJobs() returns (r: seq<Job>)
      requires Valid()
      ensures r == AllJobs(jobs)
      ensures Descending(r, JobId)
      ensures forall j :: j in r <==> j in jobs
    {
      ReverseDescending(jobs, JobId);
      r := AllJobs(jobs);
      forall j ensures j in r <==> j in jobs {
        if j in r { var k :| 0 <= k < |r| && r[k] == j; }
        if j in jobs { var k :| 0 <= k < |jobs| && jobs[k] == j; assert r[|jobs| - 1 - k] == j; }
      }
    }

    /** updateJob: true iff a row with the id existed. */
    method UpdateJob(id: int, title: string, company: string, location: string, salary: string, description: string)
      returns (b: bool)
      requires Valid()
      modifies this`jobs
      ensures Valid()
      ensures jobs == UpdateJobRow(old(jobs), id, title, company, location, salary, description)
      ensures b <==> exists j :: j in old(jobs) && j.id == id
    {
      b := exists j :: j in jobs && j.id == id;
      var r := UpdateJobRow(jobs, id, title, company, location, salary, description);
      SameKeys(jobs, r, JobId, 1, nextJobId);
      jobs := r;
    }

    /** deleteJob: true iff a row with the id existed. */
    method DeleteJob(id: int) returns (b: bool)
      requires Valid()
      modifies this`jobs
      ensures Valid()
      ensures jobs == WithoutJob(old(jobs), id)
      ensures b <==> exists j :: j in old(jobs) && j.id == id
      ensures forall j :: j in jobs ==> j.id != id
    {
      b := exists j :: j in jobs && j.id == id;
      FilterKeeps(jobs, (j: Job) => j.id != id, JobId, 1, nextJobId);
      jobs := WithoutJob(jobs, id);
    }

    // ---------------- applications ----------------

    /** addNotification */
    method AddNotification(u: string, jobTitle: string, message: string, status: string) returns (b: bool)
      requires Valid()
      modifies this`notifications, this`nextNotificationId, this`clock
      ensures Valid() && b
      ensures notifications == old(notifications) + [Notification(old(nextNotificationId), u, jobTitle, message, status, false, old(clock))]
      ensures nextNotificationId == old(nextNotificationId) + 1 && clock == old(clock) + 1
    {
      var n := Notification(nextNotificationId, u, jobTitle, message, status, false, clock);
      AppendAscending(notifications, n, NotificationId, 1, nextNotificationId);
      AppendAscending(notifications, n, NotificationStamp, 0, clock);
      notifications := notifications + [n];
      nextNotificationId := nextNotificationId + 1;
      clock := clock + 1;
      b := true;
    }

    /** The INSERT of addApplication, with the generated id and CURRENT_TIMESTAMP already in `a`. */
    method InsertApplication(a: Application)
      requires Valid() && a.id == nextApplicationId && a.appliedAt == clock
      modifies this`applications, this`nextApplicationId, this`clock
      ensures Valid()
      ensures applications == old(applications) + [a]
      ensures nextApplicationId == old(nextApplicationId) + 1 && clock == old(clock) + 1
    {
      AppendAscending(applications, a, ApplicationId, 1, nextApplicationId);
      AppendAscending(applications, a, ApplicationStamp, 0, clock);
      applications := applications + [a];
      nextApplicationId := nextApplicationId + 1;
      clock := clock + 1;
    }

    /**
     * addApplication: insert a "Pending" application, then notify "admin". A failure of the
     * INSERT changes nothing; a failure of the notification leaves the application stored.
     */
    method AddApplication(u: string, jobTitle: string, company: string, name: string, email: string,
                          phone: string, coverLetter: string, fault: Fault) returns (r: Outcome<bool>)
      requires Valid()
      modifies this`applications, this`nextApplicationId, this`notifications, this`nextNotificationId, this`clock
      ensures Valid()
      ensures fault == InsertFails ==>
                r == Err(StoreFailure) && applications == old(applications) && notifications == old(notifications)
      ensures fault != InsertFails ==>
                applications == old(applications) +
                  [Application(old(nextApplicationId), u, jobTitle, company, name, email, phone, coverLetter, StatusPending, old(clock))]
      ensures fault == NotifyFails ==> r == Err(StoreFailure) && notifications == old(notifications)
      ensures fault == NoFault ==>
                r == Ok(true) &&
                notifications == old(notifications) +
                  [Notification(old(nextNotificationId), AdminName, jobTitle, NewApplicationNotice(name, u, jobTitle),
                                StatusPending, false, old(clock) + 1)]
    {
      if fault == InsertFails {
        return Err(StoreFailure);
      }
      InsertApplication(Application(nextApplicationId, u, jobTitle, company, name, email, phone, coverLetter, StatusPending, clock));
      if fault == NotifyFails {
        return Err(StoreFailure);
      }
      var _ := AddNotification(AdminName, jobTitle, NewApplicationNotice(name, u, jobTitle), StatusPending);
      r := Ok(true);
    }

    /** updateApplicationStatus: true iff a row with the id existed. */
    method UpdateApplicationStatus(id: int, status: string) returns (b: bool)
      requires Valid()
      modifies this`applications
      ensures Valid()
      ensures applications == SetApplicationStatus(old(applications), id, status)
      ensures b <==> exists a :: a in old(applications) && a.id == id
    {
      b := exists a :: a in applications && a.id == id;
      var r := SetApplicationStatus(applications, id, status);
      SameKeys(applications, r, ApplicationId, 1, nextApplicationId);
      SameKeys(applications, r, ApplicationStamp, 0, clock);
      applications := r;
    }

    /** getPendingApplicationCount */
    method GetPendingApplicationCount() returns (n: int)
      requires Valid()
      ensures n == PendingApplicationCount(applications)
      ensures n == |set a | a in applications && a.status == StatusPending|
    {
      FilterCount(applications, (a: Application) => a.status == StatusPending, ApplicationId,
                  set a | a in applications && a.status == StatusPending);
      n := PendingApplicationCount(applications);
    }

    /** getAllApplications: newest first. */
    method GetAllApplications() returns (r: seq<Application>)
      requires Valid()
      ensures r == AllApplications(applications)
      ensures Descending(r, ApplicationStamp)
    {
      ReverseDescending(applications, ApplicationStamp);
      r := AllApplications(applications);
    }

    /** getUserApplications: the user's applications, newest first. */
    method GetUserApplications(u: string) returns (r: seq<UserApplicationRow>)
      requires Valid()
      ensures r == UserApplications(applications, u)
      ensures |r| == |ApplicationsOf(applications, u)|
      ensures forall i, j :: 0 <= i < j < |r| ==> r[i].appliedAt > r[j].appliedAt
    {
      UserApplicationsNewestFirst(applications, u);
      r := UserApplications(applications, u);
    }

    // ---------------- notifications ----------------

    /** getUnreadNotificationCount */
    method GetUnreadNotificationCount(u: string) returns (n: int)
      ensures n == UnreadNotificationCount(notifications, u)
      ensures n == |UnreadNotifications(notifications, u)|
    {
      n := UnreadNotificationCount(notifications, u);
    }

    /** getUnreadNotifications: newest first. */
    method GetUnreadNotifications(u: string) returns (r: seq<Notification>)
      requires Valid()
      ensures r == UnreadNotifications(notifications, u)
      ensures Descending(r, NotificationStamp)
      ensures forall n :: n in r <==> n in notifications && n.username == u && !n.isRead
    {
      NotificationListings(notifications, u);
      r := UnreadNotifications(notifications, u);
    }

    /** getAllNotifications: newest first. */
    method GetAllNotifications(u: string) returns (r: seq<Notification>)
      requires Valid()
      ensures r == AllNotifications(notifications, u)
      ensures Descending(r, NotificationStamp)
    {
      NotificationListings(notifications, u);
      r := AllNotifications(notifications, u);
    }

    /** markNotificationAsRead: true iff a row with the id existed. */
    method MarkNotificationAsRead(id: int) returns (b: bool)
      requires Valid()
      modifies this`notifications
      ensures Valid()
      ensures notifications == MarkRead(old(notifications), id)
      ensures b <==> exists n :: n in old(notifications) && n.id == id
    {
      b := exists n :: n in notifications && n.id == id;
      var r := MarkRead(notifications, id);
      SameKeys(notifications, r, NotificationId, 1, nextNotificationId);
      SameKeys(notifications, r, NotificationStamp, 0, clock);
      notifications := r;
    }

    /** markAllNotificationsAsRead: true iff the user had any notification. */
    method MarkAllNotificationsAsRead(u: string) returns (b: bool)
      requires Valid()
      modifies this`notifications
      ensures Valid()
      ensures notifications == MarkAllRead(old(notifications), u)
      ensures b <==> exists n :: n in old(notifications) && n.username == u
      ensures UnreadNotificationCount(notifications, u) == 0
    {
      b := exists n :: n in notifications && n.username == u;
      var r := MarkAllRead(notifications, u);
      SameKeys(notifications, r, NotificationId, 1, nextNotificationId);
      SameKeys(notifications, r, NotificationStamp, 0, clock);
      MarkAllReadEffect(notifications, u);
      notifications := r;
    }

    // ---------------- resumes ----------------

    /** saveOrUpdateResume: afterwards getResume(u) returns exactly the saved fields. */
    method SaveOrUpdateResume(u: string, f: ResumeFields) returns (b: bool)
      requires Valid()
      modifies this`resumes, this`nextResumeId, this`clock
      ensures Valid() && b
      ensures resumes == UpsertResume(old(resumes), u, f, old(nextResumeId), old(clock))
      ensures FindResume(resumes, u) == Some(f)
      ensures forall v :: v != u ==> FindResume(resumes, v) == FindResume(old(resumes), v)
    {
      UpsertThenFind(resumes, u, f, nextResumeId, clock);
      if FindResume(resumes, u).Some? {
        UpdateResumeRows(u, f);
      } else {
        InsertResume(u, f);
      }
      b := true;
    }

    /** The UPDATE branch of saveOrUpdateResume. */
    method UpdateResumeRows(u: string, f: ResumeFields)
      requires Valid()
      modifies this`resumes, this`clock
      ensures Valid()
      ensures resumes == RewriteResumes(old(resumes), u, f, old(clock)) && clock == old(clock) + 1
    {
      var r := RewriteResumes(resumes, u, f, clock);
      SameKeys(resumes, r, ResumeId, 1, nextResumeId);
      resumes := r;
      clock := clock + 1;
    }

    /** The INSERT branch of saveOrUpdateResume; its caller has checked that `u` has no resume. */
    method InsertResume(u: string, f: ResumeFields)
      requires Valid() && FindResume(resumes, u).None?
      modifies this`resumes, this`nextResumeId, this`clock
      ensures Valid()
      ensures resumes == old(resumes) + [Resume(old(nextResumeId), u, f, old(clock))] && clock == old(clock) + 1
    {
      var x := Resume(nextResumeId, u, f, clock);
      AppendAscending(resumes, x, ResumeId, 1, nextResumeId);
      forall i, j | 0 <= i < j < |resumes + [x]| ensures ResumeOwner((resumes + [x])[i]) != ResumeOwner((resumes + [x])[j]) {
        if j == |resumes| { assert (resumes + [x])[i] in resumes; }
      }
      resumes := resumes + [x];
      nextResumeId := nextResumeId + 1;
      clock := clock + 1;
    }

    /** getResume */
    method GetResume(u: string) returns (r: Option<ResumeFields>)
      ensures r == FindResume(resumes, u)
      ensures r.Some? <==> exists x :: x in resumes && x.username == u
    {
      r := FindResume(resumes, u);
    }

    /** resumeExists: agrees with getResume returning a row. */
    method ResumeExists(u: string) returns (b: bool)
      ensures b <==> FindResume(resumes, u).Some?
    {
      b := exists x :: x in resumes && x.username == u;
    }

    // ---------------- contact messages ----------------

    /** The INSERT of addContactMessage, with the generated id and CURRENT_TIMESTAMP already in `c`. */
    method InsertContact(c: ContactMessage)
      requires Valid() && c.id == nextContactId && c.createdAt == clock
      modifies this`contacts, this`nextContactId, this`clock
      ensures Valid()
      ensures contacts == old(contacts) + [c]
      ensures nextContactId == old(nextContactId) + 1 && clock == old(clock) + 1
    {
      AppendAscending(contacts, c, ContactId, 1, nextContactId);
      AppendAscending(contacts, c, ContactStamp, 0, clock);
      contacts := contacts + [c];
      nextContactId := nextContactId + 1;
      clock := clock + 1;
    }

    /**
     * addContactMessage: insert a "New" unread message, then notify "admin". A failure of the
     * INSERT changes nothing; a failure of the notification leaves the message stored.
     */
    method AddContactMessage(u: string, subject: string, message: string, email: string, phone: string,
                             fault: Fault) returns (r: Outcome<bool>)
      requires Valid()
      modifies this`contacts, this`nextContactId, this`notifications, this`nextNotificationId, this`clock
      ensures Valid()
      ensures fault == InsertFails ==>
                r == Err(StoreFailure) && contacts == old(contacts) && notifications == old(notifications)
      ensures fault != InsertFails ==>
                contacts == old(contacts) +
                  [ContactMessage(old(nextContactId), u, subject, message, email, phone, StatusNew, false, None, old(clock))]
      ensures fault == NotifyFails ==> r == Err(StoreFailure) && notifications == old(notifications)
      ensures fault == NoFault ==>
                r == Ok(true) &&
                notifications == old(notifications) +
                  [Notification(old(nextNotificationId), AdminName, ContactSubject, NewContactNotice(u, subject),
                                StatusNew, false, old(clock) + 1)]
    {
      if fault == InsertFails {
        return Err(StoreFailure);
      }
      InsertContact(ContactMessage(nextContactId, u, subject, message, email, phone, StatusNew, false, None, clock));
      if fault == NotifyFails {
        return Err(StoreFailure);
      }
      var _ := AddNotification(AdminName, ContactSubject, NewContactNotice(u, subject), StatusNew);
      r := Ok(true);
    }

    /** getAllContactMessages: newest first. */
    method GetAllContactMessages() returns (r: seq<ContactMessage>)
      requires Valid()
      ensures r == AllContactMessages(contacts)
      ensures Descending(r, ContactStamp)
    {
      ContactListings(contacts, "");
      r := AllContactMessages(contacts);
    }

    /** getUserContactMessages: the user's messages, newest first. */
    method GetUserContactMessages(u: string) returns (r: seq<UserContactRow>)
      requires Valid()
      ensures r == UserContactMessages(contacts, u)
      ensures |r| == |ContactsOf(contacts, u)|
      ensures forall i, j :: 0 <= i < j < |r| ==> r[i].createdAt > r[j].createdAt
    {
      ContactListings(contacts, u);
      r := UserContactMessages(contacts, u);
    }

    /** getUnreadContactMessageCount */
    method GetUnreadContactMessageCount() returns (n: int)
      requires Valid()
      ensures n == UnreadContactCount(contacts)
      ensures n == |set c | c in contacts && !c.isRead|
    {
      FilterCount(contacts, (c: ContactMessage) => !c.isRead, ContactId, set c | c in contacts && !c.isRead);
      n := UnreadContactCount(contacts);
    }

    /** markContactMessageAsRead: true iff a row with the id existed. */
    method MarkContactMessageAsRead(id: int) returns (b: bool)
      requires Valid()
      modifies this`contacts
      ensures Valid()
      ensures contacts == MarkContactRead(old(contacts), id)
      ensures b <==> exists c :: c in old(contacts) && c.id == id
    {
      b := exists c :: c in contacts && c.id == id;
      var r := MarkContactRead(contacts, id);
      SameKeys(contacts, r, ContactId, 1, nextContactId);
      SameKeys(contacts, r, ContactStamp, 0, clock);
      contacts := r;
    }

    /** The UPDATE of updateContactMessageStatus: true iff a row with the id existed. */
    method RespondInPlace(id: int, status: string, response: Option<string>) returns (b: bool)
      requires Valid()
      modifies this`contacts
      ensures Valid()
      ensures contacts == RespondToContact(old(contacts), id, status, response)
      ensures b <==> exists c :: c in old(contacts) && c.id == id
    {
      b := exists c :: c in contacts && c.id == id;
      var r := RespondToContact(contacts, id, status, response);
      SameKeys(contacts, r, ContactId, 1, nextContactId);
      SameKeys(contacts, r, ContactStamp, 0, clock);
      contacts := r;
    }

    /**
     * updateContactMessageStatus: set status, response and read flag; when a row was updated and
     * the response is non-null and not blank, notify the message's author.
     */
    method UpdateContactMessageStatus(id: int, status: string, response: Option<string>) returns (b: bool)
      requires Valid()
      modifies this`contacts, this`notifications, this`nextNotificationId, this`clock
      ensures Valid()
      ensures contacts == RespondToContact(old(contacts), id, status, response)
      ensures b <==> exists c :: c in old(contacts) && c.id == id
      ensures b && IsRealResponse(response) ==>
                FindContact(contacts, id).Some? &&
                notifications == old(notifications) +
                  [Notification(old(nextNotificationId), FindContact(contacts, id).value.username, ContactSubject,
                                ResponseNotice(FindContact(contacts, id).value.subject), status, false, old(clock))]
      ensures !(b && IsRealResponse(response)) ==> notifications == old(notifications)
    {
      b := RespondInPlace(id, status, response);
      RespondKeepsAuthor(old(contacts), id, status, response);
      NotifyAuthor(id, status, b && IsRealResponse(response));
    }

    /** The notice to the author of message `id` after a real response, sent only when `notify`. */
    method NotifyAuthor(id: int, status: string, notify: bool)
      requires Valid() && (notify ==> FindContact(contacts, id).Some?)
      modifies this`notifications, this`nextNotificationId, this`clock
      ensures Valid()
      ensures notify ==>
                notifications == old(notifications) +
                  [Notification(old(nextNotificationId), FindContact(contacts, id).value.username, ContactSubject,
                                ResponseNotice(FindContact(contacts, id).value.subject), status, false, old(clock))]
      ensures !notify ==> notifications == old(notifications)
    {
      if notify {
        var found := FindContact(contacts, id).value;
        var _ := AddNotification(found.username, ContactSubject, ResponseNotice(found.subject), status);
      }
    }
  }

  /** The names among the first `i` bulk-delete targets whose deletion went through. */
  ghost function Chosen(targets: seq<User>, i: int, failing: set<string>): set<string>
    requires 0 <= i <= |targets|
    decreases i
  {
    if i == 0 then {}
    else Chosen(targets, i - 1, failing) + (if targets[i - 1].username !in failing then {targets[i - 1].username} else {})
  }

  lemma {:induction false} ChosenNames(targets: seq<User>, i: int, failing: set<string>)
    requires 0 <= i <= |targets|
    ensures forall n :: n in Chosen(targets, i, failing) <==>
              exists k :: 0 <= k < i && targets[k].username !in failing && targets[k].username == n
    decreases i
  {
    if i > 0 {
      ChosenNames(targets, i - 1, failing);
    }
  }

  /** How many of the first `i` targets are deleted: the loop's `deletedCount`. */
  function ChosenCount(targets: seq<User>, i: int, failing: set<string>): nat
    requires 0 <= i <= |targets|
    decreases i
  {
    if i == 0 then 0
    else ChosenCount(targets, i - 1, failing) + (if targets[i - 1].username !in failing then 1 else 0)
  }

  /** The body of the bulk delete's loop: the rows of target `i` go, unless its deletion fails. */
  method PurgeNext(base: Snapshot, targets: seq<User>, i: int, failing: set<string>, t: Snapshot, count: int)
      returns (t': Snapshot, count': int)
    requires 0 <= i < |targets| && Unique(targets, UserName)
    requires t == PurgeAll(base, Chosen(targets, i, failing)) && count == ChosenCount(targets, i, failing)
    ensures t' == PurgeAll(base, Chosen(targets, i + 1, failing)) && count' == ChosenCount(targets, i + 1, failing)
  {
    var name := targets[i].username;
    PurgeStep(base, targets, i, failing);
    if name !in failing {
      t', count' := PurgeAll(t, {name}), count + 1;
    } else {
      t', count' := t, count;
    }
  }

  /** One step of the bulk delete: a target that does not fail is purged on top of the earlier ones. */
  lemma PurgeStep(base: Snapshot, targets: seq<User>, i: int, failing: set<string>)
    requires 0 <= i < |targets| && Unique(targets, UserName)
    ensures targets[i].username !in failing ==>
              PurgeAll(PurgeAll(base, Chosen(targets, i, failing)), {targets[i].username}) ==
              PurgeAll(base, Chosen(targets, i + 1, failing))
    ensures targets[i].username in failing ==> Chosen(targets, i + 1, failing) == Chosen(targets, i, failing)
  {
    ChosenStep(targets, i, failing);
    if targets[i].username !in failing {
      PurgeAllUnion(base, Chosen(targets, i, failing), targets[i].username);
    }
  }

  /** One more target adds its name unless it fails; with unique names, that name is new. */
  lemma ChosenStep(targets: seq<User>, i: int, failing: set<string>)
    requires 0 <= i < |targets| && Unique(targets, UserName)
    ensures targets[i].username !in Chosen(targets, i, failing)
    ensures Chosen(targets, i + 1, failing) ==
            Chosen(targets, i, failing) + (if targets[i].username !in failing then {targets[i].username} else {})
  {
    ChosenNames(targets, i, failing);
    forall k | 0 <= k < i ensures targets[k].username != targets[i].username {
      assert UserName(targets[k]) != UserName(targets[i]);
    }
  }

  /** With unique names, the count of deleted targets is the number of names deleted. */
  lemma {:induction false} ChosenCounted(targets: seq<User>, i: int, failing: set<string>)
    requires 0 <= i <= |targets| && Unique(targets, UserName)
    ensures ChosenCount(targets, i, failing) == |Chosen(targets, i, failing)|
    decreases i
  {
    if i > 0 {
      ChosenCounted(targets, i - 1, failing);
      ChosenStep(targets, i - 1, failing);
    }
  }

  /** All targets done: the names deleted are exactly `Doomed`. */
  lemma ChosenAll(users: seq<User>, failing: set<string>)
    ensures Chosen(Filter(users, NotAdminRow), |Filter(users, NotAdminRow)|, failing) == Doomed(users, failing)
  {
    var targets := Filter(users, NotAdminRow);
    ChosenNames(targets, |targets|, failing);
    forall n ensures n in Chosen(targets, |targets|, failing) <==> n in Doomed(users, failing) {
      if n in Doomed(users, failing) {
        var x :| x in users && !IsAdminName(x.username) && x.username !in failing && x.username == n;
        assert x in targets;
        var k :| 0 <= k < |targets| && targets[k] == x;
      }
      if n in Chosen(targets, |targets|, failing) {
        var k :| 0 <= k < |targets| && targets[k].username !in failing && targets[k].username == n;
        assert targets[k] in targets;
      }
    }
  }

  /** The SELECT after the UPDATE sees the same author and subject as before it. */
  lemma {:induction false} RespondKeepsAuthor(s: seq<ContactMessage>, id: int, status: string, response: Option<string>)
    ensures FindContact(RespondToContact(s, id, status, response), id).Some? == FindContact(s, id).Some?
    ensures FindContact(s, id).Some? ==>
              FindContact(RespondToContact(s, id, status, response), id).value.username == FindContact(s, id).value.username &&
              FindContact(RespondToContact(s, id, status, response), id).value.subject == FindContact(s, id).value.subject
  {
    if s != [] {
      var r := RespondToContact(s, id, status, response);
      assert r[1..] == RespondToContact(s[1..], id, status, response);
      RespondKeepsAuthor(s[1..], id, status, response);
    }
  }
}
