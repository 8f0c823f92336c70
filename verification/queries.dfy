/**
 * DatabaseManager's SQL, table by table: each SELECT as a function of the tables it reads,
 * and each UPDATE / DELETE as the function giving the new table, with the lemmas that say
 * what these statements guarantee. The `Database.Store` methods are proved against them.
 */
module Queries {
  import opened Schema
  import opened Tables
  import opened JavaText

  // ============== users ==============

  /** `LOWER(username) = 'admin'` (ASCII case folding). */
  predicate IsAdminName(u: string) {
    ToLower(u) == AdminName
  }

  /** The bulk delete's `LOWER(username) != 'admin'` and deleteUser's `"admin".equalsIgnoreCase(username)` pick out the same names. */
  lemma AdminNameIgnoringCase(u: string)
    ensures IsAdminName(u) <==> EqualsIgnoreCase(AdminName, u)
  {
    assert ToLower(AdminName) == AdminName by {
      forall i | 0 <= i < |AdminName| ensures ToLower(AdminName)[i] == AdminName[i] {
        assert 'a' <= AdminName[i] <= 'z';
      }
    }
  }

  /** `SELECT COUNT(*) FROM users WHERE username = ?` is positive. */
  predicate HasUser(users: seq<User>, u: string) {
    exists x :: x in users && x.username == u
  }

  /** `SELECT role FROM users WHERE username = ? AND password = ?`, first row, or `null`. */
  function MatchingRole(users: seq<User>, u: string, p: string): (r: Option<string>)
    ensures r.None? <==> forall x :: x in users ==> !(x.username == u && x.password == p)
    ensures r.Some? ==> exists x :: x in users && x.username == u && x.password == p && x.role == r.value
  {
    if users == [] then None
    else if users[0].username == u && users[0].password == p then Some(users[0].role)
    else MatchingRole(users[1..], u, p)
  }

  /** With unique usernames, the role a login returns is the role stored for that user. */
  lemma {:induction false} MatchingRoleOfUser(users: seq<User>, x: User)
    requires Unique(users, UserName) && x in users
    ensures MatchingRole(users, x.username, x.password) == Some(x.role)
  {
    var k :| 0 <= k < |users| && users[k] == x;
    if k == 0 {
    } else {
      assert users[0].username != x.username by {
        assert UserName(users[0]) != UserName(users[k]);
      }
      var t := users[1..];
      assert Unique(t, UserName) by {
        forall i, j | 0 <= i < j < |t| ensures UserName(t[i]) != UserName(t[j]) {
          assert t[i] == users[i + 1] && t[j] == users[j + 1];
        }
      }
      assert t[k - 1] == x;
      MatchingRoleOfUser(t, x);
    }
  }

  /** `DELETE FROM users WHERE id = ?` */
  function WithoutUserId(users: seq<User>, id: int): seq<User> {
    Filter(users, (x: User) => x.id != id)
  }

  /**
   * deleteUser deletes the user row by id but is guarded on the username argument. When every
   * row with that id carries that username, a guarded delete never removes an "admin" account.
   */
  lemma AdminSurvivesDelete(users: seq<User>, id: int, u: string)
    requires !EqualsIgnoreCase(AdminName, u)
    ensures (forall x :: x in users && x.id == id ==> x.username == u) ==>
              forall x :: x in users && IsAdminName(x.username) ==> x in WithoutUserId(users, id)
  {
    AdminNameIgnoringCase(u);
  }

  /** The usernames deleteAllUsersExceptAdmin removes: those not "admin" ignoring case whose cascade did not fail. */
  function Doomed(users: seq<User>, failing: set<string>): set<string> {
    set x | x in users && !IsAdminName(x.username) && x.username !in failing :: x.username
  }

  /**
   * The bulk delete removes exactly |Doomed| user rows, so its `deletedCount` is the number of
   * users removed, and whoever remains is named "admin" (ignoring case) or failed to delete.
   */
  lemma BulkDeleteOutcome(users: seq<User>, failing: set<string>)
    requires Unique(users, UserName)
    ensures |Without(users, UserName, Doomed(users, failing))| == |users| - |Doomed(users, failing)|
    ensures forall x :: x in Without(users, UserName, Doomed(users, failing)) ==>
              IsAdminName(x.username) || x.username in failing
  {
    var d := Doomed(users, failing);
    assert forall n :: n in d ==> exists x :: x in users && UserName(x) == n;
    WithoutUniqueCount(users, UserName, d);
  }

  /** The MERGE's update branch: the existing "admin" row gets the seed password and role. */
  function ResetAdmin(users: seq<User>): (r: seq<User>)
    ensures |r| == |users|
    ensures forall i :: 0 <= i < |users| ==> UserName(r[i]) == UserName(users[i]) && UserId(r[i]) == UserId(users[i])
  {
    seq(|users|, i requires 0 <= i < |users| =>
      if users[i].username == AdminName then users[i].(password := SeedPassword, role := AdminRole) else users[i])
  }

  /** `MERGE INTO users (username, password, role) KEY(username) VALUES ('admin', 'admin123', 'Admin')` */
  function MergeSeedAdmin(users: seq<User>, id: int): seq<User> {
    if HasUser(users, AdminName) then ResetAdmin(users)
    else users + [User(id, AdminName, SeedPassword, None, AdminRole)]
  }

  /** On an empty users table the seed merge inserts the admin account as the only row. */
  lemma SeedEmpty()
    ensures MergeSeedAdmin([], 1) == [User(1, AdminName, SeedPassword, None, AdminRole)]
  {
  }

  /**
   * After the seed merge an "admin" row with the seed password and role exists, usernames stay
   * unique, and every other user row is as before.
   */
  lemma SeedAdminPresent(users: seq<User>, id: int)
    requires Unique(users, UserName)
    ensures exists x :: x in MergeSeedAdmin(users, id) && x.username == AdminName &&
                        x.password == SeedPassword && x.role == AdminRole
    ensures Unique(MergeSeedAdmin(users, id), UserName)
    ensures Filter(MergeSeedAdmin(users, id), (x: User) => x.username != AdminName) ==
            Filter(users, (x: User) => x.username != AdminName)
  {
    if HasUser(users, AdminName) {
      ResetAdminEffect(users);
    } else {
      SeedAppended(users, id);
    }
  }

  lemma ResetAdminEffect(users: seq<User>)
    requires Unique(users, UserName) && HasUser(users, AdminName)
    ensures exists x :: x in ResetAdmin(users) && x.username == AdminName &&
                        x.password == SeedPassword && x.role == AdminRole
    ensures Unique(ResetAdmin(users), UserName)
    ensures Filter(ResetAdmin(users), (x: User) => x.username != AdminName) ==
            Filter(users, (x: User) => x.username != AdminName)
  {
    var r := ResetAdmin(users);
    var x :| x in users && x.username == AdminName;
    var k :| 0 <= k < |users| && users[k] == x;
    assert r[k] in r;
    forall i, j | 0 <= i < j < |r| ensures UserName(r[i]) != UserName(r[j]) {
      assert UserName(users[i]) != UserName(users[j]);
    }
    FilterAgree(users, r, (x: User) => x.username != AdminName);
  }

  lemma SeedAppended(users: seq<User>, id: int)
    requires Unique(users, UserName) && !HasUser(users, AdminName)
    ensures Unique(users + [User(id, AdminName, SeedPassword, None, AdminRole)], UserName)
    ensures Filter(users + [User(id, AdminName, SeedPassword, None, AdminRole)], (x: User) => x.username != AdminName) ==
            Filter(users, (x: User) => x.username != AdminName)
  {
    var seed := User(id, AdminName, SeedPassword, None, AdminRole);
    var r := users + [seed];
    forall i, j | 0 <= i < j < |r| ensures UserName(r[i]) != UserName(r[j]) {
      if j == |users| { assert r[i] in users; }
    }
    FilterAppend(users, [seed], (x: User) => x.username != AdminName);
  }

  // ============== user_sessions ==============

  /** Rows of `u` with `is_active = 1`. */
  function ActiveOf(s: seq<UserSession>, u: string): seq<UserSession> {
    Filter(s, (x: UserSession) => x.username == u && x.isActive)
  }

  /** All session rows of `u`. */
  function SessionsOf(s: seq<UserSession>, u: string): seq<UserSession> {
    Filter(s, (x: UserSession) => x.username == u)
  }

  /** At most one active session per username. */
  ghost predicate OneActivePerUser(s: seq<UserSession>) {
    Pairwise(s, (a: UserSession, b: UserSession) => !(a.isActive && b.isActive && a.username == b.username))
  }

  /** Deleting the sessions of some usernames keeps at most one active session per username. */
  lemma WithoutKeepsOneActive(s: seq<UserSession>, names: set<string>)
    requires OneActivePerUser(s)
    ensures OneActivePerUser(Without(s, SessionOwner, names))
  {
    var rel := (a: UserSession, b: UserSession) => !(a.isActive && b.isActive && a.username == b.username);
    assert Pairwise(s, rel);
    WithoutPairwise(s, SessionOwner, names, rel);
  }

  /** recordLogin's `UPDATE user_sessions SET is_active = 0 WHERE username = ? AND is_active = 1` */
  function Deactivate(s: seq<UserSession>, u: string): (r: seq<UserSession>)
    ensures |r| == |s|
  {
    seq(|s|, i requires 0 <= i < |s| =>
      if s[i].username == u && s[i].isActive then s[i].(isActive := false) else s[i])
  }

  /** recordLogin: deactivate, then `INSERT INTO user_sessions (username, is_active) VALUES (?, 1)`. */
  function StartSession(s: seq<UserSession>, u: string, id: int, now: int): seq<UserSession> {
    Deactivate(s, u) + [UserSession(id, u, now, None, true)]
  }

  /** recordLogout's `UPDATE ... SET logout_time = CURRENT_TIMESTAMP, is_active = 0 WHERE username = ? AND is_active = 1` */
  function CloseSessions(s: seq<UserSession>, u: string, now: int): (r: seq<UserSession>)
    ensures |r| == |s|
  {
    seq(|s|, i requires 0 <= i < |s| =>
      if s[i].username == u && s[i].isActive then s[i].(isActive := false, logoutTime := Some(now)) else s[i])
  }

  /**
   * After recordLogin(u) the only active session of `u` is the one just inserted, and the
   * sessions of every other username are exactly as before.
   */
  lemma LoginLeavesOneActive(s: seq<UserSession>, u: string, id: int, now: int)
    ensures ActiveOf(StartSession(s, u, id, now), u) == [UserSession(id, u, now, None, true)]
    ensures forall v :: v != u ==> SessionsOf(StartSession(s, u, id, now), v) == SessionsOf(s, v)
  {
    var d := Deactivate(s, u);
    var newRow := UserSession(id, u, now, None, true);
    FilterAppend(d, [newRow], (x: UserSession) => x.username == u && x.isActive);
    forall y | y in d ensures !(y.username == u && y.isActive) {
      var k :| 0 <= k < |d| && d[k] == y;
    }
    FilterNone(d, (x: UserSession) => x.username == u && x.isActive);
    assert ActiveOf([newRow], u) == [newRow];
    forall v | v != u ensures SessionsOf(StartSession(s, u, id, now), v) == SessionsOf(s, v) {
      FilterAppend(d, [newRow], (x: UserSession) => x.username == v);
      FilterAgree(s, d, (x: UserSession) => x.username == v);
    }
  }

  /** recordLogin keeps "at most one active session per username". */
  lemma LoginKeepsOneActive(s: seq<UserSession>, u: string, id: int, now: int)
    requires OneActivePerUser(s)
    ensures OneActivePerUser(StartSession(s, u, id, now))
  {
    var d := Deactivate(s, u);
    var r := StartSession(s, u, id, now);
    forall i, j | 0 <= i < j < |r| ensures !(r[i].isActive && r[j].isActive && r[i].username == r[j].username) {
      if j < |d| {
        assert r[i] == d[i] && r[j] == d[j];
      } else {
        assert r[i] == d[i];
      }
    }
  }

  /**
   * After recordLogout(u) no session of `u` is active, each session of `u` that was active
   * carries the logout time, and the sessions of every other username are as before.
   */
  lemma LogoutLeavesNoneActive(s: seq<UserSession>, u: string, now: int)
    ensures ActiveOf(CloseSessions(s, u, now), u) == []
    ensures forall i :: 0 <= i < |s| && s[i].username == u && s[i].isActive ==>
              CloseSessions(s, u, now)[i].logoutTime == Some(now)
    ensures forall v :: v != u ==> SessionsOf(CloseSessions(s, u, now), v) == SessionsOf(s, v)
    ensures OneActivePerUser(s) ==> OneActivePerUser(CloseSessions(s, u, now))
  {
    var r := CloseSessions(s, u, now);
    forall y | y in r ensures !(y.username == u && y.isActive) {
      var k :| 0 <= k < |r| && r[k] == y;
    }
    FilterNone(r, (x: UserSession) => x.username == u && x.isActive);
    forall v | v != u ensures SessionsOf(r, v) == SessionsOf(s, v) {
      FilterAgree(s, r, (x: UserSession) => x.username == v);
    }
  }

  /** `COUNT(DISTINCT username) ... WHERE is_active = 1` counts these names. */
  function ActiveNames(s: seq<UserSession>): set<string> {
    set x | x in s && x.isActive :: x.username
  }

  /** The rows with `is_active = 1`. */
  function ActiveRows(s: seq<UserSession>): seq<UserSession> {
    Filter(s, (x: UserSession) => x.isActive)
  }

  /** getActiveUserCount */
  function ActiveUserCount(s: seq<UserSession>): nat {
    |ActiveNames(s)|
  }

  /** While at most one session per user is active, the active-user count is the number of active session rows. */
  lemma {:induction false} ActiveCountIsActiveRows(s: seq<UserSession>)
    requires OneActivePerUser(s)
    ensures ActiveUserCount(s) == |ActiveRows(s)|
  {
    if s != [] {
      var t := s[1..];
      assert OneActivePerUser(t) by {
        forall i, j | 0 <= i < j < |t| ensures !(t[i].isActive && t[j].isActive && t[i].username == t[j].username) {
          assert t[i] == s[i + 1] && t[j] == s[j + 1];
        }
      }
      ActiveCountIsActiveRows(t);
      ActiveNamesCons(s);
      if s[0].isActive {
        assert s[0].username !in ActiveNames(t) by {
          forall y | y in t && y.isActive ensures y.username != s[0].username {
            var k :| 0 <= k < |t| && t[k] == y;
            assert s[k + 1] == y;
          }
        }
      }
    }
  }

  lemma ActiveNamesCons(s: seq<UserSession>)
    requires s != []
    ensures ActiveNames(s) == (if s[0].isActive then {s[0].username} else {}) + ActiveNames(s[1..])
  {
    var t := s[1..];
    assert forall x :: x in s <==> x == s[0] || x in t by {
      assert s == [s[0]] + t;
    }
    var rhs := (if s[0].isActive then {s[0].username} else {}) + ActiveNames(t);
    forall n ensures n in ActiveNames(s) <==> n in rhs {
      if n in ActiveNames(s) {
        var y :| y in s && y.isActive && y.username == n;
      }
      if n in ActiveNames(t) {
        var y :| y in t && y.isActive && y.username == n;
        assert y in s;
      }
    }
  }

  // ============== user listing (getAllUsersWithSessions) ==============

  /** One row of the user-management table; `None` stands for "Never" (login) and "N/A" (logout). */
  datatype UserSummary = UserSummary(id: int, username: string, password: string, role: string,
                                     online: bool, lastLogin: Option<int>, lastLogout: Option<int>)

  /** `MAX(s.login_time)` over the given sessions; `None` when there are none. */
  function LatestLogin(s: seq<UserSession>): (r: Option<int>)
    ensures r.None? <==> s == []
    ensures r.Some? ==> (exists x :: x in s && x.loginTime == r.value) &&
                        forall x :: x in s ==> x.loginTime <= r.value
  {
    if s == [] then None
    else
      var rest := LatestLogin(s[1..]);
      assert forall x :: x in s ==> x == s[0] || x in s[1..];
      if rest.Some? && rest.value > s[0].loginTime then rest else Some(s[0].loginTime)
  }

  /** `MAX(s.logout_time)`, which skips NULLs; `None` when no session was ever closed. */
  function LatestLogout(s: seq<UserSession>): (r: Option<int>)
    ensures r.None? <==> forall x :: x in s ==> x.logoutTime.None?
    ensures r.Some? ==> (exists x :: x in s && x.logoutTime == r) &&
                        forall x :: x in s && x.logoutTime.Some? ==> x.logoutTime.value <= r.value
  {
    if s == [] then None
    else
      var rest := LatestLogout(s[1..]);
      assert forall x :: x in s ==> x == s[0] || x in s[1..];
      match s[0].logoutTime
      case None => rest
      case Some(t) => if rest.Some? && rest.value > t then rest else Some(t)
  }

  /** The LEFT JOIN ... GROUP BY row of one user. */
  function Summarize(x: User, sessions: seq<UserSession>): UserSummary {
    var mine := SessionsOf(sessions, x.username);
    UserSummary(x.id, x.username, x.password, x.role,
                ActiveOf(sessions, x.username) != [], LatestLogin(mine), LatestLogout(mine))
  }

  /** A user shows "Online" iff one of their sessions is active, and "Never" iff they never logged in. */
  lemma SummaryStatus(x: User, sessions: seq<UserSession>)
    ensures Summarize(x, sessions).online <==> exists y :: y in sessions && y.username == x.username && y.isActive
    ensures Summarize(x, sessions).lastLogin.None? <==> forall y :: y in sessions ==> y.username != x.username
  {
    var mine := SessionsOf(sessions, x.username);
    var active := ActiveOf(sessions, x.username);
    if active != [] { assert active[0] in active; }
    if mine != [] { assert mine[0] in mine; }
    if exists y :: y in sessions && y.username == x.username && y.isActive {
      var y :| y in sessions && y.username == x.username && y.isActive;
      assert y in ActiveOf(sessions, x.username);
    }
    if exists y :: y in sessions && y.username == x.username {
      var y :| y in sessions && y.username == x.username;
      assert y in mine;
    }
  }

  /**
   * Lexicographic order on chars (Unicode scalar values). `ORDER BY u.username` compares
   * UTF-16 code units instead; the two agree unless names mix supplementary chars with
   * chars in U+E000..U+FFFF.
   */
  predicate NameLe(a: string, b: string) {
    a == [] || (b != [] && (a[0] < b[0] || (a[0] == b[0] && NameLe(a[1..], b[1..]))))
  }

  lemma {:induction false} NameLeTotal(a: string, b: string)
    ensures NameLe(a, b) || NameLe(b, a)
  {
    if a != [] && b != [] && a[0] == b[0] {
      NameLeTotal(a[1..], b[1..]);
    }
  }

  lemma {:induction false} NameLeTrans(a: string, b: string, c: string)
    requires NameLe(a, b) && NameLe(b, c)
    ensures NameLe(a, c)
  {
    if a != [] && b != [] && c != [] && a[0] == b[0] && b[0] == c[0] {
      NameLeTrans(a[1..], b[1..], c[1..]);
    }
  }

  ghost predicate SortedByName(s: seq<UserSummary>) {
    forall i, j :: 0 <= i < j < |s| ==> NameLe(s[i].username, s[j].username)
  }

  /** One step of the sort: `x` placed before the first row whose name is not below it. */
  function InsertByName(x: UserSummary, s: seq<UserSummary>): (r: seq<UserSummary>)
    ensures multiset(r) == multiset(s) + multiset{x}
    ensures forall y :: y in r <==> y == x || y in s
  {
    if s == [] then [x]
    else if NameLe(x.username, s[0].username) then [x] + s
    else
      assert s == [s[0]] + s[1..];
      [s[0]] + InsertByName(x, s[1..])
  }

  /** Inserting into a table sorted by name keeps it sorted. */
  lemma {:induction false} InsertKeepsSorted(x: UserSummary, s: seq<UserSummary>)
    requires SortedByName(s)
    ensures SortedByName(InsertByName(x, s))
  {
    if s != [] {
      var r := InsertByName(x, s);
      if NameLe(x.username, s[0].username) {
        forall i, j | 0 <= i < j < |r| ensures NameLe(r[i].username, r[j].username) {
          if i == 0 && j > 1 { NameLeTrans(x.username, s[0].username, s[j - 1].username); }
        }
      } else {
        var u := s[1..];
        assert SortedByName(u) by {
          forall i, j | 0 <= i < j < |u| ensures NameLe(u[i].username, u[j].username) {
            assert u[i] == s[i + 1] && u[j] == s[j + 1];
          }
        }
        InsertKeepsSorted(x, u);
        var t := InsertByName(x, u);
        assert r == [s[0]] + t;
        NameLeTotal(x.username, s[0].username);
        forall y | y in t ensures NameLe(s[0].username, y.username) {
          if y != x {
            var k :| 0 <= k < |u| && u[k] == y;
            assert s[k + 1] == y;
          }
        }
        ConsSorted(s[0], t);
      }
    }
  }

  /** A row whose name is not above any name of a sorted table can go in front of it. */
  lemma ConsSorted(h: UserSummary, t: seq<UserSummary>)
    requires SortedByName(t)
    requires forall y :: y in t ==> NameLe(h.username, y.username)
    ensures SortedByName([h] + t)
  {
    var r := [h] + t;
    forall i, j | 0 <= i < j < |r| ensures NameLe(r[i].username, r[j].username) {
      if i == 0 {
        assert r[j] == t[j - 1] && t[j - 1] in t;
      } else {
        assert r[i] == t[i - 1] && r[j] == t[j - 1];
      }
    }
  }

  /** `ORDER BY u.username`: a permutation of the rows, sorted by name. */
  function SortByName(s: seq<UserSummary>): (r: seq<UserSummary>)
    ensures multiset(r) == multiset(s)
    ensures SortedByName(r)
  {
    if s == [] then []
    else
      assert s == [s[0]] + s[1..];
      var t := SortByName(s[1..]);
      InsertKeepsSorted(s[0], t);
      InsertByName(s[0], t)
  }

  /** getAllUsersWithSessions */
  function AllUsersWithSessions(users: seq<User>, sessions: seq<UserSession>): seq<UserSummary> {
    SortByName(seq(|users|, i requires 0 <= i < |users| => Summarize(users[i], sessions)))
  }

  /** The listing has one row per user, each summarising that user's sessions, ordered by username. */
  lemma UserListingComplete(users: seq<User>, sessions: seq<UserSession>)
    ensures |AllUsersWithSessions(users, sessions)| == |users|
    ensures SortedByName(AllUsersWithSessions(users, sessions))
    ensures forall x :: x in users ==> Summarize(x, sessions) in AllUsersWithSessions(users, sessions)
  {
    var rows := seq(|users|, i requires 0 <= i < |users| => Summarize(users[i], sessions));
    var r := AllUsersWithSessions(users, sessions);
    assert |multiset(r)| == |multiset(rows)|;
    forall x | x in users ensures Summarize(x, sessions) in r {
      var k :| 0 <= k < |users| && users[k] == x;
      assert rows[k] in multiset(rows);
    }
  }

  // ============== jobs ==============

  /** getAllJobs: `ORDER BY id DESC` */
  function AllJobs(s: seq<Job>): seq<Job> {
    Reverse(s)
  }

  /** `UPDATE jobs SET title = ?, company = ?, location = ?, salary = ?, description = ? WHERE id = ?` */
  function UpdateJobRow(s: seq<Job>, id: int, title: string, company: string, location: string,
                        salary: string, description: string): (r: seq<Job>)
    ensures |r| == |s|
    ensures forall i :: 0 <= i < |s| ==> JobId(r[i]) == JobId(s[i])
  {
    seq(|s|, i requires 0 <= i < |s| =>
      if s[i].id == id
      then s[i].(title := title, company := company, location := location, salary := salary, description := description)
      else s[i])
  }

  /** `DELETE FROM jobs WHERE id = ?` */
  function WithoutJob(s: seq<Job>, id: int): seq<Job> {
    Filter(s, (j: Job) => j.id != id)
  }

  /** updateJob rewrites the five columns of row `id` (keeping its id and creation time) and no other row. */
  lemma UpdateJobEffect(s: seq<Job>, id: int, title: string, company: string, location: string,
                        salary: string, description: string)
    ensures forall j :: j in UpdateJobRow(s, id, title, company, location, salary, description) && j.id == id ==>
              j.title == title && j.company == company && j.location == location && j.salary == salary &&
              j.description == description
    ensures (exists j :: j in UpdateJobRow(s, id, title, company, location, salary, description) && j.id == id) <==>
            (exists j :: j in s && j.id == id)
    ensures WithoutJob(UpdateJobRow(s, id, title, company, location, salary, description), id) == WithoutJob(s, id)
  {
    var r := UpdateJobRow(s, id, title, company, location, salary, description);
    FilterAgree(s, r, (j: Job) => j.id != id);
    if exists j :: j in s && j.id == id {
      var j :| j in s && j.id == id;
      var k :| 0 <= k < |s| && s[k] == j;
      assert r[k] in r;
    }
  }

  /** The five rows addSampleJobs inserts into an empty jobs table: title, company, location, salary, description. */
  const SampleJobs: seq<(string, string, string, string, string)> := [
    ("Software Engineer", "Tech Corp", "Manila", "80,000 PHP", "Develop and maintain software applications"),
    ("Data Analyst", "Data Inc", "Makati", "60,000 PHP", "Analyze business data and create reports"),
    ("Project Manager", "Global Solutions", "BGC", "100,000 PHP", "Lead and manage project teams"),
    ("UI/UX Designer", "Creative Agency", "Cebu", "55,000 PHP", "Design user interfaces and experiences"),
    ("Network Administrator", "IT Services", "Quezon City", "50,000 PHP", "Manage and maintain network infrastructure")
  ]

  // ============== applications ==============

  /** The columns getUserApplications selects (no username, phone or cover letter). */
  datatype UserApplicationRow = UserApplicationRow(id: int, jobTitle: string, company: string, applicantName: string,
                                                   email: string, status: string, appliedAt: int)

  /** getAllApplications: `ORDER BY applied_at DESC` */
  function AllApplications(s: seq<Application>): seq<Application> {
    Reverse(s)
  }

  function ApplicationsOf(s: seq<Application>, u: string): seq<Application> {
    Filter(s, (a: Application) => a.username == u)
  }

  /** getUserApplications: the user's rows, newest first, projected. */
  function UserApplications(s: seq<Application>, u: string): seq<UserApplicationRow> {
    var mine := Reverse(ApplicationsOf(s, u));
    seq(|mine|, i requires 0 <= i < |mine| =>
      UserApplicationRow(mine[i].id, mine[i].jobTitle, mine[i].company, mine[i].applicantName,
                         mine[i].email, mine[i].status, mine[i].appliedAt))
  }

  /** getPendingApplicationCount */
  function PendingApplicationCount(s: seq<Application>): nat {
    |Filter(s, (a: Application) => a.status == StatusPending)|
  }

  /** The message addApplication sends to "admin". */
  function NewApplicationNotice(name: string, u: string, jobTitle: string): string {
    "New application from " + name + " (" + u + ") for job: " + jobTitle
  }

  /** `UPDATE applications SET status = ? WHERE id = ?` */
  function SetApplicationStatus(s: seq<Application>, id: int, status: string): (r: seq<Application>)
    ensures |r| == |s|
  {
    seq(|s|, i requires 0 <= i < |s| => if s[i].id == id then s[i].(status := status) else s[i])
  }

  /**
   * updateApplicationStatus(id, status) sets the status of the rows with that id and keeps
   * every other column and row; a second identical call changes nothing.
   */
  lemma SetApplicationStatusEffect(s: seq<Application>, id: int, status: string)
    ensures forall i :: 0 <= i < |s| && s[i].id == id ==> SetApplicationStatus(s, id, status)[i] == s[i].(status := status)
    ensures forall i :: 0 <= i < |s| && s[i].id != id ==> SetApplicationStatus(s, id, status)[i] == s[i]
    ensures SetApplicationStatus(SetApplicationStatus(s, id, status), id, status) == SetApplicationStatus(s, id, status)
  {
  }

  /** getUserApplications lists exactly the user's applications, newest first. */
  lemma UserApplicationsNewestFirst(s: seq<Application>, u: string)
    requires Ascending(s, ApplicationStamp)
    ensures |UserApplications(s, u)| == |ApplicationsOf(s, u)|
    ensures forall i, j :: 0 <= i < j < |UserApplications(s, u)| ==>
              UserApplications(s, u)[i].appliedAt > UserApplications(s, u)[j].appliedAt
  {
    FilterAscending(s, (a: Application) => a.username == u, ApplicationStamp);
    ReverseDescending(ApplicationsOf(s, u), ApplicationStamp);
  }

  // ============== notifications ==============

  function NotificationsOf(s: seq<Notification>, u: string): seq<Notification> {
    Filter(s, (n: Notification) => n.username == u)
  }

  function UnreadOf(s: seq<Notification>, u: string): seq<Notification> {
    Filter(s, (n: Notification) => n.username == u && !n.isRead)
  }

  /** getUnreadNotificationCount */
  function UnreadNotificationCount(s: seq<Notification>, u: string): nat {
    |UnreadOf(s, u)|
  }

  /** getUnreadNotifications: `ORDER BY created_at DESC` */
  function UnreadNotifications(s: seq<Notification>, u: string): seq<Notification> {
    Reverse(UnreadOf(s, u))
  }

  /** getAllNotifications: `ORDER BY created_at DESC` */
  function AllNotifications(s: seq<Notification>, u: string): seq<Notification> {
    Reverse(NotificationsOf(s, u))
  }

  /** `UPDATE notifications SET is_read = 1 WHERE id = ?` */
  function MarkRead(s: seq<Notification>, id: int): (r: seq<Notification>)
    ensures |r| == |s|
  {
    seq(|s|, i requires 0 <= i < |s| => if s[i].id == id then s[i].(isRead := true) else s[i])
  }

  /**
   * markNotificationAsRead(id) sets the read flag of the rows with that id and keeps every
   * other column and row; a second call changes nothing, and no user gains an unread row.
   */
  lemma {:induction false} MarkReadEffect(s: seq<Notification>, id: int)
    ensures forall i :: 0 <= i < |s| && s[i].id == id ==> MarkRead(s, id)[i] == s[i].(isRead := true)
    ensures forall i :: 0 <= i < |s| && s[i].id != id ==> MarkRead(s, id)[i] == s[i]
    ensures MarkRead(MarkRead(s, id), id) == MarkRead(s, id)
    ensures forall u :: UnreadNotificationCount(MarkRead(s, id), u) <= UnreadNotificationCount(s, u)
  {
    forall u ensures UnreadNotificationCount(MarkRead(s, id), u) <= UnreadNotificationCount(s, u) {
      MarkReadUnread(s, id, u);
    }
  }

  lemma {:induction false} MarkReadUnread(s: seq<Notification>, id: int, u: string)
    ensures |UnreadOf(MarkRead(s, id), u)| <= |UnreadOf(s, u)|
    decreases |s|
  {
    if s != [] {
      MarkReadUnread(s[1..], id, u);
      assert MarkRead(s, id) == [MarkRead(s, id)[0]] + MarkRead(s[1..], id);
      assert s == [s[0]] + s[1..];
    }
  }

  /** `UPDATE notifications SET is_read = 1 WHERE username = ?` */
  function MarkAllRead(s: seq<Notification>, u: string): (r: seq<Notification>)
    ensures |r| == |s|
  {
    seq(|s|, i requires 0 <= i < |s| => if s[i].username == u then s[i].(isRead := true) else s[i])
  }

  /**
   * markAllNotificationsAsRead(u) leaves `u` no unread notification, a second call changes
   * nothing, and the notifications of every other user are untouched.
   */
  lemma MarkAllReadEffect(s: seq<Notification>, u: string)
    ensures UnreadNotificationCount(MarkAllRead(s, u), u) == 0
    ensures MarkAllRead(MarkAllRead(s, u), u) == MarkAllRead(s, u)
    ensures forall v :: v != u ==> NotificationsOf(MarkAllRead(s, u), v) == NotificationsOf(s, v)
    ensures NotificationsOf(MarkAllRead(s, u), u) != [] <==> NotificationsOf(s, u) != []
  {
    var r := MarkAllRead(s, u);
    forall y | y in r ensures !(y.username == u && !y.isRead) {
      var k :| 0 <= k < |r| && r[k] == y;
    }
    FilterNone(r, (n: Notification) => n.username == u && !n.isRead);
    forall v | v != u ensures NotificationsOf(r, v) == NotificationsOf(s, v) {
      FilterAgree(s, r, (n: Notification) => n.username == v);
    }
    if NotificationsOf(s, u) != [] {
      var y := NotificationsOf(s, u)[0];
      assert y in NotificationsOf(s, u);
      var k :| 0 <= k < |s| && s[k] == y;
      assert r[k] in NotificationsOf(r, u);
    }
    if NotificationsOf(r, u) != [] {
      var y := NotificationsOf(r, u)[0];
      assert y in NotificationsOf(r, u);
      var k :| 0 <= k < |r| && r[k] == y;
      assert s[k] in NotificationsOf(s, u);
    }
  }

  /** The listings are newest first and hold exactly the user's (unread) rows. */
  lemma NotificationListings(s: seq<Notification>, u: string)
    requires Ascending(s, NotificationStamp)
    ensures Descending(AllNotifications(s, u), NotificationStamp)
    ensures Descending(UnreadNotifications(s, u), NotificationStamp)
    ensures forall n :: n in UnreadNotifications(s, u) <==> n in s && n.username == u && !n.isRead
  {
    FilterAscending(s, (n: Notification) => n.username == u, NotificationStamp);
    FilterAscending(s, (n: Notification) => n.username == u && !n.isRead, NotificationStamp);
    ReverseDescending(NotificationsOf(s, u), NotificationStamp);
    ReverseDescending(UnreadOf(s, u), NotificationStamp);
    ReverseMembers(UnreadOf(s, u));
  }

  // ============== resumes ==============

  /** getResume: the eight columns of the user's row, or `null`. */
  function FindResume(s: seq<Resume>, u: string): (r: Option<ResumeFields>)
    ensures r.None? <==> forall x :: x in s ==> x.username != u
    ensures r.Some? ==> exists x :: x in s && x.username == u && x.fields == r.value
  {
    if s == [] then None
    else if s[0].username == u then Some(s[0].fields)
    else FindResume(s[1..], u)
  }

  /** saveOrUpdateResume's UPDATE: the user's row gets the new fields and `updated_at`. */
  function RewriteResumes(s: seq<Resume>, u: string, f: ResumeFields, now: int): (r: seq<Resume>)
    ensures |r| == |s|
    ensures forall i :: 0 <= i < |s| ==> ResumeOwner(r[i]) == ResumeOwner(s[i])
  {
    seq(|s|, i requires 0 <= i < |s| => if s[i].username == u then s[i].(fields := f, updatedAt := now) else s[i])
  }

  /** saveOrUpdateResume: update the user's row in place if it exists, otherwise insert one. */
  function UpsertResume(s: seq<Resume>, u: string, f: ResumeFields, id: int, now: int): seq<Resume> {
    if FindResume(s, u).Some? then RewriteResumes(s, u, f, now)
    else s + [Resume(id, u, f, now)]
  }

  /**
   * After saveOrUpdateResume(u, f) a getResume(u) returns exactly `f`, the resumes of other
   * users read as before, and there is still at most one resume per username.
   */
  lemma UpsertThenFind(s: seq<Resume>, u: string, f: ResumeFields, id: int, now: int)
    ensures FindResume(UpsertResume(s, u, f, id, now), u) == Some(f)
    ensures forall v :: v != u ==> FindResume(UpsertResume(s, u, f, id, now), v) == FindResume(s, v)
    ensures Unique(s, ResumeOwner) ==> Unique(UpsertResume(s, u, f, id, now), ResumeOwner)
  {
    if FindResume(s, u).Some? {
      RewriteThenFind(s, u, f, now);
      forall v | v != u ensures FindResume(RewriteResumes(s, u, f, now), v) == FindResume(s, v) {
        RewriteKeepsOthers(s, u, v, f, now);
      }
      var r := RewriteResumes(s, u, f, now);
      if Unique(s, ResumeOwner) {
        forall i, j | 0 <= i < j < |r| ensures ResumeOwner(r[i]) != ResumeOwner(r[j]) {
          assert ResumeOwner(s[i]) != ResumeOwner(s[j]);
        }
      }
    } else {
      FindAppended(s, Resume(id, u, f, now));
      var r := s + [Resume(id, u, f, now)];
      if Unique(s, ResumeOwner) {
        forall i, j | 0 <= i < j < |r| ensures ResumeOwner(r[i]) != ResumeOwner(r[j]) {
          if j == |s| { assert r[i] in s; }
        }
      }
    }
  }

  /** Rewriting the rows of `u` in place makes getResume(u) return the new fields. */
  lemma {:induction false} RewriteThenFind(s: seq<Resume>, u: string, f: ResumeFields, now: int)
    requires FindResume(s, u).Some?
    ensures FindResume(RewriteResumes(s, u, f, now), u) == Some(f)
  {
    var r := RewriteResumes(s, u, f, now);
    if s[0].username == u {
      assert r[0] == s[0].(fields := f, updatedAt := now);
    } else {
      RewriteTail(s, u, f, now);
      RewriteThenFind(s[1..], u, f, now);
    }
  }

  lemma RewriteTail(s: seq<Resume>, u: string, f: ResumeFields, now: int)
    requires s != []
    ensures RewriteResumes(s, u, f, now)[1..] == RewriteResumes(s[1..], u, f, now)
  {
    var r := RewriteResumes(s, u, f, now);
    var t := RewriteResumes(s[1..], u, f, now);
    forall k | 0 <= k < |t| ensures r[1..][k] == t[k] {
      assert s[1..][k] == s[k + 1];
    }
  }

  /** Rewriting the rows of `u` in place does not change what getResume(v) returns for another user. */
  lemma {:induction false} RewriteKeepsOthers(s: seq<Resume>, u: string, v: string, f: ResumeFields, now: int)
    requires v != u
    ensures FindResume(RewriteResumes(s, u, f, now), v) == FindResume(s, v)
  {
    if s != [] {
      RewriteTail(s, u, f, now);
      RewriteKeepsOthers(s[1..], u, v, f, now);
    }
  }

  /** Appending a row for a username that had none makes it the one getResume finds, and hides nothing else. */
  lemma {:induction false} FindAppended(s: seq<Resume>, x: Resume)
    requires FindResume(s, x.username).None?
    ensures FindResume(s + [x], x.username) == Some(x.fields)
    ensures forall v :: v != x.username ==> FindResume(s + [x], v) == FindResume(s, v)
  {
    if s != [] {
      assert (s + [x])[1..] == s[1..] + [x];
      FindAppended(s[1..], x);
    }
  }

  // ============== contact_messages ==============

  /** The columns getUserContactMessages selects. */
  datatype UserContactRow = UserContactRow(id: int, subject: string, message: string, status: string,
                                           adminResponse: Option<string>, createdAt: int)

  /** getAllContactMessages: `ORDER BY created_at DESC` */
  function AllContactMessages(s: seq<ContactMessage>): seq<ContactMessage> {
    Reverse(s)
  }

  function ContactsOf(s: seq<ContactMessage>, u: string): seq<ContactMessage> {
    Filter(s, (c: ContactMessage) => c.username == u)
  }

  /** getUserContactMessages: the user's messages, newest first, projected. */
  function UserContactMessages(s: seq<ContactMessage>, u: string): seq<UserContactRow> {
    var mine := Reverse(ContactsOf(s, u));
    seq(|mine|, i requires 0 <= i < |mine| =>
      UserContactRow(mine[i].id, mine[i].subject, mine[i].message, mine[i].status, mine[i].adminResponse, mine[i].createdAt))
  }

  /** getUnreadContactMessageCount: over all users. */
  function UnreadContactCount(s: seq<ContactMessage>): nat {
    |Filter(s, (c: ContactMessage) => !c.isRead)|
  }

  /** The message addContactMessage sends to "admin". */
  function NewContactNotice(u: string, subject: string): string {
    "New contact message from " + u + ": " + subject
  }

  /** The message a non-blank admin response sends to the message's author. */
  function ResponseNotice(subject: string): string {
    "Admin responded to your contact message: " + subject
  }

  /** `adminResponse != null && !adminResponse.trim().isEmpty()` */
  predicate IsRealResponse(response: Option<string>) {
    response.Some? && !IsBlank(response.value)
  }

  /** `UPDATE contact_messages SET is_read = 1 WHERE id = ?` */
  function MarkContactRead(s: seq<ContactMessage>, id: int): (r: seq<ContactMessage>)
    ensures |r| == |s|
  {
    seq(|s|, i requires 0 <= i < |s| => if s[i].id == id then s[i].(isRead := true) else s[i])
  }

  /**
   * markContactMessageAsRead(id) sets the read flag of the rows with that id and keeps every
   * other column and row; a second call changes nothing.
   */
  lemma MarkContactReadEffect(s: seq<ContactMessage>, id: int)
    ensures forall i :: 0 <= i < |s| && s[i].id == id ==> MarkContactRead(s, id)[i] == s[i].(isRead := true)
    ensures forall i :: 0 <= i < |s| && s[i].id != id ==> MarkContactRead(s, id)[i] == s[i]
    ensures MarkContactRead(MarkContactRead(s, id), id) == MarkContactRead(s, id)
  {
  }

  /** `UPDATE contact_messages SET status = ?, admin_response = ?, is_read = 1 WHERE id = ?` */
  function RespondToContact(s: seq<ContactMessage>, id: int, status: string, response: Option<string>): (r: seq<ContactMessage>)
    ensures |r| == |s|
  {
    seq(|s|, i requires 0 <= i < |s| =>
      if s[i].id == id then s[i].(status := status, adminResponse := response, isRead := true) else s[i])
  }

  /** `SELECT username, subject FROM contact_messages WHERE id = ?`, first row. */
  function FindContact(s: seq<ContactMessage>, id: int): (r: Option<ContactMessage>)
    ensures r.None? <==> forall c :: c in s ==> c.id != id
    ensures r.Some? ==> r.value in s && r.value.id == id
  {
    if s == [] then None
    else if s[0].id == id then Some(s[0])
    else FindContact(s[1..], id)
  }

  /**
   * updateContactMessageStatus sets status, response and read flag together on every row with
   * the id, keeps each row's id, author and subject, and touches no other row.
   */
  lemma RespondEffect(s: seq<ContactMessage>, id: int, status: string, response: Option<string>)
    ensures forall c :: c in RespondToContact(s, id, status, response) && c.id == id ==>
              c.status == status && c.adminResponse == response && c.isRead
    ensures forall i :: 0 <= i < |s| ==>
              RespondToContact(s, id, status, response)[i].(status := s[i].status, adminResponse := s[i].adminResponse, isRead := s[i].isRead) == s[i]
    ensures forall i :: 0 <= i < |s| && s[i].id != id ==> RespondToContact(s, id, status, response)[i] == s[i]
    ensures FindContact(RespondToContact(s, id, status, response), id).Some? <==> FindContact(s, id).Some?
  {
    var r := RespondToContact(s, id, status, response);
    if FindContact(s, id).Some? {
      var c := FindContact(s, id).value;
      var k :| 0 <= k < |s| && s[k] == c;
      assert r[k] in r;
    }
    if FindContact(r, id).Some? {
      var c := FindContact(r, id).value;
      var k :| 0 <= k < |r| && r[k] == c;
      assert s[k] in s;
    }
  }

  /** With ascending ids, the id of a message finds that very message. */
  lemma ContactIdIsKey(s: seq<ContactMessage>, c: ContactMessage)
    requires Ascending(s, ContactId) && c in s
    ensures FindContact(s, c.id) == Some(c)
  {
    var d := FindContact(s, c.id).value;
    var i :| 0 <= i < |s| && s[i] == c;
    var j :| 0 <= j < |s| && s[j] == d;
    AscendingKeysDiffer(s, ContactId, i, j);
  }

  /** The listings the contact inbox shows are newest first. */
  lemma ContactListings(s: seq<ContactMessage>, u: string)
    requires Ascending(s, ContactStamp)
    ensures Descending(AllContactMessages(s), ContactStamp)
    ensures forall i, j :: 0 <= i < j < |UserContactMessages(s, u)| ==>
              UserContactMessages(s, u)[i].createdAt > UserContactMessages(s, u)[j].createdAt
    ensures |UserContactMessages(s, u)| == |ContactsOf(s, u)|
  {
    ReverseDescending(s, ContactStamp);
    FilterAscending(s, (c: ContactMessage) => c.username == u, ContactStamp);
    ReverseDescending(ContactsOf(s, u), ContactStamp);
  }
}
