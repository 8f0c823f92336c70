/**
 * The sign-in and sign-up screens of the main window, and logging out: which inputs reach
 * the database, which role the signed-in user gets, and what an account created by sign-up
 * lets its owner do next.
 */
module Auth {
  import opened JavaText
  import opened Schema
  import opened Tables
  import opened Queries
  import opened Database

  // ================= sign in =================

  /** The two accounts login accepts without asking the database, and the role each gets. */
  function TestAccountRole(username: string, password: string): (r: Option<string>)
    ensures r.Some? <==> (username == "admin" && password == "admin") || (username == "user" && password == "user")
    ensures r.Some? ==> (r.value == AdminRole <==> username == "admin")
    ensures r.Some? ==> r.value == AdminRole || r.value == CustomerRole
  {
    if username == "admin" && password == "admin" then Some(AdminRole)
    else if username == "user" && password == "user" then Some(CustomerRole)
    else None
  }

  datatype SignInResult = FieldsMissing | SignedIn(role: string) | Refused

  /** Whether "Sign In" reaches validateLogin: both fields filled, no test account, the database connected. */
  predicate ConsultsStore(username: string, password: string, connected: bool) {
    username != [] && password != [] && TestAccountRole(username, password).None? && connected
  }

  /**
   * "Sign In" with the trimmed username and the password as typed, against the users table:
   * an empty field is refused first, then the test accounts, then validateLogin when the
   * database is connected; a missing connection refuses like a wrong password.
   */
  function SignInDecision(username: string, password: string, connected: bool, users: seq<User>): (r: SignInResult)
    ensures r.SignedIn? ==> username != [] && password != []
    ensures r.SignedIn? ==>
              TestAccountRole(username, password) == Some(r.role) ||
              exists x :: x in users && x.username == username && x.password == password && x.role == r.role
  {
    if username == [] || password == [] then FieldsMissing
    else if TestAccountRole(username, password).Some? then SignedIn(TestAccountRole(username, password).value)
    else if !connected then Refused
    else match MatchingRole(users, username, password)
      case Some(role) => SignedIn(role)
      case None => Refused
  }

  /** The test accounts sign in whatever the database holds, connected or not. */
  lemma TestAccountsSignIn(connected: bool, users: seq<User>)
    ensures SignInDecision("admin", "admin", connected, users) == SignedIn(AdminRole)
    ensures SignInDecision("user", "user", connected, users) == SignedIn(CustomerRole)
  {
  }

  /**
   * Past the test accounts and with the database connected, a user signs in exactly when
   * a row has that username and password, and gets that row's role.
   */
  lemma SignInByStore(username: string, password: string, users: seq<User>, role: string)
    requires Unique(users, UserName)
    requires ConsultsStore(username, password, true)
    ensures SignInDecision(username, password, true, users) == SignedIn(role) <==>
              exists x :: x in users && x.username == username && x.password == password && x.role == role
  {
    if exists x :: x in users && x.username == username && x.password == password && x.role == role {
      var x :| x in users && x.username == username && x.password == password && x.role == role;
      MatchingRoleOfUser(users, x);
    }
  }

  /** Without a connection, only the test accounts sign in. */
  lemma OfflineOnlyTestAccounts(username: string, password: string, users: seq<User>)
    ensures SignInDecision(username, password, false, users).SignedIn? <==>
              username != [] && password != [] && TestAccountRole(username, password).Some?
  {
  }

  /** The seeded administrator signs in with "admin123" through the database, and with "admin" without it. */
  lemma SeededAdminSignsIn()
    ensures var users := [User(1, AdminName, SeedPassword, None, AdminRole)];
            SignInDecision(AdminName, SeedPassword, true, users) == SignedIn(AdminRole) &&
            SignInDecision(AdminName, "admin", false, users) == SignedIn(AdminRole) &&
            SignInDecision(AdminName, SeedPassword, false, users) == Refused
  {
    var users := [User(1, AdminName, SeedPassword, None, AdminRole)];
    assert users[0].username == AdminName && users[0].password == SeedPassword;
  }

  // ================= sign up =================

  datatype SignUpResult = SignUpFieldsMissing | PasswordsDiffer | UsernameExists | AccountCreated

  /**
   * "Create Account" with the trimmed username and the two passwords as typed: all three are
   * required, the passwords must be equal, and the username must not be taken.
   */
  function SignUpDecision(username: string, password: string, confirm: string, users: seq<User>): SignUpResult {
    if username == [] || password == [] || confirm == [] then SignUpFieldsMissing
    else if password != confirm then PasswordsDiffer
    else if HasUser(users, username) then UsernameExists
    else AccountCreated
  }

  /**
   * An account created by sign-up signs in with the same name and password, as a
   * customer; the seeded administrator's name cannot be taken, so the "admin" test
   * account never shadows a new account.
   */
  lemma SignUpThenSignIn(users: seq<User>, username: string, password: string, id: int)
    requires Unique(users, UserName) && HasUser(users, AdminName)
    requires SignUpDecision(username, password, password, users) == AccountCreated
    ensures SignInDecision(username, password, true, users + [User(id, username, password, None, CustomerRole)]) ==
              SignedIn(CustomerRole)
  {
    var x := User(id, username, password, None, CustomerRole);
    var t := users + [x];
    assert username != AdminName;
    if TestAccountRole(username, password).None? {
      assert Unique(t, UserName) by {
        forall i, j | 0 <= i < j < |t| ensures UserName(t[i]) != UserName(t[j]) {
          if j == |users| {
            assert t[i] in users;
          }
        }
      }
      assert x == t[|users|];
      MatchingRoleOfUser(t, x);
    }
  }

  // ================= the main window's session =================

  class App {
    /** Who is signed in, and with which role; both are null while signed out. */
    var currentUser: Option<string>
    var currentUserRole: Option<string>

    constructor()
      ensures currentUser == None && currentUserRole == None
    {
      currentUser, currentUserRole := None, None;
    }

    /**
     * "Sign In": validateLogin runs, and records a session, only when the test accounts do
     * not apply and the database is connected; a failed attempt leaves the window as it was.
     */
    method SignIn(db: Store, usernameField: string, password: string, connected: bool) returns (r: SignInResult)
      requires db.Valid()
      modifies this`currentUser, this`currentUserRole, db`sessions, db`nextSessionId, db`clock
      ensures db.Valid()
      ensures r == SignInDecision(Trim(usernameField), password, connected, db.users)
      ensures ConsultsStore(Trim(usernameField), password, connected) && r.SignedIn? ==>
                db.sessions == StartSession(old(db.sessions), Trim(usernameField), old(db.nextSessionId), old(db.clock))
      ensures !(ConsultsStore(Trim(usernameField), password, connected) && r.SignedIn?) ==>
                db.sessions == old(db.sessions) && db.nextSessionId == old(db.nextSessionId) && db.clock == old(db.clock)
      ensures r.SignedIn? ==> currentUser == Some(Trim(usernameField)) && currentUserRole == Some(r.role)
      ensures !r.SignedIn? ==> currentUser == old(currentUser) && currentUserRole == old(currentUserRole)
    {
      var username := Trim(usernameField);
      if username == [] || password == [] {
        return FieldsMissing;
      }
      var test := TestAccountRole(username, password);
      if test.Some? {
        r := SignedIn(test.value);
      } else if !connected {
        return Refused;
      } else {
        var role := db.ValidateLogin(username, password);
        if role.None? {
          return Refused;
        }
        r := SignedIn(role.value);
      }
      currentUser, currentUserRole := Some(username), Some(r.role);
    }

    /**
     * "Create Account": userExists is asked first, so addUser (with the role "Customer" and
     * no email) only ever inserts a new row.
     */
    method SignUp(db: Store, usernameField: string, password: string, confirm: string) returns (r: SignUpResult)
      requires db.Valid()
      modifies db`users, db`nextUserId
      ensures db.Valid()
      ensures r == SignUpDecision(Trim(usernameField), password, confirm, old(db.users))
      ensures r == AccountCreated ==>
                db.users == old(db.users) + [User(old(db.nextUserId), Trim(usernameField), password, None, CustomerRole)]
      ensures r != AccountCreated ==> db.users == old(db.users)
    {
      var username := Trim(usernameField);
      if username == [] || password == [] || confirm == [] {
        return SignUpFieldsMissing;
      }
      if password != confirm {
        return PasswordsDiffer;
      }
      var taken := db.UserExists(username);
      if taken {
        return UsernameExists;
      }
      var _ := db.AddUser(username, password, None, CustomerRole);
      r := AccountCreated;
    }

    /** "Logout": the user and the role are forgotten; the database is not touched. */
    method SignOut()
      modifies this`currentUser, this`currentUserRole
      ensures currentUser == None && currentUserRole == None
    {
      currentUser, currentUserRole := None, None;
    }
  }
}
