/**
 * The login session (contexts/AuthContext.tsx): a fixed directory of
 * email / password / role entries, and a session that holds only whether someone
 * is signed in and with which role. Passwords are compared as plain text.
 */
module AuthContext {
  import opened Records

  datatype User = User(email: string, password: string, role: string)

  const MockUsers: seq<User> := [
    User("SuhaniReddy@student.nitandhra.ac.in", "password123", "student"),
    User("student2@student.nitandhra.ac.in", "password123", "student"),
    User("faculty1@faculty.nitandhra.ac.in", "password123", "faculty"),
    User("faculty2@faculty.nitandhra.ac.in", "password123", "faculty"),
    User("hod@hod.nitandhra.ac.in", "password123", "hod")
  ]

  /** The roles the portal's screens are built for. */
  const Roles: set<string> := {"student", "faculty", "hod"}

  function EmailIs(email: string): User -> bool {
    (u: User) => u.email == email
  }

  /** The role `login(email, password)` signs in with, or None when it fails: the
      first entry with exactly that email (case matters) must have that password. */
  function Authenticate(directory: seq<User>, email: string, password: string): (r: Option<string>)
    ensures r.Some? ==> exists i :: (0 <= i < |directory| && directory[i].email == email
      && directory[i].password == password && r.value == directory[i].role
      && forall j :: 0 <= j < i ==> directory[j].email != email)
  {
    match FirstIndex(directory, EmailIs(email))
    case None => None
    case Some(i) => if directory[i].password == password then Some(directory[i].role) else None
  }

  /** Login succeeds exactly when the first entry carrying the email has the
      password; a later entry with the same email never counts. */
  lemma LoginSucceedsIff(directory: seq<User>, email: string, password: string)
    ensures Authenticate(directory, email, password).Some? <==>
      exists i :: (0 <= i < |directory| && directory[i].email == email && directory[i].password == password
        && forall j :: 0 <= j < i ==> directory[j].email != email)
  {
    var found := FirstIndex(directory, EmailIs(email));
    if Authenticate(directory, email, password).Some? {
      var k := found.value;
      assert directory[k].email == email && directory[k].password == password;
    } else {
      forall i | 0 <= i < |directory| && directory[i].email == email && directory[i].password == password
        ensures exists j :: 0 <= j < i && directory[j].email == email
      {
        var k := found.value;
        assert EmailIs(email)(directory[i]);
        assert k != i;
        assert k < i;
      }
    }
  }

  /** Every role in the directory is one of the three the portal knows. */
  lemma DirectoryRolesKnown()
    ensures forall u :: u in MockUsers ==> u.role in Roles
  {
  }

  /** A successful login signs in as "student", "faculty" or "hod". */
  lemma LoginRoleKnown(email: string, password: string)
    ensures Authenticate(MockUsers, email, password).Some? ==>
      Authenticate(MockUsers, email, password).value in Roles
  {
    DirectoryRolesKnown();
    var r := Authenticate(MockUsers, email, password);
    if r.Some? {
      var i :| 0 <= i < |MockUsers| && MockUsers[i].email == email && r.value == MockUsers[i].role;
      assert MockUsers[i] in MockUsers;
    }
  }

  class AuthProvider {
    var isAuthenticated: bool
    var userRole: Option<string>

    /** Signed in exactly when a role is held, and the role is a known one. */
    ghost predicate Valid()
      reads this
    {
      (isAuthenticated <==> userRole.Some?) && (userRole.Some? ==> userRole.value in Roles)
    }

    constructor ()
      ensures !isAuthenticated && userRole == None
      ensures Valid()
    {
      isAuthenticated := false;
      userRole := None;
    }

    /** `login(email, password)`, without the simulated delay: success signs in
        with the entry's role; failure leaves the session as it was. */
    method Login(email: string, password: string) returns (ok: bool)
      modifies this
      ensures ok == Authenticate(MockUsers, email, password).Some?
      ensures ok ==> isAuthenticated && userRole == Authenticate(MockUsers, email, password)
      ensures !ok ==> isAuthenticated == old(isAuthenticated) && userRole == old(userRole)
      ensures old(Valid()) ==> Valid()
    {
      var user := FirstIndex(MockUsers, EmailIs(email));
      if user.Some? && MockUsers[user.value].password == password {
        LoginRoleKnown(email, password);
        isAuthenticated := true;
        userRole := Some(MockUsers[user.value].role);
        return true;
      } else {
        return false;
      }
    }

    /** `logout()` */
    method Logout()
      modifies this
      ensures !isAuthenticated && userRole == None
      ensures Valid()
    {
      isAuthenticated := false;
      userRole := None;
    }
  }
}
