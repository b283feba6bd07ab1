/** Sign-in with username and password (`authorize` of the credentials provider): the
    credential check against the directory service, the lazy creation of the local user with
    its bootstrap admin rule, and the claims handed to the token. */
module SignIn {
  import opened Wrappers
  import opened Records
  import opened TokenFlow

  /** The submitted form; an empty field stands for a missing one. */
  datatype Credentials = Credentials(username: string, password: string)

  /** The profile data the directory service returns (the columns the flow keeps). */
  datatype Profile = Profile(name: string, program: string, admissionYear: int)

  /** The directory service's answers for the submitted credentials: the user group that
      password verification reports (nothing when it rejects the pair), and the profile
      lookup's result. */
  datatype Directory = Directory(group: Option<string>, profile: Option<Profile>)

  /** Why a sign-in is refused. */
  datatype SignInError = MissingCredentials | InvalidCredentials | UserNotFound | UnsupportedRole

  /** Both fields of the form are filled in. */
  predicate Submitted(creds: Credentials) {
    creds.username != "" && creds.password != ""
  }

  /** The directory service accepted the pair: it reported a non-empty user group. */
  predicate Authenticated(dir: Directory) {
    dir.group.Some? && dir.group.value != ""
  }

  /** The roles for which a local user can be created. */
  predicate SupportedRole(group: string) {
    group == "student" || group == "faculty"
  }

  /** The row created for a first-time user of a supported role, given the number of users
      already stored. A student gets a student profile (onboarding not yet complete) and an
      admin record only when it is the first user ever; a faculty member always gets an admin
      record, with permission 1 for the first user and 0 otherwise. */
  function NewUserRow(id: string, username: string, group: string, profile: Profile, userCount: nat): (row: UserRow)
    requires SupportedRole(group)
    ensures row.id == id && row.username == username && row.userGroup == group && row.name == profile.name
    ensures userCount == 0 ==> row.admin == Some(Admin(1))
    ensures userCount != 0 ==> row.admin == if group == "faculty" then Some(Admin(0)) else None
    ensures row.student.Some? <==> group == "student"
    ensures row.student.Some? ==>
      row.student.value == StudentProfile(profile.program, profile.admissionYear, false)
  {
    if group == "student" then
      UserRow(id, profile.name, username, group,
              if userCount == 0 then Some(Admin(1)) else None,
              Some(StudentProfile(profile.program, profile.admissionYear, false)))
    else
      UserRow(id, profile.name, username, group,
              Some(Admin(if userCount == 0 then 1 else 0)),
              None)
  }

  /** The claims sign-in returns for a stored user: identity, group and admin record from the
      row; onboarding as the student profile records it (always complete for a non-student);
      and as year the latest participating-group year open to the user's cohort (over all
      groups for a non-student), absent when there is none. */
  function ClaimsOf(row: UserRow, groups: seq<Group>): (c: UserClaims)
    ensures c.id == row.id && c.name == row.name && c.username == row.username
    ensures c.userGroup == row.userGroup && c.admin == row.admin
    ensures c.isOnboardingComplete <==> row.student.None? || row.student.value.isOnboardingComplete
    ensures c.year.None? <==> forall i :: 0 <= i < |groups| ==> !InCohort(groups[i], row.student)
    ensures c.year.Some? ==>
      exists i :: 0 <= i < |groups| && InCohort(groups[i], row.student) && groups[i].year == c.year.value
    ensures c.year.Some? ==>
      forall i :: 0 <= i < |groups| && InCohort(groups[i], row.student) ==> groups[i].year <= c.year.value
    ensures EligibleYear(c.year, row, groups)
  {
    UserClaims(row.id, row.name, row.username, row.userGroup, row.admin,
               if row.student.Some? then row.student.value.isOnboardingComplete else true,
               LatestYear(groups, row.student))
  }

  /** The user and participating-group tables. The user table only grows here, in creation
      order, so its first row is the first user ever created. */
  class Store {
    var users: seq<UserRow>
    var groups: seq<Group>

    /** The invariant that sign-in is proved to preserve (it does not rely on it): usernames
        are unique, and the first user ever created holds admin permission 1. */
    ghost predicate Valid()
      reads this
    {
      && (forall i, j :: 0 <= i < j < |users| ==> users[i].username != users[j].username)
      && (users != [] ==> users[0].admin == Some(Admin(1)))
    }

    /** A store with no users yet and the given participating groups. */
    constructor (groups: seq<Group>)
      ensures Valid() && users == [] && this.groups == groups
    {
      users := [];
      this.groups := groups;
    }

    /** `authorize`: `dir` holds the directory service's answers for `creds`, and `newId` the
        id the store would generate for a new row. */
    method Authorize(creds: Credentials, dir: Directory, newId: string) returns (r: Result<UserClaims, SignInError>)
      requires Valid()
      modifies this
      ensures Valid()
      ensures groups == old(groups)
      // a refused sign-in writes nothing
      ensures r.Failure? ==> users == old(users)
      // the checks come first, in this order
      ensures !Submitted(creds) ==> r == Failure(MissingCredentials)
      ensures Submitted(creds) && !Authenticated(dir) ==> r == Failure(InvalidCredentials)
      // an existing user is never created again, and its role is not checked again
      ensures Submitted(creds) && Authenticated(dir) && FindByUsername(old(users), creds.username).Some? ==>
        users == old(users) && r == Success(ClaimsOf(FindByUsername(old(users), creds.username).value, groups))
      // a first-time user is created only for a supported role with a directory profile
      ensures Submitted(creds) && Authenticated(dir) && FindByUsername(old(users), creds.username).None? ==>
        if !SupportedRole(dir.group.value) then r == Failure(UnsupportedRole)
        else if dir.profile.None? then r == Failure(UserNotFound)
        else
          var row := NewUserRow(newId, creds.username, dir.group.value, dir.profile.value, |old(users)|);
          users == old(users) + [row] && r == Success(ClaimsOf(row, groups))
      // bootstrap: the first user ever signed in comes back with admin permission 1
      ensures old(users) == [] && r.Success? ==> r.value.admin == Some(Admin(1))
      // a successful sign-in returns the claims of the stored user with that username
      ensures r.Success? ==>
        FindByUsername(users, creds.username).Some? &&
        r.value == ClaimsOf(FindByUsername(users, creds.username).value, groups)
    {
      if !Submitted(creds) {
        return Failure(MissingCredentials);
      }
      if !Authenticated(dir) {
        return Failure(InvalidCredentials);
      }
      var group := dir.group.value;
      var user := FindByUsername(users, creds.username);
      var row: UserRow;
      if user.Some? {
        row := user.value;
      } else {
        var userCount := |users|;
        if group == "student" || group == "faculty" {
          if dir.profile.None? {
            return Failure(UserNotFound);
          }
          row := NewUserRow(newId, creds.username, group, dir.profile.value, userCount);
          users := users + [row];
          NewUserFoundFirst(old(users), row);
        } else {
          return Failure(UnsupportedRole);
        }
      }
      r := Success(ClaimsOf(row, groups));
    }
  }

  /** After appending a row whose username is new, looking that username up finds the row. */
  lemma {:induction false} NewUserFoundFirst(users: seq<UserRow>, row: UserRow)
    requires forall i :: 0 <= i < |users| ==> users[i].username != row.username
    ensures FindByUsername(users + [row], row.username) == Some(row)
  {
    if users != [] {
      assert (users + [row])[1..] == users[1..] + [row];
      NewUserFoundFirst(users[1..], row);
    }
  }

  /** A faculty member holds an admin record from their first sign-in on, so every truthy year
      they request on an unexpired token becomes the year their claims show. */
  lemma FacultyMaySetAnyYear(token: Token, id: string, username: string, profile: Profile, userCount: nat,
                             year: int, now: int, signer: Signer, db: Db)
    requires FindById(db.users, token.user.id) == Some(NewUserRow(id, username, "faculty", profile, userCount))
    requires !Expired(token, now) && year != 0
    ensures Jwt(token, None, Some(UpdateRequest(Some(year), false)), now, signer, db).user.year == Some(year)
  {
  }
}
