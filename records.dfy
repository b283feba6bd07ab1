/** The records of the sign-in flow and the table queries it issues.
    The relational store is modelled as two tables held in insertion order:
    `findFirst` is the first matching row, `count` is the length of the table. */
module Records {
  import opened Wrappers

  /** Admin extension of a user: its permission mask. */
  datatype Admin = Admin(permissions: int)

  /** Student extension of a user; only the columns the flow reads. */
  datatype StudentProfile = StudentProfile(program: string, admissionYear: int, isOnboardingComplete: bool)

  /** A row of the user table together with its one-to-one admin and student extensions. */
  datatype UserRow = UserRow(
    id: string,
    name: string,
    username: string,
    userGroup: string,
    admin: Option<Admin>,
    student: Option<StudentProfile>)

  /** A participating group: the cohort (admission year, program) that takes part in the
      recruitment cycle labelled `year`. */
  datatype Group = Group(year: int, admissionYear: int, program: string)

  /** The user claims that sign-in returns, the token carries and the session shows. */
  datatype UserClaims = UserClaims(
    id: string,
    name: string,
    username: string,
    userGroup: string,
    admin: Option<Admin>,
    isOnboardingComplete: bool,
    year: Option<int>)

  /** A snapshot of the two tables the flow reads. */
  datatype Db = Db(users: seq<UserRow>, groups: seq<Group>)

  /** `findFirst`: the first row that satisfies `p`, or nothing. */
  function FindFirst<T>(rows: seq<T>, p: T -> bool): (r: Option<T>)
    ensures r.None? <==> forall i :: 0 <= i < |rows| ==> !p(rows[i])
    ensures r.Some? ==>
      exists i :: 0 <= i < |rows| && rows[i] == r.value && p(rows[i]) &&
        forall j :: 0 <= j < i ==> !p(rows[j])
  {
    if rows == [] then None
    else if p(rows[0]) then Some(rows[0])
    else FindFirst(rows[1..], p)
  }

  /** The user row with the given id, as the token refresh and the update trigger look it up.
      Which of several matching rows is found is deliberately not promised: ids are a primary
      key in the database; the model does not rely on their uniqueness. */
  function FindById(users: seq<UserRow>, id: string): (r: Option<UserRow>)
    ensures r.None? <==> forall i :: 0 <= i < |users| ==> users[i].id != id
    ensures r.Some? ==> r.value.id == id && r.value in users
  {
    FindFirst(users, (u: UserRow) => u.id == id)
  }

  /** The user row with the given username, as sign-in looks it up. Which of several matching
      rows is found is deliberately not promised: sign-in keeps usernames unique. */
  function FindByUsername(users: seq<UserRow>, username: string): (r: Option<UserRow>)
    ensures r.None? <==> forall i :: 0 <= i < |users| ==> users[i].username != username
    ensures r.Some? ==> r.value.username == username && r.value in users
  {
    FindFirst(users, (u: UserRow) => u.username == username)
  }

  /** Whether group `g` is open to the cohort: with a student profile, the group's admission
      year and program must be the student's; without one, every group qualifies. */
  predicate InCohort(g: Group, cohort: Option<StudentProfile>) {
    cohort.None? || (g.admissionYear == cohort.value.admissionYear && g.program == cohort.value.program)
  }

  /** Whether some participating group with label `year` is open to the student. */
  predicate YearExists(groups: seq<Group>, year: int, student: StudentProfile)
    ensures YearExists(groups, year, student) <==>
      exists i :: 0 <= i < |groups| && groups[i].year == year && InCohort(groups[i], Some(student))
  {
    FindFirst(groups, (g: Group) => g.year == year && InCohort(g, Some(student))).Some?
  }

  /** The year of the first group in descending year order among those open to the cohort:
      the greatest such year, or nothing when no group is open to it. */
  function LatestYear(groups: seq<Group>, cohort: Option<StudentProfile>): (r: Option<int>)
    ensures r.None? <==> forall i :: 0 <= i < |groups| ==> !InCohort(groups[i], cohort)
    ensures r.Some? ==> exists i :: 0 <= i < |groups| && InCohort(groups[i], cohort) && groups[i].year == r.value
    ensures r.Some? ==> forall i :: 0 <= i < |groups| && InCohort(groups[i], cohort) ==> groups[i].year <= r.value
  {
    if groups == [] then None
    else
      var rest := LatestYear(groups[1..], cohort);
      if !InCohort(groups[0], cohort) then rest
      else if rest.Some? && groups[0].year <= rest.value then rest
      else Some(groups[0].year)
  }

  /** The visible year is one the stored user may see: unset, or the user has an admin
      record, or some participating group of that year is open to the user's cohort. */
  ghost predicate EligibleYear(year: Option<int>, row: UserRow, groups: seq<Group>) {
    || year.None?
    || row.admin.Some?
    || exists i :: 0 <= i < |groups| && groups[i].year == year.value && InCohort(groups[i], row.student)
  }
}
