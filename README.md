# Session-token life cycle of the placement portal's sign-in flow

This project models the authentication core of the placement portal: how a
user signs in with institutional credentials, how the session token is issued,
refreshed and updated afterwards, and how the session the client sees is
projected from that token. All three parts live in `src/server/auth.ts`.

- **Sign-in (`authorize`)**, module `SignIn`. A store class holds the user
  table and the participating-group table. Sign-in runs these steps in order:
  - It rejects a form with a missing field.
  - It rejects credentials the directory service does not accept.
  - It looks the user up by username.
  - A first-time user of role `student` or `faculty` is created, provided the
    directory has a profile for them. Any other role is refused.
  - The first user ever created gets admin permission 1. After that, a
    student gets no admin record and a faculty member gets permission 0.
  - It returns the user's claims. Their `year` is the latest
    participating-group year open to the user's cohort.
- **Token transition (`jwt` callback)**, module `TokenFlow`. This is a pure
  function from the current token to the next. Its inputs are:
  - the login user;
  - the client's "update" payload;
  - the current time `now`, in whole seconds;
  - the token helper's answers;
  - a snapshot of the tables.

  It has four paths. Initial login issues a fresh token pair. An unexpired
  token passes through. An expired token is either refreshed or marked with
  the sticky `RefreshAccessTokenError`. An update request changes the visible
  year or the onboarding flag, after role and eligibility checks.
- **Session projection (`session` callback)**, module `SessionView`. A method
  on the session object overwrites its user and error from the token.
  `ReadSession` composes the two callbacks the way the authentication library
  runs them on each session read.

Module `Records` holds the entities and the table queries. A table is a
sequence in insertion order. `findFirst` is the first matching row, `count`
is the length, and `create` appends a row.

Facts about the code that the model keeps and that are easy to miss:
- **Who may pick any year.** Any stored user with an admin record may pick any
  year (`!!user.admin`, `src/server/auth.ts:123`). That includes a faculty member
  whose permission is 0.
- **When the role is checked.** The role is checked only for a first-time user
  (`src/server/auth.ts:238-331`). An existing user signs in whatever group the
  directory reports now.
- **Refresh-token expiry.** The stored `refreshTokenExpired` is never read. An
  expired access token is refreshed or flagged on the token helper's verdict
  on the refresh token and on whether the user row still exists
  (`src/server/auth.ts:78-97`); the stored refresh expiry plays no part.
- **The profile error.** A missing directory profile throws "User Not Found",
  which the model names `UserNotFound`.

The initial-login path spreads the old token, so it keeps any error flag the
old token carried. The model keeps that behaviour.

## Model

| member | source | states |
|---|---|---|
| `Records.FindById` | src/server/auth.ts:81-85 | A row is found exactly when some stored row has the token user's id, and the row found has that id. |
| `Records.FindByUsername` | src/server/auth.ts:214-236 | A row is found exactly when some stored row has that username, and the row found has it. |
| `Records.FindFirst` | src/server/auth.ts:131-137 | The first-match query: nothing is found exactly when no row satisfies the filter. Otherwise the result satisfies it and no earlier row does. |
| `Records.YearExists` | src/server/auth.ts:131-138 | Holds exactly when some participating group has the requested year and the student's admission year and program. |
| `Records.LatestYear` | src/server/auth.ts:334-347 | The latest year open to the cohort. It is absent exactly when no group is open to the cohort. Otherwise some open group has that year, and every open group's year is at most that. |
| `TokenFlow.ApplyUpdate` | src/server/auth.ts:102-169 | Only `user.year` or `user.isOnboardingComplete` can change. The year changes only to the requested truthy year, and only when accepted; an accepted year request always sets it. Onboarding changes only to true, only without a truthy year, and only when the stored profile already says so; such an accepted request always sets it. |
| `TokenFlow.Jwt` | src/server/auth.ts:56-172 | The error flag is never cleared. It is raised only by a failed refresh of an expired token. A token returned without the error flag is not past its access expiry. Without a login, the refresh token and its expiry never change, and the access expiry never decreases. A new access token needs an expired token, a verified refresh token and a stored user, and it expires one day from now. The claims change only on login or through the update branch. |
| `TokenFlow.LoginIssuesFreshPair` | src/server/auth.ts:58-73 | Initial login sets the login user and a fresh token pair. The access token expires in one day and the refresh token in one week. All other fields, the error included, are kept. The result is the same whatever the update payload, tables or refresh verdict. |
| `TokenFlow.UnexpiredPassesThrough` | src/server/auth.ts:74-171 | Without a login or an update, a token with `now <= accessTokenExpired` is returned unchanged. This includes a token at exactly its expiry. |
| `TokenFlow.ExpiredTokenRefreshed` | src/server/auth.ts:77-94 | For an expired token with a verified refresh token and an existing user, only the access token and its expiry change. The new expiry is `now + TokenOneDay`, later than the old one. An update payload has no effect. |
| `TokenFlow.ExpiredTokenFlagged` | src/server/auth.ts:77-98 | For an expired token whose refresh fails or whose user is gone, the result is the token with `RefreshAccessTokenError` and nothing else changed. An update payload has no effect. |
| `TokenFlow.RefreshExpiryNotConsulted` | src/server/auth.ts:74-98 | Without a login, the stored refresh expiry never influences the result. Changing it changes only that field of the result. |
| `TokenFlow.ReadIsIdempotent` | src/server/auth.ts:74-100 | Two session reads at the same time with the same collaborators give the same token as one read. |
| `TokenFlow.YearUpdate` | src/server/auth.ts:103-146 | On an unexpired token, a truthy year is taken when the user has an admin record. For a student without one, it is taken exactly when a matching group exists. Otherwise the token is unchanged, and no other field ever changes. |
| `TokenFlow.StudentYearWithoutGroupKept` | src/server/auth.ts:130-146 | A student without an admin record who asks for a year that no group of their cohort has keeps their previous year. |
| `TokenFlow.OnboardingUpdate` | src/server/auth.ts:147-168 | When no truthy year is given, an onboarding request sets the flag exactly when the stored student profile is already onboarded. Otherwise the token is unchanged. |
| `TokenFlow.JwtKeepsEligibleYear` | src/server/auth.ts:102-146 | Every non-login transition keeps the visible year eligible for the stored user. Eligible means unset, or the user has an admin record, or a group of that year is open to the user's cohort. |
| `SessionView.Session.Project` | src/server/auth.ts:174-188 | The session's user becomes exactly the token's seven claims, and its error becomes the token's error. The library's expiry is untouched. |
| `SessionView.ReadSession` | src/server/auth.ts:56-188 | A read shows the `jwt` result. An expired token whose refresh fails shows the refresh error. A session without an error is backed by an unexpired access token. An admin's requested year shows up in the session. |
| `SignIn.NewUserRow` | src/server/auth.ts:238-331 | When no user exists yet, the new row gets admin permission 1. Later, a faculty member gets permission 0 and a student gets no admin record. Only a student gets a student profile, which starts not onboarded. |
| `SignIn.ClaimsOf` | src/server/auth.ts:334-359 | The claims copy identity, group and admin record from the row. Onboarding is true for a non-student. The year is absent exactly when no group is open to the user's cohort. Otherwise some open group has that year and no open group has a later one, for admins as for everyone else. |
| `SignIn.Store.Authorize` | src/server/auth.ts:203-360 | The checks run in order: missing credentials, then rejected credentials, then an unsupported role or missing profile for a new user. Every refusal writes nothing. An existing user is never re-created. A new user is appended as `NewUserRow`. The first user comes back with admin permission 1. Usernames stay unique and the first row keeps admin permission 1. |
| `SignIn.NewUserFoundFirst` | src/server/auth.ts:214-236 | Once a user with a new username is appended, looking that username up finds the new row. |
| `SignIn.FacultyMaySetAnyYear` | src/server/auth.ts:298-309 | A faculty member created at sign-in always has an admin record. So every truthy year they request on an unexpired token becomes their visible year. |

## Left out

- Token signing and verification: `src/server/utils/jwtHelper` is not part of this model. The tokens it mints are given as strings, and its verdict on a refresh token is given as a function.
- `TokenOneDay` and `TokenOneWeek` are taken as 86400 and 604800 seconds, as the helper's names `tokenOneDay` and `tokenOnWeek` say. The properties rely only on `0 < TokenOneDay < TokenOneWeek`.
- Directory service: the password check and the profile lookup are network calls. They are given as their answers for the submitted credentials.
- The relational store is two in-memory tables. ORM behaviour is not modelled, and neither is the `|| null` coercion in the group query: a missing student profile simply matches no group.
- Generated user ids: the new row's id is a parameter. The store does not enforce id uniqueness.
- Time is a whole number of seconds supplied by the caller, not the floating-point `Date.now() / 1000`.
- `TokenFlow.Jwt`: requires the stored user row to exist when the update branch is reached. The callback would dereference `null` there.
- `SignIn.Store.Authorize`: modelled as one atomic step that compares strings exactly. In the code, the lookup, the count and the create are separate awaited queries, and if the database is MySQL, as the older Drizzle schema in `src/server/db/schema/user.ts` suggests, its default collation ignores case. So two concurrent first sign-ins can both see a count of 0 and both get admin permission 1. Two concurrent sign-ins with the same new username, or, under such a collation, with usernames that differ only in case, can both miss the lookup and both create a row, because no unique constraint on `username` is visible in `src/server/db/schema/user.ts` (line 33 is commented out). The store invariant (unique usernames, first user with permission 1) therefore holds only under this sequential, exact-comparison model.
- An absent token in the `jwt` and `session` callbacks is not modelled, because the library always passes one. An absent update payload (`session.info`) is not modelled either.
- A year that is `NaN` is not modelled: a requested year is truthy when present and not 0.
- A missing credentials object is treated like empty fields.
- Profile columns that sign-in only copies into the new row are left out: e-mail, duration, semester, credits and CGPA. So are a group's minimum CGPA and credits, which the flow never reads.
- A new student profile's onboarding flag is taken to start as false. The student table's schema is not part of this model.
- Library plumbing is not modelled: `getServerSession`, the database adapter, the 30-day session ceiling and the sign-in page setting.
