/** The session-token life cycle: the `jwt` callback of the sign-in flow as a pure
    transition from the current token (and the answers of its collaborators) to the next. */
module TokenFlow {
  import opened Wrappers
  import opened Records

  /** Lifetime of an access token, in seconds (one day). */
  const TokenOneDay: int := 24 * 60 * 60
  /** Lifetime of a refresh token, in seconds (one week). */
  const TokenOneWeek: int := 7 * TokenOneDay

  /** The one error a token can carry; it survives into the session. */
  datatype TokenError = RefreshAccessTokenError

  /** The token record: the embedded user claims, both bearer tokens, their absolute expiry
      times (seconds since the epoch), and the sticky error flag. */
  datatype Token = Token(
    user: UserClaims,
    accessToken: string,
    refreshToken: string,
    accessTokenExpired: int,
    refreshTokenExpired: int,
    error: Option<TokenError>)

  /** The answers of the token helper in one call: the access and refresh tokens it would mint
      now, and its verdict on a refresh token. Signing and verifying are not modelled. */
  datatype Signer = Signer(newAccessToken: string, newRefreshToken: string, verify: string -> bool)

  /** The payload of a client "update" trigger. */
  datatype UpdateRequest = UpdateRequest(year: Option<int>, onboardingComplete: bool)

  /** A year request is acted on only when the year is truthy: present and not 0. */
  predicate RequestsYear(req: UpdateRequest) {
    req.year.Some? && req.year.value != 0
  }

  /** The expiry test is strict: a token at exactly its expiry time is still valid. */
  predicate Expired(token: Token, now: int) {
    now > token.accessTokenExpired
  }

  /** An expired token is refreshed when its refresh token verifies and its user still exists. */
  predicate Refreshable(token: Token, signer: Signer, db: Db) {
    signer.verify(token.refreshToken) && FindById(db.users, token.user.id).Some?
  }

  /** Whether the call reaches the branch of the update trigger that reads the stored user. */
  predicate ReachesUpdate(token: Token, login: Option<UserClaims>, update: Option<UpdateRequest>, now: int) {
    && login.None?
    && !Expired(token, now)
    && update.Some?
    && (RequestsYear(update.value) || update.value.onboardingComplete)
  }

  /** Whether the stored user may switch the visible recruitment year to `year`: any user with
      an admin record may; a student only when a participating group of that year is open to
      the student's cohort. */
  predicate YearAccepted(row: UserRow, year: int, groups: seq<Group>) {
    || row.admin.Some?
    || (row.userGroup == "student" && row.student.Some? && YearExists(groups, year, row.student.value))
  }

  /** Whether the stored student profile already records onboarding as complete. */
  predicate OnboardingAccepted(row: UserRow) {
    row.student.Some? && row.student.value.isOnboardingComplete
  }

  /** The update trigger applied to an unexpired token, given the stored row of its user:
      a truthy year takes precedence over the onboarding flag; a rejected request leaves the
      token as it is. */
  function ApplyUpdate(token: Token, req: UpdateRequest, row: UserRow, groups: seq<Group>): (r: Token)
    ensures r.accessToken == token.accessToken && r.refreshToken == token.refreshToken
    ensures r.accessTokenExpired == token.accessTokenExpired && r.refreshTokenExpired == token.refreshTokenExpired
    ensures r.error == token.error
    ensures r.user.id == token.user.id && r.user.name == token.user.name
    ensures r.user.username == token.user.username && r.user.userGroup == token.user.userGroup
    ensures r.user.admin == token.user.admin
    ensures r.user.year != token.user.year ==>
      RequestsYear(req) && r.user.year == req.year && YearAccepted(row, req.year.value, groups)
    ensures r.user.isOnboardingComplete != token.user.isOnboardingComplete ==>
      !RequestsYear(req) && req.onboardingComplete && r.user.isOnboardingComplete && OnboardingAccepted(row)
    ensures RequestsYear(req) && YearAccepted(row, req.year.value, groups) ==> r.user.year == req.year
    ensures !RequestsYear(req) && req.onboardingComplete && OnboardingAccepted(row) ==> r.user.isOnboardingComplete
  {
    if RequestsYear(req) then
      if YearAccepted(row, req.year.value, groups) then token.(user := token.user.(year := req.year))
      else token
    else if req.onboardingComplete && OnboardingAccepted(row) then
      token.(user := token.user.(isOnboardingComplete := true))
    else token
  }

  /** The `jwt` callback. `login` is the user handed over on initial login, `update` the payload
      of a client "update" trigger, `now` the current time in seconds. The precondition stands
      for the callback dereferencing the stored row without checking that it exists. */
  function Jwt(token: Token, login: Option<UserClaims>, update: Option<UpdateRequest>, now: int,
               signer: Signer, db: Db): (r: Token)
    requires ReachesUpdate(token, login, update, now) ==> FindById(db.users, token.user.id).Some?
    // the error flag is sticky: no path clears it, and only a failed refresh raises it
    ensures token.error.Some? ==> r.error.Some?
    ensures r.error != token.error ==>
      login.None? && Expired(token, now) && !Refreshable(token, signer, db) && r.error == Some(RefreshAccessTokenError)
    // a token handed back without the error flag is never past its access expiry
    ensures r.error.None? ==> now <= r.accessTokenExpired
    // only an initial login issues a refresh token or moves its expiry
    ensures login.None? ==> r.refreshToken == token.refreshToken && r.refreshTokenExpired == token.refreshTokenExpired
    // without a login the access expiry never moves backwards
    ensures login.None? ==> token.accessTokenExpired <= r.accessTokenExpired
    // a new access token without a login needs an expired token and a verified refresh token
    ensures login.None? && (r.accessToken != token.accessToken || r.accessTokenExpired != token.accessTokenExpired) ==>
      Expired(token, now) && Refreshable(token, signer, db) && r.accessTokenExpired == now + TokenOneDay
    // the user claims change only on login or through an accepted update request
    ensures r.user != token.user ==> login.Some? || ReachesUpdate(token, login, update, now)
  {
    if login.Some? then
      token.(
        user := login.value,
        accessToken := signer.newAccessToken,
        refreshToken := signer.newRefreshToken,
        accessTokenExpired := now + TokenOneDay,
        refreshTokenExpired := now + TokenOneWeek)
    else if Expired(token, now) then
      if Refreshable(token, signer, db) then
        token.(accessToken := signer.newAccessToken, accessTokenExpired := now + TokenOneDay)
      else
        token.(error := Some(RefreshAccessTokenError))
    else if update.Some? && (RequestsYear(update.value) || update.value.onboardingComplete) then
      ApplyUpdate(token, update.value, FindById(db.users, token.user.id).value, db.groups)
    else
      token
  }

  /** Initial login: the login user becomes the claim, a fresh token pair is issued with
      expiries one day and one week from now, every other field is kept, and neither the
      update trigger, the stored tables nor the refresh verdict are consulted. */
  lemma LoginIssuesFreshPair(token: Token, user: UserClaims, update: Option<UpdateRequest>, now: int,
                             signer: Signer, db: Db, db': Db, verify': string -> bool)
    ensures
      var r := Jwt(token, Some(user), update, now, signer, db);
      && r == token.(user := user, accessToken := signer.newAccessToken, refreshToken := signer.newRefreshToken,
                     accessTokenExpired := now + TokenOneDay, refreshTokenExpired := now + TokenOneWeek)
      && now < r.accessTokenExpired < r.refreshTokenExpired
      && r == Jwt(token, Some(user), None, now, signer.(verify := verify'), db')
  {
  }

  /** Without a login, an unexpired token (including one at exactly its expiry time) passes
      through unchanged when there is no update trigger. */
  lemma UnexpiredPassesThrough(token: Token, now: int, signer: Signer, db: Db)
    requires now <= token.accessTokenExpired
    ensures Jwt(token, None, None, now, signer, db) == token
  {
  }

  /** An expired token whose refresh token verifies and whose user still exists gets a new
      access token valid for one more day; refresh token, its expiry, the claims and any error
      are kept, and an update request in the same call has no effect. */
  lemma ExpiredTokenRefreshed(token: Token, update: Option<UpdateRequest>, now: int, signer: Signer, db: Db)
    requires Expired(token, now)
    requires signer.verify(token.refreshToken) && FindById(db.users, token.user.id).Some?
    ensures
      var r := Jwt(token, None, update, now, signer, db);
      && r == token.(accessToken := signer.newAccessToken, accessTokenExpired := now + TokenOneDay)
      && r.accessTokenExpired > token.accessTokenExpired
      && r.refreshToken == token.refreshToken && r.refreshTokenExpired == token.refreshTokenExpired
  {
  }

  /** An expired token whose refresh token fails to verify, or whose user row is gone, is
      marked with the refresh error and otherwise kept; an update request has no effect. */
  lemma ExpiredTokenFlagged(token: Token, update: Option<UpdateRequest>, now: int, signer: Signer, db: Db)
    requires Expired(token, now)
    requires !signer.verify(token.refreshToken) || FindById(db.users, token.user.id).None?
    ensures Jwt(token, None, update, now, signer, db) == token.(error := Some(RefreshAccessTokenError))
  {
  }

  /** The expiry recorded for the refresh token is never consulted: without a login, changing it
      changes the result in that field only. */
  lemma RefreshExpiryNotConsulted(token: Token, expiry: int, update: Option<UpdateRequest>, now: int,
                                  signer: Signer, db: Db)
    requires ReachesUpdate(token, None, update, now) ==> FindById(db.users, token.user.id).Some?
    ensures Jwt(token.(refreshTokenExpired := expiry), None, update, now, signer, db)
         == Jwt(token, None, update, now, signer, db).(refreshTokenExpired := expiry)
  {
  }

  /** Reading the session again at the same time with the same collaborators changes nothing:
      the transition without a login or an update trigger is idempotent. */
  lemma ReadIsIdempotent(token: Token, now: int, signer: Signer, db: Db)
    ensures
      var once := Jwt(token, None, None, now, signer, db);
      Jwt(once, None, None, now, signer, db) == once
  {
  }

  /** A truthy year request on an unexpired token: with an admin record the year is taken
      as requested; for a student it is taken only when a participating group of that year is
      open to the student's cohort; otherwise the token is unchanged. Nothing else changes. */
  lemma YearUpdate(token: Token, year: int, onboarding: bool, now: int, signer: Signer, db: Db, row: UserRow)
    requires !Expired(token, now) && year != 0
    requires FindById(db.users, token.user.id) == Some(row)
    ensures
      var r := Jwt(token, None, Some(UpdateRequest(Some(year), onboarding)), now, signer, db);
      && (row.admin.Some? ==> r == token.(user := token.user.(year := Some(year))))
      && (row.admin.None? && row.userGroup == "student" && row.student.Some? ==>
            r == if YearExists(db.groups, year, row.student.value)
                 then token.(user := token.user.(year := Some(year))) else token)
      && (row.admin.None? && (row.userGroup != "student" || row.student.None?) ==> r == token)
  {
  }

  /** A student asking for a year that no participating group of the cohort has keeps the
      year the session showed before. */
  lemma StudentYearWithoutGroupKept(token: Token, year: int, now: int, signer: Signer, db: Db, row: UserRow)
    requires !Expired(token, now)
    requires FindById(db.users, token.user.id) == Some(row)
    requires row.admin.None? && row.student.Some?
    requires forall i :: 0 <= i < |db.groups| ==> !(db.groups[i].year == year && InCohort(db.groups[i], row.student))
    ensures Jwt(token, None, Some(UpdateRequest(Some(year), false)), now, signer, db).user.year == token.user.year
  {
  }

  /** An onboarding request (without a truthy year) on an unexpired token marks the claims as
      onboarded exactly when the stored student profile already says so; otherwise the token
      is unchanged. */
  lemma OnboardingUpdate(token: Token, year: Option<int>, now: int, signer: Signer, db: Db, row: UserRow)
    requires !Expired(token, now)
    requires year.None? || year.value == 0
    requires FindById(db.users, token.user.id) == Some(row)
    ensures
      var r := Jwt(token, None, Some(UpdateRequest(year, true)), now, signer, db);
      r == if row.student.Some? && row.student.value.isOnboardingComplete
           then token.(user := token.user.(isOnboardingComplete := true)) else token
  {
  }

  /** Every transition without a login keeps the visible year eligible for the stored user. */
  lemma JwtKeepsEligibleYear(token: Token, update: Option<UpdateRequest>, now: int,
                             signer: Signer, db: Db, row: UserRow)
    requires FindById(db.users, token.user.id) == Some(row)
    requires EligibleYear(token.user.year, row, db.groups)
    ensures EligibleYear(Jwt(token, None, update, now, signer, db).user.year, row, db.groups)
  {
  }
}
