/** The session object the client sees, and the `session` callback that fills it in from the
    token produced by the `jwt` callback. */
module SessionView {
  import opened Wrappers
  import opened Records
  import opened TokenFlow

  /** The session object the authentication library passes to the `session` callback.
      `expires` is the library's own session expiry, which the callback does not touch. */
  class Session {
    var user: Option<UserClaims>
    var error: Option<TokenError>
    var expires: int

    /** A session as the library creates it, before the callback has filled in the user. */
    constructor (expires: int)
      ensures user.None? && error.None? && this.expires == expires
    {
      user := None;
      error := None;
      this.expires := expires;
    }

    /** The `session` callback: overwrites the session's user with the seven claims the token
        carries (username, name, id, admin, user group, year, onboarding flag) and its error
        with the token's error, in place. */
    method Project(token: Token)
      modifies this
      ensures user == Some(token.user)
      ensures error == token.error
      ensures expires == old(expires)
    {
      user := Some(token.user);
      error := token.error;
    }
  }

  /** One session read as the library performs it: the `jwt` callback on the stored token
      (with the client's update payload, if any), then the `session` callback on its result. */
  method ReadSession(session: Session, token: Token, update: Option<UpdateRequest>, now: int,
                     signer: Signer, db: Db) returns (next: Token)
    requires ReachesUpdate(token, None, update, now) ==> FindById(db.users, token.user.id).Some?
    modifies session
    ensures next == Jwt(token, None, update, now, signer, db)
    ensures session.user == Some(next.user) && session.error == next.error
    ensures session.expires == old(session.expires)
    // an expired token whose refresh fails shows the refresh error, whatever the update asked
    ensures Expired(token, now) && !Refreshable(token, signer, db) ==>
      session.error == Some(RefreshAccessTokenError)
    // a session shown without an error is backed by an access token that has not expired
    ensures session.error.None? ==> now <= next.accessTokenExpired
    // an admin asking for a year on an unexpired token sees that year in the session
    ensures !Expired(token, now) && update.Some? && RequestsYear(update.value) &&
            FindById(db.users, token.user.id).Some? && FindById(db.users, token.user.id).value.admin.Some? ==>
      session.user.value.year == update.value.year
  {
    next := Jwt(token, None, update, now, signer, db);
    session.Project(next);
  }
}
