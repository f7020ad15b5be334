/** The per-request session and the `isAuthenticated` guard that every mutating
    photo route, the profile update and logout run before their handler. */
module Auth {
  import opened Http

  /** What login stores in the session: the user's id, login name and display name. */
  datatype SessionUser = SessionUser(id: Id, login_name: string, first_name: string, last_name: string)

  /** The request's session object (`req.session`); `user` is absent until login. */
  class Session {
    var user: Option<SessionUser>

    constructor ()
      ensures user == None
    {
      user := None;
    }
  }

  /** The guard's verdict: proceed with `req.user` bound to the session user, or 401. */
  datatype Guard = Proceed(user: SessionUser) | Unauthenticated

  /** `isAuthenticated`: the request proceeds exactly when there is a session and it
      holds a user, and the user it proceeds with is the session's own. The guard only
      reads the session. */
  function IsAuthenticated(session: Session?): (g: Guard)
    reads session
    ensures g.Proceed? <==> session != null && session.user.Some?
    ensures g.Proceed? ==> g.user == session.user.value
  {
    if session != null && session.user.Some? then Proceed(session.user.value) else Unauthenticated
  }
}
