/** The gate in front of every authenticated route
    (middlewares/current-user-middleware.ts): it reads the verified token
    payload, checks it is present and not expired, looks the user up, and
    either answers the request itself or records the current user and
    passes the request on. */
module CurrentUserMiddleware {
  import opened Common
  import opened Db
  import opened Users

  datatype Decision =
    | Respond(status: int, message: string)
    | Continue(currentUser: User)

  /** `dayjs.unix(exp).isBefore(dayjs())`: the expiry, in seconds, lies
      strictly before the current time, in milliseconds. */
  predicate IsExpired(payload: JwtPayload, nowMs: int)
  {
    payload.exp * 1000 < nowMs
  }

  /** The middleware's three checks, in the order it makes them. */
  function Decide(payload: Option<JwtPayload>, nowMs: int, users: seq<User>): (d: Decision)
    ensures d.Respond? ==> (d.status == 401 && d.message == "Unauthorized") || (d.status == 404 && d.message == "User not found")
    ensures d.Continue? ==> payload.Some? && d.currentUser in users && d.currentUser.id == payload.value.sub
    ensures d.Respond? && d.status == 404 ==> payload.Some? && !IsExpired(payload.value, nowMs)
  {
    if payload.None? then Respond(401, "Unauthorized")
    else if IsExpired(payload.value, nowMs) then Respond(401, "Unauthorized")
    else match FindUser(users, payload.value.sub)
      case None => Respond(404, "User not found")
      case Some(user) => Continue(user)
  }

  /** No payload, or an expired one, is answered 401 whatever the users
      table holds; so an expired token never yields 404. */
  lemma UnauthorizedFirst(payload: Option<JwtPayload>, nowMs: int, users: seq<User>)
    requires payload.None? || IsExpired(payload.value, nowMs)
    ensures Decide(payload, nowMs, users) == Respond(401, "Unauthorized")
  {
  }

  /** A token whose expiry is exactly now is still accepted: the comparison is strict. */
  lemma ExpiryIsStrict(sub: int, exp: int, users: seq<User>)
    requires exists u | u in users :: u.id == sub
    ensures Decide(Some(JwtPayload(sub, exp)), exp * 1000, users).Continue?
    ensures Decide(Some(JwtPayload(sub, exp)), exp * 1000 + 1, users) == Respond(401, "Unauthorized")
  {
  }

  /** A present, unexpired payload whose user is missing is answered 404. */
  lemma UnknownUserNotFound(payload: JwtPayload, nowMs: int, users: seq<User>)
    requires !IsExpired(payload, nowMs)
    requires forall u | u in users :: u.id != payload.sub
    ensures Decide(Some(payload), nowMs, users) == Respond(404, "User not found")
  {
  }

  /** The request goes on exactly when the payload is present, unexpired
      and names an existing user, and then the current user is a stored
      user with the payload's id. */
  lemma ContinueExactly(payload: Option<JwtPayload>, nowMs: int, users: seq<User>)
    ensures Decide(payload, nowMs, users).Continue? <==>
      payload.Some? && !IsExpired(payload.value, nowMs) && exists u | u in users :: u.id == payload.value.sub
    ensures Decide(payload, nowMs, users).Continue? ==>
      Decide(payload, nowMs, users).currentUser in users &&
      Decide(payload, nowMs, users).currentUser.id == payload.value.sub
  {
  }

  /** The request context the middleware reads and writes: the payload the
      token check left, the current user, the response if one was sent,
      and whether `next()` was called. */
  class Context {
    var jwtPayload: Option<JwtPayload>
    var currentUser: Option<User>
    var response: Option<(int, string)>
    var nextCalled: bool

    constructor (payload: Option<JwtPayload>)
      ensures jwtPayload == payload && currentUser == None && response == None && !nextCalled
    {
      jwtPayload := payload;
      currentUser := None;
      response := None;
      nextCalled := false;
    }
  }

  /** One pass of the middleware at time `nowMs`. */
  method Handle(c: Context, db: Database, nowMs: int)
    requires !c.nextCalled
    modifies c
    ensures c.jwtPayload == old(c.jwtPayload)
    ensures match Decide(old(c.jwtPayload), nowMs, db.users)
      case Respond(status, message) =>
        c.response == Some((status, message)) && !c.nextCalled && c.currentUser == old(c.currentUser)
      case Continue(user) =>
        c.currentUser == Some(user) && c.nextCalled && c.response == old(c.response)
  {
    var payload := c.jwtPayload;
    if payload.None? {
      c.response := Some((401, "Unauthorized"));
      return;
    }
    if IsExpired(payload.value, nowMs) {
      c.response := Some((401, "Unauthorized"));
      return;
    }
    var user := FindUser(db.users, payload.value.sub);
    if user.None? {
      c.response := Some((404, "User not found"));
      return;
    }
    c.currentUser := user;
    c.nextCalled := true;
  }
}
