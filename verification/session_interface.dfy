/**
  The session interface: `open_session` binds a request to a session through
  the remote session store, and `save_session` writes it back and sets or
  clears the `session_id` cookie.  Store calls are not made here: each call's
  reply is an argument, and the calls the source would issue are returned as
  a log so that contracts can say which calls happen.
 */
module SessionInterface {
  import opened Wrappers
  import opened PyDict
  import opened Sessions
  import Decimal

  /** `SESSION_EXPIRES_AFTER`: one hour, in seconds. */
  const SessionExpiresAfter: int := 3600

  /** Name of the cookie carrying the session id. */
  const SessionCookie: string := "session_id"

  /**
    What a call to the session store came back with: a status and its decoded
    body, or `Unreachable` for any `requests.exceptions.RequestException`.
   */
  datatype Reply = Answered(status: int, body: Record) | Unreachable

  /** A request sent to the session store; ids travel as URL path segments. */
  datatype StoreCall =
    | FetchCall(sessionId: string)
    | CreateCall(lastUsedAt: Timestamp)
    | UpdateCall(sessionId: string, body: Payload)

  /** A stored session may be reused while its last use plus the window lies strictly after `now`. */
  predicate Fresh(lastUsedAt: Timestamp, now: Timestamp) {
    lastUsedAt + SessionExpiresAfter > now
  }

  /** The cookie names a session the store returned and that has not expired. */
  predicate Reusable(cookie: Option<string>, fetched: Reply, now: Timestamp) {
    cookie.Some? && fetched.Answered? && fetched.status == 200 && Fresh(fetched.body.lastUsedAt, now)
  }

  /** The fetch itself failed to reach the store. */
  predicate FetchFailed(cookie: Option<string>, fetched: Reply) {
    cookie.Some? && fetched.Unreachable?
  }

  /** No cookie, a non-200 fetch or an expired record: a new session must be created. */
  predicate MustCreate(cookie: Option<string>, fetched: Reply, now: Timestamp) {
    !Reusable(cookie, fetched, now) && !FetchFailed(cookie, fetched)
  }

  /** The four ways `open_session` can end. */
  datatype Resolution =
    | Reused(session: Session)
    | Minted(session: Session)
    | Degraded(session: Session)
    | NoSession

  datatype Opened = Opened(resolution: Resolution, calls: seq<StoreCall>)

  /** The create request and what its reply turns into (lines 43-54). */
  function Create(created: Reply): (r: Resolution)
    ensures r.Minted? <==> created.Answered? && created.status == 201
    ensures r.Minted? ==> r.session == FromRecord(created.body)
    ensures r.Degraded? <==> created.Unreachable?
    ensures r.Degraded? ==> r.session == DegradedSession()
    ensures r.NoSession? <==> created.Answered? && created.status != 201
  {
    match created
    case Unreachable => Degraded(DegradedSession())
    case Answered(status, body) =>
      if status == 201 then Minted(FromRecord(body)) else NoSession
  }

  /**
    `open_session`: given the optional `session_id` cookie, the reply to the
    fetch of that id and the reply the create request would get.
   */
  function OpenSession(cookie: Option<string>, fetched: Reply, created: Reply, now: Timestamp): (r: Opened)
    ensures r.resolution.Reused? <==> Reusable(cookie, fetched, now)
    ensures r.resolution.Reused? ==> r.resolution.session == FromRecord(fetched.body)
    ensures r.resolution.Minted? <==> MustCreate(cookie, fetched, now) && created.Answered? && created.status == 201
    ensures r.resolution.Minted? ==> r.resolution.session == FromRecord(created.body)
    ensures r.resolution.NoSession? <==> MustCreate(cookie, fetched, now) && created.Answered? && created.status != 201
    ensures r.resolution.Degraded? <==> FetchFailed(cookie, fetched) || (MustCreate(cookie, fetched, now) && created.Unreachable?)
    ensures r.resolution.Degraded? ==> r.resolution.session == DegradedSession()
    ensures cookie.Some? ==> |r.calls| > 0 && r.calls[0] == FetchCall(cookie.value)
    ensures cookie.None? ==> forall c :: c in r.calls ==> !c.FetchCall?
    ensures CreateCall(now) in r.calls <==> MustCreate(cookie, fetched, now)
    ensures |r.calls| == (if cookie.Some? then 1 else 0) + (if MustCreate(cookie, fetched, now) then 1 else 0)
  {
    match cookie
    case None =>
      Opened(Create(created), [CreateCall(now)])
    case Some(id) =>
      if fetched.Unreachable? then
        Opened(Degraded(DegradedSession()), [FetchCall(id)])
      else if Reusable(cookie, fetched, now) then
        Opened(Reused(FromRecord(fetched.body)), [FetchCall(id)])
      else
        Opened(Create(created), [FetchCall(id), CreateCall(now)])
  }

  /** Without a cookie nothing is fetched, so the fetch reply cannot matter. */
  lemma OpenWithoutCookie(fetched: Reply, other: Reply, created: Reply, now: Timestamp)
    ensures OpenSession(None, fetched, created, now) == OpenSession(None, other, created, now)
    ensures OpenSession(None, fetched, created, now).calls == [CreateCall(now)]
  {
  }

  /** A response cookie: its value and, when set, its expiry time. */
  datatype CookieSetting = CookieSetting(value: string, expires: Option<Timestamp>)

  /** The cookies the response under construction will set, by name. */
  type Cookies = map<string, CookieSetting>

  datatype Saved = Saved(cookies: Cookies, calls: seq<StoreCall>)

  /**
    `save_session`: a session without id clears the cookie and never reaches
    the store; any other session is written back, and only a 200 reply to the
    update sets the cookie to the id.
   */
  function SaveSession(s: Session, cookies: Cookies, updated: Reply, now: Timestamp): (r: Saved)
    ensures s.id.None? ==> r.calls == []
    ensures s.id.None? ==> SessionCookie in r.cookies && r.cookies[SessionCookie] == CookieSetting("", Some(0))
    ensures s.id.Some? ==> r.calls == [UpdateCall(Decimal.Str(s.id.value), ToJson(s, now))]
    ensures s.id.Some? && updated.Answered? && updated.status == 200 ==>
      SessionCookie in r.cookies && r.cookies[SessionCookie] == CookieSetting(Decimal.Str(s.id.value), None)
    ensures s.id.Some? && !(updated.Answered? && updated.status == 200) ==> r.cookies == cookies
    ensures forall n :: n != SessionCookie ==> (n in r.cookies <==> n in cookies)
    ensures forall n :: n != SessionCookie && n in cookies ==> r.cookies[n] == cookies[n]
  {
    match s.id
    case None =>
      Saved(cookies[SessionCookie := CookieSetting("", Some(0))], [])
    case Some(id) =>
      var call := UpdateCall(Decimal.Str(id), ToJson(s, now));
      if updated.Answered? && updated.status == 200 then
        Saved(cookies[SessionCookie := CookieSetting(Decimal.Str(id), None)], [call])
      else
        Saved(cookies, [call])
  }

  /**
    `open_session` as it is meant to behave: a create rejected by the store
    degrades like an unreachable store instead of leaving no session.
   */
  function OpenSessionFailOpen(cookie: Option<string>, fetched: Reply, created: Reply, now: Timestamp): (r: Opened)
    ensures !r.resolution.NoSession?
    ensures r.resolution.Reused? <==> Reusable(cookie, fetched, now)
    ensures r.resolution.Reused? ==> r.resolution.session == FromRecord(fetched.body)
    ensures r.resolution.Minted? <==> MustCreate(cookie, fetched, now) && created.Answered? && created.status == 201
    ensures r.resolution.Minted? ==> r.resolution.session == FromRecord(created.body)
    ensures r.resolution.Degraded? <==> FetchFailed(cookie, fetched) || (MustCreate(cookie, fetched, now) && !(created.Answered? && created.status == 201))
    ensures r.resolution.Degraded? ==> r.resolution.session == DegradedSession()
    ensures cookie.Some? ==> |r.calls| > 0 && r.calls[0] == FetchCall(cookie.value)
    ensures CreateCall(now) in r.calls <==> MustCreate(cookie, fetched, now)
  {
    var first := OpenSession(cookie, fetched, created, now);
    if first.resolution.NoSession? then
      Opened(Degraded(DegradedSession()), first.calls)
    else
      first
  }

  /** The corrected open issues the same calls and differs only where `open_session` returns None. */
  lemma FailOpenAgrees(cookie: Option<string>, fetched: Reply, created: Reply, now: Timestamp)
    ensures OpenSessionFailOpen(cookie, fetched, created, now).calls == OpenSession(cookie, fetched, created, now).calls
    ensures !OpenSession(cookie, fetched, created, now).resolution.NoSession? ==>
      OpenSessionFailOpen(cookie, fetched, created, now) == OpenSession(cookie, fetched, created, now)
  {
  }

  /**
    As written, `open_session` returns no session at all when the store
    answers the create with anything but 201: a fresh visitor with the store
    answering 500 gets None.
   */
  lemma OpenSessionCanReturnNone(body: Record, now: Timestamp)
    ensures OpenSession(None, Unreachable, Answered(500, body), now).resolution == NoSession
    ensures OpenSessionFailOpen(None, Unreachable, Answered(500, body), now).resolution.Degraded?
  {
  }
}
