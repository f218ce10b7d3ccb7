/**
  A reference session store, used to state what the session interface
  achieves across requests: resources keyed by the id path segment, a create
  that assigns the next unused id, and an update that overwrites the user,
  last-use time and data of an existing resource.  The real store is a remote
  service; this one answers every call and never fails.
 */
module SessionStore {
  import opened Wrappers
  import opened PyDict
  import opened Sessions
  import opened SessionInterface
  import Decimal

  datatype Store = Store(records: map<string, Record>, next: Id)

  /** Every resource lives under the decimal form of its own id, and that id is below `next`. */
  ghost predicate WellFormed(st: Store) {
    forall p :: p in st.records ==>
      st.records[p].id.Some? && Decimal.Str(st.records[p].id.value) == p && st.records[p].id.value < st.next
  }

  /** The body of a 404 reply, which the session interface never reads. */
  function NotFoundBody(): Record {
    Record(None, None, 0, [])
  }

  /** The next id the store assigns is not in use yet. */
  lemma NextIsUnused(st: Store)
    requires WellFormed(st)
    ensures Decimal.Str(st.next) !in st.records
  {
    if Decimal.Str(st.next) in st.records {
      var rec := st.records[Decimal.Str(st.next)];
      Decimal.StrInjective(rec.id.value, st.next);
    }
  }

  /** The store's answer to one call, and the store after it. */
  function Serve(st: Store, call: StoreCall): (r: (Store, Reply))
    requires WellFormed(st)
    ensures WellFormed(r.0)
    ensures call.FetchCall? ==> r.0 == st
    ensures call.FetchCall? ==> (r.1.Answered? && r.1.status == 200 <==> call.sessionId in st.records)
    ensures call.FetchCall? && call.sessionId in st.records ==> r.1.body == st.records[call.sessionId]
    ensures call.CreateCall? ==> (r.1.Answered? && r.1.status == 201 && r.1.body.id == Some(st.next)
      && Decimal.Str(st.next) !in st.records && r.0.records.Keys == st.records.Keys + {Decimal.Str(st.next)})
    ensures call.UpdateCall? ==> r.0.records.Keys == st.records.Keys
  {
    match call
    case FetchCall(p) =>
      if p in st.records then (st, Answered(200, st.records[p])) else (st, Answered(404, NotFoundBody()))
    case CreateCall(t) =>
      NextIsUnused(st);
      var rec := Record(Some(st.next), None, t, []);
      (Store(st.records[Decimal.Str(st.next) := rec], st.next + 1), Answered(201, rec))
    case UpdateCall(p, body) =>
      if p in st.records then
        var rec := Stored(st.records[p].id, body);
        (st.(records := st.records[p := rec]), Answered(200, rec))
      else
        (st, Answered(404, NotFoundBody()))
  }

  /** Save `s` at `now` against the store: the new store and the response cookies. */
  function SaveAgainst(st: Store, s: Session, cookies: Cookies, now: Timestamp): (r: (Store, Cookies))
    requires WellFormed(st)
    ensures WellFormed(r.0)
  {
    match s.id
    case None => (st, SaveSession(s, cookies, Unreachable, now).cookies)
    case Some(id) =>
      var (st', reply) := Serve(st, UpdateCall(Decimal.Str(id), ToJson(s, now)));
      (st', SaveSession(s, cookies, reply, now).cookies)
  }

  /**
    `open_session` for a request carrying `cookie` at `now`, against the
    store.  This store is always reachable and answers every create with 201,
    so the request never ends with a degraded session or none.
   */
  function OpenAgainst(st: Store, cookie: Option<string>, now: Timestamp): (r: (Store, Opened))
    requires WellFormed(st)
    ensures WellFormed(r.0)
    ensures r.1.resolution.Reused? || r.1.resolution.Minted?
  {
    var fetched := if cookie.Some? then Serve(st, FetchCall(cookie.value)).1 else Unreachable;
    if MustCreate(cookie, fetched, now) then
      var (st', created) := Serve(st, CreateCall(now));
      (st', OpenSession(cookie, fetched, created, now))
    else
      (st, OpenSession(cookie, fetched, Unreachable, now))
  }

  /**
    A stored session saved at `now` and first again within the window, with
    the cookie the save issued, comes back as the same session.
   */
  lemma SaveThenOpen(st: Store, s: Session, cookies: Cookies, now: Timestamp, later: Timestamp)
    requires WellFormed(st)
    requires s.id.Some? && Decimal.Str(s.id.value) in st.records
    requires Valid(s.data)
    requires later < now + SessionExpiresAfter
    ensures SessionCookie in SaveAgainst(st, s, cookies, now).1
    ensures
      var (st', cookies') := SaveAgainst(st, s, cookies, now);
      var cookie := cookies'[SessionCookie].value;
      cookie == Decimal.Str(s.id.value) &&
      OpenAgainst(st', Some(cookie), later).1 == Opened(Reused(s), [FetchCall(cookie)])
  {
    var id := s.id.value;
    var path := Decimal.Str(id);
    var (st', reply) := Serve(st, UpdateCall(path, ToJson(s, now)));
    var prior := st.records[path];
    Decimal.StrInjective(prior.id.value, id);
    assert st'.records[path] == Stored(s.id, ToJson(s, now));
    ToJsonRoundTrip(s, now);
  }

  /** A cookie naming no stored session leads to a newly created one under the next id. */
  lemma UnknownCookieCreates(st: Store, cookie: string, now: Timestamp)
    requires WellFormed(st)
    requires cookie !in st.records
    ensures
      var (st', first) := OpenAgainst(st, Some(cookie), now);
      first.resolution.Minted? && first.resolution.session.id == Some(st.next)
      && first.calls == [FetchCall(cookie), CreateCall(now)]
      && Decimal.Str(st.next) !in st.records && Decimal.Str(st.next) in st'.records
  {
  }

  /**
    A session last used a full window or more before `now` is replaced by a
    new one under a different id, although the fetch succeeds.
   */
  lemma ExpiredIsReplaced(st: Store, cookie: string, now: Timestamp)
    requires WellFormed(st)
    requires cookie in st.records
    requires now >= st.records[cookie].lastUsedAt + SessionExpiresAfter
    ensures
      var (st', first) := OpenAgainst(st, Some(cookie), now);
      first.resolution.Minted? && first.resolution.session.id == Some(st.next)
      && first.resolution.session.id != st.records[cookie].id
  {
  }

  /**
    The life of a new visitor: the first request creates a session, the
    handler stores `d` in it, the save issues the cookie, and the next request
    within the window finds exactly `d` again.
   */
  lemma FirstVisitRoundTrip(st: Store, d: Dict, now: Timestamp, later: Timestamp)
    requires WellFormed(st)
    requires Valid(d)
    requires later < now + SessionExpiresAfter
    ensures
      var (st1, first) := OpenAgainst(st, None, now);
      first.resolution.Minted? &&
      var s := SetData(first.resolution.session, d);
      var (st2, cookies) := SaveAgainst(st1, s, map[], now);
      SessionCookie in cookies &&
      var (_, second) := OpenAgainst(st2, Some(cookies[SessionCookie].value), later);
      second.resolution.Reused? && second.resolution.session.data == d
  {
    var (st1, first) := OpenAgainst(st, None, now);
    var s := SetData(first.resolution.session, d);
    assert s.data == d;
    assert Decimal.Str(st.next) in st1.records;
    SaveThenOpen(st1, s, map[], now, later);
  }
}
