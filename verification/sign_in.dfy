/**
  The one piece of session data the pages use: `redirect_to`, the page to
  return to once the user has signed in or registered.  Pages that need a
  signed-in user remember themselves there before sending the visitor to the
  sign-in form; a successful sign-in or registration takes it out again.
 */
module SignIn {
  import opened Wrappers
  import opened PyDict
  import opened Sessions
  import opened SessionInterface
  import opened SessionStore
  import Decimal

  /** The session key holding the page to return to. */
  const RedirectKey: string := "redirect_to"

  /** Where a signed-in user goes when no page was remembered. */
  const DefaultTarget: string := "/me"

  /** A `redirect_to` query argument of the register or sign-in form is kept in the session. */
  function RememberRedirect(s: Session, arg: Option<string>): (r: Session)
    ensures r.id == s.id && r.userId == s.userId
    ensures Valid(s.data) ==> Valid(r.data)
    ensures arg.Some? ==> Get(r.data, RedirectKey) == Some(Str(arg.value))
    ensures arg.None? ==> r == s
    ensures forall k :: k != RedirectKey ==> Get(r.data, k) == Get(s.data, k)
  {
    match arg
    case Some(target) => s.(data := Put(s.data, RedirectKey, Str(target)))
    case None => s
  }

  /** What a page that needs a signed-in user does first. */
  datatype Gate = Proceed | ToSignIn(session: Session)

  /** An anonymous visitor is sent to the sign-in form, with `page` remembered. */
  function RequireSignIn(s: Session, page: string): (r: Gate)
    ensures r.Proceed? <==> s.userId.Some?
    ensures r.ToSignIn? ==> r.session.id == s.id && r.session.userId == s.userId
    ensures r.ToSignIn? ==> Get(r.session.data, RedirectKey) == Some(Str(page))
    ensures r.ToSignIn? && Valid(s.data) ==> Valid(r.session.data)
    ensures r.ToSignIn? ==> forall k :: k != RedirectKey ==> Get(r.session.data, k) == Get(s.data, k)
  {
    if s.userId.None? then ToSignIn(s.(data := Put(s.data, RedirectKey, Str(page)))) else Proceed
  }

  /**
    A successful sign-in or registration: the session now belongs to
    `userId`, and the visitor is sent to the remembered page, or to `/me`
    when none was remembered; the remembered page is forgotten.
   */
  function CompleteSignIn(s: Session, userId: Id): (r: (Value, Session))
    ensures r.1.id == s.id && r.1.userId == Some(userId)
    ensures HasKey(s.data, RedirectKey) ==> Some(r.0) == Get(s.data, RedirectKey)
    ensures !HasKey(s.data, RedirectKey) ==> r.0 == Str(DefaultTarget)
    ensures Valid(s.data) ==> Valid(r.1.data) && !HasKey(r.1.data, RedirectKey)
    ensures Valid(s.data) ==> forall k :: k != RedirectKey ==> Get(r.1.data, k) == Get(s.data, k)
  {
    var signedIn := s.(userId := Some(userId));
    var (target, data) := Pop(signedIn.data, RedirectKey, Str(DefaultTarget));
    (target, signedIn.(data := data))
  }

  /**
    An anonymous visitor who opens `page`, signs in on the next request within
    the session window, ends up back on `page`, signed in, with nothing left
    remembered.
   */
  lemma SignInReturnsToPage(st: Store, s: Session, page: string, userId: Id, now: Timestamp, later: Timestamp)
    requires WellFormed(st)
    requires s.id.Some? && Decimal.Str(s.id.value) in st.records
    requires s.userId.None? && Valid(s.data)
    requires later < now + SessionExpiresAfter
    ensures RequireSignIn(s, page).ToSignIn?
    ensures
      var s1 := RequireSignIn(s, page).session;
      var (st1, cookies) := SaveAgainst(st, s1, map[], now);
      SessionCookie in cookies &&
      var (_, next) := OpenAgainst(st1, Some(cookies[SessionCookie].value), later);
      next.resolution.Reused? &&
      var (target, s2) := CompleteSignIn(next.resolution.session, userId);
      target == Str(page) && s2.userId == Some(userId) && !HasKey(s2.data, RedirectKey)
  {
    var s1 := RequireSignIn(s, page).session;
    SaveThenOpen(st, s1, map[], now, later);
  }
}
