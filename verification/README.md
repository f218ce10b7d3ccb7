# Session lifecycle and lesson lists of the tutoring web gateway

This project models, in Dafny, the two parts of the tutoring gateway that hold
real logic:

- **The session interface** (`session_interface.py`). Each request is bound to
  a session record kept by a remote session store. `open_session` takes the
  `session_id` cookie and then either reuses the stored session, creates a new
  one, or falls back to a degraded session with no id. `save_session` writes
  the session back and then sets the cookie, clears it, or leaves it alone. A
  `Session` is a Python dict of ad-hoc data plus `id` and `user_id`. It is
  built from the store's `data_items` list and written back by `to_json`.
- **The lesson pages' list logic** (`frontend.py`):
  - which lessons a tutor or a student is shown;
  - how a lesson page picks its lesson and the student's own answer;
  - how a student's answer is submitted (upsert);
  - how a tutor's mark is recorded;
  - how the `redirect_to` page remembered in the session is used after a
    sign-in or a registration.

Modules:

- `Wrappers` (`wrappers.dfy`): `Option` and `Result`.
- `PyDict` (`pydict.dfy`): Python's `dict` with string keys, modelled as an
  insertion-ordered association list. It covers `d[k] = v`, `get`, `pop`,
  `update`, clear-and-update, and the dict comprehension. `AsMap` gives the
  key-to-value map a dict stands for.
- `Decimal` (`decimal.dfy`): `str(n)` for the numeric session ids, with its
  inverse, so distinct ids give distinct cookies.
- `Sessions` (`sessions.dfy`): the session record, `Session(json)`, the `data`
  setter and `to_json`.
- `SessionInterface` (`session_interface.dfy`): `open_session` and
  `save_session`.
  - Each store call is an argument: the reply it got, `Answered(status, body)`
    or `Unreachable` for a `RequestException`.
  - Each member returns the log of store calls it issues.
  - The response's cookies are a map that `save_session` updates.
- `SessionStore` (`session_store.dfy`): a reference session store that always
  answers. It is a partner definition, not part of the gateway. Against it,
  the lemmas state what the interface achieves across requests: a saved
  session comes back when the next request arrives within the window, an
  unknown or expired cookie leads to a fresh id, and a new visitor's data
  survives the round trip.
- `Lessons` (`lessons.dfy`): lesson selection, lesson and answer lookup,
  answer upsert and marking.
- `SignIn` (`sign_in.dfy`): remembering `redirect_to`, and popping it on a
  successful sign-in or registration.

Timestamps are whole seconds. The expiry window is `SESSION_EXPIRES_AFTER`
from `settings.py:6`, one hour, which is 3600 seconds.

Three behaviours of the code that the model keeps as written:

- A session is reused only while `last_used_at + window > now`, strictly. A
  session exactly one window old is replaced.
- A transport failure on the fetch degrades the session at once; no create is
  attempted. The whole body of `open_session` sits in one `try`.
- A create answered with a status other than 201 makes `open_session` return
  `None`, not a degraded session (see Findings).

## Model

| member | source | states |
|---|---|---|
| PyDict.FromItems | session_interface.py:14 | the comprehension over `data_items` gives a duplicate-free dict in which every key maps to the value of its last item |
| PyDict.Update | session_interface.py:23 | `update` assigns the items in order: a key's value is that of its last item, and keys not among the items keep their old value |
| PyDict.UpdateValidIsCopy | session_interface.py:14 | building a dict from a list that repeats no key gives back that list, order included |
| PyDict.Assign | session_interface.py:20-23 | clearing and then updating leaves exactly the keys of the new dict, and a copy of it, with no earlier key surviving |
| PyDict.Put | frontend.py:98 | assigning a key makes it map to the value and leaves every other key's lookup unchanged; a new key goes to the end |
| PyDict.Pop | frontend.py:124 | `pop(k, default)` returns the stored value or the default, and removes `k` while leaving every other key's lookup unchanged |
| PyDict.PutThenPop | frontend.py:98-124 | remembering a value under a key and popping it later returns that value, and the dict ends up without the key |
| Sessions.NewSession | session_interface.py:10-14 | `id` and `user_id` are kept; each key of `data_items` maps to its last value; a duplicate-free `data_items` becomes the dict unchanged |
| Sessions.FromRecord | session_interface.py:10-14 | a session built from a store record has the record's id and user, and its data items as a dict |
| Sessions.DegradedSession | session_interface.py:50-54 | the fallback session has no id, no user and empty data |
| Sessions.SetData | session_interface.py:20-23 | after `data = d` the session holds exactly the keys of `d`, with `d`'s values, and keeps its id and user |
| Sessions.ToJson | session_interface.py:25-30 | the body carries the user id unchanged, `now` as last use, and one item per dict entry, so the items give back each key's value |
| Sessions.ToJsonRoundTrip | session_interface.py:10-30 | a session written by `to_json` and rebuilt by `Session(json)` is the same session |
| Sessions.RecordRoundTrip | session_interface.py:10-30 | a store record without repeated keys comes back from `Session(json)` and `to_json` with the same items and user |
| Decimal.Str | session_interface.py:62-64 | `str(id)` is a non-empty string of digits without leading zeros |
| Decimal.ParseStr | session_interface.py:62-64 | reading the digits of `str(id)` back gives `id`, so the cookie value determines the id |
| Decimal.StrInjective | session_interface.py:64 | distinct session ids give distinct cookie values |
| SessionInterface.Create | session_interface.py:43-54 | a create answered 201 gives the created session, an unreachable store the degraded one, and anything else no session |
| SessionInterface.OpenSession | session_interface.py:34-54 | reuse exactly when the cookie is there, the fetch answers 200 and the record is fresh; create exactly otherwise unless the fetch was unreachable; degrade exactly on an unreachable store; None exactly on a non-201 create; the calls issued match |
| SessionInterface.OpenWithoutCookie | session_interface.py:36-43 | without a cookie nothing is fetched: only the create is issued and the fetch reply does not matter |
| SessionInterface.SaveSession | session_interface.py:56-66 | no id: no store call, cookie cleared; an id: one update of `to_json`, cookie set to `str(id)` only on a 200, otherwise the cookies left exactly as they were; other cookies never touched |
| SessionInterface.OpenSessionFailOpen | session_interface.py:34-54 | the corrected open never leaves the request without a session: it reuses and creates exactly as `open_session` does, and degrades on an unreachable store or a rejected create |
| SessionInterface.FailOpenAgrees | session_interface.py:34-54 | the corrected open issues the same store calls as `open_session` and gives the same outcome whenever `open_session` returns a session |
| SessionInterface.OpenSessionCanReturnNone | session_interface.py:46-48 | a fresh visitor whose create is answered 500 gets no session |
| SessionStore.OpenAgainst | session_interface.py:34-54 | against a store that is always reachable and answers every create with 201, `open_session` always reuses or creates a session, never degrading and never returning `None` |
| SessionStore.SaveThenOpen | session_interface.py:34-66 | a stored session saved and opened again within the window, with the cookie the save issued, comes back equal to what was saved |
| SessionStore.UnknownCookieCreates | session_interface.py:36-48 | a cookie naming no stored session leads to a fetch, a create and a new session under an unused id |
| SessionStore.ExpiredIsReplaced | session_interface.py:38-48 | a session at least one window old is replaced by a new one with a different id although the fetch succeeds |
| SessionStore.FirstVisitRoundTrip | session_interface.py:20-66 | a new visitor's data, saved at the end of the first request, is found unchanged by the next request within the window |
| Lessons.TutorIdFor | frontend.py:202 | the lessons queried are those of the student's tutor, or of the user themself when not a student |
| Lessons.StudentSharesTutorLessons | frontend.py:202-213 | a student and the tutor named in their profile query the same lessons |
| Lessons.SelectLessons | frontend.py:217-223 | the selection is a subsequence of the fetched lessons; for a tutor it holds exactly the lessons with an unmarked answer; for anyone else, exactly those with a task the user has not answered; multiplicities are kept |
| Lessons.SelectedWereFetched | frontend.py:219-223 | every selected lesson was fetched and meets the role's condition |
| Lessons.FirstOrNone | frontend.py:284-285 | the lesson found is None for an empty result and its first element otherwise |
| Lessons.MatchingIndices | frontend.py:347-348 | the index list holds exactly the positions of the student's answers, in increasing order |
| Lessons.MatchingCount | frontend.py:349-350 | the index list is empty exactly when the student has no answer, is `[i]` when `i` is their only answer, and has two or more entries when they have two answers |
| Lessons.StudentAnswer | frontend.py:292-296 | the lesson page shows no answer when the student has none, their answer when they have one, and fails when they have two |
| Lessons.UpsertAnswer | frontend.py:344-362 | no answer yet: one unmarked answer by the student is appended; one answer: only it changes, to the new text with its mark withdrawn, length kept; two answers: failure |
| Lessons.MarkAnswer | frontend.py:368-379 | succeeds exactly when the student has exactly one answer; then only that answer's mark and update time change and the length is kept |
| Lessons.SubmittedAnswerIsShown | frontend.py:344-360 | after a successful submission the page shows the submitted text unmarked, the student's list no longer offers the lesson, and the tutor's list does |
| Lessons.MarkingLastAnswerClearsLesson | frontend.py:372-377 | marking the only unmarked answer removes the lesson from the tutor's list |
| SignIn.RememberRedirect | frontend.py:97-98 | a `redirect_to` argument is stored in the session under `redirect_to`; every other key is unchanged |
| SignIn.RequireSignIn | frontend.py:188-190 | an anonymous visitor is sent to sign in with the page remembered under `redirect_to` and every other key unchanged; a signed-in user proceeds |
| SignIn.CompleteSignIn | frontend.py:121-124 | the session gets the user, the target is the remembered page or `/me`, and `redirect_to` is removed while every other key stays |
| SignIn.SignInReturnsToPage | frontend.py:186-190 | an anonymous visitor sent to sign in who signs in on the next request within the window is sent back to the page, signed in, with nothing remembered |

## Findings

| source | as written | input that shows it | evidently intended | confidence | as-written member | corrected member |
|---|---|---|---|---|---|---|
| session_interface.py:46-48 | when the store answers the create with a status other than 201, `open_session` falls off the end and returns `None` | no cookie, create answered 500 | degrade to the id-less session, as for an unreachable store, so that handlers can read `session.user_id` | medium, not executed | SessionInterface.OpenSessionCanReturnNone | SessionInterface.OpenSessionFailOpen |

`SessionInterface.OpenSession` models the code as written. The request-level
lemmas in `SessionStore` and `SignIn` are stated about it too: the reference
store answers every create with 201, so `OpenAgainst` never reaches the `None`
case.

## Left out

- HTTP itself is not modelled: URLs, `requests` calls, Flask request and response objects, templates and redirects. Store replies are values, and the calls issued are returned as a log.
- The remote session, profile and lessons services are not modelled. `SessionStore` is a reference store used only to state round trips; it is not the real service.
- JSON decoding failures and missing keys in replies (`KeyError`, decode errors) are not modelled. Bodies are assumed to have the fields read.
- Dates are not parsed or rendered (`tools.py` is not part of this model). Timestamps are integers. The two `datetime.now()` calls of one `open_session` are the same `now`.
- Session values are JSON scalars only: null, booleans, integers and strings. Nested lists and objects are not modelled.
- Ids are non-negative integers, as the stores assign them.
- What Flask does when `open_session` returns `None` is not modelled. The model stops at the `NoSession` outcome.
- Decoding the `redirect_to` query argument (`urldecode`) is not modelled. The argument is taken as already decoded.
- Profile pages, registration form fields, password hashing and photo upload are not modelled. They are pass-through calls or file-system writes.
- The task creation and task update branches of `update_lesson` are not modelled. They forward form fields to the tasks service.
- In `get_lesson`, the tutor's view adds student names with one profile call per answer. That view is not modelled.
- Handlers call `int(student_id)` on a form field in the mark branch. That parse is not modelled: the student id is given as a number.
- A new answer is sent without a `mark` key. It is modelled as an unmarked answer, on the assumption that the lessons service stores null there.
- PyDict.Assign: the model always makes a copy of `e`. In the source, `self.clear()` followed by `self.update(data)` empties the session when `data` is the session object itself. No caller assigns a session's data to itself, and values have no identity in the model.
- Sessions.SetData: inherits the copy from `PyDict.Assign`, so `session.data = session` is not modelled.
- Lessons.FreshAnswer: one `now` is used for `created_at` and `last_updated_at`. The source reads them from two separate `datetime.now()` calls, which may differ by the time between them.
- Last-writer-wins races between concurrent requests on the same session are not modelled.
- Lessons.SelectLessons: the role is an argument. The profile fetch that yields it (`None` when the profile service is unreachable) is not modelled.
