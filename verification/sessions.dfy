/**
  The `Session` class: a session resource from the session store turned into
  an in-memory dict (`data`) plus the two attributes `id` and `user_id`, and
  back into the body of the store update (`to_json`).
 */
module Sessions {
  import opened Wrappers
  import opened PyDict

  /** Identifiers the session and profile stores assign. */
  type Id = nat

  /** A point in time, in whole seconds. */
  type Timestamp = int

  /** A session resource as the store returns it from a fetch or a create. */
  datatype Record = Record(id: Option<Id>, userId: Option<Id>, lastUsedAt: Timestamp, dataItems: seq<Item>)

  /** The body `to_json` builds for the store update. */
  datatype Payload = Payload(userId: Option<Id>, lastUsedAt: Timestamp, dataItems: seq<Item>)

  /** The in-memory session: `id` is None for a session the store never saw. */
  datatype Session = Session(id: Option<Id>, userId: Option<Id>, data: Dict)

  /**
    `Session(json)`: keeps `id` and `user_id`, and turns the `data_items` list
    into a dict in which a later item overrides an earlier one with the same key.
   */
  function NewSession(id: Option<Id>, userId: Option<Id>, dataItems: seq<Item>): (s: Session)
    ensures s.id == id && s.userId == userId
    ensures Valid(s.data)
    ensures forall k :: Get(s.data, k) == LastFor(dataItems, k)
    ensures Valid(dataItems) ==> s.data == dataItems
  {
    var s := Session(id, userId, Assign([], FromItems(dataItems)));
    if Valid(dataItems) then
      UpdateValidIsCopy(dataItems);
      s
    else
      s
  }

  /** The session built from a store record; `last_used_at` is not read. */
  function FromRecord(rec: Record): (s: Session)
    ensures s.id == rec.id && s.userId == rec.userId
    ensures Valid(s.data)
    ensures forall k :: Get(s.data, k) == LastFor(rec.dataItems, k)
    ensures Valid(rec.dataItems) ==> s.data == rec.dataItems
  {
    NewSession(rec.id, rec.userId, rec.dataItems)
  }

  /** The session a store outage leaves: no id, anonymous, empty data. */
  function DegradedSession(): (s: Session)
    ensures s.id.None? && s.userId.None?
    ensures forall k :: !HasKey(s.data, k)
  {
    NewSession(None, None, [])
  }

  /**
    The `data` setter: clears the dict and fills it from `d`, so the
    session holds exactly `d` and no earlier key survives.
   */
  function SetData(s: Session, d: Dict): (r: Session)
    ensures r.id == s.id && r.userId == s.userId
    ensures Valid(r.data)
    ensures forall k :: HasKey(r.data, k) <==> HasKey(d, k)
    ensures Valid(d) ==> AsMap(r.data) == AsMap(d)
  {
    s.(data := Assign(s.data, d))
  }

  /**
    `to_json()` at time `now`: the user id as it is, `now` as the last use,
    and one `{key, value}` item per dict entry, in the dict's order.
   */
  function ToJson(s: Session, now: Timestamp): (p: Payload)
    ensures p.userId == s.userId && p.lastUsedAt == now
    ensures |p.dataItems| == |s.data|
    ensures Valid(s.data) ==> forall k :: LastFor(p.dataItems, k) == Get(s.data, k)
  {
    var p := Payload(s.userId, now, s.data);
    if Valid(s.data) then
      UpdateValidIsCopy(s.data);
      p
    else
      p
  }

  /** The record the store holds once `p` has been written over the resource `id`. */
  function Stored(id: Option<Id>, p: Payload): Record {
    Record(id, p.userId, p.lastUsedAt, p.dataItems)
  }

  /**
    A session written out by `to_json` and read back by `Session(json)` is
    the same session: same id, same user, same entries in the same order.
   */
  lemma ToJsonRoundTrip(s: Session, now: Timestamp)
    requires Valid(s.data)
    ensures FromRecord(Stored(s.id, ToJson(s, now))) == s
  {
  }

  /**
    A record whose `data_items` repeat no key comes back unchanged from
    `Session(json)` followed by `to_json`: the key/value pairs survive.
   */
  lemma RecordRoundTrip(rec: Record, now: Timestamp)
    requires Valid(rec.dataItems)
    ensures ToJson(FromRecord(rec), now).dataItems == rec.dataItems
    ensures ToJson(FromRecord(rec), now).userId == rec.userId
  {
  }
}
