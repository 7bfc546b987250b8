/** The session store: user records kept under namespaced keys of an
    expiring key/value store (src/services/session.ts).

    The store is a map from key to payload and absolute expiry instant, read
    against a clock in whole seconds; an entry is gone once the clock reaches
    its expiry, as with Redis's SETEX. */
module Sessions {
  import opened Wrappers
  import opened UserCodec

  /** ms("1d"): the duration used when SESSION_DURATION is not configured. */
  const DefaultDurationMs: nat := 86_400_000

  function DurationSecs(ms: nat): nat { ms / 1000 }

  /** SESSION_DURATION_IN_SECS for the default duration. */
  const SessionDurationInSecs: nat := DurationSecs(DefaultDurationMs)

  lemma DefaultDurationIsOneDay()
    ensures SessionDurationInSecs == 24 * 60 * 60
  {
  }

  datatype Entry = Entry(payload: string, expiresAt: int)

  type Store = map<string, Entry>

  /** What `create` returns: the new id joined with the user's fields. */
  datatype UserSession = UserSession(sessionId: string, user: UserData)

  /** The key of a session: `<app>:session:<id>`. */
  function SessionKey(app: string, sessionId: string): (k: string)
    ensures app + ":session:" <= k
    ensures |k| == |app| + 9 + |sessionId| && k[|app| + 9..] == sessionId
  {
    app + ":session:" + sessionId
  }

  /** Within one application, distinct session ids never share a key. */
  lemma SessionKeyInjective(app: string, a: string, b: string)
    ensures SessionKey(app, a) == SessionKey(app, b) ==> a == b
  {
    var n := |app + ":session:"|;
    assert SessionKey(app, a)[n..] == a;
    assert SessionKey(app, b)[n..] == b;
  }

  // ---- the key/value store ----

  /** GET: the payload of a key that is present and not yet expired. */
  function Get(store: Store, now: int, key: string): (r: Option<string>)
    ensures r.Some? <==> key in store && now < store[key].expiresAt
    ensures r.Some? ==> r.value == store[key].payload
  {
    if key in store && now < store[key].expiresAt then Some(store[key].payload) else None
  }

  /** SETEX: writes `payload` under `key`, expiring `secs` seconds from `now`. */
  function SetEx(store: Store, now: int, key: string, secs: nat, payload: string): (s: Store)
    ensures s.Keys == store.Keys + {key}
    ensures s[key] == Entry(payload, now + secs)
    ensures forall k :: k in store && k != key ==> s[k] == store[k]
  {
    store[key := Entry(payload, now + secs)]
  }

  /** DEL: removes `key`, present or not. */
  function Del(store: Store, key: string): (s: Store)
    ensures s.Keys == store.Keys - {key}
    ensures forall k :: k in s ==> s[k] == store[k]
  {
    store - {key}
  }

  // ---- reading a session back ----

  /** What `getById` returns: null (None) when the key is absent, expired or
      holds an empty or unparsable payload; otherwise the stored user. */
  function ReadSession(store: Store, now: int, app: string, sessionId: string): (u: Option<UserData>)
    ensures forall v :: u == Some(v) <==> Get(store, now, SessionKey(app, sessionId)) == Some(Encode(v))
  {
    match Get(store, now, SessionKey(app, sessionId))
    case None => None
    case Some(p) =>
      if p == "" then None
      else
        DecodeIff(p);
        Decode(p)
  }

  /** A created session reads back as the user until its time to live elapses,
      and as null from then on. */
  lemma ReadAfterCreate(store: Store, now: int, app: string, sessionId: string, user: UserData, t: int)
    requires now <= t
    ensures var s := SetEx(store, now, SessionKey(app, sessionId), SessionDurationInSecs, Encode(user));
            ReadSession(s, t, app, sessionId) == if t < now + SessionDurationInSecs then Some(user) else None
  {
  }

  /** Writing or deleting one session leaves every other session of the
      application as it was. */
  lemma OtherSessionsUnchanged(store: Store, now: int, t: int, app: string, a: string, b: string, payload: string)
    requires a != b
    ensures ReadSession(SetEx(store, now, SessionKey(app, a), SessionDurationInSecs, payload), t, app, b)
         == ReadSession(store, t, app, b)
    ensures ReadSession(Del(store, SessionKey(app, a)), t, app, b) == ReadSession(store, t, app, b)
  {
    var ka, kb := SessionKey(app, a), SessionKey(app, b);
    SessionKeyInjective(app, a, b);
    assert Get(SetEx(store, now, ka, SessionDurationInSecs, payload), t, kb) == Get(store, t, kb);
    assert Get(Del(store, ka), t, kb) == Get(store, t, kb);
  }

  /** Delete leaves the session absent, and deleting twice is deleting once. */
  lemma DeleteIdempotent(store: Store, t: int, app: string, sessionId: string)
    ensures var key := SessionKey(app, sessionId);
            key !in Del(store, key) && Del(Del(store, key), key) == Del(store, key)
    ensures ReadSession(Del(store, SessionKey(app, sessionId)), t, app, sessionId) == None
  {
  }

  /** A session refreshed while still alive, with a later clock than the one
      it was written at, is still readable at its original expiry instant. */
  lemma RefreshOutlivesOriginalExpiry(store: Store, app: string, sessionId: string, written: int, t: int, user: UserData)
    requires SessionKey(app, sessionId) in store
    requires store[SessionKey(app, sessionId)].expiresAt == written + SessionDurationInSecs
    requires written < t
    ensures var key := SessionKey(app, sessionId);
            var refreshed := SetEx(store, t, key, SessionDurationInSecs, Encode(user));
            ReadSession(refreshed, store[key].expiresAt, app, sessionId) == Some(user)
  {
  }

  // ---- the service ----

  /** The session service over a shared key/value store. `now` is the store's
      clock; other applications' and other sessions' keys may be present. */
  class Session {
    const app: string
    var store: Store
    var now: int

    constructor(app: string, store: Store, now: int)
      ensures this.app == app && this.store == store && this.now == now
    {
      this.app := app;
      this.store := store;
      this.now := now;
    }

    /** Stores `user` under the key of the fresh id (drawn by uuid() in the
        source) with the session duration, and returns the id joined with
        the user. */
    method Create(user: UserData, freshId: string) returns (s: UserSession)
      modifies this
      ensures s.sessionId == freshId && s.user == user
      ensures store == SetEx(old(store), now, SessionKey(app, freshId), SessionDurationInSecs, Encode(user))
      ensures now == old(now)
    {
      var userSession := Encode(user);
      store := SetEx(store, now, SessionKey(app, freshId), SessionDurationInSecs, userSession);
      s := UserSession(freshId, user);
    }

    /** Reads a session back; never fails, null (None) for anything that is not
        a stored, live, well-formed record. */
    method GetById(sessionId: string) returns (u: Option<UserData>)
      ensures u == ReadSession(store, now, app, sessionId)
      ensures forall v :: u == Some(v) <==> Get(store, now, SessionKey(app, sessionId)) == Some(Encode(v))
    {
      u := ReadSession(store, now, app, sessionId);
    }

    /** Overwrites the payload under the same id and restarts its time to live. */
    method Refresh(sessionId: string, user: UserData)
      modifies this
      ensures store == SetEx(old(store), now, SessionKey(app, sessionId), SessionDurationInSecs, Encode(user))
      ensures now == old(now)
    {
      store := SetEx(store, now, SessionKey(app, sessionId), SessionDurationInSecs, Encode(user));
    }

    /** Removes the key; returns the number of live keys removed (0 or 1), as DEL does. */
    method Delete(sessionId: string) returns (removed: nat)
      modifies this
      ensures store == Del(old(store), SessionKey(app, sessionId))
      ensures removed == if Get(old(store), now, SessionKey(app, sessionId)).Some? then 1 else 0
      ensures now == old(now)
    {
      var key := SessionKey(app, sessionId);
      removed := if Get(store, now, key).Some? then 1 else 0;
      store := Del(store, key);
    }

    /** The store's clock moving on; entries expire by the passage of time alone. */
    method Advance(seconds: nat)
      modifies this
      ensures now == old(now) + seconds && store == old(store)
    {
      now := now + seconds;
    }
  }

  /** Log in, read back, let a day pass, read again. */
  method SessionLifecycle(app: string, user: UserData, id: string)
  {
    var sessions := new Session(app, map[], 0);
    var s := sessions.Create(user, id);
    var u := sessions.GetById(s.sessionId);
    assert u == Some(user);
    sessions.Advance(SessionDurationInSecs - 1);
    u := sessions.GetById(id);
    assert u == Some(user);
    sessions.Advance(1);
    u := sessions.GetById(id);
    assert u == None;
    var removed := sessions.Delete(id);
    assert removed == 0;
  }
}
