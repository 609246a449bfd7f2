/** The persisted session variant: on top of the expiring registry, each
    session entry is linked to a user-session record, lookups resolve
    through that record, and a session can be destroyed from the cookie a
    request carries.

    The variant extends the expiring one; here it holds its expiring
    registry as `parent` and works on the parent's map. */
module SessionDB {
  import opened Wrappers
  import Auth
  import opened SessionExp

  class SessionDBAuth {
    const parent: SessionExpAuth

    /** Every linked user-session record names its own session id and the
        user id of the entry it belongs to. */
    ghost predicate Valid()
      reads this, parent
    {
      forall sid :: sid in parent.userIdBySessionId && parent.userIdBySessionId[sid].userSession.Some? ==>
        parent.userIdBySessionId[sid].userSession.value == UserSession(parent.userIdBySessionId[sid].userId, sid)
    }

    constructor (durationSetting: Option<string>)
      ensures Valid() && fresh(parent)
      ensures parent.sessionDuration == DurationSetting(durationSetting)
      ensures parent.userIdBySessionId == map[]
    {
      parent := new SessionExpAuth(durationSetting);
    }

    /** Registers a session through the expiring parent and links a
        user-session record for it; `None`, and no change, when the
        parent yields no id. */
    method CreateSession(userId: string, parentId: Option<string>, now: int) returns (sessionId: Option<string>)
      requires Valid()
      modifies parent`userIdBySessionId
      ensures Valid()
      ensures parentId == None || parentId == Some("") ==>
                sessionId == None && parent.userIdBySessionId == old(parent.userIdBySessionId)
      ensures parentId.Some? && parentId.value != "" ==>
                sessionId == parentId
                && parent.userIdBySessionId == old(parent.userIdBySessionId)[parentId.value :=
                     SessionEntry(userId, now, Some(UserSession(userId, parentId.value)))]
      ensures sessionId.Some? && userId != "" ==> UserIdForSessionId(sessionId, now) == Some(userId)
    {
      sessionId := parent.CreateSession(userId, parentId, now);
      if sessionId == None || sessionId.value == "" {
        return None;
      }
      var sid := sessionId.value;
      var userSession := UserSession(userId, sid);
      parent.userIdBySessionId := parent.userIdBySessionId[sid := parent.userIdBySessionId[sid].(userSession := Some(userSession))];
    }

    /** The user id recorded in the linked user-session record of a live
        session; `None` when the expiring lookup gives none or an empty
        user id, or when no record is linked. */
    function UserIdForSessionId(sessionId: Option<string>, now: int): (r: Option<string>)
      reads this, parent
      ensures r.Some? ==> sessionId.Some? && sessionId.value in parent.userIdBySessionId
                          && parent.userIdBySessionId[sessionId.value].userSession.Some?
                          && r.value == parent.userIdBySessionId[sessionId.value].userSession.value.userId
      ensures r.Some? <==> parent.UserIdForSessionId(sessionId, now).Some?
                           && parent.UserIdForSessionId(sessionId, now).value != ""
                           && parent.userIdBySessionId[sessionId.value].userSession.Some?
    {
      var userId := parent.UserIdForSessionId(sessionId, now);
      if userId == None || userId.value == "" then None
      else
        var entry := parent.userIdBySessionId[sessionId.value];
        match entry.userSession
        case None => None
        case Some(userSession) => Some(userSession.userId)
    }

    /** Removes the session named by the request's session cookie.  No
        cookie value: `false` and no change.  A value not in the registry:
        `dict.pop` raises `KeyError`.  Expiry is not consulted. */
    method DestroySession(request: Option<Auth.Request>, sessionName: Option<string>) returns (r: Result<bool>)
      requires Valid()
      modifies parent`userIdBySessionId
      ensures Valid()
      ensures var cookie := Auth.SessionCookie(request, sessionName);
        && (cookie == None || cookie == Some("") ==>
              r == Ok(false) && parent.userIdBySessionId == old(parent.userIdBySessionId))
        && (cookie.Some? && cookie.value != "" && cookie.value in old(parent.userIdBySessionId) ==>
              r == Ok(true) && parent.userIdBySessionId == old(parent.userIdBySessionId) - {cookie.value})
        && (cookie.Some? && cookie.value != "" && cookie.value !in old(parent.userIdBySessionId) ==>
              r == Err(KeyError) && parent.userIdBySessionId == old(parent.userIdBySessionId))
      ensures r == Ok(true) ==> forall now :: UserIdForSessionId(Auth.SessionCookie(request, sessionName), now) == None
    {
      var cookie := Auth.SessionCookie(request, sessionName);
      if cookie == None || cookie.value == "" {
        return Ok(false);
      }
      if cookie.value !in parent.userIdBySessionId {
        return Err(KeyError);
      }
      parent.userIdBySessionId := parent.userIdBySessionId - {cookie.value};
      r := Ok(true);
    }
  }

  /** In a valid registry the persisted lookup agrees with the expiring
      one wherever a record is linked and the user id is non-empty. */
  lemma PersistedAgreesWithExpiring(a: SessionDBAuth, sessionId: string, now: int)
    requires a.Valid()
    requires sessionId in a.parent.userIdBySessionId
    requires a.parent.userIdBySessionId[sessionId].userSession.Some?
    requires a.parent.userIdBySessionId[sessionId].userId != ""
    ensures a.UserIdForSessionId(Some(sessionId), now) == a.parent.UserIdForSessionId(Some(sessionId), now)
  {
  }

  /** A client of the contracts above: a session resolves right after it
      is created, and destroying it twice makes the second call raise. */
  method DestroyTwiceRaises(db: SessionDBAuth, userId: string, generated: string, now: int, sessionName: string)
    requires db.Valid() && userId != "" && generated != ""
    modifies db.parent
  {
    var sid := db.CreateSession(userId, Some(generated), now);
    assert sid == Some(generated);
    assert db.UserIdForSessionId(sid, now) == Some(userId);
    var request := Auth.Request(map[], map[sessionName := generated]);
    var first := db.DestroySession(Some(request), Some(sessionName));
    assert first == Ok(true);
    assert db.UserIdForSessionId(sid, now) == None;
    var second := db.DestroySession(Some(request), Some(sessionName));
    assert second == Err(KeyError);
  }
}
