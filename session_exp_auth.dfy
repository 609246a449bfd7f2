/** Session authentication whose sessions may expire.

    The registry maps a session id to an entry holding the user id, the
    creation time and (once the persisted variant has linked one) a
    user-session record.  Expiry is lazy: an entry older than the
    configured duration no longer resolves, but it stays stored.  Time is
    an integer count of seconds supplied by the caller. */
module SessionExp {
  import opened Wrappers

  /** The record linking a user and a session (models/user_session.py). */
  datatype UserSession = UserSession(userId: string, sessionId: string)

  /** One stored session. */
  datatype SessionEntry = SessionEntry(userId: string, createdAt: int, userSession: Option<UserSession>)

  predicate IsDigit(c: char) {
    '0' <= c <= '9'
  }

  predicate AllDigits(s: string) {
    forall k :: 0 <= k < |s| ==> IsDigit(s[k])
  }

  /** The number a string of decimal digits denotes. */
  function DigitsValue(s: string): nat
    requires AllDigits(s)
  {
    if s == [] then 0
    else DigitsValue(s[..|s| - 1]) * 10 + (s[|s| - 1] as int - '0' as int)
  }

  /** Python's `int(text)` on an optional sign followed by decimal
      digits; `None` where `int` raises `ValueError`. */
  function ParseInt(text: string): (r: Option<int>)
    ensures r.Some? <==> text != [] && (AllDigits(text)
                           || ((text[0] == '-' || text[0] == '+') && |text| > 1 && AllDigits(text[1..])))
    ensures r.Some? && AllDigits(text) ==> r.value == DigitsValue(text)
    ensures r.Some? && text[0] == '+' ==> r.value == DigitsValue(text[1..])
    ensures r.Some? && text[0] == '-' ==> r.value == -(DigitsValue(text[1..]) as int)
  {
    if text == [] then None
    else if text[0] == '-' || text[0] == '+' then
      var digits := text[1..];
      if digits == [] || !AllDigits(digits) then None
      else if text[0] == '-' then Some(-(DigitsValue(digits) as int))
      else Some(DigitsValue(digits))
    else if !AllDigits(text) then None
    else Some(DigitsValue(text))
  }

  /** The session duration read from the `SESSION_DURATION` setting: 0
      when the setting is missing (`TypeError`) or is not an integer
      (`ValueError`). */
  function DurationSetting(setting: Option<string>): (d: int)
    ensures setting == None ==> d == 0
    ensures setting.Some? && ParseInt(setting.value) == None ==> d == 0
    ensures setting.Some? && ParseInt(setting.value).Some? ==> d == ParseInt(setting.value).value
  {
    match setting
    case None => 0
    case Some(text) =>
      match ParseInt(text)
      case None => 0
      case Some(n) => n
  }

  /** Decimal digits of a natural number, most significant first. */
  function Digits(n: nat): (s: string)
    ensures s != [] && AllDigits(s)
  {
    if n < 10 then [('0' as int + n) as char]
    else Digits(n / 10) + [('0' as int + n % 10) as char]
  }

  /** How an integer is written in the setting: `-` before negatives. */
  function Decimal(n: int): string {
    if n < 0 then "-" + Digits(-n) else Digits(n)
  }

  lemma {:induction false} DigitsValueOfDigits(n: nat)
    ensures DigitsValue(Digits(n)) == n
  {
    if n >= 10 {
      DigitsValueOfDigits(n / 10);
      var s := Digits(n);
      assert s[..|s| - 1] == Digits(n / 10);
    }
  }

  /** Every integer written in decimal is read back as itself. */
  lemma ParseDecimal(n: int)
    ensures ParseInt(Decimal(n)) == Some(n)
    ensures DurationSetting(Some(Decimal(n))) == n
  {
    if n < 0 {
      DigitsValueOfDigits(-n);
      assert Decimal(n)[1..] == Digits(-n);
    } else {
      DigitsValueOfDigits(n);
      assert IsDigit(Digits(n)[0]);
    }
  }

  /** Texts Python's `int` refuses are not integers here either: a
      fraction, trailing letters, a bare or doubled sign. */
  lemma ParseIntRejects()
    ensures ParseInt("1.5") == None && ParseInt("12a") == None
    ensures ParseInt("-") == None && ParseInt("+") == None && ParseInt("+-1") == None
    ensures DurationSetting(Some("1.5")) == 0
  {
    assert !IsDigit("1.5"[1]) && !IsDigit("12a"[2]) && !IsDigit("+-1"[1]);
    assert "+-1"[1..][0] == '-';
  }

  /** An entry has outlived the configured duration at time `now`: more
      than `duration` seconds have elapsed since it was created. */
  predicate Expired(duration: int, createdAt: int, now: int) {
    duration > 0 && now - createdAt > duration
  }

  class SessionExpAuth {
    /** Seconds a session stays valid; 0 or less means forever. */
    var sessionDuration: int
    /** The session registry, keyed by session id. */
    var userIdBySessionId: map<string, SessionEntry>

    constructor (durationSetting: Option<string>)
      ensures sessionDuration == DurationSetting(durationSetting)
      ensures userIdBySessionId == map[]
    {
      sessionDuration := DurationSetting(durationSetting);
      userIdBySessionId := map[];
    }

    /** Registers a session for `userId` under `parentId`, the id the
        parent strategy generated (or `None`/empty when it refused).  On
        success the entry for that id becomes `{userId, createdAt = now}`
        and nothing else changes. */
    method CreateSession(userId: string, parentId: Option<string>, now: int) returns (sessionId: Option<string>)
      modifies this`userIdBySessionId
      ensures parentId == None || parentId == Some("") ==>
                sessionId == None && userIdBySessionId == old(userIdBySessionId)
      ensures parentId.Some? && parentId.value != "" ==>
                sessionId == parentId
                && userIdBySessionId == old(userIdBySessionId)[parentId.value := SessionEntry(userId, now, None)]
      ensures sessionId.Some? ==> UserIdForSessionId(sessionId, now) == Some(userId)
    {
      if parentId == None || parentId.value == "" {
        return None;
      }
      userIdBySessionId := userIdBySessionId[parentId.value := SessionEntry(userId, now, None)];
      sessionId := parentId;
    }

    /** The user id of a live session; `None` for an empty or unknown id
        and for a session that has expired.  The entry is not removed. */
    function UserIdForSessionId(sessionId: Option<string>, now: int): (r: Option<string>)
      reads this
      ensures r.Some? <==> sessionId.Some? && sessionId.value != "" && sessionId.value in userIdBySessionId
                           && !Expired(sessionDuration, userIdBySessionId[sessionId.value].createdAt, now)
      ensures r.Some? ==> r.value == userIdBySessionId[sessionId.value].userId
    {
      if sessionId == None || sessionId.value == "" then None
      else if sessionId.value !in userIdBySessionId then None
      else
        var entry := userIdBySessionId[sessionId.value];
        if sessionDuration <= 0 then Some(entry.userId)
        else
          var deadline := entry.createdAt + sessionDuration;
          if deadline < now then None
          else Some(entry.userId)
    }
  }

  /** With a non-positive duration a stored session resolves at any time. */
  lemma NeverExpires(a: SessionExpAuth, sessionId: string, now: int)
    requires a.sessionDuration <= 0
    requires sessionId != "" && sessionId in a.userIdBySessionId
    ensures a.UserIdForSessionId(Some(sessionId), now) == Some(a.userIdBySessionId[sessionId].userId)
  {
  }

  /** With a positive duration a session still resolves at the deadline
      instant itself and no longer one second later. */
  lemma DeadlineBoundary(a: SessionExpAuth, sessionId: string)
    requires a.sessionDuration > 0
    requires sessionId != "" && sessionId in a.userIdBySessionId
    ensures var e := a.userIdBySessionId[sessionId];
      a.UserIdForSessionId(Some(sessionId), e.createdAt + a.sessionDuration) == Some(e.userId)
      && a.UserIdForSessionId(Some(sessionId), e.createdAt + a.sessionDuration + 1) == None
  {
  }

  /** Once a lookup fails, it fails at every later time: expiry is never
      undone. */
  lemma ExpiryIsFinal(a: SessionExpAuth, sessionId: Option<string>, t1: int, t2: int)
    requires t1 <= t2
    requires a.UserIdForSessionId(sessionId, t1) == None
    ensures a.UserIdForSessionId(sessionId, t2) == None
  {
  }
}
