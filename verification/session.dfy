/** Session resolution of `handlers/bloghandler.py`: the signed `user_id` cookie names the
    caller, and request parameters carry ids as decimal text. */
module Session {
  import opened Wrappers
  import opened PyText
  import opened Utils
  import opened Users

  /** `get_uid_from_cookie()`: an absent or empty cookie gives nothing, otherwise the value
      `check_secure_cookie` vouches for, or its `UnicodeEncodeError`. */
  function UidFromCookie(c: Crypto, cookie: Option<string>): (r: Py<Option<string>>)
    ensures cookie.None? || cookie.value == "" ==> r == Ok(None)
    ensures cookie.Some? && cookie.value != "" ==> r == CheckSecureCookie(c, cookie.value)
    ensures r.Ok? && r.value.Some? ==>
              cookie.Some? && '|' !in r.value.value && MakeSecureCookie(c, r.value.value) == Ok(cookie.value)
  {
    if cookie.None? || cookie.value == "" then Ok(None)
    else
      var r := CheckSecureCookie(c, cookie.value);
      if r.Ok? && r.value.Some? then CheckSecureCookieAccepts(c, cookie.value, r.value.value); r else r
  }

  /** `initialize()`: the caller's user id, or `None` when there is no vouched-for value or no
      user with that id. Checking a cookie with non-ASCII text before its bar raises
      `UnicodeEncodeError`; a vouched-for value that is not a number raises `ValueError`. */
  function Initialize(c: Crypto, users: map<int, User>, cookie: Option<string>): (r: Py<Option<int>>)
    ensures r.Ok? && r.value.Some? ==> r.value.value in users
    ensures r.Raise? ==> r.exc == ValueError || r.exc == UnicodeEncodeError
    ensures r == Raise(UnicodeEncodeError) <==>
              cookie.Some? && cookie.value != "" && CheckSecureCookie(c, cookie.value).Raise?
    ensures cookie.None? ==> r == Ok(None)
  {
    match UidFromCookie(c, cookie)
    case Raise(e) => CheckSecureCookieRaises(c, cookie.value); Raise(e)
    case Ok(None) => Ok(None)
    case Ok(Some(uid)) =>
      if uid == "" then Ok(None)
      else match PyInt(uid)
        case Raise(e) => Raise(e)
        case Ok(n) => Ok(if n in users then Some(n) else None)
  }

  /** `self.user`: the caller's record. */
  function Me(users: map<int, User>, me: Option<int>): (r: Option<User>)
    ensures r.Some? <==> me.Some? && me.value in users
    ensures r.Some? ==> r.value == users[me.value]
  {
    if me.Some? && me.value in users then Some(users[me.value]) else None
  }

  /** The id a signed cookie carries, when it carries one. */
  predicate Carries(c: Crypto, cookie: Option<string>, v: string) {
    cookie.Some? && '|' !in v && MakeSecureCookie(c, v) == Ok(cookie.value)
  }

  /** A session resolves to a user exactly when the cookie is the signed form of a value that
      parses as that user's id. */
  lemma InitializeAccepts(c: Crypto, users: map<int, User>, cookie: Option<string>, uid: int)
    ensures Initialize(c, users, cookie) == Ok(Some(uid)) <==>
            uid in users && exists v :: Carries(c, cookie, v) && PyInt(v) == Ok(uid)
  {
    if Initialize(c, users, cookie) == Ok(Some(uid)) {
      var v := UidFromCookie(c, cookie).value.value;
      assert Carries(c, cookie, v) && PyInt(v) == Ok(uid);
    }
    if uid in users && exists v :: Carries(c, cookie, v) && PyInt(v) == Ok(uid) {
      var v :| Carries(c, cookie, v) && PyInt(v) == Ok(uid);
      CarriedValue(c, cookie, v);
      assert v != "" by { NoDigitsNoInt(""); }
    }
  }

  /** A signed cookie yields the value it was made from. */
  lemma CarriedValue(c: Crypto, cookie: Option<string>, v: string)
    requires Carries(c, cookie, v)
    ensures UidFromCookie(c, cookie) == Ok(Some(v))
  {
    CookieRoundTrip(c, v);
    assert cookie.value[|v|] == '|';
  }

  /** A cookie `check_secure_cookie` rejects leaves the caller anonymous. */
  lemma ForgedCookieIsAnonymous(c: Crypto, users: map<int, User>, cookie: string)
    requires CheckSecureCookie(c, cookie) == Ok(None)
    ensures Initialize(c, users, Some(cookie)) == Ok(None)
  {
  }

  /** A cookie with a non-ASCII character before its first bar makes `initialize` raise
      `UnicodeEncodeError`, forged or not. */
  lemma NonAsciiCookieRaises(c: Crypto, users: map<int, User>, cookie: string, i: nat)
    requires i < |cookie| && !IsAsciiChar(cookie[i]) && '|' !in cookie[..i]
    ensures Initialize(c, users, Some(cookie)) == Raise(UnicodeEncodeError)
  {
    CheckSecureCookieRaises(c, cookie);
  }

  /** For example the cookie `u"\u00e9|x"`. */
  lemma NonAsciiCookieExample(c: Crypto, users: map<int, User>)
    ensures Initialize(c, users, Some("\U{E9}|x")) == Raise(UnicodeEncodeError)
  {
    NonAsciiCookieRaises(c, users, "\U{E9}|x", 0);
  }

  /** The cookie the account handlers set for a user id: `make_secure_cookie(str(uid))`,
      which never raises, since `str(uid)` is ASCII. */
  function SessionCookie(c: Crypto, uid: int): (h: string)
    ensures MakeSecureCookie(c, IntToString(uid)) == Ok(h)
  {
    IntToStringAscii(uid);
    MakeSecureCookie(c, IntToString(uid)).value
  }

  /** `str(uid)` carries no bar. */
  lemma IdHasNoBar(uid: int)
    ensures '|' !in IntToString(uid)
  {
    var v := IntToString(uid);
    forall i | 0 <= i < |v| ensures v[i] != '|' { assert IsDigit(v[i]) || v[i] == '-'; }
  }

  /** Round trip: the cookie issued for a user's id brings that user back. */
  lemma SessionRoundTrip(c: Crypto, users: map<int, User>, uid: int)
    requires uid in users
    ensures Initialize(c, users, Some(SessionCookie(c, uid))) == Ok(Some(uid))
  {
    IdHasNoBar(uid);
    CookieRoundTrip(c, IntToString(uid));
    IntRoundTrip(uid);
  }

  /** A correctly signed cookie for an id no user has resolves to no user. */
  lemma UnknownIdIsAnonymous(c: Crypto, users: map<int, User>, uid: int)
    requires uid !in users
    ensures Initialize(c, users, Some(SessionCookie(c, uid))) == Ok(None)
  {
    IdHasNoBar(uid);
    CookieRoundTrip(c, IntToString(uid));
    IntRoundTrip(uid);
  }
}
