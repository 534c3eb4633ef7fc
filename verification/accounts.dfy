/** Account handlers: `SignupHandler.post` (`handlers/signup.py`) and `LoginHandler.post`
    (`handlers/login.py`). `drawn` is the salt `make_salt()` would return. */
module Accounts {
  import opened Wrappers
  import opened PyText
  import opened Utils
  import opened Users
  import opened Properties
  import opened Datastore
  import opened Web
  import opened Session

  /** The sign-up form's messages after validating the four fields. The mismatch test runs
      only for a valid password. */
  function InputErrors(username: string, password: string, verify: string, email: string): (v: View)
    ensures v.SignupForm?
    ensures v.userError != "" <==> !ValidUsername(username)
    ensures v.passwdError != "" <==> !ValidPassword(password)
    ensures v.verifyError != "" <==> ValidPassword(password) && password != verify
    ensures v.emailError != "" <==> !ValidEmail(email)
  {
    SignupForm(
      if !ValidUsername(username) then BadUsername else "",
      if !ValidPassword(password) then BadPassword else "",
      if ValidPassword(password) && password != verify then PasswordMismatch else "",
      if !ValidEmail(email) then BadEmail else "")
  }

  /** All four fields pass validation. */
  predicate InputOk(username: string, password: string, verify: string, email: string) {
    ValidUsername(username) && ValidPassword(password) && password == verify && ValidEmail(email)
  }

  /** The sign-up fields the `User` entity accepts once validation has passed: the regular
      expressions let a name or an address end in one newline, which a single-line string
      property refuses, and do not bound the length of an address. */
  predicate Storable(username: string, email: string) {
    '\n' !in username && StringOk(email, false)
  }

  /** The hash sign-up stores is 64 digest characters, a comma and five letters. */
  lemma StoredHashOk(c: Crypto, username: string, password: string, drawn: Salt)
    ensures MakePwHash(c, username, password, "", drawn).Ok? ==>
              StringOk(MakePwHash(c, username, password, "", drawn).value, true)
  {
    var d := c.sha256(username + password + drawn);
    var made := MakePwHash(c, username, password, "", drawn);
    if made.Ok? {
      var h := made.value;
      assert h == d + "," + drawn;
      forall i | 0 <= i < |h| ensures h[i] != '\n' {
        if i < |d| { assert IsHexDigit(d[i]); }
        else if i > |d| { assert h[i] == drawn[i - |d| - 1] && IsLetter(drawn[i - |d| - 1]); }
      }
    }
  }

  /** Under valid input, the password is hashed exactly when it is ASCII (the name always
      is), and the `User` constructor then accepts the fields exactly when they are storable. */
  lemma NewUserAcceptsValidInput(c: Crypto, username: string, password: string, verify: string,
                                 email: string, drawn: Salt)
    requires InputOk(username, password, verify, email)
    ensures MakePwHash(c, username, password, "", drawn).Ok? <==> IsAscii(password)
    ensures MakePwHash(c, username, password, "", drawn).Ok? ==>
              (NewUser(username, MakePwHash(c, username, password, "", drawn).value, email).Ok? <==>
               Storable(username, email))
  {
    ValidUsernameExactly(username);
    ValidUsernameAscii(username);
    StoredHashOk(c, username, password, drawn);
  }

  /** `SignupHandler.post`: validate, refuse a taken name, else hash the password, construct
      the user, store it, set the session cookie to its id and go to the welcome page.
      Hashing a non-ASCII password raises `UnicodeEncodeError`, and a field the entity
      refuses raises `BadValueError`, both before anything is stored. */
  function Signup(c: Crypto, st: Store, username: string, password: string, verify: string,
                  email: string, drawn: Salt): (r: Response)
    ensures !InputOk(username, password, verify, email) ==>
              r == Answer(Render(InputErrors(username, password, verify, email)))
    ensures InputOk(username, password, verify, email) && ByName(st.users, username).Some? ==>
              r == Answer(Render(SignupForm(UserExists, "", "", "")))
    ensures InputOk(username, password, verify, email) && ByName(st.users, username).None? &&
              !IsAscii(password) ==>
              r == Answer(Crash(UnicodeEncodeError))
    ensures InputOk(username, password, verify, email) && ByName(st.users, username).None? &&
              IsAscii(password) && !Storable(username, email) ==>
              r == Answer(Crash(BadValueError))
    ensures r.writes != [] <==>
              InputOk(username, password, verify, email) && ByName(st.users, username).None? &&
              IsAscii(password) && Storable(username, email)
    ensures r.cookie.Some? <==> r.writes != []
    ensures r.writes != [] ==>
              && |r.writes| == 1 && r.writes[0].PutUser? && r.writes[0].uid !in st.users
              && r.writes[0].user == User(username, MakePwHash(c, username, password, "", drawn).value, email)
              && r.cookie == Some(SessionCookie(c, r.writes[0].uid))
              && r.outcome == Redirect(ToWelcome)
  {
    var errors := InputErrors(username, password, verify, email);
    if !InputOk(username, password, verify, email) then Answer(Render(errors))
    else if ByName(st.users, username).Some? then Answer(Render(SignupForm(UserExists, "", "", "")))
    else
      NewUserAcceptsValidInput(c, username, password, verify, email, drawn);
      match MakePwHash(c, username, password, "", drawn)
      case Raise(e) => Answer(Crash(e))
      case Ok(hashed) =>
        match NewUser(username, hashed, email)
        case Raise(e) => Answer(Crash(e))
        case Ok(u) =>
          var uid := NewId(st.users);
          Response([PutUser(uid, u)], Some(SessionCookie(c, uid)), Redirect(ToWelcome))
  }

  /** The sign-up fields of `NewlineNameCrashesSignup` pass validation and hashing, but are
      not storable. */
  lemma NewlineNameFields()
    ensures InputOk("abc\n", "secret", "secret", "")
    ensures IsAscii("secret") && !Storable("abc\n", "")
  {
    ValidatorExamples();
    ValidPasswordExactly("secret");
    assert "abc\n"[3] == '\n';
  }

  /** The validators accept a name ending in a newline, and the entity then refuses it. */
  lemma NewlineNameCrashesSignup(c: Crypto, st: Store, drawn: Salt)
    requires ByName(st.users, "abc\n").None?
    ensures ValidUsername("abc\n")
    ensures Signup(c, st, "abc\n", "secret", "secret", "", drawn) == Answer(Crash(BadValueError))
  {
    NewlineNameFields();
  }

  /** The password validator accepts any character but the newline, and hashing then
      refuses a non-ASCII one: sign-up with `"p\u00e9ss"` raises and stores nothing. */
  lemma NonAsciiPasswordCrashesSignup(c: Crypto, st: Store, drawn: Salt)
    requires ByName(st.users, "abc").None?
    ensures ValidPassword("p\U{E9}ss")
    ensures Signup(c, st, "abc", "p\U{E9}ss", "p\U{E9}ss", "", drawn) == Answer(Crash(UnicodeEncodeError))
  {
    ValidatorExamples();
    ValidPasswordExactly("p\U{E9}ss");
    assert !IsAsciiChar("p\U{E9}ss"[1]);
  }

  /** `LoginHandler.post`: the user found by name must pass `valid_pw`; then the session cookie
      is set to its id. A stored hash without a comma makes `valid_pw` raise `IndexError`, and
      a non-ASCII password for a found user makes it raise `UnicodeEncodeError`. */
  function Login(c: Crypto, st: Store, username: string, password: string, drawn: Salt): (r: Response)
    ensures r.writes == []
    ensures r.cookie.Some? <==>
              ByName(st.users, username).Some? &&
              ValidPw(c, username, password, st.users[ByName(st.users, username).value].hashedPw, drawn) == Ok(true)
    ensures r.cookie.Some? ==>
              r.cookie == Some(SessionCookie(c, ByName(st.users, username).value))
              && r.outcome == Redirect(ToWelcome)
    ensures ByName(st.users, username).None? ==> r == Answer(Render(LoginForm(BadLogin)))
    ensures r.outcome.Crash? ==> r.outcome.exc == IndexError || r.outcome.exc == UnicodeEncodeError
    ensures ByName(st.users, username).Some? && ',' in st.users[ByName(st.users, username).value].hashedPw &&
              !IsAscii(password) ==>
              r == Answer(Crash(UnicodeEncodeError))
  {
    match ByName(st.users, username)
    case None => Answer(Render(LoginForm(BadLogin)))
    case Some(uid) =>
      ValidPwRaises(c, username, password, st.users[uid].hashedPw, drawn);
      match ValidPw(c, username, password, st.users[uid].hashedPw, drawn)
      case Raise(e) => Answer(Crash(e))
      case Ok(ok) =>
        if ok then Response([], Some(SessionCookie(c, uid)), Redirect(ToWelcome))
        else Answer(Render(LoginForm(BadLogin)))
  }

  /** An unknown name and a wrong password get the same answer, and neither sets a cookie. */
  lemma LoginFailuresLookAlike(c: Crypto, st: Store, username: string, password: string, drawn: Salt)
    requires ByName(st.users, username).None? ||
             ValidPw(c, username, password, st.users[ByName(st.users, username).value].hashedPw, drawn) == Ok(false)
    ensures Login(c, st, username, password, drawn) == Answer(Render(LoginForm(BadLogin)))
  {
  }

  /** A non-ASCII password tells the names apart: for a registered name (with a stored hash
      in the stored format) log-in raises, for an unknown name it shows the login form. */
  lemma NonAsciiPasswordRevealsName(c: Crypto, st: Store, known: string, unknown: string, password: string,
                                    drawn: Salt)
    requires ByName(st.users, known).Some? && ',' in st.users[ByName(st.users, known).value].hashedPw
    requires ByName(st.users, unknown).None?
    requires !IsAscii(password)
    ensures Login(c, st, known, password, drawn) == Answer(Crash(UnicodeEncodeError))
    ensures Login(c, st, unknown, password, drawn) == Answer(Render(LoginForm(BadLogin)))
  {
  }

  /** Whenever sign-up stores a user, the session cookie it sets resolves to that user. */
  lemma SignupSession(c: Crypto, st: Store, username: string, password: string, verify: string,
                      email: string, drawn: Salt)
    ensures var r := Signup(c, st, username, password, verify, email, drawn);
            r.writes != [] ==> Initialize(c, Apply(st, r.writes).users, r.cookie) == Ok(Some(r.writes[0].uid))
  {
    var r := Signup(c, st, username, password, verify, email, drawn);
    if r.writes != [] {
      assert r.writes == [r.writes[0]];
      ApplyOne(st, r.writes[0]);
      var st' := Apply(st, r.writes);
      SessionRoundTrip(c, st'.users, r.writes[0].uid);
    }
  }

  /** Whenever sign-up stores a user, the name then finds that user, whose stored hash is
      the one made from the password. */
  lemma SignupStoresUser(c: Crypto, st: Store, username: string, password: string, verify: string,
                         email: string, drawn: Salt)
    ensures var r := Signup(c, st, username, password, verify, email, drawn);
            var users := Apply(st, r.writes).users;
            r.writes != [] ==>
              && ByName(users, username) == Some(r.writes[0].uid)
              && users[r.writes[0].uid].hashedPw == MakePwHash(c, username, password, "", drawn).value
  {
    var r := Signup(c, st, username, password, verify, email, drawn);
    if r.writes != [] {
      var w := r.writes[0];
      assert r.writes == [w];
      ApplyOne(st, w);
      assert Apply(st, r.writes).users == st.users[w.uid := w.user];
      ByNameAfterAdd(st.users, w.uid, w.user);
    }
  }

  /** Whenever sign-up stores a user, log-in with the same name and password succeeds for
      that user, whatever salt `make_salt` draws the second time. */
  lemma SignupThenLogin(c: Crypto, st: Store, username: string, password: string, verify: string,
                        email: string, drawn: Salt, drawn': Salt)
    ensures var r := Signup(c, st, username, password, verify, email, drawn);
            var l := Login(c, Apply(st, r.writes), username, password, drawn');
            r.writes != [] ==> l.cookie == r.cookie && l.outcome == Redirect(ToWelcome)
  {
    var r := Signup(c, st, username, password, verify, email, drawn);
    if r.writes != [] {
      SignupStoresUser(c, st, username, password, verify, email, drawn);
      GeneratedHashRoundTrip(c, username, password, drawn, drawn');
    }
  }

  /** Sign-up never lets two users share a name. */
  lemma SignupKeepsNamesUnique(c: Crypto, st: Store, username: string, password: string, verify: string,
                               email: string, drawn: Salt)
    requires UniqueNames(st.users)
    ensures UniqueNames(Apply(st, Signup(c, st, username, password, verify, email, drawn).writes).users)
  {
    var r := Signup(c, st, username, password, verify, email, drawn);
    if r.writes != [] {
      assert r.writes == [r.writes[0]];
      ApplyOne(st, r.writes[0]);
    }
  }
}
