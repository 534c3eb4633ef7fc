/** The string helpers of `utils.py` (repeated verbatim at the top of `blog.py`):
    sign-up input validators, the salted password hash and the signed session cookie.
    SHA-256 and HMAC are not modelled; they are parameters whose outputs are lower-case
    hex (64 digits for SHA-256), which is all the helpers rely on; both refuse non-ASCII
    text, as Python 2 does when it encodes unicode for them. */
module Utils {
  import opened Wrappers
  import opened Seqs
  import opened PyText

  // ---------------------------------------------------------------------------
  // Digests
  // ---------------------------------------------------------------------------

  predicate IsHexDigit(c: char) { '0' <= c <= '9' || 'a' <= c <= 'f' }

  predicate IsHex(s: string) {
    forall i :: 0 <= i < |s| ==> IsHexDigit(s[i])
  }

  /** `hashlib.sha256(m).hexdigest()`: any function whose output is 64 lower-case hex digits. */
  type HexDigest = f: string -> string | forall m :: IsHex(f(m)) && |f(m)| == 64
    witness (m: string) => seq(64, _ => '0')

  /** `hmac.new(key, m).hexdigest()`: any keyed function whose output is lower-case hex. */
  type KeyedHexDigest = f: (string, string) -> string | forall k, m :: IsHex(f(k, m))
    witness (k: string, m: string) => ""

  /** The cryptographic configuration: both digests and the process-wide cookie key. */
  datatype Crypto = Crypto(sha256: HexDigest, hmac: KeyedHexDigest, secret: string)

  /** Hex text is ASCII and contains neither of the two separators the stored formats use. */
  lemma HexHasNoSeparator(d: string)
    requires IsHex(d)
    ensures ',' !in d && '|' !in d && IsAscii(d)
  {
    forall i | 0 <= i < |d| ensures d[i] != ',' && d[i] != '|' && IsAsciiChar(d[i]) {
      assert IsHexDigit(d[i]);
    }
  }

  // ---------------------------------------------------------------------------
  // Input validators
  // ---------------------------------------------------------------------------

  /** What a pattern anchored with `^...$` must cover: Python's `$` (without MULTILINE)
      matches at the very end and also just before one final newline, so a single
      trailing `\n` is not part of the match. */
  function AnchoredBody(s: string): string {
    if |s| > 0 && s[|s| - 1] == '\n' then s[..|s| - 1] else s
  }

  /** The class `[a-zA-Z0-9_-]` of `USER_RE`. */
  predicate IsUserChar(c: char) {
    'a' <= c <= 'z' || 'A' <= c <= 'Z' || '0' <= c <= '9' || c == '_' || c == '-'
  }

  /** The class `.` of `PASSWD_RE`: anything but a newline. */
  predicate NotNewline(c: char) { c != '\n' }

  /** `^C{3,20}$` matches `s`: its anchored body is 3 to 20 characters of class `C`. */
  predicate RunMatches(s: string, inClass: char -> bool) {
    var b := AnchoredBody(s);
    3 <= |b| <= 20 && forall i :: 0 <= i < |b| ==> inClass(b[i])
  }

  /** `valid_username`: a non-empty name matching `^[a-zA-Z0-9_-]{3,20}$`. */
  predicate ValidUsername(username: string) {
    username != "" && RunMatches(username, IsUserChar)
  }

  /** `valid_password`: a non-empty password matching `^.{3,20}$`. */
  predicate ValidPassword(password: string) {
    password != "" && RunMatches(password, NotNewline)
  }

  /** A user name passes exactly when it is 3 to 20 characters of `[a-zA-Z0-9_-]`,
      optionally followed by one newline. */
  lemma ValidUsernameExactly(s: string)
    ensures ValidUsername(s) <==>
              || (3 <= |s| <= 20 && forall i :: 0 <= i < |s| ==> IsUserChar(s[i]))
              || (4 <= |s| <= 21 && s[|s| - 1] == '\n' && forall i :: 0 <= i < |s| - 1 ==> IsUserChar(s[i]))
  {
    if 3 <= |s| <= 20 && forall i :: 0 <= i < |s| ==> IsUserChar(s[i]) {
      assert !IsUserChar(s[|s| - 1]) || s[|s| - 1] != '\n';
    }
  }

  /** A password passes exactly when it is 3 to 20 characters other than newline, optionally
      followed by one newline. */
  lemma ValidPasswordExactly(s: string)
    ensures ValidPassword(s) <==>
              || (3 <= |s| <= 20 && forall i :: 0 <= i < |s| ==> s[i] != '\n')
              || (4 <= |s| <= 21 && s[|s| - 1] == '\n' && forall i :: 0 <= i < |s| - 1 ==> s[i] != '\n')
  {
  }

  /** How a backtracking engine runs `^C{3,20}$` for a class without the newline: take
      class characters greedily, at most twenty, then try `$`. Giving characters back
      cannot help, since the character after a shortened run is a class character,
      which `$` never accepts. */
  method MatchRun(s: string, inClass: char -> bool) returns (matched: bool)
    requires !inClass('\n')
    ensures matched == RunMatches(s, inClass)
  {
    var n := 0;
    while n < |s| && n < 20 && inClass(s[n])
      invariant 0 <= n <= |s| && n <= 20
      invariant forall i :: 0 <= i < n ==> inClass(s[i])
    {
      n := n + 1;
    }
    matched := 3 <= n && (n == |s| || (n == |s| - 1 && s[n] == '\n'));
    var b := AnchoredBody(s);
    if matched {
      if n == |s| {
        assert !inClass(s[n - 1]) || s[n - 1] != '\n';
        assert b == s;
      } else {
        assert b == s[..n];
      }
    }
  }

  predicate NoSpace(s: string) {
    forall i :: 0 <= i < |s| ==> !IsSpace(s[i])
  }

  /** `^[\S]+@[\S]+\.[\S]+$` matches `s`: its anchored body has no whitespace and reads
      x@y.z with x, y and z non-empty. */
  predicate EmailMatches(s: string) {
    var b := AnchoredBody(s);
    NoSpace(b) && exists i, j :: 0 < i && i + 1 < j < |b| - 1 && b[i] == '@' && b[j] == '.'
  }

  /** `valid_email`: an empty address is accepted, anything else must match `EMAIL_RE`. */
  predicate ValidEmail(email: string) {
    email == "" || EmailMatches(email)
  }

  /** A direct test for the email shape: take the first `@` after the first character;
      a `.` must follow it with at least one character on either side. */
  function EmailScan(b: string): bool {
    && |b| >= 5
    && NoSpace(b)
    && var i := 1 + Find(b[1..], '@');
    && i + 4 <= |b|
    && '.' in b[i + 2..|b| - 1]
  }

  /** The direct test decides exactly the language of `EMAIL_RE`. */
  lemma EmailScanCorrect(s: string)
    ensures EmailScan(AnchoredBody(s)) == EmailMatches(s)
  {
    var b := AnchoredBody(s);
    if EmailMatches(s) {
      var i, j :| 0 < i && i + 1 < j < |b| - 1 && b[i] == '@' && b[j] == '.';
      var i0 := 1 + Find(b[1..], '@');
      assert b[1..][i - 1] == '@';
      assert i0 <= i;
      assert b[i + 2..|b| - 1][j - i - 2] == '.';
      assert b[i0 + 2..|b| - 1][j - i0 - 2] == '.';
    }
    if EmailScan(b) {
      var i := 1 + Find(b[1..], '@');
      var k :| 0 <= k < |b[i + 2..|b| - 1]| && b[i + 2..|b| - 1][k] == '.';
      assert b[i] == b[1..][i - 1];
      assert b[i + 2 + k] == '.';
    }
  }

  /** Sample decisions of the three validators, and the trailing-newline rule. */
  lemma ValidatorExamples()
    ensures !ValidUsername("ab") && ValidUsername("abc") && ValidUsername("abc\n")
    ensures !ValidUsername("aaaaaaaaaaaaaaaaaaaaa") && !ValidUsername("a b")
    ensures ValidPassword("secret123") && !ValidPassword("ab") && !ValidPassword("ab\nc")
    ensures ValidEmail("") && ValidEmail("a@b.c") && !ValidEmail("a@b") && !ValidEmail("a @b.c")
  {
    assert AnchoredBody("a b")[1] == ' ';
    assert "ab\nc"[2] == '\n';
    var e := "a@b.c";
    assert AnchoredBody(e) == e && e[1] == '@' && e[3] == '.';
    var bad := "a @b.c";
    assert AnchoredBody(bad) == bad && IsSpace(bad[1]);
    var short := "a@b";
    assert AnchoredBody(short) == short;
  }

  // ---------------------------------------------------------------------------
  // Password hashing
  // ---------------------------------------------------------------------------

  /** `string.letters` in the C locale. */
  predicate IsLetter(c: char) { 'a' <= c <= 'z' || 'A' <= c <= 'Z' }

  /** What `make_salt` draws: five letters. */
  type Salt = s: string | |s| == 5 && forall i :: 0 <= i < |s| ==> IsLetter(s[i]) witness "aaaaa"

  /** A user name the validator accepts is ASCII. */
  lemma ValidUsernameAscii(s: string)
    requires ValidUsername(s)
    ensures IsAscii(s)
  {
    ValidUsernameExactly(s);
    forall i | 0 <= i < |s| ensures IsAsciiChar(s[i]) {
      if i < |s| - 1 || s[i] != '\n' { assert IsUserChar(s[i]); }
    }
  }

  /** `make_pw_hash(name, pw, salt)`. The empty `salt` stands for Python's falsy salts
      (`None` and `''`), for which `make_salt()` is called; `drawn` is what it returns.
      `hashlib.sha256` encodes its unicode argument with the ASCII codec, so a non-ASCII
      name, password or given salt raises `UnicodeEncodeError`. */
  function MakePwHash(c: Crypto, name: string, pw: string, salt: string, drawn: Salt): (r: Py<string>)
    ensures r.Raise? <==> !IsAscii(name) || !IsAscii(pw) || !IsAscii(salt)
    ensures r.Raise? ==> r.exc == UnicodeEncodeError
  {
    var s := if salt == "" then drawn else salt;
    GeneratedSaltStorable(drawn);
    AsciiConcat(name, pw);
    AsciiConcat(name + pw, s);
    if IsAscii(name + pw + s) then Ok(c.sha256(name + pw + s) + "," + s) else Raise(UnicodeEncodeError)
  }

  /** `valid_pw(name, pw, h)`: the second comma-separated field of `h` is taken as the salt
      (raising `IndexError` when there is no comma) and `h` is compared with a hash made
      from it; `drawn` is the salt `make_salt()` returns should that field be empty. */
  function ValidPw(c: Crypto, name: string, pw: string, h: string, drawn: Salt): Py<bool>
  {
    var fields := Split(h, ',');
    if |fields| < 2 then Raise(IndexError)
    else match MakePwHash(c, name, pw, fields[1], drawn)
      case Raise(e) => Raise(e)
      case Ok(made) => Ok(h == made)
  }

  /** A salt the stored format can carry: non-empty and comma-free. */
  predicate StorableSalt(salt: string) {
    salt != "" && ',' !in salt
  }

  /** The salts `make_salt` draws are storable ASCII text. */
  lemma GeneratedSaltStorable(drawn: Salt)
    ensures StorableSalt(drawn) && IsAscii(drawn)
  {
    forall i | 0 <= i < |drawn| ensures drawn[i] != ',' && IsAsciiChar(drawn[i]) {
      assert IsLetter(drawn[i]);
    }
  }

  /** A hash made with a storable salt splits into exactly the digest of `name + pw + salt`
      and the salt. */
  lemma HashFields(c: Crypto, name: string, pw: string, salt: string, drawn: Salt)
    requires StorableSalt(salt)
    ensures MakePwHash(c, name, pw, salt, drawn).Ok? ==>
              Split(MakePwHash(c, name, pw, salt, drawn).value, ',') == [c.sha256(name + pw + salt), salt]
  {
    var d := c.sha256(name + pw + salt);
    HexHasNoSeparator(d);
    SplitCons(d, ',', salt);
    SplitNoSep(salt, ',');
  }

  /** Round trip: whenever a hash is made with a storable salt, it verifies the same name
      and password, whatever salt `make_salt` would have drawn. */
  lemma PwHashRoundTrip(c: Crypto, name: string, pw: string, salt: string, drawn: Salt, drawn': Salt)
    requires StorableSalt(salt)
    ensures MakePwHash(c, name, pw, salt, drawn).Ok? ==>
              ValidPw(c, name, pw, MakePwHash(c, name, pw, salt, drawn).value, drawn') == Ok(true)
  {
    HashFields(c, name, pw, salt, drawn);
  }

  /** Round trip for the hash sign-up stores, made with a salt `make_salt` drew: it is made
      exactly when name and password are ASCII, and then it verifies them. */
  lemma GeneratedHashRoundTrip(c: Crypto, name: string, pw: string, drawn: Salt, drawn': Salt)
    ensures MakePwHash(c, name, pw, "", drawn).Ok? <==> IsAscii(name) && IsAscii(pw)
    ensures MakePwHash(c, name, pw, "", drawn).Ok? ==>
              ValidPw(c, name, pw, MakePwHash(c, name, pw, "", drawn).value, drawn') == Ok(true)
  {
    GeneratedSaltStorable(drawn);
    PwHashRoundTrip(c, name, pw, drawn, drawn, drawn');
  }

  /** `valid_pw` raises `IndexError` exactly when the stored hash has no comma; past that, it
      raises `UnicodeEncodeError` exactly when the name, the password or the salt field is
      not ASCII. */
  lemma ValidPwRaises(c: Crypto, name: string, pw: string, h: string, drawn: Salt)
    ensures ValidPw(c, name, pw, h, drawn) == Raise(IndexError) <==> ',' !in h
    ensures ',' in h ==>
              (ValidPw(c, name, pw, h, drawn).Raise? <==> !IsAscii(name) || !IsAscii(pw) || !IsAscii(Split(h, ',')[1]))
    ensures ValidPw(c, name, pw, h, drawn).Raise? ==>
              ValidPw(c, name, pw, h, drawn).exc == IndexError || ValidPw(c, name, pw, h, drawn).exc == UnicodeEncodeError
  {
    JoinSplit(h, ',');
    if ',' !in h {
      SplitNoSep(h, ',');
    }
  }

  /** An empty salt field never verifies: `make_salt` replaces it, and the five letters it
      draws cannot reproduce the empty field. Non-ASCII input raises first. */
  lemma EmptySaltFieldFails(c: Crypto, name: string, pw: string, h: string, drawn: Salt)
    requires |Split(h, ',')| >= 2 && Split(h, ',')[1] == ""
    ensures ValidPw(c, name, pw, h, drawn) ==
              if IsAscii(name) && IsAscii(pw) then Ok(false) else Raise(UnicodeEncodeError)
  {
    var made := MakePwHash(c, name, pw, "", drawn);
    if made.Ok? && h == made.value {
      GeneratedSaltStorable(drawn);
      HashFields(c, name, pw, drawn, drawn);
    }
  }

  /** `h` is the stored form of the ASCII text `name + pw` under a storable salt. */
  predicate IsHashOf(c: Crypto, name: string, pw: string, h: string, salt: string) {
    && StorableSalt(salt) && IsAscii(name) && IsAscii(pw) && IsAscii(salt)
    && h == c.sha256(name + pw + salt) + "," + salt
  }

  /** `valid_pw` accepts exactly the hashes of `name + pw` under some storable salt. */
  lemma ValidPwAccepts(c: Crypto, name: string, pw: string, h: string, drawn: Salt)
    ensures ValidPw(c, name, pw, h, drawn) == Ok(true) <==> exists salt :: IsHashOf(c, name, pw, h, salt)
  {
    if ValidPw(c, name, pw, h, drawn) == Ok(true) {
      var salt := Split(h, ',')[1];
      if salt == "" {
        EmptySaltFieldFails(c, name, pw, h, drawn);
      } else {
        assert IsHashOf(c, name, pw, h, salt);
      }
    }
    if exists salt :: IsHashOf(c, name, pw, h, salt) {
      var salt :| IsHashOf(c, name, pw, h, salt);
      assert MakePwHash(c, name, pw, salt, drawn) == Ok(h);
      PwHashRoundTrip(c, name, pw, salt, drawn, drawn);
    }
  }

  /** The digest sees only `name + pw`: moving characters between the name and the
      password keeps the stored hash valid, as with ("ab", "c") and ("a", "bc"). */
  lemma HashSeesOnlyConcatenation(c: Crypto, name: string, pw: string, name': string, pw': string,
                                  salt: string, drawn: Salt, drawn': Salt)
    requires name + pw == name' + pw'
    requires StorableSalt(salt)
    ensures MakePwHash(c, name, pw, salt, drawn).Ok? ==>
              ValidPw(c, name', pw', MakePwHash(c, name, pw, salt, drawn).value, drawn') == Ok(true)
  {
    assert MakePwHash(c, name, pw, salt, drawn) == MakePwHash(c, name', pw', salt, drawn);
    PwHashRoundTrip(c, name', pw', salt, drawn, drawn');
  }

  /** A stored hash verifies no password whose salted digest differs from the stored one:
      unless the digest collides, a wrong ASCII password is rejected, and a wrong non-ASCII
      one raises. */
  lemma WrongPasswordFails(c: Crypto, name: string, pw: string, pw': string, salt: string,
                           drawn: Salt, drawn': Salt)
    requires StorableSalt(salt)
    requires c.sha256(name + pw + salt) != c.sha256(name + pw' + salt)
    ensures MakePwHash(c, name, pw, salt, drawn).Ok? ==>
              ValidPw(c, name, pw', MakePwHash(c, name, pw, salt, drawn).value, drawn') ==
                if IsAscii(pw') then Ok(false) else Raise(UnicodeEncodeError)
  {
    HashFields(c, name, pw, salt, drawn);
    HashFields(c, name, pw', salt, drawn');
  }

  // ---------------------------------------------------------------------------
  // Signed cookies
  // ---------------------------------------------------------------------------

  /** `make_secure_cookie(s)`: the value, a bar, and the keyed digest of the value. `hmac`
      encodes a unicode value with the ASCII codec, so a non-ASCII value raises
      `UnicodeEncodeError`; a cookie that is made is ASCII text. */
  function MakeSecureCookie(c: Crypto, s: string): (r: Py<string>)
    ensures r.Raise? <==> !IsAscii(s)
    ensures r.Raise? ==> r.exc == UnicodeEncodeError
    ensures r.Ok? ==> IsAscii(r.value)
  {
    if IsAscii(s) then
      var tag := c.hmac(c.secret, s);
      HexHasNoSeparator(tag);
      AsciiConcat(s, "|");
      AsciiConcat(s + "|", tag);
      Ok(s + "|" + tag)
    else Raise(UnicodeEncodeError)
  }

  /** `check_secure_cookie(h)`: the text before the first bar, if `h` is exactly the cookie
      made from it; Python's implicit `None` otherwise. */
  function CheckSecureCookie(c: Crypto, h: string): Py<Option<string>> {
    var val := Split(h, '|')[0];
    match MakeSecureCookie(c, val)
    case Raise(e) => Raise(e)
    case Ok(made) => Ok(if h == made then Some(val) else None)
  }

  /** Round trip: a bar-free value comes back out of its own cookie, whenever the cookie
      is made. */
  lemma CookieRoundTrip(c: Crypto, s: string)
    requires '|' !in s
    ensures MakeSecureCookie(c, s).Ok? ==> CheckSecureCookie(c, MakeSecureCookie(c, s).value) == Ok(Some(s))
  {
    SplitCons(s, '|', c.hmac(c.secret, s));
  }

  /** A cookie is accepted exactly when it is the cookie made from its bar-free prefix:
      any other text, tampered or truncated, reads as no session or raises. */
  lemma CheckSecureCookieAccepts(c: Crypto, h: string, v: string)
    ensures CheckSecureCookie(c, h) == Ok(Some(v)) <==> '|' !in v && MakeSecureCookie(c, v) == Ok(h)
  {
    if '|' !in v && MakeSecureCookie(c, v) == Ok(h) {
      CookieRoundTrip(c, v);
    }
  }

  /** The text before the first bar of `h`. */
  lemma SplitFirst(h: string)
    ensures Split(h, '|')[0] == h[..Find(h, '|')]
  {
  }

  /** Checking a cookie raises `UnicodeEncodeError` exactly when a non-ASCII character comes
      before its first bar. */
  lemma CheckSecureCookieRaises(c: Crypto, h: string)
    ensures CheckSecureCookie(c, h).Raise? <==>
              exists i :: 0 <= i < |h| && !IsAsciiChar(h[i]) && '|' !in h[..i]
    ensures CheckSecureCookie(c, h).Raise? ==> CheckSecureCookie(c, h).exc == UnicodeEncodeError
  {
    var n := Find(h, '|');
    SplitFirst(h);
    if CheckSecureCookie(c, h).Raise? {
      var k :| 0 <= k < n && !IsAsciiChar(h[..n][k]);
      assert h[..k] == h[..n][..k];
    }
    if exists i :: 0 <= i < |h| && !IsAsciiChar(h[i]) && '|' !in h[..i] {
      var i :| 0 <= i < |h| && !IsAsciiChar(h[i]) && '|' !in h[..i];
      assert i != n;
      assert h[..n][i] == h[i];
    }
  }

  /** A hex tag cannot end in a bar followed by more text. */
  lemma TagHasNoBar(p: string, ptag: string, rest: string, tag: string)
    requires IsHex(ptag)
    ensures p + "|" + ptag != p + "|" + (rest + "|" + tag)
  {
    if p + "|" + ptag == p + "|" + (rest + "|" + tag) {
      assert ptag == (p + "|" + ptag)[|p| + 1..];
      assert ptag == rest + "|" + tag;
      assert ptag[|rest|] == '|';
      HexHasNoSeparator(ptag);
    }
  }

  /** A value containing a bar does not survive its own cookie. */
  lemma CookieWithBarRejected(c: Crypto, s: string)
    requires '|' in s
    ensures MakeSecureCookie(c, s).Ok? ==> CheckSecureCookie(c, MakeSecureCookie(c, s).value) == Ok(None)
  {
    if IsAscii(s) {
      var i := Find(s, '|');
      var p, rest := s[..i], s[i + 1..];
      var tag := c.hmac(c.secret, s);
      var h := MakeSecureCookie(c, s).value;
      assert s == p + "|" + rest;
      assert h == p + "|" + (rest + "|" + tag);
      SplitCons(p, '|', rest + "|" + tag);
      assert Split(h, '|')[0] == p;
      AsciiConcat(p, s[i..]);
      assert s == p + s[i..];
      TagHasNoBar(p, c.hmac(c.secret, p), rest, tag);
    }
  }
}
