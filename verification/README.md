# Multi-user blog: a Dafny model

This project models the request-handling core of a small Google App Engine blog, written in
Python 2 with webapp2. Users sign up and log in with a salted password hash. A signed
`user_id` cookie identifies the session. Users write posts, like other users' posts, and add,
edit and delete comments.

The model has three layers.

1. **String helpers** (`utils.py`). They are repeated verbatim at the top of `blog.py`.
   - The validators follow Python `re` semantics, including the one trailing newline that `$` admits.
   - The salted password hash `"<digest>,<salt>"` and the signed cookie `"<value>|<tag>"` are
     modelled over arbitrary digest functions whose output is lower-case hex. Python 2 hands
     them unicode text through the ASCII codec, so a non-ASCII password or cookie value
     raises `UnicodeEncodeError`.
   - `int()` and `str()` follow Python 2 (`PyText`). Request parameters and cookie values
     arrive as unicode text, so `int()` first converts unicode whitespace to spaces.
2. **Entities** (`models/post.py`, `models/comment.py`, `models/user.py`). They are immutable
   records over `seq<int>` id lists. Each method is a pure function. Python exceptions are
   results: `Py<T> = Ok(value) | Raise(exc)`. Constructors and attribute assignments run the
   App Engine property checks (`Properties`), which raise `BadValueError`.
3. **Handlers** (`handlers/*.py` and the older single-file `blog.py`). They are pure functions
   from a datastore (`Store`: maps from id to `User`, `Post` and `Comment`) and the caller to a
   `Response`.
   - A `Response` holds the sequence of datastore writes the handler issues, in order. Each
     `put` or `delete` is its own write.
   - It also holds the cookie set, if any.
   - Its outcome is one of: `Redirect(path)`, `Render(view with its error message)`,
     `NotFound`, or `Crash(exception)` for an uncaught Python exception.
   - A crash keeps the writes issued before the exception.

On top of this, module `App` defines a store invariant:
- ids are positive;
- user names are unique;
- author references resolve;
- likes are duplicate-free and never by a namesake of the author;
- posts and comments are linked both ways.

`App` proves that every handler keeps the invariant, and that any run of requests with any
cookies keeps it (`RunPreservesInv`). It also shows where the two-write handlers break the
invariant between their writes, and what `blog.py`'s `NewComment` does to it.

Modules, by source file:

| module | file | source |
|---|---|---|
| `Wrappers`, `Seqs`, `Sets`, `PyText` | wrappers.dfy, seqs.dfy, sets.dfy, pytext.dfy | Python built-ins: exceptions, `list.remove`, `str.split`, `int`, `str` |
| `Properties` | properties.dfy | the value checks of `db.StringProperty` and `db.TextProperty` |
| `Utils` | utils.dfy | `utils.py` (and `blog.py:35-73`) |
| `Users` | user.dfy | `models/user.py`, and the name comparison of `valid_author` |
| `Posts` | post.dfy | `models/post.py` |
| `Comments` | comment.dfy | `models/comment.py` |
| `Datastore` | store.dfy | `put`, `delete` and id allocation |
| `Web` | web.dfy | outcomes, views and the handlers' messages |
| `Session` | session.dfy | `handlers/bloghandler.py` |
| `Gates` | gates.dfy | `handlers/decorator.py` |
| `Accounts` | accounts.dfy | `handlers/signup.py`, `handlers/login.py` |
| `PostHandlers` | posthandlers.dfy | `handlers/newpost.py`, `editpost.py`, `like.py`, `delpost.py` |
| `CommentHandlers` | commenthandlers.dfy | `handlers/newcomment.py`, `editcmt.py`, `delcmt.py` |
| `Monolith` | monolith.dfy | `blog.py` (the handlers whose checks differ from `handlers/`) |
| `App` | app.dfy | invariants, request dispatch and runs |

Modelling decisions:
- **The caller.** The caller's identity is `me: Option<int>`, the id `initialize` resolved.
  `self.user` is `Session.Me(users, me)`.
- **Falsy values and missing references.**
  - Python's falsy `None`/`''` become `None` or `""`.
  - Following a reference to a deleted user raises `ReferencePropertyResolveError`, as App
    Engine does.
  - Calling a method on a missing post (`None`) raises `AttributeError`.
- **Id allocation.** The datastore gives a new entity an id that is positive and unused. The
  model takes the next id above every key in use, so it may reuse the id of a deleted entity,
  which the datastore does not (see "## Left out"). No property depends on which fresh id is
  chosen beyond freshness and positivity.
- **Who owns what.** Ownership checks compare author NAMES, as the code does. `NameMatchIsIdentity`
  shows this is the same as comparing ids while names are unique, and `NamesakePasses` shows
  it is not otherwise.
- **`by_name`.** It returns the matching user with the least id.
- **`$` and the trailing newline.** Python's `$` also matches before a final `\n`. So
  `"abc\n"` is a valid user name, and `ValidUsernameExactly` says so.
- **ASCII encoding.** `valid_password` accepts any character but the newline, and cookies
  are arbitrary text. So a non-ASCII password makes sign-up raise before anything is stored
  (`Accounts.NonAsciiPasswordCrashesSignup`). At log-in it raises only for a registered
  name, while an unknown name gets the login form (`Accounts.NonAsciiPasswordRevealsName`).
  A cookie with a non-ASCII character before its bar makes every request raise in
  `initialize` (`Session.NonAsciiCookieRaises`).
- **Property checks.** A `StringProperty` refuses a newline and more than 1500 characters,
  and a required property refuses the empty value. The validators let a user name or an
  address end in one newline, and they do not bound an address's length. Sign-up with such
  a field therefore raises `BadValueError` in the `User` constructor, before anything is
  stored (`Accounts.NewlineNameCrashesSignup`). A post subject with a newline does the same
  in `NewPost` and `EditPost`.
- **`blog.py`'s `Comment.delete_comment`.** The function at `blog.py:213-218` is the same as
  the one in `models/comment.py`, and both are `Comments.DeleteComment`.

## Model

| member | source | states |
|---|---|---|
| Utils.ValidUsernameExactly | utils.py:10-12 | a user name passes iff it is 3 to 20 characters of `[a-zA-Z0-9_-]`, optionally followed by one `\n`; the empty name fails |
| Utils.ValidPasswordExactly | utils.py:14-16 | a password passes iff it is 3 to 20 non-newline characters, optionally followed by one `\n` |
| Utils.MatchRun | utils.py:10-16 | a greedy scan of at most 20 class characters, then end of text or a final newline, decides exactly the anchored pattern `^C{3,20}$` for a class without newline |
| Utils.EmailScanCorrect | utils.py:18-20 | the address pattern holds iff the text, minus one final newline, has no whitespace and its first `@` after the first character is followed by a `.` with at least one character on each side |
| Utils.ValidatorExamples | utils.py:10-20 | concrete decisions: `"ab"` and 21 letters fail, `"abc\n"` passes, `"ab\nc"` fails as a password, `""` and `"a@b.c"` pass as emails, `"a@b"` and `"a @b.c"` fail |
| Utils.HexHasNoSeparator | utils.py:30-31 | a hex digest is ASCII and contains neither a comma nor a bar, so the separators of the stored formats cannot occur in it |
| Utils.GeneratedSaltStorable | utils.py:24-25 | every five-letter salt `make_salt` can return is non-empty, comma-free and ASCII |
| Utils.HashFields | utils.py:27-31 | with a non-empty comma-free salt, a hash that is made (the input is ASCII) splits on `,` into exactly the digest of `name+pw+salt` and the salt |
| Utils.PwHashRoundTrip | utils.py:27-35 | whenever `make_pw_hash(n, p, s)` does not raise, `valid_pw(n, p, make_pw_hash(n, p, s))` is true, for every non-empty comma-free salt `s` |
| Utils.MakePwHash | utils.py:27-31 | `make_pw_hash` raises `UnicodeEncodeError` iff the name, the password or a given salt has a non-ASCII character, since `hashlib` encodes unicode with the ASCII codec |
| Utils.ValidUsernameAscii | utils.py:10-12 | a user name the validator accepts is ASCII |
| Utils.GeneratedHashRoundTrip | utils.py:24-35 | the hash with a drawn salt is made iff name and password are ASCII, and then it verifies them, whatever salt `make_salt` would draw next |
| Utils.ValidPwRaises | utils.py:33-35 | `valid_pw` raises `IndexError` iff the stored hash has no comma; with a comma it raises `UnicodeEncodeError` iff the name, the password or the salt field is not ASCII; nothing else is raised |
| Utils.EmptySaltFieldFails | utils.py:28-29 | a stored hash whose salt field is empty never verifies, because a fresh random salt replaces it: ASCII input gives false, other input raises `UnicodeEncodeError` |
| Utils.ValidPwAccepts | utils.py:33-35 | `valid_pw` is true iff name, password and salt are ASCII and the stored text is `digest(name+pw+salt) + "," + salt` for some non-empty comma-free salt |
| Utils.HashSeesOnlyConcatenation | utils.py:30 | splitting `name+pw` differently, e.g. ("ab","c") versus ("a","bc"), verifies against the same stored hash |
| Utils.WrongPasswordFails | utils.py:33-35 | a password whose salted digest differs from the stored one is rejected if it is ASCII, and raises `UnicodeEncodeError` otherwise |
| Utils.CookieRoundTrip | utils.py:41-48 | `check_secure_cookie(make_secure_cookie(s)) == s` for every `s` without a bar whose cookie is made |
| Utils.MakeSecureCookie | utils.py:41-43 | `make_secure_cookie(s)` raises `UnicodeEncodeError` iff `s` is not ASCII, since `hmac` encodes unicode with the ASCII codec; a cookie that is made is ASCII |
| Utils.CheckSecureCookieAccepts | utils.py:45-48 | `check_secure_cookie(h)` returns `v` iff `v` has no bar and `make_secure_cookie(v)` is exactly `h`; any other text gives `None` or raises |
| Utils.CheckSecureCookieRaises | utils.py:45-48 | `check_secure_cookie(h)` raises, with `UnicodeEncodeError`, iff a non-ASCII character comes before the first bar of `h` |
| Utils.CookieWithBarRejected | utils.py:45-48 | a value containing a bar is not recovered from its own cookie, which then reads as `None` |
| PyText.PyInt | handlers/bloghandler.py:53-59 | `int()` of a parameter either yields a number or raises `ValueError`, never another exception |
| PyText.PyIntReads | handlers/bloghandler.py:53-59 | whitespace (unicode separators included), an optional sign, whitespace, one or more digits and whitespace are read as the signed value of the digits |
| PyText.PyIntSpaceAfterPlus | handlers/bloghandler.py:55 | `int("+ 5")` is 5: a space may follow the sign |
| PyText.PyIntSpaceAfterMinus | handlers/bloghandler.py:55 | `int(" - 12\n")` is -12 |
| PyText.PyIntUnicodeSpace | handlers/bloghandler.py:55 | a no-break space before the digits and an ideographic space after them are skipped |
| PyText.PyIntRejectsExamples | handlers/bloghandler.py:55 | `"1 2"`, `"+-5"`, `""` and `"-"` raise |
| PyText.IntRoundTrip | handlers/bloghandler.py:50-51 | `int(str(n)) == n` for every integer, so the id written into a cookie parses back |
| PyText.PyIntOkShape | handlers/bloghandler.py:53-59 | `int()` of a parameter succeeds exactly when the text is whitespace, an optional sign, whitespace, one or more digits and whitespace, so every other text raises |
| PyText.PyIntRejectsTrailing | handlers/bloghandler.py:53-59 | `"12abc"`, `"5-"` and `"1 2 3"` make `int()` raise |
| PyText.NoDigitsNoInt | handlers/bloghandler.py:53-59 | a parameter with no decimal digit makes `int()` raise |
| Users.NewUser | models/user.py:12-14 | the constructor succeeds iff name and hash are non-empty single-line strings of at most 1500 characters and the email is a single-line string of at most 1500; otherwise `BadValueError` |
| Users.ByName | models/user.py:16-21 | `by_name` finds no user iff no user has that name; otherwise it finds a user with that name, the least id among them |
| Users.ByNameFindsTheUser | models/user.py:16-21 | under unique names, `by_name(name)` is `id` iff user `id` carries that name |
| Users.NameMatch | models/post.py:29-33 | the author test is false without a caller, raises iff the author record is missing, and otherwise compares names |
| Users.NameMatchIsIdentity | models/comment.py:50-53 | under unique names the name comparison for a registered caller is exactly an id comparison |
| Users.NamesakePasses | models/post.py:33 | two distinct users with the same name pass each other's author test |
| Posts.NewPost | models/post.py:18-23 | the constructor raises `BadValueError` iff the subject is empty, has a newline or exceeds 1500 characters, or the content is empty; otherwise the post has the given author, subject and content and empty like and comment lists |
| Posts.ValidAuthor | models/post.py:29-33 | false for no caller; otherwise true iff the post author's name equals the caller's, raising if the author is gone |
| Posts.UpdatePostContent | models/post.py:35-40 | the assignments raise `BadValueError` under the constructor's conditions; otherwise only subject and content change, and author, likes and comments are kept |
| Posts.AddLike | models/post.py:42-52 | the id is appended even if present, `user_already_liked` then holds, and `like_count` rises by exactly one |
| Posts.AddComment | models/post.py:54-60 | the id is appended at the end, earlier ids keep their order, and `comment_count` rises by one |
| Posts.DeleteComment | models/post.py:62-64 | raises `ValueError` iff the id is absent; otherwise exactly its first occurrence is removed and the count drops by one |
| Posts.DeleteUndoesAdd | models/post.py:54-64 | deleting an id just appended to a list without it gives the original post back |
| Posts.DeleteFromNoDup | models/post.py:62-64 | in a duplicate-free list the delete removes the id altogether and keeps every other id |
| Comments.GetComments | models/comment.py:22-32 | at most one comment per listed id (the contents are stated by the two lemmas below) |
| Comments.GetCommentsMembers | models/comment.py:22-32 | the result holds exactly the comments of the listed ids that exist |
| Comments.GetCommentsAllPresent | models/comment.py:22-32 | when every listed id exists, the result is their comments one for one, in list order |
| Comments.GetCommentsAppend | models/comment.py:28-31 | the lookup distributes over concatenation of id lists, so input order is kept and missing ids are skipped |
| Comments.GetAuthor | models/comment.py:34-37 | the author's name, raising iff the author record is missing; `App.ListedCommentLookups` shows it never raises for a listed comment of a store that keeps the invariants |
| Comments.GetAuthorById | models/comment.py:43-48 | a falsy result iff the id is falsy or names no comment; otherwise the author's name; `App.ListedCommentLookups` gives the name for every listed comment |
| Comments.ValidAuthor | models/comment.py:50-53 | false for no caller; otherwise the comment author's name compared with the caller's |
| Comments.UpdateText | models/comment.py:55-58 | the empty text raises `BadValueError`; otherwise only the text changes |
| Comments.DeleteComment | models/comment.py:60-65 | a falsy or unknown id changes nothing; otherwise exactly that comment is gone and every other comment is unchanged |
| Comments.DeleteComments | models/comment.py:67-71 | afterwards no listed (truthy) id exists and every unlisted comment is unchanged |
| Comments.DeleteCommentsIdempotent | models/comment.py:67-71 | a repeated bulk delete of the same ids changes nothing |
| Datastore.NewId | handlers/newpost.py:25-27 | a stored entity gets a positive id that no entity of its kind has |
| Datastore.CascadeIsDeleteComments | models/comment.py:67-71 | issuing one delete per listed id has exactly the effect of `delete_comments` on the comment table |
| Datastore.DeletePostCascade | handlers/delpost.py:18-21 | deleting a post's listed comments and then the post removes exactly those comments and the post, and nothing else |
| Session.UidFromCookie | handlers/bloghandler.py:40-43 | an absent or empty cookie gives nothing; a value comes out only of a cookie that is `make_secure_cookie` of that bar-free value; otherwise `check_secure_cookie`'s answer, including its raise |
| Session.Initialize | handlers/bloghandler.py:45-51 | no cookie means no user; a resolved user exists in the store; it raises `UnicodeEncodeError` iff checking the cookie does, and otherwise can fail only with `ValueError` from `int()` |
| Session.InitializeAccepts | handlers/bloghandler.py:45-51 | the session is user `uid` iff the user exists and the cookie is `make_secure_cookie(v)`, made without raising, of a text `v` that `int()` reads as `uid` |
| Session.CarriedValue | handlers/bloghandler.py:40-43 | a cookie `make_secure_cookie` produced from a bar-free value yields exactly that value |
| Session.ForgedCookieIsAnonymous | handlers/bloghandler.py:43-51 | a cookie `check_secure_cookie` rejects without raising leaves the caller anonymous |
| Session.NonAsciiCookieRaises | handlers/bloghandler.py:43-51 | a cookie with a non-ASCII character before its first bar makes `initialize` raise `UnicodeEncodeError` |
| Session.NonAsciiCookieExample | handlers/bloghandler.py:43-51 | the cookie made of `\u00e9`, a bar and `x` makes `initialize` raise |
| Session.SessionCookie | handlers/signup.py:52 | `make_secure_cookie(str(uid))` never raises |
| Session.SessionRoundTrip | handlers/bloghandler.py:50-51 | the cookie issued for a user's id resolves to that user |
| Session.UnknownIdIsAnonymous | handlers/bloghandler.py:50-51 | a correctly signed id that no user has resolves to no user |
| Session.Me | handlers/bloghandler.py:51 | `self.user` is a record iff the resolved id is in the user table, and then it is that record |
| Gates.UserLoggedIn | handlers/decorator.py:33-42 | the handler runs iff there is a user; otherwise the answer is the login redirect |
| Gates.PostExists | handlers/decorator.py:5-17 | the handler runs iff `int(blog_id)` names a post; otherwise 404, or `ValueError` for a non-number |
| Gates.CommentExists | handlers/decorator.py:19-31 | the same for comment ids |
| Gates.Stack | handlers/newcomment.py:20-22 | stacked wrappers run the handler iff all pass; otherwise the outermost stopping wrapper answers |
| Gates.LoginBeforeExistence | handlers/newcomment.py:20-22 | an anonymous caller is sent to log in even for a missing post; the body runs iff logged in and the post exists |
| Accounts.InputErrors | handlers/signup.py:27-38 | each of the four messages is set iff its check fails; the mismatch check runs only for a valid password, so at most one password message shows |
| Accounts.Signup | handlers/signup.py:41-56 | on an input error or a taken name nothing is written and no cookie set; a non-ASCII password raises `UnicodeEncodeError` and a name or address the entity refuses raises `BadValueError`, with nothing written; otherwise exactly one fresh user with `make_pw_hash(username, password)` is stored and the cookie is the signed `str(uid)` |
| Accounts.StoredHashOk | handlers/signup.py:47-48 | a stored hash that is made always fits a required string property |
| Accounts.NewUserAcceptsValidInput | handlers/signup.py:45-48 | for validated input the hash is made iff the password is ASCII, and the `User` constructor then succeeds iff neither the name nor the address has a newline and the address has at most 1500 characters |
| Accounts.NewlineNameCrashesSignup | handlers/signup.py:27-48 | `"abc\n"` passes `valid_username`, and signing up with it raises `BadValueError` |
| Accounts.NonAsciiPasswordCrashesSignup | handlers/signup.py:30-47 | `"p\u00e9ss"` passes `valid_password`, and signing up with it raises `UnicodeEncodeError` with nothing written |
| Accounts.Login | handlers/login.py:14-32 | writes nothing; an unknown name gets the login form; sets a cookie iff the named user exists and `valid_pw` is true, and then the cookie is the signed `str(uid)`; it crashes only with `IndexError` or `UnicodeEncodeError`, and a non-ASCII password for a found user with a comma in its stored hash raises the latter |
| Accounts.LoginFailuresLookAlike | handlers/login.py:29-32 | an unknown name and a wrong password that `valid_pw` rejects without raising get the identical answer, without a cookie |
| Accounts.NonAsciiPasswordRevealsName | handlers/login.py:19-32 | with a non-ASCII password, a registered name makes log-in raise while an unknown name gets the login form |
| Accounts.SignupSession | handlers/signup.py:50-54 | whenever sign-up stores a user, the cookie it sets resolves to that user |
| Accounts.SignupStoresUser | handlers/signup.py:47-49 | whenever sign-up stores a user, `by_name` then finds it, and its stored hash is the one made from the password |
| Accounts.SignupThenLogin | handlers/login.py:19-24 | whenever sign-up stores a user, log-in with the same name and password succeeds and sets the same cookie |
| Accounts.SignupKeepsNamesUnique | handlers/signup.py:41-49 | sign-up never creates a second user with an existing name |
| PostHandlers.NewPost | handlers/newpost.py:13-39 | anonymous: login redirect; not `Save`: welcome; an empty field: the form with the error; a subject the entity refuses: `BadValueError` with nothing written; otherwise one fresh post by the caller, then its permalink |
| PostHandlers.EditPost | handlers/editpost.py:27-51 | behind its gate: not `Save`: the permalink; an empty field: the form with the error; a subject the entity refuses: `BadValueError` with nothing written; otherwise the post is written with only subject and content changed |
| PostHandlers.Like | handlers/like.py:8-30 | non-number: `ValueError`; anonymous: login; missing post: `AttributeError`; a missing author record: `ReferencePropertyResolveError`; the author by name: the own-post message; a repeat liker: the repeat message; otherwise exactly the like is appended |
| PostHandlers.LikeOnlyOnce | handlers/like.py:22-26 | after a successful like, the same like is refused as a repeat |
| PostHandlers.DeletePost | handlers/delpost.py:11-34 | missing post: welcome (before login); anonymous: login; non-author: the permalink with the delete message; a missing author record: `ReferencePropertyResolveError`; author: delete each listed comment, then the post |
| PostHandlers.DeletePostEffect | handlers/delpost.py:17-21 | the author's delete removes the post and exactly its listed comments; users, other posts and unlisted comments are kept |
| CommentHandlers.NewCommentBody | handlers/newcomment.py:22-47 | `Save` with text puts a fresh comment on this post by the caller, then the post with its id appended; otherwise nothing is written |
| CommentHandlers.NewComment | handlers/newcomment.py:20-21 | login is checked before existence, and the body runs only when both pass |
| CommentHandlers.NewCommentEffect | handlers/newcomment.py:32-38 | a creation adds exactly the comment and the id at the end of its post's list |
| CommentHandlers.MayChange | handlers/editcmt.py:38 | true iff the post and the comment exist and the caller is the comment's author by name; the comment's post is not looked at |
| CommentHandlers.Refuse | handlers/editcmt.py:22-26 | the refusal writes nothing and crashes with `AttributeError` iff the post is missing |
| CommentHandlers.EditCommentGet | handlers/editcmt.py:11-28 | writes nothing; the edit form, with the current text, is shown iff the caller may change the comment |
| CommentHandlers.EditCommentPost | handlers/editcmt.py:30-63 | a write happens iff the author saves non-empty text, and it changes only that comment's text; a refused caller or a cancel goes back to the permalink; empty text shows the form with the error |
| CommentHandlers.DeleteComment | handlers/delcmt.py:12-36 | writes happen iff the author deletes an id the post lists, and they are the post without it, then the comment's delete; an unlisted id raises `ValueError` before any write; a refused caller gets the refusal |
| CommentHandlers.DeleteCommentEffect | handlers/delcmt.py:20-25 | the delete drops the comment and one listing of it, the count falls by one, and no other record changes |
| Monolith.GetTextById | blog.py:190-194 | the text for a truthy id naming a comment; otherwise a falsy value; `App.ListedCommentLookups` gives the text for every listed comment |
| Monolith.DeletePostWrites | blog.py:165-171 | deletes of listed comment ids only, and the post's delete last |
| Monolith.DeletePostRemovesListed | blog.py:165-171 | `delete_post` removes the post and exactly the comments it lists |
| Monolith.PostOwnerCheck | blog.py:431-451 | existence is checked first (welcome), then login, then authorship (the given refusal); it lets the handler go on iff the gated `EditPost` precondition holds |
| Monolith.EditPostGet | blog.py:431-451 | the filled form is shown iff the caller is the author of an existing post |
| Monolith.EditPost | blog.py:453-490 | with the gate satisfied it is the gated `EditPost`; without it nothing is written: a missing post goes to welcome, an anonymous caller to login, and a non-author gets the edit message |
| Monolith.DeletePost | blog.py:498-517 | it answers exactly as `handlers/delpost.py` |
| Monolith.Like | blog.py:536-554 | it writes exactly what `handlers/like.py` writes; a recorded like renders the permalink page instead of redirecting |
| Monolith.NewComment | blog.py:568-599 | with an existing post it is the gated handler's body; on a crash after a parsed id it has put one comment with no post |
| Monolith.DeleteComment | blog.py:666-688 | it writes exactly what `handlers/delcmt.py` writes, and its refusal does not crash |
| App.Handle | handlers/bloghandler.py:45-51 | no handler crashes after writing, only the account handlers set cookies, and only sign-up stores users |
| App.Serve | handlers/bloghandler.py:45-51 | a failing `initialize` crashes with its exception before any write, and a crash never leaves writes behind |
| App.SignupPreservesInv | handlers/signup.py:45-49 | sign-up keeps the store invariant |
| App.LoginPreservesInv | handlers/login.py:14-32 | log-in leaves the store as it was |
| App.NewPostPreservesInv | handlers/newpost.py:21-28 | creating a post keeps the store invariant |
| App.EditPostPreservesInv | handlers/editpost.py:38-43 | editing a post behind its gate keeps the store invariant |
| App.LikePreservesInv | handlers/like.py:14-30 | a like keeps every like list duplicate-free and free of the author's namesakes |
| App.DeletePostPreservesInv | handlers/delpost.py:17-21 | the cascade delete leaves no comment pointing at the deleted post |
| App.NewCommentPreservesInv | handlers/newcomment.py:30-38 | creating a comment keeps posts and comments linked both ways |
| App.EditCommentPreservesInv | handlers/editcmt.py:44-47 | editing a comment keeps the store invariant |
| App.DeleteCommentPreservesInv | handlers/delcmt.py:20-25 | deleting a comment keeps posts and comments linked both ways |
| App.HandlePreservesInv | handlers/bloghandler.py:45-51 | every dispatched handler keeps the store invariant |
| App.ListedCommentLookups | models/comment.py:34-48 | on a store that keeps the invariants, for every comment a post lists, `get_author`, `get_author_by_id` and `get_text_by_id` find the author's name and the text, and never raise |
| App.ServePreservesInv | handlers/bloghandler.py:40-51 | serving a request with any cookie keeps the store invariant |
| App.RunPreservesInv | handlers/bloghandler.py:45-51 | any sequence of requests with any cookies keeps the store invariant |
| App.ReachableStores | handlers/bloghandler.py:45-51 | from an empty store, every like list is duplicate-free and has no namesake of the author, and every comment belongs to a post that lists it |
| App.NewCommentWindow | handlers/newcomment.py:34-38 | between the two puts the new comment points at a post that does not list it; after both, the store is linked |
| App.DeleteCommentWindow | handlers/delcmt.py:22-25 | between the post's put and the comment's delete the comment points at a post that no longer lists it |
| App.MonolithNewCommentOrphans | blog.py:568-586 | on a missing post `blog.py` stores a comment with no post, then crashes, leaving a store that breaks the invariant |
| App.ModularNewCommentRefuses | handlers/newcomment.py:20-21 | the same request to `handlers/newcomment.py` writes nothing and answers 404 |

## Left out

- SHA-256, HMAC-MD5 and `random.choice` are not modelled. The digests are parameters with hex output, and the drawn salt is a parameter. What is modelled is that Python 2 encodes their unicode input with the ASCII codec, which raises `UnicodeEncodeError` (a subclass of `ValueError`) on any other character.
- Utils.WrongPasswordFails: stated under the premise that the two salted digests differ, since nothing about a real digest's collisions can be proved here.
- The claim that a tampered cookie passes only by forging an HMAC tag is not modelled, because it needs assumptions about the MAC. `CheckSecureCookieAccepts` states exactly which texts are accepted.
- The hard-coded HMAC key is the field `Crypto.secret`. No property depends on its value.
- HMAC tags have no fixed length in the model; nothing depends on it.
- Datastore.NewId: the model takes the next id above every key in use, so once the entity with the highest id is deleted, its id is given to the next new entity of its kind. The App Engine allocator never reuses a deleted entity's id, so in the model a stale id parameter or link can reach a newer record, which the deployed system rules out. No proved property depends on ids not being reused.
- PyText.PyInt: a character `int()` cannot encode raises `UnicodeEncodeError` in Python 2; the model reports it as its base class `ValueError`.
- PyText.PyInt: decimal digits outside ASCII (such as Arabic-Indic digits), which Python 2's `int()` reads by their digit value, are treated as invalid and raise `ValueError`.
- The required-text check of the `Comment` constructor is not modelled, because both handlers that create comments refuse empty text first.
- Salts are ASCII letters (`string.letters` in the C locale). Other locales' letters are not modelled.
- Jinja templates, HTTP headers and webapp2 routing are not modelled. A render is its view and error message, a redirect is its path, and `self.error(404)` is `NotFound`.
- The GET handlers that only render (signup, login, new post, new comment), `permalink.py`, `logout.py`, `welcome.py` and `mainpage.py` are not modelled. They write nothing.
- The `created` timestamps are not modelled, and neither are the ordered, limited queries of the welcome and main pages.
- Datastore internals are not modelled: `get_by_id` is a map lookup, and non-positive ids are simply absent.
- Concurrency is not modelled. Requests run one at a time, so the check-then-put race on user names in `handlers/signup.py:41-49` is not modelled.
- PostHandlers.EditPost: the wrappers `post_exists2` and `user_owns_post` are defined nowhere. Their assumed effect is the precondition `EditGate`, so `EditPost.post` is not in the `App.Serve` dispatcher; `App.EditPostPreservesInv` covers it separately.
- `EditPost.get` of `handlers/editpost.py` is not modelled; it sits behind the same undefined wrappers. `blog.py`'s version is `Monolith.EditPostGet`.
- `user_logged_in` discards the value a wrapped handler returns. The model's handlers return no value besides their response, so nothing is lost.
- `blog.py`'s `EditComment` is not modelled separately. Its `post` is the same as `handlers/editcmt.py`. Its `get` differs only in not listing comments on refusal.
- `BlogPost.get_comment` and `get_comment_author` of `blog.py` are not modelled separately. They delegate to `Monolith.GetTextById` and `Comments.GetAuthorById`.
- Routing regexes such as `/blog/(\d+)` are not modelled. Id parameters are arbitrary text, so the `ValueError` paths are kept even where a route would exclude them.

## Findings

| source | as written | input that shows it | evidently intended | confidence | as-written member | corrected member |
|---|---|---|---|---|---|---|
| blog.py:568-586 | `NewComment.post` stores the comment before touching the post, and never checks that the post exists | a logged-in `Save` with non-empty text for a `blog_id` that names no post: the comment is put with an unset post reference, then `blog_post.add_comment` raises `AttributeError` on `None` | refuse a missing post before any write, as the `@post_exists` wrapper does in `handlers/newcomment.py` | high; not executed | App.MonolithNewCommentOrphans | App.NewCommentPreservesInv |
