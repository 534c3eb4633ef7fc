/** What a request handler produces, with templates and routing reduced to tags: the writes
    it made, the session cookie it set (if any) and how it answered. */
module Web {
  import opened Wrappers
  import opened Datastore

  /** The redirect targets: `/blog/login`, `/blog/welcome` and a post's permalink `/blog/<id>`. */
  datatype Path = ToLogin | ToWelcome | ToPost(id: int)

  /** The rendered templates, with the error message each one shows. */
  datatype View =
    | SignupForm(userError: string, passwdError: string, verifyError: string, emailError: string)
    | LoginForm(error: string)
    | PostForm(subject: string, content: string, error: string)
    | CommentForm(text: string, error: string)
    | PermalinkView(error: string)

  /** How a request ends: a redirect, a page, a 404, or an uncaught exception. */
  datatype Outcome = Redirect(to: Path) | Render(view: View) | NotFound | Crash(exc: Exception)

  datatype Response = Response(writes: seq<Write>, cookie: Option<string>, outcome: Outcome)

  /** A response that writes nothing and sets no cookie. */
  function Answer(o: Outcome): Response {
    Response([], None, o)
  }

  const BadUsername := "That's not a valid username"
  const BadPassword := "That wasn't a valid password"
  const PasswordMismatch := "Your passwords didn't match"
  const BadEmail := "That's not a valid email"
  const UserExists := "The user already exists"
  const BadLogin := "Invalid username or password"
  const MissingPostText := "Please enter subject and content"
  const MissingCommentText := "Please enter a comment"
  const OwnPostLike := "Authors aren't permitted to like their own posts"
  const RepeatLike := "Users are only permitted to like a post once"
  const NotPostAuthorDelete := "Users can only delete their own posts"
  const NotPostAuthorEdit := "Users can only edit their own posts"
  const NotCommentAuthorDelete := "Users can only delete comments they have made."
  const NotCommentAuthorEdit := "Users can only edit comments they themselves have made."

  /** The form action that saves; any other action, the empty one included, cancels. */
  const Save := "Save"
}
