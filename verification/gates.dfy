/** The wrappers of `handlers/decorator.py`. A wrapper either lets the wrapped handler run or
    answers the request itself; stacked wrappers are tried outermost first. */
module Gates {
  import opened Wrappers
  import opened PyText
  import opened Users
  import opened Datastore
  import opened Web

  datatype Gate = Pass | Stop(outcome: Outcome)

  /** `user_logged_in`: without a user the request is sent to the login page. */
  function UserLoggedIn(user: Option<User>): (g: Gate)
    ensures g.Pass? <==> user.Some?
    ensures g.Stop? ==> g.outcome == Redirect(ToLogin)
  {
    if user.Some? then Pass else Stop(Redirect(ToLogin))
  }

  /** `post_exists`: the id is parsed with `int()` (a non-number raises `ValueError`) and
      a missing post answers 404. */
  function PostExists(st: Store, blogId: string): (g: Gate)
    ensures g.Pass? <==> PyInt(blogId).Ok? && PyInt(blogId).value in st.posts
    ensures g.Stop? && PyInt(blogId).Ok? ==> g.outcome == NotFound
    ensures PyInt(blogId).Raise? ==> g == Stop(Crash(ValueError))
  {
    match PyInt(blogId)
    case Raise(e) => Stop(Crash(e))
    case Ok(id) => if id in st.posts then Pass else Stop(NotFound)
  }

  /** `comment_exists`: the same test against the comment table. */
  function CommentExists(st: Store, cid: string): (g: Gate)
    ensures g.Pass? <==> PyInt(cid).Ok? && PyInt(cid).value in st.comments
    ensures g.Stop? && PyInt(cid).Ok? ==> g.outcome == NotFound
    ensures PyInt(cid).Raise? ==> g == Stop(Crash(ValueError))
  {
    match PyInt(cid)
    case Raise(e) => Stop(Crash(e))
    case Ok(id) => if id in st.comments then Pass else Stop(NotFound)
  }

  /** A stack of wrappers, outermost first: the first one that answers decides. */
  function Stack(gates: seq<Gate>): (g: Gate)
    ensures g.Pass? <==> forall i :: 0 <= i < |gates| ==> gates[i].Pass?
    ensures g.Stop? ==> exists i :: 0 <= i < |gates| && gates[i] == g && forall j :: 0 <= j < i ==> gates[j].Pass?
    decreases |gates|
  {
    if gates == [] then Pass
    else if gates[0].Stop? then gates[0]
    else
      var g := Stack(gates[1..]);
      assert forall i :: 1 <= i < |gates| ==> gates[i] == gates[1..][i - 1];
      if g.Stop? then
        var i :| 0 <= i < |gates[1..]| && gates[1..][i] == g && forall j :: 0 <= j < i ==> gates[1..][j].Pass?;
        assert gates[i + 1] == g;
        g
      else g
  }

  /** `@user_logged_in` over `@post_exists`: a caller who is not logged in is sent to log in
      whatever the id, and the body runs only for a logged-in caller and an existing post. */
  lemma LoginBeforeExistence(st: Store, user: Option<User>, blogId: string)
    ensures user.None? ==> Stack([UserLoggedIn(user), PostExists(st, blogId)]) == Stop(Redirect(ToLogin))
    ensures Stack([UserLoggedIn(user), PostExists(st, blogId)]).Pass? <==>
            user.Some? && PyInt(blogId).Ok? && PyInt(blogId).value in st.posts
  {
    var gs := [UserLoggedIn(user), PostExists(st, blogId)];
    if user.None? {
      var g := Stack(gs);
      var i :| 0 <= i < |gs| && gs[i] == g && forall j :: 0 <= j < i ==> gs[j].Pass?;
      assert i == 0;
    }
  }
}
