/** Comment handlers: `NewComment.post` (`handlers/newcomment.py`), `EditComment.get` and
    `EditComment.post` (`handlers/editcmt.py`) and `DeleteComment.get` (`handlers/delcmt.py`).
    `blogId` is the post id from the URL and `cidParam` the `cid` request parameter, both
    parsed with `int()`. */
module CommentHandlers {
  import opened Wrappers
  import opened PyText
  import opened Users
  import opened Posts
  import opened Comments
  import opened Datastore
  import opened Web
  import opened Session
  import opened Gates

  /** The body of `NewComment.post`, reached only through its wrappers. The comment is put
      first; the post, with the new id appended to its list, second. */
  function NewCommentBody(st: Store, me: Option<int>, blogId: string, action: string, text: string): (r: Response)
    requires Me(st.users, me).Some? && PyInt(blogId).Ok? && PyInt(blogId).value in st.posts
    ensures r.cookie.None?
    ensures r.writes != [] <==> action == Save && text != ""
    ensures var pid := PyInt(blogId).value;
            r.writes != [] ==>
              && |r.writes| == 2 && r.writes[0].PutComment? && r.writes[0].cid !in st.comments
              && r.writes[0].comment == Comment(Some(pid), me.value, text)
              && r.writes[1] == PutPost(pid, AddComment(st.posts[pid], r.writes[0].cid))
              && r.outcome == Redirect(ToPost(pid))
    ensures action != Save ==> r == Answer(Redirect(ToPost(PyInt(blogId).value)))
    ensures action == Save && text == "" ==> r == Answer(Render(CommentForm("", MissingCommentText)))
  {
    var pid := PyInt(blogId).value;
    if action != Save then Answer(Redirect(ToPost(pid)))
    else if text == "" then Answer(Render(CommentForm("", MissingCommentText)))
    else
      var cid := NewId(st.comments);
      Response([PutComment(cid, Comment(Some(pid), me.value, text)),
                PutPost(pid, AddComment(st.posts[pid], cid))], None, Redirect(ToPost(pid)))
  }

  /** `NewComment.post` under `@user_logged_in` and `@post_exists`, outermost first. */
  function NewComment(st: Store, me: Option<int>, blogId: string, action: string, text: string): (r: Response)
    ensures Me(st.users, me).None? ==> r == Answer(Redirect(ToLogin))
    ensures Me(st.users, me).Some? && PyInt(blogId).Raise? ==> r == Answer(Crash(ValueError))
    ensures Me(st.users, me).Some? && PyInt(blogId).Ok? && PyInt(blogId).value !in st.posts ==> r == Answer(NotFound)
    ensures Me(st.users, me).Some? && PyInt(blogId).Ok? && PyInt(blogId).value in st.posts ==>
              r == NewCommentBody(st, me, blogId, action, text)
  {
    var user := Me(st.users, me);
    LoginBeforeExistence(st, user, blogId);
    match Stack([UserLoggedIn(user), PostExists(st, blogId)])
    case Stop(o) => Answer(o)
    case Pass => NewCommentBody(st, me, blogId, action, text)
  }

  /** The test both comment handlers apply once the caller is logged in: the post and the
      comment exist and the caller is the comment's author by name. Which post the comment
      belongs to is not looked at. */
  function MayChange(st: Store, user: Option<User>, pid: int, cid: int): (r: Py<bool>)
    ensures r.Raise? ==> r.exc == ReferencePropertyResolveError
    ensures r == Ok(true) <==> pid in st.posts && cid in st.comments &&
                               Comments.ValidAuthor(st.users, st.comments[cid], user) == Ok(true)
  {
    if pid !in st.posts || cid !in st.comments then Ok(false)
    else Comments.ValidAuthor(st.users, st.comments[cid], user)
  }

  /** The refusal of the comment handlers: it lists the post's comments, which raises
      `AttributeError` when the post does not exist. */
  function Refuse(st: Store, pid: int, message: string): (r: Response)
    ensures r.writes == [] && r.cookie.None?
    ensures r.outcome == if pid in st.posts then Render(PermalinkView(message)) else Crash(AttributeError)
  {
    if pid in st.posts then Answer(Render(PermalinkView(message))) else Answer(Crash(AttributeError))
  }

  /** `EditComment.get`: the comment's author gets the edit form with the current text. */
  function EditCommentGet(st: Store, me: Option<int>, blogId: string, cidParam: string): (r: Response)
    ensures r.writes == [] && r.cookie.None?
    ensures PyInt(blogId).Raise? || PyInt(cidParam).Raise? ==> r.outcome == Crash(ValueError)
    ensures PyInt(blogId).Ok? && PyInt(cidParam).Ok? && Me(st.users, me).None? ==> r.outcome == Redirect(ToLogin)
    ensures r.outcome.Render? && r.outcome.view.CommentForm? <==>
              PyInt(blogId).Ok? && PyInt(cidParam).Ok? &&
              MayChange(st, Me(st.users, me), PyInt(blogId).value, PyInt(cidParam).value) == Ok(true)
    ensures r.outcome.Render? && r.outcome.view.CommentForm? ==>
              r.outcome.view == CommentForm(st.comments[PyInt(cidParam).value].text, "")
  {
    match PyInt(blogId)
    case Raise(e) => Answer(Crash(e))
    case Ok(pid) =>
      match PyInt(cidParam)
      case Raise(e) => Answer(Crash(e))
      case Ok(cid) =>
        var user := Me(st.users, me);
        if user.None? then Answer(Redirect(ToLogin))
        else match MayChange(st, user, pid, cid)
          case Raise(e) => Answer(Crash(e))
          case Ok(ok) =>
            if ok then Answer(Render(CommentForm(st.comments[cid].text, "")))
            else Refuse(st, pid, NotCommentAuthorEdit)
  }

  /** `EditComment.post`: the comment's author saving non-empty text replaces that comment's
      text; every other request changes nothing. */
  function EditCommentPost(st: Store, me: Option<int>, blogId: string, cidParam: string, action: string,
                           text: string): (r: Response)
    ensures r.cookie.None?
    ensures PyInt(blogId).Raise? || PyInt(cidParam).Raise? ==> r == Answer(Crash(ValueError))
    ensures PyInt(blogId).Ok? && PyInt(cidParam).Ok? && Me(st.users, me).None? ==> r == Answer(Redirect(ToLogin))
    ensures PyInt(blogId).Ok? && PyInt(cidParam).Ok? && Me(st.users, me).Some? ==>
              var pid, may := PyInt(blogId).value, MayChange(st, Me(st.users, me), PyInt(blogId).value, PyInt(cidParam).value);
              && (may.Raise? ==> r == Answer(Crash(ReferencePropertyResolveError)))
              && (may == Ok(false) || (may == Ok(true) && action != Save) ==> r == Answer(Redirect(ToPost(pid))))
              && (may == Ok(true) && action == Save && text == "" ==>
                    r == Answer(Render(CommentForm("", MissingCommentText))))
    ensures r.writes != [] <==>
              PyInt(blogId).Ok? && PyInt(cidParam).Ok? && action == Save && text != "" &&
              MayChange(st, Me(st.users, me), PyInt(blogId).value, PyInt(cidParam).value) == Ok(true)
    ensures r.writes != [] ==>
              var cid := PyInt(cidParam).value;
              r.writes == [PutComment(cid, st.comments[cid].(text := text))]
              && r.outcome == Redirect(ToPost(PyInt(blogId).value))
  {
    match PyInt(blogId)
    case Raise(e) => Answer(Crash(e))
    case Ok(pid) =>
      match PyInt(cidParam)
      case Raise(e) => Answer(Crash(e))
      case Ok(cid) =>
        var user := Me(st.users, me);
        if user.None? then Answer(Redirect(ToLogin))
        else match MayChange(st, user, pid, cid)
          case Raise(e) => Answer(Crash(e))
          case Ok(ok) =>
            if !ok || action != Save then Answer(Redirect(ToPost(pid)))
            else if text == "" then Answer(Render(CommentForm("", MissingCommentText)))
            else match UpdateText(st.comments[cid], text)
              case Raise(e) => Answer(Crash(e))
              case Ok(cmt) => Response([PutComment(cid, cmt)], None, Redirect(ToPost(pid)))
  }

  /** `DeleteComment.get`: for the comment's author the id is removed from the post's list,
      the post is put, and then the comment is deleted. An id the post does not list makes
      `list.remove` raise before anything is written. */
  function DeleteComment(st: Store, me: Option<int>, blogId: string, cidParam: string): (r: Response)
    ensures r.cookie.None?
    ensures PyInt(blogId).Raise? || PyInt(cidParam).Raise? ==> r == Answer(Crash(ValueError))
    ensures PyInt(blogId).Ok? && PyInt(cidParam).Ok? && Me(st.users, me).None? ==> r == Answer(Redirect(ToLogin))
    ensures PyInt(blogId).Ok? && PyInt(cidParam).Ok? && Me(st.users, me).Some? ==>
              var pid, cid := PyInt(blogId).value, PyInt(cidParam).value;
              var may := MayChange(st, Me(st.users, me), pid, cid);
              && (may.Raise? ==> r == Answer(Crash(ReferencePropertyResolveError)))
              && (may == Ok(false) ==> r == Refuse(st, pid, NotCommentAuthorDelete))
              && (may == Ok(true) && cid !in st.posts[pid].comments ==> r == Answer(Crash(ValueError)))
    ensures r.writes != [] <==>
              PyInt(blogId).Ok? && PyInt(cidParam).Ok? &&
              MayChange(st, Me(st.users, me), PyInt(blogId).value, PyInt(cidParam).value) == Ok(true) &&
              PyInt(cidParam).value in st.posts[PyInt(blogId).value].comments
    ensures r.writes != [] ==>
              var pid, cid := PyInt(blogId).value, PyInt(cidParam).value;
              r.writes == [PutPost(pid, Posts.DeleteComment(st.posts[pid], cid).value), DelComment(cid)]
              && r.outcome == Redirect(ToPost(pid))
  {
    match PyInt(blogId)
    case Raise(e) => Answer(Crash(e))
    case Ok(pid) =>
      match PyInt(cidParam)
      case Raise(e) => Answer(Crash(e))
      case Ok(cid) =>
        var user := Me(st.users, me);
        if user.None? then Answer(Redirect(ToLogin))
        else match MayChange(st, user, pid, cid)
          case Raise(e) => Answer(Crash(e))
          case Ok(ok) =>
            if !ok then Refuse(st, pid, NotCommentAuthorDelete)
            else match Posts.DeleteComment(st.posts[pid], cid)
              case Raise(e) => Answer(Crash(e))
              case Ok(post) => Response([PutPost(pid, post), DelComment(cid)], None, Redirect(ToPost(pid)))
  }

  /** A completed delete drops the comment and one listing of it, and nothing else: the
      post's comment count falls by one and every other record is as it was. */
  lemma DeleteCommentEffect(st: Store, me: Option<int>, blogId: string, cidParam: string)
    requires DeleteComment(st, me, blogId, cidParam).writes != []
    ensures var pid, cid := PyInt(blogId).value, PyInt(cidParam).value;
            var st' := Apply(st, DeleteComment(st, me, blogId, cidParam).writes);
            && st'.users == st.users
            && st'.comments == st.comments - {cid}
            && st'.posts == st.posts[pid := Posts.DeleteComment(st.posts[pid], cid).value]
            && CommentCount(st'.posts[pid]) == CommentCount(st.posts[pid]) - 1
            && (forall k :: k in st.posts && k != pid ==> st'.posts[k] == st.posts[k])
  {
    var pid, cid := PyInt(blogId).value, PyInt(cidParam).value;
    var w := DeleteComment(st, me, blogId, cidParam).writes;
    assert w == [w[0]] + [w[1]];
    ApplyConcat(st, [w[0]], [w[1]]);
    ApplyOne(st, w[0]);
    ApplyOne(Step(st, w[0]), w[1]);
  }

  /** A completed comment creation stores the comment and appends its id to the post's list,
      changing nothing else. */
  lemma NewCommentEffect(st: Store, me: Option<int>, blogId: string, action: string, text: string)
    requires NewComment(st, me, blogId, action, text).writes != []
    ensures var pid := PyInt(blogId).value;
            var w := NewComment(st, me, blogId, action, text).writes;
            var cid := w[0].cid;
            Apply(st, w) == Store(st.users, st.posts[pid := AddComment(st.posts[pid], cid)],
                                  st.comments[cid := Comment(Some(pid), me.value, text)])
  {
    var w := NewComment(st, me, blogId, action, text).writes;
    assert w == [w[0]] + [w[1]];
    ApplyConcat(st, [w[0]], [w[1]]);
    ApplyOne(st, w[0]);
    ApplyOne(Step(st, w[0]), w[1]);
  }
}
