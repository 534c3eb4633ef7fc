/** `blog.py`, the single-file revision of the blog: its comment-text helper and the handlers
    whose checks are written inline and differ from the later per-file handlers. Its string
    helpers are the ones of module `Utils`, and its entity methods are those of `Posts` and
    `Comments`. */
module Monolith {
  import opened Wrappers
  import opened PyText
  import opened Users
  import opened Posts
  import opened Comments
  import opened Datastore
  import opened Web
  import opened Session
  import opened Gates
  import PostHandlers
  import CommentHandlers

  /** `Comment.get_text_by_id(cid)`: the comment's text, or a falsy value (here `None`) for a
      falsy id or a missing comment. */
  function GetTextById(table: map<int, Comment>, cid: int): (r: Option<string>)
    ensures r.Some? <==> cid != 0 && cid in table
    ensures r.Some? ==> r.value == table[cid].text
  {
    if cid != 0 && cid in table then Some(table[cid].text) else None
  }

  /** `BlogPost.delete_post()`: `Comment.delete_comment` for each listed id, then the post. */
  function DeletePostWrites(pid: int, p: Post): (ws: seq<Write>)
    ensures |ws| >= 1 && ws[|ws| - 1] == DelPost(pid)
    ensures forall i :: 0 <= i < |ws| - 1 ==> ws[i].DelComment? && ws[i].cid in p.comments
  {
    DeleteCommentsWrites(p.comments) + [DelPost(pid)]
  }

  /** `delete_post` removes the post and exactly the comments it lists. */
  lemma DeletePostRemovesListed(st: Store, pid: int)
    requires pid in st.posts
    ensures Apply(st, DeletePostWrites(pid, st.posts[pid])) ==
            Store(st.users, st.posts - {pid}, DeleteComments(st.comments, st.posts[pid].comments))
  {
    DeletePostCascade(st, pid);
  }

  /** The inline checks of `EditPost` and `DeletePost`, in their order: a missing post goes to
      the welcome page, then a caller who is not logged in to the login page, then a caller
      who is not the author gets `refusal`. */
  function PostOwnerCheck(st: Store, me: Option<int>, blogId: string, refusal: string): (r: Py<Gate>)
    ensures PyInt(blogId).Raise? ==> r == Raise(ValueError)
    ensures PyInt(blogId).Ok? && PyInt(blogId).value !in st.posts ==> r == Ok(Stop(Redirect(ToWelcome)))
    ensures PyInt(blogId).Ok? && PyInt(blogId).value in st.posts && Me(st.users, me).None? ==>
              r == Ok(Stop(Redirect(ToLogin)))
    ensures PyInt(blogId).Ok? && PyInt(blogId).value in st.posts && Me(st.users, me).Some? ==>
              var author := Posts.ValidAuthor(st.users, st.posts[PyInt(blogId).value], Me(st.users, me));
              && (author.Raise? ==> r == Raise(ReferencePropertyResolveError))
              && (author == Ok(false) ==> r == Ok(Stop(Render(PermalinkView(refusal)))))
    ensures r == Ok(Pass) <==> PostHandlers.EditGate(st, me, blogId)
  {
    match PyInt(blogId)
    case Raise(e) => Raise(e)
    case Ok(pid) =>
      if pid !in st.posts then Ok(Stop(Redirect(ToWelcome)))
      else
        var user := Me(st.users, me);
        if user.None? then Ok(Stop(Redirect(ToLogin)))
        else match Posts.ValidAuthor(st.users, st.posts[pid], user)
          case Raise(e) => Raise(e)
          case Ok(ok) => if ok then Ok(Pass) else Ok(Stop(Render(PermalinkView(refusal))))
  }

  /** `EditPost.get`: the author gets the form filled with the post. */
  function EditPostGet(st: Store, me: Option<int>, blogId: string): (r: Response)
    ensures r.writes == [] && r.cookie.None?
    ensures r.outcome.Render? && r.outcome.view.PostForm? <==> PostHandlers.EditGate(st, me, blogId)
    ensures PostHandlers.EditGate(st, me, blogId) ==>
              var p := st.posts[PyInt(blogId).value];
              r.outcome == Render(PostForm(p.subject, p.content, ""))
  {
    match PostOwnerCheck(st, me, blogId, NotPostAuthorEdit)
    case Raise(e) => Answer(Crash(e))
    case Ok(Stop(o)) => Answer(o)
    case Ok(Pass) =>
      var p := st.posts[PyInt(blogId).value];
      Answer(Render(PostForm(p.subject, p.content, "")))
  }

  /** `EditPost.post`: existence, login and ownership are checked inline, existence first;
      past them it does what the gated `EditPost` of `handlers/editpost.py` does. */
  function EditPost(st: Store, me: Option<int>, blogId: string, action: string, subject: string,
                    content: string): (r: Response)
    ensures PostHandlers.EditGate(st, me, blogId) ==>
              r == PostHandlers.EditPost(st, me, blogId, action, subject, content)
    ensures !PostHandlers.EditGate(st, me, blogId) ==> r.writes == []
    ensures PyInt(blogId).Raise? ==> r == Answer(Crash(ValueError))
    ensures PyInt(blogId).Ok? && PyInt(blogId).value !in st.posts ==> r == Answer(Redirect(ToWelcome))
    ensures PyInt(blogId).Ok? && PyInt(blogId).value in st.posts && Me(st.users, me).None? ==>
              r == Answer(Redirect(ToLogin))
    ensures PyInt(blogId).Ok? && PyInt(blogId).value in st.posts && Me(st.users, me).Some? ==>
              var author := Posts.ValidAuthor(st.users, st.posts[PyInt(blogId).value], Me(st.users, me));
              && (author.Raise? ==> r == Answer(Crash(ReferencePropertyResolveError)))
              && (author == Ok(false) ==> r == Answer(Render(PermalinkView(NotPostAuthorEdit))))
  {
    match PostOwnerCheck(st, me, blogId, NotPostAuthorEdit)
    case Raise(e) => Answer(Crash(e))
    case Ok(Stop(o)) => Answer(o)
    case Ok(Pass) => PostHandlers.EditPost(st, me, blogId, action, subject, content)
  }

  /** `DeletePost.get`: the same inline checks, then `delete_post()`. */
  function DeletePost(st: Store, me: Option<int>, blogId: string): (r: Response)
    ensures r == PostHandlers.DeletePost(st, me, blogId)
  {
    match PostOwnerCheck(st, me, blogId, NotPostAuthorDelete)
    case Raise(e) => Answer(Crash(e))
    case Ok(Stop(o)) => Answer(o)
    case Ok(Pass) =>
      var pid := PyInt(blogId).value;
      Response(DeletePostWrites(pid, st.posts[pid]), None, Redirect(ToWelcome))
  }

  /** `LikeHandler.get`: the order of checks of `handlers/like.py`, but a recorded like renders
      the permalink page instead of redirecting to it. */
  function Like(st: Store, me: Option<int>, blogId: string): (r: Response)
    ensures r.writes == PostHandlers.Like(st, me, blogId).writes
    ensures r.writes == [] ==> r == PostHandlers.Like(st, me, blogId)
    ensures r.writes != [] ==> r.outcome == Render(PermalinkView(""))
  {
    match PyInt(blogId)
    case Raise(e) => Answer(Crash(e))
    case Ok(pid) =>
      var user := Me(st.users, me);
      if user.None? || me.value == 0 then Answer(Redirect(ToLogin))
      else if pid !in st.posts then Answer(Crash(AttributeError))
      else
        var entry := st.posts[pid];
        match Posts.ValidAuthor(st.users, entry, user)
        case Raise(e) => Answer(Crash(e))
        case Ok(isAuthor) =>
          if isAuthor then Answer(Render(PermalinkView(OwnPostLike)))
          else if UserAlreadyLiked(entry, me.value) then Answer(Render(PermalinkView(RepeatLike)))
          else Response([PutPost(pid, AddLike(entry, me.value))], None, Render(PermalinkView("")))
  }

  /** `NewComment.post`. It has no existence check: the comment is put with an unset post
      reference, and only then does `blog_post.add_comment` fail on `None`. */
  function NewComment(st: Store, me: Option<int>, blogId: string, action: string, text: string): (r: Response)
    ensures r.cookie.None?
    ensures r.outcome.Crash? && PyInt(blogId).Ok? ==>
              me.Some? && |r.writes| == 1 && r.writes[0].PutComment? && r.writes[0].cid !in st.comments
              && r.writes[0].comment == Comment(None, me.value, text)
              && r.outcome.exc == AttributeError
    ensures Me(st.users, me).Some? && PyInt(blogId).Ok? && PyInt(blogId).value in st.posts ==>
              r == CommentHandlers.NewCommentBody(st, me, blogId, action, text)
  {
    match PyInt(blogId)
    case Raise(e) => Answer(Crash(e))
    case Ok(pid) =>
      if Me(st.users, me).None? then Answer(Redirect(ToLogin))
      else if action != Save then Answer(Redirect(ToPost(pid)))
      else if text == "" then Answer(Render(CommentForm("", MissingCommentText)))
      else
        var cid := NewId(st.comments);
        if pid !in st.posts then
          Response([PutComment(cid, Comment(None, me.value, text))], None, Crash(AttributeError))
        else
          Response([PutComment(cid, Comment(Some(pid), me.value, text)),
                    PutPost(pid, AddComment(st.posts[pid], cid))], None, Redirect(ToPost(pid)))
  }

  /** `DeleteComment.get`: as in `handlers/delcmt.py`, except that the refusal renders
      without listing comments, so a missing post does not raise there. */
  function DeleteComment(st: Store, me: Option<int>, blogId: string, cidParam: string): (r: Response)
    ensures PyInt(blogId).Ok? && PyInt(blogId).value in st.posts ==>
              r == CommentHandlers.DeleteComment(st, me, blogId, cidParam)
    ensures r.writes == CommentHandlers.DeleteComment(st, me, blogId, cidParam).writes
    ensures r.outcome != Crash(AttributeError)
  {
    match PyInt(blogId)
    case Raise(e) => Answer(Crash(e))
    case Ok(pid) =>
      match PyInt(cidParam)
      case Raise(e) => Answer(Crash(e))
      case Ok(cid) =>
        var user := Me(st.users, me);
        if user.None? then Answer(Redirect(ToLogin))
        else match CommentHandlers.MayChange(st, user, pid, cid)
          case Raise(e) => Answer(Crash(e))
          case Ok(ok) =>
            if !ok then Answer(Render(PermalinkView(NotCommentAuthorDelete)))
            else match Posts.DeleteComment(st.posts[pid], cid)
              case Raise(e) => Answer(Crash(e))
              case Ok(post) => Response([PutPost(pid, post), DelComment(cid)], None, Redirect(ToPost(pid)))
  }
}
