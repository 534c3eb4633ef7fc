/** Post handlers: `NewPost.post` (`handlers/newpost.py`), `EditPost.post`
    (`handlers/editpost.py`), `LikeHandler.get` (`handlers/like.py`) and `DeletePost.get`
    (`handlers/delpost.py`). `me` is the id `initialize` resolved; an id with no user behind
    it counts as no user, as `self.user` would be `None`. */
module PostHandlers {
  import opened Wrappers
  import opened PyText
  import opened Users
  import opened Posts
  import opened Properties
  import opened Comments
  import opened Datastore
  import opened Web
  import opened Session

  /** `NewPost.post`: a logged-in caller saving a subject and content creates one post. A
      subject the entity refuses raises `BadValueError` before anything is stored. */
  function NewPost(st: Store, me: Option<int>, action: string, subject: string, content: string): (r: Response)
    ensures r.cookie.None?
    ensures Me(st.users, me).None? ==> r == Answer(Redirect(ToLogin))
    ensures Me(st.users, me).Some? && action != Save ==> r == Answer(Redirect(ToWelcome))
    ensures Me(st.users, me).Some? && action == Save && (subject == "" || content == "") ==>
              r == Answer(Render(PostForm(subject, content, MissingPostText)))
    ensures Me(st.users, me).Some? && action == Save && subject != "" && content != "" && !StringOk(subject, true) ==>
              r == Answer(Crash(BadValueError))
    ensures r.writes != [] <==>
              Me(st.users, me).Some? && action == Save && subject != "" && content != "" && StringOk(subject, true)
    ensures r.writes != [] ==>
              && |r.writes| == 1 && r.writes[0].PutPost? && r.writes[0].pid !in st.posts
              && r.writes[0].post == Post(me.value, subject, content, [], [])
              && r.outcome == Redirect(ToPost(r.writes[0].pid))
  {
    if Me(st.users, me).None? then Answer(Redirect(ToLogin))
    else if action != Save then Answer(Redirect(ToWelcome))
    else if subject == "" || content == "" then Answer(Render(PostForm(subject, content, MissingPostText)))
    else
      match Posts.NewPost(me.value, subject, content)
      case Raise(e) => Answer(Crash(e))
      case Ok(p) =>
        var pid := NewId(st.posts);
        Response([PutPost(pid, p)], None, Redirect(ToPost(pid)))
  }

  /** What the wrappers `post_exists2` and `user_owns_post` on `EditPost` are taken to ensure,
      together with `user_logged_in`: the caller is logged in, the `blog_id` parameter names
      an existing post and the caller passes that post's `valid_author`. */
  predicate EditGate(st: Store, me: Option<int>, blogId: string) {
    && Me(st.users, me).Some?
    && PyInt(blogId).Ok? && PyInt(blogId).value in st.posts
    && Posts.ValidAuthor(st.users, st.posts[PyInt(blogId).value], Me(st.users, me)) == Ok(true)
  }

  /** `EditPost.post`, behind its wrappers: saving a subject and content updates the post. A
      subject the entity refuses raises `BadValueError` before the post is put. */
  function EditPost(st: Store, me: Option<int>, blogId: string, action: string, subject: string,
                    content: string): (r: Response)
    requires EditGate(st, me, blogId)
    ensures r.cookie.None?
    ensures var pid := PyInt(blogId).value;
            action == Save && subject != "" && content != "" && StringOk(subject, true) ==>
              r.writes == [PutPost(pid, st.posts[pid].(subject := subject, content := content))]
              && r.outcome == Redirect(ToPost(pid))
    ensures action == Save && subject != "" && content != "" && !StringOk(subject, true) ==>
              r == Answer(Crash(BadValueError))
    ensures action == Save && (subject == "" || content == "") ==>
              r == Answer(Render(PostForm(subject, content, MissingPostText)))
    ensures action != Save ==> r == Answer(Redirect(ToPost(PyInt(blogId).value)))
  {
    var pid := PyInt(blogId).value;
    if action != Save then Answer(Redirect(ToPost(pid)))
    else if subject == "" || content == "" then Answer(Render(PostForm(subject, content, MissingPostText)))
    else match UpdatePostContent(st.posts[pid], subject, content)
      case Raise(e) => Answer(Crash(e))
      case Ok(p) => Response([PutPost(pid, p)], None, Redirect(ToPost(pid)))
  }

  /** The checks `LikeHandler.get` passes before it records a like, in its order: a logged-in
      caller, then (on an existing post) not the author by name, then not already liked. */
  predicate LikeAllowed(st: Store, me: Option<int>, pid: int) {
    && Me(st.users, me).Some? && me.value != 0
    && pid in st.posts
    && Posts.ValidAuthor(st.users, st.posts[pid], Me(st.users, me)) == Ok(false)
    && !UserAlreadyLiked(st.posts[pid], me.value)
  }

  /** `LikeHandler.get`. There is no existence check: a logged-in caller liking a missing
      post makes `entry.valid_author` fail on `None`. */
  function Like(st: Store, me: Option<int>, blogId: string): (r: Response)
    ensures r.cookie.None?
    ensures PyInt(blogId).Raise? ==> r == Answer(Crash(ValueError))
    ensures PyInt(blogId).Ok? && Me(st.users, me).None? ==> r == Answer(Redirect(ToLogin))
    ensures PyInt(blogId).Ok? && Me(st.users, me).Some? && me.value == 0 ==> r == Answer(Redirect(ToLogin))
    ensures PyInt(blogId).Ok? && Me(st.users, me).Some? && me.value != 0 && PyInt(blogId).value !in st.posts ==>
              r == Answer(Crash(AttributeError))
    ensures PyInt(blogId).Ok? && Me(st.users, me).Some? && me.value != 0 && PyInt(blogId).value in st.posts ==>
              var post := st.posts[PyInt(blogId).value];
              && (Posts.ValidAuthor(st.users, post, Me(st.users, me)).Raise? ==>
                    r == Answer(Crash(ReferencePropertyResolveError)))
              && (Posts.ValidAuthor(st.users, post, Me(st.users, me)) == Ok(true) ==>
                    r == Answer(Render(PermalinkView(OwnPostLike))))
              && (Posts.ValidAuthor(st.users, post, Me(st.users, me)) == Ok(false) && UserAlreadyLiked(post, me.value) ==>
                    r == Answer(Render(PermalinkView(RepeatLike))))
    ensures r.writes != [] <==> PyInt(blogId).Ok? && LikeAllowed(st, me, PyInt(blogId).value)
    ensures r.writes != [] ==>
              var pid := PyInt(blogId).value;
              r.writes == [PutPost(pid, AddLike(st.posts[pid], me.value))] && r.outcome == Redirect(ToPost(pid))
  {
    match PyInt(blogId)
    case Raise(e) => Answer(Crash(e))
    case Ok(pid) =>
      var user := Me(st.users, me);
      if user.None? || me.value == 0 then Answer(Redirect(ToLogin))
      else if pid !in st.posts then Answer(Crash(AttributeError))
      else
        var entry := st.posts[pid];
        match Posts.ValidAuthor(st.users, entry, user)
        case Raise(e) => Answer(Crash(e))
        case Ok(isAuthor) =>
          if isAuthor then Answer(Render(PermalinkView(OwnPostLike)))
          else if UserAlreadyLiked(entry, me.value) then Answer(Render(PermalinkView(RepeatLike)))
          else Response([PutPost(pid, AddLike(entry, me.value))], None, Redirect(ToPost(pid)))
  }

  /** A second like from the same caller is refused and changes nothing. */
  lemma LikeOnlyOnce(st: Store, me: Option<int>, blogId: string)
    requires Like(st, me, blogId).writes != []
    ensures Like(Apply(st, Like(st, me, blogId).writes), me, blogId) == Answer(Render(PermalinkView(RepeatLike)))
  {
    var w := Like(st, me, blogId).writes;
    assert w == [w[0]];
    ApplyOne(st, w[0]);
  }

  /** `DeletePost.get`: a missing post goes to the welcome page before the login test; the
      author's post is removed after every comment it lists. */
  function DeletePost(st: Store, me: Option<int>, blogId: string): (r: Response)
    ensures r.cookie.None?
    ensures PyInt(blogId).Raise? ==> r == Answer(Crash(ValueError))
    ensures PyInt(blogId).Ok? && PyInt(blogId).value !in st.posts ==> r == Answer(Redirect(ToWelcome))
    ensures PyInt(blogId).Ok? && PyInt(blogId).value in st.posts && Me(st.users, me).None? ==>
              r == Answer(Redirect(ToLogin))
    ensures PyInt(blogId).Ok? && PyInt(blogId).value in st.posts && Me(st.users, me).Some? ==>
              var post := st.posts[PyInt(blogId).value];
              && (Posts.ValidAuthor(st.users, post, Me(st.users, me)).Raise? ==>
                    r == Answer(Crash(ReferencePropertyResolveError)))
              && (Posts.ValidAuthor(st.users, post, Me(st.users, me)) == Ok(false) ==>
                    r == Answer(Render(PermalinkView(NotPostAuthorDelete))))
    ensures r.writes != [] <==>
              PyInt(blogId).Ok? && PyInt(blogId).value in st.posts &&
              Posts.ValidAuthor(st.users, st.posts[PyInt(blogId).value], Me(st.users, me)) == Ok(true)
    ensures r.writes != [] ==>
              var pid := PyInt(blogId).value;
              r.writes == DeleteCommentsWrites(st.posts[pid].comments) + [DelPost(pid)]
              && r.outcome == Redirect(ToWelcome)
  {
    match PyInt(blogId)
    case Raise(e) => Answer(Crash(e))
    case Ok(pid) =>
      if pid !in st.posts then Answer(Redirect(ToWelcome))
      else
        var user := Me(st.users, me);
        if user.None? then Answer(Redirect(ToLogin))
        else match Posts.ValidAuthor(st.users, st.posts[pid], user)
          case Raise(e) => Answer(Crash(e))
          case Ok(ok) =>
            if ok then Response(DeleteCommentsWrites(st.posts[pid].comments) + [DelPost(pid)], None, Redirect(ToWelcome))
            else Answer(Render(PermalinkView(NotPostAuthorDelete)))
  }

  /** The author's delete removes the listed comments and the post, and nothing else: users,
      other posts and unlisted comments are as they were. */
  lemma DeletePostEffect(st: Store, me: Option<int>, blogId: string)
    requires DeletePost(st, me, blogId).writes != []
    ensures var pid := PyInt(blogId).value;
            Apply(st, DeletePost(st, me, blogId).writes) ==
              Store(st.users, st.posts - {pid}, DeleteComments(st.comments, st.posts[pid].comments))
  {
    DeletePostCascade(st, PyInt(blogId).value);
  }
}
