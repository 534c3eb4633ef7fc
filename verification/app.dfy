/** The application as a whole: the store invariants the handlers of `handlers/` keep, the
    request dispatcher, and runs of many requests. */
module App {
  import opened Wrappers
  import opened Seqs
  import opened PyText
  import opened Utils
  import opened Users
  import opened Posts
  import opened Comments
  import opened Datastore
  import opened Web
  import opened Session
  import opened Accounts
  import opened PostHandlers
  import opened CommentHandlers
  import Monolith

  // ---------------------------------------------------------------------------
  // Invariants
  // ---------------------------------------------------------------------------

  /** Every id the datastore assigned is positive. */
  predicate PositiveKeys(st: Store) {
    && (forall k :: k in st.users ==> k >= 1)
    && (forall k :: k in st.posts ==> k >= 1)
    && (forall k :: k in st.comments ==> k >= 1)
  }

  /** Every author reference resolves. */
  predicate AuthorsExist(st: Store) {
    && (forall pid :: pid in st.posts ==> st.posts[pid].author in st.users)
    && (forall cid :: cid in st.comments ==> st.comments[cid].author in st.users)
  }

  /** A post's likes: each user at most once, each a registered user, none carrying the
      author's name. */
  predicate LikesOkFor(users: map<int, User>, p: Post) {
    && NoDup(p.likes)
    && p.author in users
    && forall i :: 0 <= i < |p.likes| ==> p.likes[i] in users && users[p.likes[i]].name != users[p.author].name
  }

  predicate LikesOk(st: Store) {
    forall pid :: pid in st.posts ==> LikesOkFor(st.users, st.posts[pid])
  }

  /** Posts list their comments once each, every listed comment exists and points back at
      the post, and every comment is listed by the post it points at. */
  predicate Linked(st: Store) {
    && (forall pid :: pid in st.posts ==> NoDup(st.posts[pid].comments))
    && (forall pid, cid :: pid in st.posts && cid in st.posts[pid].comments ==>
          cid in st.comments && st.comments[cid].post == Some(pid))
    && (forall cid :: cid in st.comments ==>
          st.comments[cid].post.Some? && st.comments[cid].post.value in st.posts &&
          cid in st.posts[st.comments[cid].post.value].comments)
  }

  predicate Inv(st: Store) {
    PositiveKeys(st) && UniqueNames(st.users) && AuthorsExist(st) && LikesOk(st) && Linked(st)
  }

  /** The empty store satisfies the invariants. */
  lemma EmptyInv()
    ensures Inv(Store(map[], map[], map[]))
  {
  }

  /** No post lists a comment id the store does not hold. */
  lemma UnknownIdUnlisted(st: Store, cid: int)
    requires Linked(st) && cid !in st.comments
    ensures forall pid :: pid in st.posts ==> cid !in st.posts[pid].comments
  {
  }

  // ---------------------------------------------------------------------------
  // Preservation, handler by handler
  // ---------------------------------------------------------------------------

  /** Adding a user under a fresh positive id with an unused name keeps the invariants. */
  lemma AddUserKeepsInv(st: Store, uid: int, u: User)
    requires Inv(st) && uid >= 1 && uid !in st.users
    requires forall id :: id in st.users ==> st.users[id].name != u.name
    ensures Inv(st.(users := st.users[uid := u]))
  {
    var st' := st.(users := st.users[uid := u]);
    forall pid | pid in st'.posts ensures LikesOkFor(st'.users, st'.posts[pid]) {
      var p := st.posts[pid];
      assert LikesOkFor(st.users, p);
      forall i | 0 <= i < |p.likes|
        ensures p.likes[i] in st'.users && st'.users[p.likes[i]].name != st'.users[p.author].name
      {
        assert p.likes[i] in st.users;
      }
    }
  }

  lemma SignupPreservesInv(c: Crypto, st: Store, username: string, password: string, verify: string,
                           email: string, drawn: Salt)
    requires Inv(st)
    ensures Inv(Apply(st, Signup(c, st, username, password, verify, email, drawn).writes))
  {
    var r := Signup(c, st, username, password, verify, email, drawn);
    if r.writes != [] {
      assert r.writes == [r.writes[0]];
      ApplyOne(st, r.writes[0]);
      AddUserKeepsInv(st, r.writes[0].uid, r.writes[0].user);
    }
  }

  /** A write-free handler keeps everything. */
  lemma LoginPreservesInv(c: Crypto, st: Store, username: string, password: string, drawn: Salt)
    requires Inv(st)
    ensures Apply(st, Login(c, st, username, password, drawn).writes) == st
  {
  }

  /** Adding a post without likes or comments, by a registered user, under a fresh positive id
      keeps the invariants. */
  lemma AddPostKeepsInv(st: Store, pid: int, p: Post)
    requires Inv(st) && pid >= 1 && pid !in st.posts
    requires p.author in st.users && p.likes == [] && p.comments == []
    ensures Inv(st.(posts := st.posts[pid := p]))
  {
    var st' := st.(posts := st.posts[pid := p]);
    UnknownPostUnreferenced(st, pid);
    forall q, cid | q in st'.posts && cid in st'.posts[q].comments
      ensures cid in st'.comments && st'.comments[cid].post == Some(q)
    {
      if q != pid {
        assert cid in st.posts[q].comments;
      }
    }
    forall cid | cid in st'.comments
      ensures st'.comments[cid].post.Some? && st'.comments[cid].post.value in st'.posts &&
              cid in st'.posts[st'.comments[cid].post.value].comments
    {
      var q := st.comments[cid].post.value;
      assert cid in st.posts[q].comments;
    }
  }

  lemma NewPostPreservesInv(st: Store, me: Option<int>, action: string, subject: string, content: string)
    requires Inv(st)
    ensures Inv(Apply(st, PostHandlers.NewPost(st, me, action, subject, content).writes))
  {
    var r := PostHandlers.NewPost(st, me, action, subject, content);
    if r.writes != [] {
      assert r.writes == [r.writes[0]];
      ApplyOne(st, r.writes[0]);
      assert r.writes[0].pid == NewId(st.posts);
      AddPostKeepsInv(st, r.writes[0].pid, r.writes[0].post);
    }
  }

  /** No comment points at a post id the store does not hold. */
  lemma UnknownPostUnreferenced(st: Store, pid: int)
    requires Linked(st) && pid !in st.posts
    ensures forall cid :: cid in st.comments ==> st.comments[cid].post != Some(pid)
  {
  }

  /** Replacing a post by one with the same author, likes and comments keeps the invariants. */
  lemma SamePostShapeKeepsInv(st: Store, pid: int, p: Post)
    requires Inv(st) && pid in st.posts
    requires p.author == st.posts[pid].author && p.likes == st.posts[pid].likes
    requires p.comments == st.posts[pid].comments
    ensures Inv(st.(posts := st.posts[pid := p]))
  {
    var st' := st.(posts := st.posts[pid := p]);
    assert LikesOkFor(st.users, st.posts[pid]);
    forall cid | cid in st'.comments
      ensures st'.comments[cid].post.Some? && st'.comments[cid].post.value in st'.posts &&
              cid in st'.posts[st'.comments[cid].post.value].comments
    {
      var q := st.comments[cid].post.value;
      assert cid in st.posts[q].comments;
    }
  }

  /** `EditPost` under its assumed gate. */
  lemma EditPostPreservesInv(st: Store, me: Option<int>, blogId: string, action: string, subject: string,
                             content: string)
    requires Inv(st) && EditGate(st, me, blogId)
    ensures Inv(Apply(st, PostHandlers.EditPost(st, me, blogId, action, subject, content).writes))
  {
    var r := PostHandlers.EditPost(st, me, blogId, action, subject, content);
    if r.writes != [] {
      var pid := PyInt(blogId).value;
      ApplyOne(st, r.writes[0]);
      SamePostShapeKeepsInv(st, pid, st.posts[pid].(subject := subject, content := content));
    }
  }

  lemma LikePreservesInv(st: Store, me: Option<int>, blogId: string)
    requires Inv(st)
    ensures Inv(Apply(st, PostHandlers.Like(st, me, blogId).writes))
  {
    var r := PostHandlers.Like(st, me, blogId);
    if r.writes != [] {
      var pid := PyInt(blogId).value;
      var p := st.posts[pid];
      var q := AddLike(p, me.value);
      ApplyOne(st, r.writes[0]);
      var st' := st.(posts := st.posts[pid := q]);
      assert LikesOkFor(st.users, p);
      NoDupAppend(p.likes, me.value);
      assert LikesOkFor(st.users, q) by {
        forall i | 0 <= i < |q.likes|
          ensures q.likes[i] in st.users && st.users[q.likes[i]].name != st.users[q.author].name
        {
          if i < |p.likes| { assert q.likes[i] == p.likes[i]; }
        }
      }
      forall cid | cid in st'.comments
        ensures st'.comments[cid].post.Some? && st'.comments[cid].post.value in st'.posts &&
                cid in st'.posts[st'.comments[cid].post.value].comments
      {
        var k := st.comments[cid].post.value;
        assert cid in st.posts[k].comments;
      }
    }
  }

  /** Removing a post together with every comment it lists keeps the invariants. */
  lemma DropPostKeepsInv(st: Store, pid: int)
    requires Inv(st) && pid in st.posts
    ensures Inv(Store(st.users, st.posts - {pid}, DeleteComments(st.comments, st.posts[pid].comments)))
  {
    var listed := st.posts[pid].comments;
    var remaining := DeleteComments(st.comments, listed);
    assert forall cid :: cid in remaining <==> cid in st.comments && cid !in listed;
    DropPostLinked(st, pid, remaining);
    var st' := Store(st.users, st.posts - {pid}, remaining);
    assert PositiveKeys(st') && AuthorsExist(st') && LikesOk(st');
  }

  lemma DropPostLinked(st: Store, pid: int, remaining: map<int, Comment>)
    requires Linked(st) && pid in st.posts
    requires forall cid :: cid in remaining <==> cid in st.comments && cid !in st.posts[pid].comments
    requires forall cid :: cid in remaining ==> remaining[cid] == st.comments[cid]
    ensures Linked(Store(st.users, st.posts - {pid}, remaining))
  {
    var listed := st.posts[pid].comments;
    var st' := Store(st.users, st.posts - {pid}, remaining);
    forall q, cid | q in st'.posts && cid in st'.posts[q].comments
      ensures cid in st'.comments && st'.comments[cid].post == Some(q)
    {
      assert cid in st.posts[q].comments && st.comments[cid].post == Some(q);
      assert st.comments[cid].post != Some(pid);
    }
    forall cid | cid in st'.comments
      ensures st'.comments[cid].post.Some? && st'.comments[cid].post.value in st'.posts &&
              cid in st'.posts[st'.comments[cid].post.value].comments
    {
      var q := st.comments[cid].post.value;
      assert cid in st.posts[q].comments;
    }
  }

  lemma DeletePostPreservesInv(st: Store, me: Option<int>, blogId: string)
    requires Inv(st)
    ensures Inv(Apply(st, PostHandlers.DeletePost(st, me, blogId).writes))
  {
    if PostHandlers.DeletePost(st, me, blogId).writes != [] {
      DeletePostEffect(st, me, blogId);
      DropPostKeepsInv(st, PyInt(blogId).value);
    }
  }

  /** Storing a new comment under a fresh positive id and appending that id to its post's list
      keeps the invariants. */
  lemma AddCommentKeepsInv(st: Store, pid: int, cid: int, c: Comment)
    requires Inv(st) && pid in st.posts && cid >= 1 && cid !in st.comments
    requires c.post == Some(pid) && c.author in st.users
    ensures Inv(Store(st.users, st.posts[pid := AddComment(st.posts[pid], cid)], st.comments[cid := c]))
  {
    var p := st.posts[pid];
    var q := AddComment(p, cid);
    var st' := Store(st.users, st.posts[pid := q], st.comments[cid := c]);
    UnknownIdUnlisted(st, cid);
    assert q.comments == p.comments + [cid];
    NoDupAppend(p.comments, cid);
    assert LikesOkFor(st.users, p);
    forall k, x | k in st'.posts && x in st'.posts[k].comments
      ensures x in st'.comments && st'.comments[x].post == Some(k)
    {
      if k == pid && x !in p.comments {
        assert x == cid;
      } else {
        assert x in st.posts[k].comments;
      }
    }
    forall x | x in st'.comments
      ensures st'.comments[x].post.Some? && st'.comments[x].post.value in st'.posts &&
              x in st'.posts[st'.comments[x].post.value].comments
    {
      if x != cid {
        var k := st.comments[x].post.value;
        assert x in st.posts[k].comments;
      }
    }
  }

  lemma NewCommentPreservesInv(st: Store, me: Option<int>, blogId: string, action: string, text: string)
    requires Inv(st)
    ensures Inv(Apply(st, CommentHandlers.NewComment(st, me, blogId, action, text).writes))
  {
    var w := CommentHandlers.NewComment(st, me, blogId, action, text).writes;
    if w != [] {
      NewCommentEffect(st, me, blogId, action, text);
      assert w[0].cid == NewId(st.comments);
      AddCommentKeepsInv(st, PyInt(blogId).value, w[0].cid, Comment(Some(PyInt(blogId).value), me.value, text));
    }
  }

  /** Replacing a comment by one with the same post and author keeps the invariants. */
  lemma SameCommentShapeKeepsInv(st: Store, cid: int, c: Comment)
    requires Inv(st) && cid in st.comments
    requires c.post == st.comments[cid].post && c.author == st.comments[cid].author
    ensures Inv(st.(comments := st.comments[cid := c]))
  {
    var st' := st.(comments := st.comments[cid := c]);
    forall x | x in st'.comments
      ensures st'.comments[x].post.Some? && st'.comments[x].post.value in st'.posts &&
              x in st'.posts[st'.comments[x].post.value].comments
    {
      var k := st.comments[x].post.value;
      assert x in st.posts[k].comments;
    }
  }

  lemma EditCommentPreservesInv(st: Store, me: Option<int>, blogId: string, cidParam: string, action: string,
                                text: string)
    requires Inv(st)
    ensures Inv(Apply(st, EditCommentPost(st, me, blogId, cidParam, action, text).writes))
  {
    var w := EditCommentPost(st, me, blogId, cidParam, action, text).writes;
    if w != [] {
      var cid := PyInt(cidParam).value;
      ApplyOne(st, w[0]);
      SameCommentShapeKeepsInv(st, cid, st.comments[cid].(text := text));
    }
  }

  /** Deleting a listed comment and unlisting it from its post keeps the invariants. */
  lemma DropCommentKeepsInv(st: Store, pid: int, cid: int)
    requires Inv(st) && pid in st.posts && cid in st.posts[pid].comments
    ensures Posts.DeleteComment(st.posts[pid], cid).Ok?
    ensures Inv(Store(st.users, st.posts[pid := Posts.DeleteComment(st.posts[pid], cid).value],
                      st.comments - {cid}))
  {
    var p := st.posts[pid];
    DeleteFromNoDup(p, cid);
    var q := Posts.DeleteComment(p, cid).value;
    var st' := Store(st.users, st.posts[pid := q], st.comments - {cid});
    assert LikesOkFor(st.users, p);
    forall k, x | k in st'.posts && x in st'.posts[k].comments
      ensures x in st'.comments && st'.comments[x].post == Some(k)
    {
      assert x in st.posts[k].comments;
      if k != pid {
        assert st.comments[cid].post == Some(pid);
      }
    }
    forall x | x in st'.comments
      ensures st'.comments[x].post.Some? && st'.comments[x].post.value in st'.posts &&
              x in st'.posts[st'.comments[x].post.value].comments
    {
      var k := st.comments[x].post.value;
      assert x in st.posts[k].comments;
    }
  }

  lemma DeleteCommentPreservesInv(st: Store, me: Option<int>, blogId: string, cidParam: string)
    requires Inv(st)
    ensures Inv(Apply(st, CommentHandlers.DeleteComment(st, me, blogId, cidParam).writes))
  {
    if CommentHandlers.DeleteComment(st, me, blogId, cidParam).writes != [] {
      DeleteCommentEffect(st, me, blogId, cidParam);
      DropCommentKeepsInv(st, PyInt(blogId).value, PyInt(cidParam).value);
    }
  }

  // ---------------------------------------------------------------------------
  // Requests
  // ---------------------------------------------------------------------------

  /** The state-changing requests the handlers of `handlers/` answer, with their parameters.
      `EditPost.post` is not among them: its wrappers are not defined anywhere. */
  datatype Request =
    | SignupReq(username: string, password: string, verify: string, email: string)
    | LoginReq(username: string, password: string)
    | NewPostReq(action: string, subject: string, content: string)
    | LikeReq(blogId: string)
    | DeletePostReq(blogId: string)
    | NewCommentReq(blogId: string, action: string, text: string)
    | EditCommentGetReq(blogId: string, cidParam: string)
    | EditCommentReq(blogId: string, cidParam: string, action: string, text: string)
    | DeleteCommentReq(blogId: string, cidParam: string)

  /** The handler for `req`, once `initialize` has resolved the caller to `me`. */
  function Handle(c: Crypto, st: Store, me: Option<int>, req: Request, drawn: Salt): (r: Response)
    ensures r.outcome.Crash? ==> r.writes == []
    ensures r.cookie.Some? ==> req.SignupReq? || req.LoginReq?
    ensures forall i :: 0 <= i < |r.writes| && r.writes[i].PutUser? ==> req.SignupReq?
  {
    match req
    case SignupReq(username, password, verify, email) => Signup(c, st, username, password, verify, email, drawn)
    case LoginReq(username, password) => Login(c, st, username, password, drawn)
    case NewPostReq(action, subject, content) => PostHandlers.NewPost(st, me, action, subject, content)
    case LikeReq(blogId) => PostHandlers.Like(st, me, blogId)
    case DeletePostReq(blogId) => PostHandlers.DeletePost(st, me, blogId)
    case NewCommentReq(blogId, action, text) => CommentHandlers.NewComment(st, me, blogId, action, text)
    case EditCommentGetReq(blogId, cidParam) => EditCommentGet(st, me, blogId, cidParam)
    case EditCommentReq(blogId, cidParam, action, text) => EditCommentPost(st, me, blogId, cidParam, action, text)
    case DeleteCommentReq(blogId, cidParam) => CommentHandlers.DeleteComment(st, me, blogId, cidParam)
  }

  /** One request: `initialize` reads the session cookie, then the handler runs. A cookie
      `initialize` cannot read (non-ASCII text, or a signed value that is not a number) makes
      it raise before any handler runs. */
  function Serve(c: Crypto, st: Store, cookie: Option<string>, req: Request, drawn: Salt): (r: Response)
    ensures Initialize(c, st.users, cookie).Raise? ==> r == Answer(Crash(Initialize(c, st.users, cookie).exc))
    ensures r.outcome.Crash? ==> r.writes == []
    ensures cookie.None? ==> r == Handle(c, st, None, req, drawn)
  {
    match Initialize(c, st.users, cookie)
    case Raise(e) => Answer(Crash(e))
    case Ok(me) => Handle(c, st, me, req, drawn)
  }

  /** Every request the dispatcher serves keeps the invariants; each kind of request is
      handled by its own lemma below. */
  lemma HandlePreservesInv(c: Crypto, st: Store, me: Option<int>, req: Request, drawn: Salt)
    requires Inv(st)
    ensures Inv(Apply(st, Handle(c, st, me, req, drawn).writes))
  {
    match req
    case SignupReq(_, _, _, _) => HandleSignupPreservesInv(c, st, me, req, drawn);
    case LoginReq(_, _) => HandleLoginPreservesInv(c, st, me, req, drawn);
    case NewPostReq(_, _, _) => HandleNewPostPreservesInv(c, st, me, req, drawn);
    case LikeReq(_) => HandleLikePreservesInv(c, st, me, req, drawn);
    case DeletePostReq(_) => HandleDeletePostPreservesInv(c, st, me, req, drawn);
    case NewCommentReq(_, _, _) => HandleNewCommentPreservesInv(c, st, me, req, drawn);
    case EditCommentGetReq(_, _) => assert Handle(c, st, me, req, drawn).writes == [];
    case EditCommentReq(_, _, _, _) => HandleEditCommentPreservesInv(c, st, me, req, drawn);
    case DeleteCommentReq(_, _) => HandleDeleteCommentPreservesInv(c, st, me, req, drawn);
  }

  lemma HandleSignupPreservesInv(c: Crypto, st: Store, me: Option<int>, req: Request, drawn: Salt)
    requires Inv(st) && req.SignupReq?
    ensures Inv(Apply(st, Handle(c, st, me, req, drawn).writes))
  {
    SignupPreservesInv(c, st, req.username, req.password, req.verify, req.email, drawn);
  }

  lemma HandleLoginPreservesInv(c: Crypto, st: Store, me: Option<int>, req: Request, drawn: Salt)
    requires Inv(st) && req.LoginReq?
    ensures Inv(Apply(st, Handle(c, st, me, req, drawn).writes))
  {
    LoginPreservesInv(c, st, req.username, req.password, drawn);
  }

  lemma HandleNewPostPreservesInv(c: Crypto, st: Store, me: Option<int>, req: Request, drawn: Salt)
    requires Inv(st) && req.NewPostReq?
    ensures Inv(Apply(st, Handle(c, st, me, req, drawn).writes))
  {
    NewPostPreservesInv(st, me, req.action, req.subject, req.content);
  }

  lemma HandleLikePreservesInv(c: Crypto, st: Store, me: Option<int>, req: Request, drawn: Salt)
    requires Inv(st) && req.LikeReq?
    ensures Inv(Apply(st, Handle(c, st, me, req, drawn).writes))
  {
    LikePreservesInv(st, me, req.blogId);
  }

  lemma HandleDeletePostPreservesInv(c: Crypto, st: Store, me: Option<int>, req: Request, drawn: Salt)
    requires Inv(st) && req.DeletePostReq?
    ensures Inv(Apply(st, Handle(c, st, me, req, drawn).writes))
  {
    DeletePostPreservesInv(st, me, req.blogId);
  }

  lemma HandleNewCommentPreservesInv(c: Crypto, st: Store, me: Option<int>, req: Request, drawn: Salt)
    requires Inv(st) && req.NewCommentReq?
    ensures Inv(Apply(st, Handle(c, st, me, req, drawn).writes))
  {
    NewCommentPreservesInv(st, me, req.blogId, req.action, req.text);
  }

  lemma HandleEditCommentPreservesInv(c: Crypto, st: Store, me: Option<int>, req: Request, drawn: Salt)
    requires Inv(st) && req.EditCommentReq?
    ensures Inv(Apply(st, Handle(c, st, me, req, drawn).writes))
  {
    EditCommentPreservesInv(st, me, req.blogId, req.cidParam, req.action, req.text);
  }

  lemma HandleDeleteCommentPreservesInv(c: Crypto, st: Store, me: Option<int>, req: Request, drawn: Salt)
    requires Inv(st) && req.DeleteCommentReq?
    ensures Inv(Apply(st, Handle(c, st, me, req, drawn).writes))
  {
    DeleteCommentPreservesInv(st, me, req.blogId, req.cidParam);
  }

  /** One request of a run: the cookie the client presents (any cookie at all), the request
      and the salt `make_salt` would draw. */
  datatype Exchange = Exchange(cookie: Option<string>, req: Request, drawn: Salt)

  /** The store after serving the requests one after another. */
  function Run(c: Crypto, st: Store, xs: seq<Exchange>): Store
    decreases |xs|
  {
    if xs == [] then st
    else Run(c, Apply(st, Serve(c, st, xs[0].cookie, xs[0].req, xs[0].drawn).writes), xs[1..])
  }

  lemma ServePreservesInv(c: Crypto, st: Store, cookie: Option<string>, req: Request, drawn: Salt)
    requires Inv(st)
    ensures Inv(Apply(st, Serve(c, st, cookie, req, drawn).writes))
  {
    match Initialize(c, st.users, cookie)
    case Raise(_) =>
    case Ok(me) => HandlePreservesInv(c, st, me, req, drawn);
  }

  /** Every run of requests, with any cookies, keeps the invariants. */
  lemma {:induction false} RunPreservesInv(c: Crypto, st: Store, xs: seq<Exchange>)
    requires Inv(st)
    ensures Inv(Run(c, st, xs))
    decreases |xs|
  {
    if xs != [] {
      var x := xs[0];
      ServePreservesInv(c, st, x.cookie, x.req, x.drawn);
      RunPreservesInv(c, Apply(st, Serve(c, st, x.cookie, x.req, x.drawn).writes), xs[1..]);
    }
  }

  /** What the invariants say about likes and comments, spelled out. */
  lemma InvMeans(st: Store)
    requires Inv(st)
    ensures forall pid :: pid in st.posts ==> NoDup(st.posts[pid].likes)
    ensures forall pid, i :: pid in st.posts && 0 <= i < |st.posts[pid].likes| ==>
              st.posts[pid].likes[i] in st.users && st.posts[pid].author in st.users &&
              st.users[st.posts[pid].likes[i]].name != st.users[st.posts[pid].author].name
    ensures forall cid :: cid in st.comments ==>
              st.comments[cid].post.Some? && st.comments[cid].post.value in st.posts &&
              cid in st.posts[st.comments[cid].post.value].comments
  {
    forall pid, i | pid in st.posts && 0 <= i < |st.posts[pid].likes|
      ensures st.users[st.posts[pid].likes[i]].name != st.users[st.posts[pid].author].name
    {
      assert LikesOkFor(st.users, st.posts[pid]);
    }
  }

  /** Any run that starts where the invariants hold ends with likes and comments as
      `InvMeans` spells them out. */
  lemma RunMeans(c: Crypto, st0: Store, xs: seq<Exchange>, st: Store)
    requires Inv(st0) && st == Run(c, st0, xs)
    ensures forall pid :: pid in st.posts ==> NoDup(st.posts[pid].likes)
    ensures forall pid, i :: pid in st.posts && 0 <= i < |st.posts[pid].likes| ==>
              st.posts[pid].likes[i] in st.users && st.posts[pid].author in st.users &&
              st.users[st.posts[pid].likes[i]].name != st.users[st.posts[pid].author].name
    ensures forall cid :: cid in st.comments ==>
              st.comments[cid].post.Some? && st.comments[cid].post.value in st.posts &&
              cid in st.posts[st.comments[cid].post.value].comments
  {
    RunPreservesInv(c, st0, xs);
    InvMeans(st);
  }

  /** From an empty datastore, whatever is requested with whatever cookies, every post is
      liked at most once per user and never by a user carrying its author's name, and every
      comment belongs to a post that lists it. */
  lemma ReachableStores(c: Crypto, xs: seq<Exchange>, st: Store)
    requires st == Run(c, Store(map[], map[], map[]), xs)
    ensures forall pid :: pid in st.posts ==> NoDup(st.posts[pid].likes)
    ensures forall pid, i :: pid in st.posts && 0 <= i < |st.posts[pid].likes| ==>
              st.posts[pid].likes[i] in st.users && st.posts[pid].author in st.users &&
              st.users[st.posts[pid].likes[i]].name != st.users[st.posts[pid].author].name
    ensures forall cid :: cid in st.comments ==>
              st.comments[cid].post.Some? && st.comments[cid].post.value in st.posts &&
              cid in st.posts[st.comments[cid].post.value].comments
  {
    EmptyInv();
    RunPreservesInv(c, Store(map[], map[], map[]), xs);
    InvMeans(st);
  }

  /** The lookups the permalink page makes for each listed comment never fail on a store
      that keeps the invariants: the author's name and the text are found. */
  lemma ListedCommentLookups(st: Store, pid: int, cid: int)
    requires Inv(st) && pid in st.posts && cid in st.posts[pid].comments
    ensures cid in st.comments && st.comments[cid].author in st.users
    ensures GetAuthor(st.users, st.comments[cid]) == Ok(st.users[st.comments[cid].author].name)
    ensures GetAuthorById(st.users, st.comments, cid) == Ok(Some(st.users[st.comments[cid].author].name))
    ensures Monolith.GetTextById(st.comments, cid) == Some(st.comments[cid].text)
  {
    assert cid in st.comments;
    assert cid >= 1;
  }

  // ---------------------------------------------------------------------------
  // The two-write handlers between their writes
  // ---------------------------------------------------------------------------

  /** Between the two puts of a comment creation, the comment points at a post that does not
      yet list it. */
  lemma NewCommentWindow(st: Store, me: Option<int>, blogId: string, action: string, text: string)
    requires Inv(st)
    requires CommentHandlers.NewComment(st, me, blogId, action, text).writes != []
    ensures var w := CommentHandlers.NewComment(st, me, blogId, action, text).writes;
            !Linked(Apply(st, w[..1])) && Linked(Apply(st, w))
  {
    var w := CommentHandlers.NewComment(st, me, blogId, action, text).writes;
    var pid, cid := PyInt(blogId).value, w[0].cid;
    ApplyOne(st, w[0]);
    var mid := Step(st, w[0]);
    UnknownIdUnlisted(st, cid);
    assert cid in mid.comments && mid.comments[cid].post == Some(pid) && cid !in mid.posts[pid].comments;
    NewCommentPreservesInv(st, me, blogId, action, text);
  }

  /** Between the two writes of a comment deletion, the comment still points at a post that no
      longer lists it. */
  lemma DeleteCommentWindow(st: Store, me: Option<int>, blogId: string, cidParam: string)
    requires Inv(st)
    requires CommentHandlers.DeleteComment(st, me, blogId, cidParam).writes != []
    ensures var w := CommentHandlers.DeleteComment(st, me, blogId, cidParam).writes;
            !Linked(Apply(st, w[..1])) && Linked(Apply(st, w))
  {
    var w := CommentHandlers.DeleteComment(st, me, blogId, cidParam).writes;
    var pid, cid := PyInt(blogId).value, PyInt(cidParam).value;
    DeleteFromNoDup(st.posts[pid], cid);
    ApplyOne(st, w[0]);
    var mid := Step(st, w[0]);
    assert cid in mid.comments && mid.comments[cid].post == Some(pid) && cid !in mid.posts[pid].comments;
    DeleteCommentPreservesInv(st, me, blogId, cidParam);
  }

  // ---------------------------------------------------------------------------
  // blog.py: the orphan comment
  // ---------------------------------------------------------------------------

  /** `NewComment.post` of `blog.py` on a post id that names no post stores a comment with no
      post and then crashes: the store it leaves behind breaks the invariants. */
  lemma MonolithNewCommentOrphans(st: Store, me: Option<int>, blogId: string, text: string)
    requires Inv(st) && Me(st.users, me).Some?
    requires PyInt(blogId).Ok? && PyInt(blogId).value !in st.posts && text != ""
    ensures var r := Monolith.NewComment(st, me, blogId, Save, text);
            r.outcome == Crash(AttributeError) && !Linked(Apply(st, r.writes))
  {
    var r := Monolith.NewComment(st, me, blogId, Save, text);
    ApplyOne(st, r.writes[0]);
    assert r.writes[0].cid in Apply(st, r.writes).comments;
  }

  /** The handler of `handlers/newcomment.py` checks the post first: the same request writes
      nothing and answers 404. */
  lemma ModularNewCommentRefuses(st: Store, me: Option<int>, blogId: string, text: string)
    requires Me(st.users, me).Some?
    requires PyInt(blogId).Ok? && PyInt(blogId).value !in st.posts
    ensures CommentHandlers.NewComment(st, me, blogId, Save, text) == Answer(NotFound)
  {
  }
}
