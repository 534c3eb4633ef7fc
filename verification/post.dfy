/** The `BlogPost` entity of `models/post.py` and its instance methods. Methods that mutate
    the entity in place return the updated record here; storing it is the caller's `put`. */
module Posts {
  import opened Wrappers
  import opened Seqs
  import opened Users
  import opened Properties

  /** A post: its author's user id, the text, the ids of users who liked it and the ids of
      its comments. The `created` timestamp is not modelled. */
  datatype Post = Post(author: int, subject: string, content: string, likes: seq<int>, comments: seq<int>)

  /** `BlogPost(author=..., subject=..., content=...)`: both id lists start empty. The subject
      is a required single-line string property, the content a required text property. */
  function NewPost(author: int, subject: string, content: string): (r: Py<Post>)
    ensures r.Ok? <==> StringOk(subject, true) && TextOk(content, true)
    ensures r.Raise? ==> r.exc == BadValueError
    ensures r.Ok? ==> r.value.author == author && r.value.subject == subject && r.value.content == content
    ensures r.Ok? ==> r.value.likes == [] && r.value.comments == []
  {
    if StringOk(subject, true) && TextOk(content, true) then Ok(Post(author, subject, content, [], []))
    else Raise(BadValueError)
  }

  /** `valid_author(user_obj)`. */
  function ValidAuthor(users: map<int, User>, p: Post, user: Option<User>): (r: Py<bool>)
    ensures user.None? ==> r == Ok(false)
    ensures r.Raise? <==> user.Some? && p.author !in users
    ensures user.Some? && p.author in users ==> r == Ok(users[p.author].name == user.value.name)
  {
    NameMatch(users, p.author, user)
  }

  /** `update_post_content(subject, content)`: replaces the text, keeps everything else. Each
      assignment is checked as the constructor checks it, the subject first. */
  function UpdatePostContent(p: Post, subject: string, content: string): (r: Py<Post>)
    ensures r.Ok? <==> StringOk(subject, true) && TextOk(content, true)
    ensures r.Raise? ==> r.exc == BadValueError
    ensures r.Ok? ==> r.value.subject == subject && r.value.content == content
    ensures r.Ok? ==> r.value.author == p.author && r.value.likes == p.likes && r.value.comments == p.comments
  {
    if !StringOk(subject, true) then Raise(BadValueError)
    else if !TextOk(content, true) then Raise(BadValueError)
    else Ok(p.(subject := subject, content := content))
  }

  /** `user_already_liked(user_id)`. */
  predicate UserAlreadyLiked(p: Post, uid: int) {
    uid in p.likes
  }

  function LikeCount(p: Post): nat { |p.likes| }

  function CommentCount(p: Post): nat { |p.comments| }

  /** `add_like(user_id)`: appends the id, whether or not it is already there. */
  function AddLike(p: Post, uid: int): (q: Post)
    ensures q.likes == p.likes + [uid]
    ensures UserAlreadyLiked(q, uid) && LikeCount(q) == LikeCount(p) + 1
    ensures q.author == p.author && q.subject == p.subject && q.content == p.content
    ensures q.comments == p.comments
  {
    p.(likes := p.likes + [uid])
  }

  /** `add_comment(cid)`: appends the id at the end, keeping the earlier ones in order. */
  function AddComment(p: Post, cid: int): (q: Post)
    ensures |q.comments| == |p.comments| + 1
    ensures q.comments[..|p.comments|] == p.comments && q.comments[|p.comments|] == cid
    ensures CommentCount(q) == CommentCount(p) + 1
    ensures q.author == p.author && q.subject == p.subject && q.content == p.content
    ensures q.likes == p.likes
  {
    p.(comments := p.comments + [cid])
  }

  /** `delete_comment(cid)`: `list.remove`, which drops the first occurrence of the id and
      raises `ValueError` when there is none. */
  function DeleteComment(p: Post, cid: int): (r: Py<Post>)
    ensures r.Raise? <==> cid !in p.comments
    ensures r.Raise? ==> r.exc == ValueError
    ensures r.Ok? ==> CommentCount(r.value) == CommentCount(p) - 1
    ensures r.Ok? ==> multiset(r.value.comments) == multiset(p.comments) - multiset{cid}
    ensures r.Ok? ==> exists i :: 0 <= i < |p.comments| && p.comments[i] == cid && cid !in p.comments[..i]
                                  && r.value.comments == p.comments[..i] + p.comments[i + 1..]
    ensures r.Ok? ==> r.value.author == p.author && r.value.subject == p.subject
                      && r.value.content == p.content && r.value.likes == p.likes
  {
    match RemoveFirst(p.comments, cid)
    case None => Raise(ValueError)
    case Some(rest) => Ok(p.(comments := rest))
  }

  /** Deleting a comment id that was just added to a list not holding it gives the post back. */
  lemma {:induction false} DeleteUndoesAdd(p: Post, cid: int)
    requires cid !in p.comments
    ensures DeleteComment(AddComment(p, cid), cid) == Ok(p)
  {
    var q := AddComment(p, cid);
    assert q.comments == p.comments + [cid];
    var r := DeleteComment(q, cid);
    var i :| 0 <= i < |q.comments| && q.comments[i] == cid && cid !in q.comments[..i]
             && r.value.comments == q.comments[..i] + q.comments[i + 1..];
    assert i == |p.comments|;
    assert q.comments[..i] == p.comments;
    assert q.comments[i + 1..] == [];
    assert r.value.comments == p.comments;
  }

  /** In a duplicate-free list, deleting an id removes it altogether and keeps the list
      duplicate-free. */
  lemma DeleteFromNoDup(p: Post, cid: int)
    requires NoDup(p.comments) && cid in p.comments
    ensures DeleteComment(p, cid).Ok?
    ensures cid !in DeleteComment(p, cid).value.comments && NoDup(DeleteComment(p, cid).value.comments)
    ensures forall x :: x in DeleteComment(p, cid).value.comments <==> x in p.comments && x != cid
  {
    NoDupRemove(p.comments, cid);
    var rest := DeleteComment(p, cid).value.comments;
    forall x | x in p.comments && x != cid ensures x in rest {
      assert multiset(p.comments)[x] > 0;
      assert multiset(rest)[x] == multiset(p.comments)[x];
    }
  }
}
