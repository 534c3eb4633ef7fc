/** The App Engine datastore, reduced to three id-keyed tables, and the individual writes
    (`put` and `delete`) the handlers issue. Each write is its own step: a handler's effect
    is the sequence of writes it made, applied in order, so a request that raises half-way
    keeps the writes made before the raise. */
module Datastore {
  import opened Users
  import opened Posts
  import opened Comments
  import Sets

  datatype Store = Store(users: map<int, User>, posts: map<int, Post>, comments: map<int, Comment>)

  /** One datastore call. */
  datatype Write =
    | PutUser(uid: int, user: User)
    | PutPost(pid: int, post: Post)
    | PutComment(cid: int, comment: Comment)
    | DelPost(pid: int)
    | DelComment(cid: int)

  /** The effect of one write. Deleting a key that is not there changes nothing. */
  function Step(st: Store, w: Write): (st': Store)
    ensures w.PutUser? ==> st'.users == st.users[w.uid := w.user] && st'.posts == st.posts && st'.comments == st.comments
    ensures w.PutPost? ==> st'.posts == st.posts[w.pid := w.post] && st'.users == st.users && st'.comments == st.comments
    ensures w.PutComment? ==> st'.comments == st.comments[w.cid := w.comment] && st'.users == st.users && st'.posts == st.posts
    ensures w.DelPost? ==> st'.posts.Keys == st.posts.Keys - {w.pid} && st'.users == st.users && st'.comments == st.comments
    ensures w.DelComment? ==> st'.comments.Keys == st.comments.Keys - {w.cid} && st'.users == st.users && st'.posts == st.posts
    ensures forall k :: k in st'.posts && k in st.posts && !(w.PutPost? && w.pid == k) ==> st'.posts[k] == st.posts[k]
    ensures forall k :: k in st'.comments && k in st.comments && !(w.PutComment? && w.cid == k) ==> st'.comments[k] == st.comments[k]
  {
    match w
    case PutUser(uid, u) => st.(users := st.users[uid := u])
    case PutPost(pid, p) => st.(posts := st.posts[pid := p])
    case PutComment(cid, c) => st.(comments := st.comments[cid := c])
    case DelPost(pid) => st.(posts := st.posts - {pid})
    case DelComment(cid) => st.(comments := st.comments - {cid})
  }

  /** The store after a sequence of writes. */
  function Apply(st: Store, ws: seq<Write>): Store
    decreases |ws|
  {
    if ws == [] then st else Apply(Step(st, ws[0]), ws[1..])
  }

  /** A single write. */
  lemma ApplyOne(st: Store, w: Write)
    ensures Apply(st, [w]) == Step(st, w)
  {
    assert [w][1..] == [];
  }

  /** Applying two write sequences one after the other is applying their concatenation. */
  lemma {:induction false} ApplyConcat(st: Store, a: seq<Write>, b: seq<Write>)
    ensures Apply(st, a + b) == Apply(Apply(st, a), b)
    decreases |a|
  {
    if a == [] {
      assert a + b == b;
    } else {
      assert (a + b)[0] == a[0];
      assert (a + b)[1..] == a[1..] + b;
      ApplyConcat(Step(st, a[0]), a[1..], b);
    }
  }

  /** The id the datastore assigns on the first `put` of a new entity: positive and unused.
      The model takes the next id above every key in use, so unlike the datastore it may hand
      out the id of a deleted entity again. */
  function NewId<T>(m: map<int, T>): (id: int)
    ensures id >= 1 && id !in m
    ensures forall k :: k in m ==> k < id
  {
    Sets.Above(m.Keys)
  }

  /** The deletes `Comment.delete_comments(ids)` issues: one per truthy id (a missing one
      deletes nothing). */
  function DeleteCommentsWrites(ids: seq<int>): (ws: seq<Write>)
    ensures forall i :: 0 <= i < |ws| ==> ws[i].DelComment? && ws[i].cid != 0 && ws[i].cid in ids
    decreases |ids|
  {
    if ids == [] then []
    else
      var rest := DeleteCommentsWrites(ids[1..]);
      assert forall k :: k in ids[1..] ==> k in ids;
      (if ids[0] != 0 then [DelComment(ids[0])] else []) + rest
  }

  /** The writes of the bulk delete do to the store exactly what `delete_comments` does to the
      comment table, and touch nothing else. */
  lemma {:induction false} CascadeIsDeleteComments(st: Store, ids: seq<int>)
    ensures Apply(st, DeleteCommentsWrites(ids)) == st.(comments := DeleteComments(st.comments, ids))
    decreases |ids|
  {
    if ids != [] {
      var head := if ids[0] != 0 then [DelComment(ids[0])] else [];
      var rest := DeleteCommentsWrites(ids[1..]);
      var mid := Apply(st, head);
      ApplyConcat(st, head, rest);
      if ids[0] != 0 {
        assert mid == Step(st, DelComment(ids[0]));
        assert mid.comments == Comments.DeleteComment(st.comments, ids[0]);
      } else {
        assert mid == st;
      }
      CascadeIsDeleteComments(mid, ids[1..]);
    }
  }

  /** Deleting the comments a post lists and then the post removes exactly those comments and
      the post. */
  lemma DeletePostCascade(st: Store, pid: int)
    requires pid in st.posts
    ensures Apply(st, DeleteCommentsWrites(st.posts[pid].comments) + [DelPost(pid)]) ==
            Store(st.users, st.posts - {pid}, DeleteComments(st.comments, st.posts[pid].comments))
  {
    var cascade := DeleteCommentsWrites(st.posts[pid].comments);
    ApplyConcat(st, cascade, [DelPost(pid)]);
    CascadeIsDeleteComments(st, st.posts[pid].comments);
    ApplyOne(Apply(st, cascade), DelPost(pid));
  }
}
