/** The `Comment` entity of `models/comment.py`: lookups and deletions over the comment table. */
module Comments {
  import opened Wrappers
  import opened Users
  import opened Properties

  /** A comment: the post it was made on (a reference that may be unset), its author's user id
      and its text. The `created` timestamp is not modelled. */
  datatype Comment = Comment(post: Option<int>, author: int, text: string)

  /** `Comment.get_comments(cid_list)`: the comments behind the listed ids, in list order,
      silently skipping ids with no comment. */
  function GetComments(table: map<int, Comment>, ids: seq<int>): (r: seq<Comment>)
    ensures |r| <= |ids|
  {
    if ids == [] then []
    else (if ids[0] in table then [table[ids[0]]] else []) + GetComments(table, ids[1..])
  }

  /** Exactly the comments of listed, existing ids are returned. */
  lemma {:induction false} GetCommentsMembers(table: map<int, Comment>, ids: seq<int>)
    ensures forall id :: id in ids && id in table ==> table[id] in GetComments(table, ids)
    ensures forall x :: x in GetComments(table, ids) ==> exists id :: id in ids && id in table && table[id] == x
  {
    if ids != [] {
      GetCommentsMembers(table, ids[1..]);
      var r := GetComments(table, ids);
      var rest := GetComments(table, ids[1..]);
      var head := if ids[0] in table then [table[ids[0]]] else [];
      assert r == head + rest;
      forall id | id in ids && id in table ensures table[id] in r {
        if id != ids[0] {
          assert id in ids[1..];
        }
      }
      forall x | x in r ensures exists id :: id in ids && id in table && table[id] == x {
        if x !in rest {
          assert x in head;
          assert ids[0] in ids && ids[0] in table && table[ids[0]] == x;
        } else {
          var id :| id in ids[1..] && id in table && table[id] == x;
          assert id in ids;
        }
      }
    }
  }

  /** When every listed id exists, the result is the list's comments one for one. */
  lemma {:induction false} GetCommentsAllPresent(table: map<int, Comment>, ids: seq<int>)
    requires forall i :: 0 <= i < |ids| ==> ids[i] in table
    ensures |GetComments(table, ids)| == |ids|
    ensures forall i :: 0 <= i < |ids| ==> GetComments(table, ids)[i] == table[ids[i]]
  {
    if ids != [] {
      GetCommentsAllPresent(table, ids[1..]);
      var rest := GetComments(table, ids[1..]);
      assert GetComments(table, ids) == [table[ids[0]]] + rest;
      forall i | 0 <= i < |ids| ensures GetComments(table, ids)[i] == table[ids[i]] {
        if i > 0 {
          assert ids[i] == ids[1..][i - 1];
          assert GetComments(table, ids)[i] == rest[i - 1];
        }
      }
    }
  }

  /** The lookup distributes over concatenation, so the order of the list is kept. */
  lemma {:induction false} GetCommentsAppend(table: map<int, Comment>, a: seq<int>, b: seq<int>)
    ensures GetComments(table, a + b) == GetComments(table, a) + GetComments(table, b)
    decreases |a|
  {
    if a == [] {
      assert a + b == b;
    } else {
      assert (a + b)[0] == a[0];
      assert (a + b)[1..] == a[1..] + b;
      GetCommentsAppend(table, a[1..], b);
    }
  }

  /** `get_author()`: follows the author reference and returns the user's name. */
  function GetAuthor(users: map<int, User>, cmt: Comment): (r: Py<string>)
    ensures r.Raise? <==> cmt.author !in users
    ensures r.Raise? ==> r.exc == ReferencePropertyResolveError
    ensures r.Ok? ==> r.value == users[cmt.author].name
  {
    if cmt.author in users then Ok(users[cmt.author].name) else Raise(ReferencePropertyResolveError)
  }

  /** `Comment.get_author_by_id(cid)`: the author's name, or a falsy value (here `None`) for a
      falsy id or a missing comment. */
  function GetAuthorById(users: map<int, User>, table: map<int, Comment>, cid: int): (r: Py<Option<string>>)
    ensures r == Ok(None) <==> cid == 0 || cid !in table
    ensures r.Raise? <==> cid != 0 && cid in table && table[cid].author !in users
    ensures r.Ok? && r.value.Some? ==> cid in table && r.value.value == users[table[cid].author].name
  {
    if cid == 0 || cid !in table then Ok(None)
    else match GetAuthor(users, table[cid])
      case Raise(e) => Raise(e)
      case Ok(name) => Ok(Some(name))
  }

  /** `valid_author(user_obj)`. */
  function ValidAuthor(users: map<int, User>, cmt: Comment, user: Option<User>): (r: Py<bool>)
    ensures user.None? ==> r == Ok(false)
    ensures r.Raise? <==> user.Some? && cmt.author !in users
    ensures user.Some? && cmt.author in users ==> r == Ok(users[cmt.author].name == user.value.name)
  {
    NameMatch(users, cmt.author, user)
  }

  /** `update_text(text)`: replaces the text and nothing else. The text is a required text
      property, so the empty text raises `BadValueError`. */
  function UpdateText(cmt: Comment, text: string): (r: Py<Comment>)
    ensures r.Ok? <==> TextOk(text, true)
    ensures r.Raise? ==> r.exc == BadValueError
    ensures r.Ok? ==> r.value.text == text && r.value.post == cmt.post && r.value.author == cmt.author
  {
    if TextOk(text, true) then Ok(cmt.(text := text)) else Raise(BadValueError)
  }

  /** `Comment.delete_comment(cid)`: deletes that comment if the id is truthy and names one. */
  function DeleteComment(table: map<int, Comment>, cid: int): (r: map<int, Comment>)
    ensures forall k :: k in r <==> k in table && (k != cid || cid == 0)
    ensures forall k :: k in r ==> r[k] == table[k]
  {
    if cid != 0 && cid in table then table - {cid} else table
  }

  /** `Comment.delete_comments(cid_list)`: `delete_comment` for each listed id in turn. */
  function DeleteComments(table: map<int, Comment>, ids: seq<int>): (r: map<int, Comment>)
    ensures forall k :: k in r <==> k in table && (k !in ids || k == 0)
    ensures forall k :: k in r ==> r[k] == table[k]
    decreases |ids|
  {
    if ids == [] then table
    else
      var r := DeleteComments(DeleteComment(table, ids[0]), ids[1..]);
      assert forall k :: k in ids <==> k == ids[0] || k in ids[1..];
      r
  }

  /** A second bulk delete of the same ids changes nothing. */
  lemma DeleteCommentsIdempotent(table: map<int, Comment>, ids: seq<int>)
    ensures DeleteComments(DeleteComments(table, ids), ids) == DeleteComments(table, ids)
  {
    var once := DeleteComments(table, ids);
    var twice := DeleteComments(once, ids);
    assert twice.Keys == once.Keys;
  }
}
