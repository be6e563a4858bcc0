// GET /api/comment/all: the top-level comments of one listing, newest first,
// each with its author and its direct replies, oldest first.
module CommentAll {
  import opened Http
  import opened Db
  import opened Ordering
  import CommentNew

  /** The author fields the query selects; absent when the author row is gone. */
  datatype Author = Author(id: Id, name: Option<string>)
  datatype ReplyView = ReplyView(comment: Comment, author: Option<Author>)
  datatype CommentView = CommentView(comment: Comment, author: Option<Author>, replies: seq<ReplyView>)

  const ListingIdRequired := HttpError(400, "listingId is required")
  const ListingNotFound := HttpError(404, "Listing not found")

  function AuthorOf(users: map<Id, User>, authorId: Id): Option<Author>
  {
    if authorId in users then Some(Author(authorId, users[authorId].name)) else None
  }

  /** Comments of the listing without a parent. */
  ghost function TopLevel(t: Tables, listingId: Id): set<Comment> {
    set c | c in t.comments.Values && c.listingId == listingId && c.parentId.None?
  }

  /** The direct replies of a comment, from whatever listing they belong to. */
  ghost function RepliesTo(t: Tables, parentId: Id): set<Comment> {
    set c | c in t.comments.Values && c.parentId == Some(parentId)
  }

  ghost function ReplyViews(t: Tables, rows: seq<Comment>): seq<ReplyView>
  {
    seq(|rows|, i requires 0 <= i < |rows| => ReplyView(rows[i], AuthorOf(t.users, rows[i].authorId)))
  }

  ghost function View(t: Tables, c: Comment): CommentView {
    CommentView(c, AuthorOf(t.users, c.authorId),
                ReplyViews(t, OrderBy(RepliesTo(t, c.id), CommentCreatedAt, Asc)))
  }

  ghost function Views(t: Tables, rows: seq<Comment>): seq<CommentView>
  {
    seq(|rows|, i requires 0 <= i < |rows| => View(t, rows[i]))
  }

  /** The response: 400 for a falsy listing id, 404 for an unknown listing,
      otherwise the top-level comments newest first. */
  ghost function AllComments(t: Tables, listingId: Option<string>): (r: Result<seq<CommentView>>)
    ensures r.Err? <==> !Truthy(listingId) || listingId.value !in t.listings
    ensures !Truthy(listingId) ==> r == Err(ListingIdRequired)
    ensures Truthy(listingId) && listingId.value !in t.listings ==> r == Err(ListingNotFound)
  {
    if !Truthy(listingId) then Err(ListingIdRequired)
    else if listingId.value !in t.listings then Err(ListingNotFound)
    else Ok(Views(t, OrderBy(TopLevel(t, listingId.value), CommentCreatedAt, Desc)))
  }

  /** Every entry is a top-level comment of the listing, as many as there are. */
  lemma AllCommentsOnlyTopLevel(t: Tables, listingId: Id)
    requires listingId != "" && listingId in t.listings
    ensures var r := AllComments(t, Some(listingId));
            && r.Ok?
            && |r.value| == |TopLevel(t, listingId)|
            && forall i :: 0 <= i < |r.value| ==>
                 && r.value[i].comment in t.comments.Values
                 && r.value[i].comment.listingId == listingId
                 && r.value[i].comment.parentId.None?
  {
    var top := TopLevel(t, listingId);
    var rows := OrderBy(top, CommentCreatedAt, Desc);
    var v := Views(t, rows);
    assert AllComments(t, Some(listingId)) == Ok(v);
    forall i | 0 <= i < |v|
      ensures v[i].comment in t.comments.Values && v[i].comment.listingId == listingId
      ensures v[i].comment.parentId.None?
    {
      assert v[i].comment == rows[i];
      assert rows[i] in top;
    }
  }

  /** Every top-level comment of the listing has its entry. */
  lemma AllCommentsEveryTopLevel(t: Tables, listingId: Id)
    requires listingId != "" && listingId in t.listings
    ensures var r := AllComments(t, Some(listingId));
            && r.Ok?
            && forall c :: c in TopLevel(t, listingId) ==>
                 exists i :: 0 <= i < |r.value| && r.value[i].comment == c
  {
    var top := TopLevel(t, listingId);
    var rows := OrderBy(top, CommentCreatedAt, Desc);
    var v := Views(t, rows);
    assert AllComments(t, Some(listingId)) == Ok(v);
    forall c | c in top ensures exists i :: 0 <= i < |v| && v[i].comment == c {
      assert c in rows;
      var i :| 0 <= i < |rows| && rows[i] == c;
      assert v[i].comment == c;
    }
  }

  /** Top-level comments newest first; each has its author looked up. */
  lemma AllCommentsNewestFirst(t: Tables, listingId: Id)
    requires listingId != "" && listingId in t.listings
    ensures var r := AllComments(t, Some(listingId));
            && r.Ok?
            && (forall i, j :: 0 <= i < j < |r.value| ==>
                  r.value[i].comment.createdAt >= r.value[j].comment.createdAt)
            && (forall i :: 0 <= i < |r.value| ==>
                  r.value[i].author == AuthorOf(t.users, r.value[i].comment.authorId))
  {
    var rows := OrderBy(TopLevel(t, listingId), CommentCreatedAt, Desc);
    var v := Views(t, rows);
    assert AllComments(t, Some(listingId)) == Ok(v);
    forall i, j | 0 <= i < j < |v| ensures v[i].comment.createdAt >= v[j].comment.createdAt {
      assert v[i].comment == rows[i] && v[j].comment == rows[j];
      assert Before(CommentCreatedAt(rows[i]), CommentCreatedAt(rows[j]), Desc);
    }
  }

  /** The replies of an entry are exactly the direct replies of its comment,
      oldest first, each with its author. */
  lemma RepliesExactly(t: Tables, c: Comment)
    ensures var rs := View(t, c).replies;
            && |rs| == |RepliesTo(t, c.id)|
            && (forall i :: 0 <= i < |rs| ==>
                  && rs[i].comment in t.comments.Values
                  && rs[i].comment.parentId == Some(c.id)
                  && rs[i].author == AuthorOf(t.users, rs[i].comment.authorId))
            && (forall i, j :: 0 <= i < j < |rs| ==> rs[i].comment.createdAt <= rs[j].comment.createdAt)
  {
    var rows := OrderBy(RepliesTo(t, c.id), CommentCreatedAt, Asc);
    var rs := ReplyViews(t, rows);
    assert View(t, c).replies == rs;
    forall i | 0 <= i < |rs|
      ensures rs[i].comment in t.comments.Values && rs[i].comment.parentId == Some(c.id)
    {
      assert rows[i] in RepliesTo(t, c.id);
    }
    forall i, j | 0 <= i < j < |rs| ensures rs[i].comment.createdAt <= rs[j].comment.createdAt {
      assert Before(CommentCreatedAt(rows[i]), CommentCreatedAt(rows[j]), Asc);
    }
  }

  /** Every direct reply appears under its parent. */
  lemma EveryReplyShown(t: Tables, c: Comment)
    ensures forall x :: x in RepliesTo(t, c.id) ==>
              exists i :: 0 <= i < |View(t, c).replies| && View(t, c).replies[i].comment == x
  {
    var rows := OrderBy(RepliesTo(t, c.id), CommentCreatedAt, Asc);
    var rs := ReplyViews(t, rows);
    assert View(t, c).replies == rs;
    forall x | x in RepliesTo(t, c.id) ensures exists i :: 0 <= i < |rs| && rs[i].comment == x {
      assert x in rows;
      var i :| 0 <= i < |rows| && rows[i] == x;
      assert rs[i].comment == x;
    }
  }

  /** A comment stored with an empty parent id is not top-level, and is a
      reply only of a comment whose id is empty, which the store never
      creates: such a comment is never returned. */
  lemma EmptyParentHidden(t: Tables, listingId: Id, x: Comment)
    requires x.parentId == Some("")
    ensures x !in TopLevel(t, listingId)
    ensures forall id :: x in RepliesTo(t, id) ==> id == ""
  {
  }

  /** A comment just created shows up: without a parent among the top-level
      comments of its listing, with one among that parent's replies. */
  method PostThenList(db: Store, session: Option<Session>, body: CommentNew.Body, now: nat)
    returns (r: Result<Comment>)
    requires db.Valid()
    modifies db
    ensures r.Ok? && r.value.parentId.None? ==> r.value in TopLevel(db.State(), r.value.listingId)
    ensures r.Ok? && r.value.parentId.Some? ==> r.value in RepliesTo(db.State(), r.value.parentId.value)
  {
    r := CommentNew.Handle(db, session, body, now);
    if r.Ok? {
      assert db.comments[r.value.id] == r.value;
    }
  }
}
