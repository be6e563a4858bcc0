// POST /api/comment/new: adds a comment or a reply to an existing listing.
// The author stored is the id of the session itself, as the handler reads it.
module CommentNew {
  import opened Http
  import opened Db

  datatype Body = Body(listingId: Field<string>, content: Field<string>, parentId: Field<string>)

  const ListingNotFound := HttpError(400, "Listing not found")
  const ParentNotFound := HttpError(400, "Parent comment not found")

  predicate ValidBody(b: Body) {
    NonEmpty(b.listingId) && NonEmpty(b.content) && Optional(b.parentId)
  }

  /** The parent is looked up only when `parentId` is truthy. */
  predicate ParentMissing(comments: map<Id, Comment>, parentId: Field<string>) {
    Truthy(ValueOf(parentId)) && parentId.value !in comments
  }

  /** Session, body, listing, then parent; the parent is only required to
      exist, and may belong to any listing. */
  method Handle(db: Store, session: Option<Session>, body: Body, now: nat) returns (r: Result<Comment>)
    requires db.Valid()
    modifies db
    ensures db.Valid()
    ensures r.Err? ==> db.State() == old(db.State())
    ensures session.None? ==> r == Err(Unauthorized)
    ensures session.Some? && !ValidBody(body) ==> r == Err(ValidationError)
    ensures session.Some? && ValidBody(body) && body.listingId.value !in old(db.listings) ==>
              r == Err(ListingNotFound)
    ensures (session.Some? && ValidBody(body) && body.listingId.value in old(db.listings) &&
             ParentMissing(old(db.comments), body.parentId)) ==> r == Err(ParentNotFound)
    ensures (session.Some? && ValidBody(body) && body.listingId.value in old(db.listings) &&
             !ParentMissing(old(db.comments), body.parentId)) ==> r.Ok?
    ensures r.Ok? ==>
              && session.Some?
              && r.value.id !in old(db.comments)
              && r.value == Comment(r.value.id, body.listingId.value, session.value.id,
                                    body.content.value, ValueOf(body.parentId), now)
              && db.State() == old(db.State()).(comments := old(db.comments)[r.value.id := r.value])
  {
    if session.None? {
      return Err(Unauthorized);
    }
    if !ValidBody(body) {
      return Err(ValidationError);
    }
    if body.listingId.value !in db.listings {
      return Err(ListingNotFound);
    }
    if ParentMissing(db.comments, body.parentId) {
      return Err(ParentNotFound);
    }
    var id := db.FreshId();
    var comment := Comment(id, body.listingId.value, session.value.id, body.content.value,
                           ValueOf(body.parentId), now);
    db.comments := db.comments[id := comment];
    r := Ok(comment);
  }

  /** A reply to a comment of another listing is accepted: the parent is
      checked for existence only. */
  method ReplyAcrossListings(db: Store, session: Session, body: Body, now: nat) returns (r: Result<Comment>)
    requires db.Valid()
    requires ValidBody(body) && body.listingId.value in db.listings
    requires body.parentId.Present? && body.parentId.value in db.comments
    requires db.comments[body.parentId.value].listingId != body.listingId.value
    modifies db
    ensures r.Ok? && r.value.parentId == Some(body.parentId.value)
  {
    r := Handle(db, Some(session), body, now);
  }
}
