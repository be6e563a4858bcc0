// POST /api/listing/new: creates a listing for the author named in the
// request body (the handler reads no session) in an existing category.
module ListingNew {
  import opened Http
  import opened Db

  datatype Body = Body(
    title: Field<string>,
    authorId: Field<string>,
    description: Field<string>,
    price: Field<real>,
    categoryId: Field<string>)

  const AuthorNotFound := HttpError(400, "Author not found")
  const CategoryNotFound := HttpError(400, "Category not found")

  /** The body schema: title, author and category are non-empty strings, the
      price a number of at least 0. */
  predicate ValidBody(b: Body) {
    && NonEmpty(b.title)
    && NonEmpty(b.authorId)
    && Optional(b.description)
    && b.price.Present? && b.price.value >= 0.0
    && NonEmpty(b.categoryId)
  }

  lemma PriceBounds(b: Body)
    ensures b.price.Present? && b.price.value < 0.0 ==> !ValidBody(b)
    ensures ValidBody(b) ==> ValidBody(b.(price := Present(0.0)))
  {
  }

  /** Validation before any lookup; the author is checked before the
      category; success inserts one listing created and updated at `now`. */
  method Handle(db: Store, body: Body, now: nat) returns (r: Result<Listing>)
    requires db.Valid()
    modifies db
    ensures db.Valid()
    ensures r.Err? ==> db.State() == old(db.State())
    ensures !ValidBody(body) ==> r == Err(ValidationError)
    ensures ValidBody(body) && body.authorId.value !in old(db.users) ==> r == Err(AuthorNotFound)
    ensures (ValidBody(body) && body.authorId.value in old(db.users) &&
             body.categoryId.value !in old(db.categories)) ==> r == Err(CategoryNotFound)
    ensures (ValidBody(body) && body.authorId.value in old(db.users) &&
             body.categoryId.value in old(db.categories)) ==> r.Ok?
    ensures r.Ok? ==>
              && r.value.id !in old(db.listings)
              && r.value == Listing(r.value.id, body.title.value, ValueOf(body.description),
                                    body.price.value, body.authorId.value, body.categoryId.value, now, now)
              && db.State() == old(db.State()).(listings := old(db.listings)[r.value.id := r.value])
  {
    if !ValidBody(body) {
      return Err(ValidationError);
    }
    if body.authorId.value !in db.users {
      return Err(AuthorNotFound);
    }
    if body.categoryId.value !in db.categories {
      return Err(CategoryNotFound);
    }
    var id := db.FreshId();
    var listing := Listing(id, body.title.value, ValueOf(body.description), body.price.value,
                           body.authorId.value, body.categoryId.value, now, now);
    db.listings := db.listings[id := listing];
    r := Ok(listing);
  }
}
