// POST /api/category/new: creates a category whose name no other category
// has.
module CategoryNew {
  import opened Http
  import opened Db

  datatype Body = Body(name: Field<string>, description: Field<string>)

  const NameTaken := HttpError(409, "Category with this name already exists")

  predicate ValidBody(b: Body) {
    NonEmpty(b.name) && Optional(b.description)
  }

  /** Validates, rejects a used name with 409, otherwise inserts one row. The
      store invariant (no two categories share a name) is kept. */
  method Handle(db: Store, body: Body) returns (r: Result<Category>)
    requires db.Valid()
    modifies db
    ensures db.Valid()
    ensures r.Err? ==> db.State() == old(db.State())
    ensures !ValidBody(body) ==> r == Err(ValidationError)
    ensures ValidBody(body) && NameInUse(old(db.categories), body.name.value) ==> r == Err(NameTaken)
    ensures ValidBody(body) && !NameInUse(old(db.categories), body.name.value) ==> r.Ok?
    ensures r.Ok? ==>
              && r.value.id !in old(db.categories)
              && r.value.name == body.name.value
              && r.value.description == ValueOf(body.description)
              && db.State() == old(db.State()).(categories := old(db.categories)[r.value.id := r.value])
  {
    if !ValidBody(body) {
      return Err(ValidationError);
    }
    if NameInUse(db.categories, body.name.value) {
      return Err(NameTaken);
    }
    var id := db.FreshId();
    var category := Category(id, body.name.value, ValueOf(body.description));
    db.categories := db.categories[id := category];
    r := Ok(category);
  }

  /** Two successful creates never leave two categories with one name: the
      second of two requests with the same name is refused. */
  method CreateTwice(db: Store, first: Body, second: Body) returns (a: Result<Category>, b: Result<Category>)
    requires db.Valid()
    requires ValidBody(first) && ValidBody(second) && first.name.value == second.name.value
    modifies db
    ensures a.Ok? ==> b == Err(NameTaken)
  {
    a := Handle(db, first);
    if a.Ok? {
      assert db.categories[a.value.id].name == second.name.value;
      assert NameInUse(db.categories, second.name.value);
    }
    b := Handle(db, second);
  }
}
