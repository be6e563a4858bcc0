// GET /api/listing/all: every listing, or those of one category when a
// category id is given, newest first.
module ListingAll {
  import opened Http
  import opened Db
  import opened Ordering
  import ListingNew

  /** A listing row, with its category embedded when the query filters by it. */
  datatype ListingView = ListingView(listing: Listing, category: Option<Category>)

  const CategoryNotFound := HttpError(404, "Category not found")

  /** The filter is applied only when the query parameter is truthy. */
  ghost predicate Selected(l: Listing, categoryId: Option<string>) {
    !Truthy(categoryId) || l.categoryId == categoryId.value
  }

  ghost function Matching(t: Tables, categoryId: Option<string>): set<Listing> {
    set l | l in t.listings.Values && Selected(l, categoryId)
  }

  /** The rows of the response, each with the embedded category or none. */
  function Views(rows: seq<Listing>, category: Option<Category>): seq<ListingView>
  {
    seq(|rows|, i requires 0 <= i < |rows| => ListingView(rows[i], category))
  }

  /** The response, a read of the tables: a 404 for an unknown category,
      otherwise the selected listings newest first. */
  ghost function AllListings(t: Tables, categoryId: Option<string>): (r: Result<seq<ListingView>>)
    ensures r.Err? <==> Truthy(categoryId) && categoryId.value !in t.categories
    ensures r.Err? ==> r.error == CategoryNotFound
  {
    if Truthy(categoryId) && categoryId.value !in t.categories then
      Err(CategoryNotFound)
    else
      var category := if Truthy(categoryId) then Some(t.categories[categoryId.value]) else None;
      Ok(Views(OrderBy(Matching(t, categoryId), ListingCreatedAt, Desc), category))
  }

  /** Each selected listing appears exactly once, and nothing else does. */
  lemma AllListingsExactly(t: Tables, categoryId: Option<string>)
    requires AllListings(t, categoryId).Ok?
    ensures var v := AllListings(t, categoryId).value;
            && |v| == |Matching(t, categoryId)|
            && (forall i :: 0 <= i < |v| ==> v[i].listing in t.listings.Values && Selected(v[i].listing, categoryId))
            && (forall l :: l in t.listings.Values && Selected(l, categoryId) ==>
                  exists i :: 0 <= i < |v| && v[i].listing == l)
  {
    var m := Matching(t, categoryId);
    var rows := OrderBy(m, ListingCreatedAt, Desc);
    var category := if Truthy(categoryId) then Some(t.categories[categoryId.value]) else None;
    var v := Views(rows, category);
    assert v == AllListings(t, categoryId).value;
    assert Lists(rows, m);
    forall i | 0 <= i < |v| ensures v[i].listing in t.listings.Values && Selected(v[i].listing, categoryId) {
      assert v[i].listing == rows[i];
      assert rows[i] in m;
    }
    forall l | l in t.listings.Values && Selected(l, categoryId)
      ensures exists i :: 0 <= i < |v| && v[i].listing == l
    {
      assert l in m;
      assert l in rows;
      var i :| 0 <= i < |rows| && rows[i] == l;
      assert v[i].listing == l;
    }
  }

  /** Newest first, and the category is embedded exactly when filtering. */
  lemma AllListingsNewestFirst(t: Tables, categoryId: Option<string>)
    requires AllListings(t, categoryId).Ok?
    ensures var v := AllListings(t, categoryId).value;
            && (forall i, j :: 0 <= i < j < |v| ==> v[i].listing.createdAt >= v[j].listing.createdAt)
            && (forall i :: 0 <= i < |v| ==>
                  v[i].category == if Truthy(categoryId) then Some(t.categories[categoryId.value]) else None)
  {
    var rows := OrderBy(Matching(t, categoryId), ListingCreatedAt, Desc);
    var v := AllListings(t, categoryId).value;
    assert forall i :: 0 <= i < |v| ==> v[i].listing == rows[i];
    forall i, j | 0 <= i < j < |v| ensures v[i].listing.createdAt >= v[j].listing.createdAt {
      assert Before(ListingCreatedAt(rows[i]), ListingCreatedAt(rows[j]), Desc);
    }
  }

  /** An empty category id is falsy: it filters nothing and is not looked up. */
  lemma EmptyCategoryIdIsNoFilter(t: Tables)
    ensures AllListings(t, Some("")) == AllListings(t, None)
  {
    assert Matching(t, Some("")) == Matching(t, None);
  }

  /** A listing just created is selected by the unfiltered query and by the
      query for its own category. */
  method CreateThenList(db: Store, body: ListingNew.Body, now: nat) returns (r: Result<Listing>)
    requires db.Valid()
    modifies db
    ensures r.Ok? ==> r.value in Matching(db.State(), None) && r.value in Matching(db.State(), Some(r.value.categoryId))
  {
    r := ListingNew.Handle(db, body, now);
    if r.Ok? {
      assert db.listings[r.value.id] == r.value;
    }
  }
}
