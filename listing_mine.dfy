// GET /api/listing/mine: the session user's listings, newest first, each
// flattened with a thumbnail and six common attribute values.
module ListingMine {
  import opened Http
  import opened Db
  import opened Ordering

  /** An attribute-value row joined with its definition, as the helper reads
      it: the definition's key (absent when the definition is missing) and
      the value (absent when undefined). */
  datatype AttrRow = AttrRow(key: Option<string>, value: Option<JsonValue>)

  datatype MyListingItem = MyListingItem(
    id: Id,
    title: string,
    price: real,
    image: Option<string>,
    categoryId: Id,
    category: Option<Category>,
    createdAt: nat,
    updatedAt: nat,
    year: JsonValue,
    fuelType: JsonValue,
    gearbox: JsonValue,
    power: JsonValue,
    mileage: JsonValue,
    city: JsonValue)

  /** The index `find` stops at: the first row whose definition key is `key`. */
  function FindByKey(rows: seq<AttrRow>, key: string): (r: Option<nat>)
    ensures r.Some? ==> r.value < |rows| && rows[r.value].key == Some(key)
    ensures r.Some? ==> forall j :: 0 <= j < r.value ==> rows[j].key != Some(key)
    ensures r.None? ==> forall j :: 0 <= j < |rows| ==> rows[j].key != Some(key)
  {
    if rows == [] then None
    else if rows[0].key == Some(key) then Some(0)
    else
      match FindByKey(rows[1..], key)
      case None => None
      case Some(i) => Some(i + 1)
  }

  /** `extractAttributeValue`: the value of the first row for `key`, and null
      when there is no such row or its value is null or undefined. */
  function ExtractAttributeValue(rows: seq<AttrRow>, key: string): (v: JsonValue)
    ensures (forall j :: 0 <= j < |rows| ==> rows[j].key != Some(key)) ==> v == JNull
    ensures forall i :: 0 <= i < |rows| && rows[i].key == Some(key) &&
                        (forall j :: 0 <= j < i ==> rows[j].key != Some(key)) ==>
                          v == if rows[i].value.Some? then rows[i].value.value else JNull
  {
    match FindByKey(rows, key)
    case None => JNull
    case Some(i) => if rows[i].value.Some? then rows[i].value.value else JNull
  }

  /** The attribute rows of a listing joined with their definitions. */
  function AttributeRows(t: Tables, listingId: Id): (rows: seq<AttrRow>) {
    var values := if listingId in t.attributeValues then t.attributeValues[listingId] else [];
    seq(|values|, i requires 0 <= i < |values| =>
      var a := values[i];
      AttrRow(if a.attributeId in t.definitions then Some(t.definitions[a.attributeId].data.key) else None,
              Some(a.value)))
  }

  ghost function ImagesOf(t: Tables, listingId: Id): set<Image> {
    set i | i in t.images.Values && i.listingId == listingId
  }

  function ImageId(i: Image): string {
    i.id
  }

  /** `images[0]?.url || null` over the lowest-id image: null when there is no
      image or the url is empty. */
  ghost function Thumbnail(images: set<Image>): (url: Option<string>)
    ensures url.Some? ==>
              (url.value != "" &&
               exists i :: i in images && i.url == url.value && forall y :: y in images ==> StrLe(i.id, y.id))
    ensures url.None? ==>
              (images == {} ||
               exists i :: i in images && i.url == "" && forall y :: y in images ==> StrLe(i.id, y.id))
  {
    if images == {} then None
    else
      var first := Lowest(images, ImageId);
      if first.url == "" then None else Some(first.url)
  }

  /** One item of the response. */
  ghost function Flatten(t: Tables, l: Listing): MyListingItem
  {
    var rows := AttributeRows(t, l.id);
    MyListingItem(
      l.id, l.title, l.price, Thumbnail(ImagesOf(t, l.id)), l.categoryId,
      if l.categoryId in t.categories then Some(t.categories[l.categoryId]) else None,
      l.createdAt, l.updatedAt,
      ExtractAttributeValue(rows, "year"),
      ExtractAttributeValue(rows, "fuel_type"),
      ExtractAttributeValue(rows, "gearbox"),
      ExtractAttributeValue(rows, "power"),
      ExtractAttributeValue(rows, "mileage"),
      ExtractAttributeValue(rows, "city"))
  }

  ghost function Authored(t: Tables, userId: Id): set<Listing> {
    set l | l in t.listings.Values && l.authorId == userId
  }

  ghost function FlattenAll(t: Tables, rows: seq<Listing>): seq<MyListingItem>
  {
    seq(|rows|, i requires 0 <= i < |rows| => Flatten(t, rows[i]))
  }

  /** The response: 401 without a session, otherwise the flattened listings
      of the session user, newest first. */
  ghost function MyListings(t: Tables, session: Option<Session>): (r: Result<seq<MyListingItem>>)
    ensures r.Err? <==> session.None?
    ensures r.Err? ==> r.error == Unauthorized
  {
    if session.None? then Err(Unauthorized)
    else Ok(FlattenAll(t, OrderBy(Authored(t, session.value.user.id), ListingCreatedAt, Desc)))
  }

  /** Every item is the flattening of a listing the session user authored,
      and there are as many items as such listings. */
  lemma MyListingsOnlyMine(t: Tables, s: Session)
    ensures var r := MyListings(t, Some(s));
            var mine := Authored(t, s.user.id);
            && r.Ok?
            && |r.value| == |mine|
            && (forall i :: 0 <= i < |r.value| ==> exists l :: l in mine && r.value[i] == Flatten(t, l))
  {
    var mine := Authored(t, s.user.id);
    var rows := OrderBy(mine, ListingCreatedAt, Desc);
    var items := FlattenAll(t, rows);
    assert MyListings(t, Some(s)) == Ok(items);
    forall i | 0 <= i < |items| ensures exists l :: l in mine && items[i] == Flatten(t, l) {
      var l := rows[i];
      assert l in mine;
      assert items[i] == Flatten(t, l);
    }
  }

  /** Every listing the session user authored has its item. */
  lemma MyListingsEveryMine(t: Tables, s: Session)
    ensures var r := MyListings(t, Some(s));
            && r.Ok?
            && forall l :: l in Authored(t, s.user.id) ==>
                 exists i :: 0 <= i < |r.value| && r.value[i] == Flatten(t, l)
  {
    var mine := Authored(t, s.user.id);
    var rows := OrderBy(mine, ListingCreatedAt, Desc);
    var items := FlattenAll(t, rows);
    assert MyListings(t, Some(s)) == Ok(items);
    forall l | l in mine ensures exists i :: 0 <= i < |items| && items[i] == Flatten(t, l) {
      assert l in rows;
      var i :| 0 <= i < |rows| && rows[i] == l;
      assert items[i] == Flatten(t, l);
    }
  }

  /** Newest first. */
  lemma MyListingsNewestFirst(t: Tables, s: Session)
    ensures var r := MyListings(t, Some(s));
            && r.Ok?
            && forall i, j :: 0 <= i < j < |r.value| ==> r.value[i].createdAt >= r.value[j].createdAt
  {
    var rows := OrderBy(Authored(t, s.user.id), ListingCreatedAt, Desc);
    var items := FlattenAll(t, rows);
    assert MyListings(t, Some(s)) == Ok(items);
    forall i, j | 0 <= i < j < |items| ensures items[i].createdAt >= items[j].createdAt {
      assert items[i] == Flatten(t, rows[i]) && items[j] == Flatten(t, rows[j]);
      assert Before(ListingCreatedAt(rows[i]), ListingCreatedAt(rows[j]), Desc);
    }
  }
}
