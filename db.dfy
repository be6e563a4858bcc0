// The persistence layer seen by the handlers: one row type per table, a
// snapshot of all tables as a value, and the mutable store the handlers
// update in place. The session records of the authentication layer live
// here too, as plain values passed to and returned from the handlers.
module Db {
  import opened Http

  type Id = string

  datatype Role = USER | MODERATOR | ADMIN

  datatype User = User(
    id: Id,
    email: string,
    password: Option<string>,   // the stored hash; null for accounts without one
    name: Option<string>,
    phoneNumber: Option<string>,
    role: Role)

  datatype Category = Category(id: Id, name: string, description: Option<string>)

  datatype Listing = Listing(
    id: Id,
    title: string,
    description: Option<string>,
    price: real,
    authorId: Id,
    categoryId: Id,
    createdAt: nat,
    updatedAt: nat)

  /** The sort key of the newest-first listing queries. */
  function ListingCreatedAt(l: Listing): nat {
    l.createdAt
  }

  datatype Comment = Comment(
    id: Id,
    listingId: Id,
    authorId: Id,
    content: string,
    parentId: Option<Id>,
    createdAt: nat)

  /** The sort key of the comment queries: top-level comments newest first,
      replies oldest first. */
  function CommentCreatedAt(c: Comment): nat {
    c.createdAt
  }

  datatype Image = Image(id: Id, listingId: Id, url: string)

  datatype AttributeType = STRING | INT | FLOAT | BOOLEAN | DATE | ENUM | JSON

  /** The columns of an attribute definition other than its id. */
  datatype DefinitionData = DefinitionData(
    categoryId: Id,
    name: string,
    key: string,
    attrType: AttributeType,
    required: bool,
    options: Option<seq<string>>,
    minNumber: Option<int>,
    maxNumber: Option<int>,
    minDate: Option<string>,
    maxDate: Option<string>)

  datatype AttributeDefinition = AttributeDefinition(id: Id, data: DefinitionData)

  /** A JSON value as stored in an attribute-value row. */
  datatype JsonValue =
    | JNull
    | JBool(b: bool)
    | JNumber(n: int)
    | JString(s: string)
    | JArray(items: seq<JsonValue>)
    | JObject(fields: seq<(string, JsonValue)>)

  /** One attribute-value row of a listing: the definition it answers and its value. */
  datatype AttributeValue = AttributeValue(attributeId: Id, value: JsonValue)

  /** A snapshot of every table. `attributeValues` holds, per listing id, that
      listing's attribute-value rows in the order the store returns them. */
  datatype Tables = Tables(
    users: map<Id, User>,
    categories: map<Id, Category>,
    listings: map<Id, Listing>,
    comments: map<Id, Comment>,
    images: map<Id, Image>,
    definitions: map<Id, AttributeDefinition>,
    attributeValues: map<Id, seq<AttributeValue>>)

  /** The user record kept in the session. */
  datatype SessionUser = SessionUser(
    id: Id,
    name: string,
    email: string,
    role: Role,
    picture: Option<string>,
    googleId: Option<string>,
    phoneNumber: Option<string>)

  /** A user session: its own opaque id and the user record it carries. */
  datatype Session = Session(id: Id, user: SessionUser)

  /** The session user built from a stored user at registration and login. */
  function SessionFor(u: User): SessionUser {
    SessionUser(u.id, if u.name.Some? then u.name.value else "User", u.email, u.role, None, None, None)
  }

  predicate EmailInUse(users: map<Id, User>, email: string) {
    exists k :: k in users && users[k].email == email
  }

  predicate NameInUse(categories: map<Id, Category>, name: string) {
    exists k :: k in categories && categories[k].name == name
  }

  predicate DefinitionExists(definitions: map<Id, AttributeDefinition>, categoryId: Id, key: string) {
    exists k :: k in definitions && definitions[k].data.categoryId == categoryId && definitions[k].data.key == key
  }

  /** The database's own guarantees: every row sits under its id, and the
      unique columns (user email, category name, definition category and key)
      hold no duplicates. */
  ghost predicate WellFormed(t: Tables) {
    && (forall k :: k in t.users ==> t.users[k].id == k)
    && (forall k :: k in t.categories ==> t.categories[k].id == k)
    && (forall k :: k in t.listings ==> t.listings[k].id == k)
    && (forall k :: k in t.comments ==> t.comments[k].id == k)
    && (forall k :: k in t.images ==> t.images[k].id == k)
    && (forall k :: k in t.definitions ==> t.definitions[k].id == k)
    && (forall a, b :: a in t.users && b in t.users && t.users[a].email == t.users[b].email ==> a == b)
    && (forall a, b :: a in t.categories && b in t.categories && t.categories[a].name == t.categories[b].name ==> a == b)
    && (forall a, b ::
          (a in t.definitions && b in t.definitions &&
           t.definitions[a].data.categoryId == t.definitions[b].data.categoryId &&
           t.definitions[a].data.key == t.definitions[b].data.key) ==> a == b)
  }

  /** Every id in use as a row key. */
  function UsedIds(t: Tables): set<Id> {
    t.users.Keys + t.categories.Keys + t.listings.Keys + t.comments.Keys +
    t.images.Keys + t.definitions.Keys
  }

  /** The database, updated in place by the handlers. */
  class Store {
    var users: map<Id, User>
    var categories: map<Id, Category>
    var listings: map<Id, Listing>
    var comments: map<Id, Comment>
    var images: map<Id, Image>
    var definitions: map<Id, AttributeDefinition>
    var attributeValues: map<Id, seq<AttributeValue>>

    function State(): Tables
      reads this
    {
      Tables(users, categories, listings, comments, images, definitions, attributeValues)
    }

    ghost predicate Valid()
      reads this
    {
      WellFormed(State())
    }

    /** An empty database. */
    constructor ()
      ensures Valid()
      ensures State() == Tables(map[], map[], map[], map[], map[], map[], map[])
    {
      users, categories, listings, comments, images := map[], map[], map[], map[], map[];
      definitions, attributeValues := map[], map[];
    }

    /** The id the database generates for a new row: one that no row uses.
        It is made longer than every id in use. */
    method FreshId() returns (id: Id)
      ensures id !in UsedIds(State()) && id != ""
    {
      var used := UsedIds(State());
      var pending := used;
      var longest: nat := 0;
      while pending != {}
        invariant pending <= used
        invariant forall k :: k in used && k !in pending ==> |k| <= longest
        decreases |pending|
      {
        var k :| k in pending;
        if |k| > longest {
          longest := |k|;
        }
        pending := pending - {k};
      }
      id := seq(longest + 1, _ => 'c');
    }
  }
}
