// The seed script: upserts the four top-level categories by name and gives
// each the attribute definitions it lacks. The current year and the current
// instant (as its ISO text) are parameters.
module Seed {
  import opened Http
  import opened Db

  /** An attribute of the seed data; fields the data leaves out are None. */
  datatype SeedAttribute = SeedAttribute(
    name: string,
    key: string,
    attrType: AttributeType,
    required: Option<bool>,
    options: Option<seq<string>>,
    minNumber: Option<int>,
    maxNumber: Option<int>,
    minDate: Option<string>,
    maxDate: Option<string>)

  datatype SeedCategory = SeedCategory(name: string, description: string, attributes: seq<SeedAttribute>)

  /** An attribute with only a name, a key and a type. */
  function Plain(name: string, key: string, attrType: AttributeType): SeedAttribute {
    SeedAttribute(name, key, attrType, None, None, None, None, None, None)
  }

  function Choice(name: string, key: string, options: seq<string>): SeedAttribute {
    SeedAttribute(name, key, ENUM, None, Some(options), None, None, None, None)
  }

  function Required(name: string, key: string): SeedAttribute {
    SeedAttribute(name, key, STRING, Some(true), None, None, None, None, None)
  }

  function Cars(currentYear: int, now: string): SeedCategory {
    SeedCategory("Automobiliai", "Automobiliai", [
      SeedAttribute("Metai", "year", INT, Some(true), None, Some(1900), Some(currentYear + 1), None, None),
      Required("Gamintojas", "make"),
      Required("Modelis", "model"),
      SeedAttribute("Rida", "mileage", INT, None, None, Some(0), None, None, None),
      Choice("Kuro tipas", "fuel_type", ["Benzinas", "Dyzelinas", "Elektrinis", "Hibridinis"]),
      Choice("Pavarų dėžė", "transmission", ["Mechaninė", "Automatinė"]),
      Plain("Spalva", "color", STRING),
      SeedAttribute("Durys", "doors", INT, None, None, Some(2), Some(7), None, None),
      SeedAttribute("Pagaminimo data", "manufacture_date", DATE, None, None, None, None,
                    Some("1900-01-01T00:00:00.000Z"), Some(now))
    ])
  }

  function Bikes(): SeedCategory {
    SeedCategory("Dviračiai ir motociklai", "Motociklai ir dviračiai", [
      Plain("Metai", "year", INT),
      Plain("Prekės ženklas", "brand", STRING),
      Plain("Modelis", "model", STRING),
      Choice("Tipas", "type", ["Plentas", "Kalnų", "Hibridinis", "Kruizeris"]),
      Plain("Variklio tūris (cc)", "cc", INT),
      Plain("Rida", "mileage", INT)
    ])
  }

  function Parts(): SeedCategory {
    SeedCategory("Dalys", "Transporto priemonių dalys ir priedai", [
      Plain("Dalies tipas", "part_type", STRING),
      Plain("Tinka", "compatible_with", STRING),
      Choice("Būklė", "condition", ["Naujas", "Naudotas", "Atnaujintas"]),
      Plain("Gamintojas", "manufacturer", STRING)
    ])
  }

  function Services(): SeedCategory {
    SeedCategory("Paslaugos", "Paslaugos (remontas, techninė priežiūra ir kt.)", [
      Plain("Trukmė (valandomis)", "duration_hours", FLOAT)
    ])
  }

  /** The seed data, in the order the script walks it. */
  function SeedData(currentYear: int, now: string): seq<SeedCategory> {
    [Cars(currentYear, now), Bikes(), Parts(), Services()]
  }

  /** The definition row the script builds for an attribute of the category
      just upserted: an omitted `required` becomes false. */
  function ToDefinition(categoryId: Id, a: SeedAttribute): DefinitionData
  {
    DefinitionData(categoryId, a.name, a.key, a.attrType,
                   if a.required.Some? then a.required.value else false,
                   a.options, a.minNumber, a.maxNumber, a.minDate, a.maxDate)
  }

  // ----- invariants of the seed data -----

  ghost predicate EnumsHaveOptions(c: SeedCategory) {
    forall i :: 0 <= i < |c.attributes| && c.attributes[i].attrType == ENUM ==>
      c.attributes[i].options.Some? && |c.attributes[i].options.value| > 0
  }

  ghost predicate KeysDistinct(c: SeedCategory) {
    forall i, j :: 0 <= i < j < |c.attributes| ==> c.attributes[i].key != c.attributes[j].key
  }

  ghost predicate BoundsOrdered(c: SeedCategory) {
    forall i :: (0 <= i < |c.attributes| && c.attributes[i].minNumber.Some? &&
                 c.attributes[i].maxNumber.Some?) ==>
      c.attributes[i].minNumber.value <= c.attributes[i].maxNumber.value
  }

  /** Every ENUM attribute lists at least one option. */
  lemma SeedEnumsHaveOptions(currentYear: int, now: string)
    ensures forall c :: c in SeedData(currentYear, now) ==> EnumsHaveOptions(c)
  {
    var data := SeedData(currentYear, now);
    assert data[0].attributes[4].options.value == ["Benzinas", "Dyzelinas", "Elektrinis", "Hibridinis"];
  }

  /** No category of the seed data names one key twice. */
  lemma SeedKeysDistinct(currentYear: int, now: string)
    ensures forall c :: c in SeedData(currentYear, now) ==> KeysDistinct(c)
  {
    var data := SeedData(currentYear, now);
    assert KeysDistinct(data[0]) by {
      var ks := seq(|data[0].attributes|, i requires 0 <= i < |data[0].attributes| => data[0].attributes[i].key);
      assert ks == ["year", "make", "model", "mileage", "fuel_type", "transmission", "color", "doors", "manufacture_date"];
    }
  }

  /** Wherever both numeric bounds are given, the minimum does not exceed the
      maximum; for the year this needs a current year of at least 1899. */
  lemma SeedBoundsOrdered(currentYear: int, now: string)
    requires currentYear >= 1899
    ensures forall c :: c in SeedData(currentYear, now) ==> BoundsOrdered(c)
  {
  }

  /** The year bound is the only one that depends on the clock: before 1899
      it is inverted. */
  lemma SeedYearBoundsInverted(currentYear: int, now: string)
    requires currentYear < 1899
    ensures !BoundsOrdered(SeedData(currentYear, now)[0])
  {
    assert SeedData(currentYear, now)[0].attributes[0].minNumber == Some(1900);
  }

  /** The category names are pairwise distinct, so the upserts touch four
      different rows. */
  lemma SeedNamesDistinct(currentYear: int, now: string)
    ensures var data := SeedData(currentYear, now);
            forall i, j :: 0 <= i < j < |data| ==> data[i].name != data[j].name
  {
  }

  // ----- the effect on the store -----

  /** The category row of `c` is present with its seeded description, and
      it has a definition for every key of `c`. */
  ghost predicate CategorySeeded(t: Tables, c: SeedCategory) {
    exists k :: k in t.categories && t.categories[k] == Category(k, c.name, Some(c.description)) &&
      forall i :: 0 <= i < |c.attributes| ==> DefinitionExists(t.definitions, k, c.attributes[i].key)
  }

  ghost predicate Seeded(t: Tables, data: seq<SeedCategory>) {
    forall i :: 0 <= i < |data| ==> CategorySeeded(t, data[i])
  }

  /** A definition the script may have built: one of a seeded attribute,
      under the category carrying that attribute's category name. */
  ghost predicate FromSeed(categories: map<Id, Category>, data: seq<SeedCategory>, d: DefinitionData) {
    exists i, j :: 0 <= i < |data| && 0 <= j < |data[i].attributes| &&
      d == ToDefinition(d.categoryId, data[i].attributes[j]) &&
      d.categoryId in categories && categories[d.categoryId].name == data[i].name
  }

  ghost predicate IsSeedCategory(data: seq<SeedCategory>, c: Category) {
    exists i :: 0 <= i < |data| && c.name == data[i].name && c.description == Some(data[i].description)
  }

  /** The definitions of `t1` that `t0` lacks are all built from the seed
      data. */
  ghost predicate NewFromSeed(t0: Tables, t1: Tables, data: seq<SeedCategory>) {
    forall k :: k in t1.definitions && k !in t0.definitions ==> FromSeed(t1.categories, data, t1.definitions[k].data)
  }

  /** What the script may change between `t0` and `t1`: only categories and
      definitions; existing category rows keep their id and name; existing
      definitions are untouched; a category row is either as before or a
      seeded one; every new definition is built from the seed data. */
  ghost predicate SeedStep(t0: Tables, t1: Tables, data: seq<SeedCategory>) {
    && t1.users == t0.users && t1.listings == t0.listings && t1.comments == t0.comments
    && t1.images == t0.images && t1.attributeValues == t0.attributeValues
    && (forall k :: k in t0.categories ==> k in t1.categories && t1.categories[k].name == t0.categories[k].name)
    && (forall k :: k in t1.categories ==>
          (k in t0.categories && t1.categories[k] == t0.categories[k]) || IsSeedCategory(data, t1.categories[k]))
    && (forall k :: k in t0.definitions ==> k in t1.definitions && t1.definitions[k] == t0.definitions[k])
    && NewFromSeed(t0, t1, data)
  }

  /** Every definition a script step adds is built from one seeded
      attribute: it sits under the category row carrying that attribute's
      category name, carries the attribute's name, key, type, options and
      bounds, and is required exactly when the attribute says `required:
      true`, so an omitted `required` is stored as false. */
  lemma SeedAddsOnlySeedDefinitions(t0: Tables, t1: Tables, data: seq<SeedCategory>)
    requires SeedStep(t0, t1, data)
    ensures forall k :: k in t1.definitions && k !in t0.definitions ==>
              exists i, j :: 0 <= i < |data| && 0 <= j < |data[i].attributes| &&
                AddedFor(t1, t1.definitions[k].data, data[i], data[i].attributes[j])
  {
    forall k | k in t1.definitions && k !in t0.definitions
      ensures exists i, j :: 0 <= i < |data| && 0 <= j < |data[i].attributes| &&
                AddedFor(t1, t1.definitions[k].data, data[i], data[i].attributes[j])
    {
      var d := t1.definitions[k].data;
      var i, j :| 0 <= i < |data| && 0 <= j < |data[i].attributes| &&
        d == ToDefinition(d.categoryId, data[i].attributes[j]) &&
        d.categoryId in t1.categories && t1.categories[d.categoryId].name == data[i].name;
      assert AddedFor(t1, d, data[i], data[i].attributes[j]);
    }
  }

  /** `d` is the row for attribute `a` of the seed category `c`. */
  ghost predicate AddedFor(t: Tables, d: DefinitionData, c: SeedCategory, a: SeedAttribute) {
    && d.categoryId in t.categories && t.categories[d.categoryId].name == c.name
    && d.name == a.name && d.key == a.key && d.attrType == a.attrType
    && (d.required <==> a.required == Some(true))
    && d.options == a.options && d.minNumber == a.minNumber && d.maxNumber == a.maxNumber
    && d.minDate == a.minDate && d.maxDate == a.maxDate
  }

  /** `category.upsert` by name: updates the description of the category with
      that name, or creates it. */
  method UpsertCategory(db: Store, name: string, description: string) returns (id: Id)
    requires db.Valid()
    modifies db
    ensures db.Valid()
    ensures id in old(db.categories) <==> old(NameInUse(db.categories, name))
    ensures id in old(db.categories) ==> old(db.categories)[id].name == name
    ensures db.State() == old(db.State()).(categories := old(db.categories)[id := Category(id, name, Some(description))])
  {
    if NameInUse(db.categories, name) {
      id :| id in db.categories && db.categories[id].name == name;
    } else {
      id := db.FreshId();
    }
    db.categories := db.categories[id := Category(id, name, Some(description))];
  }

  /** The fallback path: creates the definition unless one with the same
      category and key exists. */
  method CreateDefinitionIfAbsent(db: Store, d: DefinitionData) returns (created: Option<Id>)
    requires db.Valid()
    modifies db
    ensures db.Valid()
    ensures created.None? <==> old(DefinitionExists(db.definitions, d.categoryId, d.key))
    ensures created.None? ==> db.State() == old(db.State())
    ensures created.Some? ==>
              && created.value !in old(db.definitions)
              && db.State() == old(db.State()).(definitions :=
                   old(db.definitions)[created.value := AttributeDefinition(created.value, d)])
  {
    if DefinitionExists(db.definitions, d.categoryId, d.key) {
      return None;
    }
    var id := db.FreshId();
    db.definitions := db.definitions[id := AttributeDefinition(id, d)];
    created := Some(id);
  }

  /** Definitions only grow. */
  ghost predicate DefinitionsKept(t0: Tables, t1: Tables) {
    forall k :: k in t0.definitions ==> k in t1.definitions && t1.definitions[k] == t0.definitions[k]
  }

  lemma DefinitionExistsKept(t0: Tables, t1: Tables, categoryId: Id, key: string)
    requires DefinitionsKept(t0, t1)
    requires DefinitionExists(t0.definitions, categoryId, key)
    ensures DefinitionExists(t1.definitions, categoryId, key)
  {
    var k :| k in t0.definitions && t0.definitions[k].data.categoryId == categoryId && t0.definitions[k].data.key == key;
    assert k in t1.definitions && t1.definitions[k] == t0.definitions[k];
  }

  /** A seeded category stays seeded while its row is left alone and no
      definition is removed or changed. */
  lemma CategorySeededKept(t0: Tables, t1: Tables, c: SeedCategory)
    requires CategorySeeded(t0, c)
    requires forall k :: k in t0.categories && t0.categories[k].name == c.name ==>
               k in t1.categories && t1.categories[k] == t0.categories[k]
    requires DefinitionsKept(t0, t1)
    ensures CategorySeeded(t1, c)
  {
    var k :| k in t0.categories && t0.categories[k] == Category(k, c.name, Some(c.description)) &&
      forall i :: 0 <= i < |c.attributes| ==> DefinitionExists(t0.definitions, k, c.attributes[i].key);
    forall i | 0 <= i < |c.attributes| ensures DefinitionExists(t1.definitions, k, c.attributes[i].key) {
      DefinitionExistsKept(t0, t1, k, c.attributes[i].key);
    }
  }

  /** Two script steps make one. */
  lemma SeedStepTransitive(t0: Tables, t1: Tables, t2: Tables, data: seq<SeedCategory>)
    requires SeedStep(t0, t1, data) && SeedStep(t1, t2, data)
    ensures SeedStep(t0, t2, data)
  {
    forall k | k in t2.definitions && k !in t0.definitions
      ensures FromSeed(t2.categories, data, t2.definitions[k].data)
    {
      var d := t2.definitions[k].data;
      if k in t1.definitions {
        assert t1.definitions[k] == t2.definitions[k];
        var i, j :| 0 <= i < |data| && 0 <= j < |data[i].attributes| &&
          d == ToDefinition(d.categoryId, data[i].attributes[j]) &&
          d.categoryId in t1.categories && t1.categories[d.categoryId].name == data[i].name;
        assert t2.categories[d.categoryId].name == data[i].name;
      }
    }
  }

  /** Every key of `c` has a definition under the category `id`. */
  ghost predicate KeysDefined(t: Tables, id: Id, c: SeedCategory) {
    forall m :: 0 <= m < |c.attributes| ==> DefinitionExists(t.definitions, id, c.attributes[m].key)
  }

  lemma NewFromSeedTransitive(t0: Tables, t1: Tables, t2: Tables, data: seq<SeedCategory>)
    requires t1.categories == t0.categories && t2.categories == t1.categories
    requires DefinitionsKept(t1, t2)
    requires NewFromSeed(t0, t1, data) && NewFromSeed(t1, t2, data)
    ensures NewFromSeed(t0, t2, data)
  {
    forall k | k in t2.definitions && k !in t0.definitions
      ensures FromSeed(t2.categories, data, t2.definitions[k].data)
    {
      if k in t1.definitions {
        assert t2.definitions[k] == t1.definitions[k];
      }
    }
  }

  lemma KeysPrefixKept(t0: Tables, t1: Tables, id: Id, c: SeedCategory, j: nat)
    requires DefinitionsKept(t0, t1)
    requires forall m :: 0 <= m < j && m < |c.attributes| ==> DefinitionExists(t0.definitions, id, c.attributes[m].key)
    ensures forall m :: 0 <= m < j && m < |c.attributes| ==> DefinitionExists(t1.definitions, id, c.attributes[m].key)
  {
    forall m | 0 <= m < j && m < |c.attributes| ensures DefinitionExists(t1.definitions, id, c.attributes[m].key) {
      DefinitionExistsKept(t0, t1, id, c.attributes[m].key);
    }
  }

  /** The invariant of the inner loop over the attributes of `data[i]`,
      after `j` of them, started from the tables `t0`. */
  ghost predicate Defining(t0: Tables, t: Tables, data: seq<SeedCategory>, i: nat, id: Id, j: nat) {
    && WellFormed(t)
    && t == t0.(definitions := t.definitions)
    && DefinitionsKept(t0, t)
    && NewFromSeed(t0, t, data)
    && i < |data|
    && (forall m :: 0 <= m < j && m < |data[i].attributes| ==>
          DefinitionExists(t.definitions, id, data[i].attributes[m].key))
    && (KeysDefined(t0, id, data[i]) ==> t == t0)
  }

  /** A definition just created for attribute `j` of `data[i]` under its
      category keeps every other definition, defines the key, and is built
      from the seed data. */
  lemma CreatedFromSeed(before: Tables, after: Tables, data: seq<SeedCategory>, i: nat, id: Id, j: nat, n: Id)
    requires i < |data| && j < |data[i].attributes|
    requires id in before.categories && before.categories[id].name == data[i].name
    requires n !in before.definitions
    requires after == before.(definitions := before.definitions[n :=
               AttributeDefinition(n, ToDefinition(id, data[i].attributes[j]))])
    ensures DefinitionsKept(before, after)
    ensures NewFromSeed(before, after, data)
    ensures DefinitionExists(after.definitions, id, data[i].attributes[j].key)
  {
    var d := ToDefinition(id, data[i].attributes[j]);
    assert after.definitions[n].data == d;
    assert FromSeed(after.categories, data, d) by {
      assert d == ToDefinition(d.categoryId, data[i].attributes[j]);
    }
  }

  /** The inner-loop invariant survives one attribute, whether its
      definition was already there or was just created. */
  lemma DefiningStep(t0: Tables, before: Tables, after: Tables, data: seq<SeedCategory>, i: nat, id: Id,
                     j: nat, created: Option<Id>)
    requires Defining(t0, before, data, i, id, j)
    requires j < |data[i].attributes|
    requires id in before.categories && before.categories[id].name == data[i].name
    requires WellFormed(after)
    requires created.None? <==> DefinitionExists(before.definitions, id, data[i].attributes[j].key)
    requires created.None? ==> after == before
    requires created.Some? ==>
               && created.value !in before.definitions
               && after == before.(definitions := before.definitions[created.value :=
                    AttributeDefinition(created.value, ToDefinition(id, data[i].attributes[j]))])
    ensures Defining(t0, after, data, i, id, j + 1)
  {
    if created.None? {
      assert after == before;
      assert DefinitionExists(after.definitions, id, data[i].attributes[j].key);
      assert DefinitionsKept(before, after) && NewFromSeed(before, after, data);
    } else {
      assert !KeysDefined(t0, id, data[i]);
      CreatedFromSeed(before, after, data, i, id, j, created.value);
    }
    NewFromSeedTransitive(t0, before, after, data);
    KeysPrefixKept(before, after, id, data[i], j);
  }

  /** One attribute of the inner loop: the definition of `data[i]`'s
      attribute `j` under category `id` is created unless its key is there. */
  method DefineOne(db: Store, data: seq<SeedCategory>, i: nat, j: nat, id: Id, ghost t0: Tables)
    requires Defining(t0, db.State(), data, i, id, j)
    requires j < |data[i].attributes|
    requires id in db.categories && db.categories[id].name == data[i].name
    modifies db
    ensures Defining(t0, db.State(), data, i, id, j + 1)
  {
    ghost var before := db.State();
    var created := CreateDefinitionIfAbsent(db, ToDefinition(id, data[i].attributes[j]));
    DefiningStep(t0, before, db.State(), data, i, id, j, created);
  }

  /** The inner loop of the script: for each attribute of `data[i]`, the
      definition under category `id` is created unless its key is there. */
  method DefineAll(db: Store, data: seq<SeedCategory>, i: nat, id: Id)
    requires db.Valid()
    requires i < |data| && id in db.categories && db.categories[id].name == data[i].name
    modifies db
    ensures db.Valid()
    ensures db.State() == old(db.State()).(definitions := db.definitions)
    ensures DefinitionsKept(old(db.State()), db.State())
    ensures NewFromSeed(old(db.State()), db.State(), data)
    ensures KeysDefined(db.State(), id, data[i])
    ensures old(KeysDefined(db.State(), id, data[i])) ==> db.State() == old(db.State())
  {
    ghost var t0 := db.State();
    for j := 0 to |data[i].attributes|
      invariant Defining(t0, db.State(), data, i, id, j)
      invariant id in db.categories && db.categories[id].name == data[i].name
    {
      DefineOne(db, data, i, j, id, t0);
    }
  }

  /** One turn of the script's loop: upserts the category `data[i]`, then
      creates each of its definitions that is absent. */
  method SeedOne(db: Store, data: seq<SeedCategory>, i: nat)
    requires db.Valid()
    requires i < |data|
    modifies db
    ensures db.Valid()
    ensures CategorySeeded(db.State(), data[i])
    ensures SeedStep(old(db.State()), db.State(), data)
    ensures forall k :: k in old(db.categories) && old(db.categories)[k].name != data[i].name ==>
              k in db.categories && db.categories[k] == old(db.categories)[k]
    ensures DefinitionsKept(old(db.State()), db.State())
    ensures old(CategorySeeded(db.State(), data[i])) ==> db.State() == old(db.State())
  {
    ghost var t0 := db.State();
    var c := data[i];
    var id := UpsertCategory(db, c.name, c.description);
    ghost var t1 := db.State();
    if CategorySeeded(t0, c) {
      var k :| k in t0.categories && t0.categories[k] == Category(k, c.name, Some(c.description)) &&
        KeysDefined(t0, k, c);
      assert id == k;
      assert t1.categories == t0.categories;
      assert t1 == t0;
    }
    DefineAll(db, data, i, id);
    assert db.categories[id] == Category(id, c.name, Some(c.description));
    assert IsSeedCategory(data, db.categories[id]);
  }

  /** The invariant of the outer loop after `i` categories, started from
      the tables `t0`. */
  ghost predicate Seeding(t0: Tables, t: Tables, data: seq<SeedCategory>, i: nat) {
    && WellFormed(t)
    && (forall m :: 0 <= m < i && m < |data| ==> CategorySeeded(t, data[m]))
    && SeedStep(t0, t, data)
    && (Seeded(t0, data) ==> t == t0)
  }

  /** The outer-loop invariant survives one category. */
  lemma SeedingStep(t0: Tables, before: Tables, after: Tables, data: seq<SeedCategory>, i: nat)
    requires Seeding(t0, before, data, i)
    requires i < |data|
    requires forall a, b :: 0 <= a < b < |data| ==> data[a].name != data[b].name
    requires WellFormed(after)
    requires CategorySeeded(after, data[i])
    requires SeedStep(before, after, data)
    requires forall k :: k in before.categories && before.categories[k].name != data[i].name ==>
               k in after.categories && after.categories[k] == before.categories[k]
    requires DefinitionsKept(before, after)
    requires CategorySeeded(before, data[i]) ==> after == before
    ensures Seeding(t0, after, data, i + 1)
  {
    if Seeded(t0, data) {
      assert before == t0;
      assert CategorySeeded(before, data[i]);
    }
    SeedStepTransitive(t0, before, after, data);
    forall m | 0 <= m < i ensures CategorySeeded(after, data[m]) {
      assert data[m].name != data[i].name;
      CategorySeededKept(before, after, data[m]);
    }
  }

  /** The script's loop over any seed data whose category names are distinct. */
  method SeedAll(db: Store, data: seq<SeedCategory>)
    requires db.Valid()
    requires forall i, j :: 0 <= i < j < |data| ==> data[i].name != data[j].name
    modifies db
    ensures db.Valid()
    ensures Seeded(db.State(), data)
    ensures SeedStep(old(db.State()), db.State(), data)
    ensures old(Seeded(db.State(), data)) ==> db.State() == old(db.State())
  {
    ghost var t0 := db.State();
    for i := 0 to |data|
      invariant Seeding(t0, db.State(), data, i)
    {
      ghost var before := db.State();
      SeedOne(db, data, i);
      SeedingStep(t0, before, db.State(), data, i);
    }
  }

  /** Whether the seed data is in the store does not depend on the clock: the
      year and the instant only set the bounds of two definitions, while
      `Seeded` reads the category names, descriptions and keys. */
  lemma SeededClockFree(t: Tables, cy1: int, n1: string, cy2: int, n2: string)
    requires Seeded(t, SeedData(cy1, n1))
    ensures Seeded(t, SeedData(cy2, n2))
  {
    var d1, d2 := SeedData(cy1, n1), SeedData(cy2, n2);
    forall i | 0 <= i < |d2|
      ensures CategorySeeded(t, d2[i])
    {
      assert CategorySeeded(t, d1[i]);
      var c1, c2 := d1[i], d2[i];
      var k :| k in t.categories && t.categories[k] == Category(k, c1.name, Some(c1.description)) &&
        forall j :: 0 <= j < |c1.attributes| ==> DefinitionExists(t.definitions, k, c1.attributes[j].key);
      assert forall j :: 0 <= j < |c2.attributes| ==> c2.attributes[j].key == c1.attributes[j].key;
    }
  }

  /** The script: every seeded category ends up present with its seeded
      description and all its keys defined, nothing outside categories and
      definitions changes, and a run over a store that any earlier run
      seeded, whatever its clock, changes nothing. */
  method Run(db: Store, currentYear: int, now: string)
    requires db.Valid()
    modifies db
    ensures db.Valid()
    ensures Seeded(db.State(), SeedData(currentYear, now))
    ensures SeedStep(old(db.State()), db.State(), SeedData(currentYear, now))
    ensures old(exists cy0, n0 :: Seeded(db.State(), SeedData(cy0, n0))) ==> db.State() == old(db.State())
  {
    ghost var t0 := db.State();
    if exists cy0, n0 :: Seeded(t0, SeedData(cy0, n0)) {
      var cy0, n0 :| Seeded(t0, SeedData(cy0, n0));
      SeededClockFree(t0, cy0, n0, currentYear, now);
    }
    SeedNamesDistinct(currentYear, now);
    SeedAll(db, SeedData(currentYear, now));
  }

  /** Running the script twice, the second time with a later clock: the
      second run changes nothing, so the definitions keep the bounds the
      first run stored (its year and its instant), and every definition
      added over both runs is built from the first run's data. */
  method RerunLater(db: Store, cy1: int, n1: string, cy2: int, n2: string)
    requires db.Valid()
    modifies db
    ensures db.Valid()
    ensures Seeded(db.State(), SeedData(cy1, n1))
    ensures SeedStep(old(db.State()), db.State(), SeedData(cy1, n1))
  {
    Run(db, cy1, n1);
    ghost var t1 := db.State();
    Run(db, cy2, n2);
    assert db.State() == t1;
  }
}
