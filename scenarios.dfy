/** Request sequences against a freshly seeded table, following the
    repository's endpoint tests. The seed is one row, AppleBees in Texas
    serving FastFood, which receives key 1. */
module Scenarios {
  import opened RestaurantModel
  import opened Storage
  import opened App

  const AppleBees: Restaurant := Restaurant(1, "AppleBees", "Texas", "FastFood")

  function Body(name: string, location: string, cuisine: string): RequestBody
  {
    RequestBody(Some(name), Some(location), Some(cuisine), None)
  }

  method Seeded() returns (db: Table)
    ensures fresh(db) && db.Valid()
    ensures db.rows == map[1 := AppleBees] && db.nextId == 2
  {
    db := new Table();
    var _ := db.Create("AppleBees", "Texas", "FastFood");
  }

  lemma ListingOfOne(r: Restaurant)
    ensures Keyed(map[r.id := r]) && Listing(map[r.id := r]) == [r]
  {
  }

  lemma ListingOfTwo(r: Restaurant, q: Restaurant)
    requires r.id < q.id
    ensures Keyed(map[r.id := r, q.id := q])
    ensures Listing(map[r.id := r, q.id := q]) == [r, q]
  {
  }

  /** GET /restaurants on the seeded table: 200 and exactly the seed row. */
  method ListSeeded() returns (out: Outcome)
    ensures out == Sent(Reply(200, Records([AppleBees])))
  {
    var db := Seeded();
    ListingOfOne(AppleBees);
    out := GetRestaurants(db.rows);
  }

  /** GET /restaurants/1 on the seeded table: the seed row. */
  method GetSeeded() returns (out: Outcome)
    ensures out == Sent(Reply(200, Record(AppleBees)))
  {
    var db := Seeded();
    out := GetRestaurant(db.rows, 1);
  }

  /** A valid POST answers 201 with a collection one longer than the seed. */
  method PostValid() returns (out: Outcome)
    ensures out.Sent? && out.reply.status == 201
    ensures out.reply.content.Records? && |out.reply.content.items| == 2
    ensures Restaurant(2, "BeefyBoys", "Shrewsbury", "BBQ") in out.reply.content.items
  {
    var db := Seeded();
    out := PostRestaurant(db, Body("BeefyBoys", "Shrewsbury", "BBQ"));
  }

  /** A POST body's own `id` is ignored: the row gets the next key and the
      seed row under key 1 is untouched. */
  method PostIgnoresBodyId() returns (out: Outcome)
    ensures out == Sent(Reply(201, Records([AppleBees, Restaurant(2, "Jive", "Norwich", "Mexican")])))
  {
    var db := Seeded();
    out := PostRestaurant(db, RequestBody(Some("Jive"), Some("Norwich"), Some("Mexican"), Some(1)));
    ListingOfTwo(AppleBees, Restaurant(2, "Jive", "Norwich", "Mexican"));
  }

  /** Each POST lacking one column answers 400 with a plain message naming
      that column. */
  method PostMissingColumns() returns (noName: Outcome, noLocation: Outcome, noCuisine: Outcome)
    ensures noName == Sent(Reply(400, Error("Missing restaurant name")))
    ensures noLocation == Sent(Reply(400, Error("Missing restaurant location")))
    ensures noCuisine == Sent(Reply(400, Error("Missing restaurant cuisine")))
  {
    var db := Seeded();
    noName := PostRestaurant(db, RequestBody(None, Some("Norwich"), Some("Mexican"), None));
    noLocation := PostRestaurant(db, RequestBody(Some("Jive"), None, Some("Mexican"), None));
    noCuisine := PostRestaurant(db, RequestBody(Some("Jive"), Some("Norwich"), None, None));
    assert MissingMessage(Name) == "Missing restaurant name";
    assert MissingMessage(Location) == "Missing restaurant location" by {
      assert ColumnName(Location) == "location";
    }
    assert MissingMessage(Cuisine) == "Missing restaurant cuisine";
  }

  /** PUT /restaurants/1 moving the seed to LA, then GET /restaurants/1. */
  method PutThenGet() returns (put: Outcome, get: Outcome)
    ensures put.Sent? && put.reply.status == 200
    ensures get == Sent(Reply(200, Record(Restaurant(1, "AppleBees", "LA", "FastFood"))))
  {
    var db := Seeded();
    put := PutRestaurant(db, 1, Body("AppleBees", "LA", "FastFood"));
    get := GetRestaurant(db.rows, 1);
  }

  /** DELETE of an unknown id: the 404 goes out, then the handler faults,
      and the seed row is still there. */
  method DeleteUnknown() returns (out: Outcome, after: Outcome)
    ensures out == SentThenFault(Reply(404, Error("Restaurant not found")))
    ensures after == Sent(Reply(200, Records([AppleBees])))
  {
    var db := Seeded();
    out := DeleteRestaurant(db, 7);
    ListingOfOne(AppleBees);
    after := GetRestaurants(db.rows);
  }

  /** DELETE /restaurants/1: the row is gone, but no reply is ever sent. */
  method DeleteSeeded() returns (out: Outcome, after: Outcome)
    ensures out == StatusOnly(204)
    ensures after == Sent(Reply(200, Records([])))
  {
    var db := Seeded();
    out := DeleteRestaurant(db, 1);
    after := GetRestaurants(db.rows);
  }

  /** The same two DELETE requests against the corrected handler. */
  method DeleteCorrected() returns (unknown: Outcome, known: Outcome)
    ensures unknown == Sent(Reply(404, Error("Restaurant not found")))
    ensures known == Sent(Reply(204, NoContent))
  {
    var db := Seeded();
    unknown := DeleteRestaurantCorrected(db, 7);
    known := DeleteRestaurantCorrected(db, 1);
  }
}
