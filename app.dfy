/** The five route handlers of the restaurants resource. The GET handlers
    only read the table and are functions of its rows; POST, PUT and DELETE
    change the table and are methods that receive the storage handle. */
module App {
  import opened RestaurantModel
  import opened Storage

  /** What a handler puts in a JSON reply. */
  datatype Content =
    | Records(items: seq<Restaurant>)   // an array of rows
    | Record(item: Restaurant)          // one row
    | Error(message: string)            // { error: message }
    | Updated(report: UpdateReport)     // whatever update resolved to
    | NoContent                         // no body

  datatype Reply = Reply(status: nat, content: Content)

  /** How a request ends. */
  datatype Outcome =
    | Sent(reply: Reply)             // the reply is sent and the handler returns
    | SentThenFault(reply: Reply)    // the reply is sent, then the handler throws
    | StatusOnly(status: nat)        // a status is set but no reply is ever sent

  const GetNotFound: string := "restaurant not found"
  const DeleteNotFound: string := "Restaurant not found"
  const MissingPrefix: string := "Missing restaurant "

  /** The 400 message for a falsy column. */
  function MissingMessage(f: Field): (msg: string)
    ensures |msg| > |MissingPrefix|
    ensures msg[..|MissingPrefix|] == MissingPrefix
    ensures msg[|MissingPrefix|..] == ColumnName(f)
  {
    MissingPrefix + ColumnName(f)
  }

  lemma MissingMessageInjective(f: Field, g: Field)
    ensures MissingMessage(f) == MissingMessage(g) <==> f == g
  {
  }

  /** Reference definition of a failed create: every falsy column, in column
      order. */
  function MissingFields(b: RequestBody): (missing: seq<Field>)
    ensures forall f :: f in missing <==> Falsy(Supplied(b, f))
    ensures |missing| <= |Columns|
    ensures forall i, j :: 0 <= i < j < |missing| ==> Rank(missing[i]) < Rank(missing[j])
  {
    (if Falsy(b.name) then [Name] else [])
    + (if Falsy(b.location) then [Location] else [])
    + (if Falsy(b.cuisine) then [Cuisine] else [])
  }

  /** The validation chain of the create handler: name, then location, then
      cuisine; the first falsy one decides the message. */
  function Validate(b: RequestBody): (err: Option<string>)
    ensures err.None? <==> MissingFields(b) == []
    ensures err.Some? ==> err.value == MissingMessage(MissingFields(b)[0])
  {
    if Falsy(b.name) then Some(MissingMessage(Name))
    else if Falsy(b.location) then Some(MissingMessage(Location))
    else if Falsy(b.cuisine) then Some(MissingMessage(Cuisine))
    else None
  }

  /** GET /restaurants: always 200 with every stored row. */
  function GetRestaurants(rows: map<nat, Restaurant>): (out: Outcome)
    requires Keyed(rows)
    ensures out.Sent? && out.reply.status == 200 && out.reply.content.Records?
    ensures |out.reply.content.items| == |rows|
    ensures forall k :: k in rows ==> rows[k] in out.reply.content.items
    ensures forall r :: r in out.reply.content.items ==> r.id in rows && rows[r.id] == r
  {
    Sent(Reply(200, Records(Listing(rows))))
  }

  /** GET /restaurants/:id: 200 with the row, or 404 with a fixed message. */
  function GetRestaurant(rows: map<nat, Restaurant>, id: nat): (out: Outcome)
    requires Keyed(rows)
    ensures out.Sent?
    ensures out.reply.status == 200 <==> id in rows
    ensures id in rows ==> out.reply.content == Record(rows[id]) && rows[id].id == id
    ensures id !in rows ==> out.reply == Reply(404, Error(GetNotFound))
  {
    var found := Find(rows, id);
    if found.Some? then Sent(Reply(200, Record(found.value)))
    else Sent(Reply(404, Error(GetNotFound)))
  }

  /** POST /restaurants. A rejected body never reaches the store; an accepted
      one adds exactly one row and the reply is the whole collection. */
  method PostRestaurant(db: Table, b: RequestBody) returns (out: Outcome)
    requires db.Valid()
    modifies db
    ensures db.Valid()
    ensures Validate(b).Some? ==>
      && out == Sent(Reply(400, Error(Validate(b).value)))
      && db.rows == old(db.rows) && db.nextId == old(db.nextId)
    ensures Validate(b).None? ==>
      var r := Restaurant(old(db.nextId), b.name.value, b.location.value, b.cuisine.value);
      && r.id !in old(db.rows)
      && db.rows == old(db.rows)[r.id := r]
      && db.nextId > old(db.nextId)
      && out == Sent(Reply(201, Records(Listing(db.rows))))
  {
    if Falsy(b.name) {
      return Sent(Reply(400, Error(MissingMessage(Name))));
    }
    if Falsy(b.location) {
      return Sent(Reply(400, Error(MissingMessage(Location))));
    }
    if Falsy(b.cuisine) {
      return Sent(Reply(400, Error(MissingMessage(Cuisine))));
    }
    var _ := db.Create(b.name.value, b.location.value, b.cuisine.value);
    var all := Listing(db.rows);
    out := Sent(Reply(201, Records(all)));
  }

  /** PUT /restaurants/:id: no validation; the supplied columns of the
      matching row are overwritten, and an unknown id still gets 200. */
  method PutRestaurant(db: Table, id: nat, b: RequestBody) returns (out: Outcome)
    requires db.Valid()
    modifies db
    ensures db.Valid()
    ensures db.rows == Patched(old(db.rows), id, b) && db.nextId == old(db.nextId)
    ensures out.Sent? && out.reply.status == 200 && out.reply.content.Updated?
  {
    var report := db.Update(id, b);
    out := Sent(Reply(200, Updated(report)));
  }

  /** DELETE /restaurants/:id as the handler is written: after the 404 it
      does not return, so it goes on to call destroy on the missing row and
      throws; on a present row it removes it and sets 204 without sending. */
  method DeleteRestaurant(db: Table, id: nat) returns (out: Outcome)
    requires db.Valid()
    modifies db
    ensures db.Valid() && db.nextId == old(db.nextId)
    ensures id !in old(db.rows) ==>
      && out == SentThenFault(Reply(404, Error(DeleteNotFound)))
      && db.rows == old(db.rows)
    ensures id in old(db.rows) ==>
      && out == StatusOnly(204)
      && db.rows == old(db.rows) - {id}
  {
    var found := Find(db.rows, id);
    if found.None? {
      // the 404 is sent; `restaurant.destroy()` on null then throws
      return SentThenFault(Reply(404, Error(DeleteNotFound)));
    }
    db.Destroy(found.value);
    // `res.status(204).send` names the send function without calling it
    out := StatusOnly(204);
  }

  /** DELETE /restaurants/:id as evidently intended: return after the 404,
      and send the 204. */
  method DeleteRestaurantCorrected(db: Table, id: nat) returns (out: Outcome)
    requires db.Valid()
    modifies db
    ensures db.Valid() && db.nextId == old(db.nextId)
    ensures out.Sent?
    ensures id !in old(db.rows) ==>
      out.reply == Reply(404, Error(DeleteNotFound)) && db.rows == old(db.rows)
    ensures id in old(db.rows) ==>
      out.reply == Reply(204, NoContent) && db.rows == old(db.rows) - {id}
  {
    var found := Find(db.rows, id);
    if found.None? {
      return Sent(Reply(404, Error(DeleteNotFound)));
    }
    db.Destroy(found.value);
    out := Sent(Reply(204, NoContent));
  }

  // ---------------------------------------------------------------------
  // Properties of the handlers, stated over the table's rows.

  /** The first falsy column in check order decides the 400 message, whatever
      the later columns hold. */
  lemma FirstFalsyWins(b: RequestBody, i: nat)
    requires i < |Columns| && Falsy(Supplied(b, Columns[i]))
    requires forall j :: 0 <= j < i ==> !Falsy(Supplied(b, Columns[j]))
    ensures Validate(b) == Some(MissingMessage(Columns[i]))
  {
    if i > 0 { assert !Falsy(Supplied(b, Columns[0])); }
    if i > 1 { assert !Falsy(Supplied(b, Columns[1])); }
  }

  /** The 400 message names a falsy column, so the client can tell which one
      is missing. */
  lemma RejectionNamesMissingField(b: RequestBody)
    requires Validate(b).Some?
    ensures exists f :: Falsy(Supplied(b, f)) && Validate(b).value == MissingMessage(f)
  {
  }

  /** When several columns are missing only the first is reported: the
      message names none of the later ones. */
  lemma OnlyFirstMissingReported(b: RequestBody)
    requires |MissingFields(b)| >= 2
    ensures forall i :: 1 <= i < |MissingFields(b)| ==>
      Validate(b).value != MissingMessage(MissingFields(b)[i])
  {
    var missing := MissingFields(b);
    forall i | 1 <= i < |missing|
      ensures Validate(b).value != MissingMessage(missing[i])
    {
      MissingMessageInjective(missing[0], missing[i]);
    }
  }

  /** An accepted body yields a row with no empty column. */
  lemma AcceptedBodyIsComplete(b: RequestBody, id: nat)
    requires Validate(b).None?
    ensures Complete(Restaurant(id, b.name.value, b.location.value, b.cuisine.value))
  {
  }

  /** An update is not validated, so it may empty a column of a complete
      row. */
  lemma UpdateMayEmptyAColumn()
    ensures var rows := map[1 := Restaurant(1, "AppleBees", "Texas", "FastFood")];
      var b := RequestBody(Some(""), None, None, None);
      Complete(rows[1]) && !Complete(Patched(rows, 1, b)[1])
  {
  }

  /** GET /restaurants shows the table exactly: two tables give the same
      reply iff they are the same table, so two list requests with no change
      in between agree, and any change to the table shows in the reply. */
  lemma ListReplyDeterminesTable(a: map<nat, Restaurant>, b: map<nat, Restaurant>)
    requires Keyed(a) && Keyed(b)
    ensures GetRestaurants(a) == GetRestaurants(b) <==> a == b
  {
    if GetRestaurants(a) == GetRestaurants(b) {
      assert Listing(a) == GetRestaurants(a).reply.content.items;
      IncludedByListing(a, b);
      IncludedByListing(b, a);
      SameEntriesSameMap(a, b);
    }
  }

  lemma SameEntriesSameMap(a: map<nat, Restaurant>, b: map<nat, Restaurant>)
    requires forall k :: k in a ==> k in b && b[k] == a[k]
    requires forall k :: k in b ==> k in a
    ensures a == b
  {
  }

  lemma IncludedByListing(a: map<nat, Restaurant>, b: map<nat, Restaurant>)
    requires Keyed(a) && Keyed(b) && Listing(a) == Listing(b)
    ensures forall k :: k in a ==> k in b && b[k] == a[k]
  {
  }

  /** GET by id agrees with the list: it answers 200 with a row exactly when
      the list holds a row with that id, and it is that row. */
  lemma GetAgreesWithList(rows: map<nat, Restaurant>, id: nat)
    requires Keyed(rows)
    ensures GetRestaurant(rows, id).reply.status == 200 <==> exists r :: r in Listing(rows) && r.id == id
    ensures forall r :: r in Listing(rows) && r.id == id ==> GetRestaurant(rows, id).reply.content == Record(r)
  {
  }

  /** After an accepted POST the list is one longer, holds the new row, and
      still holds every row it held before. */
  lemma CreateGrowsList(rows: map<nat, Restaurant>, r: Restaurant)
    requires Keyed(rows) && r.id !in rows
    ensures Keyed(rows[r.id := r])
    ensures |Listing(rows[r.id := r])| == |Listing(rows)| + 1
    ensures r in Listing(rows[r.id := r])
    ensures forall x :: x in Listing(rows) ==> x in Listing(rows[r.id := r])
  {
    var after := rows[r.id := r];
    assert Keyed(after);
    assert |after| == |rows| + 1 by {
      assert after.Keys == rows.Keys + {r.id};
    }
    assert r in Listing(after) by {
      assert r.id in after && after[r.id] == r;
    }
    forall x | x in Listing(rows) ensures x in Listing(after) {
      ListedIsStored(rows, x);
      assert after[x.id] == x;
    }
  }

  /** After a PUT, GET by the same id shows the patched row; an unknown id
      stays unknown. */
  lemma UpdateThenGet(rows: map<nat, Restaurant>, id: nat, b: RequestBody)
    requires Keyed(rows)
    ensures id in rows ==>
      GetRestaurant(Patched(rows, id, b), id) == Sent(Reply(200, Record(Patch(rows[id], b))))
    ensures id !in rows ==>
      GetRestaurant(Patched(rows, id, b), id) == GetRestaurant(rows, id)
  {
  }

  /** A PUT whose body is applied twice has the effect of applying it once,
      and a body that supplies no column leaves the row as it was. */
  lemma PatchIdempotent(r: Restaurant, b: RequestBody)
    ensures Patch(Patch(r, b), b) == Patch(r, b)
    ensures b.name.None? && b.location.None? && b.cuisine.None? ==> Patch(r, b) == r
  {
  }

  /** After a DELETE of a present id, GET by that id is 404 and the list has
      lost exactly that row. */
  lemma DeleteThenGet(rows: map<nat, Restaurant>, id: nat)
    requires Keyed(rows) && id in rows
    ensures Keyed(rows - {id})
    ensures GetRestaurant(rows - {id}, id).reply == Reply(404, Error(GetNotFound))
    ensures |Listing(rows - {id})| == |Listing(rows)| - 1
    ensures rows[id] !in Listing(rows - {id})
    ensures forall x :: x in Listing(rows) && x.id != id ==> x in Listing(rows - {id})
  {
    var after := rows - {id};
    assert after.Keys == rows.Keys - {id};
    forall x | x in Listing(rows) && x.id != id ensures x in Listing(after) {
      ListedIsStored(rows, x);
      assert x.id in after && after[x.id] == x;
    }
  }
}
