/** The persistence primitives the handlers call on the Restaurant model
    (findAll, findByPk, create, update and an instance's destroy). The real
    ones belong to the ORM and the database and are not part of this model;
    what follows are the minimal contracts the handlers are assumed to rely
    on, stated over an abstract table from primary key to row. */
module Storage {
  import opened RestaurantModel

  /** Every row is stored under its own primary key. */
  predicate Keyed(rows: map<nat, Restaurant>)
  {
    forall id :: id in rows ==> rows[id].id == id
  }

  predicate IsLeast(m: nat, keys: set<nat>)
  {
    m in keys && forall k :: k in keys ==> m <= k
  }

  lemma {:induction false} LeastExists(keys: set<nat>)
    requires keys != {}
    ensures exists m :: IsLeast(m, keys)
    decreases keys
  {
    var x :| x in keys;
    if keys != {x} {
      LeastExists(keys - {x});
      var m :| IsLeast(m, keys - {x});
      forall k | k in keys ensures k == x || k in keys - {x} { }
      if x < m {
        assert IsLeast(x, keys);
      } else {
        assert IsLeast(m, keys);
      }
    } else {
      assert IsLeast(x, keys);
    }
  }

  /** The smallest key of a non-empty key set. */
  function MinKey(keys: set<nat>): (m: nat)
    requires keys != {}
    ensures m in keys
    ensures forall k :: k in keys ==> m <= k
  {
    LeastExists(keys);
    var m :| IsLeast(m, keys);
    m
  }

  /** Assumed result of findAll: every stored row exactly once, in ascending
      primary-key order (which is insertion order, as keys are handed out in
      increasing order). */
  function Listing(rows: map<nat, Restaurant>): (s: seq<Restaurant>)
    requires Keyed(rows)
    ensures |s| == |rows|
    ensures forall i :: 0 <= i < |s| ==> s[i].id in rows && rows[s[i].id] == s[i]
    ensures forall k :: k in rows ==> rows[k] in s
    ensures forall i, j :: 0 <= i < j < |s| ==> s[i].id < s[j].id
    decreases |rows|
  {
    if |rows| == 0 then []
    else
      var k := MinKey(rows.Keys);
      var rest := rows - {k};
      var tail := Listing(rest);
      ListingStep(rows, k, tail);
      [rows[k]] + tail
  }

  /** The step of Listing: the least row followed by a listing of the rest
      is a listing of the whole table. */
  lemma ListingStep(rows: map<nat, Restaurant>, k: nat, tail: seq<Restaurant>)
    requires Keyed(rows) && k in rows
    requires forall j :: j in rows ==> k <= j
    requires |tail| == |rows - {k}|
    requires forall i :: 0 <= i < |tail| ==> tail[i].id in rows - {k} && (rows - {k})[tail[i].id] == tail[i]
    requires forall j :: j in rows - {k} ==> (rows - {k})[j] in tail
    requires forall i, j :: 0 <= i < j < |tail| ==> tail[i].id < tail[j].id
    ensures |[rows[k]] + tail| == |rows|
    ensures var s := [rows[k]] + tail;
      forall i :: 0 <= i < |s| ==> s[i].id in rows && rows[s[i].id] == s[i]
    ensures forall j :: j in rows ==> rows[j] in [rows[k]] + tail
    ensures var s := [rows[k]] + tail;
      forall i, j :: 0 <= i < j < |s| ==> s[i].id < s[j].id
  {
    var rest := rows - {k};
    assert rest.Keys == rows.Keys - {k};
    var s := [rows[k]] + tail;
    forall i | 0 < i < |s| ensures s[i] == tail[i - 1] && k < s[i].id { }
    forall j | j in rows ensures rows[j] in s {
      if j != k { assert j in rest; }
    }
  }

  /** A listed row is stored under its own id. */
  lemma ListedIsStored(rows: map<nat, Restaurant>, x: Restaurant)
    requires Keyed(rows) && x in Listing(rows)
    ensures x.id in rows && rows[x.id] == x
  {
  }

  /** Assumed result of findByPk: the row stored under the key, if any. */
  function Find(rows: map<nat, Restaurant>, id: nat): (found: Option<Restaurant>)
    requires Keyed(rows)
    ensures found.Some? <==> id in rows
    ensures found.Some? ==> found.value.id == id && rows[id] == found.value
  {
    if id in rows then Some(rows[id]) else None
  }

  /** A row with the columns the body supplies overwritten and every other
      column, and the key, kept. */
  function Patch(r: Restaurant, b: RequestBody): (p: Restaurant)
    ensures p.id == r.id
    ensures forall f :: Supplied(b, f).Some? ==> Column(p, f) == Supplied(b, f).value
    ensures forall f :: Supplied(b, f).None? ==> Column(p, f) == Column(r, f)
  {
    Restaurant(
      r.id,
      if b.name.Some? then b.name.value else r.name,
      if b.location.Some? then b.location.value else r.location,
      if b.cuisine.Some? then b.cuisine.value else r.cuisine)
  }

  /** Assumed effect of update(body, where id): the matching row, if there is
      one, is patched; no other row changes and no key is added or removed. */
  function Patched(rows: map<nat, Restaurant>, id: nat, b: RequestBody): (after: map<nat, Restaurant>)
    ensures after.Keys == rows.Keys
    ensures forall k :: k in rows && k != id ==> after[k] == rows[k]
    ensures id in rows ==> after[id] == Patch(rows[id], b)
    ensures Keyed(rows) ==> Keyed(after)
  {
    if id in rows then rows[id := Patch(rows[id], b)] else rows
  }

  /** The value update resolves to. Its shape belongs to the ORM; the
      handlers pass it to the client untouched. */
  datatype UpdateReport = UpdateReport(affectedRows: nat)

  /** The restaurants table. Keys are handed out from `nextId`, which only
      grows, so a key is never reused after a deletion. */
  class Table {
    var rows: map<nat, Restaurant>
    var nextId: nat

    ghost predicate Valid()
      reads this
    {
      && Keyed(rows)
      && 0 < nextId
      && forall id :: id in rows ==> id < nextId
    }

    constructor ()
      ensures Valid()
      ensures rows == map[] && nextId == 1
    {
      rows := map[];
      nextId := 1;
    }

    /** Assumed contract of create: a row with the given columns under a key
        not currently in use. Like an auto-increment primary key, that key is
        the counter `nextId`, which then goes up by one. */
    method Create(name: string, location: string, cuisine: string) returns (r: Restaurant)
      requires Valid()
      modifies this
      ensures Valid()
      ensures r.id !in old(rows)
      ensures r.name == name && r.location == location && r.cuisine == cuisine
      ensures rows == old(rows)[r.id := r]
      ensures r.id == old(nextId) && nextId == old(nextId) + 1
    {
      r := Restaurant(nextId, name, location, cuisine);
      rows := rows[nextId := r];
      nextId := nextId + 1;
    }

    /** Assumed contract of update: the matching row is patched, nothing else
        changes, and an unknown key is not an error. */
    method Update(id: nat, b: RequestBody) returns (report: UpdateReport)
      requires Valid()
      modifies this
      ensures Valid()
      ensures rows == Patched(old(rows), id, b)
      ensures nextId == old(nextId)
    {
      report := UpdateReport(if id in rows then 1 else 0);
      rows := Patched(rows, id, b);
    }

    /** Assumed contract of an instance's destroy: the row is removed. It
        can only be called on a row that findByPk returned. */
    method Destroy(r: Restaurant)
      requires Valid()
      requires r.id in rows && rows[r.id] == r
      modifies this
      ensures Valid()
      ensures rows == old(rows) - {r.id}
      ensures nextId == old(nextId)
    {
      rows := rows - {r.id};
    }
  }
}
