/** The Restaurant entity as the schema declares it, and the request body the
    route handlers receive. */
module RestaurantModel {

  datatype Option<T> = None | Some(value: T)

  /** A stored row: the three string columns of the schema plus the primary
      key the store assigns on creation. */
  datatype Restaurant = Restaurant(id: nat, name: string, location: string, cuisine: string)

  /** The three columns, in the order the schema declares them, which is also
      the order in which the create handler checks them. */
  datatype Field = Name | Location | Cuisine

  const Columns: seq<Field> := [Name, Location, Cuisine]

  /** A column's position in `Columns`. */
  function Rank(f: Field): (i: nat)
    ensures i < |Columns| && Columns[i] == f
  {
    match f
    case Name => 0
    case Location => 1
    case Cuisine => 2
  }

  /** The JSON key of a column. */
  function ColumnName(f: Field): string
  {
    match f
    case Name => "name"
    case Location => "location"
    case Cuisine => "cuisine"
  }

  /** The value a row holds in a column. */
  function Column(r: Restaurant, f: Field): string
  {
    match f
    case Name => r.name
    case Location => r.location
    case Cuisine => r.cuisine
  }

  /** A parsed JSON request body, as far as the handlers look at it: each
      column key is either absent or carries a string, and `id` stands for
      the keys a client may send besides the three columns. */
  datatype RequestBody = RequestBody(
    name: Option<string>,
    location: Option<string>,
    cuisine: Option<string>,
    id: Option<nat>)

  /** What the body carries under a column's key. */
  function Supplied(b: RequestBody, f: Field): Option<string>
  {
    match f
    case Name => b.name
    case Location => b.location
    case Cuisine => b.cuisine
  }

  /** JavaScript truthiness restricted to an optional string: `undefined`
      and the empty string are falsy, every other string is truthy. */
  predicate Falsy(v: Option<string>)
  {
    v.None? || v.value == ""
  }

  /** A row none of whose columns is empty. */
  predicate Complete(r: Restaurant)
  {
    r.name != "" && r.location != "" && r.cuisine != ""
  }
}
