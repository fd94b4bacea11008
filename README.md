# Restaurants resource: a Dafny model of the route handlers

The repository serves one table of restaurants over HTTP through five Express
route handlers in `src/app.js`: list all restaurants, get one by id, create
one (after checking that `name`, `location` and `cuisine` are present), update
one without any checks, and delete one. The handlers call five persistence
primitives of the Sequelize model `Restaurant` (`findAll`, `findByPk`,
`create`, `update`, and an instance's `destroy`).

This project models that layer:

- `model.dfy` (module `RestaurantModel`): the row (`id` plus the three string
  columns declared in `models/Restaurant.js`), the request body (each column
  key absent or a string, plus a client-supplied `id`) and JavaScript
  falsiness on an optional string (absent or empty).
- `storage.dfy` (module `Storage`): the persistence primitives. Their real
  code belongs to the ORM and the database; here they are given explicit,
  minimal contracts over an abstract table `map<nat, Restaurant>`, and these
  contracts are modelling assumptions: `findAll` lists every row once in
  ascending key order (`Listing`), `findByPk` finds the row under a key
  (`Find`), `create` stores a row under the next value of an
  auto-increment counter, a key not in use (`Table.Create`),
  `update` overwrites only the supplied columns of the matching row
  (`Patched`, `Table.Update`), and `destroy` removes the row
  (`Table.Destroy`). The class `Table` holds the map and the key counter
  `nextId`; keys only grow, so a key is never reused.
- `app.dfy` (module `App`): the five handlers. The two GET handlers only read
  and are functions of the table's rows; POST, PUT and DELETE change the
  table and are methods that receive the storage handle (`db: Table`) and
  state the whole new table. Every reply is an `Outcome`: a reply that was
  sent, a reply that was sent after which the handler threw, or a status that
  was set with no reply ever sent. Lemmas relate the handlers to each other
  (a PUT followed by a GET, a DELETE followed by a list, GET by id against the
  list).
- `scenarios.dfy` (module `Scenarios`): concrete request sequences against a
  table seeded with AppleBees/Texas/FastFood under key 1, following the
  repository's endpoint tests.

Where the repository's tests and the handler disagree, the model follows the
handler: the validation tests (`index.test.js:107-147`) expect `error` to be an
array of `{path}` objects, one per missing field, but the handler sends one
plain string naming only the first missing field. `App.MissingFields` is the
"every missing field" reading, and `App.Validate` is proved to report exactly
its first entry (`App.OnlyFirstMissingReported` shows the later ones are
dropped). Likewise, a stored row is not guaranteed to have non-empty columns:
creation checks them, but an update may set a column to `""`
(`App.UpdateMayEmptyAColumn`).

## Model

| member | source | states |
|---|---|---|
| `Storage.Listing` | src/app.js:13-22 | assumed `findAll`: exactly the stored rows, each under its own key, as many as the table holds, in strictly ascending key order |
| `Storage.ListedIsStored` | src/app.js:13-23 | a row that appears in the list is the row stored under its id |
| `Storage.Find` | src/app.js:27 | assumed `findByPk`: a row is found iff the key is in the table, and it is the row stored under that key |
| `Storage.Patch` | src/app.js:63-65 | assumed `update` on one row: supplied columns take the body's value, absent columns and the key are kept |
| `Storage.Patched` | src/app.js:63-65 | assumed `update ... where id`: the same key set, only the matching row patched, every other row unchanged, an unknown id changes nothing |
| `Storage.Table.Create` | src/app.js:50-54 | assumed `create`, modelled on an auto-increment key: the new row has the given columns under the key `nextId`, which is not in use, the table gains exactly that row, and the counter goes up by one |
| `Storage.Table.Update` | src/app.js:63-65 | assumed `update`: the table becomes `Patched(old table, id, body)`; the key counter is unchanged |
| `Storage.Table.Destroy` | src/app.js:76 | assumed instance `destroy`, callable only on a row that was found: the table loses exactly that key |
| `App.MissingMessage` | src/app.js:38-46 | the 400 message is `"Missing restaurant "` followed by the column's JSON key |
| `App.MissingMessageInjective` | src/app.js:38-46 | different columns give different messages |
| `App.MissingFields` | index.test.js:98-148 | reference reading of a rejected body: exactly the falsy columns, in strictly increasing column order (name, location, cuisine), so each once |
| `App.Validate` | src/app.js:37-48 | accepts iff no column is falsy; otherwise the message names the first falsy column in the order name, location, cuisine |
| `App.FirstFalsyWins` | src/app.js:37-48 | the first falsy column in check order decides the message whatever the later columns hold |
| `App.RejectionNamesMissingField` | src/app.js:37-48 | a rejection message names a column that is in fact missing or empty |
| `App.OnlyFirstMissingReported` | src/app.js:37-48 | with two or more columns missing, the message names none of the missing columns after the first |
| `App.AcceptedBodyIsComplete` | src/app.js:37-54 | a body that passes validation yields a row with no empty column |
| `App.GetRestaurants` | src/app.js:12-24 | GET /restaurants: always sent, status 200, a list of exactly the stored rows, as many as the table holds |
| `App.ListReplyDeterminesTable` | src/app.js:12-24 | two list replies are equal iff the tables are equal: repeated lists with no change agree, and every change shows |
| `App.GetRestaurant` | src/app.js:26-33 | GET /restaurants/:id: 200 iff the id is stored, with that row; otherwise 404 with `"restaurant not found"` |
| `App.GetAgreesWithList` | src/app.js:12-33 | GET by id answers 200 iff the list holds a row with that id, and then with that very row |
| `App.PostRestaurant` | src/app.js:36-57 | POST /restaurants: a rejected body gets 400 with the validation message and leaves the table and counter unchanged; an accepted one adds exactly one row with the body's three columns under a fresh key (any body `id` ignored) and gets 201 with the whole new list |
| `App.CreateGrowsList` | src/app.js:50-56 | after an accepted POST the list is one longer, holds the new row, and still holds every earlier row |
| `App.PutRestaurant` | src/app.js:62-67 | PUT /restaurants/:id: no validation, the table becomes the patched table (unknown id: unchanged), always 200 with the opaque update result |
| `App.UpdateThenGet` | src/app.js:62-67 | GET after PUT on a stored id shows the patched row; on an unknown id GET still answers as before |
| `App.PatchIdempotent` | src/app.js:63-65 | applying the same PUT body twice equals applying it once; a body supplying no column leaves the row unchanged |
| `App.UpdateMayEmptyAColumn` | src/app.js:62-67 | an update may empty a column of a complete row, since it is not validated |
| `App.DeleteRestaurant` | src/app.js:71-78 | DELETE as written: unknown id sends 404 `"Restaurant not found"` then faults, table unchanged; stored id removes exactly that row and only sets 204, sending nothing |
| `App.DeleteRestaurantCorrected` | src/app.js:71-78 | DELETE as intended: unknown id sends 404 with the table unchanged; stored id removes exactly that row and sends 204 with no body |
| `App.DeleteThenGet` | src/app.js:71-76 | after deleting a stored id, GET by it is 404 and the list is one shorter, lacks that row and keeps every other row |
| `Scenarios.ListSeeded` | index.test.js:22-47 | the seeded table lists with 200 exactly the AppleBees row under key 1 |
| `Scenarios.GetSeeded` | index.test.js:48-58 | GET /restaurants/1 on the seeded table answers 200 with the AppleBees row |
| `Scenarios.PostValid` | index.test.js:59-66 | a valid POST answers 201 with two rows, the new one under key 2 |
| `Scenarios.PostIgnoresBodyId` | src/app.js:50-54 | a POST body carrying `id: 1` creates its row under key 2 and leaves row 1 as it was |
| `Scenarios.PostMissingColumns` | index.test.js:98-148 | a POST lacking name, location or cuisine answers 400 with the plain message for that column |
| `Scenarios.PutThenGet` | index.test.js:68-76 | PUT /restaurants/1 with location LA, then GET /restaurants/1, shows location LA |
| `Scenarios.DeleteUnknown` | src/app.js:71-77 | DELETE /restaurants/7 on the seeded table sends 404 then faults; the list still holds the seed row |
| `Scenarios.DeleteSeeded` | src/app.js:71-77 | DELETE /restaurants/1 removes the row (the list is empty) but leaves only status 204 set, with no reply |
| `Scenarios.DeleteCorrected` | src/app.js:71-78 | the corrected handler answers the same two deletes with a sent 404 and a sent 204 |

## Left out

- Express wiring, JSON and urlencoded body parsing and the module export (`src/app.js:1-10`, `src/app.js:80`): framework set-up with no logic of this layer.
- The ORM and the database: SQL and connection handling are not part of this model. The `Storage` contracts stand in for them. Two of them are assumptions: `findAll` lists rows in ascending key order, and `create` hands out keys from a counter that starts at 1 and goes up by one per row, like an auto-increment primary key.
- Storage.Table.Update: the value `update` resolves to is kept opaque; the model fills in an affected-row count, but no handler contract depends on it.
- Storage.Table.Update: a body `id` on PUT is ignored; whether the ORM would rewrite the primary key is not modelled.
- Columns the ORM adds on its own (`createdAt`, `updatedAt`) are not modelled.
- Request bodies whose column values are not strings (numbers, booleans, `null`, objects), and keys other than the three columns and `id`, are not represented; falsiness is modelled only for an absent key and the empty string.
- Conversion of the `:id` route parameter from text to a number: ids are natural numbers throughout.
- async/await, interleaving of concurrent requests and failures of the store (which would surface as unhandled rejections) are not modelled; each handler runs to completion on its own.
- What the runtime does after the delete handler throws, or with a request whose reply is never sent, is not modelled beyond the `SentThenFault` and `StatusOnly` outcomes.
- `models/Menu.js` and the commented-out Menu/Item include in `src/app.js:14-21`: no live handler uses them.
- The test set-up (seeding, truncation, supertest) is replaced by `Scenarios.Seeded`, which creates the one seed row the tests rely on.

## Findings

| source | as written | input that shows it | evidently intended | confidence | as-written member | corrected member |
|---|---|---|---|---|---|---|
| src/app.js:73-76 | after sending 404 for an unknown id the handler does not return and calls `destroy()` on `null`, which throws | DELETE /restaurants/7 on the seeded table (`Scenarios.DeleteUnknown`) | return right after the 404 | high; not executed | `App.DeleteRestaurant` | `App.DeleteRestaurantCorrected` |
| src/app.js:77 | `res.status(204).send` names the send function without calling it, so no reply is ever sent | DELETE /restaurants/1 on the seeded table (`Scenarios.DeleteSeeded`) | `res.status(204).send()` | high; not executed | `App.DeleteRestaurant` | `App.DeleteRestaurantCorrected` |
