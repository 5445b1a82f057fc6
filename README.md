# ToDoGrpc request handler, modelled in Dafny

`ToDoService` is a gRPC service with one entity, the to-do item. An item has an
id, a title, a description and a completion status. The service offers five
RPCs over a database table of items: CreateToDo, ReadToDo, ListToDo, UpdateToDo
and DeleteToDo. Each RPC first checks its request and fails with the status
`InvalidArgument` if the check fails. Read, Update and Delete then look the id up
and fail with `NotFound` if it is absent. Otherwise the RPC inserts, reads,
overwrites or removes the row and replies with the id or a snapshot of the row.

The model has three modules.

- `ToDoSpec` (ToDoSpec.dfy) holds the value-level model. The table is a
  `map<int, ToDoItem>` keyed by primary key (`WellKeyed`). The RPC replies are
  `Reply<T> = Ok(value) | InvalidArgument | NotFound`. The module has one function
  per operation. Each function gives the reply and the table the operation
  leaves behind, and its contract states the success cases, the error cases
  and what stays unchanged. The module also defines `IsListing`, the property
  that a List response is exactly the table, one snapshot per row.
- `Services` (ToDoService.dfy) holds the handler as a class, `ToDoService`. It
  owns the table as a `map` field, plus a key counter that stands in for the
  database's key generator. Each RPC is a method that follows the source's
  code path. CreateToDo, UpdateToDo and DeleteToDo reassign the table. ListToDo
  fills the response with a loop, whose invariant is proved step by step. Each
  method is proved to agree with the matching `ToDoSpec` function.
- `ToDoLaws` (ToDoLaws.dfy) holds the lemmas that relate operations:
  - Read after Create, Update or Delete;
  - Update is idempotent;
  - deleting twice;
  - List is determined by the table up to order.

The model also proves that every stored item keeps a non-empty title and
description (`FieldsPresent`): Create, Update and Delete all preserve it, and
the class invariant includes it.

A created item's id comes from the database. The code returns whatever key the
database assigned (Services/ToDoService.cs:34) and promises nothing more about
it; in particular it does not promise the id is positive. So `Create` takes
the new key as a parameter and requires only that it is not in the table yet.
`CreateThenRead` adds the assumption `key > 0`, because Read rejects any other
id.

## Model

| member | source | states |
|---|---|---|
| `ToDoSpec.Lookup` | Services/ToDoService.cs:43 | the query "first row whose Id equals id": it yields a row with that id, or nothing only when no row has that id |
| `ToDoSpec.Create` | Services/ToDoService.cs:19-36 | a missing request, empty title or empty description gives InvalidArgument with the table unchanged; otherwise the reply is Ok(new key), exactly that key is added (size grows by one), the new row has the request's title and description and the default status, every old row is unchanged, and non-empty fields are preserved |
| `ToDoSpec.Read` | Services/ToDoService.cs:38-57 | InvalidArgument exactly when id <= 0, NotFound exactly when id > 0 is absent, Ok exactly when it is present, and then the reply carries that row's id, title, description and status |
| `ToDoSpec.Update` | Services/ToDoService.cs:76-96 | id <= 0 or an empty text gives InvalidArgument, and an absent id gives NotFound, both with the table unchanged; otherwise the reply is Ok(id), the keys are the same, that row gets the request's title, description and status and keeps its id, all other rows are unchanged, and non-empty fields are preserved |
| `ToDoSpec.Delete` | Services/ToDoService.cs:98-116 | id <= 0 gives InvalidArgument, and an absent id gives NotFound, both with the table unchanged; otherwise the reply is Ok(id), exactly that key is removed (size shrinks by one) and the remaining rows are unchanged |
| `ToDoSpec.PartialListingStep` | Services/ToDoService.cs:63-72 | adding one more row's snapshot to the response keeps it a listing of exactly the rows handled so far, each once |
| `ToDoSpec.PartialListingStart` | Services/ToDoService.cs:62 | the empty response lists no row, so every row is still to do |
| `ToDoSpec.PartialListingDone` | Services/ToDoService.cs:72-73 | once no row is left, the response is a listing of the whole table |
| `Services.ToDoService.constructor` | Services/ToDoService.cs:14-18 | the handler starts on an empty table with its invariant established |
| `Services.ToDoService.CreateToDo` | Services/ToDoService.cs:19-36 | a rejected request returns InvalidArgument and leaves the table alone; an accepted one returns a key not in the old table, and the reply and new table are those of `Create` for that key; keeps the invariant (keyed rows, non-empty texts, keys below the counter) |
| `Services.ToDoService.ReadToDo` | Services/ToDoService.cs:38-57 | changes nothing and returns exactly `Read` of the current table |
| `Services.ToDoService.ListToDo` | Services/ToDoService.cs:59-74 | changes nothing; the response has one entry per row, with no id twice, each entry the snapshot of its row |
| `Services.ToDoService.UpdateToDo` | Services/ToDoService.cs:76-96 | the reply and new table are exactly those of `Update` on the old table; the key counter is untouched and the invariant kept |
| `Services.ToDoService.DeleteToDo` | Services/ToDoService.cs:98-116 | the reply and new table are exactly those of `Delete` on the old table; the key counter is untouched and the invariant kept |
| `ToDoLaws.CreateThenRead` | Services/ToDoService.cs:25-53 | a Read of the id a successful Create returned gives the created title and description and the default status |
| `ToDoLaws.RejectedCreateInvisible` | Services/ToDoService.cs:21-24 | after a rejected Create every Read answers as before |
| `ToDoLaws.UpdateIdempotent` | Services/ToDoService.cs:81-92 | applying the same Update twice gives the same reply and table as applying it once |
| `ToDoLaws.UpdateThenRead` | Services/ToDoService.cs:81-92 | after a successful Update a Read of that id gives the request's title, description and status |
| `ToDoLaws.DeleteThenRead` | Services/ToDoService.cs:100-115 | after any Delete of id, a Read of id fails: InvalidArgument if id <= 0, NotFound otherwise |
| `ToDoLaws.DeleteTwice` | Services/ToDoService.cs:103-115 | a second Delete of the same positive id gives NotFound and changes nothing |
| `ToDoLaws.ListingOfEmpty` | Services/ToDoService.cs:61-73 | the empty table lists as the empty sequence |
| `ToDoLaws.ListingElements` | Services/ToDoService.cs:63-72 | a value is in a listing exactly when it is the snapshot of a row |
| `ToDoLaws.ListingsArePermutations` | Services/ToDoService.cs:61-72 | any two listings of the same table are permutations of each other (equal multisets), so List is fixed up to order |

## Left out

- The gRPC layer is not modelled: `ServerCallContext`, `RpcException`, `Status` and the generated request and response classes. Errors are the two `Reply` variants, without their message text.
- `async`/`await`, `Task.FromResult` and the logger field are left out. They have no effect on replies or on the table.
- The unused `_toDoItems` list field is left out.
- The database context's internals are not modelled: change tracking, `AddAsync`, `SaveChangesAsync`, `FirstOrDefaultAsync`, `ToListAsync` and `Remove`. They become direct operations on the `map`: insert, overwrite, remove, and a query for the row with a given id.
- Database and connection failures are not modelled. The handler does not catch them, so the model has no behaviour for them.
- Concurrent requests, and races between two Updates or Deletes of the same row, are not modelled. The model is sequential.
- A null request is modelled only for Create, the one RPC that checks for it. Read, Update and Delete take their request as present.
- `ToDoSpec.Create`: it does not say that the new id is positive or what its value is. The database chooses the id, and that code is not part of this model. The class uses a counter, so keys are never reused, but no contract mentions the counter's values.
- `DefaultStatus` has no value in the model. The entity type that would fix it is not part of this model.
- A status code is any integer. The range of the wire enum is not modelled.
- `Services.ToDoService.UpdateToDo`: the source assigns the three fields of the tracked entity in place and relies on change tracking. The model changes a copy of the row and writes it back into the table. The effect on the table is the same, but the aliasing of the entity object is not modelled.
- `Services.ToDoService.ListToDo`: it does not fix an order. It picks rows in an arbitrary order, where the source copies them in whatever order `ToListAsync` returns. The model also does not build that intermediate list first.
