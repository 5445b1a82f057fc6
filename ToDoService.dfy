/** The request handler itself: an object that owns the to-do table and
    serves the five RPCs against it. Each method follows the handler's code
    path (guard, lookup, change, reply) and is proved to give the reply and
    leave the table that the matching function of ToDoSpec describes. */
module Services {
  import opened ToDoSpec

  class ToDoService {
    /** The table behind the database context. */
    var items: Store
    /** The next primary key the table will hand out; keys are never reused. */
    var nextId: int

    ghost predicate Valid()
      reads this
    {
      && WellKeyed(items)
      && FieldsPresent(items)
      && (forall k :: k in items ==> k < nextId)
    }

    constructor ()
      ensures Valid() && items == map[]
    {
      items := map[];
      nextId := 1;
    }

    /** The store picks the key of the new row: here the next value of a
        counter, so any key not yet in the table. */
    method CreateToDo(request: Option<CreateToDoRequest>) returns (r: Reply<int>)
      requires Valid()
      modifies this
      ensures Valid()
      ensures !CreateRequestValid(request) ==> r == InvalidArgument && items == old(items)
      ensures CreateRequestValid(request) ==>
        r.Ok? && r.value !in old(items) && Outcome(r, items) == Create(old(items), r.value, request)
    {
      if request.None? || request.value.title == "" || request.value.description == "" {
        return InvalidArgument;
      }
      var toDoItem := ToDoItem(0, request.value.title, request.value.description, DefaultStatus);
      // inserting and saving: the store assigns the id
      toDoItem := toDoItem.(id := nextId);
      items := items[toDoItem.id := toDoItem];
      nextId := nextId + 1;
      r := Ok(toDoItem.id);
    }

    method ReadToDo(id: int) returns (r: Reply<ReadToDoResponse>)
      requires Valid()
      ensures r == Read(items, id)
    {
      if id <= 0 {
        return InvalidArgument;
      }
      var toDoItem := Lookup(items, id);
      if toDoItem.Some? {
        return Ok(ReadToDoResponse(toDoItem.value.id, toDoItem.value.title,
                                   toDoItem.value.description, toDoItem.value.toDoStatus));
      }
      r := NotFound;
    }

    /** Copies every row into the response, in whatever order the store
        yields them. */
    method ListToDo() returns (toDo: seq<ReadToDoResponse>)
      requires Valid()
      ensures IsListing(items, toDo)
    {
      var rows := items;
      var remaining := rows.Keys;
      toDo := [];
      PartialListingStart(rows);
      while exists k :: k in remaining
        invariant PartialListing(rows, toDo, remaining)
        decreases remaining
      {
        var key :| key in remaining;
        var toDoItem := rows[key];
        PartialListingStep(rows, toDo, remaining, key);
        toDo := toDo + [Snapshot(toDoItem)];
        remaining := remaining - {key};
      }
      assert remaining == {};
      PartialListingDone(rows, toDo);
    }

    method UpdateToDo(request: UpdateToDoRequest) returns (r: Reply<int>)
      requires Valid()
      modifies this
      ensures Valid() && nextId == old(nextId)
      ensures Outcome(r, items) == Update(old(items), request)
    {
      if request.id <= 0 || request.title == "" || request.description == "" {
        return InvalidArgument;
      }
      var found := Lookup(items, request.id);
      if found.Some? {
        var toDoItem := found.value;
        toDoItem := toDoItem.(title := request.title);
        toDoItem := toDoItem.(description := request.description);
        toDoItem := toDoItem.(toDoStatus := request.toDoStatus);
        // saving the tracked entity writes it back to its row
        items := items[toDoItem.id := toDoItem];
        return Ok(toDoItem.id);
      }
      r := NotFound;
    }

    method DeleteToDo(id: int) returns (r: Reply<int>)
      requires Valid()
      modifies this
      ensures Valid() && nextId == old(nextId)
      ensures Outcome(r, items) == Delete(old(items), id)
    {
      if id <= 0 {
        return InvalidArgument;
      }
      var found := Lookup(items, id);
      if found.Some? {
        items := items - {found.value.id};
        return Ok(found.value.id);
      }
      r := NotFound;
    }
  }
}
