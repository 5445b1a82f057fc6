/** Value-level model of the to-do gRPC handler: the entity, the requests and
    responses, the table the handler works on, and one function per operation
    that gives its reply and the table it leaves behind. The class in
    ToDoService.dfy is proved to behave exactly as these functions say. */
module ToDoSpec {

  datatype Option<T> = None | Some(value: T)

  /** The wire enum of completion states, carried as its integer code. */
  type ToDoStatus = int

  /** The status a freshly constructed item has: Create never sets it, so it
      is whatever the entity type's default is, and the model leaves it open. */
  const DefaultStatus: ToDoStatus

  datatype ToDoItem = ToDoItem(id: int, title: string, description: string, toDoStatus: ToDoStatus)

  /** The table of to-do items, keyed by primary key. */
  type Store = map<int, ToDoItem>

  datatype CreateToDoRequest = CreateToDoRequest(title: string, description: string)
  datatype UpdateToDoRequest = UpdateToDoRequest(id: int, title: string, description: string, toDoStatus: ToDoStatus)
  datatype ReadToDoResponse = ReadToDoResponse(id: int, title: string, description: string, toDoStatus: ToDoStatus)

  /** What an RPC hands back: a response, or one of the two status codes the
      handler raises. The message text is not modelled. */
  datatype Reply<T> = Ok(value: T) | InvalidArgument | NotFound

  /** The reply of a state-changing operation together with the table after it. */
  datatype Outcome<T> = Outcome(reply: Reply<T>, store: Store)

  /** Every row is stored under its own id. */
  ghost predicate WellKeyed(store: Store)
  {
    forall k :: k in store ==> store[k].id == k
  }

  /** Every stored item has a non-empty title and description. */
  ghost predicate FieldsPresent(store: Store)
  {
    forall k :: k in store ==> store[k].title != "" && store[k].description != ""
  }

  function Snapshot(item: ToDoItem): ReadToDoResponse
  {
    ReadToDoResponse(item.id, item.title, item.description, item.toDoStatus)
  }

  /** The query "first row whose Id equals id, or nothing". */
  function Lookup(store: Store, id: int): (r: Option<ToDoItem>)
    requires WellKeyed(store)
    ensures r.Some? ==> id in store && store[id] == r.value && r.value.id == id
    ensures r.None? ==> forall k :: k in store ==> store[k].id != id
  {
    if id in store then Some(store[id]) else None
  }

  /** The guard of Create: the request is present and both texts are non-empty. */
  predicate CreateRequestValid(request: Option<CreateToDoRequest>)
  {
    request.Some? && request.value.title != "" && request.value.description != ""
  }

  /** The guard of Update: a positive id and both texts non-empty. */
  predicate UpdateRequestValid(request: UpdateToDoRequest)
  {
    request.id > 0 && request.title != "" && request.description != ""
  }

  /** Create, where `key` is the id the store assigns to the new row. */
  function Create(store: Store, key: int, request: Option<CreateToDoRequest>): (o: Outcome<int>)
    requires WellKeyed(store) && key !in store
    ensures WellKeyed(o.store)
    ensures FieldsPresent(store) ==> FieldsPresent(o.store)
    ensures !CreateRequestValid(request) ==> o == Outcome(InvalidArgument, store)
    ensures CreateRequestValid(request) ==>
      && o.reply == Ok(key)
      && o.store.Keys == store.Keys + {key}
      && |o.store| == |store| + 1
      && o.store[key].title == request.value.title
      && o.store[key].description == request.value.description
      && o.store[key].toDoStatus == DefaultStatus
      && (forall k :: k in store ==> o.store[k] == store[k])
  {
    if !CreateRequestValid(request) then
      Outcome(InvalidArgument, store)
    else
      var item := ToDoItem(key, request.value.title, request.value.description, DefaultStatus);
      Outcome(Ok(item.id), store[key := item])
  }

  function Read(store: Store, id: int): (r: Reply<ReadToDoResponse>)
    requires WellKeyed(store)
    ensures r == InvalidArgument <==> id <= 0
    ensures r == NotFound <==> id > 0 && id !in store
    ensures r.Ok? <==> id > 0 && id in store
    ensures r.Ok? ==>
      && r.value.id == id
      && r.value.title == store[id].title
      && r.value.description == store[id].description
      && r.value.toDoStatus == store[id].toDoStatus
  {
    if id <= 0 then InvalidArgument
    else
      match Lookup(store, id)
      case Some(item) => Ok(Snapshot(item))
      case None => NotFound
  }

  function Update(store: Store, request: UpdateToDoRequest): (o: Outcome<int>)
    requires WellKeyed(store)
    ensures WellKeyed(o.store)
    ensures FieldsPresent(store) ==> FieldsPresent(o.store)
    ensures !UpdateRequestValid(request) ==> o == Outcome(InvalidArgument, store)
    ensures UpdateRequestValid(request) && request.id !in store ==> o == Outcome(NotFound, store)
    ensures UpdateRequestValid(request) && request.id in store ==>
      && o.reply == Ok(request.id)
      && o.store.Keys == store.Keys
      && o.store[request.id].id == request.id
      && o.store[request.id].title == request.title
      && o.store[request.id].description == request.description
      && o.store[request.id].toDoStatus == request.toDoStatus
      && (forall k :: k in store && k != request.id ==> o.store[k] == store[k])
  {
    if !UpdateRequestValid(request) then
      Outcome(InvalidArgument, store)
    else
      match Lookup(store, request.id)
      case None => Outcome(NotFound, store)
      case Some(item) =>
        var changed := item.(title := request.title, description := request.description,
                             toDoStatus := request.toDoStatus);
        Outcome(Ok(changed.id), store[item.id := changed])
  }

  function Delete(store: Store, id: int): (o: Outcome<int>)
    requires WellKeyed(store)
    ensures WellKeyed(o.store)
    ensures FieldsPresent(store) ==> FieldsPresent(o.store)
    ensures id <= 0 ==> o == Outcome(InvalidArgument, store)
    ensures id > 0 && id !in store ==> o == Outcome(NotFound, store)
    ensures id > 0 && id in store ==>
      && o.reply == Ok(id)
      && o.store.Keys == store.Keys - {id}
      && |o.store| == |store| - 1
      && (forall k :: k in o.store ==> o.store[k] == store[k])
  {
    if id <= 0 then Outcome(InvalidArgument, store)
    else
      match Lookup(store, id)
      case None => Outcome(NotFound, store)
      case Some(item) => Outcome(Ok(item.id), store - {item.id})
  }

  /** The ids that occur in a list of responses. */
  function IdsOf(rs: seq<ReadToDoResponse>): set<int>
  {
    set i | 0 <= i < |rs| :: rs[i].id
  }

  lemma IdsOfAppend(rs: seq<ReadToDoResponse>, x: ReadToDoResponse)
    ensures IdsOf(rs + [x]) == IdsOf(rs) + {x.id}
  {
    var rs' := rs + [x];
    assert rs'[|rs|] == x;
    assert forall i :: 0 <= i < |rs| ==> rs'[i] == rs[i];
  }

  /** `rs` lists exactly the rows of the table outside `remaining`, each once. */
  ghost predicate PartialListing(store: Store, rs: seq<ReadToDoResponse>, remaining: set<int>)
  {
    && remaining == store.Keys - IdsOf(rs)
    && |rs| + |remaining| == |store.Keys|
    && (forall i, j :: 0 <= i < j < |rs| ==> rs[i].id != rs[j].id)
    && (forall i :: 0 <= i < |rs| ==> rs[i].id in store && rs[i] == Snapshot(store[rs[i].id]))
  }

  /** Moving one more row from `remaining` into the listing keeps it partial. */
  lemma PartialListingStep(store: Store, rs: seq<ReadToDoResponse>, remaining: set<int>, id: int)
    requires WellKeyed(store) && PartialListing(store, rs, remaining) && id in remaining
    ensures PartialListing(store, rs + [Snapshot(store[id])], remaining - {id})
  {
    var rs' := rs + [Snapshot(store[id])];
    IdsOfAppend(rs, Snapshot(store[id]));
    forall i, j | 0 <= i < j < |rs'| ensures rs'[i].id != rs'[j].id {
      if j == |rs| {
        assert rs[i].id in IdsOf(rs);
      }
    }
    forall i | 0 <= i < |rs'| ensures rs'[i].id in store && rs'[i] == Snapshot(store[rs'[i].id]) {
      if i < |rs| {
        assert rs'[i] == rs[i];
      }
    }
    assert remaining - {id} == store.Keys - IdsOf(rs');
    assert |remaining - {id}| == |remaining| - 1;
  }

  lemma PartialListingStart(store: Store)
    ensures PartialListing(store, [], store.Keys)
  {
  }

  /** A partial listing with nothing remaining is a listing of the table. */
  lemma PartialListingDone(store: Store, rs: seq<ReadToDoResponse>)
    requires PartialListing(store, rs, {})
    ensures IsListing(store, rs)
  {
  }

  /** `rs` is a listing of the table: one snapshot per row, each row once. */
  ghost predicate IsListing(store: Store, rs: seq<ReadToDoResponse>)
  {
    && |rs| == |store|
    && IdsOf(rs) == store.Keys
    && (forall i, j :: 0 <= i < j < |rs| ==> rs[i].id != rs[j].id)
    && (forall i :: 0 <= i < |rs| ==> rs[i].id in store && rs[i] == Snapshot(store[rs[i].id]))
  }
}
