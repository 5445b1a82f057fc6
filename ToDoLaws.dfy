/** Properties that relate several operations of the to-do handler: what a
    Read sees after a Create, an Update or a Delete, that Update is
    idempotent, and that List is determined by the table up to order. */
module ToDoLaws {
  import opened ToDoSpec

  /** A Read of the id a successful Create returned sees the request's title
      and description and the default status. The store's key must be
      positive for Read to accept it. */
  lemma CreateThenRead(store: Store, key: int, request: Option<CreateToDoRequest>)
    requires WellKeyed(store) && key !in store && key > 0 && CreateRequestValid(request)
    ensures Create(store, key, request).reply == Ok(key)
    ensures Read(Create(store, key, request).store, key)
         == Ok(ReadToDoResponse(key, request.value.title, request.value.description, DefaultStatus))
  {
  }

  /** A rejected Create is invisible to every later Read. */
  lemma RejectedCreateInvisible(store: Store, key: int, request: Option<CreateToDoRequest>, id: int)
    requires WellKeyed(store) && key !in store && !CreateRequestValid(request)
    ensures Read(Create(store, key, request).store, id) == Read(store, id)
  {
  }

  /** Running the same Update twice leaves the table and the reply as one run does. */
  lemma UpdateIdempotent(store: Store, request: UpdateToDoRequest)
    requires WellKeyed(store)
    ensures Update(Update(store, request).store, request) == Update(store, request)
  {
  }

  /** After a successful Update, a Read of the same id sees the request's fields. */
  lemma UpdateThenRead(store: Store, request: UpdateToDoRequest)
    requires WellKeyed(store) && UpdateRequestValid(request) && request.id in store
    ensures Read(Update(store, request).store, request.id)
         == Ok(ReadToDoResponse(request.id, request.title, request.description, request.toDoStatus))
  {
  }

  /** After a Delete, whatever its outcome, a Read of the same id finds nothing. */
  lemma DeleteThenRead(store: Store, id: int)
    requires WellKeyed(store)
    ensures Read(Delete(store, id).store, id) == if id <= 0 then InvalidArgument else NotFound
  {
  }

  /** Deleting twice: the second attempt reports NotFound and changes nothing. */
  lemma DeleteTwice(store: Store, id: int)
    requires WellKeyed(store) && id > 0
    ensures Delete(Delete(store, id).store, id) == Outcome(NotFound, Delete(store, id).store)
  {
  }

  /** The empty table lists as the empty sequence. */
  lemma ListingOfEmpty(rs: seq<ReadToDoResponse>)
    requires IsListing(map[], rs)
    ensures rs == []
  {
  }

  /** A sequence with no repeated element holds each of its elements once. */
  lemma {:induction false} DistinctMultiset(a: seq<ReadToDoResponse>, x: ReadToDoResponse)
    requires forall i, j :: 0 <= i < j < |a| ==> a[i] != a[j]
    ensures multiset(a)[x] == if x in a then 1 else 0
  {
    if a != [] {
      var t := a[1..];
      assert a == [a[0]] + t;
      assert forall i, j :: 0 <= i < j < |t| ==> t[i] != t[j] by {
        forall i, j | 0 <= i < j < |t| ensures t[i] != t[j] {
          assert t[i] == a[i + 1] && t[j] == a[j + 1];
        }
      }
      DistinctMultiset(t, x);
      assert a[0] !in t by {
        forall i | 0 <= i < |t| ensures t[i] != a[0] {
          assert t[i] == a[i + 1];
        }
      }
    }
  }

  /** Every element of a listing is the snapshot of a row, and every row's
      snapshot is in the listing. */
  lemma ListingElements(store: Store, rs: seq<ReadToDoResponse>, x: ReadToDoResponse)
    requires IsListing(store, rs)
    ensures x in rs <==> x.id in store && x == Snapshot(store[x.id])
  {
  }

  /** Two listings of the same table differ at most in order: List promises
      no order, and nothing else. */
  lemma ListingsArePermutations(store: Store, rs1: seq<ReadToDoResponse>, rs2: seq<ReadToDoResponse>)
    requires IsListing(store, rs1) && IsListing(store, rs2)
    ensures multiset(rs1) == multiset(rs2)
  {
    forall x ensures multiset(rs1)[x] == multiset(rs2)[x] {
      DistinctMultiset(rs1, x);
      DistinctMultiset(rs2, x);
      ListingElements(store, rs1, x);
      ListingElements(store, rs2, x);
    }
  }
}
