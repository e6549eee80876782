/** Clients of the store that chain handler calls, showing what a caller can
    conclude from the handlers' contracts alone. */
module Scenarios {
  import opened Books
  import opened Store

  /** A book that was created is the one a lookup by its id returns. */
  method CreateThenGet(store: BookStore, p: Payload, freshId: Id, now: Timestamp)
    returns (created: Response<Id>, fetched: Response<Book>)
    requires store.Valid()
    requires Absent(store.books, freshId)
    modifies store
    ensures created.Ok? <==> Validate(p).Ok?
    ensures created.Ok? ==>
      && fetched.Ok?
      && fetched.value.id == freshId
      && Carries(fetched.value, p)
      && fetched.value.insertedAt == now
      && fetched.value.updatedAt == now
    ensures !created.Ok? ==> fetched == NotFound
    ensures store.Valid()
  {
    created := store.Create(p, freshId, now);
    fetched := store.GetById(freshId);
  }

  /** Deleting the same id twice: the second call finds nothing and removes
      nothing. */
  method DeleteTwice(store: BookStore, id: Id) returns (first: Response<()>, second: Response<()>)
    requires store.Valid()
    modifies store
    ensures first.Ok? <==> !Absent(old(store.books), id)
    ensures |store.books| == |old(store.books)| - (if first.Ok? then 1 else 0)
    ensures second == NotFound
    ensures store.Valid()
  {
    first := store.DeleteById(id);
    ghost var between := store.books;
    second := store.DeleteById(id);
    assert store.books == between;
  }

  /** Two books created one after the other are listed in that order, after
      everything that was there before. */
  method CreateTwoThenList(store: BookStore, a: Payload, b: Payload, idA: Id, idB: Id, now: Timestamp)
    returns (listed: seq<Summary>)
    requires store.Valid()
    requires Absent(store.books, idA) && Absent(store.books, idB) && idA != idB
    requires Validate(a).Ok? && Validate(b).Ok?
    modifies store
    ensures |listed| == |old(store.books)| + 2
    ensures listed[..|old(store.books)|] == old(store.ListSummaries())
    ensures listed[|old(store.books)|] == Summary(idA, a.name.value, a.publisher)
    ensures listed[|old(store.books)| + 1] == Summary(idB, b.name.value, b.publisher)
  {
    var ra := store.Create(a, idA, now);
    var rb := store.Create(b, idB, now);
    listed := store.ListSummaries();
  }
}
