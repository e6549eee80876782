/** The in-memory store the five route handlers share: one ordered sequence of
    records, changed in place by append, overwrite at an index and removal at
    an index. The id generator and the clock are parameters of the handlers. */
module Store {
  import opened Books

  class BookStore {
    /** The records, in insertion order. */
    var books: seq<Book>

    /** The store's invariant: ids are unique and every record passed
        validation and carries a consistent `finished` flag. */
    ghost predicate Valid()
      reads this
    {
      && UniqueIds(books)
      && forall k :: 0 <= k < |books| ==> WellFormed(books[k])
    }

    constructor ()
      ensures books == [] && Valid()
    {
      books := [];
    }

    /** POST /books. `freshId` is what the id generator returned, `now` what
        the clock returned. */
    method Create(p: Payload, freshId: Id, now: Timestamp) returns (r: Response<Id>)
      requires Absent(books, freshId)
      modifies this
      ensures r.Ok? || r.MissingName? || r.ReadPageExceedsPageCount?
      ensures r.MissingName? <==> NameMissing(p.name)
      ensures r.ReadPageExceedsPageCount? <==> !NameMissing(p.name) && p.readPage > p.pageCount
      ensures !r.Ok? ==> books == old(books)
      ensures r.Ok? ==>
        && r.value == freshId
        && |books| == |old(books)| + 1
        && books == old(books) + [books[|old(books)|]]
      ensures r.Ok? ==>
        var b := books[|old(books)|];
        && b.id == freshId
        && Carries(b, p)
        && b.insertedAt == now
        && b.updatedAt == b.insertedAt
      ensures r.Ok? ==> ListSummaries() == old(ListSummaries()) + [Project(books[|old(books)|])]
      ensures r.Ok? && old(UniqueIds(books)) ==> GetById(freshId) == Ok(books[|old(books)|])
      ensures old(Valid()) ==> Valid()
    {
      var checked := Validate(p);
      if !checked.Ok? {
        r := match checked
          case MissingName => MissingName
          case _ => ReadPageExceedsPageCount;
        return;
      }
      var newBook := Book(
        freshId, checked.value, p.year, p.author, p.summary, p.publisher,
        p.pageCount, p.readPage, p.pageCount == p.readPage, p.reading, now, now);
      ghost var before := books;
      books := books + [newBook];
      SummariesAppend(before, [newBook]);
      if UniqueIds(before) {
        AppendFresh(before, newBook);
      }
      r := Ok(freshId);
    }

    /** GET /books: every record projected to its id, name and publisher, in
        insertion order. */
    function ListSummaries(): (r: seq<Summary>)
      reads this
      ensures |r| == |books|
      ensures forall k :: 0 <= k < |books| ==>
        r[k] == Summary(books[k].id, books[k].name, books[k].publisher)
    {
      Summaries(books)
    }

    /** GET /books/{id}: the first record with that id, or NotFound. */
    function GetById(id: Id): (r: Response<Book>)
      reads this
      ensures r.Ok? || r.NotFound?
      ensures r.NotFound? <==> Absent(books, id)
      ensures r.Ok? ==> exists k :: FirstWithId(books, id, k) && books[k] == r.value
    {
      var i := IndexOf(books, id);
      if i == -1 then NotFound else Ok(books[i])
    }

    /** PUT /books/{id}: look the id up first, then validate the payload, then
        overwrite the record in place, keeping its id and insertion time. */
    method UpdateById(id: Id, p: Payload, now: Timestamp) returns (r: Response<()>)
      modifies this
      ensures r.NotFound? <==> Absent(old(books), id)
      ensures r.MissingName? <==> !Absent(old(books), id) && NameMissing(p.name)
      ensures r.ReadPageExceedsPageCount? <==>
        !Absent(old(books), id) && !NameMissing(p.name) && p.readPage > p.pageCount
      ensures !r.Ok? ==> books == old(books)
      ensures r.Ok? ==>
        var i := IndexOf(old(books), id);
        && 0 <= i < |old(books)|
        && |books| == |old(books)|
        && (forall k :: 0 <= k < |books| && k != i ==> books[k] == old(books)[k])
        && books[i].id == old(books)[i].id
        && books[i].insertedAt == old(books)[i].insertedAt
        && Carries(books[i], p)
        && books[i].updatedAt == now
      ensures r.Ok? ==>
        var i := IndexOf(old(books), id);
        0 <= i < |old(books)| && ListSummaries() == old(ListSummaries())[i := Project(books[i])]
      ensures old(Valid()) ==> Valid()
    {
      var index := IndexOf(books, id);
      if index == -1 {
        return NotFound;
      }
      var checked := Validate(p);
      if !checked.Ok? {
        r := match checked
          case MissingName => MissingName
          case _ => ReadPageExceedsPageCount;
        return;
      }
      var revised := books[index].(
        name := checked.value,
        year := p.year,
        author := p.author,
        summary := p.summary,
        publisher := p.publisher,
        pageCount := p.pageCount,
        readPage := p.readPage,
        finished := p.pageCount == p.readPage,
        reading := p.reading,
        updatedAt := now);
      SummariesUpdate(books, index, revised);
      books := books[index := revised];
      r := Ok(());
    }

    /** DELETE /books/{id}: look the id up, then remove that one record; the
        others keep their relative order. */
    method DeleteById(id: Id) returns (r: Response<()>)
      modifies this
      ensures r.Ok? || r.NotFound?
      ensures r.NotFound? <==> Absent(old(books), id)
      ensures r.NotFound? ==> books == old(books)
      ensures r.Ok? ==>
        var i := IndexOf(old(books), id);
        && 0 <= i < |old(books)|
        && books == old(books)[..i] + old(books)[i + 1..]
        && ListSummaries() == old(ListSummaries())[..i] + old(ListSummaries())[i + 1..]
      ensures r.Ok? && old(UniqueIds(books)) ==> GetById(id) == NotFound
      ensures old(Valid()) ==> Valid()
    {
      var index := IndexOf(books, id);
      if index == -1 {
        return NotFound;
      }
      ghost var before := books;
      SummariesRemoveAt(books, index);
      if UniqueIds(books) {
        RemoveAtUnique(books, index);
      }
      books := books[..index] + books[index + 1..];
      assert forall k :: 0 <= k < |books| ==> books[k] in before;
      r := Ok(());
    }
  }
}
