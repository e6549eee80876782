/** The records of the bookshelf store, the request payloads its handlers
    accept, and the pure validation, search and projection the handlers share. */
module Books {

  datatype Option<T> = None | Some(value: T)

  /** A book id: the opaque string the id generator returned at creation. */
  type Id = string

  /** A timestamp: the opaque ISO-8601 string the clock returned. */
  type Timestamp = string

  /** The fields a client sends to create or to update a book. An absent
      `name` is `None`. */
  datatype Payload = Payload(
    name: Option<string>,
    year: int,
    author: string,
    summary: string,
    publisher: string,
    pageCount: int,
    readPage: int,
    reading: bool)

  /** One stored record. `id` and `insertedAt` are set once, at creation. */
  datatype Book = Book(
    id: Id,
    name: string,
    year: int,
    author: string,
    summary: string,
    publisher: string,
    pageCount: int,
    readPage: int,
    finished: bool,
    reading: bool,
    insertedAt: Timestamp,
    updatedAt: Timestamp)

  /** The reduced view of a record that the listing returns. */
  datatype Summary = Summary(id: Id, name: string, publisher: string)

  /** What a handler answers: success with a value, or one of the three
      failure kinds (400 for the first two, 404 for the last). */
  datatype Response<T> = Ok(value: T) | MissingName | ReadPageExceedsPageCount | NotFound

  /** The name test `!name`: an absent or empty name is missing. */
  predicate NameMissing(name: Option<string>) {
    name.None? || name.value == ""
  }

  /** The two payload checks of the create and the update handler, the name
      check first. On success, the name to store. */
  function Validate(p: Payload): (r: Response<string>)
    ensures r.Ok? || r.MissingName? || r.ReadPageExceedsPageCount?
    ensures r.MissingName? <==> NameMissing(p.name)
    ensures r.ReadPageExceedsPageCount? <==> !NameMissing(p.name) && p.readPage > p.pageCount
    ensures r.Ok? ==> p.name == Some(r.value) && r.value != "" && p.readPage <= p.pageCount
  {
    if NameMissing(p.name) then MissingName
    else if p.readPage > p.pageCount then ReadPageExceedsPageCount
    else Ok(p.name.value)
  }

  /** `b` holds every field of the payload `p`, with `finished` derived from
      the two page counts. */
  predicate Carries(b: Book, p: Payload) {
    && p.name == Some(b.name)
    && b.year == p.year
    && b.author == p.author
    && b.summary == p.summary
    && b.publisher == p.publisher
    && b.pageCount == p.pageCount
    && b.readPage == p.readPage
    && b.reading == p.reading
    && b.finished == (p.pageCount == p.readPage)
  }

  /** What every record accepted into the store satisfies. */
  predicate WellFormed(b: Book) {
    && b.name != ""
    && b.readPage <= b.pageCount
    && b.finished == (b.pageCount == b.readPage)
  }

  /** No two records share an id. */
  predicate UniqueIds(s: seq<Book>) {
    forall i, j :: 0 <= i < |s| && 0 <= j < |s| && i != j ==> s[i].id != s[j].id
  }

  /** No record of `s` has id `id`. */
  predicate Absent(s: seq<Book>, id: Id) {
    forall k :: 0 <= k < |s| ==> s[k].id != id
  }

  /** `k` is the position of the first record of `s` whose id is `id`. */
  predicate FirstWithId(s: seq<Book>, id: Id, k: int) {
    && 0 <= k < |s|
    && s[k].id == id
    && forall j :: 0 <= j < k ==> s[j].id != id
  }

  /** `findIndex` by id: the first position holding `id`, or -1. */
  function IndexOf(s: seq<Book>, id: Id): (r: int)
    ensures -1 <= r < |s|
    ensures r == -1 <==> Absent(s, id)
    ensures r != -1 ==> FirstWithId(s, id, r)
  {
    if |s| == 0 then -1
    else if s[0].id == id then 0
    else
      var j := IndexOf(s[1..], id);
      if j == -1 then -1 else j + 1
  }

  /** The listing's projection of one record. */
  function Project(b: Book): Summary {
    Summary(b.id, b.name, b.publisher)
  }

  /** `books.map(...)`: the projection of every record, in order. */
  function Summaries(s: seq<Book>): (r: seq<Summary>)
    ensures |r| == |s|
    ensures forall k :: 0 <= k < |s| ==> r[k] == Summary(s[k].id, s[k].name, s[k].publisher)
  {
    if s == [] then [] else [Project(s[0])] + Summaries(s[1..])
  }

  /** Listing a store that grew by appending lists the old records first, in
      their old order, then the new ones. */
  lemma {:induction false} SummariesAppend(a: seq<Book>, b: seq<Book>)
    ensures Summaries(a + b) == Summaries(a) + Summaries(b)
  {
    if a == [] {
      assert a + b == b;
    } else {
      assert (a + b)[1..] == a[1..] + b;
      SummariesAppend(a[1..], b);
    }
  }

  /** Removing the record at `i` removes exactly its summary from the listing;
      the others keep their relative order. */
  lemma {:induction false} SummariesRemoveAt(s: seq<Book>, i: int)
    requires 0 <= i < |s|
    ensures Summaries(s[..i] + s[i + 1..]) == Summaries(s)[..i] + Summaries(s)[i + 1..]
  {
    var rest, listed := s[..i] + s[i + 1..], Summaries(s);
    var kept := listed[..i] + listed[i + 1..];
    forall k | 0 <= k < |rest|
      ensures Summaries(rest)[k] == kept[k]
    {
      var from := if k < i then k else k + 1;
      assert rest[k] == s[from] && kept[k] == listed[from];
    }
  }

  /** Replacing the record at `i` changes exactly that entry of the listing. */
  lemma SummariesUpdate(s: seq<Book>, i: int, b: Book)
    requires 0 <= i < |s|
    ensures Summaries(s[i := b]) == Summaries(s)[i := Project(b)]
  {
  }

  /** With unique ids, the record holding `id` is the one `findIndex` finds. */
  lemma IndexOfUnique(s: seq<Book>, k: int)
    requires UniqueIds(s)
    requires 0 <= k < |s|
    ensures IndexOf(s, s[k].id) == k
  {
  }

  /** Appending a record whose id is new keeps the ids unique, and
      `findIndex` then finds it at the end. */
  lemma AppendFresh(s: seq<Book>, b: Book)
    requires UniqueIds(s)
    requires Absent(s, b.id)
    ensures UniqueIds(s + [b])
    ensures IndexOf(s + [b], b.id) == |s|
  {
    var t := s + [b];
    forall i, j | 0 <= i < |t| && 0 <= j < |t| && i != j
      ensures t[i].id != t[j].id
    {
      if i < |s| && j < |s| {
        assert t[i] == s[i] && t[j] == s[j];
      }
    }
    IndexOfUnique(t, |s|);
  }

  /** Removing the record at `i` keeps the ids unique, and with unique ids
      its id is then absent, so a second removal finds nothing. */
  lemma RemoveAtUnique(s: seq<Book>, i: int)
    requires UniqueIds(s)
    requires 0 <= i < |s|
    ensures UniqueIds(s[..i] + s[i + 1..])
    ensures IndexOf(s[..i] + s[i + 1..], s[i].id) == -1
  {
    var t := s[..i] + s[i + 1..];
    assert forall k :: 0 <= k < |t| ==> t[k] == s[if k < i then k else k + 1];
  }
}
