/** The five request handlers of the bookshelf, each a pure function from
    the store (and the request's inputs) to a Reply holding the response
    and the store after the call. The fresh id and the current time stamp
    are parameters. */
module Handlers {
  import opened Optional
  import opened Sequences
  import opened Text
  import opened Books

  /** Selects the records with the given id. */
  function HasId(id: string): Book -> bool
  {
    (b: Book) => b.id == id
  }

  /** Selects the records with the given id whose `finished` flag is set. */
  function FinishedCopy(id: string): Book -> bool
  {
    (b: Book) => b.id == id && b.finished
  }

  // ---------------------------------------------------------------- create

  /** `b` is the record that create stores for payload `p`: the payload's
      fields, the given id, both time stamps equal to `now`, and `finished`
      set exactly when every page has been read. */
  ghost predicate Created(b: Book, p: Payload, id: string, now: Timestamp)
  {
    && b.id == id
    && p.name == Some(b.name)
    && b.year == p.year
    && b.author == p.author
    && b.summary == p.summary
    && b.publisher == p.publisher
    && b.pageCount == p.pageCount
    && b.readPage == p.readPage
    && b.reading == p.reading
    && (b.finished <==> p.pageCount == p.readPage)
    && b.insertedAt == now
    && b.updatedAt == b.insertedAt
  }

  /** The record create builds from a payload that names the book. */
  function NewBook(p: Payload, id: string, now: Timestamp): (b: Book)
    requires HasName(p)
    ensures Created(b, p, id, now)
  {
    var finished := p.pageCount == p.readPage;
    Book(id, p.name.value, p.year, p.author, p.summary, p.publisher,
         p.pageCount, p.readPage, finished, p.reading, now, now)
  }

  /** Create. The page check runs before the name check; a valid payload
      is appended and the store is then searched for the new id, whose
      failure (code 500) cannot happen. */
  function AddBook(books: seq<Book>, p: Payload, id: string, now: Timestamp): (r: Reply)
    ensures ReadPastEnd(p) ==> r == Reply(Failed(400, AddReadPageMessage), books)
    ensures !ReadPastEnd(p) && !HasName(p) ==> r == Reply(Failed(400, AddNameMessage), books)
    ensures !ReadPastEnd(p) && HasName(p) ==>
              && r.response == Response(Success, 201, Some(AddedMessage), NewId(id))
              && |r.books| == |books| + 1
              && r.books[..|books|] == books
              && Created(r.books[|books|], p, id, now)
    ensures r.response.code != 500
  {
    if ReadPastEnd(p) then
      Reply(Failed(400, AddReadPageMessage), books)
    else if !HasName(p) then
      Reply(Failed(400, AddNameMessage), books)
    else
      var added := books + [NewBook(p, id, now)];
      assert added[|books|] in added;
      if |Filter(added, HasId(id))| > 0 then
        Reply(Response(Success, 201, Some(AddedMessage), NewId(id)), added)
      else
        Reply(Failed(500, AddErrorMessage), added)
  }

  // ------------------------------------------------------------------ list

  /** The name filter: a case-insensitive substring match. */
  predicate NameMatches(query: string, b: Book)
  {
    Includes(Lower(b.name), Lower(query))
  }

  /** `b` passes every filter that `q` switches on. A flag filter compares
      the record's flag with whether the query value is exactly "1", so
      any other non-empty value selects the records whose flag is unset. */
  predicate Matches(q: Query, b: Book)
  {
    && (Active(q.name) ==> NameMatches(q.name.value, b))
    && (Active(q.reading) ==> b.reading == (q.reading.value == "1"))
    && (Active(q.finished) ==> b.finished == (q.finished.value == "1"))
  }

  /** The name filter ignores the case of ASCII letters, in the query and
      in the record's name alike. */
  lemma NameMatchIgnoresCase(query: string, b: Book)
    ensures NameMatches(Lower(query), b) == NameMatches(query, b)
    ensures NameMatches(query, b.(name := Lower(b.name))) == NameMatches(query, b)
  {
    LowerIdempotent(query);
    LowerIdempotent(b.name);
  }

  function ByName(name: string): Book -> bool
  {
    (b: Book) => NameMatches(name, b)
  }

  function ByReading(value: string): Book -> bool
  {
    (b: Book) => b.reading == (value == "1")
  }

  function ByFinished(value: string): Book -> bool
  {
    (b: Book) => b.finished == (value == "1")
  }

  /** List. The active filters are applied one after another (name, then
      reading, then finished) and the survivors are projected to
      id, name and publisher. The store is only read. */
  function GetAllBooks(books: seq<Book>, q: Query): (r: Reply)
    ensures r.books == books
    ensures r.response.status == Success && r.response.code == 200 && r.response.message == None
    ensures r.response.data.Listing? && |r.response.data.books| <= |books|
  {
    Reply(Response(Success, 200, None, Listing(Project(Survivors(books, q)))), books)
  }

  /** The filter chain of the list handler, each stage applied only when
      its query value is active. */
  function Survivors(books: seq<Book>, q: Query): (r: seq<Book>)
    ensures |r| <= |books|
    ensures forall b :: b in r <==> b in books && Matches(q, b)
  {
    var byName := FilterWhen(Active(q.name), books, ByName(q.name.GetOr("")));
    var byReading := FilterWhen(Active(q.reading), byName, ByReading(q.reading.GetOr("")));
    FilterWhen(Active(q.finished), byReading, ByFinished(q.finished.GetOr("")))
  }

  /** Selects the records that match a query. */
  function Matcher(q: Query): Book -> bool
  {
    (b: Book) => Matches(q, b)
  }

  /** The records that pass a query, in store order. */
  function Selected(books: seq<Book>, q: Query): seq<Book>
  {
    Filter(books, Matcher(q))
  }

  /** The filter chain keeps exactly the records that match the whole
      query, in store order. */
  lemma {:induction false} SurvivorsAreSelected(books: seq<Book>, q: Query)
    ensures Survivors(books, q) == Selected(books, q)
  {
    if |books| > 0 {
      var x, t := books[0], books[1..];
      assert books == [x] + t;
      SurvivorsAreSelected(t, q);
      var byName, byReading, byFinished := ByName(q.name.GetOr("")), ByReading(q.reading.GetOr("")), ByFinished(q.finished.GetOr(""));
      var onName, onReading, onFinished := Active(q.name), Active(q.reading), Active(q.finished);
      var a := FilterWhen(onName, t, byName);
      var b := FilterWhen(onReading, a, byReading);
      assert Survivors(t, q) == FilterWhen(onFinished, b, byFinished);
      assert Matches(q, x) <==> (!onName || byName(x)) && (!onReading || byReading(x)) && (!onFinished || byFinished(x));
      FilterWhenCons(true, x, t, Matcher(q));
      FilterWhenCons(onName, x, t, byName);
      if !onName || byName(x) {
        FilterWhenCons(onReading, x, a, byReading);
        if !onReading || byReading(x) {
          FilterWhenCons(onFinished, x, b, byFinished);
        }
      }
    }
  }

  /** List returns the list view of exactly the matching records, in store
      order, and leaves the store as it was. */
  lemma ListIsSelection(books: seq<Book>, q: Query)
    ensures GetAllBooks(books, q) == Reply(Response(Success, 200, None, Listing(Project(Selected(books, q)))), books)
  {
    SurvivorsAreSelected(books, q);
  }

  // ------------------------------------------------------------- get by id

  /** Get by id. The first lookup, by id alone, decides between 404 and
      200; a second lookup by id and `finished` then picks the record
      returned, falling back to the first lookup's record. */
  function GetBookById(books: seq<Book>, id: string): (r: Reply)
    ensures r.books == books
    ensures r.response.code == 404 <==> NoneMatch(books, HasId(id))
    ensures NoneMatch(books, HasId(id)) ==> r.response == Failed(404, NotFoundMessage)
    ensures forall k :: IsFirst(books, k, FinishedCopy(id)) ==>
              r.response == Response(Success, 200, None, Found(books[k]))
    ensures forall k :: IsFirst(books, k, HasId(id)) && NoneMatch(books, FinishedCopy(id)) ==>
              r.response == Response(Success, 200, None, Found(books[k]))
  {
    match FirstIndex(books, HasId(id))
    case None => Reply(Failed(404, NotFoundMessage), books)
    case Some(i) =>
      match FirstIndex(books, FinishedCopy(id))
      case Some(j) => Reply(Response(Success, 200, None, Found(books[j])), books)
      case None => Reply(Response(Success, 200, None, Found(books[i])), books)
  }

  // ------------------------------------------------------------------ edit

  /** `after` is `before` revised by payload `p` at time `now`: id,
      insertion time and `finished` kept, every other field taken from the
      payload, and the update time refreshed. */
  ghost predicate Revised(before: Book, after: Book, p: Payload, now: Timestamp)
  {
    && after.id == before.id
    && after.insertedAt == before.insertedAt
    && after.finished == before.finished
    && p.name == Some(after.name)
    && after.year == p.year
    && after.author == p.author
    && after.summary == p.summary
    && after.publisher == p.publisher
    && after.pageCount == p.pageCount
    && after.readPage == p.readPage
    && after.reading == p.reading
    && after.updatedAt == now
  }

  /** The record edit stores in place of `b`. */
  function Revise(b: Book, p: Payload, now: Timestamp): (r: Book)
    requires HasName(p)
    ensures Revised(b, r, p, now)
  {
    b.(name := p.name.value, year := p.year, author := p.author, summary := p.summary,
       publisher := p.publisher, pageCount := p.pageCount, readPage := p.readPage,
       reading := p.reading, updatedAt := now)
  }

  /** Edit. Both payload checks run before the id check, so an invalid
      payload for an unknown id gives 400. On success only the first
      record with the id changes. */
  function EditBookById(books: seq<Book>, id: string, p: Payload, now: Timestamp): (r: Reply)
    ensures ReadPastEnd(p) ==> r == Reply(Failed(400, EditReadPageMessage), books)
    ensures !ReadPastEnd(p) && !HasName(p) ==> r == Reply(Failed(400, EditNameMessage), books)
    ensures !ReadPastEnd(p) && HasName(p) && NoneMatch(books, HasId(id)) ==>
              r == Reply(Failed(404, EditMissingMessage), books)
    ensures forall k :: !ReadPastEnd(p) && HasName(p) && IsFirst(books, k, HasId(id)) ==>
              && r.response == Response(Success, 200, Some(EditedMessage), NoData)
              && |r.books| == |books|
              && (forall j :: 0 <= j < |books| && j != k ==> r.books[j] == books[j])
              && Revised(books[k], r.books[k], p, now)
  {
    var index := FirstIndex(books, HasId(id));
    if ReadPastEnd(p) then
      Reply(Failed(400, EditReadPageMessage), books)
    else if !HasName(p) then
      Reply(Failed(400, EditNameMessage), books)
    else if index.Some? then
      var i := index.value;
      Reply(Response(Success, 200, Some(EditedMessage), NoData), books[i := Revise(books[i], p, now)])
    else
      Reply(Failed(404, EditMissingMessage), books)
  }

  // ---------------------------------------------------------------- delete

  /** Delete. The first record with the id is removed; the others keep
      their order. */
  function DeleteBookById(books: seq<Book>, id: string): (r: Reply)
    ensures NoneMatch(books, HasId(id)) ==> r == Reply(Failed(404, DeleteMissingMessage), books)
    ensures forall k :: IsFirst(books, k, HasId(id)) ==>
              && r.response == Response(Success, 200, Some(DeletedMessage), NoData)
              && |r.books| == |books| - 1
              && (forall j :: 0 <= j < k ==> r.books[j] == books[j])
              && (forall j :: k <= j < |r.books| ==> r.books[j] == books[j + 1])
  {
    match FirstIndex(books, HasId(id))
    case Some(i) => Reply(Response(Success, 200, Some(DeletedMessage), NoData), RemoveAt(books, i))
    case None => Reply(Failed(404, DeleteMissingMessage), books)
  }
}
