/** Properties that relate several handler calls: the id-uniqueness
    invariant, create/delete as inverses, reading back what create and
    edit wrote, the duplicate-id behaviour of get-by-id, the list filters,
    and the create/get/edit/delete lifecycle. */
module Properties {
  import opened Optional
  import opened Sequences
  import opened Books
  import opened Handlers

  /** No two records share an id. The handlers never check this; create
      keeps it only when the id it is handed is fresh. */
  ghost predicate UniqueIds(books: seq<Book>)
  {
    forall i, j :: 0 <= i < |books| && 0 <= j < |books| && books[i].id == books[j].id ==> i == j
  }

  /** With unique ids, the record carrying an id is the first one. */
  lemma UniqueIsFirst(books: seq<Book>, k: int, id: string)
    requires UniqueIds(books)
    requires 0 <= k < |books| && books[k].id == id
    ensures IsFirst(books, k, HasId(id))
  {
  }

  // ------------------------------------------------------------ invariants

  lemma AddPreservesUniqueIds(books: seq<Book>, p: Payload, id: string, now: Timestamp)
    requires UniqueIds(books) && NoneMatch(books, HasId(id))
    ensures UniqueIds(AddBook(books, p, id, now).books)
  {
    var r := AddBook(books, p, id, now).books;
    if !ReadPastEnd(p) && HasName(p) {
      forall i, j | 0 <= i < |r| && 0 <= j < |r| && r[i].id == r[j].id
        ensures i == j
      {
        assert forall k :: 0 <= k < |books| ==> r[k] == books[k];
      }
    }
  }

  lemma EditPreservesUniqueIds(books: seq<Book>, id: string, p: Payload, now: Timestamp)
    requires UniqueIds(books)
    ensures UniqueIds(EditBookById(books, id, p, now).books)
  {
    var r := EditBookById(books, id, p, now).books;
    var index := FirstIndex(books, HasId(id));
    if !ReadPastEnd(p) && HasName(p) && index.Some? {
      var k := index.value;
      assert forall i :: 0 <= i < |books| ==> r[i].id == books[i].id;
    }
  }

  lemma DeletePreservesUniqueIds(books: seq<Book>, id: string)
    requires UniqueIds(books)
    ensures UniqueIds(DeleteBookById(books, id).books)
  {
    var r := DeleteBookById(books, id).books;
    var index := FirstIndex(books, HasId(id));
    if index.Some? {
      var k := index.value;
      forall i, j | 0 <= i < |r| && 0 <= j < |r| && r[i].id == r[j].id
        ensures i == j
      {
        var i' := if i < k then i else i + 1;
        var j' := if j < k then j else j + 1;
        assert r[i] == books[i'] && r[j] == books[j'];
      }
    }
  }

  // --------------------------------------------------------- create, then

  /** A record just created with a fresh id is read back unchanged. */
  lemma AddThenGet(books: seq<Book>, p: Payload, id: string, now: Timestamp)
    requires NoneMatch(books, HasId(id)) && !ReadPastEnd(p) && HasName(p)
    ensures var b := AddBook(books, p, id, now).books[|books|];
            && Created(b, p, id, now)
            && GetBookById(AddBook(books, p, id, now).books, id).response == Response(Success, 200, None, Found(b))
  {
    var r := AddBook(books, p, id, now).books;
    var k := |books|;
    assert forall j :: 0 <= j < k ==> r[j] == books[j];
    assert IsFirst(r, k, HasId(id));
    if r[k].finished {
      assert IsFirst(r, k, FinishedCopy(id));
    } else {
      assert NoneMatch(r, FinishedCopy(id));
    }
  }

  /** Deleting the id that create was just handed restores the store. */
  lemma AddThenDelete(books: seq<Book>, p: Payload, id: string, now: Timestamp)
    requires NoneMatch(books, HasId(id)) && !ReadPastEnd(p) && HasName(p)
    ensures DeleteBookById(AddBook(books, p, id, now).books, id)
            == Reply(Response(Success, 200, Some(DeletedMessage), NoData), books)
  {
    var r := AddBook(books, p, id, now).books;
    var k := |books|;
    assert forall j :: 0 <= j < k ==> r[j] == books[j];
    assert IsFirst(r, k, HasId(id));
    var d := DeleteBookById(r, id).books;
    assert d == books;
  }

  // ----------------------------------------------------------- get by id

  /** With unique ids the second lookup of get-by-id changes nothing: the
      one record with the id is returned. */
  lemma GetWithUniqueIds(books: seq<Book>, k: int)
    requires UniqueIds(books) && 0 <= k < |books|
    ensures GetBookById(books, books[k].id).response == Response(Success, 200, None, Found(books[k]))
  {
    var id := books[k].id;
    UniqueIsFirst(books, k, id);
    if books[k].finished {
      assert IsFirst(books, k, FinishedCopy(id));
    } else {
      assert NoneMatch(books, FinishedCopy(id));
    }
  }

  /** With duplicated ids, get-by-id returns a finished copy in preference
      to an earlier unfinished one: the first lookup alone would return
      `first`. */
  lemma GetPrefersFinishedDuplicate(first: Book, second: Book)
    requires first.id == second.id && !first.finished && second.finished
    ensures GetBookById([first, second], first.id).response == Response(Success, 200, None, Found(second))
  {
    assert IsFirst([first, second], 1, FinishedCopy(first.id));
  }

  // --------------------------------------------------------- edit, then

  /** After a successful edit, get-by-id returns the revised record. */
  lemma EditThenGet(books: seq<Book>, k: int, p: Payload, now: Timestamp)
    requires UniqueIds(books) && 0 <= k < |books|
    requires !ReadPastEnd(p) && HasName(p)
    ensures var r := EditBookById(books, books[k].id, p, now);
            && r.response.code == 200
            && Revised(books[k], r.books[k], p, now)
            && GetBookById(r.books, books[k].id).response == Response(Success, 200, None, Found(r.books[k]))
  {
    var id := books[k].id;
    UniqueIsFirst(books, k, id);
    EditPreservesUniqueIds(books, id, p, now);
    GetWithUniqueIds(EditBookById(books, id, p, now).books, k);
  }

  // ------------------------------------------------------- delete, then

  /** With unique ids, a record once deleted is gone: get-by-id and a
      second delete of the same id both answer 404. */
  lemma DeleteThenGone(books: seq<Book>, k: int)
    requires UniqueIds(books) && 0 <= k < |books|
    ensures var id := books[k].id;
            var r := DeleteBookById(books, id);
            && r.response.code == 200
            && |r.books| == |books| - 1
            && GetBookById(r.books, id).response == Failed(404, NotFoundMessage)
            && DeleteBookById(r.books, id) == Reply(Failed(404, DeleteMissingMessage), r.books)
  {
    var id := books[k].id;
    UniqueIsFirst(books, k, id);
    var r := DeleteBookById(books, id).books;
    forall j | 0 <= j < |r|
      ensures r[j].id != id
    {
      var j' := if j < k then j else j + 1;
      assert r[j] == books[j'];
    }
    assert NoneMatch(r, HasId(id));
  }

  // ---------------------------------------------------------------- list

  /** A query that switches no filter on lists every record in store
      order. */
  lemma ListWithoutFilters(books: seq<Book>, q: Query)
    requires !Active(q.name) && !Active(q.reading) && !Active(q.finished)
    ensures GetAllBooks(books, q).response.data == Listing(Project(books))
  {
    ListIsSelection(books, q);
    FilterExt(books, Matcher(q), (b: Book) => true);
    FilterAll(books, (b: Book) => true);
  }

  /** A reading value other than "1" ("0", say) does not switch the filter
      off: it lists the records that are not being read. */
  lemma ListReadingOtherThanOne(books: seq<Book>, v: string)
    requires v != "" && v != "1"
    ensures GetAllBooks(books, Query(None, Some(v), None)).response.data
            == Listing(Project(Filter(books, (b: Book) => !b.reading)))
  {
    ListIsSelection(books, Query(None, Some(v), None));
    FilterExt(books, Matcher(Query(None, Some(v), None)), (b: Book) => !b.reading);
  }

  /** The same for the finished filter. */
  lemma ListFinishedOtherThanOne(books: seq<Book>, v: string)
    requires v != "" && v != "1"
    ensures GetAllBooks(books, Query(None, None, Some(v))).response.data
            == Listing(Project(Filter(books, (b: Book) => !b.finished)))
  {
    ListIsSelection(books, Query(None, None, Some(v)));
    FilterExt(books, Matcher(Query(None, None, Some(v))), (b: Book) => !b.finished);
  }

  /** A record created by create is listed, as the last entry, by a query
      that switches no filter on. */
  lemma AddThenList(books: seq<Book>, p: Payload, id: string, now: Timestamp, q: Query)
    requires !ReadPastEnd(p) && HasName(p)
    requires !Active(q.name) && !Active(q.reading) && !Active(q.finished)
    ensures var listing := GetAllBooks(AddBook(books, p, id, now).books, q).response.data.books;
            && |listing| == |books| + 1
            && listing[|books|] == BookSummary(id, p.name.value, p.publisher)
  {
    ListWithoutFilters(AddBook(books, p, id, now).books, q);
  }

  // ----------------------------------------------------------- lifecycle

  /** Create a fully read book, read it, try an edit with too many pages
      read (rejected, nothing changes), edit it to have more pages (the
      stale `finished` flag stays set), delete it, and find it gone. */
  lemma Lifecycle(books: seq<Book>, p: Payload, id: string, t0: Timestamp, t1: Timestamp)
    requires UniqueIds(books) && NoneMatch(books, HasId(id))
    requires p.name == Some("X") && p.pageCount == 50 && p.readPage == 50
    ensures var added := AddBook(books, p, id, t0);
            var k := |books|;
            var bad := EditBookById(added.books, id, p.(readPage := 60, pageCount := 50), t1);
            var good := EditBookById(added.books, id, p.(readPage := 50, pageCount := 60), t1);
            var removed := DeleteBookById(good.books, id);
            && added.response.code == 201
            && GetBookById(added.books, id).response.data.book.finished
            && bad == Reply(Failed(400, EditReadPageMessage), added.books)
            && good.response.code == 200
            && GetBookById(good.books, id).response.data.book.finished
            && GetBookById(good.books, id).response.data.book.pageCount == 60
            && removed.response.code == 200
            && GetBookById(removed.books, id).response.code == 404
  {
    var added := AddBook(books, p, id, t0);
    var k := |books|;
    AddThenGet(books, p, id, t0);
    AddPreservesUniqueIds(books, p, id, t0);
    var p' := p.(readPage := 50, pageCount := 60);
    EditThenGet(added.books, k, p', t1);
    var good := EditBookById(added.books, id, p', t1);
    EditPreservesUniqueIds(added.books, id, p', t1);
    DeleteThenGone(good.books, k);
  }
}
