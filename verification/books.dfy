/** The data model of the bookshelf: stored book records, the request
    payload of create and update, the list query, and the response
    envelope (status, HTTP code, optional message, optional data). */
module Books {
  import opened Optional

  /** An ISO-8601 time stamp, taken as given from the caller's clock. */
  type Timestamp = string

  /** One stored record. `finished` is derived when the record is created
      and is never recomputed afterwards. */
  datatype Book = Book(
    id: string,
    name: string,
    year: int,
    author: string,
    summary: string,
    publisher: string,
    pageCount: int,
    readPage: int,
    finished: bool,
    reading: bool,
    insertedAt: Timestamp,
    updatedAt: Timestamp)

  /** The request body of create and update. `name` may be absent. */
  datatype Payload = Payload(
    name: Option<string>,
    year: int,
    author: string,
    summary: string,
    publisher: string,
    pageCount: int,
    readPage: int,
    reading: bool)

  /** The payload passes the truthiness test on `name`: it is present and
      not the empty string. */
  predicate HasName(p: Payload)
  {
    p.name.Some? && p.name.value != ""
  }

  /** The payload fails the page check: more pages read than the book has. */
  predicate ReadPastEnd(p: Payload)
  {
    p.readPage > p.pageCount
  }

  /** The query string of the list operation; each key may be absent. */
  datatype Query = Query(name: Option<string>, reading: Option<string>, finished: Option<string>)

  /** A query value switches its filter on when it is a non-empty string. */
  predicate Active(v: Option<string>)
  {
    v.Some? && v.value != ""
  }

  /** The list view of one record. */
  datatype BookSummary = BookSummary(id: string, name: string, publisher: string)

  function Summarize(b: Book): BookSummary
  {
    BookSummary(b.id, b.name, b.publisher)
  }

  /** The list view of a sequence of records, in the same order. */
  function Project(books: seq<Book>): (r: seq<BookSummary>)
    ensures |r| == |books|
    ensures forall i :: 0 <= i < |books| ==> r[i] == Summarize(books[i])
  {
    if |books| == 0 then [] else [Summarize(books[0])] + Project(books[1..])
  }

  datatype Status = Success | Fail

  /** The `data` part of a response. */
  datatype Data =
    | NoData
    | NewId(bookId: string)
    | Listing(books: seq<BookSummary>)
    | Found(book: Book)

  datatype Response = Response(status: Status, code: int, message: Option<string>, data: Data)

  /** What a handler returns: the response and the store after the call. */
  datatype Reply = Reply(response: Response, books: seq<Book>)

  function Failed(code: int, message: string): Response
  {
    Response(Fail, code, Some(message), NoData)
  }

  const AddReadPageMessage := "Gagal menambahkan buku. readPage tidak boleh lebih besar dari pageCount"
  const AddNameMessage := "Gagal menambahkan buku. Mohon isi nama buku"
  const AddedMessage := "Buku berhasil ditambahkan"
  const AddErrorMessage := "Buku gagal ditambahkan"
  const NotFoundMessage := "Buku tidak ditemukan"
  const EditReadPageMessage := "Gagal memperbarui buku. readPage tidak boleh lebih besar dari pageCount"
  const EditNameMessage := "Gagal memperbarui buku. Mohon isi nama buku"
  const EditedMessage := "Buku berhasil diperbarui"
  const EditMissingMessage := "Gagal memperbarui buku. Id tidak ditemukan"
  const DeletedMessage := "Buku berhasil dihapus"
  const DeleteMissingMessage := "Buku gagal dihapus. Id tidak ditemukan"
}
