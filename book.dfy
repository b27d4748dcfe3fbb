/** The book record of the bookshelf service: the request payload of the
    add-book operation, the stored record, and how one is built from the other. */
module BookRecord {

  datatype Option<+T> = None | Some(value: T)

  /** An identifier as handed out by the id generator. */
  type BookId = string

  /** An instant as rendered by the clock (an ISO-8601 text in the service). */
  type Timestamp = string

  /** The body of an add-book request. Only `name` is ever checked for
      absence; the other fields are taken as they come. */
  datatype Payload = Payload(
    name: Option<string>,
    year: int,
    author: string,
    summary: string,
    publisher: string,
    pageCount: int,
    readPage: int,
    reading: bool)

  /** A stored book. `finished` is derived, `id` and both timestamps are
      assigned by the service, every other field comes from the payload. */
  datatype Book = Book(
    id: BookId,
    name: string,
    year: int,
    author: string,
    summary: string,
    publisher: string,
    pageCount: int,
    readPage: int,
    finished: bool,
    reading: bool,
    insertedAt: Timestamp,
    updatedAt: Timestamp)

  /** What holds of every book the add-book operation stores: no more pages
      read than there are, `finished` exactly when all pages are read, and
      not yet updated since it was inserted. */
  predicate WellFormed(b: Book)
  {
    b.readPage <= b.pageCount &&
    b.finished == (b.pageCount == b.readPage) &&
    b.insertedAt == b.updatedAt
  }

  /** The payload a book was built from: the fields the caller supplied. */
  function PayloadOf(b: Book): Payload
  {
    Payload(Some(b.name), b.year, b.author, b.summary, b.publisher,
            b.pageCount, b.readPage, b.reading)
  }

  /** The record built for a payload that has a name, given the fresh id and
      the current instant. */
  function NewBook(p: Payload, id: BookId, now: Timestamp): (b: Book)
    requires p.name.Some?
    ensures PayloadOf(b) == p
    ensures b.id == id
    ensures b.insertedAt == now && b.updatedAt == b.insertedAt
    ensures b.finished <==> p.pageCount == p.readPage
    ensures p.readPage <= p.pageCount ==> WellFormed(b)
  {
    var insertedAt := now;
    var updatedAt := insertedAt;
    var finished := p.pageCount == p.readPage;
    Book(id, p.name.value, p.year, p.author, p.summary, p.publisher,
         p.pageCount, p.readPage, finished, p.reading, insertedAt, updatedAt)
  }
}
