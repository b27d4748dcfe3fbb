/** The add-book handler: the validation gate, the response envelopes, the
    look-up by id and the shared collection the handler appends to. */
module Handler {
  import opened BookRecord

  /** Why an add-book request is turned away. */
  datatype Rejection = MissingName | PageOverflow

  /** The validation gate: a missing name is reported before a page count
      that is exceeded by the pages read. Only an absent name counts as
      missing; any present name, the empty one included, passes. */
  function Check(p: Payload): (r: Option<Rejection>)
    ensures r == Some(MissingName) <==> p.name.None?
    ensures r == Some(PageOverflow) <==> p.name.Some? && p.readPage > p.pageCount
    ensures r == None <==> p.name.Some? && p.readPage <= p.pageCount
  {
    if p.name.None? then Some(MissingName)
    else if p.readPage > p.pageCount then Some(PageOverflow)
    else None
  }

  datatype Status = Success | Fail

  /** The response body `{status, message, data: {bookId}}` together with
      the HTTP status code set on it. */
  datatype Envelope = Envelope(status: Status, message: string, bookId: Option<BookId>, code: int)

  const MissingNameMessage := "Gagal menambahkan buku. Mohon isi nama buku"
  const PageOverflowMessage := "Gagal menambahkan buku. readPage tidak boleh lebih besar dari pageCount"
  const AddedMessage := "Buku berhasil ditambahkan"

  /** The envelope shape shared by every reply of the handler: success goes
      with code 201 and a book id, failure with code 400 and no data. */
  predicate Consistent(e: Envelope)
  {
    (e.status == Success <==> e.code == 201) &&
    (e.status == Fail <==> e.code == 400) &&
    (e.status == Success <==> e.bookId.Some?) &&
    (e.status == Success <==> e.message == AddedMessage)
  }

  /** The reply to a rejected request. */
  function Rejected(why: Rejection): (e: Envelope)
    ensures Consistent(e) && e.status == Fail
    ensures why == MissingName ==> e.message == MissingNameMessage
    ensures why == PageOverflow ==> e.message == PageOverflowMessage
  {
    var message := match why
      case MissingName => MissingNameMessage
      case PageOverflow => PageOverflowMessage;
    Envelope(Fail, message, None, 400)
  }

  /** The reply to a request that added the book with identifier `id`. */
  function Added(id: BookId): (e: Envelope)
    ensures Consistent(e) && e.status == Success
    ensures e.bookId == Some(id)
  {
    Envelope(Success, AddedMessage, Some(id), 201)
  }

  /** The books of `books` whose id is `id`, in their order in `books`. */
  function WithId(books: seq<Book>, id: BookId): (r: seq<Book>)
    ensures |r| <= |books|
    ensures forall b :: b in r <==> b in books && b.id == id
  {
    if books == [] then []
    else
      assert books == [books[0]] + books[1..];
      if books[0].id == id then [books[0]] + WithId(books[1..], id)
      else WithId(books[1..], id)
  }

  /** Looking up by id distributes over concatenation of collections. */
  lemma {:induction false} WithIdAppend(s: seq<Book>, t: seq<Book>, id: BookId)
    ensures WithId(s + t, id) == WithId(s, id) + WithId(t, id)
  {
    if s == [] {
      assert s + t == t;
    } else {
      assert (s + t)[1..] == s[1..] + t;
      WithIdAppend(s[1..], t, id);
    }
  }

  /** No two books of the collection share an id. */
  predicate UniqueIds(books: seq<Book>)
  {
    forall i, j :: 0 <= i < j < |books| ==> books[i].id != books[j].id
  }

  /** In a collection with unique ids, a look-up by id finds at most one book. */
  lemma {:induction false} UniqueIdsFindAtMostOne(books: seq<Book>, id: BookId)
    requires UniqueIds(books)
    ensures |WithId(books, id)| <= 1
  {
    if books != [] {
      var rest := books[1..];
      assert UniqueIds(rest) by {
        forall i, j | 0 <= i < j < |rest| ensures rest[i].id != rest[j].id {
          assert rest[i] == books[i + 1] && rest[j] == books[j + 1];
        }
      }
      UniqueIdsFindAtMostOne(rest, id);
      if books[0].id == id {
        forall x | x in rest ensures x.id != id {
          var k :| 0 <= k < |rest| && rest[k] == x;
          assert books[k + 1] == x;
        }
        UnusedIdFindsNothing(rest, id);
      }
    }
  }

  /** A look-up by an id no book of the collection carries finds nothing. */
  lemma {:induction false} UnusedIdFindsNothing(books: seq<Book>, id: BookId)
    requires forall b :: b in books ==> b.id != id
    ensures WithId(books, id) == []
  {
    if books != [] {
      assert books[0] in books;
      UnusedIdFindsNothing(books[1..], id);
    }
  }

  /** Appending a book whose id is not yet used: a look-up by that id then
      finds exactly the appended book, and unique ids stay unique. */
  lemma AppendUnusedId(books: seq<Book>, b: Book)
    requires forall x :: x in books ==> x.id != b.id
    ensures WithId(books + [b], b.id) == [b]
    ensures UniqueIds(books) ==> UniqueIds(books + [b])
  {
    WithIdAppend(books, [b], b.id);
    UnusedIdFindsNothing(books, b.id);
    var s := books + [b];
    if UniqueIds(books) {
      forall i, j | 0 <= i < j < |s| ensures s[i].id != s[j].id {
        assert s[i] == books[i] && s[i] in books;
      }
    }
  }

  /** The shared collection of books the handler appends to. */
  class BookStore {
    /** The books in the order they were added. */
    var books: seq<Book>

    /** The collection invariants: ids are unique and every book is well formed. */
    ghost predicate Valid()
      reads this
    {
      UniqueIds(books) && forall b :: b in books ==> WellFormed(b)
    }

    constructor ()
      ensures books == [] && Valid()
    {
      books := [];
    }

    /** While the invariants hold, a look-up by any id finds at most one book. */
    lemma AtMostOnePerId(id: BookId)
      requires Valid()
      ensures |WithId(books, id)| <= 1
    {
      UniqueIdsFindAtMostOne(books, id);
    }

    /** Handles one add-book request whose generated id is `id` and whose
        clock reading is `now`. `None` stands for the handler returning no
        response at all, which it never does. */
    method AddBook(p: Payload, id: BookId, now: Timestamp) returns (resp: Option<Envelope>)
      modifies this
      ensures resp.Some?
      ensures Check(p) == Some(MissingName) ==>
        books == old(books) && resp == Some(Rejected(MissingName))
      ensures Check(p) == Some(PageOverflow) ==>
        books == old(books) && resp == Some(Rejected(PageOverflow))
      ensures Check(p) == None ==>
        books == old(books) + [NewBook(p, id, now)] && resp == Some(Added(id))
      ensures Check(p) == None && (forall b :: b in old(books) ==> b.id != id) ==>
        WithId(books, id) == [NewBook(p, id, now)]
      ensures old(Valid()) && (forall b :: b in old(books) ==> b.id != id) ==> Valid()
    {
      if p.name.None? {
        return Some(Rejected(MissingName));
      }
      if p.readPage > p.pageCount {
        return Some(Rejected(PageOverflow));
      }
      var newBook := NewBook(p, id, now);
      ghost var before := books;
      books := books + [newBook];
      if forall b :: b in before ==> b.id != id {
        AppendUnusedId(before, newBook);
      }
      var isSuccess := |WithId(books, id)| > 0;
      if isSuccess {
        return Some(Added(id));
      }
      return None;
    }
  }

  /** A client of the store: a book whose pages are all read is added and
      stored as finished; a request reading past the last page is refused
      and leaves the collection alone. */
  method ExampleScenario()
  {
    var store := new BookStore();
    var harry := Payload(Some("Harry Potter"), 1997, "J. K. Rowling", "", "", 200, 200, false);
    var r := store.AddBook(harry, "harry0000000000a", "2024-01-01T00:00:00.000Z");
    assert r == Some(Added("harry0000000000a"));
    assert |store.books| == 1 && store.books[0].finished;
    var overflow := Payload(Some("X"), 2000, "", "", "", 100, 150, false);
    r := store.AddBook(overflow, "x00000000000000b", "2024-01-01T00:00:01.000Z");
    assert r.value.code == 400 && r.value.message == PageOverflowMessage;
    assert |store.books| == 1;
  }
}
