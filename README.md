# Bookshelf API: the add-book handler

A model of the add-book operation of a small book-catalogue HTTP service
(`addBookHandler`, `src/handler.js`). A request body carries a book's name,
year, author, summary, publisher, page count, pages read and a reading flag.
The handler rejects a request without a name, then one that reads more pages
than the book has, each with a `fail` envelope and code 400. Otherwise it
builds the stored record (a fresh id, `insertedAt` and `updatedAt` set to the
same instant, `finished` derived as "all pages read"), appends it to the shared
`books` collection, looks the id up again, and answers `success` with code 201
and the new book's id.

- `book.dfy`, module `BookRecord`: the payload, the stored `Book`, the
  invariant every stored book keeps (`WellFormed`), and `NewBook`, which builds
  the record and is proved to give back its payload through `PayloadOf`.
- `handler.dfy`, module `Handler`: the validation gate `Check`, the envelopes
  `Rejected` and `Added` with the shape they share (`Consistent`), the look-up
  `WithId` (the `books.filter(book => book.id === id)` of line 46) with lemmas
  about it, and the class `BookStore`, whose `books` field is the shared
  collection and whose `AddBook` method is the handler. `ExampleScenario` is a
  client that adds a finished book and is refused a page overflow.

The handler's reply is an `Option<Envelope>`: `None` stands for the handler
falling off its end (line 59) and returning nothing. `AddBook` is proved to
always return `Some`, so that path is unreachable. The method does not demand
that the id is unused: the look-up after the append finds the new book
whatever the collection held. The freshness the id generator provides is a
hypothesis only of the two postconditions that need it: unique ids stay
unique, and the look-up finds exactly the new book.

The name check compares only with `undefined`: an empty string is a present
name and passes (`Check`).

Inputs from outside the handler are parameters of `AddBook`: the generated id
(`nanoid(16)`, line 24) and the clock reading (`new Date().toISOString()`,
line 25).

## Model

| member | source | states |
|---|---|---|
| `Handler.Check` | src/handler.js:7-22 | a missing name is rejected first; a named payload with `readPage > pageCount` is rejected as a page overflow; a payload passes exactly when its name is present (the empty name included) and `readPage <= pageCount` |
| `Handler.Rejected` | src/handler.js:8-21 | a rejection reply has status `fail`, code 400, no book id, and the message of its kind |
| `Handler.Added` | src/handler.js:49-56 | the success reply has status `success`, code 201, the success message and `data.bookId` equal to the given id |
| `BookRecord.NewBook` | src/handler.js:24-42 | the new record carries the given id, `insertedAt` is the clock reading and `updatedAt` equals it, `finished` holds exactly when `pageCount == readPage`, every payload field is recovered unchanged from the record, and the record is well formed when `readPage <= pageCount` |
| `Handler.WithId` | src/handler.js:46 | the filter keeps exactly the books of the collection that carry the id, and no more books than the collection has |
| `Handler.WithIdAppend` | src/handler.js:44-46 | looking up an id in a concatenation of two collections is the concatenation of the two look-ups |
| `Handler.UnusedIdFindsNothing` | src/handler.js:24 | looking up an id that no book carries finds nothing |
| `Handler.UniqueIdsFindAtMostOne` | src/handler.js:46 | in a collection with unique ids the look-up finds at most one book |
| `Handler.AppendUnusedId` | src/handler.js:44-46 | after appending a book with an unused id, the look-up by that id yields exactly that book, and unique ids stay unique |
| `Handler.BookStore.AtMostOnePerId` | src/handler.js:46 | in a store whose invariants hold, the look-up by any id finds at most one book |
| `Handler.BookStore.constructor` | src/handler.js:2 | the shared collection starts empty and satisfies the collection invariants |
| `Handler.BookStore.AddBook` | src/handler.js:4-59 | a reply is always returned; a missing name gives the missing-name reply and a page overflow (with a name) the page-overflow reply, both leaving `books` unchanged; a valid payload appends exactly the record `NewBook` builds as the last element, keeping every earlier element in place, and gives the 201 reply with the new id; with an unused id the look-up then finds only the new book and the collection invariants are kept |

## Left out

- Id generation (`nanoid(16)`): the id is an input. Its length and randomness are not modelled.
- The clock and its ISO-8601 rendering: the timestamp is an opaque input string.
- The response toolkit (`h.response`, `response.code`): a response is a plain `Envelope` value.
- The `./books` module (line 2) is not part of this model. The collection is the `books` field of `BookStore`, starting empty; nothing about persistence is assumed.
- `src/routes.js`: route wiring that maps POST /books to the handler, with no logic.
- JavaScript dynamic typing: every payload field except `name` is taken as present and of its intended type (`int`, `string`, `bool`). An absent or non-numeric `pageCount` or `readPage`, and the coercions `>` and `===` would apply to them, are not modelled. A present `name` is taken as a string: a `null` or non-string name, which the source accepts and stores, is not modelled, and neither is a request without a body (the destructuring at line 5 throws before the name check).
- Listing, getting, updating and deleting books: the handler file has no such operations.
- Handler.BookStore.AddBook: collection invariants are promised only when the supplied id is unused. The source relies on the id generator for that.
