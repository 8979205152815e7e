# Book catalogue service — Dafny model

This project models the in-memory book catalogue of `project_02/book.py`.
The service keeps one process-wide ordered list of books. Each book has an
id, a title, an author, a description and a rating. The service starts with
six seed books, and its handlers

- list every book,
- look up the first book with a given id,
- collect the books with a given rating, in list order,
- overwrite the first book whose id equals the id in an update request, and
- append a new book under the next id.

Write requests are checked against field bounds before a handler runs:
a title of at least 3 characters, an author of at least 2, a description of
1 to 100 characters, and a rating from 0 to 5.

The model has two modules:

- `BookModel` (`book_model.dfy`) holds the values `Book` and `BookRequest`,
  the validity predicate `ValidRequest` and the functions that specify the
  handlers (`NextId`, `IndexOfId`, `FindById`, `WithRating`, `UpdateTarget`,
  `Updated`, `Created`, `Seed`). It also holds the lemmas about them.
- `BookStore` (`book_store.dfy`) holds the class `Catalogue`, which owns the
  list as a `seq<Book>` field. The handlers are its methods. The scanning
  handlers are loops with invariants. The two mutating handlers reassign the
  field, and each is proved to produce exactly `Updated(old(books), req)` or
  `Created(old(books), req)`. Two client methods replay the seed examples.

The catalogue's invariant `Valid()` says that ids strictly increase along the
list, which makes them unique. The seed satisfies it, and both the create and
the update handler preserve it. A create appends the last id + 1. An update
only replaces an entry whose id equals the request's id, and the replacement
carries that same id.

### Notes on the code's behaviour

- The next id is the last entry's id + 1, not the largest id + 1. As long as
  ids increase the two agree. `NextIdFollowsLastEntry` shows a list where
  they do not.
- An update cannot change an entry's id, because it matches on that id.
- The file has no delete handler, so none is modelled.

## Model

| member | source | states |
|---|---|---|
| `BookModel.SchemaExampleAccepted` | project_02/book.py:30-38 | the example body shown in the request schema passes the field bounds |
| `BookModel.ValidRequestBounds` | project_02/book.py:25-28 | an accepted body has a title of at least 3 characters, an author of at least 2, a description of 1 to 100, and a rating from 0 to 5; a rating of 6 is rejected |
| `BookModel.IncreasingIdsAreUnique` | project_02/book.py:51 | strictly increasing ids are pairwise distinct |
| `BookModel.NextId` | project_02/book.py:51 | an empty list gives id 1; when ids increase, the new id exceeds every id present |
| `BookModel.NextIdFollowsLastEntry` | project_02/book.py:51 | the id follows the last entry, not the maximum: for ids [2, 1] the next id is 2, which is already taken |
| `BookModel.Seed` | project_02/book.py:60-67 | the seed's ids increase, and its next id is 7 |
| `BookModel.IndexOfId` | project_02/book.py:90-92 | the result is the position of the first entry with the id; None exactly when no entry has it |
| `BookModel.FindById` | project_02/book.py:90-92 | None exactly when no book has the id; otherwise the entry at the first position carrying the id |
| `BookModel.FindByIdUnique` | project_02/book.py:90-92 | with increasing ids, a lookup of any entry's id returns that very entry |
| `BookModel.IndexOfIdAppend` | project_02/book.py:134 | appending an entry keeps earlier first matches and adds a match only at the new position |
| `BookModel.IndexOfIdSameIds` | project_02/book.py:120-121 | the first match depends only on the ids in the list |
| `BookModel.WithRating` | project_02/book.py:105-110 | a book is in the result iff it is in the list and has the rating; never longer than the list |
| `BookModel.WithRatingAppend` | project_02/book.py:105-110 | filtering a concatenation concatenates the filtered parts, so list order is kept |
| `BookModel.WithRatingCount` | project_02/book.py:105-110 | each book with the rating appears as often as in the list; no other book appears |
| `BookModel.UpdateTarget` | project_02/book.py:120-121 | the target is the first entry whose id equals the request's id; None when none does, including a request without id |
| `BookModel.UpdatedShape` | project_02/book.py:120-123 | an update keeps the length and every id, replaces only the target with the request's fields, and is a no-op without a match |
| `BookModel.UpdatePreservesIncreasing` | project_02/book.py:121-122 | an update keeps ids strictly increasing |
| `BookModel.ReadAfterUpdate` | project_02/book.py:120-123 | after an update that found its target, a lookup of the id returns the request's fields |
| `BookModel.CreatePreservesIncreasing` | project_02/book.py:133-134 | a create keeps ids strictly increasing |
| `BookModel.ReadAfterCreate` | project_02/book.py:133-134 | after a create, the new id finds the new entry and every other id finds what it found before |
| `BookModel.FilterAfterCreate` | project_02/book.py:133-134 | a create adds the new entry to a rating filter exactly when it has that rating |
| `BookModel.SeedCreateYieldsSeven` | project_02/book.py:60-67 | one create on the seed gives seven entries, the last carrying id 7 |
| `BookStore.Catalogue.constructor` | project_02/book.py:60-67 | the catalogue starts as the six seed entries, with increasing and unique ids |
| `BookStore.Catalogue.ReadAllBooks` | project_02/book.py:70-77 | returns the whole list in order |
| `BookStore.Catalogue.SetBookId` | project_02/book.py:41-57 | only the id changes; it is 1 on an empty list, else the last id + 1, and under the invariant it exceeds every present id |
| `BookStore.Catalogue.ReadBookWithId` | project_02/book.py:80-92 | the loop returns the first entry with the id, or None, and changes nothing |
| `BookStore.Catalogue.ReadBookWithRating` | project_02/book.py:95-110 | the loop returns exactly the entries with the rating, in list order |
| `BookStore.Catalogue.UpdateBook` | project_02/book.py:113-123 | a rejected body changes nothing; otherwise the list becomes `Updated(old list, request)`, the reply is the update message iff there was a target, and ids stay increasing and unique |
| `BookStore.Catalogue.AddNewBooks` | project_02/book.py:126-136 | a rejected body changes nothing; otherwise the request's fields are appended under the next id, any request id is discarded, and ids stay increasing and unique |
| `BookStore.CreateOnSeed` | project_02/book.py:126-136 | from the seed, an accepted create gives seven books, and a lookup of id 7 returns the new one |
| `BookStore.RejectOnSeed` | project_02/book.py:23-28 | from the seed, a create with rating 6 is rejected and the six books stay |

## Left out

- HTTP routing, `async` handlers, status codes and JSON serialisation are left out. Replies are reduced to `Rejected` (the schema refused the body), `Message(text)` and `NoBody` (the `null` an update returns when nothing matches).
- Request validation is the schema library's work, done before a handler runs. It is modelled as the first step of the create and update methods. The library's type coercion and its per-field error list are not modelled; a rejection is one value.
- Object identity of the stored records is not modelled. Books are values. An update stores the request object itself in the list; the model stores a `Book` with the request's fields and the matched id, which is the same data.
- The todo service (`todo_app/main.py`) is not part of this model. It delegates all storage to a database session.
- Concurrency is left out: the handlers run one at a time on a single list.
