/**
 * The process-wide book catalogue and its request handlers. The catalogue
 * owns the ordered list of entries; the create and update handlers change it
 * in place, the other handlers scan it.
 */
module BookStore {
  import opened BookModel

  /**
   * What a handler answers: a rejected body (the request schema refused it),
   * a message, or no body at all.
   */
  datatype Reply = Rejected | Message(text: string) | NoBody

  class Catalogue {
    var books: seq<Book>

    /** The catalogue's invariant: ids increase along the list, so they are unique. */
    ghost predicate Valid()
      reads this
    {
      IdsIncreasing(books)
    }

    /** The catalogue as the process starts: the six seed entries. */
    constructor ()
      ensures Valid() && IdsUnique(books)
      ensures books == Seed()
    {
      books := Seed();
      new;
      IncreasingIdsAreUnique(books);
    }

    /** Every entry, in list order. */
    method ReadAllBooks() returns (r: seq<Book>)
      ensures r == books
    {
      r := books;
    }

    /**
     * Stamps a fresh record with the next id: 1 for an empty catalogue,
     * otherwise one more than the last entry's id. The other fields are kept.
     */
    method SetBookId(book: Book) returns (stamped: Book)
      ensures stamped.(id := book.id) == book
      ensures |books| == 0 ==> stamped.id == 1
      ensures |books| > 0 ==> stamped.id == books[|books| - 1].id + 1
      ensures Valid() ==> forall b :: b in books ==> b.id < stamped.id
    {
      stamped := book.(id := NextId(books));
    }

    /** The first entry with the id, or None; the catalogue is not changed. */
    method ReadBookWithId(bookId: int) returns (r: Option<Book>)
      ensures r == FindById(books, bookId)
    {
      var i := 0;
      while i < |books|
        invariant 0 <= i <= |books|
        invariant forall j :: 0 <= j < i ==> books[j].id != bookId
      {
        if books[i].id == bookId {
          return Some(books[i]);
        }
        i := i + 1;
      }
      return None;
    }

    /** The entries with the rating, in list order; empty when none has it. */
    method ReadBookWithRating(bookRating: int) returns (r: seq<Book>)
      ensures r == WithRating(books, bookRating)
    {
      r := [];
      var i := 0;
      while i < |books|
        invariant 0 <= i <= |books|
        invariant r == WithRating(books[..i], bookRating)
      {
        assert books[..i + 1][..i] == books[..i];
        if books[i].rating == bookRating {
          r := r + [books[i]];
        }
        i := i + 1;
      }
      assert books[..i] == books;
    }

    /**
     * Overwrites the first entry whose id equals the request's id with the
     * request's fields. Nothing changes, and no body is returned, when no
     * entry matches (always so for a request without an id); a body that
     * breaks the field bounds is rejected before the scan.
     */
    method UpdateBook(req: BookRequest) returns (reply: Reply)
      requires Valid()
      modifies this
      ensures Valid() && IdsUnique(books)
      ensures !ValidRequest(req) ==> reply == Rejected && books == old(books)
      ensures ValidRequest(req) ==> books == Updated(old(books), req)
      ensures ValidRequest(req) ==>
                reply == if UpdateTarget(old(books), req).Some? then Message("Book was updated") else NoBody
    {
      if !ValidRequest(req) {
        IncreasingIdsAreUnique(books);
        return Rejected;
      }
      UpdatePreservesIncreasing(books, req);
      var i := 0;
      while i < |books|
        invariant 0 <= i <= |books|
        invariant books == old(books)
        invariant forall j :: 0 <= j < i ==> Some(books[j].id) != req.id
      {
        if Some(books[i].id) == req.id {
          books := books[i := FromRequest(req, books[i].id)];
          IncreasingIdsAreUnique(books);
          return Message("Book was updated");
        }
        i := i + 1;
      }
      IncreasingIdsAreUnique(books);
      return NoBody;
    }

    /**
     * Appends the request's fields under the next id, discarding any id the
     * request carries; a body that breaks the field bounds is rejected and
     * nothing changes.
     */
    method AddNewBooks(req: BookRequest) returns (reply: Reply)
      requires Valid()
      modifies this
      ensures Valid() && IdsUnique(books)
      ensures !ValidRequest(req) ==> reply == Rejected && books == old(books)
      ensures ValidRequest(req) ==> reply == Message("Book added") && books == Created(old(books), req)
    {
      if !ValidRequest(req) {
        IncreasingIdsAreUnique(books);
        return Rejected;
      }
      // The record built from the body still carries the body's id, if any.
      var draft := FromRequest(req, if req.id.Some? then req.id.value else 0);
      var newBook := SetBookId(draft);
      CreatePreservesIncreasing(books, req);
      books := books + [newBook];
      IncreasingIdsAreUnique(books);
      return Message("Book added");
    }
  }

  /**
   * From the seed, one accepted create yields seven entries; the new entry has
   * id 7 and is what a lookup of id 7 returns.
   */
  method CreateOnSeed(req: BookRequest) returns (count: nat, found: Option<Book>)
    requires ValidRequest(req)
    ensures count == 7
    ensures found == Some(FromRequest(req, 7))
  {
    var catalogue := new Catalogue();
    var reply := catalogue.AddNewBooks(req);
    var all := catalogue.ReadAllBooks();
    count := |all|;
    ReadAfterCreate(Seed(), req, 7);
    found := catalogue.ReadBookWithId(7);
  }

  /** From the seed, a create whose rating is out of range is rejected and the seed is unchanged. */
  method RejectOnSeed(req: BookRequest) returns (reply: Reply, count: nat)
    requires req.rating == 6
    ensures reply == Rejected
    ensures count == 6
  {
    var catalogue := new Catalogue();
    reply := catalogue.AddNewBooks(req);
    var all := catalogue.ReadAllBooks();
    count := |all|;
  }
}
