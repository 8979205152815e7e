/**
 * Values of the book catalogue service: the stored record, the request body
 * with its field constraints, and the functions that specify what the
 * handlers of the catalogue compute, with the lemmas that relate them.
 */
module BookModel {

  datatype Option<T> = None | Some(value: T)

  /** One catalogue entry. */
  datatype Book = Book(id: int, title: string, author: string, description: string, rating: int)

  /** The body of a create or update request; the id is optional. */
  datatype BookRequest = BookRequest(id: Option<int>, title: string, author: string, description: string, rating: int)

  /** The field bounds a request body must satisfy before any handler sees it. */
  predicate ValidRequest(req: BookRequest)
  {
    && |req.title| >= 3
    && |req.author| >= 2
    && 1 <= |req.description| <= 100
    && -1 < req.rating < 6
  }

  /** The record built from a request's fields, carrying the given id. */
  function FromRequest(req: BookRequest, id: int): Book
  {
    Book(id, req.title, req.author, req.description, req.rating)
  }

  /** Ids grow strictly along the list. */
  ghost predicate IdsIncreasing(s: seq<Book>)
  {
    forall i, j :: 0 <= i < j < |s| ==> s[i].id < s[j].id
  }

  /** No two entries share an id. */
  ghost predicate IdsUnique(s: seq<Book>)
  {
    forall i, j :: 0 <= i < |s| && 0 <= j < |s| && s[i].id == s[j].id ==> i == j
  }

  /** Strictly increasing ids are in particular unique. */
  lemma IncreasingIdsAreUnique(s: seq<Book>)
    requires IdsIncreasing(s)
    ensures IdsUnique(s)
  {
  }

  // ---------------------------------------------------------------------------
  // Id assignment

  /**
   * The id a new entry receives: 1 for an empty list, otherwise one more than
   * the id of the LAST entry. When the ids increase, the new id exceeds every
   * id already present.
   */
  function NextId(s: seq<Book>): (r: int)
    ensures |s| == 0 ==> r == 1
    ensures IdsIncreasing(s) ==> forall i :: 0 <= i < |s| ==> s[i].id < r
  {
    if |s| == 0 then 1 else s[|s| - 1].id + 1
  }

  /**
   * The assignment follows the last entry, not the largest id: on a list whose
   * ids do not increase it hands out an id that is already taken.
   */
  lemma NextIdFollowsLastEntry()
    ensures var s := [Book(2, "Two", "A2", "d", 1), Book(1, "One", "A1", "d", 1)];
            NextId(s) == 2 && s[0].id == 2
  {
  }

  // ---------------------------------------------------------------------------
  // Lookup by id

  /** The position of the first entry carrying the id, if any. */
  function IndexOfId(s: seq<Book>, id: int): (r: Option<nat>)
    ensures r.Some? ==> r.value < |s| && s[r.value].id == id
    ensures r.Some? ==> forall j :: 0 <= j < r.value ==> s[j].id != id
    ensures r.None? <==> forall j :: 0 <= j < |s| ==> s[j].id != id
  {
    if |s| == 0 then None
    else if s[0].id == id then Some(0)
    else match IndexOfId(s[1..], id)
      case None => None
      case Some(k) => Some(k + 1)
  }

  /** The first entry carrying the id, or None. */
  function FindById(s: seq<Book>, id: int): (r: Option<Book>)
    ensures r.None? <==> forall b :: b in s ==> b.id != id
    ensures r.Some? ==> r.value in s && r.value.id == id
    ensures r.Some? ==> exists i :: 0 <= i < |s| && s[i] == r.value && forall j :: 0 <= j < i ==> s[j].id != id
  {
    match IndexOfId(s, id)
    case None => None
    case Some(i) => Some(s[i])
  }

  /** The first match is the unique match when ids increase. */
  lemma FindByIdUnique(s: seq<Book>, i: nat)
    requires IdsIncreasing(s) && i < |s|
    ensures FindById(s, s[i].id) == Some(s[i])
  {
  }

  /** The first match in a list with one more entry at the end. */
  lemma IndexOfIdAppend(s: seq<Book>, b: Book, id: int)
    ensures IndexOfId(s + [b], id) ==
              match IndexOfId(s, id)
              case Some(i) => Some(i)
              case None => if b.id == id then Some(|s|) else None
  {
    var t := s + [b];
    assert forall j :: 0 <= j < |s| ==> t[j] == s[j];
    assert t[|s|] == b;
  }

  /** The first match depends only on the ids in the list. */
  lemma IndexOfIdSameIds(s: seq<Book>, t: seq<Book>, id: int)
    requires |s| == |t|
    requires forall i :: 0 <= i < |s| ==> s[i].id == t[i].id
    ensures IndexOfId(s, id) == IndexOfId(t, id)
  {
  }

  // ---------------------------------------------------------------------------
  // Filter by rating

  /** The entries with the given rating, in list order. */
  function WithRating(s: seq<Book>, rating: int): (r: seq<Book>)
    ensures |r| <= |s|
    ensures forall b :: b in r <==> b in s && b.rating == rating
  {
    if |s| == 0 then []
    else
      var last := s[|s| - 1];
      assert s == s[..|s| - 1] + [last];
      WithRating(s[..|s| - 1], rating) + (if last.rating == rating then [last] else [])
  }

  /** Filtering a concatenation filters each part and keeps them in order. */
  lemma {:induction false} WithRatingAppend(a: seq<Book>, b: seq<Book>, rating: int)
    ensures WithRating(a + b, rating) == WithRating(a, rating) + WithRating(b, rating)
    decreases |b|
  {
    if |b| == 0 {
      assert a + b == a;
    } else {
      var last := b[|b| - 1];
      var keep := if last.rating == rating then [last] else [];
      assert (a + b)[..|a + b| - 1] == a + b[..|b| - 1];
      WithRatingAppend(a, b[..|b| - 1], rating);
      calc {
        WithRating(a + b, rating);
        WithRating(a + b[..|b| - 1], rating) + keep;
        WithRating(a, rating) + WithRating(b[..|b| - 1], rating) + keep;
        WithRating(a, rating) + WithRating(b, rating);
      }
    }
  }

  /** Every entry with the rating appears as often as in the list, and no other entry appears. */
  lemma {:induction false} WithRatingCount(s: seq<Book>, rating: int, b: Book)
    ensures multiset(WithRating(s, rating))[b] == if b.rating == rating then multiset(s)[b] else 0
    decreases |s|
  {
    if |s| > 0 {
      var init, last := s[..|s| - 1], s[|s| - 1];
      assert s == init + [last];
      WithRatingCount(init, rating, b);
    }
  }

  // ---------------------------------------------------------------------------
  // Update

  /** The position an update overwrites: the first entry whose id equals the request's id. */
  function UpdateTarget(s: seq<Book>, req: BookRequest): (r: Option<nat>)
    ensures r.Some? ==> r.value < |s| && req.id == Some(s[r.value].id)
    ensures r.Some? ==> forall j :: 0 <= j < r.value ==> s[j].id != s[r.value].id
    ensures r.None? <==> forall j :: 0 <= j < |s| ==> req.id != Some(s[j].id)
  {
    match req.id
    case None => None
    case Some(k) => IndexOfId(s, k)
  }

  /** The list after an update: the target, if any, is replaced by the request's fields. */
  function Updated(s: seq<Book>, req: BookRequest): seq<Book>
  {
    match UpdateTarget(s, req)
    case None => s
    case Some(i) => s[i := FromRequest(req, s[i].id)]
  }

  /**
   * An update keeps the length and every id, replaces only the first entry
   * whose id equals the request's id, and changes nothing when none does.
   */
  lemma UpdatedShape(s: seq<Book>, req: BookRequest)
    ensures |Updated(s, req)| == |s|
    ensures forall i :: 0 <= i < |s| ==> Updated(s, req)[i].id == s[i].id
    ensures forall i :: 0 <= i < |s| && UpdateTarget(s, req) != Some(i) ==> Updated(s, req)[i] == s[i]
    ensures forall i :: 0 <= i < |s| && UpdateTarget(s, req) == Some(i) ==>
              Updated(s, req)[i] == FromRequest(req, s[i].id)
    ensures (forall b :: b in s ==> req.id != Some(b.id)) ==> Updated(s, req) == s
  {
  }

  /** An update keeps the ids increasing. */
  lemma UpdatePreservesIncreasing(s: seq<Book>, req: BookRequest)
    requires IdsIncreasing(s)
    ensures IdsIncreasing(Updated(s, req))
  {
  }

  /** After an update that found its target, a lookup of that id yields the request's fields. */
  lemma ReadAfterUpdate(s: seq<Book>, req: BookRequest)
    requires req.id.Some? && UpdateTarget(s, req).Some?
    ensures FindById(Updated(s, req), req.id.value) == Some(FromRequest(req, req.id.value))
  {
    UpdatedShape(s, req);
    IndexOfIdSameIds(s, Updated(s, req), req.id.value);
  }

  // ---------------------------------------------------------------------------
  // Create

  /** The entry a create appends: the request's fields under the next id; any id in the request is dropped. */
  function NewBook(s: seq<Book>, req: BookRequest): Book
  {
    FromRequest(req, NextId(s))
  }

  /** The list after a create. */
  function Created(s: seq<Book>, req: BookRequest): seq<Book>
  {
    s + [NewBook(s, req)]
  }

  /** A create keeps the ids increasing. */
  lemma CreatePreservesIncreasing(s: seq<Book>, req: BookRequest)
    requires IdsIncreasing(s)
    ensures IdsIncreasing(Created(s, req))
  {
  }

  /**
   * After a create into a list with increasing ids, the new id finds the new
   * entry and every other id finds what it found before.
   */
  lemma ReadAfterCreate(s: seq<Book>, req: BookRequest, id: int)
    requires IdsIncreasing(s)
    ensures FindById(Created(s, req), id) ==
              if id == NextId(s) then Some(NewBook(s, req)) else FindById(s, id)
  {
  }

  /** A create adds the new entry to the ratings filter when, and only when, it has that rating. */
  lemma FilterAfterCreate(s: seq<Book>, req: BookRequest, rating: int)
    ensures WithRating(Created(s, req), rating) ==
              WithRating(s, rating) + (if req.rating == rating then [NewBook(s, req)] else [])
  {
  }

  // ---------------------------------------------------------------------------
  // Seed data

  /** The six entries the catalogue starts with. */
  function Seed(): (s: seq<Book>)
    ensures IdsIncreasing(s) && NextId(s) == 7
  {
    [ Book(1, "Computer Science Pro", "CodeWithRuby", "A very nice book!", 5),
      Book(2, "Be Fast With FastAPI", "CodeWithRuby", "A great book!", 4),
      Book(3, "Master Endpoints", "CodeWithRuby", "A awesome book!", 5),
      Book(4, "HP1", "Author 1", "Book Description", 3),
      Book(5, "HP2", "Author 2", "Book Description", 1),
      Book(6, "HP3", "Author 3", "Book Description", 2) ]
  }

  /** One create on the seed yields seven entries, the last with id 7. */
  lemma SeedCreateYieldsSeven(req: BookRequest)
    ensures |Created(Seed(), req)| == 7
    ensures Created(Seed(), req)[6] == FromRequest(req, 7)
  {
  }

  /** The example body shown in the request schema is accepted. */
  lemma SchemaExampleAccepted()
    ensures ValidRequest(BookRequest(None, "A new book", "Coding With Ruby", "A new description of a book", 5))
  {
  }

  /** What an accepted body guarantees about each field; in particular a rating of 6 is refused. */
  lemma ValidRequestBounds(req: BookRequest)
    requires ValidRequest(req)
    ensures |req.title| >= 3 && |req.author| >= 2
    ensures 1 <= |req.description| <= 100
    ensures 0 <= req.rating <= 5 && req.rating != 6
  {
  }
}
