/**
 * The book handlers (src/controllers/book.controller.ts): create, list,
 * get by id, update and delete, each answering with a status, the envelope's
 * message and its data. Create, update and delete write to the collection;
 * list and get by id only read it.
 */
module BookController {
  import opened Types
  import opened BookModel

  /** The `sortBy` fields this model knows. */
  datatype SortKey = ByCreatedAt | ByCopies

  /** The query string of `GET /books`; None is a parameter that is absent. */
  datatype ListQuery = ListQuery(filter: Option<string>, sortBy: Option<SortKey>, sort: Option<string>, limit: Option<nat>)

  function KeyOf(b: Book, key: SortKey): int {
    match key
    case ByCreatedAt => b.createdAt
    case ByCopies => b.copies
  }

  /**
   * `a` is listed before `b`: by the sort key, ascending or descending, and
   * by `_id` among equal keys (the database leaves that order open).
   */
  predicate Before(a: Book, b: Book, key: SortKey, asc: bool) {
    if KeyOf(a, key) != KeyOf(b, key) then
      (if asc then KeyOf(a, key) < KeyOf(b, key) else KeyOf(a, key) > KeyOf(b, key))
    else a.id < b.id
  }

  /** The listing order is a strict total order on books with distinct ids. */
  lemma BeforeOrder(a: Book, b: Book, c: Book, key: SortKey, asc: bool)
    ensures Before(a, b, key, asc) && Before(b, c, key, asc) ==> Before(a, c, key, asc)
    ensures !(Before(a, b, key, asc) && Before(b, a, key, asc))
    ensures a.id != b.id ==> Before(a, b, key, asc) || Before(b, a, key, asc)
  {
  }

  predicate Keyed(books: map<BookId, Book>) {
    forall k :: k in books ==> books[k].id == k
  }

  /** `m` comes before every other candidate. */
  predicate IsFirst(books: map<BookId, Book>, cands: set<BookId>, m: BookId, key: SortKey, asc: bool)
    requires cands <= books.Keys
  {
    m in cands && forall o :: o in cands && o != m ==> Before(books[m], books[o], key, asc)
  }

  /** Any finite set of stored books has a first one in the listing order. */
  lemma {:induction false} FirstExists(books: map<BookId, Book>, cands: set<BookId>, key: SortKey, asc: bool)
    requires cands != {} && cands <= books.Keys && Keyed(books)
    ensures exists m :: IsFirst(books, cands, m, key, asc)
    decreases cands
  {
    var x :| x in cands;
    var rest := cands - {x};
    if rest == {} {
      assert forall o :: o in cands ==> o == x by {
        forall o | o in cands ensures o == x { assert o !in rest; }
      }
      assert IsFirst(books, cands, x, key, asc);
    } else {
      FirstExists(books, rest, key, asc);
      var m :| IsFirst(books, rest, m, key, asc);
      if Before(books[x], books[m], key, asc) {
        forall o | o in cands && o != x
          ensures Before(books[x], books[o], key, asc)
        {
          BeforeOrder(books[x], books[m], books[o], key, asc);
        }
        assert IsFirst(books, cands, x, key, asc);
      } else {
        BeforeOrder(books[m], books[x], books[x], key, asc);
        assert IsFirst(books, cands, m, key, asc);
      }
    }
  }

  /** Whether a listing holds the book with this id. */
  predicate Listed(r: seq<Book>, k: BookId) {
    exists i :: 0 <= i < |r| && r[i].id == k
  }

  /** The first `n` candidates in listing order: `.sort(...).limit(n)`. */
  function Select(books: map<BookId, Book>, cands: set<BookId>, key: SortKey, asc: bool, n: nat): (r: seq<Book>)
    requires cands <= books.Keys && Keyed(books)
    ensures |r| == if n < |cands| then n else |cands|
    ensures forall i :: 0 <= i < |r| ==> r[i].id in cands && books[r[i].id] == r[i]
    ensures forall i, j :: 0 <= i < j < |r| ==> Before(r[i], r[j], key, asc)
    ensures forall k :: k in cands && !Listed(r, k) ==>
      forall i :: 0 <= i < |r| ==> Before(r[i], books[k], key, asc)
    ensures n >= |cands| ==> forall k :: k in cands ==> Listed(r, k)
    decreases n
  {
    if n == 0 || cands == {} then []
    else
      FirstExists(books, cands, key, asc);
      var m :| IsFirst(books, cands, m, key, asc);
      var rest := Select(books, cands - {m}, key, asc, n - 1);
      SelectStep(books, cands, m, rest, key, asc, n);
      [books[m]] + rest
  }

  /** Putting the first candidate in front of the selection from the others keeps Select's contract. */
  lemma SelectStep(books: map<BookId, Book>, cands: set<BookId>, m: BookId, rest: seq<Book>, key: SortKey, asc: bool, n: nat)
    requires cands <= books.Keys && Keyed(books) && n > 0
    requires IsFirst(books, cands, m, key, asc)
    requires |rest| == if n - 1 < |cands - {m}| then n - 1 else |cands - {m}|
    requires forall i :: 0 <= i < |rest| ==> rest[i].id in cands - {m} && books[rest[i].id] == rest[i]
    requires forall i, j :: 0 <= i < j < |rest| ==> Before(rest[i], rest[j], key, asc)
    requires forall k :: k in cands - {m} && !Listed(rest, k) ==>
      forall i :: 0 <= i < |rest| ==> Before(rest[i], books[k], key, asc)
    requires n - 1 >= |cands - {m}| ==> forall k :: k in cands - {m} ==> Listed(rest, k)
    ensures var r := [books[m]] + rest;
      && |r| == (if n < |cands| then n else |cands|)
      && (forall i :: 0 <= i < |r| ==> r[i].id in cands && books[r[i].id] == r[i])
      && (forall i, j :: 0 <= i < j < |r| ==> Before(r[i], r[j], key, asc))
      && (forall k :: k in cands && !Listed(r, k) ==> forall i :: 0 <= i < |r| ==> Before(r[i], books[k], key, asc))
      && (n >= |cands| ==> forall k :: k in cands ==> Listed(r, k))
  {
    var r := [books[m]] + rest;
    assert |cands - {m}| == |cands| - 1;
    assert forall i :: 1 <= i < |r| ==> r[i] == rest[i - 1];
    assert Listed(r, m) by { assert r[0].id == m; }
    forall k | k in cands - {m} && Listed(rest, k)
      ensures Listed(r, k)
    {
      var i :| 0 <= i < |rest| && rest[i].id == k;
      assert r[i + 1].id == k;
    }
    forall k | k in cands && !Listed(r, k)
      ensures forall i :: 0 <= i < |r| ==> Before(r[i], books[k], key, asc)
    {
      assert k != m && !Listed(rest, k);
    }
  }

  /** `filter ? { genre: filter } : {}`: an absent or empty filter matches every book. */
  predicate Matches(b: Book, filter: Option<string>) {
    filter.None? || filter.value == "" || b.genre == filter.value
  }

  /** `limit` defaults to 10; 0 means no limit. */
  function Limit(q: ListQuery): nat {
    q.limit.GetOr(10)
  }

  /** Only `sort=asc` sorts ascending; any other value, or none, sorts descending. */
  predicate Ascending(q: ListQuery) {
    q.sort == Some("asc")
  }

  /** `sortBy` defaults to `createdAt`. */
  function SortKeyOf(q: ListQuery): SortKey {
    q.sortBy.GetOr(ByCreatedAt)
  }

  /** `GET /books`: `Book.find(query).sort(...).limit(...)`. */
  function ListBooks(c: BookCollection, q: ListQuery): (r: Reply<seq<Book>>)
    reads c
    requires c.Valid()
    ensures r.status == 200 && r.message == "Books retrieved successfully" && r.data.Some?
    ensures forall i :: 0 <= i < |r.data.value| ==>
      r.data.value[i].id in c.books && c.books[r.data.value[i].id] == r.data.value[i]
      && Matches(r.data.value[i], q.filter)
    ensures Limit(q) > 0 ==> |r.data.value| <= Limit(q)
    ensures forall i, j :: 0 <= i < j < |r.data.value| ==>
      Before(r.data.value[i], r.data.value[j], SortKeyOf(q), Ascending(q))
    ensures forall k :: k in c.books && Matches(c.books[k], q.filter) && !Listed(r.data.value, k) ==>
      Limit(q) > 0 && |r.data.value| == Limit(q)
      && forall i :: 0 <= i < |r.data.value| ==> Before(r.data.value[i], c.books[k], SortKeyOf(q), Ascending(q))
  {
    var cands := set k | k in c.books && Matches(c.books[k], q.filter);
    var n := if Limit(q) == 0 then |cands| else Limit(q);
    var found := Select(c.books, cands, SortKeyOf(q), Ascending(q), n);
    Reply(200, "Books retrieved successfully", Some(found))
  }

  /** `GET /books/:bookId`. */
  function GetBook(c: BookCollection, id: BookId): (r: Reply<Book>)
    reads c
    ensures r.status == 200 <==> id in c.books
    ensures r.status == 200 ==> r.message == "Book retrieved successfully" && r.data == Some(c.books[id])
    ensures r.status != 200 ==> r == Reply(404, "Book not found", None)
  {
    if id in c.books then Reply(200, "Book retrieved successfully", Some(c.books[id]))
    else Reply(404, "Book not found", None)
  }

  /** `POST /books`: `new Book(req.body).save()`. */
  method CreateBook(c: BookCollection, body: BookFields) returns (r: Reply<Book>)
    requires c.Valid()
    modifies c
    ensures c.Valid()
    ensures var s := SaveNew(old(c.books), old(c.nextId), WithDefaults(body), old(c.clock), c.genres);
      && (s.Saved? ==> r == Reply(201, "Book created successfully", Some(s.book)) && c.books == old(c.books)[s.book.id := s.book])
      && (s.Rejected? ==> r == Reply(400, "Validation failed", None) && c.books == old(c.books))
    ensures r.status == 201 ==>
      r.data.Some? && r.data.value.id !in old(c.books) && Carries(r.data.value, body)
      && AvailabilityFollowsCopies(r.data.value) && SchemaValid(r.data.value, c.genres)
    ensures r.status == 400 <==>
      Violations(body, c.genres) != {} || !IsbnFree(old(c.books), old(c.nextId), body.isbn.value)
    ensures c.nextId == old(c.nextId) + 1
    ensures c.clock == if r.status == 201 then old(c.clock) + 1 else old(c.clock)
  {
    var doc := c.NewDocument(body);
    var s := c.Save(doc);
    if s.Saved? {
      r := Reply(201, "Book created successfully", Some(s.book));
    } else {
      r := Reply(400, "Validation failed", None);
    }
  }

  /** `PATCH /books/:bookId`: `findByIdAndUpdate` with validators and no pre-save hook. */
  method UpdateBook(c: BookCollection, id: BookId, patch: BookFields) returns (r: Reply<Book>)
    requires c.Valid()
    modifies c
    ensures c.Valid()
    ensures var u := UpdateById(old(c.books), id, patch, c.genres);
      && (u.Updated? ==> r == Reply(200, "Book updated successfully", Some(u.book)) && c.books == old(c.books)[id := u.book])
      && (u.Missing? ==> r == Reply(404, "Book not found", None) && c.books == old(c.books))
      && (u.Refused? ==> r == Reply(400, "Validation failed", None) && c.books == old(c.books))
    ensures r.status == 200 <==>
      PatchViolations(patch, c.genres) == {} && id in old(c.books)
      && (patch.isbn.None? || IsbnFree(old(c.books), id, patch.isbn.value))
    ensures r.status == 404 <==> PatchViolations(patch, c.genres) == {} && id !in old(c.books)
    ensures r.status == 400 <==>
      PatchViolations(patch, c.genres) != {}
      || (id in old(c.books) && patch.isbn.Some? && !IsbnFree(old(c.books), id, patch.isbn.value))
    ensures c.nextId == old(c.nextId) && c.clock == old(c.clock)
  {
    var u := c.FindByIdAndUpdate(id, patch);
    match u
    case Updated(b) => r := Reply(200, "Book updated successfully", Some(b));
    case Missing => r := Reply(404, "Book not found", None);
    case Refused(_) => r := Reply(400, "Validation failed", None);
  }

  /** `DELETE /books/:bookId`: the data is always null. */
  method DeleteBook(c: BookCollection, id: BookId) returns (r: Reply<Book>)
    requires c.Valid()
    modifies c
    ensures c.Valid()
    ensures r == if id in old(c.books) then Reply(200, "Book deleted successfully", None)
                 else Reply(404, "Book not found", None)
    ensures c.books == old(c.books) - {id}
    ensures c.nextId == old(c.nextId) && c.clock == old(c.clock)
  {
    var removed := c.FindByIdAndDelete(id);
    if removed.None? {
      r := Reply(404, "Book not found", None);
    } else {
      r := Reply(200, "Book deleted successfully", None);
    }
  }
}
