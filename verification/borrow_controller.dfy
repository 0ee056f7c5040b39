/**
 * The borrow handlers (src/controllers/borrow.controller.ts): the borrow
 * transaction (look up the book, check its copies, decrement and save it,
 * then insert the Borrow record) and the borrowed-books summary (group the
 * borrows by book, sum their quantities, join the book's title and isbn).
 */
module BorrowController {
  import opened Types
  import opened BookModel
  import opened BorrowModel

  /** The body of `POST /borrow`; None is a field the body lacks. */
  datatype BorrowRequest = BorrowRequest(book: Option<BookId>, quantity: Option<int>, dueDate: Option<Date>)

  /** JavaScript's `copies < quantity`: a comparison with undefined is false. */
  predicate FewerThan(copies: int, quantity: Option<int>) {
    quantity.Some? && copies < quantity.value
  }

  /** JavaScript's `copies - quantity`: with undefined it is NaN, which no Number path accepts (None). */
  function Minus(copies: Option<int>, quantity: Option<int>): Option<int> {
    if copies.Some? && quantity.Some? then Some(copies.value - quantity.value) else None
  }

  const NotFound: Reply<Borrow> := Reply(404, "Book not found", None)
  const NotEnough: Reply<Borrow> := Reply(400, "Not enough copies available", None)
  const BorrowFailed: Reply<Borrow> := Reply(400, "Borrow failed", None)

  /** The reply and the two collections after a borrow request. */
  datatype BorrowOutcome = BorrowOutcome(reply: Reply<Borrow>, books: map<BookId, Book>, borrows: seq<Borrow>)

  /** The book's document paths after `book.copies -= quantity`. */
  function Charged(b: Book, quantity: Option<int>): BookFields {
    FieldsOf(b).(copies := Minus(Some(b.copies), quantity))
  }

  /** The book after a decrement by `q` and the availability rule. */
  function Decremented(b: Book, q: int): Book {
    b.(copies := b.copies - q, available := b.copies - q > 0)
  }

  predicate Found(books: map<BookId, Book>, req: BorrowRequest) {
    req.book.Some? && req.book.value in books
  }

  /**
   * The borrow transaction on the two collections: existence, then
   * sufficiency, then the book is saved, and only then is the Borrow record
   * validated and inserted. The two writes are not atomic.
   */
  function BorrowStep(books: map<BookId, Book>, borrows: seq<Borrow>, req: BorrowRequest, genres: set<string>): (o: BorrowOutcome)
    requires StoreValid(books, genres)
    ensures !Found(books, req) ==> o == BorrowOutcome(NotFound, books, borrows)
    ensures Found(books, req) && FewerThan(books[req.book.value].copies, req.quantity) ==>
      o == BorrowOutcome(NotEnough, books, borrows)
    ensures Found(books, req) && req.quantity.None? ==> o == BorrowOutcome(BorrowFailed, books, borrows)
    ensures o.reply.status == 201 <==>
      Found(books, req) && req.quantity.Some? && 1 <= req.quantity.value <= books[req.book.value].copies
      && req.dueDate.Some?
    ensures o.reply.status == 201 ==>
      var id, q := req.book.value, req.quantity.value;
      var rec := Borrow(id, q, req.dueDate.value);
      && o.books == books[id := Decremented(books[id], q)]
      && o.books[id].copies >= 0
      && o.borrows == borrows + [rec]
      && o.reply == Reply(201, "Book borrowed successfully", Some(rec))
    ensures (Found(books, req) && req.quantity.Some? && !FewerThan(books[req.book.value].copies, req.quantity)
             && (req.quantity.value < 1 || req.dueDate.None?)) ==>
      var id := req.book.value;
      o == BorrowOutcome(BorrowFailed, books[id := Decremented(books[id], req.quantity.value)], borrows)
    ensures o.reply.status in {201, 400, 404}
    ensures StoreValid(o.books, genres) && o.books.Keys == books.Keys
    ensures AvailabilityConsistent(books) ==> AvailabilityConsistent(o.books)
    ensures BorrowsValid(borrows) ==> BorrowsValid(o.borrows)
  {
    if !Found(books, req) then BorrowOutcome(NotFound, books, borrows)
    else
      var id := req.book.value;
      var b := books[id];
      if FewerThan(b.copies, req.quantity) then BorrowOutcome(NotEnough, books, borrows)
      else
        match SaveExisting(books, id, Charged(b, req.quantity), genres)
        case Rejected(_) => BorrowOutcome(BorrowFailed, books, borrows)
        case Saved(nb) =>
          var books' := books[id := nb];
          match ValidateBorrow(BorrowFields(req.book, req.quantity, req.dueDate))
          case Failure(_) => BorrowOutcome(BorrowFailed, books', borrows)
          case Success(rec) => BorrowOutcome(Reply(201, "Book borrowed successfully", Some(rec)), books', borrows + [rec])
  }

  /** The pre-save hook is invisible to a save's outcome: the save runs it again. */
  lemma HookInvisible(books: map<BookId, Book>, id: BookId, f: BookFields, genres: set<string>)
    ensures SaveExisting(books, id, Hooked(f), genres) == SaveExisting(books, id, f, genres)
  {
    assert Violations(Hooked(f), genres) == Violations(f, genres);
  }

  /** `POST /borrow`. */
  method BorrowBook(bc: BookCollection, rc: BorrowCollection, req: BorrowRequest) returns (r: Reply<Borrow>)
    requires bc.Valid() && rc.Valid()
    modifies bc, rc
    ensures bc.Valid() && rc.Valid()
    ensures bc.nextId == old(bc.nextId) && bc.clock == old(bc.clock)
    ensures var o := BorrowStep(old(bc.books), old(rc.records), req, bc.genres);
      r == o.reply && bc.books == o.books && rc.records == o.borrows
  {
    if req.book.None? {
      // findById(undefined) finds no document
      return NotFound;
    }
    var doc := bc.FindById(req.book.value);
    if doc == null {
      return NotFound;
    }
    ghost var books0 := bc.books;
    ghost var b := books0[doc.id];
    if FewerThan(doc.copies.value, req.quantity) {
      return NotEnough;
    }
    doc.copies := Minus(doc.copies, req.quantity);
    ghost var f := Charged(b, req.quantity);
    ghost var s := SaveExisting(books0, doc.id, f, bc.genres);
    assert doc.Fields() == f;
    var saved := doc.UpdateAvailability(bc);
    HookInvisible(books0, doc.id, f, bc.genres);
    assert saved == s;
    if saved.Rejected? {
      return BorrowFailed;
    }
    ghost var books1 := bc.books;
    assert books1 == books0[doc.id := s.book];
    ResaveUnchanged(books0, doc.id, f, bc.genres);
    saved := bc.Save(doc);
    assert bc.books == books1;
    if saved.Rejected? {
      return BorrowFailed;
    }
    var rec := rc.Insert(BorrowFields(req.book, req.quantity, req.dueDate));
    if rec.Failure? {
      return BorrowFailed;
    }
    r := Reply(201, "Book borrowed successfully", Some(rec.value));
  }

  /** The sum of the quantities of the borrows of one book: the reference for `$sum`. */
  function TotalBorrowed(borrows: seq<Borrow>, id: BookId): int {
    if borrows == [] then 0
    else (if borrows[0].book == id then borrows[0].quantity else 0) + TotalBorrowed(borrows[1..], id)
  }

  predicate BorrowedAny(borrows: seq<Borrow>, id: BookId) {
    exists i :: 0 <= i < |borrows| && borrows[i].book == id
  }

  lemma {:induction false} TotalBorrowedSnoc(borrows: seq<Borrow>, b: Borrow, id: BookId)
    ensures TotalBorrowed(borrows + [b], id) == TotalBorrowed(borrows, id) + (if b.book == id then b.quantity else 0)
    decreases |borrows|
  {
    if borrows == [] {
      assert [b][1..] == [];
    } else {
      assert (borrows + [b])[1..] == borrows[1..] + [b];
      TotalBorrowedSnoc(borrows[1..], b, id);
    }
  }

  lemma {:induction false} TotalBorrowedAbsent(borrows: seq<Borrow>, id: BookId)
    requires !BorrowedAny(borrows, id)
    ensures TotalBorrowed(borrows, id) == 0
    decreases |borrows|
  {
    if borrows != [] {
      var tail := borrows[1..];
      assert !BorrowedAny(tail, id) by {
        forall i | 0 <= i < |tail| ensures tail[i].book != id {
          assert tail[i] == borrows[i + 1];
        }
      }
      assert borrows[0].book != id;
      TotalBorrowedAbsent(tail, id);
    }
  }

  lemma BorrowedAnySnoc(borrows: seq<Borrow>, b: Borrow)
    ensures forall id :: BorrowedAny(borrows + [b], id) <==> BorrowedAny(borrows, id) || b.book == id
  {
    var all := borrows + [b];
    forall id | BorrowedAny(borrows, id) ensures BorrowedAny(all, id) {
      var i :| 0 <= i < |borrows| && borrows[i].book == id;
      assert all[i] == borrows[i];
    }
    assert all[|borrows|] == b;
  }

  /** `$group` by book with `$sum` of quantity, folded over the collection in order. */
  function Group(borrows: seq<Borrow>): (g: map<BookId, int>)
    ensures forall id :: id in g <==> BorrowedAny(borrows, id)
    ensures forall id :: id in g ==> g[id] == TotalBorrowed(borrows, id)
    decreases |borrows|
  {
    if borrows == [] then map[]
    else
      var rest := borrows[..|borrows| - 1];
      var last := borrows[|borrows| - 1];
      var g := Group(rest);
      assert borrows == rest + [last];
      assert last.book !in g ==> TotalBorrowed(rest, last.book) == 0 by {
        if last.book !in g { TotalBorrowedAbsent(rest, last.book); }
      }
      BorrowedAnySnoc(rest, last);
      assert forall id :: TotalBorrowed(borrows, id) == TotalBorrowed(rest, id) + (if last.book == id then last.quantity else 0) by {
        forall id ensures TotalBorrowed(borrows, id) == TotalBorrowed(rest, id) + (if last.book == id then last.quantity else 0) {
          TotalBorrowedSnoc(rest, last, id);
        }
      }
      g[last.book := (if last.book in g then g[last.book] else 0) + last.quantity]
  }

  /** One line of the summary: the `$project` of title, isbn and totalQuantity. */
  datatype SummaryEntry = SummaryEntry(title: string, isbn: string, totalQuantity: int)

  function EntryFor(b: Book, total: int): SummaryEntry {
    SummaryEntry(b.title, b.isbn, total)
  }

  /**
   * The aggregation: group by book, `$lookup` the book, `$unwind` (which drops
   * the groups whose book is gone), project. The order of the lines is left open.
   */
  function Summary(books: map<BookId, Book>, borrows: seq<Borrow>): (s: set<SummaryEntry>)
    ensures forall id :: id in books && BorrowedAny(borrows, id) ==>
      EntryFor(books[id], TotalBorrowed(borrows, id)) in s
    ensures forall e :: e in s ==>
      exists id :: id in books && BorrowedAny(borrows, id) && e == EntryFor(books[id], TotalBorrowed(borrows, id))
  {
    var g := Group(borrows);
    set id | id in g && id in books :: EntryFor(books[id], g[id])
  }

  /** `GET /borrow`. */
  function BorrowSummary(bc: BookCollection, rc: BorrowCollection): (r: Reply<set<SummaryEntry>>)
    reads bc, rc
    ensures r.status == 200 && r.message == "Borrowed books summary retrieved successfully"
    ensures r.data == Some(Summary(bc.books, rc.records))
  {
    Reply(200, "Borrowed books summary retrieved successfully", Some(Summary(bc.books, rc.records)))
  }

  lemma {:induction false} TotalBorrowedPositive(borrows: seq<Borrow>, id: BookId)
    requires BorrowsValid(borrows)
    ensures TotalBorrowed(borrows, id) >= 0
    ensures BorrowedAny(borrows, id) ==> TotalBorrowed(borrows, id) >= 1
    decreases |borrows|
  {
    if borrows != [] {
      var tail := borrows[1..];
      assert BorrowsValid(tail) by {
        forall i | 0 <= i < |tail| ensures tail[i].quantity >= 1 { assert tail[i] == borrows[i + 1]; }
      }
      TotalBorrowedPositive(tail, id);
      if BorrowedAny(borrows, id) && borrows[0].book != id {
        var i :| 0 <= i < |borrows| && borrows[i].book == id;
        assert tail[i - 1].book == id;
      }
      assert borrows[0].quantity >= 1;
    }
  }

  /** With validated borrows, every summary line has a total of at least one. */
  lemma SummaryTotalsPositive(books: map<BookId, Book>, borrows: seq<Borrow>)
    requires BorrowsValid(borrows)
    ensures forall e :: e in Summary(books, borrows) ==> e.totalQuantity >= 1
  {
    forall e | e in Summary(books, borrows) ensures e.totalQuantity >= 1 {
      var id :| id in books && BorrowedAny(borrows, id) && e == EntryFor(books[id], TotalBorrowed(borrows, id));
      TotalBorrowedPositive(borrows, id);
    }
  }

  /**
   * A successful borrow adds its quantity to its book's total and to no
   * other; a failed one adds nothing.
   */
  lemma BorrowAddsToTotal(books: map<BookId, Book>, borrows: seq<Borrow>, req: BorrowRequest, genres: set<string>, other: BookId)
    requires StoreValid(books, genres)
    ensures var o := BorrowStep(books, borrows, req, genres);
      && (o.reply.status == 201 ==>
            TotalBorrowed(o.borrows, req.book.value) == TotalBorrowed(borrows, req.book.value) + req.quantity.value
            && (other != req.book.value ==> TotalBorrowed(o.borrows, other) == TotalBorrowed(borrows, other)))
      && (o.reply.status != 201 ==> TotalBorrowed(o.borrows, other) == TotalBorrowed(borrows, other))
  {
    var o := BorrowStep(books, borrows, req, genres);
    if o.reply.status == 201 {
      var rec := Borrow(req.book.value, req.quantity.value, req.dueDate.value);
      TotalBorrowedSnoc(borrows, rec, req.book.value);
      TotalBorrowedSnoc(borrows, rec, other);
    }
  }

  /** Deleting a book drops its summary line and keeps every other line. */
  lemma SummaryAfterDelete(books: map<BookId, Book>, borrows: seq<Borrow>, id: BookId, genres: set<string>)
    requires StoreValid(books, genres) && id in books
    ensures Summary(books - {id}, borrows) == set e | e in Summary(books, borrows) && e.isbn != books[id].isbn
  {
    var before := Summary(books, borrows);
    var after := Summary(books - {id}, borrows);
    var isbn := books[id].isbn;
    forall e | e in after ensures e in before && e.isbn != isbn {
      var k :| k in books - {id} && BorrowedAny(borrows, k) && e == EntryFor((books - {id})[k], TotalBorrowed(borrows, k));
      assert books[k].isbn != isbn;
    }
    forall e | e in before && e.isbn != isbn ensures e in after {
      var k :| k in books && BorrowedAny(borrows, k) && e == EntryFor(books[k], TotalBorrowed(borrows, k));
      assert k != id;
      assert k in books - {id};
    }
  }

  /** Only the presence of a due date matters: it is never compared with the current time. */
  lemma DueDateNotChecked(books: map<BookId, Book>, borrows: seq<Borrow>, req: BorrowRequest, genres: set<string>, d1: Date, d2: Date)
    requires StoreValid(books, genres)
    ensures BorrowStep(books, borrows, req.(dueDate := Some(d1)), genres).reply.status
         == BorrowStep(books, borrows, req.(dueDate := Some(d2)), genres).reply.status
  {
  }

  /**
   * Borrow records have no unique index: two borrows of one book are both
   * recorded, its copies drop by both quantities and its total grows by both.
   */
  lemma TwoBorrowsOfOneBook(books: map<BookId, Book>, borrows: seq<Borrow>, genres: set<string>,
                            id: BookId, q1: int, q2: int, d1: Date, d2: Date)
    requires StoreValid(books, genres) && id in books
    requires q1 >= 1 && q2 >= 1 && q1 + q2 <= books[id].copies
    ensures var o1 := BorrowStep(books, borrows, BorrowRequest(Some(id), Some(q1), Some(d1)), genres);
      var o2 := BorrowStep(o1.books, o1.borrows, BorrowRequest(Some(id), Some(q2), Some(d2)), genres);
      && o1.reply.status == 201 && o2.reply.status == 201
      && o2.borrows == borrows + [Borrow(id, q1, d1), Borrow(id, q2, d2)]
      && o2.books[id].copies == books[id].copies - q1 - q2
      && TotalBorrowed(o2.borrows, id) == TotalBorrowed(borrows, id) + q1 + q2
  {
    var r1 := BorrowRequest(Some(id), Some(q1), Some(d1));
    var o1 := BorrowStep(books, borrows, r1, genres);
    var r2 := BorrowRequest(Some(id), Some(q2), Some(d2));
    var o2 := BorrowStep(o1.books, o1.borrows, r2, genres);
    BorrowAddsToTotal(books, borrows, r1, genres, id);
    BorrowAddsToTotal(o1.books, o1.borrows, r2, genres, id);
  }

  /**
   * Three copies, a borrow of two, then another borrow of two: the first
   * succeeds and leaves one available copy, the second is refused and
   * leaves that copy in place.
   */
  lemma BorrowThenRefused(books: map<BookId, Book>, borrows: seq<Borrow>, genres: set<string>, id: BookId, d: Date)
    requires StoreValid(books, genres) && id in books && books[id].copies == 3
    ensures var req := BorrowRequest(Some(id), Some(2), Some(d));
      var o1 := BorrowStep(books, borrows, req, genres);
      var o2 := BorrowStep(o1.books, o1.borrows, req, genres);
      && o1.reply.status == 201 && o1.books[id].copies == 1 && o1.books[id].available
      && o2.reply == NotEnough && o2.books == o1.books && o2.borrows == o1.borrows
  {
  }
}
