/**
 * The Book schema (src/models/book.model.ts): its validators as a pure
 * validity predicate, the pre-save hook that derives `available` from
 * `copies`, the `updateAvailability` instance method, and the collection
 * operations the controllers call (`save`, `findById`, `findByIdAndUpdate`,
 * `findByIdAndDelete`).
 */
module BookModel {
  import opened Types

  /**
   * The schema paths of a book as a request body, a patch or a document
   * carries them; None is a path that is not set.
   */
  datatype BookFields = BookFields(
    title: Option<string>,
    author: Option<string>,
    genre: Option<string>,
    isbn: Option<string>,
    description: Option<string>,
    copies: Option<int>,
    available: Option<bool>)

  /** A stored book document; `id` is its `_id`, `createdAt` its creation timestamp. */
  datatype Book = Book(
    id: BookId,
    title: string,
    author: string,
    genre: string,
    isbn: string,
    description: Option<string>,
    copies: int,
    available: bool,
    createdAt: nat)

  /** The paths that carry validators. */
  datatype Path = Title | Author | Genre | Isbn | Copies

  const AllPaths: set<Path> := {Title, Author, Genre, Isbn, Copies}

  /** A required String path: set and not the empty string. */
  predicate Filled(s: Option<string>) {
    s.Some? && s.value != ""
  }

  /** The validators of one path: required, the Genre enumeration, `min: 0`. */
  predicate PathHolds(f: BookFields, p: Path, genres: set<string>) {
    match p
    case Title => Filled(f.title)
    case Author => Filled(f.author)
    case Genre => Filled(f.genre) && f.genre.value in genres
    case Isbn => Filled(f.isbn)
    case Copies => f.copies.Some? && f.copies.value >= 0
  }

  /** Whether a patch sets the path. */
  predicate Sets(f: BookFields, p: Path) {
    match p
    case Title => f.title.Some?
    case Author => f.author.Some?
    case Genre => f.genre.Some?
    case Isbn => f.isbn.Some?
    case Copies => f.copies.Some?
  }

  predicate Complete(f: BookFields) {
    f.title.Some? && f.author.Some? && f.genre.Some? && f.isbn.Some? && f.copies.Some?
  }

  /** The schema's constraints on a stored record. */
  predicate SchemaValid(b: Book, genres: set<string>) {
    b.title != "" && b.author != "" && b.genre != "" && b.genre in genres && b.isbn != "" && b.copies >= 0
  }

  /** The rule of the pre-save hook. */
  predicate AvailabilityFollowsCopies(b: Book) {
    b.available == (b.copies > 0)
  }

  /**
   * The record a save writes from a document's paths: the pre-save hook has
   * replaced whatever `available` the document held by `copies > 0`.
   */
  function ToBook(id: BookId, f: BookFields, createdAt: nat): Book
    requires Complete(f)
  {
    Book(id, f.title.value, f.author.value, f.genre.value, f.isbn.value,
         f.description, f.copies.value, f.copies.value > 0, createdAt)
  }

  /** The record holds the document's schema paths (all but `available`). */
  predicate Carries(b: Book, f: BookFields) {
    f.title == Some(b.title) && f.author == Some(b.author) && f.genre == Some(b.genre)
    && f.isbn == Some(b.isbn) && f.description == b.description && f.copies == Some(b.copies)
  }

  /** The paths of a document loaded from a stored record. */
  function FieldsOf(b: Book): BookFields {
    BookFields(Some(b.title), Some(b.author), Some(b.genre), Some(b.isbn),
               b.description, Some(b.copies), Some(b.available))
  }

  /** A new document's paths: `available` takes the schema default `true` when unset. */
  function WithDefaults(f: BookFields): BookFields {
    f.(available := Some(f.available.GetOr(true)))
  }

  /** The paths after the pre-save hook (`NaN > 0`, an unset copies, is false). */
  function Hooked(f: BookFields): BookFields {
    f.(available := Some(f.copies.Some? && f.copies.value > 0))
  }

  /** The paths that fail validation on save, as the ValidationError lists them. */
  function Violations(f: BookFields, genres: set<string>): (v: set<Path>)
    ensures v <= AllPaths
    ensures v == {} <==> Complete(f) && SchemaValid(ToBook(0, f, 0), genres)
    ensures f.copies.Some? && f.copies.value < 0 ==> Copies in v
    ensures f.genre.Some? && f.genre.value !in genres ==> Genre in v
    ensures f.title.None? || f.author.None? || f.genre.None? || f.isbn.None? || f.copies.None? ==> v != {}
  {
    var v := set p | p in AllPaths && !PathHolds(f, p, genres);
    assert !PathHolds(f, Title, genres) ==> Title in v;
    assert !PathHolds(f, Author, genres) ==> Author in v;
    assert !PathHolds(f, Genre, genres) ==> Genre in v;
    assert !PathHolds(f, Isbn, genres) ==> Isbn in v;
    assert !PathHolds(f, Copies, genres) ==> Copies in v;
    v
  }

  /** The paths of a patch that fail the update validators (only the paths it sets are checked). */
  function PatchViolations(p: BookFields, genres: set<string>): (v: set<Path>)
    ensures v <= AllPaths
    ensures p.copies.Some? && p.copies.value < 0 ==> Copies in v
    ensures p.genre.Some? && p.genre.value !in genres ==> Genre in v
    ensures p.title.None? && p.author.None? && p.genre.None? && p.isbn.None? && p.copies.None? ==> v == {}
  {
    var v := set q | q in AllPaths && Sets(p, q) && !PathHolds(p, q, genres);
    assert Sets(p, Copies) && !PathHolds(p, Copies, genres) ==> Copies in v;
    assert Sets(p, Genre) && !PathHolds(p, Genre, genres) ==> Genre in v;
    v
  }

  /** No book other than `id` holds this isbn (the unique index). */
  predicate IsbnFree(books: map<BookId, Book>, id: BookId, isbn: string) {
    forall k :: k in books && k != id ==> books[k].isbn != isbn
  }

  /** What the collection guarantees of its contents: keyed by `_id`, schema-valid, unique isbn. */
  predicate StoreValid(books: map<BookId, Book>, genres: set<string>) {
    && (forall k :: k in books ==> books[k].id == k && SchemaValid(books[k], genres))
    && (forall j, k :: j in books && k in books && j != k ==> books[j].isbn != books[k].isbn)
  }

  /** Every stored book obeys the pre-save rule. */
  predicate AvailabilityConsistent(books: map<BookId, Book>) {
    forall k :: k in books ==> AvailabilityFollowsCopies(books[k])
  }

  datatype SaveError = Invalid(paths: set<Path>) | DuplicateKey | DocumentNotFound

  datatype SaveResult = Saved(book: Book) | Rejected(error: SaveError)

  /** `save` of a new document: validate, run the hook, insert (E11000 on a taken `_id` or isbn). */
  function SaveNew(books: map<BookId, Book>, id: BookId, f: BookFields, stamp: nat, genres: set<string>): (r: SaveResult)
    ensures Violations(f, genres) != {} ==> r == Rejected(Invalid(Violations(f, genres)))
    ensures r.Saved? <==> Violations(f, genres) == {} && id !in books && IsbnFree(books, id, f.isbn.value)
    ensures r.Rejected? && Violations(f, genres) == {} ==> r.error == DuplicateKey
    ensures r.Saved? ==> r.book.id == id && r.book.createdAt == stamp && Carries(r.book, f)
    ensures r.Saved? ==> SchemaValid(r.book, genres) && AvailabilityFollowsCopies(r.book)
    ensures r.Saved? && StoreValid(books, genres) ==> StoreValid(books[id := r.book], genres)
  {
    var v := Violations(f, genres);
    if v != {} then Rejected(Invalid(v))
    else if id in books || !IsbnFree(books, id, f.isbn.value) then Rejected(DuplicateKey)
    else Saved(ToBook(id, f, stamp))
  }

  /**
   * `save` of a loaded document: validate, run the hook, write it back
   * (DocumentNotFoundError when it was deleted meanwhile, E11000 on a taken isbn).
   */
  function SaveExisting(books: map<BookId, Book>, id: BookId, f: BookFields, genres: set<string>): (r: SaveResult)
    ensures Violations(f, genres) != {} ==> r == Rejected(Invalid(Violations(f, genres)))
    ensures Violations(f, genres) == {} && id !in books ==> r == Rejected(DocumentNotFound)
    ensures r.Saved? <==> Violations(f, genres) == {} && id in books && IsbnFree(books, id, f.isbn.value)
    ensures r.Saved? ==> r.book.id == id && r.book.createdAt == books[id].createdAt && Carries(r.book, f)
    ensures r.Saved? ==> SchemaValid(r.book, genres) && AvailabilityFollowsCopies(r.book)
    ensures r.Saved? && StoreValid(books, genres) ==> StoreValid(books[id := r.book], genres)
  {
    var v := Violations(f, genres);
    if v != {} then Rejected(Invalid(v))
    else if id !in books then Rejected(DocumentNotFound)
    else if !IsbnFree(books, id, f.isbn.value) then Rejected(DuplicateKey)
    else Saved(ToBook(id, f, books[id].createdAt))
  }

  function SaveBook(books: map<BookId, Book>, id: BookId, isNew: bool, f: BookFields, stamp: nat, genres: set<string>): SaveResult {
    if isNew then SaveNew(books, id, f, stamp, genres) else SaveExisting(books, id, f, genres)
  }

  /** Saving a document again, unchanged, writes the same record (the second `save` of the borrow handler). */
  lemma ResaveUnchanged(books: map<BookId, Book>, id: BookId, f: BookFields, genres: set<string>)
    requires SaveExisting(books, id, f, genres).Saved?
    ensures var b := SaveExisting(books, id, f, genres).book;
      SaveExisting(books[id := b], id, Hooked(f), genres) == Saved(b)
  {
    var b := SaveExisting(books, id, f, genres).book;
    var books' := books[id := b];
    assert Violations(Hooked(f), genres) == Violations(f, genres);
    assert IsbnFree(books', id, f.isbn.value);
  }

  /** `$set` of the paths a patch carries; the pre-save hook does not run. */
  function ApplyPatch(b: Book, p: BookFields): Book {
    b.(title := p.title.GetOr(b.title),
       author := p.author.GetOr(b.author),
       genre := p.genre.GetOr(b.genre),
       isbn := p.isbn.GetOr(b.isbn),
       description := if p.description.Some? then p.description else b.description,
       copies := p.copies.GetOr(b.copies),
       available := p.available.GetOr(b.available))
  }

  /** For a valid record, the update validators accept a patch exactly when the patched record is valid. */
  lemma PatchValidation(b: Book, p: BookFields, genres: set<string>)
    requires SchemaValid(b, genres)
    ensures PatchViolations(p, genres) == {} <==> SchemaValid(ApplyPatch(b, p), genres)
  {
    var v := PatchViolations(p, genres);
    if v == {} {
      assert Title !in v && Author !in v && Genre !in v && Isbn !in v && Copies !in v;
    } else {
      var q :| q in v;
      assert Sets(p, q) && !PathHolds(p, q, genres);
    }
  }

  datatype UpdateResult = Updated(book: Book) | Missing | Refused(error: SaveError)

  /**
   * `findByIdAndUpdate(id, patch, {new: true, runValidators: true})`: the
   * update validators run before the lookup; a taken isbn is refused by the
   * unique index; `available` is not recomputed.
   */
  function UpdateById(books: map<BookId, Book>, id: BookId, p: BookFields, genres: set<string>): (r: UpdateResult)
    ensures PatchViolations(p, genres) != {} ==> r == Refused(Invalid(PatchViolations(p, genres)))
    ensures r.Missing? <==> PatchViolations(p, genres) == {} && id !in books
    ensures r.Updated? <==>
      PatchViolations(p, genres) == {} && id in books && (p.isbn.None? || IsbnFree(books, id, p.isbn.value))
    ensures r.Refused? && PatchViolations(p, genres) == {} ==>
      r.error == DuplicateKey && p.isbn.Some? && !IsbnFree(books, id, p.isbn.value)
    ensures r.Updated? ==> id in books && r.book == ApplyPatch(books[id], p)
    ensures r.Updated? ==> r.book.available == p.available.GetOr(books[id].available)
    ensures r.Updated? && StoreValid(books, genres) ==> StoreValid(books[id := r.book], genres)
  {
    var v := PatchViolations(p, genres);
    if v != {} then Refused(Invalid(v))
    else if id !in books then Missing
    else if p.isbn.Some? && !IsbnFree(books, id, p.isbn.value) then Refused(DuplicateKey)
    else
      var b := ApplyPatch(books[id], p);
      assert StoreValid(books, genres) ==> SchemaValid(b, genres) by {
        if StoreValid(books, genres) { PatchValidation(books[id], p, genres); }
      }
      Updated(b)
  }

  /**
   * A patch that sets only `copies` leaves `available` as it was: setting the
   * copies of an available book to 0 keeps it available.
   */
  lemma {:induction false} UpdateLeavesAvailabilityStale(books: map<BookId, Book>, id: BookId, c: int, genres: set<string>)
    requires StoreValid(books, genres) && id in books && c >= 0
    ensures var r := UpdateById(books, id, BookFields(None, None, None, None, None, Some(c), None), genres);
      r.Updated? && r.book.copies == c && r.book.available == books[id].available
      && (c == 0 && books[id].available ==> !AvailabilityFollowsCopies(r.book))
  {
    var p := BookFields(None, None, None, None, None, Some(c), None);
    assert PatchViolations(p, genres) == {} by {
      assert forall q :: q in AllPaths && Sets(p, q) ==> q == Copies;
    }
  }

  /** A Mongoose document of the Book model, its paths updated in place. */
  class BookDocument {
    const id: BookId
    var isNew: bool
    var title: Option<string>
    var author: Option<string>
    var genre: Option<string>
    var isbn: Option<string>
    var description: Option<string>
    var copies: Option<int>
    var available: bool

    function Fields(): BookFields
      reads this
    {
      BookFields(title, author, genre, isbn, description, copies, Some(available))
    }

    /** `new Book(body)` when `isNew`, otherwise a document loaded from the collection. */
    constructor (id: BookId, isNew: bool, f: BookFields)
      ensures this.id == id && this.isNew == isNew
      ensures Fields() == WithDefaults(f)
    {
      this.id := id;
      this.isNew := isNew;
      title, author, genre, isbn := f.title, f.author, f.genre, f.isbn;
      description, copies := f.description, f.copies;
      available := f.available.GetOr(true);
    }

    /** The pre-save hook: `this.available = this.copies > 0`. */
    method PreSave()
      modifies this`available
      ensures Fields() == Hooked(old(Fields()))
    {
      available := copies.Some? && copies.value > 0;
    }

    /** The `updateAvailability` instance method: recompute `available`, then `save`. */
    method UpdateAvailability(store: BookCollection) returns (r: SaveResult)
      requires store.Valid() && (isNew ==> id < store.nextId)
      modifies this, store
      ensures store.Valid() && store.nextId == old(store.nextId)
      ensures r == SaveBook(old(store.books), id, old(isNew), Hooked(old(Fields())), old(store.clock), store.genres)
      ensures store.books == if r.Saved? then old(store.books)[id := r.book] else old(store.books)
      ensures store.clock == if r.Saved? && old(isNew) then old(store.clock) + 1 else old(store.clock)
      ensures Fields() == Hooked(old(Fields()))
      ensures isNew == (old(isNew) && r.Rejected?)
    {
      available := copies.Some? && copies.value > 0;
      r := store.Save(this);
    }
  }

  /** The `books` collection. `genres` is the Genre enumeration, which is not part of this model. */
  class BookCollection {
    const genres: set<string>
    var books: map<BookId, Book>
    var nextId: nat
    var clock: nat

    ghost predicate Valid()
      reads this
    {
      StoreValid(books, genres) && forall k :: k in books ==> k < nextId
    }

    constructor (genres: set<string>)
      ensures Valid() && this.genres == genres && books == map[]
    {
      this.genres := genres;
      books := map[];
      nextId := 0;
      clock := 0;
    }

    /** `new Book(body)`: a fresh `_id` and the body's paths; nothing is stored yet. */
    method NewDocument(body: BookFields) returns (doc: BookDocument)
      requires Valid()
      modifies this`nextId
      ensures Valid() && nextId == old(nextId) + 1
      ensures fresh(doc) && doc.isNew && doc.id == old(nextId) && doc.id !in books
      ensures doc.Fields() == WithDefaults(body)
    {
      doc := new BookDocument(nextId, true, body);
      nextId := nextId + 1;
    }

    /** `findById`: a fresh document of the stored record, or null. */
    method FindById(id: BookId) returns (doc: BookDocument?)
      ensures id !in books ==> doc == null
      ensures id in books ==>
        doc != null && fresh(doc) && doc.id == id && !doc.isNew && doc.Fields() == FieldsOf(books[id])
    {
      if id in books {
        doc := new BookDocument(id, false, FieldsOf(books[id]));
      } else {
        doc := null;
      }
    }

    /** `document.save()`: validation, the pre-save hook on the document, then the write. */
    method Save(doc: BookDocument) returns (r: SaveResult)
      requires Valid() && (doc.isNew ==> doc.id < nextId)
      modifies this, doc
      ensures Valid() && nextId == old(nextId)
      ensures r == SaveBook(old(books), doc.id, old(doc.isNew), old(doc.Fields()), old(clock), genres)
      ensures books == if r.Saved? then old(books)[doc.id := r.book] else old(books)
      ensures clock == if r.Saved? && old(doc.isNew) then old(clock) + 1 else old(clock)
      ensures doc.Fields() ==
        if Violations(old(doc.Fields()), genres) == {} then Hooked(old(doc.Fields())) else old(doc.Fields())
      ensures doc.isNew == (old(doc.isNew) && r.Rejected?)
    {
      var v := Violations(doc.Fields(), genres);
      if v != {} {
        return Rejected(Invalid(v));
      }
      doc.PreSave();
      var f := doc.Fields();
      if doc.isNew {
        if doc.id in books || !IsbnFree(books, doc.id, f.isbn.value) {
          return Rejected(DuplicateKey);
        }
        var b := ToBook(doc.id, f, clock);
        books := books[doc.id := b];
        clock := clock + 1;
        doc.isNew := false;
        r := Saved(b);
      } else {
        if doc.id !in books {
          return Rejected(DocumentNotFound);
        }
        if !IsbnFree(books, doc.id, f.isbn.value) {
          return Rejected(DuplicateKey);
        }
        var b := ToBook(doc.id, f, books[doc.id].createdAt);
        books := books[doc.id := b];
        r := Saved(b);
      }
    }

    /** `findByIdAndUpdate` with `new: true` and `runValidators: true`. */
    method FindByIdAndUpdate(id: BookId, p: BookFields) returns (r: UpdateResult)
      requires Valid()
      modifies this`books
      ensures Valid()
      ensures r == UpdateById(old(books), id, p, genres)
      ensures books == if r.Updated? then old(books)[id := r.book] else old(books)
    {
      r := UpdateById(books, id, p, genres);
      if r.Updated? {
        books := books[id := r.book];
      }
    }

    /** `findByIdAndDelete`: the removed record, or null when there was none. */
    method FindByIdAndDelete(id: BookId) returns (r: Option<Book>)
      requires Valid()
      modifies this`books
      ensures Valid()
      ensures r == if id in old(books) then Some(old(books)[id]) else None
      ensures books == old(books) - {id}
    {
      r := if id in books then Some(books[id]) else None;
      books := books - {id};
    }
  }
}
