/**
 * The Borrow schema (src/models/borrow.model.ts): three required paths and
 * `quantity >= 1`, and the `borrows` collection that an insert appends to.
 * There is no unique index, so any number of records may name one book.
 */
module BorrowModel {
  import opened Types

  /** The paths given to `new Borrow({ book, quantity, dueDate })`; None is undefined. */
  datatype BorrowFields = BorrowFields(book: Option<BookId>, quantity: Option<int>, dueDate: Option<Date>)

  /** A stored borrow record. */
  datatype Borrow = Borrow(book: BookId, quantity: int, dueDate: Date)

  datatype BorrowPath = BookRef | Quantity | DueDate

  /** The paths that fail validation: a missing path, or a quantity below `min: 1`. */
  function BorrowViolations(f: BorrowFields): (v: set<BorrowPath>)
    ensures v == {} <==> f.book.Some? && f.quantity.Some? && f.quantity.value >= 1 && f.dueDate.Some?
    ensures f.quantity.Some? && f.quantity.value < 1 ==> Quantity in v
  {
    (if f.book.None? then {BookRef} else {})
    + (if f.quantity.None? || f.quantity.value < 1 then {Quantity} else {})
    + (if f.dueDate.None? then {DueDate} else {})
  }

  /** Validation of a new Borrow document: the record it stores, or the paths that fail. */
  function ValidateBorrow(f: BorrowFields): (r: Result<Borrow, set<BorrowPath>>)
    ensures r.Success? <==> BorrowViolations(f) == {}
    ensures r.Failure? ==> r.error == BorrowViolations(f) && r.error != {}
    ensures r.Success? ==>
      Some(r.value.book) == f.book && Some(r.value.quantity) == f.quantity
      && Some(r.value.dueDate) == f.dueDate && r.value.quantity >= 1
  {
    var v := BorrowViolations(f);
    if v != {} then Failure(v) else Success(Borrow(f.book.value, f.quantity.value, f.dueDate.value))
  }

  /** Every stored record passed validation. */
  predicate BorrowsValid(records: seq<Borrow>) {
    forall i :: 0 <= i < |records| ==> records[i].quantity >= 1
  }

  /** The `borrows` collection, in insertion order. */
  class BorrowCollection {
    var records: seq<Borrow>

    ghost predicate Valid()
      reads this
    {
      BorrowsValid(records)
    }

    constructor ()
      ensures Valid() && records == []
    {
      records := [];
    }

    /** `new Borrow(fields).save()`: validate, then append exactly one record. */
    method Insert(f: BorrowFields) returns (r: Result<Borrow, set<BorrowPath>>)
      requires Valid()
      modifies this
      ensures Valid()
      ensures r == ValidateBorrow(f)
      ensures records == if r.Success? then old(records) + [r.value] else old(records)
    {
      r := ValidateBorrow(f);
      if r.Success? {
        records := records + [r.value];
      }
    }
  }
}
