# Library management backend: a Dafny model

This project models the core of a small library-management backend. The backend has two document collections, `books` and `borrows`. It has handlers that create, list, fetch, patch and delete books, a handler that borrows copies of a book, and a handler that summarises how many copies of each book were borrowed. The database is replaced by values:

- the `books` collection is a class holding a map from book id to `Book` record;
- the `borrows` collection is a class holding a sequence of `Borrow` records;
- each handler answers with a `Reply`: the HTTP status, the envelope's message and its data.

Modules, one per source file:

- `Types` (types.dfy): `Option`, `Result`, ids, dates, `Reply`.
- `BookModel` (book_model.dfy): the Book schema.
  - Its validators become `Violations`, the update validators become `PatchViolations`, and `SchemaValid` is the constraint on stored records.
  - `BookDocument` is a Mongoose document whose paths are fields updated in place. Its methods are the pre-save hook (`PreSave`) and `updateAvailability`.
  - `BookCollection` has `save`, `findById`, `findByIdAndUpdate` and `findByIdAndDelete`.
  - Each state-changing method is tied to a pure function (`SaveNew`, `SaveExisting`, `UpdateById`), and the properties are proved about those functions.
- `BorrowModel` (borrow_model.dfy): the Borrow schema (`ValidateBorrow`) and the `borrows` collection.
- `BookController` (book_controller.dfy): the five book handlers. Listing is `Select`, a selection of the first `limit` candidates in sort order.
- `BorrowController` (borrow_controller.dfy): the parts of the borrow handler.
  - `BorrowStep` specifies the whole transaction, and the `BorrowBook` method runs it through documents and saves.
  - The summary is `Group` (`$group`/`$sum`) followed by `Summary` (`$lookup`/`$unwind`/`$project`). Both are checked against a reference sum, `TotalBorrowed`.

Behaviours of the code worth knowing, all reproduced by the model:

- `copies` is a required path with no default.
- No handler compares the due date with the current time, so any due date is accepted.
- A PATCH goes through `findByIdAndUpdate`, which skips the pre-save hook. So `available` is not recomputed from the new `copies`, and a patch may set `available` directly.
- The list handler has filter, sort and limit only. There is no paging.
- The borrow transaction is not atomic. The book is saved before the Borrow record is validated. A request with `quantity < 1` or without a `dueDate` therefore gets 400 "Borrow failed", but the book's new copies stay stored (`BorrowStep`, its second-to-last ensures group).
- Update validators run before the lookup. A patch that fails them gets 400 even when the id is absent.
- A patch that gives a book another book's isbn is refused by the unique index (400).
- A borrow without `quantity` compares `copies < undefined`, which is false. It then computes `copies - undefined`, which is NaN. The Number path refuses NaN at save, so the reply is 400 "Borrow failed" and nothing changes.
- A borrow without a book id finds no book (404).
- An empty `filter` string is falsy, so it lists every genre.
- `limit=0` means no limit.

## Model

| member | source | states |
|---|---|---|
| `BookModel.Violations` | src/models/book.model.ts:7-12 | No path fails exactly when title, author, genre, isbn and copies are all set and the record satisfies the schema (non-empty strings, genre in the enumeration, copies >= 0); negative copies and an unknown genre are reported; a missing required path fails |
| `BookModel.PatchViolations` | src/controllers/book.controller.ts:78-81 | Update validators check only the paths a patch sets: negative copies and an unknown genre fail, a patch that sets no validated path passes |
| `BookModel.PatchValidation` | src/models/book.model.ts:7-12 | For a valid record, a patch passes the update validators exactly when the patched record satisfies the schema |
| `BookModel.SaveNew` | src/models/book.model.ts:5-22 | Saving a new document succeeds exactly when validation passes and neither its id nor its isbn is taken; failed validation is reported with its paths, a clash as a duplicate key; the stored record carries the document's paths, is schema-valid, keeps the collection valid, and has `available == (copies > 0)` whatever `available` the document held |
| `BookModel.SaveExisting` | src/models/book.model.ts:5-22 | Saving a loaded document succeeds exactly when validation passes, the book still exists and its isbn is free; a deleted book gives DocumentNotFound; the written record keeps its creation time, carries the document's paths and has `available == (copies > 0)` |
| `BookModel.ResaveUnchanged` | src/controllers/borrow.controller.ts:29-30 | The second `save` after `updateAvailability` writes the same record again |
| `BookModel.UpdateById` | src/controllers/book.controller.ts:78-81 | A patch failing the validators is refused with its paths (even for an absent id); a valid patch is Missing exactly when the id is absent and Updated exactly when the id is present and its isbn, if set, is free, a taken isbn being a duplicate key; a success applies the patch, leaves `available` as the patch or the old record gives it (no recomputation) and keeps the collection valid |
| `BookModel.UpdateLeavesAvailabilityStale` | src/models/book.model.ts:19-22 | A patch setting only copies succeeds and keeps the old `available`, so copies 0 on an available book leaves it available, breaking the rule of the pre-save hook |
| `BookModel.BookDocument.constructor` | src/models/book.model.ts:13 | A new document holds the body's paths, with `available` defaulting to true |
| `BookModel.BookDocument.PreSave` | src/models/book.model.ts:19-22 | The hook sets `available` to `copies > 0` and changes no other path |
| `BookModel.BookDocument.UpdateAvailability` | src/models/book.model.ts:25-28 | Sets `available` to `copies > 0`, changing no other path, then saves: the outcome and the new collection are those of a save of the recomputed document |
| `BookModel.BookCollection.NewDocument` | src/controllers/book.controller.ts:11 | `new Book(body)` gets a fresh id that no stored book has, and nothing is stored |
| `BookModel.BookCollection.FindById` | src/controllers/book.controller.ts:52 | A present id yields a fresh, not-new document holding the stored record; an absent one yields null |
| `BookModel.BookCollection.Save` | src/controllers/book.controller.ts:12 | The outcome is that of SaveNew or SaveExisting; only a successful save writes, and it writes exactly the saved record; the hook runs on the document once validation passes; the collection stays valid |
| `BookModel.BookCollection.FindByIdAndUpdate` | src/controllers/book.controller.ts:78-81 | The outcome is UpdateById's and only an update writes, exactly the patched record |
| `BookModel.BookCollection.FindByIdAndDelete` | src/controllers/book.controller.ts:106 | Returns the removed record or null, and removes exactly that id |
| `BorrowModel.BorrowViolations` | src/models/borrow.model.ts:6-8 | No path fails exactly when book, quantity and dueDate are set and quantity >= 1; a quantity below 1 is reported |
| `BorrowModel.ValidateBorrow` | src/models/borrow.model.ts:4-11 | Validation succeeds exactly when no path fails, and the record then holds the given book, quantity and dueDate, with quantity >= 1 |
| `BorrowModel.BorrowCollection.Insert` | src/controllers/borrow.controller.ts:32-33 | A valid record is appended, exactly one, whatever the collection already holds; an invalid one changes nothing |
| `BookController.Select` | src/controllers/book.controller.ts:32-34 | Returns min(n, candidates) stored candidates in strict sort order, and every candidate left out comes after every one returned; with n at least the number of candidates, all are returned |
| `BookController.ListBooks` | src/controllers/book.controller.ts:28-39 | 200 with stored books only, all of the filtered genre (any genre without a filter), at most `limit` (default 10) of them, sorted by `sortBy` (default createdAt), ascending only for `sort=asc`; a matching book is left out only when `limit` books were returned, all before it |
| `BookController.GetBook` | src/controllers/book.controller.ts:50-64 | 200 with the stored record exactly when the id is present, otherwise 404 "Book not found" |
| `BookController.CreateBook` | src/controllers/book.controller.ts:9-24 | 201 with a record that is new, carries the body's paths, is schema-valid and has `available == (copies > 0)`; 400 exactly when validation fails or the isbn is taken, and then the collection is unchanged; an id is used up either way, and the clock advances only on 201 |
| `BookController.UpdateBook` | src/controllers/book.controller.ts:75-100 | 200 with the patched record exactly when the patch passes the validators, the id is present and its isbn is free; 404 exactly when a valid patch names an absent id; 400 exactly when the patch fails the validators or takes another book's isbn; only the 200 case changes the collection, and the id counter and clock never change |
| `BookController.DeleteBook` | src/controllers/book.controller.ts:104-118 | 200 with null data when the id was present, 404 otherwise; exactly that id is removed and every other book is unchanged; the id counter and clock do not change |
| `BorrowController.BorrowStep` | src/controllers/borrow.controller.ts:9-46 | 404 and no change for an unknown or missing book; 400 "Not enough copies" and no change when copies < quantity; 201 exactly when the book exists, 1 <= quantity <= copies and a due date is given, and then copies drop by quantity (staying >= 0), `available` is recomputed and exactly one Borrow(book, quantity, dueDate) is appended; quantity < 1 or no due date gives 400 yet the decremented book stays; the collections stay valid |
| `BorrowController.BorrowBook` | src/controllers/borrow.controller.ts:9-46 | Running the handler through `findById`, the in-place decrement, `updateAvailability`, `save` and the Borrow insert gives exactly BorrowStep's reply and collections |
| `BorrowController.HookInvisible` | src/controllers/borrow.controller.ts:28-29 | Recomputing `available` before a save does not change the save's outcome |
| `BorrowController.Group` | src/controllers/borrow.controller.ts:53-58 | The grouping has a key exactly for each book some borrow names, mapped to the sum of that book's quantities |
| `BorrowController.Summary` | src/controllers/borrow.controller.ts:52-80 | One line (title, isbn, total) for each book that is borrowed and still stored, with the total of its quantities, and no other line |
| `BorrowController.BorrowSummary` | src/controllers/borrow.controller.ts:50-86 | 200 with the summary of the two collections |
| `BorrowController.SummaryTotalsPositive` | src/models/borrow.model.ts:7 | With validated borrows, every summary total is at least 1 |
| `BorrowController.BorrowAddsToTotal` | src/controllers/borrow.controller.ts:32-39 | A successful borrow adds its quantity to its book's total and to no other book's; a failed one changes no total |
| `BorrowController.SummaryAfterDelete` | src/controllers/borrow.controller.ts:59-69 | After a book is deleted its summary line disappears and every other line stays |
| `BorrowController.DueDateNotChecked` | src/controllers/borrow.controller.ts:11-33 | The reply's status does not depend on which due date is given |
| `BorrowController.TwoBorrowsOfOneBook` | src/models/borrow.model.ts:4-11 | Two borrows of one book are both recorded, its copies drop by both quantities and its total grows by both |
| `BorrowController.BorrowThenRefused` | src/controllers/borrow.controller.ts:20-30 | With three copies, a borrow of two succeeds, leaving one available copy, and a second borrow of two gets "Not enough copies" and changes nothing |

## Left out

- Express routing, CORS, the welcome route, dotenv, `mongoose.connect` and `listen` (src/app.ts, src/server.ts): configuration and I/O.
- The envelope's `success` flag and `error` payload (`error.errors || error.message`). Replies keep the status, the message and the data.
- The 500 replies of list, get by id, delete and summary. They happen only when storage fails, which the model does not have.
- Malformed ids. Ids are naturals, so there is no CastError: no 500 from get and delete, no 400 from a patch, and no 400 "Borrow failed" from a borrow whose `book` is not an ObjectId (src/controllers/borrow.controller.ts:12, caught at 40-46).
- ObjectId generation and timestamps. Ids come from a counter. `createdAt` comes from a second counter. `updatedAt` is not modelled.
- Values of the wrong type in a body: strings coerced to numbers, `null` paths, `$unset`, non-integer copies and quantities, and an `_id` supplied in a body. Paths are either absent or a value of their own type.
- The concrete Genre enumeration (src/interfaces/books.interface is not part of this model). It is the `genres` set of the collection.
- `sortBy` fields other than `createdAt` and `copies`, and negative or non-numeric limits.
- ListBooks: books with equal sort keys are ordered by id. The database leaves that order open.
- The order of the summary lines, which the database decides. The summary is a set.
- The post-save `console.log` of the Borrow model.
- Concurrent requests, including two borrows racing on one book. The model is sequential.
- BookCollection.Save: a save of a loaded document writes the whole record, where Mongoose sets only the modified paths. Without concurrency the two are the same.
