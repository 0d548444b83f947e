# Library borrowing service — a Dafny model

This project models the core of a small library REST service:

- the **borrow/return engine** (`controllers/borrow.js`). Members borrow and return books. A borrow runs a fixed chain of checks: the member exists, the member is not penalized, the book exists, the member holds fewer than two loans, a copy is on the shelf, and the date is valid. A return finds the member's loan of the book and deletes it. It penalizes the member for three days when the book comes back more than seven days late.
- the **book controller's logic** (`controllers/book.js`):
  - the stock shown to clients is the stored stock minus the copies on loan;
  - `create` checks for the required fields;
  - `update` and `delete` decide when to answer 404.
- the **error responder** (`config/error-handler.js`). It maps a thrown error to a 400 or a 500 reply.
- the **four exercises** in `test/algorithm.test.js`:
  - `matrixDiagonalSubtraction`
  - `countQuery`
  - `findLongestWordLength`
  - `reverseAlphabet`

Modules and files:

| file | module | models |
|---|---|---|
| `records.dfy` | `Records` | The member, book and loan records. The loan counts the engine and the listing take over the ledger of loans. The loan a return acts on. |
| `error_handler.dfy` | `ErrorHandler` | `handleErrorRes`. |
| `borrowing.dfy` | `Borrowing` | The class `Library`. It holds the member store and the book store as maps and the ledger as a sequence. Its methods `Borrow` and `Return` change them the way the controller's requests do. |
| `borrow_scenario.dfy` | `BorrowScenario` | The borrow tests of `test/borrow.test.js`, replayed against the contracts of `Borrow` and `Return`. |
| `catalogue.dfy` | `Catalogue` | `get_all`, `get_by_id`, `create`, `update` and `delete`. |
| `algorithms.dfy` | `Algorithms` | The four exercises, as loops proved against specification functions. |
| `algorithm_vectors.dfy` | `AlgorithmVectors` | Some of the exercises' test vectors, concluded from the methods' contracts. |

How the model represents the source:

- **Times** are integer milliseconds. Request dates arrive already parsed as `Option<int>`; `None` stands for a date that `Date.parse` rejects. The clock (`new Date()`) is the parameter `now`.
- **Refusals.** A refused request returns `Refused(r)`. Here `r` names the check that failed, and `r.Message()` is the controller's exact message. `Borrowing.RefusalReply` gives the HTTP reply for every refusal:
  - the two lookups throw `TypeError`s, which the error responder answers with 400;
  - the other checks answer 400 directly.
- **Specification of the requests.** `BorrowVerdict` and `ReturnVerdict` give the first check a request fails, in the controller's order. The contracts of `Borrow` and `Return` say what each request does to the stores in terms of these functions.
- **Invariant.** Both requests preserve `Valid()`:
  - each store is keyed by its records' codes;
  - no member holds more than two loans;
  - no book is lent out more often than its stock.

Where the code and its documentation differ, the model follows the code:

- An unknown member or book is answered **400**, not 404. The lookups throw `TypeError`, and the error responder maps every `TypeError` to 400 (`config/error-handler.js:4`).
- `return` looks up the member and the book before testing either, so an unknown member is reported even when the book is also unknown.
- `return` penalizes from the processing time (`new Date()`), not from the returned date.
- The penalty check of `borrow` clears an expired penalty even when a later check then refuses the borrow.

## Model

| member | source | states |
|---|---|---|
| Records.CountLoans | controllers/borrow.js:86-90 | The number of loans matching a member or a book code. It is at most the ledger's length. It is zero exactly when no loan matches. |
| Records.CountAppend | controllers/borrow.js:133-137 | Creating a loan raises by one exactly the member count and the book count it matches. Every other count is unchanged. |
| Records.CountRemove | controllers/borrow.js:233 | Destroying the loan at any position lowers by one exactly the counts it matches. |
| Records.FindLoan | controllers/borrow.js:214-219 | `None` exactly when no loan has both codes. Otherwise the result is the position of the first loan that has both. |
| ErrorHandler.OrElse | config/error-handler.js:10-12 | JavaScript `x \|\| fallback`: the value when it is a non-empty string, the fallback otherwise. |
| ErrorHandler.ErrorName | config/error-handler.js:3 | The name the decision uses. It is the title if truthy, else the name if truthy, else "Error". |
| ErrorHandler.HandleError | config/error-handler.js:2-25 | Every reply is 400 or 500. It is 400 exactly when the name is "TypeError" or the message is exactly "Validation error". A 400 reply takes its status, title and message from the wrapped `original` error when there is one. Its status is that error's code, else "BAD_REQUEST". Its title falls back to `typeof e`, which is "object". A 500 reply is INTERNAL_SERVER_ERROR with the error's own title and message. |
| ErrorHandler.TypeErrorIsBadRequest | controllers/borrow.js:58-60 | A thrown `TypeError(m)` is answered 400 BAD_REQUEST, with title "TypeError" and message `m`. |
| ErrorHandler.PlainErrorIsInternal | config/error-handler.js:4 | A plain `Error(m)` is answered 500 exactly when `m` is not "Validation error". |
| ErrorHandler.WrappedErrorReportsDriverCode | config/error-handler.js:5-14 | For a wrapped validation error, the reply's status and message are the driver error's code and message. |
| Borrowing.Library.Borrow | controllers/borrow.js:53-143 | **Refused:** the result is the first failing check, in the order member, penalty, book, member limit, stock, date, and the ledger is unchanged. **Accepted:** exactly one loan (book, member, date) is appended and returned. **Always:** the book store is unchanged; an expired penalty is cleared, and it is cleared even on a later refusal; `Valid()` is preserved. |
| Borrowing.Library.Return | controllers/borrow.js:188-247 | **Refused:** the result is the first failing check, in the order member, book, date, matching loan, and nothing changes. **Accepted:** the first loan matching both codes is deleted. If it was returned more than seven days after the borrow, the member's penalty expiry becomes `now` plus three days and the receipt carries it. Otherwise no member changes. `Valid()` is preserved. |
| Borrowing.BorrowKeepsConsistency | controllers/borrow.js:86-117 | A loan that passed both limit checks keeps every member at two loans or fewer and every book at its stock or fewer. |
| Borrowing.PenaltyResetKeepsConsistency | controllers/borrow.js:77-79 | Clearing an expired penalty keeps the stores consistent. |
| Borrowing.ReturnKeepsConsistency | controllers/borrow.js:233 | Deleting any loan keeps both limits. |
| Borrowing.ReceiptMentionsPenalty | controllers/borrow.js:223-230 | The return message contains "penalized" exactly when a penalty was set. |
| Borrowing.GraceBoundary | controllers/borrow.js:225 | A return exactly seven days after the borrow is not late. One millisecond more is late. |
| Borrowing.PenaltyWindow | controllers/borrow.js:63-76 | A penalty set by a return processed at time p refuses a borrow as "being penalized" exactly while `now` is before p plus three days. |
| Borrowing.RefusalReply | controllers/borrow.js:57-130 | Every refusal is answered 400 BAD_REQUEST with the refusal's message. The reply carries a title exactly for the two lookups, which go through the error responder. |
| Catalogue.Shown | controllers/book.js:42-43 | A listed book keeps its code, title and author. Its stock is the stored stock minus the number of loans of that book. |
| Catalogue.GetAll | controllers/book.js:40-44 | The listing has one entry per stored row, in order. Each entry is that row with its stock overwritten by the shelf count. |
| Catalogue.GetById | controllers/book.js:72-94 | Found exactly when the code is stored. The found book is the same adjusted record the listing shows. |
| Catalogue.ShownStockNonNegative | controllers/book.js:75-80 | While no book is lent beyond its stock, no listed stock is negative. |
| Catalogue.ShelfHasCopyIffBorrowable | controllers/borrow.js:108 | The stock check of a borrow passes exactly when the listed stock is positive. |
| Catalogue.BorrowLowersShownStock | controllers/book.js:75-80 | A new loan lowers the listed stock of its own book by one. No other book's listed stock changes. |
| Catalogue.ReturnRaisesShownStock | controllers/book.js:75-80 | Deleting a loan raises the listed stock of its own book by one. |
| Catalogue.CheckRequired | controllers/book.js:134-142 | The body is accepted exactly when code, title, author and stock are all truthy. Then the book holds exactly those fields. Otherwise the error is `TypeError("Missing required fields!")`. |
| Catalogue.ZeroStockRejected | controllers/book.js:140 | A stock of 0 counts as missing. |
| Catalogue.CreateStatus | controllers/book.js:132-156 | A missing field is answered 400. A created record is answered 201. An empty result from the store is answered 500. |
| Catalogue.AffectedStatus | controllers/book.js:210-224 | `result === 0` decides 404; every other value decides 200. |
| Catalogue.DeleteNotFoundIffNothingDeleted | controllers/book.js:252-272 | DELETE answers 404 exactly when no row was deleted. |
| Catalogue.UpdateNeverNotFound | controllers/book.js:205-224 | As written, PUT answers 200 whatever the number of rows updated, even 0. |
| Catalogue.UpdateStatus | controllers/book.js:210 | The corrected decision reads the count inside the array the store returns. It answers 404 exactly when that count is 0. |
| Catalogue.UpdateNotFoundIffNothingUpdated | controllers/book.js:205-224 | With the corrected decision, PUT answers 404 exactly when no row matched the code. |
| Algorithms.MatrixDiagonalSubtraction | test/algorithm.test.js:48-56 | The result is the sum of the main diagonal minus the sum of the anti-diagonal. An entry a row does not have counts as 0. |
| Algorithms.Mirror | test/algorithm.test.js:48-56 | The matrix with every row reversed, entry by entry. |
| Algorithms.MirrorSwapsDiagonals | test/algorithm.test.js:51-54 | For a square matrix, mirroring swaps the two diagonal sums. |
| Algorithms.MirrorNegatesDifference | test/algorithm.test.js:48-56 | Mirroring a square matrix negates the result of `matrixDiagonalSubtraction`. |
| Algorithms.OccurrencesIsMultiplicity | test/algorithm.test.js:62-67 | The count of positions holding `x` is the multiplicity of `x` in the input. |
| Algorithms.CountQuery | test/algorithm.test.js:59-71 | The result is as long as the queries. Element i is the number of input positions equal to query i. |
| Algorithms.Words | test/algorithm.test.js:74 | Splitting on single spaces yields at least one piece. |
| Algorithms.WordsSplitAtSpaces | test/algorithm.test.js:74 | No piece contains a space, and joining the pieces with single spaces gives back the string. |
| Algorithms.FindLongestWordLength | test/algorithm.test.js:73-82 | The result is at least the length of every piece and equals the length of some piece. It is 0 when every piece is empty. |
| Algorithms.NonDigits | test/algorithm.test.js:87 | The digit removal is no longer than its input. |
| Algorithms.NonDigitsHasNoDigit | test/algorithm.test.js:87 | No digit survives the removal. |
| Algorithms.Reverse | test/algorithm.test.js:88 | The reversal has the same length, and position k holds the character at `n - 1 - k`. |
| Algorithms.ReverseTwice | test/algorithm.test.js:88 | Reversing twice gives back the string. |
| Algorithms.PlaceLetters | test/algorithm.test.js:89-98 | The loop keeps each digit at its index and fills the other positions with `letters` in order. |
| Algorithms.ReverseAlphabet | test/algorithm.test.js:86-100 | The result has the input's length. Every digit stays at its index. No other position holds a digit. The non-digits, read in order, are the input's non-digits reversed. |
| Algorithms.SameShapeAgree | test/algorithm.test.js:86-100 | Two strings with the same digits at the same places and the same non-digits in the same order are equal. |
| Algorithms.LettersReversedUnique | test/algorithm.test.js:86-100 | Exactly one string satisfies the reverseAlphabet specification. |
| Algorithms.LettersReversedTwice | test/algorithm.test.js:86-100 | Applying `reverseAlphabet` twice gives back the input. |
| AlgorithmVectors.NonDigitsOfInput | test/algorithm.test.js:13 | The digit removal of "A1B2C3" is "ABC". |
| AlgorithmVectors.NonDigitsOfOutput | test/algorithm.test.js:13 | The digit removal of "C1B2A3" is "CBA". |

## Left out

- Concurrency: each request is one atomic step. The controller uses no transaction or lock, so two interleaved borrows can both pass the limit checks. The model does not claim otherwise.
- The ORM and SQL (`findByPk`, `count`, `findAll` with `COUNT`/`GROUP BY`, `save`, `create`, `update`, `destroy`) are not modelled. Each is replaced by:
  - map lookups and updates;
  - counts over the ledger sequence;
  - the values these calls resolve with.
- Date parsing (`Date.parse`, and `Date.parse(new Date())` for a missing date) is not modelled. The requests take the parsed value as `Option<int>`.
- Borrowing.Library.Return: `setDate(getDate() + 3)` is local-calendar arithmetic. It is modelled as `now` plus 3 × 86 400 000 ms, which differs across a daylight-saving change.
- Borrowing.Receipt: the penalty message is modelled only up to " but member is being penalized". The expiry date text and the fractional day count that follow it are left out because they need date formatting and floating-point division.
- Borrowing.Library.Return: when several loans match both codes, `findOne` without an order returns whichever row the database yields. The model takes the first in ledger order.
- Catalogue.GetAll: the source's rows are ORM objects whose `dataValues` are overwritten and whose `borrowedBooksCount` helper is deleted. The model overwrites the stock of each value in a sequence of records that never carried the helper field.
- Catalogue.CreateStatus: the store's `create` is reduced to whether it returned a record. A validation error the store throws is covered by `ErrorHandler.HandleError`, not by this function.
- Catalogue.BookBody: `stock` is an optional integer. A request that sends stock as a string or another JSON type is not modelled.
- The JSON body of each response is not modelled beyond the fields the contracts name. This covers `res.status().json()`, the `data` payloads and the delete message text.
- `controllers/member.js` is not part of this model. It is ORM CRUD whose borrowed count is an SQL aggregate. The member loan count is modelled through the borrow controller.
- Routing, logging, CORS, Swagger, environment and database configuration, and the seeding code of the model files are not modelled.
- Strings are sequences of Dafny characters, not JavaScript's UTF-16 code units. `reverseAlphabet` on text outside the Basic Multilingual Plane therefore differs: the source reverses surrogate halves separately.
- Only one test vector of `countQuery` and `reverseAlphabet` is concluded from the contracts, and none of `findLongestWordLength`. The contracts determine the rest just as fully; evaluating them symbolically is costly.

## Findings

| source | as written | input that shows it | evidently intended | confidence | as-written member | corrected member |
|---|---|---|---|---|---|---|
| controllers/book.js:205-210 | `bookModel.update` resolves to an array `[affectedCount]`, and the handler tests `result === 0`. An array is never `=== 0`, so PUT always answers 200 "OK". | PUT /books with a `code` that no book has: 0 rows are updated, the result is `[0]`, and the answer is 200. | Answer 404 "Data not found!" when no row was updated, as DELETE does. | medium (from the ORM's documented return shape); not executed | Catalogue.UpdateNeverNotFound | Catalogue.UpdateNotFoundIffNothingUpdated |
