/** The book controller (controllers/book.js): listing with the stock that is
    still on the shelf, lookup by code, the required-field check of `create`
    and the 404 decision of `update` and `delete`. */
module Catalogue {
  import opened Records
  import ErrorHandler

  /** A stored book as the listing shows it: the same fields, with the
      copies on loan taken off its stock. */
  function Shown(b: Book, loans: seq<Loan>): (v: Book)
    ensures v.code == b.code && v.title == b.title && v.author == b.author
    ensures v.stock == b.stock - CountLoans(loans, ByBook(b.code))
  {
    b.(stock := b.stock - CountLoans(loans, ByBook(b.code)))
  }

  /** GET /books: `rows` are the stored books in the order the store lists
      them; each row's stock is overwritten in turn with what is on the shelf. */
  method GetAll(rows: seq<Book>, loans: seq<Loan>) returns (shown: seq<Book>)
    ensures |shown| == |rows|
    ensures forall i :: 0 <= i < |rows| ==> shown[i] == Shown(rows[i], loans)
  {
    shown := rows;
    var i := 0;
    while i < |shown|
      invariant 0 <= i <= |shown| == |rows|
      invariant forall j :: 0 <= j < i ==> shown[j] == Shown(rows[j], loans)
      invariant forall j :: i <= j < |rows| ==> shown[j] == rows[j]
    {
      shown := shown[i := shown[i].(stock := shown[i].stock - CountLoans(loans, ByBook(shown[i].code)))];
      i := i + 1;
    }
  }

  datatype Lookup = Found(book: Book) | DataNotFound

  /** GET /books/{code}: the same adjusted record as the listing, or 404 "Data not found!". */
  function GetById(books: map<Code, Book>, loans: seq<Loan>, code: Code): (r: Lookup)
    ensures r.Found? <==> code in books
    ensures r.Found? ==> r.book == Shown(books[code], loans)
  {
    if code in books then Found(Shown(books[code], loans)) else DataNotFound
  }

  /** While no book is lent out beyond its stock, no listed stock is negative. */
  lemma ShownStockNonNegative(b: Book, loans: seq<Loan>)
    requires CountLoans(loans, ByBook(b.code)) <= b.stock
    ensures Shown(b, loans).stock >= 0
  {
  }

  /** The borrow's stock check passes exactly when the listed stock is positive. */
  lemma ShelfHasCopyIffBorrowable(b: Book, loans: seq<Loan>)
    ensures Shown(b, loans).stock > 0 <==> CountLoans(loans, ByBook(b.code)) < b.stock
  {
  }

  /** A new loan lowers the listed stock of its book by one and of no other book. */
  lemma BorrowLowersShownStock(b: Book, loans: seq<Loan>, l: Loan)
    ensures Shown(b, loans + [l]).stock == Shown(b, loans).stock - (if l.bookCode == b.code then 1 else 0)
  {
    CountAppend(loans, l, ByBook(b.code));
  }

  /** Deleting a loan raises the listed stock of its book by one and of no other book. */
  lemma ReturnRaisesShownStock(b: Book, loans: seq<Loan>, k: nat)
    requires k < |loans|
    ensures Shown(b, loans[..k] + loans[k + 1..]).stock
            == Shown(b, loans).stock + (if loans[k].bookCode == b.code then 1 else 0)
  {
    CountRemove(loans, k, ByBook(b.code));
  }

  /** The fields of a create request; a field the body leaves out is None. */
  datatype BookBody = BookBody(code: Option<string>, title: Option<string>, author: Option<string>, stock: Option<int>)

  /** JavaScript truthiness of an optional number: present and not 0. */
  predicate NumberTruthy(n: Option<int>) {
    n.Some? && n.value != 0
  }

  predicate Complete(body: BookBody) {
    ErrorHandler.Truthy(body.code) && ErrorHandler.Truthy(body.title)
    && ErrorHandler.Truthy(body.author) && NumberTruthy(body.stock)
  }

  datatype Checked = Accepted(book: Book) | Rejected(error: ErrorHandler.JsError)

  /** The required-field check of POST /books. */
  function CheckRequired(body: BookBody): (r: Checked)
    ensures r.Accepted? <==> Complete(body)
    ensures r.Rejected? ==> r.error == ErrorHandler.TypeErrorOf("Missing required fields!")
    ensures r.Accepted? ==>
              r.book == Book(body.code.value, body.title.value, body.author.value, body.stock.value)
  {
    if !Complete(body) then Rejected(ErrorHandler.TypeErrorOf("Missing required fields!"))
    else Accepted(Book(body.code.value, body.title.value, body.author.value, body.stock.value))
  }

  /** A stock of 0 is a missing field. */
  lemma ZeroStockRejected(body: BookBody)
    requires body.stock == Some(0)
    ensures CheckRequired(body).Rejected?
  {
  }

  /** The status POST /books answers with; `created` says whether the store returned a record. */
  function CreateStatus(body: BookBody, created: bool): (status: int)
    ensures !Complete(body) ==> status == 400
    ensures Complete(body) && created ==> status == 201
    ensures Complete(body) && !created ==> status == 500
  {
    match CheckRequired(body)
    case Rejected(e) => ErrorHandler.HandleError(e).httpStatus
    case Accepted(_) =>
      if created then 201 else ErrorHandler.HandleError(ErrorHandler.ErrorOf("Failed to create data!")).httpStatus
  }

  /** The values the store's update and destroy calls resolve with. */
  datatype JsValue = JsNumber(n: int) | JsArray(items: seq<JsValue>)

  /** `result === 0 ? 404 : 200`, as both handlers decide. */
  function AffectedStatus(result: JsValue): (status: int)
    ensures status == 404 <==> result == JsNumber(0)
    ensures status == 200 <==> result != JsNumber(0)
  {
    if result == JsNumber(0) then 404 else 200
  }

  /** Destroy resolves with the number of rows deleted. */
  function DestroyResult(deleted: nat): JsValue {
    JsNumber(deleted)
  }

  /** Update resolves with a one-element array holding the number of rows changed. */
  function UpdateResult(affected: nat): JsValue {
    JsArray([JsNumber(affected)])
  }

  /** DELETE /books/{code} answers 404 exactly when no row was deleted. */
  lemma DeleteNotFoundIffNothingDeleted(deleted: nat)
    ensures AffectedStatus(DestroyResult(deleted)) == 404 <==> deleted == 0
  {
  }

  /** As written, PUT /books answers 200 even when no row matched the code. */
  lemma UpdateNeverNotFound(affected: nat)
    ensures AffectedStatus(UpdateResult(affected)) == 200
  {
  }

  /** The evidently intended decision: look at the count inside the array. */
  function UpdateStatus(result: JsValue): (status: int)
    ensures result.JsArray? && |result.items| > 0 ==>
              (status == 404 <==> result.items[0] == JsNumber(0))
  {
    if result.JsArray? && |result.items| > 0 then AffectedStatus(result.items[0])
    else AffectedStatus(result)
  }

  /** With the corrected decision, PUT /books answers 404 exactly when no row matched. */
  lemma UpdateNotFoundIffNothingUpdated(affected: nat)
    ensures UpdateStatus(UpdateResult(affected)) == 404 <==> affected == 0
  {
  }
}
