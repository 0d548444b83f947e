/** The three stored entities (models/member.js, models/book.js,
    models/borrowed_book.js) and the derived loan counts that the borrow
    engine and the book listing compute over the ledger of loans. */
module Records {

  datatype Option<+T> = None | Some(value: T)

  /** A primary key: a member code such as "M001" or a book code such as "JK-45". */
  type Code = string

  /** A member; `penaltyExpired` is the moment (ms) until which borrowing is refused. */
  datatype Member = Member(code: Code, name: string, penaltyExpired: Option<int>)

  /** A book; `stock` is the total number of copies owned. */
  datatype Book = Book(code: Code, title: string, author: string, stock: int)

  /** An active loan, created by a borrow and destroyed by a return. */
  datatype Loan = Loan(bookCode: Code, memberCode: Code, borrowedDate: int)

  /** The column a loan count is scoped by. */
  datatype LoanKey = ByMember(member: Code) | ByBook(book: Code)

  predicate Matches(l: Loan, k: LoanKey) {
    match k
    case ByMember(m) => l.memberCode == m
    case ByBook(b) => l.bookCode == b
  }

  /** The number of loans in the ledger matching `k`. */
  function CountLoans(loans: seq<Loan>, k: LoanKey): (n: nat)
    ensures n <= |loans|
    ensures n == 0 <==> forall i :: 0 <= i < |loans| ==> !Matches(loans[i], k)
  {
    if loans == [] then 0
    else CountLoans(loans[..|loans| - 1], k) + (if Matches(loans[|loans| - 1], k) then 1 else 0)
  }

  /** Appending one loan raises exactly the counts it matches, by one. */
  lemma CountAppend(loans: seq<Loan>, l: Loan, k: LoanKey)
    ensures CountLoans(loans + [l], k) == CountLoans(loans, k) + (if Matches(l, k) then 1 else 0)
  {
    assert (loans + [l])[..|loans|] == loans;
  }

  /** Deleting the last element is dropping it. */
  lemma RemoveLast<T>(xs: seq<T>)
    requires |xs| > 0
    ensures xs[..|xs| - 1] + xs[|xs|..] == xs[..|xs| - 1]
  {
  }

  /** Deleting an element before the last commutes with dropping the last. */
  lemma RemoveBeforeLast<T>(xs: seq<T>, i: nat)
    requires i < |xs| - 1
    ensures xs[..i] + xs[i + 1..] == (xs[..|xs| - 1][..i] + xs[..|xs| - 1][i + 1..]) + [xs[|xs| - 1]]
  {
  }

  /** Deleting the loan at `i` lowers exactly the counts it matches, by one. */
  lemma {:induction false} CountRemove(loans: seq<Loan>, i: nat, k: LoanKey)
    requires i < |loans|
    ensures CountLoans(loans[..i] + loans[i + 1..], k)
            == CountLoans(loans, k) - (if Matches(loans[i], k) then 1 else 0)
  {
    var last := |loans| - 1;
    var front := loans[..last];
    assert CountLoans(loans, k) == CountLoans(front, k) + (if Matches(loans[last], k) then 1 else 0);
    if i == last {
      RemoveLast(loans);
    } else {
      CountRemove(front, i, k);
      RemoveBeforeLast(loans, i);
      CountAppend(front[..i] + front[i + 1..], loans[last], k);
    }
  }

  /** The loan a return acts on: the first loan of `member` for `book`, in ledger order. */
  function FindLoan(loans: seq<Loan>, member: Code, book: Code): (r: Option<nat>)
    ensures r.None? <==>
              forall i :: 0 <= i < |loans| ==> !(loans[i].memberCode == member && loans[i].bookCode == book)
    ensures r.Some? ==>
              && r.value < |loans|
              && loans[r.value].memberCode == member && loans[r.value].bookCode == book
              && forall j :: 0 <= j < r.value ==> !(loans[j].memberCode == member && loans[j].bookCode == book)
  {
    if loans == [] then None
    else if loans[0].memberCode == member && loans[0].bookCode == book then Some(0)
    else match FindLoan(loans[1..], member, book)
      case None => None
      case Some(k) => Some(k + 1)
  }
}
