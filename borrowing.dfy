/** The borrow/return engine (controllers/borrow.js): the member, book and
    loan stores and the two requests that change them. */
module Borrowing {
  import opened Records
  import ErrorHandler

  const MillisPerDay: int := 24 * 60 * 60 * 1000
  /** A member may hold at most this many loans. */
  const MaxLoansPerMember: nat := 2
  /** A return strictly later than this after the borrow is penalized. */
  const GracePeriod: int := 7 * MillisPerDay
  /** How long a late return blocks borrowing, counted from processing time. */
  const PenaltyPeriod: int := 3 * MillisPerDay

  /** Why a request was refused. */
  datatype Refusal =
    | MemberNotFound
    | MemberPenalized
    | BookNotFound
    | MemberLimitReached
    | BookUnavailable
    | InvalidDate
    | NotBorrowed
  {
    function Message(): string {
      match this
      case MemberNotFound => "Member not found!"
      case MemberPenalized => "Member is currently being penalized!"
      case BookNotFound => "Book not found!"
      case MemberLimitReached => "Member has borrowed more than 2 books!"
      case BookUnavailable => "Book is borrowed by other members!"
      case InvalidDate => "Invalid date!"
      case NotBorrowed => "The returned book is not a book that the member has borrowed!"
    }

    /** The two lookups fail by throwing a TypeError; the other checks answer directly. */
    predicate Thrown() {
      MemberNotFound? || BookNotFound?
    }
  }

  datatype Outcome<+T> = Done(value: T) | Refused(refusal: Refusal)

  /** What a successful return reports: the new penalty expiry, if the return was late. */
  datatype Receipt = Receipt(penalizedUntil: Option<int>) {
    function Message(): string {
      "book returned successfully" + if penalizedUntil.Some? then " but member is being penalized" else ""
    }
  }

  /** The penalty expiry is strictly after `now`. */
  predicate Penalized(m: Member, now: int) {
    m.penaltyExpired.Some? && m.penaltyExpired.value > now
  }

  predicate Late(borrowedDate: int, returnedDate: int) {
    returnedDate - borrowedDate > GracePeriod
  }

  /** The member store after the penalty check of a borrow by `code`: an
      expiry that is set but no longer in the future is reset. */
  function AfterPenaltyCheck(members: map<Code, Member>, code: Code, now: int): map<Code, Member> {
    if code in members && members[code].penaltyExpired.Some? && !Penalized(members[code], now)
    then members[code := members[code].(penaltyExpired := None)]
    else members
  }

  /** The first check a borrow fails, in the order the controller runs them. */
  function BorrowVerdict(members: map<Code, Member>, books: map<Code, Book>, loans: seq<Loan>,
                         memberCode: Code, bookCode: Code, borrowedDate: Option<int>, now: int): Option<Refusal>
  {
    if memberCode !in members then Some(MemberNotFound)
    else if Penalized(members[memberCode], now) then Some(MemberPenalized)
    else if bookCode !in books then Some(BookNotFound)
    else if CountLoans(loans, ByMember(memberCode)) >= MaxLoansPerMember then Some(MemberLimitReached)
    else if CountLoans(loans, ByBook(bookCode)) >= books[bookCode].stock then Some(BookUnavailable)
    else if borrowedDate.None? then Some(InvalidDate)
    else None
  }

  /** The first check a return fails, in the order the controller runs them. */
  function ReturnVerdict(members: map<Code, Member>, books: map<Code, Book>, loans: seq<Loan>,
                         memberCode: Code, bookCode: Code, returnedDate: Option<int>): Option<Refusal>
  {
    if memberCode !in members then Some(MemberNotFound)
    else if bookCode !in books then Some(BookNotFound)
    else if returnedDate.None? then Some(InvalidDate)
    else if FindLoan(loans, memberCode, bookCode).None? then Some(NotBorrowed)
    else None
  }

  /** The stores are keyed by primary key, no member holds more than two
      loans and no book is lent out more often than its stock. */
  ghost predicate Consistent(members: map<Code, Member>, books: map<Code, Book>, loans: seq<Loan>) {
    && (forall c :: c in members ==> members[c].code == c)
    && (forall c :: c in books ==> books[c].code == c)
    && (forall c :: c in members ==> CountLoans(loans, ByMember(c)) <= MaxLoansPerMember)
    && (forall c :: c in books ==> CountLoans(loans, ByBook(c)) <= books[c].stock)
  }

  class Library {
    var members: map<Code, Member>
    var books: map<Code, Book>
    var loans: seq<Loan>

    ghost predicate Valid()
      reads this
    {
      Consistent(members, books, loans)
    }

    constructor (members: map<Code, Member>, books: map<Code, Book>, loans: seq<Loan>)
      ensures this.members == members && this.books == books && this.loans == loans
    {
      this.members := members;
      this.books := books;
      this.loans := loans;
    }

    /** POST /borrow. `borrowedDate` is the parsed request date (the current
        time when absent), None when it does not parse; `now` is the clock. */
    method Borrow(memberCode: Code, bookCode: Code, borrowedDate: Option<int>, now: int)
      returns (outcome: Outcome<Loan>)
      modifies this
      ensures books == old(books)
      ensures old(Valid()) ==> Valid()
      ensures members == AfterPenaltyCheck(old(members), memberCode, now)
      ensures match BorrowVerdict(old(members), books, old(loans), memberCode, bookCode, borrowedDate, now)
              case Some(refusal) => outcome == Refused(refusal) && loans == old(loans)
              case None => outcome == Done(Loan(bookCode, memberCode, borrowedDate.value))
                           && loans == old(loans) + [outcome.value]
    {
      PenaltyResetKeepsConsistency(members, books, loans, memberCode, now);
      if memberCode !in members {
        return Refused(MemberNotFound);
      }
      var member := members[memberCode];
      if member.penaltyExpired.Some? {
        if member.penaltyExpired.value > now {
          return Refused(MemberPenalized);
        }
        member := member.(penaltyExpired := None);
        members := members[memberCode := member];
      }
      if bookCode !in books {
        return Refused(BookNotFound);
      }
      if CountLoans(loans, ByMember(memberCode)) >= MaxLoansPerMember {
        return Refused(MemberLimitReached);
      }
      if CountLoans(loans, ByBook(bookCode)) >= books[bookCode].stock {
        return Refused(BookUnavailable);
      }
      if borrowedDate.None? {
        return Refused(InvalidDate);
      }
      var loan := Loan(bookCode, memberCode, borrowedDate.value);
      BorrowKeepsConsistency(members, books, loans, loan);
      loans := loans + [loan];
      outcome := Done(loan);
    }

    /** POST /return. `returnedDate` is the parsed request date, None when it
        does not parse; the penalty runs from `now`, the processing time. */
    method Return(memberCode: Code, bookCode: Code, returnedDate: Option<int>, now: int)
      returns (outcome: Outcome<Receipt>)
      modifies this
      ensures books == old(books)
      ensures old(Valid()) ==> Valid()
      ensures match ReturnVerdict(old(members), books, old(loans), memberCode, bookCode, returnedDate)
              case Some(refusal) =>
                outcome == Refused(refusal) && members == old(members) && loans == old(loans)
              case None =>
                var k := FindLoan(old(loans), memberCode, bookCode).value;
                && loans == old(loans)[..k] + old(loans)[k + 1..]
                && if Late(old(loans)[k].borrowedDate, returnedDate.value) then
                     && outcome == Done(Receipt(Some(now + PenaltyPeriod)))
                     && members == old(members)[memberCode := old(members)[memberCode].(penaltyExpired := Some(now + PenaltyPeriod))]
                   else
                     outcome == Done(Receipt(None)) && members == old(members)
    {
      if memberCode !in members {
        return Refused(MemberNotFound);
      }
      if bookCode !in books {
        return Refused(BookNotFound);
      }
      if returnedDate.None? {
        return Refused(InvalidDate);
      }
      var found := FindLoan(loans, memberCode, bookCode);
      if found.None? {
        return Refused(NotBorrowed);
      }
      var k := found.value;
      var penalty: Option<int> := None;
      if returnedDate.value - loans[k].borrowedDate > GracePeriod {
        penalty := Some(now + PenaltyPeriod);
        members := members[memberCode := members[memberCode].(penaltyExpired := penalty)];
      }
      ReturnKeepsConsistency(members, books, loans, k);
      loans := loans[..k] + loans[k + 1..];
      outcome := Done(Receipt(penalty));
    }
  }

  /** A loan admitted by every check keeps both limits. */
  lemma BorrowKeepsConsistency(members: map<Code, Member>, books: map<Code, Book>, loans: seq<Loan>, loan: Loan)
    requires loan.memberCode in members && loan.bookCode in books
    requires CountLoans(loans, ByMember(loan.memberCode)) < MaxLoansPerMember
    requires CountLoans(loans, ByBook(loan.bookCode)) < books[loan.bookCode].stock
    ensures Consistent(members, books, loans) ==> Consistent(members, books, loans + [loan])
    ensures CountLoans(loans + [loan], ByMember(loan.memberCode)) <= MaxLoansPerMember
    ensures CountLoans(loans + [loan], ByBook(loan.bookCode)) <= books[loan.bookCode].stock
  {
    forall c | c in members
      ensures CountLoans(loans + [loan], ByMember(c)) == CountLoans(loans, ByMember(c)) + (if c == loan.memberCode then 1 else 0)
    {
      CountAppend(loans, loan, ByMember(c));
    }
    forall c | c in books
      ensures CountLoans(loans + [loan], ByBook(c)) == CountLoans(loans, ByBook(c)) + (if c == loan.bookCode then 1 else 0)
    {
      CountAppend(loans, loan, ByBook(c));
    }
  }

  /** Clearing an expired penalty touches no key, code or loan count. */
  lemma PenaltyResetKeepsConsistency(members: map<Code, Member>, books: map<Code, Book>, loans: seq<Loan>,
                                     code: Code, now: int)
    ensures Consistent(members, books, loans) ==> Consistent(AfterPenaltyCheck(members, code, now), books, loans)
  {
  }

  /** Deleting any loan keeps both limits, whatever happens to penalties. */
  lemma ReturnKeepsConsistency(members: map<Code, Member>, books: map<Code, Book>, loans: seq<Loan>, k: nat)
    requires k < |loans|
    ensures Consistent(members, books, loans) ==> Consistent(members, books, loans[..k] + loans[k + 1..])
  {
    forall key: LoanKey
      ensures CountLoans(loans[..k] + loans[k + 1..], key) <= CountLoans(loans, key)
    {
      CountRemove(loans, k, key);
    }
  }

  /** `part` occurs in `s` as a contiguous piece. */
  predicate Contains(s: string, part: string) {
    exists i | 0 <= i <= |s| :: OccursAt(s, part, i)
  }

  predicate OccursAt(s: string, part: string, i: int) {
    0 <= i && i + |part| <= |s| && s[i..i + |part|] == part
  }

  /** The return message mentions "penalized" exactly when a penalty was set. */
  lemma ReceiptMentionsPenalty(r: Receipt)
    ensures Contains(r.Message(), "penalized") <==> r.penalizedUntil.Some?
  {
    var base := "book returned successfully";
    if r.penalizedUntil.Some? {
      assert OccursAt(r.Message(), "penalized", |base| + |" but member is being "|);
    } else {
      assert forall j :: 0 <= j < |base| ==> base[j] != 'p';
      assert r.Message() == base;
      forall i | 0 <= i <= |base|
        ensures !OccursAt(base, "penalized", i)
      {
        if i + 9 <= |base| {
          assert base[i] != "penalized"[0];
        }
      }
    }
  }

  /** Returning exactly seven days after the borrow is on time; a millisecond later is late. */
  lemma GraceBoundary(borrowedDate: int)
    ensures !Late(borrowedDate, borrowedDate + 7 * MillisPerDay)
    ensures Late(borrowedDate, borrowedDate + 7 * MillisPerDay + 1)
  {
  }

  /** A penalty set by a return processed at `processedAt` refuses every borrow
      checked before three days have passed, and none after. */
  lemma PenaltyWindow(members: map<Code, Member>, books: map<Code, Book>, loans: seq<Loan>,
                      memberCode: Code, bookCode: Code, borrowedDate: Option<int>, processedAt: int, now: int)
    requires memberCode in members
    requires members[memberCode].penaltyExpired == Some(processedAt + PenaltyPeriod)
    ensures BorrowVerdict(members, books, loans, memberCode, bookCode, borrowedDate, now) == Some(MemberPenalized)
            <==> now < processedAt + 3 * MillisPerDay
  {
  }

  /** How a refusal is answered: always 400 BAD_REQUEST with the refusal's
      message; the two lookups go through the error handler as TypeErrors. */
  function RefusalReply(r: Refusal): (reply: ErrorHandler.ErrorReply)
    ensures reply.httpStatus == 400 && reply.code == "400" && reply.status == "BAD_REQUEST"
    ensures reply.message == Some(r.Message())
    ensures reply.title.Some? <==> r.Thrown()
  {
    if r.Thrown() then ErrorHandler.HandleError(ErrorHandler.TypeErrorOf(r.Message()))
    else ErrorHandler.ErrorReply(400, "400", "BAD_REQUEST", None, Some(r.Message()))
  }
}

