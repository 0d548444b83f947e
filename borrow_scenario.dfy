/** The borrow tests (test/borrow.test.js:135-254) replayed against the
    contracts of Borrow and Return: each scenario starts from the stores the
    test assumes and concludes what the test expects from the contracts alone. */
module BorrowScenario {
  import opened Records
  import opened Borrowing

  function Roster(): map<Code, Member> {
    map["M001" := Member("M001", "Angga", None), "M002" := Member("M002", "Ferry", None)]
  }

  function Shelf(): map<Code, Book> {
    map["JK-45" := Book("JK-45", "Harry Potter", "J.K Rowling", 1),
        "SHR-1" := Book("SHR-1", "A Study in Scarlet", "Arthur Conan Doyle", 1),
        "TW-11" := Book("TW-11", "Twilight", "Stephenie Meyer", 1)]
  }

  /** A member already holding two books is refused a third. */
  method MemberLimitScenario(t0: int)
  {
    var lib := new Library(Roster(), Shelf(), [Loan("JK-45", "M001", t0), Loan("SHR-1", "M001", t0)]);
    assert CountLoans(lib.loans, ByMember("M001")) == 2;
    var third := lib.Borrow("M001", "TW-11", Some(t0), t0);
    assert third == Refused(MemberLimitReached);
    assert lib.loans == [Loan("JK-45", "M001", t0), Loan("SHR-1", "M001", t0)];
  }

  /** A book whose only copy is lent out cannot be borrowed by another member. */
  method BookUnavailableScenario(t0: int)
  {
    var lib := new Library(Roster(), Shelf(), [Loan("JK-45", "M001", t0)]);
    assert "M001" != "M002" by { assert "M001"[3] != "M002"[3]; }
    assert CountLoans(lib.loans, ByMember("M002")) == 0;
    assert CountLoans(lib.loans, ByBook("JK-45")) == 1;
    var second := lib.Borrow("M002", "JK-45", Some(t0), t0);
    assert second == Refused(BookUnavailable);
  }

  /** Returning just over seven days late penalizes the member, who is then
      refused the next borrow. */
  method LateReturnScenario(t0: int, processedAt: int)
  {
    var lib := new Library(Roster(), Shelf(), [Loan("JK-45", "M001", t0)]);
    var back := lib.Return("M001", "JK-45", Some(t0 + GracePeriod + 1), processedAt);
    assert back == Done(Receipt(Some(processedAt + PenaltyPeriod)));
    assert lib.loans == [];
    var again := lib.Borrow("M001", "SHR-1", Some(processedAt), processedAt + MillisPerDay);
    assert again == Refused(MemberPenalized);
  }
}
