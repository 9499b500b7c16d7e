/** The `/api/loans` endpoints: lending a book found by its isbn and setting a
    loan's returned flag, over the book table and the loan ledger. */
module LoanController {
  import opened Wrappers
  import opened Failures
  import opened Entity
  import opened Dto
  import opened ApiException
  import BookService
  import opened LoanService

  /** No stored loan carries a contact email. */
  predicate NoEmails(loans: seq<Loan>) {
    forall i :: 0 <= i < |loans| ==> loans[i].customerEmail.None?
  }

  // ---------------------------------------------------------------- endpoints

  /** `POST /api/loans`: a 400 when no stored book has the request's isbn; a 400
      with the business message when that book is out; otherwise a new open loan
      of that book to the request's customer, dated today, is stored and its id
      answered. The request's email is not copied into the loan. */
  function CreateLoan(books: seq<Book>, loans: seq<Loan>, dto: LoanDto, today: int): (r: (Response<int>, seq<Loan>))
    ensures dto.isbn.None? || !BookService.IsbnTaken(books, dto.isbn.value) ==>
              r == (BadRequest([BookNotFoundForIsbnMessage]), loans)
    ensures r.0.BadRequest? ==> r.1 == loans
    ensures r.0.Ok? ==>
              && r.0.body == |loans| + 1
              && |r.1| == |loans| + 1 && r.1[..|loans|] == loans
              && r.1[|loans|].book in books && Some(r.1[|loans|].book.isbn) == dto.isbn
              && r.1[|loans|] == Loan(Some(|loans| + 1), dto.customer, r.1[|loans|].book, today, false, None)
              && !ActiveLoanFor(loans, r.1[|loans|].book)
    ensures dto.isbn.Some? && BookService.IsbnTaken(books, dto.isbn.value) ==>
              (r.0.Ok? <==> !ActiveLoanFor(loans, BookService.LookupIsbn(books, dto.isbn.value).value))
    ensures dto.isbn.Some? && BookService.IsbnTaken(books, dto.isbn.value)
            && ActiveLoanFor(loans, BookService.LookupIsbn(books, dto.isbn.value).value) ==>
              r == (BadRequest([BookAlreadyLoanedMessage]), loans)
    ensures !r.0.NotFound?
  {
    var found := if dto.isbn.None? then None else BookService.LookupIsbn(books, dto.isbn.value);
    if found.None? then (BadRequest([BookNotFoundForIsbnMessage]), loans)
    else
      var saved := SaveLoan(loans, BuildLoan(found.value, dto.customer, today));
      if saved.0.Failure? then (BadRequest(BusinessErrors(saved.0.error)), saved.1)
      else (Ok(saved.0.value.id.value), saved.1)
  }

  /** `PATCH /api/loans/{id}` as written: a 404 for an unknown id; otherwise the
      loan takes the requested flag, whichever it is, and is written back. */
  function ReturnLoan(loans: seq<Loan>, id: int, returned: bool): (r: (Response<()>, seq<Loan>))
    ensures |r.1| == |loans|
    ensures r.0 == Ok(()) || (r.0 == NotFound && r.1 == loans)
    ensures r.0.NotFound? <==> GetLoan(loans, id).None?
  {
    match GetLoan(loans, id)
    case None => (NotFound, loans)
    case Some(l) => (Ok(()), UpdateLoan(loans, WithReturned(l, returned)))
  }

  /** `PATCH /api/loans/{id}` with reopening guarded: setting the flag back to
      false on a returned loan is refused, like a new loan, while another loan
      of the same book is open. */
  function ReturnLoanGuarded(loans: seq<Loan>, id: int, returned: bool): (r: (Response<()>, seq<Loan>))
    ensures |r.1| == |loans|
    ensures r.0.BadRequest? ==> r == (BadRequest([BookAlreadyLoanedMessage]), loans)
    ensures r.0.NotFound? ==> r.1 == loans
    ensures r.0.NotFound? <==> GetLoan(loans, id).None?
    ensures GetLoan(loans, id).Some? ==>
              (r.0.BadRequest? <==>
                 !returned && GetLoan(loans, id).value.returned && ActiveLoanFor(loans, GetLoan(loans, id).value.book))
  {
    match GetLoan(loans, id)
    case None => (NotFound, loans)
    case Some(l) =>
      if !returned && l.returned && ActiveLoanFor(loans, l.book) then (BadRequest([BookAlreadyLoanedMessage]), loans)
      else (Ok(()), UpdateLoan(loans, WithReturned(l, returned)))
  }

  // ---------------------------------------------------------------- single calls

  /** A known loan takes exactly the requested flag and nothing else changes,
      an unknown id answers 404, and repeating the request changes nothing. */
  lemma ReturnSetsOnlyThatFlag(loans: seq<Loan>, id: int, returned: bool)
    requires DenseIds(loans)
    ensures var r := ReturnLoan(loans, id, returned);
            && DenseIds(r.1)
            && (r.0 == NotFound <==> !(exists i :: 0 <= i < |loans| && loans[i].id == Some(id)))
            && (r.0 == Ok(()) ==>
                  && r.1[id - 1] == loans[id - 1].(returned := returned)
                  && (forall j :: 0 <= j < |loans| && j != id - 1 ==> r.1[j] == loans[j]))
            && ReturnLoan(r.1, id, returned) == (r.0, r.1)
  {
    if GetLoan(loans, id).Some? {
      ReturnUpdatesOnlyThatLoan(loans, id, returned);
    }
  }

  /** The guarded return only departs from the written one when it refuses a
      reopening, and it never leaves two open loans of one book. */
  lemma GuardedReturnKeepsSingleActive(loans: seq<Loan>, id: int, returned: bool)
    requires DenseIds(loans) && SingleActivePerBook(loans)
    ensures var r := ReturnLoanGuarded(loans, id, returned);
            && DenseIds(r.1)
            && SingleActivePerBook(r.1)
            && (r.0.BadRequest? || r == ReturnLoan(loans, id, returned))
            && (returned ==> r == ReturnLoan(loans, id, returned))
  {
    match GetLoan(loans, id)
    case None =>
    case Some(l) =>
      ReturnUpdatesOnlyThatLoan(loans, id, returned);
      if returned {
        ReturningTrueKeepsSingleActive(loans, l);
      } else if !l.returned {
        assert WithReturned(l, returned) == l;
        assert UpdateLoan(loans, l) == loans;
      } else if !ActiveLoanFor(loans, l.book) {
        var r := UpdateLoan(loans, WithReturned(l, false));
        forall i, j | 0 <= i < j < |r| && !r[i].returned && !r[j].returned
          ensures r[i].book.id != r[j].book.id
        {
          if i == id - 1 {
            assert r[j] == loans[j];
          } else if j == id - 1 {
            assert r[i] == loans[i];
          } else {
            assert r[i] == loans[i] && r[j] == loans[j];
          }
        }
      }
  }

  /** A loan created with a request email still carries none. */
  lemma CreateLeavesEmailsAbsent(books: seq<Book>, loans: seq<Loan>, dto: LoanDto, today: int)
    requires NoEmails(loans)
    ensures NoEmails(CreateLoan(books, loans, dto, today).1)
  {
  }

  /** Lending two loans of one isbn: the second waits until the first is
      returned, and is then stored under the next id. */
  lemma SecondBorrowWaitsForReturn(books: seq<Book>, loans: seq<Loan>, first: LoanDto, second: LoanDto, today: int, later: int)
    requires DenseIds(loans) && SingleActivePerBook(loans)
    requires first.isbn == second.isbn
    requires CreateLoan(books, loans, first, today).0.Ok?
    ensures var r1 := CreateLoan(books, loans, first, today);
            && CreateLoan(books, r1.1, second, later) == (BadRequest([BookAlreadyLoanedMessage]), r1.1)
            && ReturnLoan(r1.1, r1.0.body, true).0 == Ok(())
            && CreateLoan(books, ReturnLoan(r1.1, r1.0.body, true).1, second, later).0 == Ok(|loans| + 2)
  {
    var r1 := CreateLoan(books, loans, first, today);
    var book := BookService.LookupIsbn(books, first.isbn.value).value;
    SaveKeepsInvariants(loans, BuildLoan(book, first.customer, today));
    assert r1.1[|loans|].book == book && !r1.1[|loans|].returned;
    assert ActiveLoanFor(r1.1, book);
    ReturnFreesTheBook(r1.1, |loans| + 1);
  }

  // ---------------------------------------------------------------- sequences of calls

  datatype Request = Borrow(dto: LoanDto, today: int) | GiveBack(id: int, returned: bool)

  function Step(books: seq<Book>, loans: seq<Loan>, req: Request): seq<Loan> {
    match req
    case Borrow(dto, today) => CreateLoan(books, loans, dto, today).1
    case GiveBack(id, returned) => ReturnLoanGuarded(loans, id, returned).1
  }

  /** The ledger after serving the requests in order, with guarded returns. */
  function Run(books: seq<Book>, loans: seq<Loan>, reqs: seq<Request>): seq<Loan>
    decreases |reqs|
  {
    if reqs == [] then loans else Run(books, Step(books, loans, reqs[0]), reqs[1..])
  }

  function StepAsWritten(books: seq<Book>, loans: seq<Loan>, req: Request): seq<Loan> {
    match req
    case Borrow(dto, today) => CreateLoan(books, loans, dto, today).1
    case GiveBack(id, returned) => ReturnLoan(loans, id, returned).1
  }

  /** The ledger after serving the requests in order, as the endpoints are written. */
  function RunAsWritten(books: seq<Book>, loans: seq<Loan>, reqs: seq<Request>): seq<Loan>
    decreases |reqs|
  {
    if reqs == [] then loans else RunAsWritten(books, StepAsWritten(books, loans, reqs[0]), reqs[1..])
  }

  lemma StepKeepsInvariants(books: seq<Book>, loans: seq<Loan>, req: Request)
    requires DenseIds(loans) && SingleActivePerBook(loans)
    ensures DenseIds(Step(books, loans, req)) && SingleActivePerBook(Step(books, loans, req))
    ensures req.GiveBack? && req.returned ==> Step(books, loans, req) == StepAsWritten(books, loans, req)
    ensures req.Borrow? ==> Step(books, loans, req) == StepAsWritten(books, loans, req)
  {
    match req
    case Borrow(dto, today) =>
      if dto.isbn.Some? && BookService.IsbnTaken(books, dto.isbn.value) {
        SaveKeepsInvariants(loans, BuildLoan(BookService.LookupIsbn(books, dto.isbn.value).value, dto.customer, today));
      }
    case GiveBack(id, returned) =>
      GuardedReturnKeepsSingleActive(loans, id, returned);
  }

  /** Whatever the requests, the ledger keeps dense ids and at most one open
      loan per book when returns are guarded. */
  lemma {:induction false} RunKeepsSingleActive(books: seq<Book>, loans: seq<Loan>, reqs: seq<Request>)
    requires DenseIds(loans) && SingleActivePerBook(loans)
    ensures DenseIds(Run(books, loans, reqs)) && SingleActivePerBook(Run(books, loans, reqs))
    decreases |reqs|
  {
    if reqs != [] {
      StepKeepsInvariants(books, loans, reqs[0]);
      RunKeepsSingleActive(books, Step(books, loans, reqs[0]), reqs[1..]);
    }
  }

  /** As written, the invariant holds for every run whose returns all set the
      flag to true; such a run is the guarded run. */
  lemma {:induction false} RunAsWrittenWithoutReopening(books: seq<Book>, loans: seq<Loan>, reqs: seq<Request>)
    requires DenseIds(loans) && SingleActivePerBook(loans)
    requires forall i :: 0 <= i < |reqs| && reqs[i].GiveBack? ==> reqs[i].returned
    ensures RunAsWritten(books, loans, reqs) == Run(books, loans, reqs)
    ensures DenseIds(RunAsWritten(books, loans, reqs)) && SingleActivePerBook(RunAsWritten(books, loans, reqs))
    decreases |reqs|
  {
    if reqs != [] {
      StepKeepsInvariants(books, loans, reqs[0]);
      assert forall i :: 0 <= i < |reqs[1..]| ==> reqs[1..][i] == reqs[i + 1];
      RunAsWrittenWithoutReopening(books, Step(books, loans, reqs[0]), reqs[1..]);
    }
    RunKeepsSingleActive(books, loans, reqs);
  }

  /** No run, written or guarded, ever stores a contact email. */
  lemma {:induction false} RunsLeaveEmailsAbsent(books: seq<Book>, loans: seq<Loan>, reqs: seq<Request>)
    requires NoEmails(loans)
    ensures NoEmails(Run(books, loans, reqs)) && NoEmails(RunAsWritten(books, loans, reqs))
    decreases |reqs|
  {
    if reqs != [] {
      match reqs[0]
      case Borrow(dto, today) =>
        CreateLeavesEmailsAbsent(books, loans, dto, today);
      case GiveBack(id, returned) =>
    }
    if reqs != [] {
      RunsLeaveEmailsAbsent(books, Step(books, loans, reqs[0]), reqs[1..]);
      RunsLeaveEmailsAbsent(books, StepAsWritten(books, loans, reqs[0]), reqs[1..]);
    }
  }

  /** Lend a book, return it, lend it again, then set the first loan's flag back
      to false: as written, both loans of the book are open; guarded, the last
      request is refused and the first loan stays returned. */
  lemma ReopeningBreaksSingleActive()
    ensures !SingleActivePerBook(RunAsWritten(ReopeningBooks(), [], ReopeningRequests()))
    ensures SingleActivePerBook(Run(ReopeningBooks(), [], ReopeningRequests()))
  {
    ReopeningRunAsWritten();
    var r := RunAsWritten(ReopeningBooks(), [], ReopeningRequests());
    assert !r[0].returned && !r[1].returned && r[0].book.id == r[1].book.id;
    RunKeepsSingleActive(ReopeningBooks(), [], ReopeningRequests());
  }

  /** The one-book catalogue of the reopening scenario. */
  function ReopeningBooks(): seq<Book> {
    [Book(Some(1), "As aventuras", "Artur", "001")]
  }

  /** Lend "001", return loan 1, lend "001" again, then reopen loan 1. */
  function ReopeningRequests(): seq<Request> {
    [Borrow(LoanDto(Some("001"), Some("Fulano"), None), 0), GiveBack(1, true),
     Borrow(LoanDto(Some("001"), Some("Ciclano"), None), 1), GiveBack(1, false)]
  }

  /** The return as written ends the scenario with both loans open. */
  lemma ReopeningRunAsWritten()
    ensures var book := ReopeningBooks()[0];
            RunAsWritten(ReopeningBooks(), [], ReopeningRequests())
            == [Loan(Some(1), Some("Fulano"), book, 0, false, None), Loan(Some(2), Some("Ciclano"), book, 1, false, None)]
  {
    var books := ReopeningBooks();
    var book := books[0];
    var reqs := ReopeningRequests();
    assert BookService.LookupIsbn(books, "001") == Some(book);
    var l1 := Loan(Some(1), Some("Fulano"), book, 0, false, None);
    var l2 := Loan(Some(2), Some("Ciclano"), book, 1, false, None);
    var s1 := StepAsWritten(books, [], reqs[0]);
    assert s1 == [l1];
    var s2 := StepAsWritten(books, s1, reqs[1]);
    assert s2 == [l1.(returned := true)];
    assert !ActiveLoanFor(s2, book);
    var s3 := StepAsWritten(books, s2, reqs[2]);
    assert s3 == [l1.(returned := true), l2];
    var s4 := StepAsWritten(books, s3, reqs[3]);
    assert s4 == [l1, l2];
    assert RunAsWritten(books, [], reqs) == RunAsWritten(books, s1, reqs[1..]);
    assert RunAsWritten(books, s1, reqs[1..]) == RunAsWritten(books, s2, reqs[2..]);
    assert RunAsWritten(books, s2, reqs[2..]) == RunAsWritten(books, s3, reqs[3..]);
    assert RunAsWritten(books, s3, reqs[3..]) == RunAsWritten(books, s4, []);
  }

  // ---------------------------------------------------------------- the endpoints over the stateful services

  method Create(catalog: BookService.Catalog, ledger: Ledger, dto: LoanDto, today: int) returns (r: Response<int>)
    requires ledger.Valid()
    modifies ledger
    ensures ledger.Valid()
    ensures (r, ledger.loans) == CreateLoan(catalog.books, old(ledger.loans), dto, today)
  {
    var found := if dto.isbn.None? then None else BookService.LookupIsbn(catalog.books, dto.isbn.value);
    if found.None? {
      r := BadRequest([BookNotFoundForIsbnMessage]);
      return;
    }
    var entity := BuildLoan(found.value, dto.customer, today);
    var saved := ledger.Save(entity);
    if saved.Failure? {
      var errors := new ApiErrors.FromBusinessException(saved.error);
      r := BadRequest(errors.errors);
    } else {
      r := Ok(saved.value.id.value);
    }
  }

  method ReturnBook(ledger: Ledger, id: int, returned: bool) returns (r: Response<()>)
    requires ledger.Valid()
    modifies ledger
    ensures ledger.Valid()
    ensures (r, ledger.loans) == ReturnLoan(old(ledger.loans), id, returned)
  {
    var found := GetLoan(ledger.loans, id);
    if found.None? {
      r := NotFound;
      return;
    }
    var loan := WithReturned(found.value, returned);
    var _ := ledger.Update(loan);
    r := Ok(());
  }

  method ReturnBookGuarded(ledger: Ledger, id: int, returned: bool) returns (r: Response<()>)
    requires ledger.Valid()
    modifies ledger
    ensures ledger.Valid()
    ensures (r, ledger.loans) == ReturnLoanGuarded(old(ledger.loans), id, returned)
  {
    var found := GetLoan(ledger.loans, id);
    if found.None? {
      r := NotFound;
      return;
    }
    if !returned && found.value.returned && ActiveLoanFor(ledger.loans, found.value.book) {
      r := BadRequest([BookAlreadyLoanedMessage]);
      return;
    }
    var loan := WithReturned(found.value, returned);
    var _ := ledger.Update(loan);
    r := Ok(());
  }
}
