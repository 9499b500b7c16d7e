/** The loan ledger: the repository's table of loans and the rule the loan
    service enforces on saving. Loans are never deleted, so the table is kept in
    id order and a loan's id is its position plus one. */
module LoanService {
  import opened Wrappers
  import opened Failures
  import opened Entity
  import opened Paging
  import opened Dto

  /** Age, in days, past which an open loan is late. */
  const LateAfterDays := 4

  predicate DenseIds(loans: seq<Loan>) {
    forall i :: 0 <= i < |loans| ==> loans[i].id == Some(i + 1)
  }

  /** `existsByBookAndNotReturned`: some open loan references this book. */
  function ActiveLoanFor(loans: seq<Loan>, book: Book): (r: bool)
    ensures r <==> Filter(loans, (l: Loan) => l.book.id == book.id && !l.returned) != []
  {
    var open := Filter(loans, (l: Loan) => l.book.id == book.id && !l.returned);
    assert open != [] ==> exists i :: 0 <= i < |loans| && loans[i] == open[0];
    exists i :: 0 <= i < |loans| && loans[i].book.id == book.id && !loans[i].returned
  }

  /** No two open loans reference the same book. */
  predicate SingleActivePerBook(loans: seq<Loan>) {
    forall i, j :: 0 <= i < j < |loans| && !loans[i].returned && !loans[j].returned ==>
      loans[i].book.id != loans[j].book.id
  }

  /** The service's `save`: refuses a loan for a book that is already out,
      otherwise stores it under the next id. */
  function SaveLoan(loans: seq<Loan>, loan: Loan): (r: (Result<Loan, ServiceError>, seq<Loan>))
    ensures ActiveLoanFor(loans, loan.book) ==> r == (Failure(BusinessError(BookAlreadyLoanedMessage)), loans)
    ensures !ActiveLoanFor(loans, loan.book) ==>
              && r.0 == Success(loan.(id := Some(|loans| + 1)))
              && r.1 == loans + [r.0.value]
  {
    if ActiveLoanFor(loans, loan.book) then (Failure(BusinessError(BookAlreadyLoanedMessage)), loans)
    else
      var saved := loan.(id := Some(|loans| + 1));
      (Success(saved), loans + [saved])
  }

  /** `getById`. */
  function GetLoan(loans: seq<Loan>, id: int): (r: Option<Loan>)
    ensures DenseIds(loans) ==> (r.Some? <==> exists i :: 0 <= i < |loans| && loans[i].id == Some(id))
    ensures DenseIds(loans) && r.Some? ==> r.value in loans && r.value.id == Some(id)
  {
    if 1 <= id <= |loans| then Some(loans[id - 1]) else None
  }

  /** `update`: the stored record with the loan's id takes the loan's full state. */
  function UpdateLoan(loans: seq<Loan>, loan: Loan): (r: seq<Loan>)
    ensures |r| == |loans|
    ensures loan.id.Some? && 1 <= loan.id.value <= |loans| ==> r[loan.id.value - 1] == loan
    ensures forall i :: 0 <= i < |loans| && loan.id != Some(i + 1) ==> r[i] == loans[i]
  {
    if loan.id.Some? && 1 <= loan.id.value <= |loans| then loans[loan.id.value - 1 := loan] else loans
  }

  /** The derived query `findByBookIsbnOrCustomer`: isbn equal OR customer equal.
      A null filter value compares as `IS NULL`. */
  function MatchesIsbnOrCustomer(filter: LoanFilterDto, l: Loan): (r: bool)
    ensures filter.isbn == Some(l.book.isbn) ==> r
    ensures filter.customer.Some? && filter.customer == l.customer ==> r
    ensures filter.isbn.None? && filter.customer.None? ==> (r <==> l.customer.None?)
    ensures r ==> filter.isbn == Some(l.book.isbn) || filter.customer == l.customer
  {
    filter.isbn == Some(l.book.isbn) || filter.customer == l.customer
  }

  /** `find`. */
  function FindLoans(loans: seq<Loan>, filter: LoanFilterDto, req: PageRequest): (p: Page<Loan>)
    ensures p.pageable == req
    ensures p.totalElements == |Filter(loans, (l: Loan) => MatchesIsbnOrCustomer(filter, l))|
    ensures forall i :: 0 <= i < |p.content| ==>
              p.content[i] in loans
              && (filter.isbn == Some(p.content[i].book.isbn) || filter.customer == p.content[i].customer)
    ensures req.page == 0 && |loans| <= req.size ==>
              forall i :: 0 <= i < |loans| && (filter.isbn == Some(loans[i].book.isbn) || filter.customer == loans[i].customer) ==>
                loans[i] in p.content
    ensures p.content == Slice(Filter(loans, (l: Loan) => MatchesIsbnOrCustomer(filter, l)), req)
    ensures req.page == 0 && |Filter(loans, (l: Loan) => MatchesIsbnOrCustomer(filter, l))| <= req.size ==>
              p.content == Filter(loans, (l: Loan) => MatchesIsbnOrCustomer(filter, l))
  {
    var matches := Filter(loans, (l: Loan) => MatchesIsbnOrCustomer(filter, l));
    if req.page == 0 && |matches| <= req.size then FirstPageShowsAll(matches, req); PageOf(matches, req)
    else PageOf(matches, req)
  }

  /** `findByLoanDateLessThanAndNotReturned`: exactly the open loans lent
      strictly before the cutoff, in table order. */
  function LateLoans(loans: seq<Loan>, cutoff: int): (r: seq<Loan>)
    ensures forall i :: 0 <= i < |r| ==> r[i] in loans && !r[i].returned && r[i].loanDate < cutoff
    ensures forall i :: 0 <= i < |loans| && !loans[i].returned && loans[i].loanDate < cutoff ==> loans[i] in r
  {
    Filter(loans, (l: Loan) => IsLate(l, cutoff))
  }

  /** `getAllLateLoans`: late means lent before `today - 4`. */
  function AllLateLoans(loans: seq<Loan>, today: int): (r: seq<Loan>)
    ensures forall i :: 0 <= i < |r| ==> r[i] in loans && !r[i].returned && r[i].loanDate <= today - 5
    ensures forall i :: 0 <= i < |loans| && !loans[i].returned && loans[i].loanDate < today - LateAfterDays ==>
              loans[i] in r
  {
    LateLoans(loans, today - LateAfterDays)
  }

  /** `getLoansByBook`: the requested page of the loans of one book. */
  function LoansByBook(loans: seq<Loan>, book: Book, req: PageRequest): (p: Page<Loan>)
    ensures p.pageable == req
    ensures p.totalElements == |Filter(loans, (l: Loan) => l.book.id == book.id)|
    ensures forall i :: 0 <= i < |p.content| ==> p.content[i] in loans && p.content[i].book.id == book.id
    ensures req.page == 0 && |loans| <= req.size ==>
              forall i :: 0 <= i < |loans| && loans[i].book.id == book.id ==> loans[i] in p.content
    ensures p.content == Slice(Filter(loans, (l: Loan) => l.book.id == book.id), req)
    ensures req.page == 0 && |Filter(loans, (l: Loan) => l.book.id == book.id)| <= req.size ==>
              p.content == Filter(loans, (l: Loan) => l.book.id == book.id)
  {
    var mine := Filter(loans, (l: Loan) => l.book.id == book.id);
    if req.page == 0 && |mine| <= req.size then FirstPageShowsAll(mine, req); PageOf(mine, req)
    else PageOf(mine, req)
  }

  // ---------------------------------------------------------------- lemmas

  /** A save keeps ids dense and keeps at most one open loan per book. */
  lemma SaveKeepsInvariants(loans: seq<Loan>, loan: Loan)
    requires DenseIds(loans) && SingleActivePerBook(loans)
    ensures DenseIds(SaveLoan(loans, loan).1)
    ensures SingleActivePerBook(SaveLoan(loans, loan).1)
  {
    var r := SaveLoan(loans, loan).1;
    if !ActiveLoanFor(loans, loan.book) {
      forall i, j | 0 <= i < j < |r| && !r[i].returned && !r[j].returned
        ensures r[i].book.id != r[j].book.id
      {
        if j == |loans| {
          assert r[i] == loans[i];
        }
      }
    }
  }

  /** Once a loan for a book is stored open, a second loan for that book is
      refused until the first is returned. */
  lemma SecondLoanRefused(loans: seq<Loan>, first: Loan, second: Loan)
    requires !first.returned && second.book.id == first.book.id
    requires SaveLoan(loans, first).0.Success?
    ensures SaveLoan(SaveLoan(loans, first).1, second) ==
              (Failure(BusinessError(BookAlreadyLoanedMessage)), SaveLoan(loans, first).1)
  {
    var after := SaveLoan(loans, first).1;
    assert after[|loans|].book.id == second.book.id && !after[|loans|].returned;
  }

  /** The loan stored under `id`, with its flag set, replaces the old record;
      every other record and the table's length are unchanged. */
  lemma ReturnUpdatesOnlyThatLoan(loans: seq<Loan>, id: int, returned: bool)
    requires DenseIds(loans) && GetLoan(loans, id).Some?
    ensures var l := GetLoan(loans, id).value;
            var r := UpdateLoan(loans, WithReturned(l, returned));
            && DenseIds(r)
            && GetLoan(r, id) == Some(WithReturned(l, returned))
            && (forall k :: k != id ==> GetLoan(r, k) == GetLoan(loans, k))
            && UpdateLoan(r, WithReturned(l, returned)) == r
  {
  }

  /** Returning an open loan keeps at most one open loan per book, and frees its
      book so that a new loan for it is accepted. */
  lemma ReturnFreesTheBook(loans: seq<Loan>, id: int)
    requires DenseIds(loans) && SingleActivePerBook(loans)
    requires GetLoan(loans, id).Some? && !GetLoan(loans, id).value.returned
    ensures var r := UpdateLoan(loans, WithReturned(GetLoan(loans, id).value, true));
            && SingleActivePerBook(r)
            && !ActiveLoanFor(r, GetLoan(loans, id).value.book)
  {
    var l := GetLoan(loans, id).value;
    var r := UpdateLoan(loans, WithReturned(l, true));
    forall i | 0 <= i < |loans| && i != id - 1 && loans[i].book.id == l.book.id
      ensures loans[i].returned
    {
      assert i < id - 1 || id - 1 < i;
    }
    forall i | 0 <= i < |r| && r[i].book.id == l.book.id ensures r[i].returned {
      if i != id - 1 {
        assert r[i] == loans[i];
      }
    }
  }

  /** Setting a loan's flag to true never creates a second open loan for a book. */
  lemma ReturningTrueKeepsSingleActive(loans: seq<Loan>, l: Loan)
    requires DenseIds(loans) && SingleActivePerBook(loans)
    requires l.id.Some? && 1 <= l.id.value <= |loans|
    ensures SingleActivePerBook(UpdateLoan(loans, WithReturned(l, true)))
  {
  }

  /** The repository evidence: with cutoff today - 4, a loan lent five days ago
      and still open is late, while one lent today is not; nor is one lent on
      the cutoff day itself. */
  lemma LateLoanBoundary(book: Book, customer: Option<string>, today: int)
    ensures var older := BuildLoan(book, customer, today - 5);
            AllLateLoans([older], today) == [older]
    ensures AllLateLoans([BuildLoan(book, customer, today)], today) == []
    ensures AllLateLoans([BuildLoan(book, customer, today - LateAfterDays)], today) == []
  {
    var older := BuildLoan(book, customer, today - 5);
    assert [older][1..] == [];
  }

  /** Three stored loans for the filter scenarios: one of isbn "123", one to
      customer "123", and a returned one without a customer. */
  function SampleLoans(): seq<Loan> {
    [Loan(Some(1), Some("Fulano"), Book(Some(1), "Aventuras", "Fulano", "123"), 0, false, None),
     Loan(Some(2), Some("123"), Book(Some(2), "Outro", "Beltrano", "456"), 0, false, None),
     Loan(Some(3), None, Book(Some(3), "Mais um", "Sicrano", "789"), 0, true, None)]
  }

  /** The filter is a disjunction: the loan of the isbn and the loan to the
      customer are both found, and nothing else. */
  lemma FindMatchesEitherField()
    ensures FindLoans(SampleLoans(), LoanFilterDto(Some("123"), Some("123")), PageRequest(0, 10)).content
              == SampleLoans()[..2]
  {
    var loans := SampleLoans();
    var p := (l: Loan) => MatchesIsbnOrCustomer(LoanFilterDto(Some("123"), Some("123")), l);
    assert p(loans[0]) && p(loans[1]) && !p(loans[2]);
    assert Filter(loans[2..], p) == [] by {
      assert loans[2..][1..] == [];
    }
    assert Filter(loans[1..], p) == [loans[1]] by {
      assert loans[1..][1..] == loans[2..];
    }
    assert Filter(loans, p) == loans[..2];
    FirstPageShowsAll(loans[..2], PageRequest(0, 10));
  }

  /** An absent customer in the filter selects the loans without one. */
  lemma FindNullCustomerSelectsLoansWithoutOne()
    ensures FindLoans(SampleLoans(), LoanFilterDto(Some("456"), None), PageRequest(0, 10)).content
              == SampleLoans()[1..]
  {
    var loans := SampleLoans();
    var q := (l: Loan) => MatchesIsbnOrCustomer(LoanFilterDto(Some("456"), None), l);
    assert !q(loans[0]) && q(loans[1]) && q(loans[2]);
    assert Filter(loans[2..], q) == loans[2..] by {
      assert loans[2..][1..] == [];
    }
    assert Filter(loans[1..], q) == loans[1..] by {
      assert loans[1..][1..] == loans[2..];
    }
    FirstPageShowsAll(loans[1..], PageRequest(0, 10));
  }

  // ---------------------------------------------------------------- the stateful service

  /** The service together with the repository table it drives. */
  class Ledger {
    var loans: seq<Loan>

    ghost predicate Valid()
      reads this
    {
      DenseIds(loans)
    }

    constructor ()
      ensures Valid() && loans == []
    {
      loans := [];
    }

    method Save(loan: Loan) returns (r: Result<Loan, ServiceError>)
      requires Valid()
      modifies this
      ensures Valid()
      ensures (r, loans) == SaveLoan(old(loans), loan)
    {
      if ActiveLoanFor(loans, loan.book) {
        r := Failure(BusinessError(BookAlreadyLoanedMessage));
        return;
      }
      var saved := loan.(id := Some(|loans| + 1));
      loans := loans + [saved];
      r := Success(saved);
    }

    method Update(loan: Loan) returns (r: Loan)
      requires Valid()
      modifies this
      ensures Valid()
      ensures loans == UpdateLoan(old(loans), loan) && r == loan
    {
      if loan.id.Some? && 1 <= loan.id.value <= |loans| {
        loans := loans[loan.id.value - 1 := loan];
      }
      r := loan;
    }
  }
}
