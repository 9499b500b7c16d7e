/** The two persistent entities. Dates are day numbers; `None` stands for a
    Java `null`. */
module Entity {
  import opened Wrappers

  /** A catalogued book. `id` is absent until the store assigns one. */
  datatype Book = Book(id: Option<int>, title: string, author: string, isbn: string)

  /** A loan of one book to one customer. `customerEmail` is the contact the
      overdue notifier reads; the entity as declared has no such field, so
      nothing ever fills it in and it stays absent. */
  datatype Loan = Loan(
    id: Option<int>,
    customer: Option<string>,
    book: Book,
    loanDate: int,
    returned: bool,
    customerEmail: Option<string>)

  /** `Loan.builder().book(book).customer(customer).loanDate(today).build()`:
      the unset `id` and `customerEmail` are null and the primitive `returned`
      is false. */
  function BuildLoan(book: Book, customer: Option<string>, today: int): (l: Loan)
    ensures l.book == book && l.customer == customer && l.loanDate == today
    ensures l.id.None? && l.customerEmail.None?
    ensures !l.returned
  {
    Loan(None, customer, book, today, false, None)
  }

  /** The generated setter `setReturned`. */
  function WithReturned(l: Loan, returned: bool): (r: Loan)
    ensures r.returned == returned
    ensures r.id == l.id && r.customer == l.customer && r.book == l.book
    ensures r.loanDate == l.loanDate && r.customerEmail == l.customerEmail
  {
    l.(returned := returned)
  }

  /** Setting the flag replaces it: applying the setter twice is applying it once
      with the last value. */
  lemma WithReturnedOverrides(l: Loan, first: bool, second: bool)
    ensures WithReturned(WithReturned(l, first), second) == WithReturned(l, second)
  {
  }

  /** The late-loan query: not returned and lent strictly before the cutoff day. */
  function IsLate(l: Loan, cutoff: int): (r: bool)
    ensures l.returned ==> !r
    ensures !l.returned ==> (r <==> l.loanDate + 1 <= cutoff)
  {
    !l.returned && l.loanDate < cutoff
  }
}
