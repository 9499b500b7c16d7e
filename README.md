# library-api, modelled in Dafny

A model of the core of a small Spring Boot library backend. The backend keeps
a catalogue of books and a ledger of loans, and answers a REST API over them.
Each night it mails the customers whose loans are late.

The model covers these parts:

- **Book service** (module `BookService`). The book table is a sequence with
  an id generator. The service's save refuses a taken ISBN, update and delete
  refuse a book without an id, and find matches by example.
- **Loan ledger** (module `LoanService`). The loan table is a sequence.
  Saving a loan refuses a book that is already out. The module also covers
  lookup, update, find by isbn or customer, the late-loan query and the loans
  of one book.
- **Controllers** (modules `BookController`, `LoanController`). Each
  endpoint is a pure function from the tables and the request to an answer
  (body, 404 or 400 with an error list) and the new tables. A method over the
  stateful `Catalog` and `Ledger` classes is proved equal to that function.
- **Overdue notifier** (module `ScheduleService`). It collects the contact
  of every late loan and sends one mail, from a `Mailer` class that records
  the mails it was handed.
- **Validation and errors** (modules `Dto`, `ApiException`). These are the
  `@NotEmpty` rule on a book body and the `ApiErrors` envelope built from a
  binding result or from a business exception.
- Helper modules: `Wrappers` (Option, Result), `Failures` (the exceptions
  and their messages), `Entity` (Book, Loan), `Text` (case-insensitive
  substring), and `Paging` (filter, page window, total count).

These are the main results:

- ISBNs stay pairwise distinct and ids stay unique under create, update and
  delete.
- A created book is answered back by a GET of its id.
- Update changes only the title and the author.
- After any sequence of loan requests, each book has at most one open loan.
  This is proved for the guarded return. The return as written is proved to
  keep it when no request sets `returned=false`, and a counterexample shows
  that it can break otherwise (see Findings).
- A second loan of a book waits until the first is returned.
- The notifier addresses exactly the open loans that are late.

The clock is a parameter: `today` is a day number. The mail transport is
replaced by `Mailer.sent`. The persistence layer is replaced by the table
sequences.

Two modelling choices rest on particular source lines.

- Late cutoff. The display name of the repository test in
  src/test/java/com/cvieira/libraryapi/model/repository/LoanRepositoryTest.java:57
  says "less than or equal to three days ago". The test body at line 61
  queries `findByLoanDateLessThanAndNotReturned` with `now().minusDays(4)`.
  `LoanServiceImpl` is not part of this model, so the model takes the cutoff
  from that call: a loan is late when its date is strictly before today − 4.
- Empty late list. src/main/java/com/cvieira/libraryapi/service/ScheduleService.java:30
  calls `sendEmails` whatever the list holds, so the model sends one mail even
  when no loan is late.

## Model

| member | source | states |
|---|---|---|
| ApiException.Messages | src/main/java/com/cvieira/libraryapi/api/exception/ApiErrors.java:15-22 | one message per binding error, in order, each the error's default message |
| ApiException.BusinessErrors | src/main/java/com/cvieira/libraryapi/api/exception/ApiErrors.java:24-27 | the envelope of a business exception is the one-element list of its message |
| ApiException.ApiErrors.FromBindingResult | src/main/java/com/cvieira/libraryapi/api/exception/ApiErrors.java:15-22 | the loop collects exactly the default messages of the binding result, one per error, in order |
| ApiException.ApiErrors.FromBusinessException | src/main/java/com/cvieira/libraryapi/api/exception/ApiErrors.java:24-27 | the error list is exactly the exception's message |
| ApiException.ApiErrors.GetErrors | src/main/java/com/cvieira/libraryapi/api/exception/ApiErrors.java:29-31 | returns the stored list |
| Dto.ViolationsCharacterizeValidity | src/main/java/com/cvieira/libraryapi/dto/BookDTO.java:15-24 | a body is valid iff validation reports nothing; the number of violations is the number of empty fields; a field is reported iff it is absent or empty |
| Dto.IsValid | src/main/java/com/cvieira/libraryapi/dto/BookDTO.java:17-24 | a body is valid iff none of title, author and isbn fails `@NotEmpty`; a valid body has all three present and non-empty |
| Dto.Violations | src/main/java/com/cvieira/libraryapi/dto/BookDTO.java:17-24 | at most three violations, each carrying "must not be empty", each naming title, author or isbn, no field named twice |
| Dto.EmptyBodyHasThreeViolations | src/test/java/com/cvieira/libraryapi/resource/BookControllerTest.java:74-89 | an empty body, and one with three empty strings, each yield three errors |
| Dto.IdUnconstrainedAndBlankAccepted | src/main/java/com/cvieira/libraryapi/dto/BookDTO.java:15-24 | the id does not affect validity; blank but non-empty strings pass `@NotEmpty` |
| Dto.ToEntity | src/main/java/com/cvieira/libraryapi/resource/BookController.java:44 | the entity of a valid body carries the body's id, title, author and isbn |
| Dto.ToDto | src/main/java/com/cvieira/libraryapi/resource/BookController.java:48 | the DTO of a book carries its id, title, author and isbn |
| Dto.MappingRoundTrip | src/main/java/com/cvieira/libraryapi/resource/BookController.java:44-48 | mapping a valid body to an entity and back gives the body; a book with non-empty fields maps to a valid DTO and back to itself |
| Entity.BuildLoan | src/main/java/com/cvieira/libraryapi/resource/LoanController.java:41-45 | a built loan has the given book, customer and date, no id, no email, and is not returned |
| Entity.WithReturned | src/main/java/com/cvieira/libraryapi/model/entity/Loan.java:10-20 | the setter changes `returned` to the given value and no other field |
| Entity.WithReturnedOverrides | src/main/java/com/cvieira/libraryapi/model/entity/Loan.java:20 | setting the flag twice is setting it once with the last value |
| Entity.IsLate | src/test/java/com/cvieira/libraryapi/model/repository/LoanRepositoryTest.java:58-64 | a returned loan is never late; an open loan is late iff its date is at least one day before the cutoff |
| Text.LowerString | src/main/java/com/cvieira/libraryapi/service/impl/BookServiceImpl.java:57 | lowering keeps the length and lowers each character |
| Text.ContainsIgnoreCase | src/main/java/com/cvieira/libraryapi/service/impl/BookServiceImpl.java:57-59 | the probe matches iff its lowered text occurs at some position of the lowered value |
| Text.ContainsIffOccurrence | src/main/java/com/cvieira/libraryapi/service/impl/BookServiceImpl.java:59 | the containment matcher holds iff the probe occurs at some position of the value |
| Text.LowerIdempotent | src/main/java/com/cvieira/libraryapi/service/impl/BookServiceImpl.java:57 | lowering twice is lowering once |
| Text.CaseOfEitherSideIsIgnored | src/main/java/com/cvieira/libraryapi/service/impl/BookServiceImpl.java:57 | the case of the value and of the probe do not change the match |
| Text.EmptyProbeAndSelfMatch | src/main/java/com/cvieira/libraryapi/service/impl/BookServiceImpl.java:59 | the empty probe matches every value and every value matches itself |
| Text.LongerProbeNeverMatches | src/main/java/com/cvieira/libraryapi/service/impl/BookServiceImpl.java:59 | a probe longer than the value never matches |
| Paging.Filter | src/main/java/com/cvieira/libraryapi/service/impl/BookServiceImpl.java:60 | the selection keeps exactly the elements satisfying the predicate, and no more elements than the input |
| Paging.FilterKeepsAll | src/main/java/com/cvieira/libraryapi/service/impl/BookServiceImpl.java:58 | a predicate every element satisfies selects the whole table |
| Paging.FilterKeepsDistinct | src/main/java/com/cvieira/libraryapi/service/impl/BookServiceImpl.java:42 | a selection keeps pairwise distinct keys distinct |
| Paging.FilterAppend | src/main/java/com/cvieira/libraryapi/service/impl/BookServiceImpl.java:60 | selecting from a table extended by one element selects that element iff it qualifies |
| Paging.Slice | src/main/java/com/cvieira/libraryapi/service/impl/BookServiceImpl.java:60 | the window of a page request is the run of elements starting at page × size, at most size long |
| Paging.PageOf | src/main/java/com/cvieira/libraryapi/service/impl/BookServiceImpl.java:60 | a page answers its request, counts all matches, and shows exactly the window of the matches at the page offset |
| Paging.FirstPageShowsAll | src/test/java/com/cvieira/libraryapi/model/repository/LoanRepositoryTest.java:47-53 | a first page at least as large as the matches holds all of them |
| BookService.LookupId | src/main/java/com/cvieira/libraryapi/service/impl/BookServiceImpl.java:32-34 | finds a stored book with the id, and is empty iff no stored book has it |
| BookService.LookupIsbn | src/main/java/com/cvieira/libraryapi/service/impl/BookServiceImpl.java:63-66 | finds a stored book with the isbn, and is empty iff no stored book has it |
| BookService.LookupIsbnFindsTheBook | src/main/java/com/cvieira/libraryapi/service/impl/BookServiceImpl.java:63-66 | with unique isbns, looking up a stored book's isbn finds that very book |
| BookService.IsbnTaken | src/main/java/com/cvieira/libraryapi/service/impl/BookServiceImpl.java:26 | `existsByIsbn`: some stored book has the isbn |
| BookService.RemoveId | src/main/java/com/cvieira/libraryapi/service/impl/BookServiceImpl.java:42 | `repository.delete`: the table keeps exactly the records with another id, and does not grow |
| BookService.Overwrite | src/main/java/com/cvieira/libraryapi/service/impl/BookServiceImpl.java:50 | the merge write replaces exactly the records with the book's id and keeps the length |
| BookService.RepositorySave | src/main/java/com/cvieira/libraryapi/service/impl/BookServiceImpl.java:29 | the write succeeds with the book under an id; a book whose id is stored overwrites that record, keeping the length and the counter; any other book is appended under the next id and the counter moves on |
| BookService.SaveBook | src/main/java/com/cvieira/libraryapi/service/impl/BookServiceImpl.java:25-30 | a taken isbn fails with "ISBN já cadastrado" and writes nothing; otherwise the book is returned with an id and unchanged fields, and a book with no stored id is appended under the next id |
| BookService.UpdateBook | src/main/java/com/cvieira/libraryapi/service/impl/BookServiceImpl.java:45-51 | a book without an id fails with "Book id cant be null." and writes nothing; a stored id is overwritten in place with the counter unchanged; an id that is not stored is appended under the next id, as the merge save does, and the counter moves on |
| BookService.DeleteBook | src/main/java/com/cvieira/libraryapi/service/impl/BookServiceImpl.java:36-43 | a book without an id fails with "Book id cant be null." and writes nothing; otherwise it succeeds, its id is no longer found, and every record with another id stays |
| BookService.ProbeMatches | src/main/java/com/cvieira/libraryapi/service/impl/BookServiceImpl.java:57-59 | a null probe is ignored; an empty probe and the value itself always match; a probe longer than the value never matches |
| BookService.Matches | src/main/java/com/cvieira/libraryapi/service/impl/BookServiceImpl.java:55-59 | a book matches iff every populated field of the example matches: the id by equality, and each string probe as a case-insensitive substring (`Text.ContainsIgnoreCase`) of the same stored field; the all-null example and the book's own full example both match |
| BookService.Matching | src/main/java/com/cvieira/libraryapi/service/impl/BookServiceImpl.java:55-60 | exactly the stored books that match the example, and no more of them than stored |
| BookService.FindBooks | src/main/java/com/cvieira/libraryapi/service/impl/BookServiceImpl.java:53-61 | the page answers the request, counts every match, holds only stored books matching the example, and shows exactly the window of the matches, in table order; a first page as large as the match count holds every match |
| BookService.EmptyExampleSelectsAll | src/main/java/com/cvieira/libraryapi/service/impl/BookServiceImpl.java:58 | an example with every field null matches the whole table |
| BookService.ProbeCaseIsIgnored | src/main/java/com/cvieira/libraryapi/service/impl/BookServiceImpl.java:57 | lower-casing a probe of title, author or isbn does not change the match |
| BookService.HasIdTail | src/main/java/com/cvieira/libraryapi/service/impl/BookServiceImpl.java:32-34 | an id is stored iff it is the first record's or stored in the rest |
| BookService.LookupAfterAppend | src/main/java/com/cvieira/libraryapi/service/impl/BookServiceImpl.java:29 | after appending a book with a new id, that id finds it and every other id finds what it found before |
| BookService.LookupAfterOverwrite | src/main/java/com/cvieira/libraryapi/service/impl/BookServiceImpl.java:50 | after a merge, the book's id finds the book and other ids are unaffected |
| BookService.LookupAfterRemove | src/main/java/com/cvieira/libraryapi/service/impl/BookServiceImpl.java:42 | after removing an id, that id finds nothing and every other id finds what it found before |
| BookService.RemoveShrinksByOne | src/main/java/com/cvieira/libraryapi/service/impl/BookServiceImpl.java:42 | with distinct ids, removing a stored id removes exactly one record and removing an unknown id removes none |
| BookService.RemoveKeepsInvariants | src/main/java/com/cvieira/libraryapi/service/impl/BookServiceImpl.java:42 | removal keeps ids valid and isbns distinct |
| BookService.RepositorySaveKeepsIdsAndOthers | src/main/java/com/cvieira/libraryapi/service/impl/BookServiceImpl.java:29 | the repository write keeps ids valid, never lowers the generator, makes the returned record findable by its id, and leaves every other id's record alone |
| BookService.OverwriteKeepsIdsAndOthers | src/main/java/com/cvieira/libraryapi/service/impl/BookServiceImpl.java:50 | merging a stored id keeps ids valid, makes the id find the new book, and leaves other ids alone |
| BookService.OverwriteKeepsIds | src/main/java/com/cvieira/libraryapi/service/impl/BookServiceImpl.java:50 | a merge keeps ids valid |
| BookService.AppendKeepsIdsAndOthers | src/main/java/com/cvieira/libraryapi/service/impl/BookServiceImpl.java:29 | inserting under the next id keeps ids valid, makes that id find the book, and leaves other ids alone |
| BookService.SaveKeepsInvariants | src/main/java/com/cvieira/libraryapi/service/impl/BookServiceImpl.java:25-30 | a save keeps ids valid and isbns pairwise distinct |
| BookService.OverwriteFreshIsbnKeepsIsbnsUnique | src/main/java/com/cvieira/libraryapi/service/impl/BookServiceImpl.java:26-29 | with distinct ids, merging a book whose isbn is not taken keeps isbns pairwise distinct |
| BookService.AppendFreshIsbnKeepsIsbnsUnique | src/main/java/com/cvieira/libraryapi/service/impl/BookServiceImpl.java:26-29 | appending a book whose isbn is not taken keeps isbns pairwise distinct |
| BookService.SavedBookIsFindable | src/main/java/com/cvieira/libraryapi/service/impl/BookServiceImpl.java:25-30 | a successful save is found by its id and by its isbn, and no other id's record changes |
| BookService.UpdateOverwritesOnlyThatRecord | src/main/java/com/cvieira/libraryapi/service/impl/BookServiceImpl.java:45-51 | updating a stored book returns it, keeps ids valid and the length, makes its id find it, and leaves every other id alone |
| BookService.UpdateKeepingIsbnKeepsIsbnsUnique | src/main/java/com/cvieira/libraryapi/service/impl/BookServiceImpl.java:45-51 | an update that keeps the record's isbn keeps isbns pairwise distinct |
| BookService.DeleteRemovesOnlyThatRecord | src/main/java/com/cvieira/libraryapi/service/impl/BookServiceImpl.java:36-43 | deleting a book with an id keeps the invariants, makes its id find nothing, leaves other ids alone, and shrinks the table by one iff the id was stored |
| BookService.Catalog.constructor | src/main/java/com/cvieira/libraryapi/service/impl/BookServiceImpl.java:21-23 | a new catalogue is empty with the generator at 1 |
| BookService.Catalog.Persist | src/main/java/com/cvieira/libraryapi/service/impl/BookServiceImpl.java:29 | the stateful repository write is the merge write |
| BookService.Catalog.Save | src/main/java/com/cvieira/libraryapi/service/impl/BookServiceImpl.java:25-30 | the stateful save has exactly the outcome and new table of SaveBook, and keeps the invariant |
| BookService.Catalog.Update | src/main/java/com/cvieira/libraryapi/service/impl/BookServiceImpl.java:45-51 | the stateful update has exactly the outcome and new table of UpdateBook |
| BookService.Catalog.Delete | src/main/java/com/cvieira/libraryapi/service/impl/BookServiceImpl.java:36-43 | the stateful delete has exactly the outcome and new table of DeleteBook, and leaves the generator alone |
| BookController.Answer | src/main/java/com/cvieira/libraryapi/resource/BookController.java:46-48 | a saved book is answered as its DTO, a business failure as a 400 holding its message |
| BookController.ToExample | src/main/java/com/cvieira/libraryapi/resource/BookController.java:89 | the example carries the query's fields |
| BookController.ToDtos | src/main/java/com/cvieira/libraryapi/resource/BookController.java:93-96 | the content is mapped element by element |
| BookController.CreateBook | src/main/java/com/cvieira/libraryapi/resource/BookController.java:39-49 | an invalid body answers 400 with its violations; a taken isbn answers 400 "ISBN já cadastrado"; neither writes; otherwise the answer is the body with an assigned id, appended under the next id when the body names no stored id |
| BookController.GetBook | src/main/java/com/cvieira/libraryapi/resource/BookController.java:51-59 | 404 iff no stored book has the id; otherwise the DTO of the stored book with that id; never 400 |
| BookController.DeleteBookById | src/main/java/com/cvieira/libraryapi/resource/BookController.java:61-71 | 404 and no write iff the id is unknown; otherwise success, the id is no longer found, and every other record stays |
| BookController.UpdateBookById | src/main/java/com/cvieira/libraryapi/resource/BookController.java:73-84 | an invalid body answers 400 with its violations and an unknown id 404, with no write; otherwise 200 with the stored id and isbn and the body's title and author, the same id counter and the same table length |
| BookController.FindBookDtos | src/main/java/com/cvieira/libraryapi/resource/BookController.java:86-99 | the page answers the request, counts every match, and shows exactly the DTOs of the window of matching stored books, in table order; a covering first page holds every match |
| BookController.LoansOfBook | src/main/java/com/cvieira/libraryapi/resource/BookController.java:101-119 | 404 iff the book id is unknown; otherwise exactly the loan service's page of that book's loans, counting all of them, holding only them, and every one of them on a covering first page |
| BookController.CreatedBookIsRetrievable | src/main/java/com/cvieira/libraryapi/resource/BookController.java:39-59 | creation keeps ids valid and isbns unique, and a created book is answered back unchanged by GET of its id |
| BookController.DuplicateIsbnRefused | src/test/java/com/cvieira/libraryapi/resource/BookControllerTest.java:91-112 | after a successful create, a create with the same isbn answers 400 "ISBN já cadastrado" and writes nothing |
| BookController.DeletedBookIsGone | src/main/java/com/cvieira/libraryapi/resource/BookController.java:61-71 | after a delete the id answers 404, other ids answer as before, the table shrinks by one iff the id was stored, and the invariants survive |
| BookController.UpdateChangesOnlyTitleAndAuthor | src/main/java/com/cvieira/libraryapi/resource/BookController.java:73-84 | a valid update of a known id answers the record with the new title and author and its old id and isbn, GET of the id answers the same, the generator and the length are unchanged |
| BookController.UpdateLeavesOtherBooks | src/main/java/com/cvieira/libraryapi/resource/BookController.java:73-84 | a valid update of a known id leaves every other id answering as before |
| BookController.UpdateKeepsInvariants | src/main/java/com/cvieira/libraryapi/resource/BookController.java:73-84 | a valid update of a known id keeps ids valid and keeps isbns unique |
| BookController.Create | src/main/java/com/cvieira/libraryapi/resource/BookController.java:39-49 | the endpoint over the catalogue answers and writes exactly as CreateBook |
| BookController.Delete | src/main/java/com/cvieira/libraryapi/resource/BookController.java:61-71 | the endpoint over the catalogue answers and writes exactly as DeleteBookById |
| BookController.Update | src/main/java/com/cvieira/libraryapi/resource/BookController.java:73-84 | the endpoint over the catalogue answers and writes exactly as UpdateBookById |
| LoanService.SaveLoan | src/test/java/com/cvieira/libraryapi/service/LoanServiceTest.java:44-90 | a book with an open loan fails with "Book already loaned" and writes nothing; otherwise the loan is appended under the next id and returned |
| LoanService.GetLoan | src/test/java/com/cvieira/libraryapi/service/LoanServiceTest.java:94-111 | with dense ids, a loan is found iff one has the id, and the one found has it |
| LoanService.ActiveLoanFor | src/test/java/com/cvieira/libraryapi/service/LoanServiceTest.java:74-90 | `existsByBookAndNotReturned`: the book is out iff the selection of open loans with its id is non-empty |
| LoanService.MatchesIsbnOrCustomer | src/test/java/com/cvieira/libraryapi/model/repository/LoanRepositoryTest.java:44-54 | `findByBookIsbnOrCustomer`: an equal isbn or an equal present customer selects the loan; with both filter values null, exactly the loans without a customer are selected; nothing else is selected |
| LoanService.UpdateLoan | src/test/java/com/cvieira/libraryapi/service/LoanServiceTest.java:115-125 | an update keeps the length, writes the record at the loan's id, and leaves every record with another id unchanged |
| LoanService.FindLoans | src/test/java/com/cvieira/libraryapi/model/repository/LoanRepositoryTest.java:44-54 | the page answers the request, counts every loan whose isbn or customer matches, and shows exactly the window of those loans, in table order; a first page as large as their count holds all of them |
| LoanService.LateLoans | src/test/java/com/cvieira/libraryapi/model/repository/LoanRepositoryTest.java:58-75 | exactly the open loans dated strictly before the cutoff |
| LoanService.AllLateLoans | src/main/java/com/cvieira/libraryapi/service/ScheduleService.java:22 | `getAllLateLoans`: every open loan dated strictly before today − 4 is selected, and every selected loan is open, stored and at least five days old |
| LoanService.LoansByBook | src/main/java/com/cvieira/libraryapi/resource/BookController.java:106 | the page answers the request, counts the loans of the book, and shows exactly the window of those loans, in table order; a first page as large as their count holds all of them |
| LoanService.SaveKeepsInvariants | src/test/java/com/cvieira/libraryapi/service/LoanServiceTest.java:74-90 | saving keeps ids dense and at most one open loan per book |
| LoanService.SecondLoanRefused | src/test/java/com/cvieira/libraryapi/service/LoanServiceTest.java:74-90 | once a loan of a book is saved open, a second loan of the same book is refused and writes nothing |
| LoanService.ReturnUpdatesOnlyThatLoan | src/test/java/com/cvieira/libraryapi/service/LoanServiceTest.java:115-125 | writing back a loan with a new flag keeps ids dense, makes the id find the updated loan, leaves other ids alone, and repeating it changes nothing |
| LoanService.ReturnFreesTheBook | src/test/java/com/cvieira/libraryapi/model/repository/LoanRepositoryTest.java:33-40 | returning an open loan keeps at most one open loan per book and leaves its book with no open loan |
| LoanService.ReturningTrueKeepsSingleActive | src/test/java/com/cvieira/libraryapi/model/repository/LoanRepositoryTest.java:33-40 | setting a flag to true never creates a second open loan |
| LoanService.LateLoanBoundary | src/test/java/com/cvieira/libraryapi/model/repository/LoanRepositoryTest.java:58-75 | with cutoff today − 4, a loan from today − 5 is late, loans from today and from today − 4 are not |
| LoanService.FindMatchesEitherField | src/test/java/com/cvieira/libraryapi/model/repository/LoanRepositoryTest.java:44-54 | the loan filter is a disjunction: with isbn "123" and customer "123" it finds the loan of that isbn and the loan to that customer, and not the third |
| LoanService.FindNullCustomerSelectsLoansWithoutOne | src/test/java/com/cvieira/libraryapi/model/repository/LoanRepositoryTest.java:44-54 | a null customer in the filter selects the loans that have no customer |
| LoanService.Ledger.constructor | src/test/java/com/cvieira/libraryapi/service/LoanServiceTest.java:38-41 | a new ledger is empty |
| LoanService.Ledger.Save | src/test/java/com/cvieira/libraryapi/service/LoanServiceTest.java:44-90 | the stateful save has exactly the outcome and new table of SaveLoan and keeps ids dense |
| LoanService.Ledger.Update | src/test/java/com/cvieira/libraryapi/service/LoanServiceTest.java:115-125 | the stateful update writes exactly as UpdateLoan and keeps ids dense |
| LoanController.CreateLoan | src/main/java/com/cvieira/libraryapi/resource/LoanController.java:38-50 | no stored book with the isbn answers 400 "Book not found for passed isbn"; a found book that is out answers 400 "Book already loaned"; a refusal writes nothing; success answers the next id and appends an open loan of a stored book with that isbn, to the request's customer, dated today, with no email; it succeeds iff the found book has no open loan |
| LoanController.ReturnLoan | src/main/java/com/cvieira/libraryapi/resource/LoanController.java:53-58 | answers 200 or 404, 404 iff the id is unknown, keeps the table's length, and 404 writes nothing |
| LoanController.ReturnLoanGuarded | src/main/java/com/cvieira/libraryapi/resource/LoanController.java:53-58 | like ReturnLoan (404 iff the id is unknown, with no write), but it answers 400 "Book already loaned" with no write exactly when a returned loan would be reopened while its book is out |
| LoanController.ReturnSetsOnlyThatFlag | src/main/java/com/cvieira/libraryapi/resource/LoanController.java:53-58 | 404 iff no loan has the id; otherwise that loan takes exactly the requested flag and every other loan is unchanged; ids stay dense; repeating the request changes nothing |
| LoanController.GuardedReturnKeepsSingleActive | src/main/java/com/cvieira/libraryapi/resource/LoanController.java:53-58 | the guarded return keeps ids dense and one open loan per book, and agrees with the return as written except when it refuses, always when returning true |
| LoanController.CreateLeavesEmailsAbsent | src/main/java/com/cvieira/libraryapi/resource/LoanController.java:41-45 | a created loan carries no contact email |
| LoanController.SecondBorrowWaitsForReturn | src/test/java/com/cvieira/libraryapi/resource/LoanControllerTest.java:96-116 | a second loan of the same isbn answers 400 "Book already loaned"; after the first is returned it succeeds under the next id |
| LoanController.StepKeepsInvariants | src/main/java/com/cvieira/libraryapi/resource/LoanController.java:38-58 | each served request keeps ids dense and one open loan per book, and agrees with the written endpoints unless it sets a flag to false |
| LoanController.RunKeepsSingleActive | src/main/java/com/cvieira/libraryapi/resource/LoanController.java:38-58 | after any sequence of creates and guarded returns, ids are dense and each book has at most one open loan |
| LoanController.RunAsWrittenWithoutReopening | src/main/java/com/cvieira/libraryapi/resource/LoanController.java:53-58 | as written, a run whose returns all set true equals the guarded run and keeps the invariant |
| LoanController.RunsLeaveEmailsAbsent | src/main/java/com/cvieira/libraryapi/resource/LoanController.java:41-45 | no run, written or guarded, stores a contact email |
| LoanController.ReopeningBreaksSingleActive | src/main/java/com/cvieira/libraryapi/resource/LoanController.java:53-58 | lend, return, lend again, then set the first loan's flag to false: as written two loans of the book are open; guarded, the invariant holds |
| LoanController.Create | src/main/java/com/cvieira/libraryapi/resource/LoanController.java:38-50 | the endpoint over the catalogue and ledger answers and writes exactly as CreateLoan |
| LoanController.ReturnBook | src/main/java/com/cvieira/libraryapi/resource/LoanController.java:53-58 | the endpoint over the ledger answers and writes exactly as ReturnLoan |
| LoanController.ReturnBookGuarded | src/main/java/com/cvieira/libraryapi/resource/LoanController.java:53-58 | the corrected endpoint answers and writes exactly as ReturnLoanGuarded |
| ScheduleService.Recipients | src/main/java/com/cvieira/libraryapi/service/ScheduleService.java:24-26 | one entry per late loan, in order, each that loan's contact (null included) |
| ScheduleService.Mailer.constructor | src/main/java/com/cvieira/libraryapi/service/impl/EmailServiceImpl.java:17-20 | the sender is the configured address and nothing has been sent |
| ScheduleService.Mailer.SendEmails | src/main/java/com/cvieira/libraryapi/service/impl/EmailServiceImpl.java:23-34 | one message from the sender with subject "Livro com empréstimo atrasado", the given text and the given recipients is sent |
| ScheduleService.SendMailToLateLoans | src/main/java/com/cvieira/libraryapi/service/ScheduleService.java:21-31 | exactly one message, with the fixed text, addressed to the contacts of all late loans, even when there are none |
| ScheduleService.RecipientsAreTheLateLoans | src/main/java/com/cvieira/libraryapi/service/ScheduleService.java:22-26 | every recipient is the contact of an open loan lent before today − 4, and every such loan's contact is a recipient |
| ScheduleService.RecipientsOfServedLoansAreAbsent | src/main/java/com/cvieira/libraryapi/service/ScheduleService.java:24-26 | for a ledger built by the loan endpoints, every recipient is null |

## Left out

- HTTP routing, JSON, logging, Swagger annotations and status codes beyond
  the 200/404/400 distinction are not modelled. ModelMapper is modelled only
  as the field-by-field copies `ToEntity`, `ToDto` and `ToExample`.
- The loan page DTOs. `find` in LoanController.java:61-74 and
  `loandByBook` in BookController.java:101-119 map each loan to a
  `LoanDTO`. The model answers the loans themselves. BookController.java:112
  maps the *loan*, not its book, to the nested `BookDTO`. Which fields that
  copies depends on ModelMapper's matching rules, which are not part of this
  model.
- JPA and the database are replaced by sequences: no sessions, lazy loading,
  transactions or concurrency. Two concurrent loan creations cannot race in
  the model.
- A loan holds its book as a value (a snapshot). Updating a book does not
  change the copy inside its loans. The open-loan check and the loans of a
  book compare book ids, so the copy does not matter to them. It does matter
  to `LoanService.MatchesIsbnOrCustomer`. A POST of a book with a stored id
  and a new isbn overwrites the stored isbn, but the loans keep the old one.
  A find by isbn then matches the old isbn in the model, where the database
  join would match the new one.
- Stored books have non-null title, author and isbn. Only the request DTOs
  and the filters can hold null.
- Strings are ASCII for case-insensitive matching. `Text.Lower` lowers only
  A–Z. LIKE wildcards (`%`, `_`) in a probe are treated as ordinary
  characters.
- `LoanServiceImpl`, the repositories, `Book.java`, `LoanDTO` and
  `ReturnedLoadDTO` are not part of this model. The rules of the loan
  service are inferred from its tests and callers:
  - the open-loan check before save;
  - the late cutoff, today − 4 with strictly less than;
  - the disjunctive find, with a null filter value compared as IS NULL.
- `Loan.java` declares no email, but `ScheduleService` reads
  `getCustomerEmail()`. The model gives `Loan` a `customerEmail` that
  nothing sets, so every recipient is null.
- The nightly trigger (`@Scheduled(cron = "0 0 0 1/1 * ?")`), the
  start-up mail in LibraryApiApplication.java:28-34 and the mail transport
  (`JavaMailSender.send`, the sender address from configuration) are left
  out. The sender address is a constructor parameter. The clock is the
  `today` parameter.
- `ApiErrors.getErrors` returning a non-null list is automatic in the
  model, because a `seq` cannot be null.
- Runs (`LoanController.Run`, `RunAsWritten`) serve loan requests over a
  fixed book table. Book writes in between are not interleaved.
- LoanController.ReturnLoan: its own contract states the answer and the
  length of the table. The written record is in `ReturnSetsOnlyThatFlag`.
- LoanService.UpdateLoan: an id outside the table, or a missing id, leaves the
  table unchanged. JPA's `save` would insert such a loan as a new row. The
  controllers only update loans that `GetLoan` found, so they never take this
  path.
- BookService.RepositorySave: its own contract states the saved record and
  the new table in terms of merge and append. That the other records are
  untouched and the ids stay valid is in `RepositorySaveKeepsIdsAndOthers`.
- BookService.DeleteBook: its own contract states that the id is gone and
  that every other record stays. That the ids stay valid and the table
  shrinks by exactly one is in `DeleteRemovesOnlyThatRecord`.
- BookController.UpdateBookById: its own contract states the answer, the id
  counter and the length of the table. That only that record changes is in
  `UpdateChangesOnlyTitleAndAuthor` and `UpdateLeavesOtherBooks`.
- Dto.Violations: the text "must not be empty" is Hibernate Validator's
  English default for `@NotEmpty`, and it changes with the locale. The model
  reports the violations in field declaration order (title, author, isbn).
  Bean Validation does not promise an order, and
  src/test/java/com/cvieira/libraryapi/resource/BookControllerTest.java:87
  checks only that there are three.

## Findings

| source | as written | input that shows it | evidently intended | confidence | as-written member | corrected member |
|---|---|---|---|---|---|---|
| src/main/java/com/cvieira/libraryapi/resource/LoanController.java:53-58 | `returnBook` copies the requested flag, including `false`, onto any loan without checking the book's other loans | lend book "001" (loan 1), return loan 1, lend "001" again (loan 2), then PATCH loan 1 with `{returned: false}`: loans 1 and 2 are both open for the same book | at most one open loan per book at any time; a returned loan is not reopened while its book is out | medium, not executed | LoanController.ReopeningBreaksSingleActive | LoanController.RunKeepsSingleActive |

`LoanController.ReturnLoan` and `LoanController.ReturnBook` model the
endpoint as written. `LoanController.ReturnLoanGuarded` and
`LoanController.ReturnBookGuarded` refuse the reopening with
"Book already loaned". `RunKeepsSingleActive` proves the invariant for every
sequence of requests served with the guarded return.
