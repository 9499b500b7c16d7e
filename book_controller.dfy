/** The `/api/books` endpoints: validation of the request body, the calls into
    the book service and the answer each outcome becomes. */
module BookController {
  import opened Wrappers
  import opened Failures
  import opened Entity
  import opened Paging
  import opened Dto
  import opened ApiException
  import opened BookService
  import LoanService

  /** What an endpoint answers, with the book table and id generator after it. */
  datatype Outcome<T> = Outcome(response: Response<T>, books: seq<Book>, nextId: int)

  /** The answer a service result becomes: the saved book as a DTO, or a 400
      whose error list is the exception's message. */
  function Answer(r: Result<Book, ServiceError>): (a: Response<BookDto>)
    ensures r.Success? ==> a == Ok(ToDto(r.value))
    ensures r.Failure? ==> a == BadRequest([r.error.message])
  {
    match r
    case Success(b) => Ok(ToDto(b))
    case Failure(e) => BadRequest(BusinessErrors(e))
  }

  /** The example a query-string DTO maps to. */
  function ToExample(dto: BookDto): (e: BookExample)
    ensures e.id == dto.id && e.title == dto.title && e.author == dto.author && e.isbn == dto.isbn
  {
    BookExample(dto.id, dto.title, dto.author, dto.isbn)
  }

  function ToDtos(books: seq<Book>): (r: seq<BookDto>)
    ensures |r| == |books|
    ensures forall i :: 0 <= i < |books| ==> r[i] == ToDto(books[i])
  {
    if books == [] then [] else [ToDto(books[0])] + ToDtos(books[1..])
  }

  // ---------------------------------------------------------------- endpoints

  /** `POST /api/books`: an invalid body is answered with its violations; a
      taken isbn with the business message; otherwise the book is stored and
      echoed back with its id. */
  function CreateBook(books: seq<Book>, nextId: int, dto: BookDto): (r: Outcome<BookDto>)
    ensures !IsValid(dto) ==> r == Outcome(BadRequest(Messages(Violations(dto))), books, nextId)
    ensures IsValid(dto) && IsbnTaken(books, dto.isbn.value) ==>
              r == Outcome(BadRequest([DuplicateIsbnMessage]), books, nextId)
    ensures IsValid(dto) && !IsbnTaken(books, dto.isbn.value) ==>
              && r.response.Ok?
              && r.response.body.id.Some?
              && r.response.body == dto.(id := r.response.body.id)
    ensures IsValid(dto) && !IsbnTaken(books, dto.isbn.value) && !HasId(books, dto.id) ==>
              && r.response == Ok(dto.(id := Some(nextId)))
              && r.books == books + [ToEntity(dto).(id := Some(nextId))]
  {
    if !IsValid(dto) then Outcome(BadRequest(Messages(Violations(dto))), books, nextId)
    else
      var s := SaveBook(books, nextId, ToEntity(dto));
      Outcome(Answer(s.result), s.books, s.nextId)
  }

  /** `GET /api/books/{id}`: the stored book with that id, or a 404. */
  function GetBook(books: seq<Book>, id: int): (r: Response<BookDto>)
    ensures r.NotFound? <==> !HasId(books, Some(id))
    ensures r.Ok? ==> exists i :: 0 <= i < |books| && books[i].id == Some(id) && r.body == ToDto(books[i])
    ensures !r.BadRequest?
  {
    match LookupId(books, id)
    case Some(b) => Ok(ToDto(b))
    case None => NotFound
  }

  /** `DELETE /api/books/{id}`: a 404 for an unknown id, otherwise the record
      is removed. */
  function DeleteBookById(books: seq<Book>, id: int): (r: (Response<()>, seq<Book>))
    ensures !HasId(books, Some(id)) ==> r == (NotFound, books)
    ensures HasId(books, Some(id)) ==> r.0 == Ok(())
    ensures HasId(books, Some(id)) ==>
              LookupId(r.1, id).None? && forall i :: 0 <= i < |books| && books[i].id != Some(id) ==> books[i] in r.1
  {
    match LookupId(books, id)
    case None => (NotFound, books)
    case Some(b) => (Ok(()), DeleteBook(books, b).1)
  }

  /** `PUT /api/books/{id}`: an invalid body is answered with its violations and
      an unknown id with a 404; otherwise the stored record takes the body's
      title and author and keeps its own id and isbn. */
  function UpdateBookById(books: seq<Book>, nextId: int, id: int, dto: BookDto): (r: Outcome<BookDto>)
    ensures !IsValid(dto) ==> r == Outcome(BadRequest(Messages(Violations(dto))), books, nextId)
    ensures IsValid(dto) && !HasId(books, Some(id)) ==> r == Outcome(NotFound, books, nextId)
    ensures IsValid(dto) && HasId(books, Some(id)) ==>
              && r.response.Ok? && r.response.body.id == Some(id)
              && r.response.body.title == dto.title && r.response.body.author == dto.author
              && r.response.body.isbn == Some(LookupId(books, id).value.isbn)
              && r.nextId == nextId && |r.books| == |books|
  {
    if !IsValid(dto) then Outcome(BadRequest(Messages(Violations(dto))), books, nextId)
    else
      match LookupId(books, id)
      case None => Outcome(NotFound, books, nextId)
      case Some(b) =>
        var s := UpdateBook(books, nextId, b.(author := dto.author.value, title := dto.title.value));
        Outcome(Answer(s.result), s.books, s.nextId)
  }

  /** `GET /api/books`: the requested page of the books matching the query,
      as DTOs, with the total count of matches. */
  function FindBookDtos(books: seq<Book>, dto: BookDto, req: PageRequest): (p: Page<BookDto>)
    ensures p.pageable == req
    ensures p.totalElements == |Matching(books, ToExample(dto))|
    ensures forall i :: 0 <= i < |p.content| ==>
              exists j :: 0 <= j < |books| && Matches(ToExample(dto), books[j]) && p.content[i] == ToDto(books[j])
    ensures req.page == 0 && |books| <= req.size ==>
              forall j :: 0 <= j < |books| && Matches(ToExample(dto), books[j]) ==> ToDto(books[j]) in p.content
    ensures p.content == ToDtos(FindBooks(books, ToExample(dto), req).content)
    ensures p.content == ToDtos(Slice(Matching(books, ToExample(dto)), req))
  {
    var page := FindBooks(books, ToExample(dto), req);
    DtosOfMatches(books, ToExample(dto), page.content);
    Page(ToDtos(page.content), req, page.totalElements)
  }

  /** Each DTO of a sequence of matching stored books comes from a matching
      stored book, and each stored book the sequence holds is shown as its DTO. */
  lemma DtosOfMatches(books: seq<Book>, filter: BookExample, c: seq<Book>)
    requires forall i :: 0 <= i < |c| ==> c[i] in books && Matches(filter, c[i])
    ensures forall i :: 0 <= i < |c| ==>
              exists j :: 0 <= j < |books| && Matches(filter, books[j]) && ToDtos(c)[i] == ToDto(books[j])
    ensures forall j :: 0 <= j < |books| && books[j] in c ==> ToDto(books[j]) in ToDtos(c)
  {
    forall i | 0 <= i < |c|
      ensures exists j :: 0 <= j < |books| && Matches(filter, books[j]) && ToDtos(c)[i] == ToDto(books[j])
    {
      var j :| 0 <= j < |books| && books[j] == c[i];
      assert ToDtos(c)[i] == ToDto(books[j]);
    }
    forall j | 0 <= j < |books| && books[j] in c
      ensures ToDto(books[j]) in ToDtos(c)
    {
      var k :| 0 <= k < |c| && c[k] == books[j];
      assert ToDtos(c)[k] == ToDto(books[j]);
    }
  }

  /** `GET /api/books/{id}/loans`: a 404 for an unknown id, otherwise the
      requested page of that book's loans. */
  function LoansOfBook(books: seq<Book>, loans: seq<Loan>, id: int, req: PageRequest): (r: Response<Page<Loan>>)
    ensures r.NotFound? <==> !HasId(books, Some(id))
    ensures !r.BadRequest?
    ensures r.Ok? ==> r.body.pageable == req
    ensures r.Ok? ==> forall i :: 0 <= i < |r.body.content| ==>
              r.body.content[i] in loans && r.body.content[i].book.id == Some(id)
    ensures r.Ok? && req.page == 0 && |loans| <= req.size ==>
              forall i :: 0 <= i < |loans| && loans[i].book.id == Some(id) ==> loans[i] in r.body.content
    ensures r.Ok? ==> r.body == LoanService.LoansByBook(loans, LookupId(books, id).value, req)
    ensures r.Ok? ==> r.body.totalElements == |Filter(loans, (l: Loan) => l.book.id == Some(id))|
  {
    match LookupId(books, id)
    case None => NotFound
    case Some(b) => Ok(LoanService.LoansByBook(loans, b, req))
  }

  // ---------------------------------------------------------------- lemmas

  /** Creating keeps the table's invariants, and a created book is answered
      back, unchanged, by a lookup of its id. */
  lemma CreatedBookIsRetrievable(books: seq<Book>, nextId: int, dto: BookDto)
    requires IdsValid(books, nextId) && IsbnsUnique(books)
    ensures var r := CreateBook(books, nextId, dto);
            && IdsValid(r.books, r.nextId)
            && IsbnsUnique(r.books)
            && (r.response.Ok? ==> GetBook(r.books, r.response.body.id.value) == r.response)
  {
    if IsValid(dto) {
      SaveKeepsInvariants(books, nextId, ToEntity(dto));
      if !IsbnTaken(books, dto.isbn.value) {
        SavedBookIsFindable(books, nextId, ToEntity(dto));
      }
    }
  }

  /** Two creations with the same isbn: the second is refused with the business
      message and the table keeps only the first. */
  lemma DuplicateIsbnRefused(books: seq<Book>, nextId: int, first: BookDto, second: BookDto)
    requires IsValid(first) && IsValid(second) && first.isbn == second.isbn
    requires CreateBook(books, nextId, first).response.Ok?
    ensures var r1 := CreateBook(books, nextId, first);
            CreateBook(r1.books, r1.nextId, second) ==
              Outcome(BadRequest([DuplicateIsbnMessage]), r1.books, r1.nextId)
  {
    var r1 := CreateBook(books, nextId, first);
    var s := SaveBook(books, nextId, ToEntity(first));
    assert s.result.value in s.books;
  }

  /** After a delete the id answers 404, every other id answers as before, the
      table shrinks by the deleted record and keeps its invariants. */
  lemma DeletedBookIsGone(books: seq<Book>, nextId: int, id: int)
    requires IdsValid(books, nextId)
    ensures var r := DeleteBookById(books, id);
            && IdsValid(r.1, nextId)
            && (IsbnsUnique(books) ==> IsbnsUnique(r.1))
            && GetBook(r.1, id) == NotFound
            && (forall k :: k != id ==> GetBook(r.1, k) == GetBook(books, k))
            && |r.1| == if HasId(books, Some(id)) then |books| - 1 else |books|
  {
    match LookupId(books, id)
    case None =>
    case Some(b) =>
      DeleteRemovesOnlyThatRecord(books, nextId, b);
  }

  /** A valid update of a known id answers the record with the new title and
      author and its old id and isbn, and the lookup of that id answers the
      same. */
  lemma UpdateChangesOnlyTitleAndAuthor(books: seq<Book>, nextId: int, id: int, dto: BookDto)
    requires IdsValid(books, nextId) && IsValid(dto) && HasId(books, Some(id))
    ensures var r := UpdateBookById(books, nextId, id, dto);
            && r.response == Ok(BookDto(Some(id), dto.title, dto.author, Some(LookupId(books, id).value.isbn)))
            && GetBook(r.books, id) == r.response
            && r.nextId == nextId && |r.books| == |books|
  {
    var b := LookupId(books, id).value;
    var nb := b.(author := dto.author.value, title := dto.title.value);
    OverwriteKeepsIdsAndOthers(books, nextId, nb);
    assert UpdateBookById(books, nextId, id, dto) == Outcome(Ok(ToDto(nb)), Overwrite(books, nb), nextId);
  }

  /** A valid update of a known id leaves every other id answering as before. */
  lemma UpdateLeavesOtherBooks(books: seq<Book>, nextId: int, id: int, dto: BookDto)
    requires IdsValid(books, nextId) && IsValid(dto) && HasId(books, Some(id))
    ensures forall k :: k != id ==> GetBook(UpdateBookById(books, nextId, id, dto).books, k) == GetBook(books, k)
  {
    var nb := LookupId(books, id).value.(author := dto.author.value, title := dto.title.value);
    var after := Overwrite(books, nb);
    assert UpdateBookById(books, nextId, id, dto).books == after by {
      assert UpdateBook(books, nextId, nb).books == after;
    }
    OverwriteKeepsIdsAndOthers(books, nextId, nb);
    assert nb.id == Some(id);
    SameLookupSameAnswer(after, books, id);
  }

  lemma SameLookupSameAnswer(a: seq<Book>, b: seq<Book>, id: int)
    requires forall k :: Some(k) != Some(id) ==> LookupId(a, k) == LookupId(b, k)
    ensures forall k :: k != id ==> GetBook(a, k) == GetBook(b, k)
  {
  }

  /** A valid update of a known id keeps ids valid and isbns unique. */
  lemma UpdateKeepsInvariants(books: seq<Book>, nextId: int, id: int, dto: BookDto)
    requires IdsValid(books, nextId) && IsValid(dto) && HasId(books, Some(id))
    ensures var r := UpdateBookById(books, nextId, id, dto);
            && IdsValid(r.books, r.nextId)
            && (IsbnsUnique(books) ==> IsbnsUnique(r.books))
  {
    var nb := LookupId(books, id).value.(author := dto.author.value, title := dto.title.value);
    var after := Overwrite(books, nb);
    assert UpdateBookById(books, nextId, id, dto) == Outcome(Ok(ToDto(nb)), after, nextId) by {
      assert UpdateBook(books, nextId, nb) == Stored(Success(nb), after, nextId);
    }
    OverwriteKeepsIds(books, nextId, nb);
    if IsbnsUnique(books) {
      UpdateKeepingIsbnKeepsIsbnsUnique(books, nextId, nb);
    }
  }

  // ---------------------------------------------------------------- the endpoints over the stateful service

  method Create(catalog: Catalog, dto: BookDto) returns (r: Response<BookDto>)
    requires catalog.Valid()
    modifies catalog
    ensures catalog.Valid()
    ensures Outcome(r, catalog.books, catalog.nextId) == CreateBook(old(catalog.books), old(catalog.nextId), dto)
  {
    if !IsValid(dto) {
      var errors := new ApiErrors.FromBindingResult(Violations(dto));
      r := BadRequest(errors.errors);
      return;
    }
    var saved := catalog.Save(ToEntity(dto));
    if saved.Success? {
      r := Ok(ToDto(saved.value));
    } else {
      var errors := new ApiErrors.FromBusinessException(saved.error);
      r := BadRequest(errors.errors);
    }
  }

  method Delete(catalog: Catalog, id: int) returns (r: Response<()>)
    requires catalog.Valid()
    modifies catalog
    ensures catalog.Valid() && catalog.nextId == old(catalog.nextId)
    ensures (r, catalog.books) == DeleteBookById(old(catalog.books), id)
  {
    var found := LookupId(catalog.books, id);
    if found.None? {
      r := NotFound;
      return;
    }
    var _ := catalog.Delete(found.value);
    r := Ok(());
  }

  method Update(catalog: Catalog, id: int, dto: BookDto) returns (r: Response<BookDto>)
    requires catalog.Valid()
    modifies catalog
    ensures catalog.Valid()
    ensures Outcome(r, catalog.books, catalog.nextId) == UpdateBookById(old(catalog.books), old(catalog.nextId), id, dto)
  {
    if !IsValid(dto) {
      var errors := new ApiErrors.FromBindingResult(Violations(dto));
      r := BadRequest(errors.errors);
      return;
    }
    var found := LookupId(catalog.books, id);
    if found.None? {
      r := NotFound;
      return;
    }
    var book := found.value.(author := dto.author.value, title := dto.title.value);
    var updated := catalog.Update(book);
    r := Answer(updated);
  }
}
