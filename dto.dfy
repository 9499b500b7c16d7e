/** Request and response shapes of the HTTP layer, and the bean-validation rule
    on a book: title, author and isbn are each `@NotEmpty`. */
module Dto {
  import opened Wrappers
  import opened Entity
  import opened ApiException

  datatype BookDto = BookDto(id: Option<int>, title: Option<string>, author: Option<string>, isbn: Option<string>)

  /** The body of `POST /api/loans`. */
  datatype LoanDto = LoanDto(isbn: Option<string>, customer: Option<string>, email: Option<string>)

  /** The query of `GET /api/loans`. */
  datatype LoanFilterDto = LoanFilterDto(isbn: Option<string>, customer: Option<string>)

  /** Default message of a failed `@NotEmpty`. */
  const NotEmptyMessage := "must not be empty"

  /** `@NotEmpty` on a string: present and of length at least one. Whitespace counts. */
  predicate NotEmpty(v: Option<string>) {
    v.Some? && |v.value| > 0
  }

  function IsValid(dto: BookDto): (r: bool)
    ensures r <==> Failing(dto.title) + Failing(dto.author) + Failing(dto.isbn) == 0
    ensures r ==> |dto.title.value| > 0 && |dto.author.value| > 0 && |dto.isbn.value| > 0
  {
    NotEmpty(dto.title) && NotEmpty(dto.author) && NotEmpty(dto.isbn)
  }

  function ViolationOf(field: string, v: Option<string>): seq<ObjectError> {
    if NotEmpty(v) then [] else [ObjectError(field, NotEmptyMessage)]
  }

  /** The binding result of validating `dto`: one error per empty field, in
      declaration order. */
  function Violations(dto: BookDto): (r: seq<ObjectError>)
    ensures |r| <= 3
    ensures forall i :: 0 <= i < |r| ==> r[i].defaultMessage == NotEmptyMessage
    ensures forall i :: 0 <= i < |r| ==> r[i].field == "title" || r[i].field == "author" || r[i].field == "isbn"
    ensures forall i, j :: 0 <= i < j < |r| ==> r[i].field != r[j].field
  {
    ViolationOf("title", dto.title) + ViolationOf("author", dto.author) + ViolationOf("isbn", dto.isbn)
  }

  function Failing(v: Option<string>): nat {
    if NotEmpty(v) then 0 else 1
  }

  /** A DTO is valid exactly when validation reports nothing; each empty or
      absent mandatory field is reported once, naming that field. */
  lemma ViolationsCharacterizeValidity(dto: BookDto)
    ensures IsValid(dto) <==> Violations(dto) == []
    ensures |Violations(dto)| == Failing(dto.title) + Failing(dto.author) + Failing(dto.isbn)
    ensures (exists i :: 0 <= i < |Violations(dto)| && Violations(dto)[i].field == "title") <==> !NotEmpty(dto.title)
    ensures (exists i :: 0 <= i < |Violations(dto)| && Violations(dto)[i].field == "author") <==> !NotEmpty(dto.author)
    ensures (exists i :: 0 <= i < |Violations(dto)| && Violations(dto)[i].field == "isbn") <==> !NotEmpty(dto.isbn)
  {
    var v := Violations(dto);
    var t, a, s := ViolationOf("title", dto.title), ViolationOf("author", dto.author), ViolationOf("isbn", dto.isbn);
    assert v == t + a + s;
    if !NotEmpty(dto.title) {
      assert v[0].field == "title";
    }
    if !NotEmpty(dto.author) {
      assert v[|t|].field == "author";
    }
    if !NotEmpty(dto.isbn) {
      assert v[|t| + |a|].field == "isbn";
    }
  }

  /** An empty request body yields exactly three violations. */
  lemma EmptyBodyHasThreeViolations()
    ensures |Violations(BookDto(None, None, None, None))| == 3
    ensures |Violations(BookDto(None, Some(""), Some(""), Some("")))| == 3
  {
  }

  /** The id carries no constraint, and a blank but non-empty value passes. */
  lemma IdUnconstrainedAndBlankAccepted(dto: BookDto, id: Option<int>)
    ensures IsValid(dto.(id := id)) == IsValid(dto)
    ensures IsValid(BookDto(None, Some(" "), Some(" "), Some(" ")))
  {
  }

  /** The entity a valid DTO maps to. */
  function ToEntity(dto: BookDto): (b: Book)
    requires IsValid(dto)
    ensures b.id == dto.id && Some(b.title) == dto.title && Some(b.author) == dto.author && Some(b.isbn) == dto.isbn
  {
    Book(dto.id, dto.title.value, dto.author.value, dto.isbn.value)
  }

  /** The DTO a book maps to. */
  function ToDto(b: Book): (dto: BookDto)
    ensures dto.id == b.id && dto.title == Some(b.title) && dto.author == Some(b.author) && dto.isbn == Some(b.isbn)
  {
    BookDto(b.id, Some(b.title), Some(b.author), Some(b.isbn))
  }

  /** The two mappings are inverse: a valid request round-trips through the entity,
      and every book's DTO is valid when its fields are non-empty. */
  lemma MappingRoundTrip(dto: BookDto, b: Book)
    ensures IsValid(dto) ==> ToDto(ToEntity(dto)) == dto
    ensures |b.title| > 0 && |b.author| > 0 && |b.isbn| > 0 ==> IsValid(ToDto(b)) && ToEntity(ToDto(b)) == b
  {
  }
}
