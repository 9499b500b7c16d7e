/** The book catalog: the repository's table of books and the rules the book
    service puts around it. The table is kept in store-native order. */
module BookService {
  import opened Wrappers
  import opened Failures
  import opened Entity
  import opened Text
  import opened Paging

  /** A probe for filter-by-example: absent fields are ignored. */
  datatype BookExample = BookExample(id: Option<int>, title: Option<string>, author: Option<string>, isbn: Option<string>)

  /** Outcome of an operation that may write the table: what it returns and the
      table and id generator after it. */
  datatype Stored = Stored(result: Result<Book, ServiceError>, books: seq<Book>, nextId: int)

  // ---------------------------------------------------------------- table invariants

  /** Every stored book has an id, ids are distinct and below the next generated one. */
  predicate IdsValid(books: seq<Book>, nextId: int) {
    && nextId > 0
    && (forall i :: 0 <= i < |books| ==> books[i].id.Some? && 0 < books[i].id.value < nextId)
    && (forall i, j :: 0 <= i < j < |books| ==> books[i].id != books[j].id)
  }

  predicate IsbnsUnique(books: seq<Book>) {
    forall i, j :: 0 <= i < j < |books| ==> books[i].isbn != books[j].isbn
  }

  // ---------------------------------------------------------------- repository queries

  /** `existsByIsbn`. */
  function IsbnTaken(books: seq<Book>, isbn: string): (r: bool)
    ensures r <==> exists b :: b in books && b.isbn == isbn
  {
    exists i :: 0 <= i < |books| && books[i].isbn == isbn
  }

  predicate HasId(books: seq<Book>, id: Option<int>) {
    exists i :: 0 <= i < |books| && books[i].id == id
  }

  /** `findById`: the stored book with that id, if any. */
  function LookupId(books: seq<Book>, id: int): (r: Option<Book>)
    ensures r.Some? ==> r.value in books && r.value.id == Some(id)
    ensures r.None? <==> !HasId(books, Some(id))
  {
    if books == [] then None
    else if books[0].id == Some(id) then Some(books[0])
    else LookupId(books[1..], id)
  }

  /** `findByIsbn`: a stored book with that isbn, if any. */
  function LookupIsbn(books: seq<Book>, isbn: string): (r: Option<Book>)
    ensures r.Some? ==> r.value in books && r.value.isbn == isbn
    ensures r.None? <==> !IsbnTaken(books, isbn)
  {
    if books == [] then None
    else if books[0].isbn == isbn then Some(books[0])
    else LookupIsbn(books[1..], isbn)
  }

  /** With unique isbns, looking up a stored book's isbn finds that very book. */
  lemma {:induction false} LookupIsbnFindsTheBook(books: seq<Book>, k: nat)
    requires IsbnsUnique(books) && k < |books|
    ensures LookupIsbn(books, books[k].isbn) == Some(books[k])
  {
    if k > 0 {
      assert books[0].isbn != books[k].isbn;
      assert books[1..][k - 1] == books[k];
      LookupIsbnFindsTheBook(books[1..], k - 1);
    }
  }

  // ---------------------------------------------------------------- table writes

  /** The table with every record carrying `b`'s id replaced by `b`. */
  function Overwrite(books: seq<Book>, b: Book): (r: seq<Book>)
    ensures |r| == |books|
    ensures forall i :: 0 <= i < |books| ==> r[i] == if books[i].id == b.id then b else books[i]
  {
    if books == [] then []
    else [if books[0].id == b.id then b else books[0]] + Overwrite(books[1..], b)
  }

  /** The table without the record with id `id`. */
  function RemoveId(books: seq<Book>, id: int): (r: seq<Book>)
    ensures |r| <= |books|
    ensures forall i :: 0 <= i < |r| ==> r[i] in books && r[i].id != Some(id)
    ensures forall i :: 0 <= i < |books| && books[i].id != Some(id) ==> books[i] in r
  {
    Filter(books, (x: Book) => x.id != Some(id))
  }

  /** `repository.save` with merge semantics: a book whose id names a stored
      record overwrites it; any other book is inserted under a fresh id. */
  function RepositorySave(books: seq<Book>, nextId: int, book: Book): (r: Stored)
    ensures r.result.Success?
    ensures r.result.value.id.Some? && r.result.value == book.(id := r.result.value.id)
    ensures r.result.value in r.books && r.nextId >= nextId
    ensures HasId(books, book.id) && book.id.Some? ==> r.result.value == book && |r.books| == |books| && r.nextId == nextId
    ensures !(HasId(books, book.id) && book.id.Some?) ==>
              r.result.value.id == Some(nextId) && r.books == books + [r.result.value] && r.nextId == nextId + 1
  {
    if HasId(books, book.id) && book.id.Some? then Stored(Success(book), Overwrite(books, book), nextId)
    else
      var saved := book.(id := Some(nextId));
      Stored(Success(saved), books + [saved], nextId + 1)
  }

  // ---------------------------------------------------------------- service operations

  /** `BookServiceImpl.save`. */
  function SaveBook(books: seq<Book>, nextId: int, book: Book): (r: Stored)
    ensures IsbnTaken(books, book.isbn) ==>
              r == Stored(Failure(BusinessError(DuplicateIsbnMessage)), books, nextId)
    ensures !IsbnTaken(books, book.isbn) ==>
              && r.result.Success?
              && r.result.value.id.Some?
              && r.result.value == book.(id := r.result.value.id)
    ensures !IsbnTaken(books, book.isbn) && !HasId(books, book.id) ==>
              r.books == books + [r.result.value] && r.result.value.id == Some(nextId)
  {
    if IsbnTaken(books, book.isbn) then Stored(Failure(BusinessError(DuplicateIsbnMessage)), books, nextId)
    else RepositorySave(books, nextId, book)
  }

  /** `BookServiceImpl.update`. */
  function UpdateBook(books: seq<Book>, nextId: int, book: Book): (r: Stored)
    ensures book.id.None? ==> r == Stored(Failure(IllegalArgument(MissingBookIdMessage)), books, nextId)
    ensures HasId(books, book.id) && book.id.Some? ==>
              r == Stored(Success(book), Overwrite(books, book), nextId)
    ensures book.id.Some? && !HasId(books, book.id) ==>
              && r.result == Success(book.(id := Some(nextId)))
              && r.books == books + [r.result.value] && r.nextId == nextId + 1
  {
    if book.id.None? then Stored(Failure(IllegalArgument(MissingBookIdMessage)), books, nextId)
    else RepositorySave(books, nextId, book)
  }

  /** `BookServiceImpl.delete`. */
  function DeleteBook(books: seq<Book>, book: Book): (r: (Result<(), ServiceError>, seq<Book>))
    ensures book.id.None? ==> r == (Failure(IllegalArgument(MissingBookIdMessage)), books)
    ensures book.id.Some? ==> r.0.Success? && |r.1| <= |books|
    ensures book.id.Some? ==> LookupId(r.1, book.id.value).None?
    ensures book.id.Some? ==> forall i :: 0 <= i < |books| && books[i].id != book.id ==> books[i] in r.1
  {
    if book.id.None? then (Failure(IllegalArgument(MissingBookIdMessage)), books)
    else (Success(()), RemoveId(books, book.id.value))
  }

  /** A probe field of the example: ignored when absent, otherwise a
      case-insensitive substring of the stored value. */
  function ProbeMatches(probe: Option<string>, value: string): (r: bool)
    ensures probe.None? ==> r
    ensures probe == Some("") || probe == Some(value) ==> r
    ensures probe.Some? && |probe.value| > |value| ==> !r
  {
    EmptyProbeAndSelfMatch(value);
    probe.None? || ContainsIgnoreCase(value, probe.value)
  }

  /** The example matcher: all populated fields must match. A non-string field
      (the id) is compared for equality. */
  function Matches(filter: BookExample, b: Book): (r: bool)
    ensures filter == BookExample(None, None, None, None) ==> r
    ensures filter == BookExample(b.id, Some(b.title), Some(b.author), Some(b.isbn)) ==> r
    ensures r ==> filter.id.None? || filter.id == b.id
    ensures r <==> && (filter.id.None? || filter.id == b.id)
                   && (filter.title.Some? ==> ContainsIgnoreCase(b.title, filter.title.value))
                   && (filter.author.Some? ==> ContainsIgnoreCase(b.author, filter.author.value))
                   && (filter.isbn.Some? ==> ContainsIgnoreCase(b.isbn, filter.isbn.value))
  {
    && (filter.id.None? || filter.id == b.id)
    && ProbeMatches(filter.title, b.title)
    && ProbeMatches(filter.author, b.author)
    && ProbeMatches(filter.isbn, b.isbn)
  }

  function Matching(books: seq<Book>, filter: BookExample): (r: seq<Book>)
    ensures |r| <= |books|
    ensures forall i :: 0 <= i < |r| ==> r[i] in books && Matches(filter, r[i])
    ensures forall i :: 0 <= i < |books| && Matches(filter, books[i]) ==> books[i] in r
  {
    Filter(books, (b: Book) => Matches(filter, b))
  }

  /** `BookServiceImpl.find`: the requested page of the matching books. */
  function FindBooks(books: seq<Book>, filter: BookExample, req: PageRequest): (p: Page<Book>)
    ensures p.pageable == req
    ensures p.totalElements == |Matching(books, filter)|
    ensures forall i :: 0 <= i < |p.content| ==> p.content[i] in books && Matches(filter, p.content[i])
    ensures req.page == 0 && |books| <= req.size ==>
              forall i :: 0 <= i < |books| && Matches(filter, books[i]) ==> books[i] in p.content
    ensures p.content == Slice(Matching(books, filter), req)
    ensures req.page == 0 && |Matching(books, filter)| <= req.size ==> p.content == Matching(books, filter)
  {
    var matches := Matching(books, filter);
    if req.page == 0 && |matches| <= req.size then FirstPageShowsAll(matches, req); PageOf(matches, req)
    else PageOf(matches, req)
  }

  // ---------------------------------------------------------------- lemmas about the writes

  /** An example with every field absent selects the whole table. */
  lemma EmptyExampleSelectsAll(books: seq<Book>)
    ensures Matching(books, BookExample(None, None, None, None)) == books
  {
    FilterKeepsAll(books, (b: Book) => Matches(BookExample(None, None, None, None), b));
  }

  /** The case of a probe does not change which books match. */
  lemma ProbeCaseIsIgnored(filter: BookExample, b: Book, t: string)
    ensures Matches(filter.(title := Some(t)), b) == Matches(filter.(title := Some(LowerString(t))), b)
    ensures Matches(filter.(author := Some(t)), b) == Matches(filter.(author := Some(LowerString(t))), b)
    ensures Matches(filter.(isbn := Some(t)), b) == Matches(filter.(isbn := Some(LowerString(t))), b)
  {
    CaseOfEitherSideIsIgnored(b.title, t);
    CaseOfEitherSideIsIgnored(b.author, t);
    CaseOfEitherSideIsIgnored(b.isbn, t);
  }

  lemma HasIdTail(books: seq<Book>, id: Option<int>)
    requires books != []
    ensures HasId(books, id) <==> books[0].id == id || HasId(books[1..], id)
  {
    if HasId(books[1..], id) {
      var i :| 0 <= i < |books[1..]| && books[1..][i].id == id;
      assert books[i + 1].id == id;
    }
    if HasId(books, id) && books[0].id != id {
      var i :| 0 <= i < |books| && books[i].id == id;
      assert books[1..][i - 1].id == id;
    }
  }

  lemma {:induction false} LookupAfterAppend(books: seq<Book>, b: Book, k: int)
    requires !HasId(books, b.id)
    ensures LookupId(books + [b], k) == if b.id == Some(k) then Some(b) else LookupId(books, k)
  {
    if books == [] {
      assert [b][1..] == [];
    } else {
      assert (books + [b])[1..] == books[1..] + [b];
      HasIdTail(books, b.id);
      LookupAfterAppend(books[1..], b, k);
    }
  }

  lemma {:induction false} LookupAfterOverwrite(books: seq<Book>, b: Book, k: int)
    ensures LookupId(Overwrite(books, b), k) ==
              if b.id != Some(k) then LookupId(books, k)
              else if LookupId(books, k).Some? then Some(b) else None
  {
    if books != [] {
      var r := Overwrite(books, b);
      assert r == [if books[0].id == b.id then b else books[0]] + Overwrite(books[1..], b);
      assert r[1..] == Overwrite(books[1..], b);
      LookupAfterOverwrite(books[1..], b, k);
    }
  }

  lemma {:induction false} LookupAfterRemove(books: seq<Book>, id: int, k: int)
    ensures LookupId(RemoveId(books, id), k) == if k == id then None else LookupId(books, k)
  {
    if books != [] {
      var p := (x: Book) => x.id != Some(id);
      var rest := RemoveId(books[1..], id);
      LookupAfterRemove(books[1..], id, k);
      if p(books[0]) {
        assert RemoveId(books, id) == [books[0]] + rest;
        assert ([books[0]] + rest)[1..] == rest;
      } else {
        assert RemoveId(books, id) == rest;
      }
    }
  }

  /** Removing a record whose id occurs at most once shrinks the table by one
      exactly when the id is present. */
  lemma {:induction false} RemoveShrinksByOne(books: seq<Book>, id: int)
    requires forall i, j :: 0 <= i < j < |books| ==> books[i].id != books[j].id
    ensures |RemoveId(books, id)| == if HasId(books, Some(id)) then |books| - 1 else |books|
  {
    if books != [] {
      var p := (x: Book) => x.id != Some(id);
      HasIdTail(books, Some(id));
      RemoveShrinksByOne(books[1..], id);
      if !p(books[0]) {
        forall i | 0 <= i < |books[1..]| ensures books[1..][i].id != Some(id) {
          assert books[1..][i] == books[i + 1];
        }
      }
    }
  }

  /** Removal keeps ids valid and isbns pairwise distinct. */
  lemma RemoveKeepsInvariants(books: seq<Book>, nextId: int, id: int)
    requires IdsValid(books, nextId)
    ensures IdsValid(RemoveId(books, id), nextId)
    ensures IsbnsUnique(books) ==> IsbnsUnique(RemoveId(books, id))
  {
    var p := (x: Book) => x.id != Some(id);
    var r := RemoveId(books, id);
    FilterKeepsDistinct(books, p, (x: Book) => x.id);
    forall i | 0 <= i < |r| ensures r[i].id.Some? && 0 < r[i].id.value < nextId {
      assert r[i] in books;
    }
    if IsbnsUnique(books) {
      FilterKeepsDistinct(books, p, (x: Book) => x.isbn);
    }
  }

  /** The repository write keeps the id invariant, makes the record it returns
      findable by its id and leaves every other id's record as it was. */
  lemma RepositorySaveKeepsIdsAndOthers(books: seq<Book>, nextId: int, book: Book)
    requires IdsValid(books, nextId)
    ensures IdsValid(RepositorySave(books, nextId, book).books, RepositorySave(books, nextId, book).nextId)
    ensures RepositorySave(books, nextId, book).nextId >= nextId
    ensures LookupId(RepositorySave(books, nextId, book).books, RepositorySave(books, nextId, book).result.value.id.value)
            == Some(RepositorySave(books, nextId, book).result.value)
    ensures forall k :: Some(k) != RepositorySave(books, nextId, book).result.value.id ==>
              LookupId(RepositorySave(books, nextId, book).books, k) == LookupId(books, k)
  {
    if HasId(books, book.id) && book.id.Some? {
      OverwriteKeepsIdsAndOthers(books, nextId, book);
    } else {
      AppendKeepsIdsAndOthers(books, nextId, book);
    }
  }

  lemma OverwriteKeepsIdsAndOthers(books: seq<Book>, nextId: int, book: Book)
    requires IdsValid(books, nextId) && book.id.Some? && HasId(books, book.id)
    ensures IdsValid(Overwrite(books, book), nextId)
    ensures LookupId(Overwrite(books, book), book.id.value) == Some(book)
    ensures forall k :: Some(k) != book.id ==> LookupId(Overwrite(books, book), k) == LookupId(books, k)
  {
    OverwriteKeepsIds(books, nextId, book);
    LookupAfterOverwrite(books, book, book.id.value);
    forall k | Some(k) != book.id ensures LookupId(Overwrite(books, book), k) == LookupId(books, k) {
      LookupAfterOverwrite(books, book, k);
    }
  }

  lemma OverwriteKeepsIds(books: seq<Book>, nextId: int, book: Book)
    requires IdsValid(books, nextId)
    ensures IdsValid(Overwrite(books, book), nextId)
  {
    var r := Overwrite(books, book);
    forall i | 0 <= i < |r| ensures r[i].id == books[i].id {
    }
  }

  lemma AppendKeepsIdsAndOthers(books: seq<Book>, nextId: int, book: Book)
    requires IdsValid(books, nextId)
    ensures IdsValid(books + [book.(id := Some(nextId))], nextId + 1)
    ensures LookupId(books + [book.(id := Some(nextId))], nextId) == Some(book.(id := Some(nextId)))
    ensures forall k :: k != nextId ==> LookupId(books + [book.(id := Some(nextId))], k) == LookupId(books, k)
  {
    var saved := book.(id := Some(nextId));
    forall k { LookupAfterAppend(books, saved, k); }
  }

  /** Saving keeps ids valid and isbns pairwise distinct. */
  lemma SaveKeepsInvariants(books: seq<Book>, nextId: int, book: Book)
    requires IdsValid(books, nextId) && IsbnsUnique(books)
    ensures IdsValid(SaveBook(books, nextId, book).books, SaveBook(books, nextId, book).nextId)
    ensures IsbnsUnique(SaveBook(books, nextId, book).books)
  {
    if !IsbnTaken(books, book.isbn) {
      RepositorySaveKeepsIdsAndOthers(books, nextId, book);
      if HasId(books, book.id) && book.id.Some? {
        OverwriteFreshIsbnKeepsIsbnsUnique(books, nextId, book);
      } else {
        AppendFreshIsbnKeepsIsbnsUnique(books, book.(id := Some(nextId)));
      }
    }
  }

  lemma OverwriteFreshIsbnKeepsIsbnsUnique(books: seq<Book>, nextId: int, book: Book)
    requires IdsValid(books, nextId) && IsbnsUnique(books) && !IsbnTaken(books, book.isbn)
    ensures IsbnsUnique(Overwrite(books, book))
  {
    var r := Overwrite(books, book);
    forall i, j | 0 <= i < j < |r| ensures r[i].isbn != r[j].isbn {
      assert books[i].id != books[j].id;
      assert books[i].isbn != book.isbn && books[j].isbn != book.isbn;
    }
  }

  lemma AppendFreshIsbnKeepsIsbnsUnique(books: seq<Book>, b: Book)
    requires IsbnsUnique(books) && !IsbnTaken(books, b.isbn)
    ensures IsbnsUnique(books + [b])
  {
    var r := books + [b];
    forall i, j | 0 <= i < j < |r| ensures r[i].isbn != r[j].isbn {
      if j == |books| { assert books[i].isbn != b.isbn; }
    }
  }

  /** A successful save makes the saved book findable by its id and by its isbn,
      and leaves the record of every other id as it was. */
  lemma SavedBookIsFindable(books: seq<Book>, nextId: int, book: Book)
    requires IdsValid(books, nextId) && IsbnsUnique(books) && !IsbnTaken(books, book.isbn)
    ensures var r := SaveBook(books, nextId, book);
            && LookupId(r.books, r.result.value.id.value) == Some(r.result.value)
            && LookupIsbn(r.books, book.isbn) == Some(r.result.value)
            && forall k :: Some(k) != r.result.value.id ==> LookupId(r.books, k) == LookupId(books, k)
  {
    var r := SaveBook(books, nextId, book);
    RepositorySaveKeepsIdsAndOthers(books, nextId, book);
    SaveKeepsInvariants(books, nextId, book);
    var k :| 0 <= k < |r.books| && r.books[k] == r.result.value;
    LookupIsbnFindsTheBook(r.books, k);
  }

  /** Updating a stored book overwrites exactly that record; pairwise distinct
      isbns survive when the update keeps the record's isbn. */
  lemma UpdateOverwritesOnlyThatRecord(books: seq<Book>, nextId: int, book: Book)
    requires IdsValid(books, nextId)
    requires book.id.Some? && HasId(books, book.id)
    ensures var r := UpdateBook(books, nextId, book);
            && r.result == Success(book)
            && IdsValid(r.books, r.nextId)
            && |r.books| == |books|
            && LookupId(r.books, book.id.value) == Some(book)
            && (forall k :: Some(k) != book.id ==> LookupId(r.books, k) == LookupId(books, k))
  {
    OverwriteKeepsIdsAndOthers(books, nextId, book);
  }

  lemma UpdateKeepingIsbnKeepsIsbnsUnique(books: seq<Book>, nextId: int, book: Book)
    requires IdsValid(books, nextId) && IsbnsUnique(books)
    requires book.id.Some? && LookupId(books, book.id.value).Some?
    requires LookupId(books, book.id.value).value.isbn == book.isbn
    ensures IsbnsUnique(UpdateBook(books, nextId, book).books)
  {
    var r := Overwrite(books, book);
    var old_ := LookupId(books, book.id.value).value;
    var m :| 0 <= m < |books| && books[m] == old_;
    forall i, j | 0 <= i < j < |r| ensures r[i].isbn != r[j].isbn {
      assert r[i].isbn == books[i].isbn && r[j].isbn == books[j].isbn by {
        if books[i].id == book.id { assert i == m; }
        if books[j].id == book.id { assert j == m; }
      }
    }
  }

  /** Deleting a stored book removes that record and no other. */
  lemma DeleteRemovesOnlyThatRecord(books: seq<Book>, nextId: int, book: Book)
    requires IdsValid(books, nextId)
    requires book.id.Some?
    ensures var r := DeleteBook(books, book);
            && IdsValid(r.1, nextId)
            && (IsbnsUnique(books) ==> IsbnsUnique(r.1))
            && LookupId(r.1, book.id.value).None?
            && (forall k :: k != book.id.value ==> LookupId(r.1, k) == LookupId(books, k))
            && |r.1| == if HasId(books, book.id) then |books| - 1 else |books|
  {
    var id := book.id.value;
    forall k { LookupAfterRemove(books, id, k); }
    RemoveShrinksByOne(books, id);
    RemoveKeepsInvariants(books, nextId, id);
  }

  // ---------------------------------------------------------------- the stateful service

  /** The service together with the repository table it drives. */
  class Catalog {
    var books: seq<Book>
    var nextId: int

    ghost predicate Valid()
      reads this
    {
      IdsValid(books, nextId)
    }

    constructor ()
      ensures Valid() && books == [] && nextId == 1
    {
      books, nextId := [], 1;
    }

    /** `repository.save`. */
    method Persist(book: Book) returns (saved: Book)
      requires Valid()
      modifies this
      ensures Valid()
      ensures Stored(Success(saved), books, nextId) == RepositorySave(old(books), old(nextId), book)
    {
      RepositorySaveKeepsIdsAndOthers(books, nextId, book);
      if HasId(books, book.id) && book.id.Some? {
        books := Overwrite(books, book);
        saved := book;
      } else {
        saved := book.(id := Some(nextId));
        books := books + [saved];
        nextId := nextId + 1;
      }
    }

    method Save(book: Book) returns (r: Result<Book, ServiceError>)
      requires Valid()
      modifies this
      ensures Valid()
      ensures Stored(r, books, nextId) == SaveBook(old(books), old(nextId), book)
    {
      if IsbnTaken(books, book.isbn) {
        r := Failure(BusinessError(DuplicateIsbnMessage));
        return;
      }
      var saved := Persist(book);
      r := Success(saved);
    }

    method Update(book: Book) returns (r: Result<Book, ServiceError>)
      requires Valid()
      modifies this
      ensures Valid()
      ensures Stored(r, books, nextId) == UpdateBook(old(books), old(nextId), book)
    {
      if book.id.None? {
        r := Failure(IllegalArgument(MissingBookIdMessage));
        return;
      }
      var saved := Persist(book);
      r := Success(saved);
    }

    method Delete(book: Book) returns (r: Result<(), ServiceError>)
      requires Valid()
      modifies this
      ensures Valid() && nextId == old(nextId)
      ensures (r, books) == DeleteBook(old(books), book)
    {
      if book.id.None? {
        r := Failure(IllegalArgument(MissingBookIdMessage));
        return;
      }
      RemoveKeepsInvariants(books, nextId, book.id.value);
      books := RemoveId(books, book.id.value);
      r := Success(());
    }
  }
}
