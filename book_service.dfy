/** BookService: the guard checks in front of every repository write. */
module Services {
  import opened Wrappers
  import opened Exceptions
  import opened Text
  import opened Guids
  import opened Annotations
  import opened Entities
  import opened Dto
  import Validation
  import opened Repository

  const BLANK_TITLE_MESSAGE := "Title cannot be null or empty"

  function TitleTakenMessage(title: string): string {
    "A book with title '" + title + "' already exists."
  }

  function IdNotFoundMessage(id: Guid): string {
    "Book with ID '" + FormatGuid(id) + "' not found."
  }

  function TitleNotFoundMessage(title: string): string {
    "Book with title '" + title + "' not found."
  }

  /** The ArgumentException thrown when a DTO fails its attributes. */
  function ValidationError(vs: seq<Violation>): Error {
    ArgumentError("Validation failed: " + Join("; ", Validation.Messages(vs)), None)
  }

  /** The Book CreateBookAsync builds: a new Id and the DTO's five fields. */
  function NewBook(id: Guid, d: CreateBookDto): (b: Book)
    ensures b.id == id && b.title == d.title && b.author == d.author
    ensures b.description == d.description && b.pageCount == d.pageCount && b.publishDate == d.publishDate
    ensures IsValidCreate(d) ==> IsValidBook(b)
  {
    Book(id, d.author, d.title, d.description, d.pageCount, d.publishDate)
  }

  predicate AllValid(books: seq<Book>) {
    forall k :: 0 <= k < |books| ==> IsValidBook(books[k])
  }

  /** With unique Ids, a stored book is found again by its own Id. */
  lemma FindStoredById(books: seq<Book>, i: nat)
    requires IdsDistinct(books) && i < |books|
    ensures FirstMatch(books, IdEquals(books[i].id)) == Some(i)
  {
    var k := FirstMatch(books, IdEquals(books[i].id)).value;
    assert k == i;
  }

  /** Appending a valid book, or applying an update that leaves the books valid, keeps every
      stored book valid. */
  lemma AllValidAppend(books: seq<Book>, b: Book)
    requires AllValid(books) && IsValidBook(b)
    ensures AllValid(books + [b])
  {
    assert forall k :: 0 <= k < |books| ==> (books + [b])[k] == books[k];
  }

  lemma AllValidUpdate(books: seq<Book>, id: Guid, u: UpdateBookDto)
    requires AllValid(books) && IsValidUpdate(u)
    requires u.author.Some? ==> !IsBlank(u.author.value)
    ensures AllValid(UpdateOne(books, id, u))
  {
    match FirstMatch(books, IdEquals(id))
    case None =>
    case Some(i) => ApplyUpdateKeepsValidity(books[i], u);
  }

  lemma AllValidDelete(books: seq<Book>, f: Filter)
    requires AllValid(books)
    ensures AllValid(DeleteOne(books, f))
  {
    DeleteOneShape(books, f);
    if Contains(books, f) {
      DeleteOneAt(books, f);
    }
  }

  class BookService {
    const repository: BookRepository

    ghost predicate Valid()
      reads this, repository
    {
      repository.Valid()
    }

    constructor(repository: BookRepository)
      ensures this.repository == repository
    {
      this.repository := repository;
    }

    /** CreateBookAsync: validate, then refuse a taken Title, then insert a new Book under the
        fresh Id `newId` (Guid.NewGuid()). */
    method CreateBook(dto: CreateBookDto, newId: Guid) returns (r: Result<Book, Error>)
      requires Valid()
      requires !Contains(repository.books, IdEquals(newId))
      modifies repository
      ensures Valid()
      ensures !IsValidCreate(dto) ==> r == Failure(ValidationError(CreateViolations(dto)))
      ensures IsValidCreate(dto) && Contains(old(repository.books), TitleEquals(dto.title))
          ==> r == Failure(InvalidOperation(TitleTakenMessage(dto.title)))
      ensures r.Success? <==> IsValidCreate(dto) && !Contains(old(repository.books), TitleEquals(dto.title))
      ensures r.Success? ==> r.value == NewBook(newId, dto) && repository.books == old(repository.books) + [r.value]
      ensures r.Failure? ==> repository.books == old(repository.books)
      ensures old(TitlesDistinct(repository.books)) ==> TitlesDistinct(repository.books)
      ensures old(AllValid(repository.books)) ==> AllValid(repository.books)
    {
      var validation := Validation.Validate(Validation.CreateModel(dto));
      if !validation.isValid {
        return Failure(ArgumentError("Validation failed: " + validation.errorMessage, None));
      }
      var exists_ := repository.BookExists(dto.title);
      if exists_ {
        return Failure(InvalidOperation(TitleTakenMessage(dto.title)));
      }
      var book := NewBook(newId, dto);
      if TitlesDistinct(repository.books) {
        TitlesDistinctAppend(repository.books, book);
      }
      if AllValid(repository.books) {
        AllValidAppend(repository.books, book);
      }
      r := repository.AddBook(book);
    }

    /** GetAllBooksAsync. */
    method GetAllBooks() returns (r: seq<Book>)
      ensures r == repository.books
    {
      r := repository.GetAllBooks();
    }

    /** GetBookByIdAsync: the book with that Id, if any; there is no guard. */
    method GetBookById(id: Guid) returns (r: Option<Book>)
      requires Valid()
      ensures r.Some? <==> Contains(repository.books, IdEquals(id))
      ensures r.Some? ==> r.value.id == id && r.value in repository.books
    {
      r := repository.GetBookById(id);
    }

    /** GetBookByTitleAsync: a blank title is refused before the store is asked. */
    method GetBookByTitle(title: string) returns (r: Result<Option<Book>, Error>)
      ensures IsBlank(title) ==> r == Failure(ArgumentError(BLANK_TITLE_MESSAGE, Some("title")))
      ensures !IsBlank(title) ==> r == Success(FindFirst(repository.books, TitleEquals(title)))
      ensures r.Success? && r.value.Some? ==> r.value.value.title == title && r.value.value in repository.books
    {
      if IsBlank(title) {
        return Failure(ArgumentError(BLANK_TITLE_MESSAGE, Some("title")));
      }
      var found := repository.GetBookByTitle(title);
      return Success(found);
    }

    /** UpdateBookAsync: validate, then require the Id, then refuse a new Title that another
        book holds, then update; the result is the repository's ModifiedCount > 0. */
    method UpdateBook(id: Guid, u: UpdateBookDto) returns (r: Result<bool, Error>)
      requires Valid()
      modifies repository
      ensures Valid()
      ensures !IsValidUpdate(u) ==> r == Failure(ValidationError(UpdateViolations(u)))
      ensures IsValidUpdate(u) && !Contains(old(repository.books), IdEquals(id))
          ==> r == Failure(InvalidOperation(IdNotFoundMessage(id)))
      ensures IsValidUpdate(u) && Contains(old(repository.books), IdEquals(id)) ==>
        var existing := FindFirst(old(repository.books), IdEquals(id)).value;
        if u.title != existing.title && Contains(old(repository.books), TitleEquals(u.title))
        then r == Failure(InvalidOperation(TitleTakenMessage(u.title)))
        else r == Success(ApplyUpdate(existing, u) != existing)
      ensures r.Success? ==> repository.books == UpdateOne(old(repository.books), id, u)
      ensures r.Failure? ==> repository.books == old(repository.books)
      ensures old(TitlesDistinct(repository.books)) ==> TitlesDistinct(repository.books)
      ensures old(AllValid(repository.books)) && (u.author.Some? ==> !IsBlank(u.author.value))
          ==> AllValid(repository.books)
    {
      var validation := Validation.Validate(Validation.UpdateModel(u));
      if !validation.isValid {
        return Failure(ArgumentError("Validation failed: " + validation.errorMessage, None));
      }
      var existing := repository.GetBookById(id);
      if existing.None? {
        return Failure(InvalidOperation(IdNotFoundMessage(id)));
      }
      if u.title != existing.value.title {
        var taken := repository.BookExists(u.title);
        if taken {
          return Failure(InvalidOperation(TitleTakenMessage(u.title)));
        }
      }
      var modified := WriteUpdate(id, u);
      return Success(modified);
    }

    /** UpdateBookByTitleAsync: validate first, then refuse a blank title, then look the book up
        by title, then refuse a new Title that is taken, then update the book found, by its Id. */
    method UpdateBookByTitle(title: string, u: UpdateBookDto) returns (r: Result<bool, Error>)
      requires Valid()
      modifies repository
      ensures Valid()
      ensures !IsValidUpdate(u) ==> r == Failure(ValidationError(UpdateViolations(u)))
      ensures IsValidUpdate(u) && IsBlank(title) ==> r == Failure(ArgumentError(BLANK_TITLE_MESSAGE, Some("title")))
      ensures IsValidUpdate(u) && !IsBlank(title) && !Contains(old(repository.books), TitleEquals(title))
          ==> r == Failure(InvalidOperation(TitleNotFoundMessage(title)))
      ensures IsValidUpdate(u) && !IsBlank(title) && Contains(old(repository.books), TitleEquals(title)) ==>
        var existing := FindFirst(old(repository.books), TitleEquals(title)).value;
        if u.title != title && Contains(old(repository.books), TitleEquals(u.title))
        then r == Failure(InvalidOperation(TitleTakenMessage(u.title)))
        else (r == Success(ApplyUpdate(existing, u) != existing)
              && repository.books == UpdateOne(old(repository.books), existing.id, u))
      ensures r.Failure? ==> repository.books == old(repository.books)
      ensures old(TitlesDistinct(repository.books)) ==> TitlesDistinct(repository.books)
      ensures old(AllValid(repository.books)) && (u.author.Some? ==> !IsBlank(u.author.value))
          ==> AllValid(repository.books)
    {
      var validation := Validation.Validate(Validation.UpdateModel(u));
      if !validation.isValid {
        return Failure(ArgumentError("Validation failed: " + validation.errorMessage, None));
      }
      if IsBlank(title) {
        return Failure(ArgumentError(BLANK_TITLE_MESSAGE, Some("title")));
      }
      var existing := repository.GetBookByTitle(title);
      if existing.None? {
        return Failure(InvalidOperation(TitleNotFoundMessage(title)));
      }
      if u.title != title {
        var taken := repository.BookExists(u.title);
        if taken {
          return Failure(InvalidOperation(TitleTakenMessage(u.title)));
        }
      }
      FindStoredById(repository.books, FirstMatch(repository.books, TitleEquals(title)).value);
      var modified := WriteUpdate(existing.value.id, u);
      return Success(modified);
    }

    /** The repository write both update operations end in, once their guards have passed:
        the target exists and the new Title is its own or is not taken. */
    method WriteUpdate(id: Guid, u: UpdateBookDto) returns (modified: bool)
      requires Valid() && Contains(repository.books, IdEquals(id))
      requires var b := FindFirst(repository.books, IdEquals(id)).value;
        u.title == b.title || !Contains(repository.books, TitleEquals(u.title))
      modifies repository
      ensures Valid()
      ensures repository.books == UpdateOne(old(repository.books), id, u)
      ensures var b := FindFirst(old(repository.books), IdEquals(id)).value; modified <==> ApplyUpdate(b, u) != b
      ensures old(TitlesDistinct(repository.books)) ==> TitlesDistinct(repository.books)
      ensures old(AllValid(repository.books)) && IsValidUpdate(u) && (u.author.Some? ==> !IsBlank(u.author.value))
          ==> AllValid(repository.books)
    {
      ghost var books := repository.books;
      if TitlesDistinct(books) {
        UpdateOneKeepsTitlesDistinct(books, id, u);
      }
      if AllValid(books) && IsValidUpdate(u) && (u.author.Some? ==> !IsBlank(u.author.value)) {
        AllValidUpdate(books, id, u);
      }
      modified := repository.UpdateBook(id, u);
    }

    /** DeleteBookAsync: a missing Id is an error; otherwise the book is removed. */
    method DeleteBook(id: Guid) returns (r: Result<bool, Error>)
      requires Valid()
      modifies repository
      ensures Valid()
      ensures !Contains(old(repository.books), IdEquals(id))
          ==> r == Failure(InvalidOperation(IdNotFoundMessage(id))) && repository.books == old(repository.books)
      ensures Contains(old(repository.books), IdEquals(id))
          ==> r == Success(true) && repository.books == DeleteOne(old(repository.books), IdEquals(id))
      ensures old(TitlesDistinct(repository.books)) ==> TitlesDistinct(repository.books)
      ensures old(AllValid(repository.books)) ==> AllValid(repository.books)
    {
      var existing := repository.GetBookById(id);
      if existing.None? {
        return Failure(InvalidOperation(IdNotFoundMessage(id)));
      }
      ghost var books := repository.books;
      if TitlesDistinct(books) {
        DeleteOneKeepsTitlesDistinct(books, IdEquals(id));
      }
      if AllValid(books) {
        AllValidDelete(books, IdEquals(id));
      }
      var deleted := repository.DeleteBook(id);
      return Success(deleted);
    }

    /** DeleteBookByTitleAsync: a blank title, then a missing title, are errors; otherwise the
        first book with that title is removed. */
    method DeleteBookByTitle(title: string) returns (r: Result<bool, Error>)
      requires Valid()
      modifies repository
      ensures Valid()
      ensures IsBlank(title) ==> r == Failure(ArgumentError(BLANK_TITLE_MESSAGE, Some("title")))
      ensures !IsBlank(title) && !Contains(old(repository.books), TitleEquals(title))
          ==> r == Failure(InvalidOperation(TitleNotFoundMessage(title)))
      ensures !IsBlank(title) && Contains(old(repository.books), TitleEquals(title))
          ==> r == Success(true) && repository.books == DeleteOne(old(repository.books), TitleEquals(title))
      ensures r.Failure? ==> repository.books == old(repository.books)
      ensures old(TitlesDistinct(repository.books)) ==> TitlesDistinct(repository.books)
      ensures old(AllValid(repository.books)) ==> AllValid(repository.books)
    {
      if IsBlank(title) {
        return Failure(ArgumentError(BLANK_TITLE_MESSAGE, Some("title")));
      }
      var existing := repository.GetBookByTitle(title);
      if existing.None? {
        return Failure(InvalidOperation(TitleNotFoundMessage(title)));
      }
      ghost var books := repository.books;
      if TitlesDistinct(books) {
        DeleteOneKeepsTitlesDistinct(books, TitleEquals(title));
      }
      if AllValid(books) {
        AllValidDelete(books, TitleEquals(title));
      }
      var deleted := repository.DeleteBookByTitle(title);
      return Success(deleted);
    }

    /** BookExistsAsync: a blank title is answered "no" without asking the store. */
    method BookExists(title: string) returns (r: bool)
      ensures r <==> !IsBlank(title) && Contains(repository.books, TitleEquals(title))
    {
      if IsBlank(title) {
        return false;
      }
      r := repository.BookExists(title);
    }
  }

  /** Creating a book and reading it back by its title and its Id: a sequence of service calls
      on a store that already holds unrelated books. */
  method CreateThenRead(service: BookService, dto: CreateBookDto, newId: Guid) returns (byTitle: Option<Book>, byId: Option<Book>)
    requires service.Valid()
    requires !Contains(service.repository.books, IdEquals(newId))
    requires IsValidCreate(dto) && !Contains(service.repository.books, TitleEquals(dto.title))
    modifies service.repository
    ensures byTitle == Some(NewBook(newId, dto)) && byId == Some(NewBook(newId, dto))
  {
    ghost var books := service.repository.books;
    var created := service.CreateBook(dto, newId);
    GetAfterAdd(books, NewBook(newId, dto));
    GetByTitleAfterAdd(books, NewBook(newId, dto));
    var found := service.GetBookByTitle(dto.title);
    byId := service.GetBookById(newId);
    byTitle := found.value;
  }
}
