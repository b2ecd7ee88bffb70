/** BookRepository over an in-memory collection in place of the MongoDB collection. */
module Repository {
  import opened Wrappers
  import opened Exceptions
  import opened Numbers
  import opened Dates
  import opened Guids
  import opened Entities
  import opened Dto

  /** The two filters the repository builds: `book.Id == id` and `book.Title == title`. */
  datatype Filter = IdEquals(id: Guid) | TitleEquals(title: string)

  predicate Matches(f: Filter, b: Book) {
    match f
    case IdEquals(id) => b.id == id
    case TitleEquals(title) => b.title == title
  }

  predicate Contains(books: seq<Book>, f: Filter) {
    exists i :: 0 <= i < |books| && Matches(f, books[i])
  }

  /** `_id` is the collection's unique key. */
  predicate IdsDistinct(books: seq<Book>) {
    forall i, j :: 0 <= i < j < |books| ==> books[i].id != books[j].id
  }

  /** The business invariant BookService keeps: no two stored books share a Title. */
  predicate TitlesDistinct(books: seq<Book>) {
    forall i, j :: 0 <= i < j < |books| ==> books[i].title != books[j].title
  }

  /** The position of the first stored book the filter matches. */
  function FirstMatch(books: seq<Book>, f: Filter): (r: Option<nat>)
    ensures r.Some? ==> r.value < |books| && Matches(f, books[r.value])
    ensures r.Some? ==> forall j :: 0 <= j < r.value ==> !Matches(f, books[j])
    ensures r.None? <==> !Contains(books, f)
  {
    if books == [] then None
    else if Matches(f, books[0]) then Some(0)
    else match FirstMatch(books[1..], f)
      case None => None
      case Some(i) => Some(i + 1)
  }

  /** FindAsync(filter) followed by FirstOrDefaultAsync(). */
  function FindFirst(books: seq<Book>, f: Filter): (r: Option<Book>)
    ensures r.Some? <==> Contains(books, f)
    ensures r.Some? ==> Matches(f, r.value) && r.value in books
  {
    match FirstMatch(books, f)
    case None => None
    case Some(i) => Some(books[i])
  }

  /** When the filter picks out at most one book, that book is the one found. */
  lemma FindFirstUnique(books: seq<Book>, f: Filter, i: nat)
    requires i < |books| && Matches(f, books[i])
    requires forall j :: 0 <= j < |books| && j != i ==> !Matches(f, books[j])
    ensures FindFirst(books, f) == Some(books[i])
  {
    var k := FirstMatch(books, f).value;
    assert k == i;
  }

  /** CountDocumentsAsync(filter). */
  function CountMatches(books: seq<Book>, f: Filter): nat {
    if books == [] then 0
    else (if Matches(f, books[0]) then 1 else 0) + CountMatches(books[1..], f)
  }

  /** A positive count means some stored book matches, and only then. */
  lemma {:induction false} CountPositiveIffContains(books: seq<Book>, f: Filter)
    ensures CountMatches(books, f) > 0 <==> Contains(books, f)
  {
    if books != [] {
      CountPositiveIffContains(books[1..], f);
      if Contains(books[1..], f) {
        var i :| 0 <= i < |books[1..]| && Matches(f, books[1..][i]);
        assert Matches(f, books[i + 1]);
      }
      if Contains(books, f) && !Matches(f, books[0]) {
        var i :| 0 <= i < |books| && Matches(f, books[i]);
        assert Matches(f, books[1..][i - 1]);
      }
    }
  }

  /** DeleteOneAsync(filter): the first matching book is removed. */
  function DeleteOne(books: seq<Book>, f: Filter): seq<Book> {
    if books == [] then []
    else if Matches(f, books[0]) then books[1..]
    else [books[0]] + DeleteOne(books[1..], f)
  }

  /** Deleting cuts out exactly the first match, or nothing when nothing matches. */
  lemma {:induction false} DeleteOneShape(books: seq<Book>, f: Filter)
    ensures FirstMatch(books, f).None? ==> DeleteOne(books, f) == books
    ensures FirstMatch(books, f).Some? ==>
      var i := FirstMatch(books, f).value; DeleteOne(books, f) == books[..i] + books[i + 1..]
  {
    if books != [] && !Matches(f, books[0]) {
      var tail := books[1..];
      DeleteOneShape(tail, f);
      assert DeleteOne(books, f) == [books[0]] + DeleteOne(tail, f);
      match FirstMatch(tail, f)
      case None =>
      case Some(i) =>
        assert FirstMatch(books, f) == Some(i + 1);
        ConsCut(books, i);
    }
  }

  /** Cutting position `i` out of the tail, then putting the head back, cuts position `i + 1`. */
  lemma ConsCut<T>(s: seq<T>, i: nat)
    requires i + 1 < |s|
    ensures [s[0]] + (s[1..][..i] + s[1..][i + 1..]) == s[..i + 1] + s[i + 2..]
  {
    assert s[..i + 1] == [s[0]] + s[1..][..i];
    assert s[i + 2..] == s[1..][i + 1..];
  }

  /** Removing position `i` shifts the later elements down by one and keeps the rest in place. */
  lemma RemoveAt<T>(s: seq<T>, i: nat)
    requires i < |s|
    ensures var r := s[..i] + s[i + 1..];
      && |r| == |s| - 1
      && (forall k :: 0 <= k < |r| ==> r[k] == s[if k < i then k else k + 1])
      && multiset(r) + multiset{s[i]} == multiset(s)
  {
    assert s == s[..i] + [s[i]] + s[i + 1..];
  }

  /** After a delete that found its match at `i`, the books before `i` stay and the later ones
      move down by one. */
  lemma DeleteOneAt(books: seq<Book>, f: Filter)
    requires Contains(books, f)
    ensures var i, r := FirstMatch(books, f).value, DeleteOne(books, f);
      && |r| == |books| - 1
      && (forall k :: 0 <= k < |r| ==> r[k] == books[if k < i then k else k + 1])
      && multiset(r) + multiset{books[i]} == multiset(books)
  {
    DeleteOneShape(books, f);
    RemoveAt(books, FirstMatch(books, f).value);
  }

  /** Deleting removes one book when one matches, and otherwise nothing. */
  lemma DeleteOneCount(books: seq<Book>, f: Filter)
    ensures |DeleteOne(books, f)| == if Contains(books, f) then |books| - 1 else |books|
    ensures !Contains(books, f) ==> DeleteOne(books, f) == books
    ensures Contains(books, f) ==> multiset(DeleteOne(books, f)) + multiset{FindFirst(books, f).value} == multiset(books)
  {
    DeleteOneShape(books, f);
    if Contains(books, f) {
      DeleteOneAt(books, f);
    }
  }

  /** The update document's effect on one book: Title is always set; Author and Description
      only when supplied and non-empty; PageCount and PublishDate only when supplied. */
  function ApplyUpdate(b: Book, u: UpdateBookDto): (r: Book) {
    Book(
      b.id,
      if u.author.Some? && u.author.value != "" then u.author.value else b.author,
      u.title,
      if u.description.Some? && u.description.value != "" then u.description.value else b.description,
      if u.pageCount.Some? then u.pageCount.value else b.pageCount,
      if u.publishDate.Some? then u.publishDate.value else b.publishDate)
  }

  /** One `Set` of an UpdateDefinition<Book>. */
  datatype SetField =
    | SetTitle(title: string)
    | SetAuthor(author: string)
    | SetDescription(description: string)
    | SetPageCount(pageCount: Int32)
    | SetPublishDate(publishDate: Date)

  function ApplySet(b: Book, s: SetField): Book {
    match s
    case SetTitle(t) => b.(title := t)
    case SetAuthor(a) => b.(author := a)
    case SetDescription(d) => b.(description := d)
    case SetPageCount(p) => b.(pageCount := p)
    case SetPublishDate(d) => b.(publishDate := d)
  }

  /** The server applies the chained `Set`s in order. */
  function ApplySets(b: Book, defs: seq<SetField>): Book
    decreases |defs|
  {
    if defs == [] then b else ApplySets(ApplySet(b, defs[0]), defs[1..])
  }

  lemma {:induction false} ApplySetsSnoc(b: Book, defs: seq<SetField>, s: SetField)
    ensures ApplySets(b, defs + [s]) == ApplySet(ApplySets(b, defs), s)
    decreases |defs|
  {
    if defs == [] {
      assert defs + [s] == [s];
    } else {
      assert (defs + [s])[1..] == defs[1..] + [s];
      ApplySetsSnoc(ApplySet(b, defs[0]), defs[1..], s);
    }
  }

  /** One more `Set` that takes the effect of update `u0` to that of `u1`. */
  lemma ExtendSets(defs: seq<SetField>, s: SetField, u0: UpdateBookDto, u1: UpdateBookDto)
    requires forall b :: ApplySets(b, defs) == ApplyUpdate(b, u0)
    requires forall b :: ApplySet(ApplyUpdate(b, u0), s) == ApplyUpdate(b, u1)
    ensures forall b :: ApplySets(b, defs + [s]) == ApplyUpdate(b, u1)
  {
    forall b ensures ApplySets(b, defs + [s]) == ApplyUpdate(b, u1) {
      ApplySetsSnoc(b, defs, s);
    }
  }

  /** The chained update definition UpdateBookAsync builds, one `Set` at a time: applied to any
      book it has the effect ApplyUpdate describes. */
  method BuildUpdateDefinition(u: UpdateBookDto) returns (defs: seq<SetField>)
    ensures 1 <= |defs| <= 5 && defs[0] == SetTitle(u.title)
    ensures forall b :: ApplySets(b, defs) == ApplyUpdate(b, u)
  {
    // `done` is the part of `u` the Sets so far account for.
    ghost var done := UpdateBookDto(u.title, None, None, None, None);
    defs := [SetTitle(u.title)];
    assert forall b :: ApplySets(b, defs) == ApplySets(ApplySet(b, SetTitle(u.title)), []);
    if u.author.Some? && u.author.value != "" {
      ExtendSets(defs, SetAuthor(u.author.value), done, done.(author := u.author));
      defs := defs + [SetAuthor(u.author.value)];
    }
    done := done.(author := u.author);
    if u.description.Some? && u.description.value != "" {
      ExtendSets(defs, SetDescription(u.description.value), done, done.(description := u.description));
      defs := defs + [SetDescription(u.description.value)];
    }
    done := done.(description := u.description);
    if u.pageCount.Some? {
      ExtendSets(defs, SetPageCount(u.pageCount.value), done, done.(pageCount := u.pageCount));
      defs := defs + [SetPageCount(u.pageCount.value)];
    }
    done := done.(pageCount := u.pageCount);
    if u.publishDate.Some? {
      ExtendSets(defs, SetPublishDate(u.publishDate.value), done, done.(publishDate := u.publishDate));
      defs := defs + [SetPublishDate(u.publishDate.value)];
    }
    done := done.(publishDate := u.publishDate);
    assert done == u;
  }

  /** UpdateOneAsync(Id == id, update): the book with that Id takes the update; nothing else
      changes. */
  function UpdateOne(books: seq<Book>, id: Guid, u: UpdateBookDto): (r: seq<Book>)
    ensures |r| == |books|
    ensures forall j :: 0 <= j < |books| && books[j].id != id ==> r[j] == books[j]
    ensures forall j :: 0 <= j < |books| ==> r[j].id == books[j].id
  {
    match FirstMatch(books, IdEquals(id))
    case None => books
    case Some(i) => books[i := ApplyUpdate(books[i], u)]
  }

  /** A repeated update finds nothing left to change, so its ModifiedCount is 0. */
  lemma ApplyUpdateIdempotent(b: Book, u: UpdateBookDto)
    ensures ApplyUpdate(ApplyUpdate(b, u), u) == ApplyUpdate(b, u)
  {
  }

  /** An update that passes its attributes keeps a valid book valid, provided a supplied
      Author is not all white space (its [StringLength] alone lets "   " through, and Book's
      [Required] would then fail). */
  lemma ApplyUpdateKeepsValidity(b: Book, u: UpdateBookDto)
    requires IsValidBook(b) && IsValidUpdate(u)
    requires u.author.Some? ==> !Text.IsBlank(u.author.value)
    ensures IsValidBook(ApplyUpdate(b, u))
  {
  }

  /** The condition above is needed: an Author of white space only passes the update's
      attributes and is written, and the stored book then breaks its own [Required] Author. */
  lemma BlankAuthorUpdateBreaksValidity(b: Book)
    requires IsValidBook(b)
    ensures var u := UpdateBookDto(b.title, Some(" "), None, None, None);
      IsValidUpdate(u) && !IsValidBook(ApplyUpdate(b, u))
  {
    assert Text.IsWhiteSpace(" "[0]);
  }

  /** The exception InsertOneAsync raises on a taken `_id`. */
  const DUPLICATE_KEY_MESSAGE := "E11000 duplicate key error"

  lemma {:induction false} IdsDistinctAppend(books: seq<Book>, b: Book)
    requires IdsDistinct(books) && !Contains(books, IdEquals(b.id))
    ensures IdsDistinct(books + [b])
  {
    forall i, j | 0 <= i < j < |books + [b]| ensures (books + [b])[i].id != (books + [b])[j].id {
      if j == |books| {
        assert !Matches(IdEquals(b.id), books[i]);
      }
    }
  }

  /** An insert whose Title is not taken keeps titles distinct. */
  lemma {:induction false} TitlesDistinctAppend(books: seq<Book>, b: Book)
    requires TitlesDistinct(books) && !Contains(books, TitleEquals(b.title))
    ensures TitlesDistinct(books + [b])
  {
    forall i, j | 0 <= i < j < |books + [b]| ensures (books + [b])[i].title != (books + [b])[j].title {
      if j == |books| {
        assert !Matches(TitleEquals(b.title), books[i]);
      }
    }
  }

  /** A delete keeps Ids distinct. */
  lemma DeleteOneKeepsIdsDistinct(books: seq<Book>, f: Filter)
    requires IdsDistinct(books)
    ensures IdsDistinct(DeleteOne(books, f))
  {
    DeleteOneShape(books, f);
    if Contains(books, f) {
      var i, r := FirstMatch(books, f).value, DeleteOne(books, f);
      DeleteOneAt(books, f);
      forall j, k | 0 <= j < k < |r| ensures r[j].id != r[k].id {
        assert r[j] == books[if j < i then j else j + 1];
        assert r[k] == books[if k < i then k else k + 1];
      }
    }
  }

  /** A delete keeps titles distinct. */
  lemma DeleteOneKeepsTitlesDistinct(books: seq<Book>, f: Filter)
    requires TitlesDistinct(books)
    ensures TitlesDistinct(DeleteOne(books, f))
  {
    DeleteOneShape(books, f);
    if Contains(books, f) {
      var i, r := FirstMatch(books, f).value, DeleteOne(books, f);
      DeleteOneAt(books, f);
      forall j, k | 0 <= j < k < |r| ensures r[j].title != r[k].title {
        assert r[j] == books[if j < i then j else j + 1];
        assert r[k] == books[if k < i then k else k + 1];
      }
    }
  }

  /** An update keeps titles distinct when its Title is the target's own or is not taken. */
  lemma UpdateOneKeepsTitlesDistinct(books: seq<Book>, id: Guid, u: UpdateBookDto)
    requires TitlesDistinct(books)
    requires FirstMatch(books, IdEquals(id)).Some? ==>
      u.title == books[FirstMatch(books, IdEquals(id)).value].title || !Contains(books, TitleEquals(u.title))
    ensures TitlesDistinct(UpdateOne(books, id, u))
  {
    match FirstMatch(books, IdEquals(id))
    case None =>
    case Some(i) =>
      var r := UpdateOne(books, id, u);
      forall j, k | 0 <= j < k < |r| ensures r[j].title != r[k].title {
        if j == i {
          assert !Matches(TitleEquals(u.title), books[k]) || u.title == books[i].title;
        } else if k == i {
          assert !Matches(TitleEquals(u.title), books[j]) || u.title == books[i].title;
        }
      }
  }

  /** After an insert the new book is found by its Id. */
  lemma GetAfterAdd(books: seq<Book>, b: Book)
    requires !Contains(books, IdEquals(b.id))
    ensures FindFirst(books + [b], IdEquals(b.id)) == Some(b)
  {
    var s := books + [b];
    forall j | 0 <= j < |s| && j != |books| ensures !Matches(IdEquals(b.id), s[j]) {
      assert s[j] == books[j];
    }
    FindFirstUnique(s, IdEquals(b.id), |books|);
  }

  /** After an insert of an untaken Title the new book is found by that Title. */
  lemma GetByTitleAfterAdd(books: seq<Book>, b: Book)
    requires !Contains(books, TitleEquals(b.title))
    ensures FindFirst(books + [b], TitleEquals(b.title)) == Some(b)
  {
    var s := books + [b];
    forall j | 0 <= j < |s| && j != |books| ensures !Matches(TitleEquals(b.title), s[j]) {
      assert s[j] == books[j];
    }
    FindFirstUnique(s, TitleEquals(b.title), |books|);
  }

  /** After an update the book with that Id is the old one with the update applied. */
  lemma GetAfterUpdate(books: seq<Book>, id: Guid, u: UpdateBookDto)
    requires IdsDistinct(books) && Contains(books, IdEquals(id))
    ensures var old_ := FindFirst(books, IdEquals(id)).value;
      FindFirst(UpdateOne(books, id, u), IdEquals(id)) == Some(ApplyUpdate(old_, u))
  {
    var i := FirstMatch(books, IdEquals(id)).value;
    var r := UpdateOne(books, id, u);
    forall j | 0 <= j < |r| && j != i ensures !Matches(IdEquals(id), r[j]) {
      if j < i { } else { assert books[i].id != books[j].id; }
    }
    FindFirstUnique(r, IdEquals(id), i);
  }

  /** After a delete by a unique key nothing is found under that key. */
  lemma GetAfterDelete(books: seq<Book>, f: Filter)
    requires f.IdEquals? ==> IdsDistinct(books)
    requires f.TitleEquals? ==> TitlesDistinct(books)
    ensures FindFirst(DeleteOne(books, f), f).None?
  {
    DeleteOneShape(books, f);
    if Contains(books, f) {
      var i, r := FirstMatch(books, f).value, DeleteOne(books, f);
      DeleteOneAt(books, f);
      forall k | 0 <= k < |r| ensures !Matches(f, r[k]) {
        if k >= i {
          assert r[k] == books[k + 1];
          if f.IdEquals? { assert books[i].id != books[k + 1].id; }
          else { assert books[i].title != books[k + 1].title; }
        }
      }
    }
  }

  /** The collection behind IBookRepository. */
  class BookRepository {
    var books: seq<Book>

    ghost predicate Valid()
      reads this
    {
      IdsDistinct(books)
    }

    constructor(initial: seq<Book>)
      requires IdsDistinct(initial)
      ensures Valid() && books == initial
    {
      books := initial;
    }

    /** AddBookAsync: InsertOneAsync appends the book, or raises on a taken `_id`; no Title
        check is made. */
    method AddBook(book: Book) returns (r: Result<Book, Error>)
      requires Valid()
      modifies this
      ensures Valid()
      ensures Contains(old(books), IdEquals(book.id)) ==>
        r == Failure(StorageError(DUPLICATE_KEY_MESSAGE)) && books == old(books)
      ensures !Contains(old(books), IdEquals(book.id)) ==>
        r == Success(book) && books == old(books) + [book]
    {
      if FirstMatch(books, IdEquals(book.id)).Some? {
        return Failure(StorageError(DUPLICATE_KEY_MESSAGE));
      }
      IdsDistinctAppend(books, book);
      books := books + [book];
      return Success(book);
    }

    /** GetAllBooksAsync: every stored book, in store order. */
    method GetAllBooks() returns (r: seq<Book>)
      ensures r == books
    {
      r := books;
    }

    /** GetBookByIdAsync. */
    method GetBookById(id: Guid) returns (r: Option<Book>)
      requires Valid()
      ensures r == FindFirst(books, IdEquals(id))
      ensures r.Some? <==> Contains(books, IdEquals(id))
      ensures r.Some? ==> r.value.id == id && r.value in books
    {
      r := FindFirst(books, IdEquals(id));
    }

    /** GetBookByTitleAsync: the first book whose Title equals the argument exactly. */
    method GetBookByTitle(title: string) returns (r: Option<Book>)
      ensures r == FindFirst(books, TitleEquals(title))
      ensures r.Some? <==> Contains(books, TitleEquals(title))
      ensures r.Some? ==> r.value.title == title && r.value in books
    {
      r := FindFirst(books, TitleEquals(title));
    }

    /** UpdateBookAsync: true iff ModifiedCount > 0, i.e. a book has that Id and the update
        changes it. */
    method UpdateBook(id: Guid, u: UpdateBookDto) returns (modified: bool)
      requires Valid()
      modifies this
      ensures Valid()
      ensures books == UpdateOne(old(books), id, u)
      ensures modified <==> Contains(old(books), IdEquals(id))
                            && ApplyUpdate(FindFirst(old(books), IdEquals(id)).value, u) != FindFirst(old(books), IdEquals(id)).value
    {
      var defs := BuildUpdateDefinition(u);
      var found := FirstMatch(books, IdEquals(id));
      if found.None? {
        return false;
      }
      var i := found.value;
      var updated := ApplySets(books[i], defs);
      modified := updated != books[i];
      books := books[i := updated];
    }

    /** DeleteBookAsync: true iff a book with that Id was removed. */
    method DeleteBook(id: Guid) returns (deleted: bool)
      requires Valid()
      modifies this
      ensures Valid()
      ensures books == DeleteOne(old(books), IdEquals(id))
      ensures deleted <==> Contains(old(books), IdEquals(id))
    {
      deleted := FirstMatch(books, IdEquals(id)).Some?;
      DeleteOneKeepsIdsDistinct(books, IdEquals(id));
      books := DeleteOne(books, IdEquals(id));
    }

    /** DeleteBookByTitleAsync: removes the first book with that Title, if any. */
    method DeleteBookByTitle(title: string) returns (deleted: bool)
      requires Valid()
      modifies this
      ensures Valid()
      ensures books == DeleteOne(old(books), TitleEquals(title))
      ensures deleted <==> Contains(old(books), TitleEquals(title))
    {
      deleted := FirstMatch(books, TitleEquals(title)).Some?;
      DeleteOneKeepsIdsDistinct(books, TitleEquals(title));
      books := DeleteOne(books, TitleEquals(title));
    }

    /** BookExistsAsync: CountDocumentsAsync(Title == title) > 0. */
    method BookExists(title: string) returns (r: bool)
      ensures r <==> Contains(books, TitleEquals(title))
    {
      CountPositiveIffContains(books, TitleEquals(title));
      r := CountMatches(books, TitleEquals(title)) > 0;
    }
  }
}
