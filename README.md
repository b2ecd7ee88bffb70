# MongoDbCrudOperations — a Dafny model of the book pipeline

MongoDbCrudOperations is a console application. It keeps a catalogue of books in a MongoDB
collection. This project models the core that runs for each user command:

- the **Mapper** turns the fields a user typed into a `CreateBookDto`, an `UpdateBookDto` or a
  `Guid`;
- the **ValidationService** checks a record's DataAnnotations attributes and joins the failed
  messages into one `ValidationResult`;
- the **BookService** guards every write: it validates the DTO, requires the book to exist and
  keeps titles unique;
- the **BookRepository** reads and writes the collection.

The FluentValidation rule sets in `Validators/BookValidators.cs` are modelled too. They are
registered with the container, but no code path runs them.

Modules follow the source's layers:

| module | file | models |
|---|---|---|
| `Wrappers`, `Exceptions` | wrappers.dfy | `null` as `Option`, thrown exceptions as `Result` failures |
| `Text` | text.dfy | `string.Trim`, `IsNullOrWhiteSpace`, `string.Join`, line splitting |
| `Numbers` | numbers.dfy | `Int32`, `int.Parse`/`int.TryParse`, `Int32.ToString()` |
| `Dates` | dates.dfy | calendar dates, the `yyyy-MM-dd` form |
| `Guids` | guids.dfy | 128-bit Guids as 32 nibbles, the "D" text form |
| `Annotations` | annotations.dfy | `[Required]`, `[StringLength]`, `[Range]` and their default messages |
| `Entities` | book.dfy | `Book`, its attributes and `ToString()` |
| `Dto` | dto.dfy | `CreateBookDto`, `UpdateBookDto` and their attributes |
| `Validation` | validation.dfy | `ValidationService`, `ValidationResult` |
| `BookValidators` | validators.dfy | `BookValidator`, `CreateBookDtoValidator`, `UpdateBookDtoValidator` |
| `Mapper` | mapper.dfy | `Mapper` |
| `Repository` | repository.dfy | `BookRepository` as a class over `seq<Book>` |
| `Services` | book_service.dfy | `BookService` as a class holding its repository |

The stateful parts are classes:

- `Repository.BookRepository` holds the collection as a `seq<Book>` field, in insertion order.
- `Services.BookService` holds its repository.

Each of their methods states the new collection in terms of the old one, using the functions
`FindFirst`, `DeleteOne` and `UpdateOne`. The invariants, and who keeps them:

- Ids are distinct: `_id` is the unique key. Every `BookRepository` method keeps this; it is
  the class invariant `Valid()`.
- Titles are distinct. The repository does not keep this: `AddBook` and `UpdateBook` write any
  Title. Every `BookService` write keeps it, through its title guards.
- Every stored book passes its attributes. The repository does not keep this either.
  `BookService.CreateBook`, `DeleteBook` and `DeleteBookByTitle` keep it outright.
  `BookService.UpdateBook` and `UpdateBookByTitle` keep it only when a given Author is not
  blank.

The condition on the Author is the source's own behaviour, not a gap in the proof.
`UpdateBookDto.Author` carries `[StringLength(100, MinimumLength = 1)]` but no `[Required]`, so
an Author of spaces passes validation. `UpdateBookAsync` then writes any non-empty Author, and
the stored book breaks `Book`'s `[Required]` Author. `Repository.BlankAuthorUpdateBreaksValidity`
exhibits such an update. The console input never supplies one, because `MapToUpdateBookDtoAsync`
drops blank fields (`Mapper.UpdateCandidateFields`).

`MapToUpdateBookDto` fills its DTO one optional field at a time, and it is a method. Its result
is tied to the function `UpdateCandidate`. `BuildUpdateDefinition` chains one `Set` per
supplied field, and is also a method. It is proved equal, on every book, to the function
`ApplyUpdate`.

Names drop the `Async` suffix. A thrown exception becomes a `Failure` holding an `Error`
value. For `ArgumentException` and `InvalidOperationException` it keeps the source's type,
message and parameter name. The overflow and store errors are simplified, as listed under
"Left out".

## Model

| member | source | states |
|---|---|---|
| Text.TrimShape | MongoDbCrudOperations/Mapper/Mapper.cs:27 | `Trim` yields a slice of its input with only white space cut from either end, and the result neither starts nor ends with white space |
| Text.TrimEmptyIffBlank | MongoDbCrudOperations/Mapper/Mapper.cs:69 | the trimmed text is empty exactly when `IsNullOrWhiteSpace` holds of the input |
| Text.TrimIdempotent | MongoDbCrudOperations/Mapper/Mapper.cs:27-29 | trimming a trimmed field changes nothing |
| Text.JoinNonEmpty | MongoDbCrudOperations/Services/ValidationService.cs:23 | a join whose first part is not empty is not empty, which makes a failed validation's message non-empty |
| Text.SplitJoin | MongoDbCrudOperations/Entities/Book.cs:31 | joining lines that hold no separator with that separator, then splitting on it, gives back the lines |
| Numbers.NatToDigitsValue | MongoDbCrudOperations/Entities/Book.cs:31 | the decimal digits written for a number read back as that number |
| Numbers.FormatIntShape | MongoDbCrudOperations/Entities/Book.cs:31 | `Int32.ToString()` writes an optional '-' and the digits, with no sign '+' and no white space |
| Numbers.FormatParseInt | MongoDbCrudOperations/Services/ValidationService.cs:29-32 | `int.Parse` reads back every written integer, and reports overflow exactly outside the Int32 range |
| Dates.PadDigitsValue | MongoDbCrudOperations/Entities/Book.cs:31 | a zero-padded field of the date reads back as its number |
| Dates.ParseDateParts | MongoDbCrudOperations/Services/ValidationService.cs:34-37 | four, two and two digits joined by '-' parse to that calendar date exactly when it exists |
| Dates.FormatParseDate | MongoDbCrudOperations/Services/ValidationService.cs:34-37 | a date written as `yyyy-MM-dd` parses back to the same date |
| Dates.ParseFormatDate | MongoDbCrudOperations/Services/ValidationService.cs:34-37 | a text that parses as a date is exactly the `yyyy-MM-dd` form of that date |
| Guids.HexRoundTrip | MongoDbCrudOperations/Entities/Book.cs:31 | hex digits written for nibbles read back as the same nibbles |
| Guids.HexLower | MongoDbCrudOperations/Mapper/Mapper.cs:117 | reading hex digits and writing them again gives their lower-case form |
| Guids.FormatParseGuid | MongoDbCrudOperations/Mapper/Mapper.cs:117 | `Guid.TryParse` reads back what `Guid.ToString()` writes |
| Guids.ParseFormatGuid | MongoDbCrudOperations/Mapper/Mapper.cs:117 | a parsed Guid prints as the input text in lower case |
| Annotations.RequiredStringMembers | MongoDbCrudOperations/Entities/Book.cs:13-19 | `[Required]` with `[StringLength]` reports the property exactly when it is blank or its length is out of range |
| Annotations.StringLengthMembers | MongoDbCrudOperations/Dto/UpdateBookDto.cs:11-15 | `[StringLength]` alone passes null and reports a supplied value exactly when its length is out of range |
| Annotations.RangeMembers | MongoDbCrudOperations/Entities/Book.cs:24 | `[Range]` passes null and reports a value exactly when it lies outside the bounds |
| Annotations.FourReports | MongoDbCrudOperations/Entities/Book.cs:13-25 | the four checked properties are reported each at most once: the list is empty exactly when all pass, and holds each property exactly when it fails |
| Annotations.MessageNonEmpty | MongoDbCrudOperations/Services/ValidationService.cs:22 | every failed attribute produces a non-empty message, given that `[Range]`'s own message is not empty |
| Annotations.RequiredStringShown | MongoDbCrudOperations/Services/ValidationService.cs:22 | `[Required]` with `[StringLength]` yields no violation with an empty message, so the `Where` filter drops none of them |
| Annotations.StringLengthShown | MongoDbCrudOperations/Services/ValidationService.cs:22 | `[StringLength]` yields no violation with an empty message |
| Annotations.RangeShown | MongoDbCrudOperations/Services/ValidationService.cs:22 | `[Range]` with a non-empty ErrorMessage yields no violation with an empty message |
| Entities.FieldViolationsByMember | MongoDbCrudOperations/Entities/Book.cs:13-25 | a Book has no failed attribute exactly when Author, Title, Description and PageCount each meet their rule, and each field that breaks its rule is reported |
| Entities.ToStringLines | MongoDbCrudOperations/Entities/Book.cs:29-32 | `ToString()` is six lines: Id, Author, Title, Description, PageCount and the `yyyy-MM-dd` PublishDate, each after its label. This holds when no text field holds a line break |
| Entities.LinesHaveNoNewline | MongoDbCrudOperations/Entities/Book.cs:31 | the Id, PageCount and PublishDate texts never hold a line break |
| Entities.LinesJoin | MongoDbCrudOperations/Entities/Book.cs:31 | the labelled lines joined with "\n" are exactly `ToString()` |
| Dto.UpdateMembers | MongoDbCrudOperations/Dto/UpdateBookDto.cs:7-18 | the update's checks report Title, Author, Description and PageCount in declaration order, each when its rule fails |
| Dto.UpdateViolationsByMember | MongoDbCrudOperations/Dto/UpdateBookDto.cs:7-20 | an UpdateBookDto has no failed attribute exactly when each field meets its rule, with null passing. Each failing field is reported, and PublishDate never is |
| Dto.CreatePublishDateUnconstrained | MongoDbCrudOperations/Dto/CreateBookDto.cs:21 | PublishDate carries no attribute: changing it, even to a future date, changes no check |
| Dto.CreatePageCountBoundary | MongoDbCrudOperations/Dto/CreateBookDto.cs:18-19 | the default PageCount 0 fails `[Range]` with its own message, and any count from 1 passes |
| Validation.NonEmptyKeepsNonEmpty | MongoDbCrudOperations/Services/ValidationService.cs:22 | the `Where(!IsNullOrEmpty)` filter keeps a list with no empty message as it is |
| Validation.ViolationsMatchAnnotations | MongoDbCrudOperations/Services/ValidationService.cs:16-18 | `TryValidateObject` leaves no result exactly when every attribute of the model holds |
| Validation.ViolationMessagesNonEmpty | MongoDbCrudOperations/Services/ValidationService.cs:22 | every result `TryValidateObject` leaves carries a non-empty message |
| Validation.Validate | MongoDbCrudOperations/Services/ValidationService.cs:14-27 | the result is valid exactly when the attributes hold, and then it is `Success` with an empty message. Otherwise it is a failure whose non-empty message is every failed message, in order, joined by "; " |
| Validation.TryParseRoundTrips | MongoDbCrudOperations/Services/ValidationService.cs:29-37 | `TryParseInt` reads back every written Int32, and `TryParseDateTime` every `yyyy-MM-dd` date |
| BookValidators.FieldRulesAreAttributesPlusDate | MongoDbCrudOperations/Validators/BookValidators.cs:9-27 | the Book/CreateBookDto rule set passes exactly when the attributes hold and PublishDate is not after today |
| BookValidators.CreateValidatorAgainstAttributes | MongoDbCrudOperations/Validators/BookValidators.cs:32-50 | `CreateBookDtoValidator` passes exactly when the DTO's attributes hold and its date is not in the future |
| BookValidators.BookValidatorAgainstAttributes | MongoDbCrudOperations/Validators/BookValidators.cs:9-27 | `BookValidator` passes exactly when the Book's attributes hold and its date is not in the future |
| BookValidators.PublishDateBoundary | MongoDbCrudOperations/Validators/BookValidators.cs:25-26 | a book published today passes the date rule, and one published any later day fails it |
| BookValidators.UpdateValidatorAcceptsValidUpdates | MongoDbCrudOperations/Validators/BookValidators.cs:55-76 | whatever the update attributes accept, and whose date is not after today, `UpdateBookDtoValidator` accepts |
| BookValidators.UpdateValidatorAcceptsEmptyAuthor | MongoDbCrudOperations/Validators/BookValidators.cs:61-63 | the converse fails: an empty Author passes `UpdateBookDtoValidator` but breaks `[StringLength(100, MinimumLength = 1)]` |
| BookValidators.UpdatePublishDateRule | MongoDbCrudOperations/Validators/BookValidators.cs:73-75 | on an update, a missing date or today's date passes the date rule, and a later date fails it |
| BookValidators.UpdateValidatorExactly | MongoDbCrudOperations/Validators/BookValidators.cs:55-76 | `UpdateBookDtoValidator` passes exactly when its rules hold. Title is always checked; Author and Description only when given and not empty; PageCount and PublishDate only when given. Each rule's message is in the list exactly when that rule fails |
| Mapper.MapToCreateBookDto | MongoDbCrudOperations/Mapper/Mapper.cs:16-52 | the input must have five fields; an out-of-range PageCount rethrows the overflow. A malformed PageCount or PublishDate gives "Invalid format for PageCount or PublishDate". Otherwise the trimmed fields are the DTO, returned exactly when it validates, else "Validation failed: " and the joined messages |
| Mapper.MapToUpdateBookDto | MongoDbCrudOperations/Mapper/Mapper.cs:54-108 | an empty input is refused. Otherwise the DTO built from the fields is returned when it validates, else rejected with the joined messages. It succeeds exactly when that DTO passes its attributes |
| Mapper.TitleOnlyUpdate | MongoDbCrudOperations/Mapper/Mapper.cs:63-66 | with only a Title the optional fields stay null |
| Mapper.UpdateIgnoresExtraFields | MongoDbCrudOperations/Mapper/Mapper.cs:69-93 | fields after the fifth have no effect |
| Mapper.UpdateCandidateFields | MongoDbCrudOperations/Mapper/Mapper.cs:63-93 | the Title is field 0 trimmed. Author and Description are set exactly when field 3 or 4 is there and not blank; they are then that field trimmed, and not empty or blank. PageCount and PublishDate are set exactly when field 1 or 2 is there, not blank and parses, and then they are what it parses to |
| Mapper.MapToGuid | MongoDbCrudOperations/Mapper/Mapper.cs:110-123 | blank text is refused with parameter name "input", and unparsable text with "Invalid GUID format". Non-blank text whose trimmed form parses is accepted with the parsed Guid, which prints as the trimmed input in lower case |
| Mapper.MapToGuidOfFormat | MongoDbCrudOperations/Mapper/Mapper.cs:117-119 | the text `Guid.ToString()` writes maps back to the same Guid |
| Repository.FirstMatch | MongoDbCrudOperations/Repository/BookRepository.cs:70-71 | the position found is the first that matches the filter, and there is none exactly when no book matches |
| Repository.FindFirst | MongoDbCrudOperations/Repository/BookRepository.cs:70-71 | `FirstOrDefault` returns a stored matching book exactly when one exists, else null |
| Repository.FindFirstUnique | MongoDbCrudOperations/Repository/BookRepository.cs:70-71 | when only one book matches, that book is returned |
| Repository.CountPositiveIffContains | MongoDbCrudOperations/Repository/BookRepository.cs:160-161 | `CountDocuments(filter) > 0` holds exactly when some book matches |
| Repository.DeleteOneShape | MongoDbCrudOperations/Repository/BookRepository.cs:130 | `DeleteOne` cuts out exactly the first matching book, or nothing when none matches |
| Repository.DeleteOneAt | MongoDbCrudOperations/Repository/BookRepository.cs:130 | after a delete the books before the match stay in place, and the later ones move down one |
| Repository.DeleteOneCount | MongoDbCrudOperations/Repository/BookRepository.cs:130-132 | a delete removes one book, the one found, when one matches, and otherwise nothing |
| Repository.ApplySetsSnoc | MongoDbCrudOperations/Repository/BookRepository.cs:101-113 | a chained `Set` applies after the ones before it |
| Repository.BuildUpdateDefinition | MongoDbCrudOperations/Repository/BookRepository.cs:98-113 | the update definition starts with `Set(Title)` and has one to five `Set`s. Applied to any book, it has the effect of the DTO: Title always, Author and Description when not null or empty, PageCount and PublishDate when they have a value |
| Repository.UpdateOne | MongoDbCrudOperations/Repository/BookRepository.cs:115 | `UpdateOne` keeps the collection's length and every Id, and changes no book with another Id |
| Repository.ApplyUpdateIdempotent | MongoDbCrudOperations/Repository/BookRepository.cs:115-117 | a repeated update finds nothing left to change, so it reports `false` |
| Repository.ApplyUpdateKeepsValidity | MongoDbCrudOperations/Repository/BookRepository.cs:98-113 | a valid update applied to a valid book leaves it valid, provided a given Author is not blank |
| Repository.BlankAuthorUpdateBreaksValidity | MongoDbCrudOperations/Repository/BookRepository.cs:103-104 | the condition is needed: an update whose Author is one space passes the update attributes, yet turns any valid book into one that fails `[Required]` Author |
| Repository.IdsDistinctAppend | MongoDbCrudOperations/Repository/BookRepository.cs:39 | inserting an untaken `_id` keeps Ids unique |
| Repository.TitlesDistinctAppend | MongoDbCrudOperations/Services/BookService.cs:39-54 | inserting an untaken Title keeps titles unique |
| Repository.DeleteOneKeepsIdsDistinct | MongoDbCrudOperations/Repository/BookRepository.cs:130 | a delete keeps Ids unique |
| Repository.DeleteOneKeepsTitlesDistinct | MongoDbCrudOperations/Repository/BookRepository.cs:145 | a delete keeps titles unique |
| Repository.UpdateOneKeepsTitlesDistinct | MongoDbCrudOperations/Services/BookService.cs:92-99 | an update keeps titles unique when its Title is the target's own or is free |
| Repository.GetAfterAdd | MongoDbCrudOperations/Repository/BookRepository.cs:35-48 | after an insert the new book is found by its Id |
| Repository.GetByTitleAfterAdd | MongoDbCrudOperations/Repository/BookRepository.cs:80-92 | after an insert of an untaken Title the new book is found by that Title |
| Repository.GetAfterUpdate | MongoDbCrudOperations/Repository/BookRepository.cs:94-124 | after an update the book with that Id is the old one with the update applied |
| Repository.GetAfterDelete | MongoDbCrudOperations/Repository/BookRepository.cs:126-154 | after a delete by a unique key nothing is found under that key |
| Repository.BookRepository.constructor | MongoDbCrudOperations/Repository/BookRepository.cs:27-33 | the repository starts over a given collection whose Ids are unique |
| Repository.BookRepository.AddBook | MongoDbCrudOperations/Repository/BookRepository.cs:35-48 | a taken `_id` raises the duplicate-key error and stores nothing. Otherwise the book is appended and returned unchanged, with no check on its Title |
| Repository.BookRepository.GetAllBooks | MongoDbCrudOperations/Repository/BookRepository.cs:50-64 | every stored book, in store order |
| Repository.BookRepository.GetBookById | MongoDbCrudOperations/Repository/BookRepository.cs:66-78 | the book with that Id, or null exactly when there is none |
| Repository.BookRepository.GetBookByTitle | MongoDbCrudOperations/Repository/BookRepository.cs:80-92 | the first book whose Title equals the argument exactly, or null exactly when there is none |
| Repository.BookRepository.UpdateBook | MongoDbCrudOperations/Repository/BookRepository.cs:94-124 | the book with that Id takes the update and nothing else changes. The result is `true` exactly when such a book exists and the update changes it |
| Repository.BookRepository.DeleteBook | MongoDbCrudOperations/Repository/BookRepository.cs:126-139 | the book with that Id is removed, and the result is `true` exactly when there was one |
| Repository.BookRepository.DeleteBookByTitle | MongoDbCrudOperations/Repository/BookRepository.cs:141-154 | the first book with that Title is removed, and the result is `true` exactly when there was one |
| Repository.BookRepository.BookExists | MongoDbCrudOperations/Repository/BookRepository.cs:156-168 | `true` exactly when a stored book has that Title |
| Services.NewBook | MongoDbCrudOperations/Services/BookService.cs:44-52 | the new Book has the fresh Id and the DTO's five fields, and a valid DTO makes a valid Book |
| Services.FindStoredById | MongoDbCrudOperations/Services/BookService.cs:116-129 | with unique Ids, the book found by title is found again by its own Id |
| Services.AllValidAppend | MongoDbCrudOperations/Services/BookService.cs:30-55 | inserting a valid book keeps every stored book valid |
| Services.AllValidUpdate | MongoDbCrudOperations/Services/BookService.cs:77-100 | a valid update whose Author, if given, is not blank keeps every stored book valid |
| Services.AllValidDelete | MongoDbCrudOperations/Services/BookService.cs:132-157 | a delete keeps every stored book valid |
| Services.BookService.constructor | MongoDbCrudOperations/Services/BookService.cs:22-28 | the service uses the repository it is given |
| Services.BookService.CreateBook | MongoDbCrudOperations/Services/BookService.cs:30-55 | an invalid DTO fails validation, then a taken Title fails. It succeeds exactly when neither happens: the new Book is appended and returned. A failure stores nothing, and unique titles and valid books are kept |
| Services.BookService.GetAllBooks | MongoDbCrudOperations/Services/BookService.cs:57-60 | the repository's books, unchanged |
| Services.BookService.GetBookById | MongoDbCrudOperations/Services/BookService.cs:62-65 | the book with that Id, or null exactly when there is none |
| Services.BookService.GetBookByTitle | MongoDbCrudOperations/Services/BookService.cs:67-75 | a blank title is refused with parameter name "title". Otherwise the result is the repository's first book with that Title, or null |
| Services.BookService.UpdateBook | MongoDbCrudOperations/Services/BookService.cs:77-100 | these guards apply in order: validation, a missing Id, then a new Title held by another book. If all pass, the book is updated and the result is whether it changed. A failure stores nothing; unique titles are kept, and so are valid books when a given Author is not blank |
| Services.BookService.UpdateBookByTitle | MongoDbCrudOperations/Services/BookService.cs:102-130 | these guards apply in order: validation, a blank title, a missing title, then a new Title that is taken. If all pass, the book found by title is updated by its Id. The same keep-guarantees as `UpdateBook` hold |
| Services.BookService.WriteUpdate | MongoDbCrudOperations/Services/BookService.cs:99 | the repository write both updates end in: the stored book takes the update, and the result is whether it changed. Unique titles and valid books are kept |
| Services.BookService.DeleteBook | MongoDbCrudOperations/Services/BookService.cs:132-141 | a missing Id is an error and stores nothing. Otherwise the book is removed and the result is `true` |
| Services.BookService.DeleteBookByTitle | MongoDbCrudOperations/Services/BookService.cs:143-157 | a blank title, then a missing title, are errors. Otherwise the first book with that Title is removed and the result is `true` |
| Services.BookService.BookExists | MongoDbCrudOperations/Services/BookService.cs:159-167 | `true` exactly when the title is not blank and a stored book has it |
| Services.CreateThenRead | MongoDbCrudOperations/Services/BookService.cs:30-75 | after a successful create, reading back by title and by Id both return the new Book |

## Left out

- The console front end, menus and dependency wiring are not part of this model. These are
  `Program.cs`, `Application/Application.cs`, `Ui/GenerateUis.cs` and `Enums/OperationEnum.cs`.
  The MongoDB settings in `Configuration/MongoDbSettings.cs` are left out too. Each of these
  only reads input, prints, or builds objects.
- Logging is left out. It has no effect on results.
- `async`/`await` and `Task` are left out. Each operation is modelled as one atomic step.
- Concurrency is left out. Another client can insert the same Title between `BookExists` and
  `AddBook`; the model has a single writer.
- The `catch (Exception) { ...; throw; }` blocks are left out. They rethrow unchanged, so a
  failure passes through as it is.
- Store failures other than the duplicate `_id` are left out: network errors, timeouts and
  server errors come from the driver.
- `null` arguments are left out. Dafny strings and sequences cannot be null. Where the source
  tests `IsNullOrWhiteSpace`, the model tests blankness, which is what the check does for
  non-null text.
- Repository.BookRepository.constructor: does not model opening the MongoDB client, database
  and collection from the settings; the repository starts over a given sequence of books.
- Services.BookService.CreateBook: takes `Guid.NewGuid()` as a parameter and requires it to be
  unused. The collision case (the duplicate-key error) is therefore stated only in
  `Repository.BookRepository.AddBook`.
- Mapper.MapToCreateBookDto: `DateTime.Parse` is modelled for the `yyyy-MM-dd` form only. It is
  a date, with no time of day. The other culture-dependent forms the call accepts are left out.
  So are the time zone conversion the driver applies when storing a `DateTime` and the
  `DateTime` bounds checks.
- Validation.TryParseDateTime: the same restriction to `yyyy-MM-dd` applies.
- Numbers.FormatParseInt: the integer grammar is the model's own approximation of `int.Parse`
  under `NumberStyles.Integer`. It is optional white space, then an optional sign with
  invariant-culture symbols, then ASCII digits, then optional white space. Other cultures' sign
  symbols are left out. So are the trailing NUL characters that .NET's parser also accepts.
- Mapper.MapToGuid: `Guid.TryParse` is modelled for the "D" form (8-4-4-4-12 hex digits) only.
  The "N", "B", "P" and "X" forms it also accepts are left out.
- String lengths are counted in Dafny characters. `string.Length` counts UTF-16 code units, so
  the two differ for characters outside the Basic Multilingual Plane.
- Overflow: the `OverflowException` that `int.Parse` throws is rethrown as it is. The model
  keeps only its type, not its message text.
- StorageError: a taken `_id` is modelled as a `StorageError` with the message "E11000 duplicate
  key error". The driver's actual exception is a `MongoWriteException`, and its full message
  text is left out.
- Mapper.MapToCreateBookDto: the "Invalid format" `ArgumentException` the source throws carries
  the `FormatException` as its inner exception. The model drops the inner exception.
- Messages are the attributes' default English messages. Localised resources are left out.
- The rule value `DateTime.Today` is a parameter of the FluentValidation rule sets. Nothing in
  the core calls those validators, so their results reach no caller.
- Repository.BookRepository.UpdateBook: `ModifiedCount` is modelled as the server reports it:
  one when the book is found and the update changes at least one field, otherwise zero.

A future PublishDate is accepted on the path the program runs. The DataAnnotations attributes
on the records carry no date rule, and only the FluentValidation validators have one. The model
follows the code here: `Dto.CreatePublishDateUnconstrained` states that the attributes ignore
the date, and `BookValidators.PublishDateBoundary` states the rule the unused validators would
apply.
