/** ValidationService: runs a record's attribute checks and folds the outcome into one
    ValidationResult; also the TryParse helpers the Mapper uses. */
module Validation {
  import opened Wrappers
  import opened Text
  import opened Numbers
  import opened Dates
  import opened Annotations
  import opened Entities
  import opened Dto

  /** The records ValidateAsync<T> is called with. */
  datatype Model = BookModel(book: Book) | CreateModel(create: CreateBookDto) | UpdateModel(update: UpdateBookDto)

  /** What Validator.TryValidateObject(model, context, results, validateAllProperties: true)
      leaves in `results`: every failed attribute of every property. */
  function Violations(m: Model): seq<Violation> {
    match m
    case BookModel(b) => BookViolations(b)
    case CreateModel(d) => CreateViolations(d)
    case UpdateModel(u) => UpdateViolations(u)
  }

  predicate AnnotationsHold(m: Model) {
    match m
    case BookModel(b) => IsValidBook(b)
    case CreateModel(d) => IsValidCreate(d)
    case UpdateModel(u) => IsValidUpdate(u)
  }

  datatype ValidationResult = ValidationResult(isValid: bool, errorMessage: string)

  /** ValidationResult.Success: valid, with the constructor's default empty message. */
  function Success(): ValidationResult {
    ValidationResult(true, "")
  }

  /** ValidationResult.Failure(errorMessage). */
  function Failure(errorMessage: string): ValidationResult {
    ValidationResult(false, errorMessage)
  }

  function Messages(vs: seq<Violation>): (ms: seq<string>)
    ensures |ms| == |vs|
  {
    seq(|vs|, i requires 0 <= i < |vs| => Message(vs[i]))
  }

  /** `.Where(m => !string.IsNullOrEmpty(m))`. */
  function NonEmpty(xs: seq<string>): seq<string> {
    if xs == [] then [] else (if xs[0] == "" then [] else [xs[0]]) + NonEmpty(xs[1..])
  }

  lemma {:induction false} NonEmptyKeepsNonEmpty(xs: seq<string>)
    requires forall k :: 0 <= k < |xs| ==> xs[k] != ""
    ensures NonEmpty(xs) == xs
  {
    if xs != [] {
      NonEmptyKeepsNonEmpty(xs[1..]);
    }
  }

  lemma ViolationsMatchAnnotations(m: Model)
    ensures Violations(m) == [] <==> AnnotationsHold(m)
  {
    match m
    case BookModel(b) => FieldViolationsByMember(b.author, b.title, b.description, b.pageCount);
    case CreateModel(d) => FieldViolationsByMember(d.author, d.title, d.description, d.pageCount);
    case UpdateModel(u) => UpdateViolationsByMember(u);
  }

  /** Only [Range] carries its own message, and the one it carries is not empty. */
  lemma ViolationMessagesNonEmpty(m: Model)
    ensures forall k :: 0 <= k < |Violations(m)| ==> Message(Violations(m)[k]) != ""
  {
    match m
    case BookModel(b) => FieldsShown(b.author, b.title, b.description, b.pageCount);
    case CreateModel(d) => FieldsShown(d.author, d.title, d.description, d.pageCount);
    case UpdateModel(u) =>
      var t := RequiredString("Title", u.title, 1, 200);
      var a := StringLength("Author", u.author, 1, 100);
      var d := StringLength("Description", u.description, 0, 1000);
      var p := Range("PageCount", PageCountValue(u.pageCount), 1, INT32_MAX, PAGE_COUNT_MESSAGE);
      RequiredStringShown("Title", u.title, 1, 200);
      StringLengthShown("Author", u.author, 1, 100);
      StringLengthShown("Description", u.description, 0, 1000);
      RangeShown("PageCount", PageCountValue(u.pageCount), 1, INT32_MAX, PAGE_COUNT_MESSAGE);
      ShownConcat(t, a);
      ShownConcat(t + a, d);
      ShownConcat(t + a + d, p);
  }

  lemma FieldsShown(author: string, title: string, description: string, pageCount: Int32)
    ensures Shown(FieldViolations(author, title, description, pageCount))
  {
    var a := RequiredString("Author", author, 1, 100);
    var t := RequiredString("Title", title, 1, 200);
    var d := StringLength("Description", Some(description), 0, 1000);
    var p := Range("PageCount", Some(pageCount as int), 1, INT32_MAX, PAGE_COUNT_MESSAGE);
    RequiredStringShown("Author", author, 1, 100);
    RequiredStringShown("Title", title, 1, 200);
    StringLengthShown("Description", Some(description), 0, 1000);
    RangeShown("PageCount", Some(pageCount as int), 1, INT32_MAX, PAGE_COUNT_MESSAGE);
    ShownConcat(a, t);
    ShownConcat(a + t, d);
    ShownConcat(a + t + d, p);
  }

  /** ValidateAsync: valid with an empty message exactly when every attribute holds; otherwise
      invalid, and the message is every failed attribute's message, in order, joined by "; ". */
  function Validate(m: Model): (r: ValidationResult)
    ensures r.isValid <==> AnnotationsHold(m)
    ensures r.isValid ==> r == Success()
    ensures !r.isValid ==> r == Failure(Join("; ", Messages(Violations(m)))) && r.errorMessage != ""
  {
    var results := Violations(m);
    ViolationsMatchAnnotations(m);
    ViolationMessagesNonEmpty(m);
    if results != [] then
      NonEmptyKeepsNonEmpty(Messages(results));
      JoinNonEmpty("; ", Messages(results));
      Failure(Join("; ", NonEmpty(Messages(results))))
    else Success()
  }

  /** TryParseInt: int.TryParse succeeds exactly when int.Parse returns a value, and with it. */
  function TryParseInt(input: string): Option<Int32> {
    match ParseInt(input)
    case Parsed(v) => Some(v)
    case _ => None
  }

  /** TryParseDateTime: DateTime.TryParse. */
  function TryParseDateTime(input: string): Option<Date> {
    ParseDate(input)
  }

  /** Every Int32 written by ToString is read back by TryParseInt; every date written as
      "yyyy-MM-dd" by TryParseDateTime. */
  lemma TryParseRoundTrips(n: Int32, d: Date)
    ensures TryParseInt(FormatInt(n)) == Some(n)
    ensures TryParseDateTime(FormatDate(d)) == Some(d)
  {
    FormatParseInt(n);
    FormatParseDate(d);
  }
}
